/** The compositing step itself: the RGBA array of the uploaded image is
    changed in place by two masked alpha assignments, driven by the RGBA
    array the drawing canvas returns, which has the image's own width and
    height. */
module Compositor {
  import opened Pixels
  import opened Images

  /** The contents of a two-dimensional pixel array as a grid value. */
  ghost function Snapshot(a: array2<Pixel>): (g: Image)
    reads a
    ensures IsRaster(g, a.Length0, a.Length1)
    ensures forall i, j :: 0 <= i < a.Length0 && 0 <= j < a.Length1 ==> g[i][j] == a[i, j]
  {
    seq(a.Length0, i requires 0 <= i < a.Length0 reads a =>
      seq(a.Length1, j requires 0 <= j < a.Length1 reads a => a[i, j]))
  }

  /** `img[area, 3] = v`: sets the alpha of every image pixel whose canvas
      pixel lies in `area`, row by row. Only alpha is written, and the colour
      tests read only red and green, so the result is the same even when the
      canvas and the image are one array. */
  method AssignAlphaWhere(img: array2<Pixel>, mask: array2<Pixel>, area: Area, v: Channel)
    requires mask.Length0 == img.Length0 && mask.Length1 == img.Length1
    modifies img
    ensures SameShape(old(Snapshot(img)), old(Snapshot(mask)))
    ensures Snapshot(img) == MaskedAssignImage(old(Snapshot(img)), old(Snapshot(mask)), area, v)
    ensures SameMarks(Snapshot(mask), old(Snapshot(mask)))
  {
    var h, w := img.Length0, img.Length1;
    var i := 0;
    while i < h
      invariant 0 <= i <= h
      invariant forall k, l :: 0 <= k < i && 0 <= l < w ==>
        img[k, l] == MaskedAssign(old(img[k, l]), old(mask[k, l]), area, v)
      invariant forall k, l :: i <= k < h && 0 <= l < w ==> img[k, l] == old(img[k, l])
      invariant forall k, l :: 0 <= k < h && 0 <= l < w ==> SameMark(mask[k, l], old(mask[k, l]))
    {
      var j := 0;
      while j < w
        invariant 0 <= j <= w
        invariant forall k, l :: 0 <= k < i && 0 <= l < w ==>
          img[k, l] == MaskedAssign(old(img[k, l]), old(mask[k, l]), area, v)
        invariant forall l :: 0 <= l < j ==>
          img[i, l] == MaskedAssign(old(img[i, l]), old(mask[i, l]), area, v)
        invariant forall l :: j <= l < w ==> img[i, l] == old(img[i, l])
        invariant forall k, l :: i < k < h && 0 <= l < w ==> img[k, l] == old(img[k, l])
        invariant forall k, l :: 0 <= k < h && 0 <= l < w ==> SameMark(mask[k, l], old(mask[k, l]))
      {
        if InArea(area, mask[i, j]) {
          img[i, j] := img[i, j].(a := v);
        }
        j := j + 1;
      }
      i := i + 1;
    }
    ghost var before, marks := old(Snapshot(img)), old(Snapshot(mask));
    ghost var after := Snapshot(img);
    ghost var expected := MaskedAssignImage(before, marks, area, v);
    forall k, l | 0 <= k < |after| && 0 <= l < |after[k]| ensures after[k][l] == expected[k][l] {
    }
    ImageEquality(after, expected);
  }

  /** The two assignments in program order: the red area of the canvas
      becomes fully transparent, then the green area fully opaque. The two
      areas are disjoint, so neither write undoes the other. Red, green and
      blue of every image
      pixel, and the geometry, are left as they were. */
  method Composite(img: array2<Pixel>, mask: array2<Pixel>)
    requires mask.Length0 == img.Length0 && mask.Length1 == img.Length1
    modifies img
    ensures SameShape(old(Snapshot(img)), old(Snapshot(mask)))
    ensures Snapshot(img) == CompositeImage(old(Snapshot(img)), old(Snapshot(mask)))
    ensures forall i, j :: 0 <= i < img.Length0 && 0 <= j < img.Length1 ==>
      img[i, j] == Composited(old(img[i, j]), old(mask[i, j]))
  {
    ghost var marks := Snapshot(mask);
    AssignAlphaWhere(img, mask, RedArea, 0);
    ghost var erased, marksNow := Snapshot(img), Snapshot(mask);
    AssignAlphaWhere(img, mask, GreenArea, 255);
    MaskedAssignImageReadsOnlyRG(erased, marksNow, marks, GreenArea, 255);
    assert forall i, j :: 0 <= i < img.Length0 && 0 <= j < img.Length1 ==>
      img[i, j] == Snapshot(img)[i][j];
  }
}
