/** Whole images as values: a row-major grid of pixels. The masked
    assignment `img[area, 3] = v` is stated here as a function from the image
    and the canvas before the assignment to the image after it, and the
    in-place methods of module Compositor are proved against these functions. */
module Images {
  import opened Pixels

  /** Rows of pixels; row `i`, column `j` is `g[i][j]`. */
  type Image = seq<seq<Pixel>>

  /** A grid of exactly `h` rows of `w` pixels each. */
  predicate IsRaster(g: Image, h: nat, w: nat) {
    |g| == h && forall i :: 0 <= i < h ==> |g[i]| == w
  }

  /** Two grids with the same number of rows and the same row lengths. */
  predicate SameShape(g: Image, k: Image) {
    |g| == |k| && forall i :: 0 <= i < |g| ==> |g[i]| == |k[i]|
  }

  /** Two canvases of the same shape whose pixels agree on red and green. */
  predicate SameMarks(c: Image, d: Image) {
    SameShape(c, d) &&
    forall i, j :: 0 <= i < |c| && 0 <= j < |c[i]| ==> SameMark(c[i][j], d[i][j])
  }

  /** The masked assignment on one row of the image, against the matching
      row of the canvas. */
  function MaskedAssignRow(row: seq<Pixel>, marks: seq<Pixel>, area: Area, v: Channel): (r: seq<Pixel>)
    requires |marks| == |row|
    ensures |r| == |row|
    ensures forall j :: 0 <= j < |row| ==> r[j] == MaskedAssign(row[j], marks[j], area, v)
  {
    if row == [] then []
    else [MaskedAssign(row[0], marks[0], area, v)] + MaskedAssignRow(row[1..], marks[1..], area, v)
  }

  /** The masked assignment `img[area, 3] = v` on a whole image: every pixel
      whose canvas pixel is in `area` gets alpha `v`, every other pixel is
      left as it was, and the grid keeps its shape. */
  function MaskedAssignImage(img: Image, mask: Image, area: Area, v: Channel): (r: Image)
    requires SameShape(img, mask)
    ensures SameShape(r, img)
    ensures forall i, j :: 0 <= i < |img| && 0 <= j < |img[i]| ==>
      r[i][j] == MaskedAssign(img[i][j], mask[i][j], area, v)
  {
    if img == [] then []
    else
      assert SameShape(img[1..], mask[1..]) by {
        forall i | 0 <= i < |img| - 1 ensures |img[1..][i]| == |mask[1..][i]| {
          assert |img[i + 1]| == |mask[i + 1]|;
        }
      }
      [MaskedAssignRow(img[0], mask[0], area, v)] + MaskedAssignImage(img[1..], mask[1..], area, v)
  }

  /** The image after both masked assignments, in program order: the red
      area is made transparent, then the green area is made opaque. Every
      pixel ends as `Composited` says, and the geometry is unchanged. */
  function CompositeImage(img: Image, mask: Image): (r: Image)
    requires SameShape(img, mask)
    ensures SameShape(r, img)
    ensures forall i, j :: 0 <= i < |img| && 0 <= j < |img[i]| ==>
      r[i][j] == Composited(img[i][j], mask[i][j])
  {
    var erased := MaskedAssignImage(img, mask, RedArea, 0);
    MaskedAssignImage(erased, mask, GreenArea, 255)
  }

  /** Two grids of the same shape that agree at every position are equal. */
  lemma ImageEquality(g: Image, k: Image)
    requires SameShape(g, k)
    requires forall i, j :: 0 <= i < |g| && 0 <= j < |g[i]| ==> g[i][j] == k[i][j]
    ensures g == k
  {
    forall i | 0 <= i < |g| ensures g[i] == k[i] {
      assert |g[i]| == |k[i]|;
      forall j | 0 <= j < |g[i]| ensures g[i][j] == k[i][j] {
      }
    }
  }

  /** The masked assignment depends on the canvas only through its red and
      green channels. */
  lemma MaskedAssignImageReadsOnlyRG(img: Image, mask: Image, other: Image, area: Area, v: Channel)
    requires SameShape(img, mask)
    requires SameMarks(mask, other)
    ensures SameShape(img, other)
    ensures MaskedAssignImage(img, mask, area, v) == MaskedAssignImage(img, other, area, v)
  {
    var r, s := MaskedAssignImage(img, mask, area, v), MaskedAssignImage(img, other, area, v);
    forall i, j | 0 <= i < |r| && 0 <= j < |r[i]| ensures r[i][j] == s[i][j] {
      MaskedAssignReadsOnlyRG(img[i][j], mask[i][j], other[i][j], area, v);
    }
    ImageEquality(r, s);
  }

  /** Applying the same canvas to an already composited image a second time
      gives back the identical image. */
  lemma CompositeIdempotent(img: Image, mask: Image)
    requires SameShape(img, mask)
    ensures CompositeImage(CompositeImage(img, mask), mask) == CompositeImage(img, mask)
  {
    var once := CompositeImage(img, mask);
    var twice := CompositeImage(once, mask);
    forall i, j | 0 <= i < |twice| && 0 <= j < |twice[i]| ensures twice[i][j] == once[i][j] {
      CompositedIdempotent(img[i][j], mask[i][j]);
    }
    ImageEquality(twice, once);
  }

  /** A canvas with nothing red and nothing green in it leaves the image
      exactly as it was. */
  lemma BlankMaskIsIdentity(img: Image, mask: Image)
    requires SameShape(img, mask)
    requires forall i, j :: 0 <= i < |mask| && 0 <= j < |mask[i]| ==>
      !IsErase(mask[i][j]) && !IsRestore(mask[i][j])
    ensures CompositeImage(img, mask) == img
  {
    var r := CompositeImage(img, mask);
    forall i, j | 0 <= i < |r| && 0 <= j < |r[i]| ensures r[i][j] == img[i][j] {
      assert |img[i]| == |mask[i]|;
    }
    ImageEquality(r, img);
  }
}
