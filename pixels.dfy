/** Per-pixel part of the hybrid background remover: the RGBA pixel, the two
    colour tests that turn the drawn canvas into "red" (erase) and "green"
    (restore) areas, and the alpha write that each masked assignment makes on
    one pixel of the image. */
module Pixels {

  /** One 8-bit channel value, as held in a `uint8` RGBA array. */
  type Channel = x: int | 0 <= x < 256

  /** An RGBA pixel; `a` is channel index 3, the alpha channel. */
  datatype Pixel = Pixel(r: Channel, g: Channel, b: Channel, a: Channel)

  /** A canvas pixel painted with the red rectangle tool: some red and no green. */
  predicate IsErase(m: Pixel): (b: bool)
    ensures b ==> !IsRestore(m)
  {
    m.r > 0 && m.g == 0
  }

  /** A canvas pixel painted with the green brush: any green at all, whatever its red. */
  predicate IsRestore(m: Pixel): (b: bool)
    ensures b <==> m.g != 0
  {
    m.g > 0
  }

  /** The two boolean masks built from the canvas. */
  datatype Area = RedArea | GreenArea

  predicate InArea(area: Area, m: Pixel) {
    match area
    case RedArea => IsErase(m)
    case GreenArea => IsRestore(m)
  }

  /** Two canvas pixels that carry the same red and green values, the only
      channels the colour tests look at. */
  predicate SameMark(m: Pixel, n: Pixel) {
    m.r == n.r && m.g == n.g
  }

  /** What one masked assignment `img[area, 3] = v` does to the image pixel `p`
      whose canvas pixel is `m`. */
  function MaskedAssign(p: Pixel, m: Pixel, area: Area, v: Channel): (q: Pixel)
    ensures q.r == p.r && q.g == p.g && q.b == p.b
    ensures InArea(area, m) ==> q.a == v
    ensures !InArea(area, m) ==> q == p
  {
    if InArea(area, m) then p.(a := v) else p
  }

  /** The image pixel after both assignments, in the order the program runs
      them: first the red area becomes transparent, then the green area
      becomes opaque again. */
  function Composited(p: Pixel, m: Pixel): (q: Pixel)
    ensures q.r == p.r && q.g == p.g && q.b == p.b
    ensures IsErase(m) ==> q.a == 0
    ensures IsRestore(m) ==> q.a == 255
    ensures !IsErase(m) && !IsRestore(m) ==> q.a == p.a
  {
    MaskedAssign(MaskedAssign(p, m, RedArea, 0), m, GreenArea, 255)
  }

  /** No canvas pixel is in both areas: the red test wants no green, the
      green test wants some. */
  lemma EraseRestoreExclusive(m: Pixel)
    ensures !(IsErase(m) && IsRestore(m))
  {
  }

  /** Because the two areas are disjoint, running the restore assignment
      first and the erase assignment second would give the same pixel. */
  lemma PassOrderIrrelevant(p: Pixel, m: Pixel)
    ensures MaskedAssign(MaskedAssign(p, m, GreenArea, 255), m, RedArea, 0) == Composited(p, m)
  {
    EraseRestoreExclusive(m);
  }

  /** Only the canvas pixel's red and green values decide the outcome; its
      blue and alpha values never matter. */
  lemma MaskedAssignReadsOnlyRG(p: Pixel, m: Pixel, n: Pixel, area: Area, v: Channel)
    requires SameMark(m, n)
    ensures MaskedAssign(p, m, area, v) == MaskedAssign(p, n, area, v)
  {
  }

  /** Compositing a pixel that is already composited with the same canvas
      pixel changes nothing: both writes store constants. */
  lemma CompositedIdempotent(p: Pixel, m: Pixel)
    ensures Composited(Composited(p, m), m) == Composited(p, m)
  {
  }
}
