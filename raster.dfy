/**
 * RGBA rasters as a canvas hands them out (`ImageData`): `width * height`
 * pixels stored row-major, four bytes per pixel (R, G, B, A). Also the two
 * colour-similarity tests the selection tools use.
 */
module Raster {
  newtype byte = b: int | 0 <= b < 256

  /** Image-relative integer coordinates of a pointer event. */
  datatype Point = Point(x: int, y: int)

  datatype Rgb = Rgb(r: int, g: int, b: int)

  datatype ImageData = ImageData(width: nat, height: nat, data: seq<byte>)
  {
    function Size(): nat { width * height }

    ghost predicate Valid() { |data| == 4 * Size() }

    predicate InFrame(x: int, y: int) { 0 <= x < width && 0 <= y < height }

    /** The R, G, B bytes of pixel `p` (alpha is never compared). */
    function ColorAt(p: int): (c: Rgb)
      requires Valid() && 0 <= p < Size()
      ensures c.r == data[4 * p] as int && c.g == data[4 * p + 1] as int && c.b == data[4 * p + 2] as int
    {
      Rgb(data[4 * p] as int, data[4 * p + 1] as int, data[4 * p + 2] as int)
    }
  }

  function SquaredDistance(c1: Rgb, c2: Rgb): int
  {
    (c1.r - c2.r) * (c1.r - c2.r) + (c1.g - c2.g) * (c1.g - c2.g) + (c1.b - c2.b) * (c1.b - c2.b)
  }

  /** The Magic Wand test `sqrt(dr^2 + dg^2 + db^2) <= tolerance`, stated
      without the square root: for an integer tolerance the square root is
      at most `tolerance` exactly when the tolerance is not negative and the
      squared distance is at most its square. */
  predicate WithinDistance(c: Rgb, target: Rgb, tolerance: int): (b: bool)
    ensures b ==> tolerance >= 0
    ensures b ==> ColorMatch(c, target, tolerance)
  {
    ChannelsWithin(c, target, tolerance);
    tolerance >= 0 && SquaredDistance(c, target) <= tolerance * tolerance
  }

  /** Each channel difference is at most the Euclidean distance: a squared
      distance within `tolerance * tolerance` bounds every channel by
      `tolerance`. */
  lemma ChannelsWithin(c: Rgb, target: Rgb, tolerance: int)
    ensures tolerance >= 0 && SquaredDistance(c, target) <= tolerance * tolerance ==> ColorMatch(c, target, tolerance)
  {
    var dr, dg, db := c.r - target.r, c.g - target.g, c.b - target.b;
    if tolerance >= 0 && SquaredDistance(c, target) <= tolerance * tolerance {
      SquareNonNegative(dr);
      SquareNonNegative(dg);
      SquareNonNegative(db);
      SquareBound(dr, tolerance);
      SquareBound(dg, tolerance);
      SquareBound(db, tolerance);
    }
  }

  lemma SquareNonNegative(d: int)
    ensures d * d >= 0
  {
    assert d * d == Abs(d) * Abs(d);
  }

  /** |d| <= t whenever d*d <= t*t and t is not negative. */
  lemma SquareBound(d: int, t: int)
    requires t >= 0 && d * d <= t * t
    ensures Abs(d) <= t
  {
    assert Abs(d) * Abs(d) == d * d;
    SquareGrows(Abs(d), t);
  }

  /** Squaring is strictly increasing on non-negative numbers. */
  lemma SquareGrows(a: int, t: int)
    ensures 0 <= t < a ==> t * t < a * a
  {
    assert a * a - t * t == (a - t) * (a + t);
  }

  /** A colour is within any non-negative distance of itself: the seed pixel
      of a Magic Wand fill always matches. */
  lemma WithinDistanceOfItself(c: Rgb, tolerance: int)
    requires tolerance >= 0
    ensures WithinDistance(c, c, tolerance)
  {
    assert SquaredDistance(c, c) == 0;
  }

  function Abs(v: int): (a: nat)
    ensures a == v || a == -v
  {
    if v < 0 then -v else v
  }

  /** The per-channel test of the earlier editor: every channel differs by
      at most `tolerance`. */
  predicate ColorMatch(c1: Rgb, c2: Rgb, tolerance: int): (b: bool)
    ensures b ==> tolerance >= 0
    ensures c1 == c2 ==> (b <==> tolerance >= 0)
  {
    Abs(c1.r - c2.r) <= tolerance && Abs(c1.g - c2.g) <= tolerance && Abs(c1.b - c2.b) <= tolerance
  }

  /** The per-channel test does not depend on the order of its colours, and
      a colour matches itself for every non-negative tolerance. */
  lemma ColorMatchSymmetric(c1: Rgb, c2: Rgb, tolerance: int)
    ensures ColorMatch(c1, c2, tolerance) <==> ColorMatch(c2, c1, tolerance)
    ensures tolerance >= 0 ==> ColorMatch(c1, c1, tolerance)
  {
  }

  /** Per-pixel flags of the Magic Wand test against `target`. */
  ghost function DistanceMatches(img: ImageData, target: Rgb, tolerance: int): (ok: seq<bool>)
    requires img.Valid()
    ensures |ok| == img.Size()
    ensures forall p :: 0 <= p < img.Size() ==> ok[p] == WithinDistance(img.ColorAt(p), target, tolerance)
  {
    seq(img.Size(), p requires 0 <= p < img.Size() => WithinDistance(img.ColorAt(p), target, tolerance))
  }

  /** Per-pixel flags of the per-channel test against `target`. */
  ghost function ChannelMatches(img: ImageData, target: Rgb, tolerance: int): (ok: seq<bool>)
    requires img.Valid()
    ensures |ok| == img.Size()
    ensures forall p :: 0 <= p < img.Size() ==> ok[p] == ColorMatch(target, img.ColorAt(p), tolerance)
  {
    seq(img.Size(), p requires 0 <= p < img.Size() => ColorMatch(target, img.ColorAt(p), tolerance))
  }
}
