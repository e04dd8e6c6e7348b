/** The image the flood fill reads: a rectangle of integer colour values, the
    horizontal runs of one colour inside it, and 4-connectivity between pixels.
    The RGB, grayscale, indexed and generic pixel layouts of the image are all read
    through the single `Pixel` function below. */
module Raster {

  /** A pixel position (x, y). */
  type Point = (int, int)

  /** An image of `w` columns and `h` rows; `rows[y][x]` is the colour of pixel (x, y). */
  datatype Image = Image(w: nat, h: nat, rows: seq<seq<int>>)
  {
    predicate Valid() {
      |rows| == h && forall y :: 0 <= y < h ==> |rows[y]| == w
    }

    predicate InBounds(x: int, y: int) {
      0 <= x < w && 0 <= y < h
    }

    /** The raw colour of pixel (x, y), compared by exact integer equality. */
    function Pixel(x: int, y: int): int
      requires Valid() && InBounds(x, y)
    {
      rows[y][x]
    }
  }

  /** Pixel `p` lies inside the image and has colour `c`. */
  ghost predicate Matches(img: Image, c: int, p: Point)
    requires img.Valid()
  {
    img.InBounds(p.0, p.1) && img.Pixel(p.0, p.1) == c
  }

  /** Columns `left..right` (inclusive) of row `y` all have colour `c`. */
  ghost predicate IsRun(img: Image, c: int, left: int, right: int, y: int)
    requires img.Valid()
  {
    && 0 <= y < img.h
    && 0 <= left <= right < img.w
    && forall x :: left <= x <= right ==> img.Pixel(x, y) == c
  }

  /** A run of colour `c` that cannot be extended: it touches the image border or a
      pixel of another colour at both ends. */
  ghost predicate IsMaxRun(img: Image, c: int, left: int, right: int, y: int)
    requires img.Valid()
  {
    && IsRun(img, c, left, right, y)
    && (left == 0 || img.Pixel(left - 1, y) != c)
    && (right + 1 == img.w || img.Pixel(right + 1, y) != c)
  }

  /** The pixels of the span `left..right` of row `y`. */
  ghost function RunPixels(left: int, right: int, y: int): set<Point>
  {
    set x | left <= x <= right :: (x, y)
  }

  lemma RunInside(left: int, right: int, y: int, S: set<Point>)
    requires RunPixels(left, right, y) <= S
    ensures forall x :: left <= x <= right ==> (x, y) in S
  {
    forall x | left <= x <= right
      ensures (x, y) in S
    {
      assert (x, y) in RunPixels(left, right, y);
    }
  }

  /** Two maximal runs of the same colour on the same row that share a pixel are
      the same run; this is why the runs a fill reports on one row never overlap. */
  lemma MaxRunsOverlapAreEqual(img: Image, c: int, l1: int, r1: int, l2: int, r2: int, y: int)
    requires img.Valid()
    requires IsMaxRun(img, c, l1, r1, y) && IsMaxRun(img, c, l2, r2, y)
    requires l1 <= r2 && l2 <= r1
    ensures l1 == l2 && r1 == r2
  {
  }

  /** `p` and `q` share an edge (4-connectivity: corners do not count). */
  predicate Adjacent(p: Point, q: Point) {
    || (p.1 == q.1 && (q.0 == p.0 - 1 || q.0 == p.0 + 1))
    || (p.0 == q.0 && (q.1 == p.1 - 1 || q.1 == p.1 + 1))
  }

  /** A walk through pixels of colour `c`, each step to an edge neighbour. */
  ghost predicate IsPath(img: Image, c: int, path: seq<Point>)
    requires img.Valid()
  {
    && |path| > 0
    && (forall i :: 0 <= i < |path| ==> Matches(img, c, path[i]))
    && (forall i :: 0 <= i < |path| - 1 ==> Adjacent(path[i], path[i + 1]))
  }

  /** `p` is in the region of colour `c` that is 4-connected to `seed`. */
  ghost predicate Reachable(img: Image, c: int, seed: Point, p: Point)
    requires img.Valid()
  {
    exists path :: IsPath(img, c, path) && path[0] == seed && path[|path| - 1] == p
  }

  /** No edge neighbour of colour `c` of a pixel in `S` lies outside `S`. */
  ghost predicate Closed(img: Image, c: int, S: set<Point>)
    requires img.Valid()
  {
    forall p, q :: p in S && Adjacent(p, q) && Matches(img, c, q) ==> q in S
  }

  lemma ReachableSeed(img: Image, c: int, seed: Point)
    requires img.Valid() && Matches(img, c, seed)
    ensures Reachable(img, c, seed, seed)
  {
    assert IsPath(img, c, [seed]);
  }

  lemma ReachableStep(img: Image, c: int, seed: Point, p: Point, q: Point)
    requires img.Valid()
    requires Reachable(img, c, seed, p) && Adjacent(p, q) && Matches(img, c, q)
    ensures Reachable(img, c, seed, q)
  {
    var path :| IsPath(img, c, path) && path[0] == seed && path[|path| - 1] == p;
    var longer := path + [q];
    assert longer[|longer| - 1] == q;
    assert IsPath(img, c, longer);
  }

  /** Every pixel of a run that holds one reachable pixel is reachable. */
  lemma {:induction false} ReachableAlongRun(img: Image, c: int, seed: Point, left: int, right: int, y: int, x: int, z: int)
    requires img.Valid() && IsRun(img, c, left, right, y)
    requires left <= x <= right && left <= z <= right
    requires Reachable(img, c, seed, (x, y))
    ensures Reachable(img, c, seed, (z, y))
    decreases if z < x then x - z else z - x
  {
    if z != x {
      var z' := if z < x then z + 1 else z - 1;
      ReachableAlongRun(img, c, seed, left, right, y, x, z');
      ReachableStep(img, c, seed, (z', y), (z, y));
    }
  }

  /** A closed set that holds the start of a path holds all of it. */
  lemma {:induction false} ClosedSetHoldsPath(img: Image, c: int, S: set<Point>, path: seq<Point>)
    requires img.Valid() && Closed(img, c, S)
    requires IsPath(img, c, path) && path[0] in S
    ensures forall i :: 0 <= i < |path| ==> path[i] in S
  {
    if |path| > 1 {
      var prefix := path[..|path| - 1];
      assert IsPath(img, c, prefix);
      ClosedSetHoldsPath(img, c, S, prefix);
      assert path[|path| - 2] == prefix[|path| - 2];
      assert Adjacent(path[|path| - 2], path[|path| - 1]);
    }
  }

  /** A closed set that holds the seed holds the whole 4-connected region of the
      seed's colour. */
  lemma ClosedSetHoldsRegion(img: Image, c: int, S: set<Point>, seed: Point, p: Point)
    requires img.Valid() && Closed(img, c, S) && seed in S
    requires Reachable(img, c, seed, p)
    ensures p in S
  {
    var path :| IsPath(img, c, path) && path[0] == seed && path[|path| - 1] == p;
    ClosedSetHoldsPath(img, c, S, path);
  }
}
