/**
 * Pixel grids stored row-major: the pixel at column x, row y of a grid
 * `w` pixels wide has index y*w + x. This module gives the index
 * arithmetic, the 4-neighbour relation, connected regions (what a flood
 * fill is meant to select), and a counter of set mask entries used to
 * bound the work of the fills.
 */
module Grid {

  /** Column and row of pixel `p` recovered as the source does (`pos % width`,
      `Math.floor(pos / width)`), and what the row tests mean on indices. */
  lemma RowFacts(w: int, h: int, p: int)
    requires w > 0 && 0 <= p < w * h
    ensures 0 <= p % w < w && 0 <= p / w < h && p == p / w * w + p % w
    ensures p / w > 0 <==> p >= w
    ensures p / w < h - 1 <==> p + w < w * h
    ensures p % w < w - 1 ==> p + 1 < w * h
    ensures p % w > 0 ==> p >= 1
  {
    assert p == p / w * w + p % w;
    RowBounds(w, h, p / w, p % w, p);
  }

  /** `RowFacts` for p = q*w + r with 0 <= r < w, free of `/` and `%`. */
  lemma RowBounds(w: int, h: int, q: int, r: int, p: int)
    requires w > 0 && 0 <= r < w && p == q * w + r && 0 <= p < w * h
    ensures 0 <= q < h
    ensures q > 0 <==> p >= w
    ensures q < h - 1 <==> p + w < w * h
    ensures r < w - 1 ==> p + 1 < w * h
  {
    if q < 0 {
      MulMono(q, -1, w);
    }
    if q >= h {
      MulMono(h, q, w);
    }
    if q >= 1 {
      MulMono(1, q, w);
    }
    RowEnd(w, h, q, r, p);
  }

  lemma RowEnd(w: int, h: int, q: int, r: int, p: int)
    requires w > 0 && 0 <= r < w && p == q * w + r && 0 <= q < h
    ensures q < h - 1 <==> p + w < w * h
    ensures r < w - 1 ==> p + 1 < w * h
  {
    if q + 1 <= h - 1 {
      MulMono(q + 2, h, w);
      assert (q + 2) * w == q * w + 2 * w;
    } else {
      assert (h - 1) * w == h * w - w;
    }
    MulMono(q + 1, h, w);
    assert (q + 1) * w == q * w + w;
  }

  /** The index of column x, row y lies in the frame. */
  lemma IndexInFrame(w: int, h: int, x: int, y: int)
    requires 0 <= x < w && 0 <= y < h
    ensures 0 <= y * w + x < w * h
  {
    MulMono(0, y, w);
    MulMono(y + 1, h, w);
    assert (y + 1) * w == y * w + w;
  }

  /** Index of column x, row y, and the column and row it gives back. */
  lemma IndexFacts(w: int, h: int, x: int, y: int)
    requires 0 <= x < w && 0 <= y < h
    ensures 0 <= y * w + x < w * h
    ensures (y * w + x) % w == x && (y * w + x) / w == y
  {
    IndexInFrame(w, h, x, y);
    MulMono(0, y, w);
    var p := y * w + x;
    var q, r := p / w, p % w;
    assert p == q * w + r && 0 <= r < w;
    if q < y {
      MulMono(q + 1, y, w);
    } else if q > y {
      MulMono(y + 1, q, w);
    }
  }

  /** The index of column x, row y in a grid `w` pixels wide. */
  function Cell(w: int, x: int, y: int): int
  {
    y * w + x
  }

  /** Every cell of a `w` x `h` grid has an index in the frame, and that
      index gives back its column and row. */
  lemma CellsInFrame(w: int, h: int)
    ensures forall x, y :: 0 <= x < w && 0 <= y < h ==>
      0 <= Cell(w, x, y) < w * h && Cell(w, x, y) / w == y && Cell(w, x, y) % w == x
  {
    forall x, y | 0 <= x < w && 0 <= y < h
      ensures 0 <= Cell(w, x, y) < w * h && Cell(w, x, y) / w == y && Cell(w, x, y) % w == x
    {
      IndexFacts(w, h, x, y);
    }
  }

  lemma MulMono(a: int, b: int, w: int)
    requires a <= b && w >= 0
    ensures a * w <= b * w
  {
    assert b * w - a * w == (b - a) * w;
  }

  /** `q` is one of the (at most four) 4-neighbours of `p` inside a frame of
      `n` pixels that is `w` pixels wide: left and right within the row,
      up and down within the frame. */
  ghost predicate Neighbour(w: int, n: int, p: int, q: int)
  {
    && w > 0 && 0 <= p < n && 0 <= q < n
    && (|| (q == p - 1 && p % w > 0)
        || (q == p + 1 && p % w < w - 1)
        || (q == p - w && p >= w)
        || (q == p + w && p + w < n))
  }

  /** The neighbours of column x, row y: left and right unless on the
      frame's edge, the rows above and below unless on the first or last. */
  lemma PointNeighbours(w: int, h: int, x: int, y: int, n: int, p: int)
    requires 0 <= x < w && 0 <= y < h && n == w * h && p == y * w + x
    ensures 0 <= p < n
    ensures (y - 1) * w + x == p - w && (y + 1) * w + x == p + w
    ensures forall q :: Neighbour(w, n, p, q) <==>
      || (x > 0 && q == p - 1)
      || (x < w - 1 && q == p + 1)
      || (y > 0 && q == p - w)
      || (y < h - 1 && q == p + w)
  {
    IndexFacts(w, h, x, y);
    RowFacts(w, h, p);
    assert (y - 1) * w == y * w - w;
    assert (y + 1) * w == y * w + w;
  }

  /** `q` as a one-element list when `c` holds, else the empty list. */
  function PushedIf(c: bool, q: int): seq<int>
  {
    if c then [q] else []
  }

  /** Pixel `q` is inside the frame and not taken. */
  predicate Free(taken: seq<bool>, q: int)
  {
    0 <= q < |taken| && !taken[q]
  }

  /** Pushing four lists one after the other pushes their concatenation. */
  lemma AppendFour(s: seq<int>, a: seq<int>, b: seq<int>, c: seq<int>, d: seq<int>)
    ensures s + a + b + c + d == s + (a + b + c + d)
  {
  }

  /** `left`, `right`, `up` and `down` are what a fill pushes from pixel
      `p` at column x, row y: each neighbour when it is in the frame and
      not `taken`. */
  ghost predicate Pushes(w: int, h: int, x: int, y: int, p: int, taken: seq<bool>,
                         left: seq<int>, right: seq<int>, up: seq<int>, down: seq<int>)
  {
    && left == PushedIf(x > 0 && Free(taken, p - 1), p - 1)
    && right == PushedIf(x < w - 1 && Free(taken, p + 1), p + 1)
    && up == PushedIf(y > 0 && Free(taken, p - w), p - w)
    && down == PushedIf(y < h - 1 && Free(taken, p + w), p + w)
  }

  /** The neighbours a fill pushes from pixel `p` at column x, row y (left,
      right, up, down, each when it is in the frame and not `taken`) are
      neighbours of `p`, at most four, and include every neighbour not
      taken. */
  lemma FourPushes(w: int, h: int, x: int, y: int, p: int, taken: seq<bool>,
                   left: seq<int>, right: seq<int>, up: seq<int>, down: seq<int>)
    requires 0 <= x < w && 0 <= y < h && p == y * w + x && |taken| == w * h
    requires Pushes(w, h, x, y, p, taken, left, right, up, down)
    ensures |left + right + up + down| <= 4
    ensures forall q :: q in left + right + up + down ==> Neighbour(w, |taken|, p, q)
    ensures forall q :: Neighbour(w, |taken|, p, q) && Free(taken, q) ==> q in left + right + up + down
  {
    IndexFacts(w, h, x, y);
    RowFacts(w, h, p);
  }

  /** A walk through the grid from neighbour to neighbour that stays on
      pixels whose `ok` flag is set. */
  ghost predicate IsPath(w: int, ok: seq<bool>, path: seq<int>)
  {
    && |path| > 0
    && (forall i :: 0 <= i < |path| ==> 0 <= path[i] < |ok| && ok[path[i]])
    && (forall i :: 0 <= i < |path| - 1 ==> Neighbour(w, |ok|, path[i], path[i + 1]))
  }

  /** `p` lies in the 4-connected region of `ok` pixels that contains `seed`. */
  ghost predicate InRegion(w: int, ok: seq<bool>, seed: int, p: int)
  {
    exists path :: IsPath(w, ok, path) && path[0] == seed && path[|path| - 1] == p
  }

  /** A matching seed lies in its own region. */
  lemma SeedInRegion(w: int, ok: seq<bool>, seed: int)
    requires 0 <= seed < |ok| && ok[seed]
    ensures InRegion(w, ok, seed, seed)
  {
    assert IsPath(w, ok, [seed]);
  }

  /** Regions are closed under stepping to a matching neighbour. */
  lemma RegionStep(w: int, ok: seq<bool>, seed: int, p: int, q: int)
    requires InRegion(w, ok, seed, p)
    requires Neighbour(w, |ok|, p, q) && ok[q]
    ensures InRegion(w, ok, seed, q)
  {
    var path :| IsPath(w, ok, path) && path[0] == seed && path[|path| - 1] == p;
    var longer := path + [q];
    assert IsPath(w, ok, longer);
    assert longer[0] == seed && longer[|longer| - 1] == q;
  }

  /** Every pixel of a region, and its seed, match. */
  lemma {:induction false} RegionMatches(w: int, ok: seq<bool>, seed: int, p: int)
    requires InRegion(w, ok, seed, p)
    ensures 0 <= p < |ok| && ok[p]
    ensures 0 <= seed < |ok| && ok[seed]
  {
    var path :| IsPath(w, ok, path) && path[0] == seed && path[|path| - 1] == p;
    assert 0 <= path[0] < |ok| && ok[path[0]];
    assert 0 <= path[|path| - 1] < |ok| && ok[path[|path| - 1]];
  }

  /** Marked pixels, each of which (but the seed) was reached from an earlier
      marked neighbour, all lie in the seed's region. `parent` and `rank`
      record who reached whom, and when. */
  ghost predicate ParentChain(w: int, ok: seq<bool>, seed: int, marked: seq<bool>, parent: seq<int>, rank: seq<nat>)
  {
    && |marked| == |ok| && |parent| == |ok| && |rank| == |ok|
    && (forall i :: 0 <= i < |ok| && marked[i] ==> ok[i])
    && (forall i :: 0 <= i < |ok| && marked[i] && i != seed ==>
          && 0 <= parent[i] < |ok| && marked[parent[i]]
          && Neighbour(w, |ok|, parent[i], i)
          && rank[parent[i]] < rank[i])
  }

  lemma {:induction false} ChainInRegion(w: int, ok: seq<bool>, seed: int, marked: seq<bool>,
                                         parent: seq<int>, rank: seq<nat>, p: int)
    requires ParentChain(w, ok, seed, marked, parent, rank)
    requires 0 <= p < |ok| && marked[p]
    ensures InRegion(w, ok, seed, p)
    decreases rank[p]
  {
    if p == seed {
      SeedInRegion(w, ok, seed);
    } else {
      ChainInRegion(w, ok, seed, marked, parent, rank, parent[p]);
      RegionStep(w, ok, seed, parent[p], p);
    }
  }

  /** Every matching neighbour of a marked pixel is marked. */
  ghost predicate Closed(w: int, ok: seq<bool>, marked: seq<bool>)
  {
    && |marked| == |ok|
    && forall p, q :: 0 <= p < |ok| && marked[p] && Neighbour(w, |ok|, p, q) && ok[q] ==> marked[q]
  }

  /** A closed marking that holds the seed (when the seed matches) holds the
      seed's whole region. */
  lemma ClosedHoldsRegion(w: int, ok: seq<bool>, seed: int, marked: seq<bool>, p: int)
    requires Closed(w, ok, marked)
    requires 0 <= seed < |ok| && (ok[seed] ==> marked[seed])
    requires InRegion(w, ok, seed, p)
    ensures marked[p]
  {
    var path :| IsPath(w, ok, path) && path[0] == seed && path[|path| - 1] == p;
    PathMarked(w, ok, marked, path, |path| - 1);
  }

  lemma {:induction false} PathMarked(w: int, ok: seq<bool>, marked: seq<bool>, path: seq<int>, i: int)
    requires Closed(w, ok, marked)
    requires IsPath(w, ok, path) && marked[path[0]]
    requires 0 <= i < |path|
    ensures marked[path[i]]
  {
    if i > 0 {
      PathMarked(w, ok, marked, path, i - 1);
      assert Neighbour(w, |ok|, path[i - 1], path[i]);
    }
  }

  /** The region of `seed` is exactly the set of marked pixels, when the
      marking follows parent links from the seed and is closed. */
  lemma MarkingIsRegion(w: int, ok: seq<bool>, seed: int, marked: seq<bool>, parent: seq<int>, rank: seq<nat>)
    requires ParentChain(w, ok, seed, marked, parent, rank) && Closed(w, ok, marked)
    requires 0 <= seed < |ok| && (ok[seed] ==> marked[seed])
    ensures forall p :: 0 <= p < |ok| ==> (marked[p] <==> InRegion(w, ok, seed, p))
  {
    forall p | 0 <= p < |ok|
      ensures marked[p] <==> InRegion(w, ok, seed, p)
    {
      if marked[p] {
        ChainInRegion(w, ok, seed, marked, parent, rank, p);
      }
      if InRegion(w, ok, seed, p) {
        ClosedHoldsRegion(w, ok, seed, marked, p);
      }
    }
  }

  /** Number of set entries of a mask. */
  function Count(m: seq<bool>): (c: nat)
    ensures c <= |m|
    ensures c == 0 <==> forall i :: 0 <= i < |m| ==> !m[i]
  {
    if m == [] then 0 else Count(m[..|m| - 1]) + (if m[|m| - 1] then 1 else 0)
  }

  /** Setting one clear entry raises the count by one. */
  lemma {:induction false} CountSet(m: seq<bool>, i: int)
    requires 0 <= i < |m| && !m[i]
    ensures Count(m[i := true]) == Count(m) + 1
  {
    var m' := m[i := true];
    if i < |m| - 1 {
      assert m'[..|m'| - 1] == m[..|m| - 1][i := true];
      CountSet(m[..|m| - 1], i);
    } else {
      assert m'[..|m'| - 1] == m[..|m| - 1];
    }
  }
}
