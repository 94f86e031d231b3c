/**
 * The invariant shared by both flood fills (the queue-based Magic Wand and
 * the stack-based fill of the earlier editor), stated on sequences, and the
 * three steps that keep it: skipping a popped pixel, marking a popped pixel
 * and pushing its neighbours, and stopping on an empty work list.
 *
 * `work` is the queue or stack of pixel indices still to visit; `from[k]`
 * is the marked pixel that pushed `work[k]`; `parent` and `rank` record,
 * for every marked pixel, who reached it and when.
 */
module Fill {
  import opened Grid

  ghost predicate FillInv(w: int, ok: seq<bool>, seed: int, marked: seq<bool>, work: seq<int>, from: seq<int>,
                          parent: seq<int>, rank: seq<nat>, step: nat)
  {
    && |marked| == |ok| && |from| == |work| && 0 <= seed < |ok|
    && (forall k :: 0 <= k < |work| ==> 0 <= work[k] < |ok|)
    && (forall k :: 0 <= k < |work| ==>
          work[k] == seed || (0 <= from[k] < |ok| && marked[from[k]] && Neighbour(w, |ok|, from[k], work[k])))
    && ParentChain(w, ok, seed, marked, parent, rank)
    && (forall i :: 0 <= i < |ok| && marked[i] ==> rank[i] < step)
    && (forall p, q :: 0 <= p < |ok| && marked[p] && Neighbour(w, |ok|, p, q) && ok[q] ==> marked[q] || q in work)
    && (ok[seed] ==> marked[seed] || seed in work)
  }

  /** `n` copies of `x`: the origins of the entries one pixel pushes. */
  function Repeat(x: int, n: nat): (r: seq<int>)
    ensures |r| == n && forall k :: 0 <= k < n ==> r[k] == x
  {
    seq(n, _ => x)
  }

  /** `rest` is `s` with its element at `j` taken out. */
  ghost predicate Removed(s: seq<int>, j: int, rest: seq<int>)
  {
    && 0 <= j < |s| && |rest| == |s| - 1
    && (forall k :: 0 <= k < j ==> rest[k] == s[k])
    && (forall k :: j <= k < |rest| ==> rest[k] == s[k + 1])
  }

  lemma RemovedKeeps(s: seq<int>, j: int, rest: seq<int>, x: int)
    requires Removed(s, j, rest) && x in s && x != s[j]
    ensures x in rest
  {
    var k :| 0 <= k < |s| && s[k] == x;
    if k < j {
      assert rest[k] == x;
    } else {
      assert k != j && rest[k - 1] == s[k];
    }
  }

  /** Popping the end of a list removes its last entry. */
  lemma RemovedLast(s: seq<int>)
    requires |s| > 0
    ensures Removed(s, |s| - 1, s[..|s| - 1])
  {
  }

  lemma FillStart(w: int, ok: seq<bool>, seed: int, marked: seq<bool>, parent: seq<int>, rank: seq<nat>)
    requires 0 <= seed < |ok|
    requires |marked| == |ok| && forall i :: 0 <= i < |ok| ==> !marked[i]
    requires |parent| == |ok| && |rank| == |ok|
    ensures FillInv(w, ok, seed, marked, [seed], [seed], parent, rank, 0)
  {
  }

  /** Popping a pixel that is already marked, or does not match, changes
      nothing else. */
  lemma FillSkip(w: int, ok: seq<bool>, seed: int, marked: seq<bool>, work: seq<int>, from: seq<int>,
                 parent: seq<int>, rank: seq<nat>, step: nat, j: int, work': seq<int>, from': seq<int>)
    requires FillInv(w, ok, seed, marked, work, from, parent, rank, step)
    requires 0 <= j < |work| && (marked[work[j]] || !ok[work[j]])
    requires Removed(work, j, work') && Removed(from, j, from')
    ensures FillInv(w, ok, seed, marked, work', from', parent, rank, step)
  {
    forall p, q | 0 <= p < |ok| && marked[p] && Neighbour(w, |ok|, p, q) && ok[q] && !marked[q]
      ensures q in work'
    {
      RemovedKeeps(work, j, work', q);
    }
    if ok[seed] && !marked[seed] {
      RemovedKeeps(work, j, work', seed);
    }
  }

  /** Marking a popped matching pixel and pushing (at least) all its
      unmarked neighbours keeps the invariant; `rest` and `restFrom` are the
      work list and its origins with the popped entry taken out. */
  lemma FillMark(w: int, ok: seq<bool>, seed: int, marked: seq<bool>, work: seq<int>, from: seq<int>,
                 parent: seq<int>, rank: seq<nat>, step: nat, step': nat, j: int,
                 rest: seq<int>, restFrom: seq<int>, added: seq<int>)
    requires FillInv(w, ok, seed, marked, work, from, parent, rank, step)
    requires 0 <= j < |work| && !marked[work[j]] && ok[work[j]]
    requires Removed(work, j, rest) && Removed(from, j, restFrom) && step' == step + 1
    requires forall q :: q in added ==> Neighbour(w, |ok|, work[j], q)
    requires forall q :: Neighbour(w, |ok|, work[j], q) && !marked[q] ==> q in added
    ensures FillInv(w, ok, seed, marked[work[j] := true], rest + added, restFrom + Repeat(work[j], |added|),
                    if work[j] == seed then parent else parent[work[j] := from[j]], rank[work[j] := step], step')
  {
    var pos := work[j];
    var marked' := marked[pos := true];
    var work' := rest + added;
    var from' := restFrom + Repeat(pos, |added|);
    var parent' := if pos == seed then parent else parent[pos := from[j]];
    var rank' := rank[pos := step];
    var n := |rest|;
    forall k | 0 <= k < |work'|
      ensures 0 <= work'[k] < |ok|
      ensures work'[k] == seed || (0 <= from'[k] < |ok| && marked'[from'[k]] && Neighbour(w, |ok|, from'[k], work'[k]))
    {
      if k >= n {
        assert from'[k] == pos && work'[k] == added[k - n] && added[k - n] in added;
      } else if k < j {
        assert work'[k] == work[k] && from'[k] == from[k];
      } else {
        assert work'[k] == work[k + 1] && from'[k] == from[k + 1];
      }
    }
    assert ParentChain(w, ok, seed, marked', parent', rank');
    forall p, q | 0 <= p < |ok| && marked'[p] && Neighbour(w, |ok|, p, q) && ok[q]
      ensures marked'[q] || q in work'
    {
      if p == pos && !marked[q] {
        assert q in added;
      } else if p != pos && !marked[q] && q != pos {
        RemovedKeeps(work, j, rest, q);
      }
    }
    if ok[seed] && !marked'[seed] {
      RemovedKeeps(work, j, rest, seed);
    }
  }

  /** Marking the popped pixel `p`, at column x and row y, and pushing its
      neighbours left, right, up and down, each when it is in the frame and
      not `taken`, keeps the invariant, provided every taken pixel is marked
      or is `p` itself. */
  lemma FillPush(w: int, h: int, ok: seq<bool>, seed: int, marked: seq<bool>, work: seq<int>, from: seq<int>,
                 parent: seq<int>, rank: seq<nat>, step: nat, step': nat, j: int, rest: seq<int>, restFrom: seq<int>,
                 x: int, y: int, p: int, taken: seq<bool>,
                 left: seq<int>, right: seq<int>, up: seq<int>, down: seq<int>)
    requires FillInv(w, ok, seed, marked, work, from, parent, rank, step)
    requires 0 <= x < w && 0 <= y < h && p == y * w + x && |ok| == w * h
    requires 0 <= j < |work| && p == work[j] && !marked[p] && ok[p]
    requires Removed(work, j, rest) && Removed(from, j, restFrom) && step' == step + 1
    requires |taken| == |ok| && forall q :: 0 <= q < |taken| && taken[q] ==> marked[q] || q == p
    requires Pushes(w, h, x, y, p, taken, left, right, up, down)
    ensures |left + right + up + down| <= 4
    ensures FillInv(w, ok, seed, marked[p := true], rest + (left + right + up + down),
                    restFrom + Repeat(p, |left + right + up + down|),
                    if p == seed then parent else parent[p := from[j]], rank[p := step], step')
  {
    FourPushes(w, h, x, y, p, taken, left, right, up, down);
    FillMark(w, ok, seed, marked, work, from, parent, rank, step, step', j, rest, restFrom, left + right + up + down);
  }

  /** With nothing left to visit, the marked pixels are exactly the seed's
      region. */
  lemma FillDone(w: int, ok: seq<bool>, seed: int, marked: seq<bool>, from: seq<int>,
                 parent: seq<int>, rank: seq<nat>, step: nat)
    requires FillInv(w, ok, seed, marked, [], from, parent, rank, step)
    ensures forall p :: 0 <= p < |ok| ==> (marked[p] <==> InRegion(w, ok, seed, p))
  {
    MarkingIsRegion(w, ok, seed, marked, parent, rank);
  }
}
