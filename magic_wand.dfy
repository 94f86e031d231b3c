/**
 * The Magic Wand tool: a click selects the 4-connected area whose colour is
 * within a Euclidean RGB distance (`tolerance`) of the clicked pixel, and
 * that area is merged into the mask overlay in Add or Subtract mode.
 */
module MagicWand {
  import opened Wrappers
  import opened Grid
  import opened Fill
  import opened Raster
  import opened Overlay
  import opened Callbacks

  /** The pixels a click at (x, y) should select: nothing for a click off
      the image, otherwise the seed's 4-connected region of pixels within
      `tolerance` of the seed's own colour. */
  ghost function WandRegion(img: ImageData, x: int, y: int, tolerance: int): (m: seq<bool>)
    requires img.Valid()
    ensures |m| == img.Size()
  {
    if !img.InFrame(x, y) then seq(img.Size(), _ => false)
    else
      IndexInFrame(img.width, img.height, x, y);
      var seed := y * img.width + x;
      var ok := DistanceMatches(img, img.ColorAt(seed), tolerance);
      seq(img.Size(), p requires 0 <= p < img.Size() => InRegion(img.width, ok, seed, p))
  }

  /** Breadth-first flood fill from (x, y) over a FIFO queue of pixel
      indices. A pixel is marked when it is dequeued unmarked and within
      `tolerance` of the seed colour; marking it enqueues its unmarked
      in-frame 4-neighbours. `enqueued` counts the pushes. */
  method FloodFill(img: ImageData, x: int, y: int, tolerance: int) returns (mask: seq<bool>, ghost enqueued: nat)
    requires img.Valid()
    ensures |mask| == img.Size()
    ensures !img.InFrame(x, y) ==> forall p :: 0 <= p < |mask| ==> !mask[p]
    ensures img.InFrame(x, y) ==>
      var seed := y * img.width + x;
      && 0 <= seed < img.Size()
      && forall p :: 0 <= p < |mask| ==>
           (mask[p] <==> InRegion(img.width, DistanceMatches(img, img.ColorAt(seed), tolerance), seed, p))
    ensures mask == WandRegion(img, x, y, tolerance)
    ensures enqueued <= 1 + 4 * img.Size()
  {
    var width, height, n := img.width, img.height, img.Size();
    var m := new bool[n](_ => false);
    if x < 0 || y < 0 || x >= width || y >= height {
      mask, enqueued := m[..], 0;
      return;
    }
    IndexFacts(width, height, x, y);
    var seed := y * width + x;
    var target := img.ColorAt(seed);
    ghost var ok := DistanceMatches(img, target, tolerance);
    var queue := [seed];
    ghost var from: seq<int> := [seed];
    ghost var parent: seq<int> := seq(n, _ => 0);
    ghost var rank: seq<nat> := seq(n, _ => 0);
    ghost var step: nat := 0;
    enqueued := 1;
    FillStart(width, ok, seed, m[..], parent, rank);
    while |queue| > 0
      invariant FillInv(width, ok, seed, m[..], queue, from, parent, rank, step)
      invariant enqueued <= 1 + 4 * Count(m[..])
      decreases n - Count(m[..]), |queue|
    {
      queue, from, parent, rank, step, enqueued :=
        VisitNext(img, target, tolerance, m, queue, ok, seed, from, parent, rank, step, enqueued);
    }
    mask := m[..];
    FillIsWandRegion(img, x, y, tolerance, seed, mask, from, parent, rank, step);
  }

  /** Once the queue is empty the marked pixels are the wand's region. */
  lemma FillIsWandRegion(img: ImageData, x: int, y: int, tolerance: int, seed: int, marked: seq<bool>,
                         from: seq<int>, parent: seq<int>, rank: seq<nat>, step: nat)
    requires img.Valid() && img.InFrame(x, y) && seed == y * img.width + x && 0 <= seed < img.Size()
    requires FillInv(img.width, DistanceMatches(img, img.ColorAt(seed), tolerance), seed, marked, [], from,
                     parent, rank, step)
    ensures forall p :: 0 <= p < |marked| ==>
      (marked[p] <==> InRegion(img.width, DistanceMatches(img, img.ColorAt(seed), tolerance), seed, p))
    ensures marked == WandRegion(img, x, y, tolerance)
  {
    FillDone(img.width, DistanceMatches(img, img.ColorAt(seed), tolerance), seed, marked, from, parent, rank, step);
  }

  /** One turn of the fill loop: dequeue a pixel; skip it when it is already
      marked or does not match; otherwise mark it and enqueue its free
      neighbours. Either one more pixel is marked, or the queue is one
      shorter and nothing is marked. */
  method VisitNext(img: ImageData, target: Rgb, tolerance: int, m: array<bool>, queue: seq<int>,
                   ghost ok: seq<bool>, ghost seed: int, ghost from: seq<int>, ghost parent: seq<int>,
                   ghost rank: seq<nat>, ghost step: nat, ghost enqueued: nat)
    returns (queue': seq<int>, ghost from': seq<int>, ghost parent': seq<int>, ghost rank': seq<nat>,
             ghost step': nat, ghost enqueued': nat)
    requires img.Valid() && img.width > 0 && m.Length == img.Size() && |queue| > 0
    requires ok == DistanceMatches(img, target, tolerance)
    requires FillInv(img.width, ok, seed, m[..], queue, from, parent, rank, step)
    requires enqueued <= 1 + 4 * Count(m[..])
    modifies m
    ensures FillInv(img.width, ok, seed, m[..], queue', from', parent', rank', step')
    ensures enqueued' <= 1 + 4 * Count(m[..])
    ensures || Count(m[..]) == Count(old(m[..])) + 1
            || (m[..] == old(m[..]) && |queue'| < |queue|)
  {
    var pos := queue[0];
    ghost var marked := m[..];
    queue', from' := queue[1..], from[1..];
    parent', rank', step', enqueued' := parent, rank, step, enqueued;
    assert Removed(queue, 0, queue') && Removed(from, 0, from');
    if m[pos] {
      FillSkip(img.width, ok, seed, marked, queue, from, parent, rank, step, 0, queue', from');
      return;
    }
    if WithinDistance(img.ColorAt(pos), target, tolerance) {
      ghost var added;
      queue', from', parent', rank', step', added :=
        MarkAndEnqueue(m, img.width, img.height, pos, queue', ok, seed, queue, from, parent, rank, step, from');
      enqueued' := enqueued + |added|;
    } else {
      FillSkip(img.width, ok, seed, marked, queue, from, parent, rank, step, 0, queue', from');
    }
  }

  /** Marking the dequeued pixel `pos` (the head of `work`) and enqueueing
      its free neighbours onto the rest of the queue. */
  method MarkAndEnqueue(m: array<bool>, width: int, height: int, pos: int, rest: seq<int>,
                        ghost ok: seq<bool>, ghost seed: int, ghost work: seq<int>, ghost from: seq<int>,
                        ghost parent: seq<int>, ghost rank: seq<nat>, ghost step: nat, ghost restFrom: seq<int>)
    returns (queue': seq<int>, ghost from': seq<int>, ghost parent': seq<int>, ghost rank': seq<nat>,
             ghost step': nat, ghost added: seq<int>)
    requires width > 0 && m.Length == width * height && |ok| == m.Length
    requires FillInv(width, ok, seed, m[..], work, from, parent, rank, step)
    requires 0 < |work| && pos == work[0] && ok[pos] && !m[pos]
    requires Removed(work, 0, rest) && Removed(from, 0, restFrom)
    modifies m
    ensures queue' == rest + added && |added| <= 4
    ensures FillInv(width, ok, seed, m[..], queue', from', parent', rank', step')
    ensures Count(m[..]) == Count(old(m[..])) + 1
  {
    ghost var marked := m[..];
    m[pos] := true;
    ghost var taken := m[..];
    assert taken == marked[pos := true];
    CountSet(marked, pos);
    var px, py := pos % width, pos / width;
    var left, right, up, down;
    queue', left, right, up, down := EnqueueFreeNeighbours(m, width, height, px, py, pos, rest, taken);
    added := left + right + up + down;
    from' := restFrom + Repeat(pos, |added|);
    parent' := if pos == seed then parent else parent[pos := from[0]];
    rank' := rank[pos := step];
    step' := step + 1;
    FillPush(width, height, ok, seed, marked, work, from, parent, rank, step, step', 0, rest, restFrom,
             px, py, pos, taken, left, right, up, down);
  }

  /** The four neighbour pushes of the fill from `pos`, at column `px` and
      row `py`: left, right, up, down, each when it is inside the frame and
      not yet marked. What the pushes amount to is `FourPushes`. */
  method EnqueueFreeNeighbours(m: array<bool>, width: int, height: int, px: int, py: int, pos: int,
                               queue: seq<int>, ghost taken: seq<bool>)
    returns (queue': seq<int>, left: seq<int>, right: seq<int>, up: seq<int>, down: seq<int>)
    requires width > 0 && m.Length == width * height && 0 <= pos < m.Length && taken == m[..]
    requires px == pos % width && py == pos / width
    ensures 0 <= px < width && 0 <= py < height && pos == py * width + px
    ensures queue' == queue + (left + right + up + down)
    ensures Pushes(width, height, px, py, pos, taken, left, right, up, down)
  {
    RowFacts(width, height, pos);
    left := EnqueueIfFree(m, px > 0, pos - 1);
    right := EnqueueIfFree(m, px < width - 1, pos + 1);
    up := EnqueueIfFree(m, py > 0, pos - width);
    down := EnqueueIfFree(m, py < height - 1, pos + width);
    queue' := queue + left + right + up + down;
    AppendFour(queue, left, right, up, down);
  }

  /** One neighbour push: pixel `q` when it is inside the frame and not yet
      marked, as a list of at most one entry. The contract restates the
      test on the mask array as `Free` on the sequence of its contents, the
      form `Grid.FourPushes` reasons about. */
  function EnqueueIfFree(m: array<bool>, inFrame: bool, q: int): (r: seq<int>)
    reads m
    requires inFrame ==> 0 <= q < m.Length
    ensures r == PushedIf(inFrame && Free(m[..], q), q)
  {
    PushedIf(inFrame && !m[q], q)
  }

  /** In-frame seed with a non-negative tolerance: the seed itself is
      selected, since its distance to its own colour is zero. */
  lemma WandSelectsSeed(img: ImageData, x: int, y: int, tolerance: int)
    requires img.Valid() && img.InFrame(x, y) && tolerance >= 0
    ensures 0 <= y * img.width + x < img.Size() && WandRegion(img, x, y, tolerance)[y * img.width + x]
  {
    IndexInFrame(img.width, img.height, x, y);
    WithinDistanceOfItself(img.ColorAt(y * img.width + x), tolerance);
    SeedInRegion(img.width, DistanceMatches(img, img.ColorAt(y * img.width + x), tolerance), y * img.width + x);
  }

  /** With a non-negative tolerance the wand selects nothing exactly when
      the click is off the image. */
  lemma WandEmptyIffOffFrame(img: ImageData, x: int, y: int, tolerance: int)
    requires img.Valid() && tolerance >= 0
    ensures (forall p :: 0 <= p < img.Size() ==> !WandRegion(img, x, y, tolerance)[p]) <==> !img.InFrame(x, y)
  {
    if img.InFrame(x, y) {
      WandSelectsSeed(img, x, y, tolerance);
    }
  }

  // ---------------------------------------------------------------------
  // Boundary tracing

  /** Pixel (x, y) is inside the frame and set in the mask. */
  predicate Marked(mask: seq<bool>, w: int, h: int, x: int, y: int)
    requires |mask| == w * h
  {
    if 0 <= x < w && 0 <= y < h then IndexInFrame(w, h, x, y); mask[y * w + x] else false
  }

  /** A marked pixel with a 4-neighbour that is unmarked or off the frame. */
  predicate OnBoundary(mask: seq<bool>, w: int, h: int, x: int, y: int)
    requires |mask| == w * h
  {
    && Marked(mask, w, h, x, y)
    && (!Marked(mask, w, h, x - 1, y) || !Marked(mask, w, h, x + 1, y)
        || !Marked(mask, w, h, x, y - 1) || !Marked(mask, w, h, x, y + 1))
  }

  /** `a` comes before `b` in row-major order. */
  predicate Before(a: Point, b: Point)
  {
    a.y < b.y || (a.y == b.y && a.x < b.x)
  }

  /** Every row that holds a marked pixel holds a boundary pixel at or to
      the right of it: walking right, the last marked pixel of the run is
      on the boundary. */
  lemma {:induction false} BoundaryToTheRight(mask: seq<bool>, w: int, h: int, x: int, y: int)
    requires |mask| == w * h && Marked(mask, w, h, x, y)
    ensures exists x' :: x <= x' < w && OnBoundary(mask, w, h, x', y)
    decreases w - x
  {
    if Marked(mask, w, h, x + 1, y) {
      BoundaryToTheRight(mask, w, h, x + 1, y);
      var x' :| x + 1 <= x' < w && OnBoundary(mask, w, h, x', y);
    } else {
      assert OnBoundary(mask, w, h, x, y);
    }
  }

  /** A mask with a marked pixel has a boundary pixel. */
  lemma MarkedHasBoundary(mask: seq<bool>, w: int, h: int, p: int)
    requires w >= 0 && h >= 0 && |mask| == w * h && 0 <= p < |mask| && mask[p]
    ensures exists x, y :: OnBoundary(mask, w, h, x, y)
  {
    RowFacts(w, h, p);
    var x, y := p % w, p / w;
    assert p == y * w + x;
    assert Marked(mask, w, h, x, y);
    BoundaryToTheRight(mask, w, h, x, y);
  }

  /** A list holding exactly the boundary pixels of a mask is empty
      exactly when the mask is. */
  lemma BoundaryEmptyIffMaskEmpty(mask: seq<bool>, w: int, h: int, points: seq<Point>)
    requires w >= 0 && h >= 0 && |mask| == w * h
    requires forall i :: 0 <= i < |points| ==> OnBoundary(mask, w, h, points[i].x, points[i].y)
    requires forall x, y :: OnBoundary(mask, w, h, x, y) ==> Point(x, y) in points
    ensures |points| == 0 <==> forall p :: 0 <= p < |mask| ==> !mask[p]
  {
    if p :| 0 <= p < |mask| && mask[p] {
      MarkedHasBoundary(mask, w, h, p);
    } else if |points| > 0 {
      var first := points[0];
      assert Marked(mask, w, h, first.x, first.y);
      IndexInFrame(w, h, first.x, first.y);
    }
  }

  /** The four neighbour indices of pixel (x, y), where they exist. */
  lemma NeighbourIndices(w: int, h: int, x: int, y: int)
    requires 0 <= x < w && 0 <= y < h
    ensures x > 0 ==> 0 <= y * w + x - 1 == y * w + (x - 1)
    ensures x < w - 1 ==> y * w + x + 1 < w * h
    ensures y > 0 ==> 0 <= y * w + x - w == (y - 1) * w + x
    ensures y < h - 1 ==> y * w + x + w == (y + 1) * w + x < w * h
  {
    if x > 0 {
      IndexInFrame(w, h, x - 1, y);
    }
    if x < w - 1 {
      IndexInFrame(w, h, x + 1, y);
    }
    if y > 0 {
      IndexInFrame(w, h, x, y - 1);
      assert (y - 1) * w == y * w - w;
    }
    if y < h - 1 {
      IndexInFrame(w, h, x, y + 1);
      assert (y + 1) * w == y * w + w;
    }
  }

  /** The boundary of a mask: every marked pixel with an unmarked or
      off-frame 4-neighbour, scanned row by row, left to right. */
  method TraceSelection(img: ImageData, mask: seq<bool>) returns (points: seq<Point>)
    requires |mask| == img.Size()
    ensures forall i :: 0 <= i < |points| ==> OnBoundary(mask, img.width, img.height, points[i].x, points[i].y)
    ensures forall x, y :: OnBoundary(mask, img.width, img.height, x, y) ==> Point(x, y) in points
    ensures forall i, j :: 0 <= i < j < |points| ==> Before(points[i], points[j])
    ensures |points| == 0 <==> forall p :: 0 <= p < |mask| ==> !mask[p]
  {
    var width, height := img.width, img.height;
    points := [];
    var y := 0;
    while y < height
      invariant 0 <= y <= height
      invariant forall i :: 0 <= i < |points| ==>
        OnBoundary(mask, width, height, points[i].x, points[i].y) && points[i].y < y
      invariant forall px, py :: OnBoundary(mask, width, height, px, py) && py < y ==> Point(px, py) in points
      invariant forall i, j :: 0 <= i < j < |points| ==> Before(points[i], points[j])
    {
      var x := 0;
      while x < width
        invariant 0 <= x <= width
        invariant forall i :: 0 <= i < |points| ==>
          OnBoundary(mask, width, height, points[i].x, points[i].y) && Before(points[i], Point(x, y))
        invariant forall px, py :: OnBoundary(mask, width, height, px, py) && Before(Point(px, py), Point(x, y)) ==>
          Point(px, py) in points
        invariant forall i, j :: 0 <= i < j < |points| ==> Before(points[i], points[j])
      {
        var isOnBoundary := BoundaryPixel(mask, width, height, x, y);
        if isOnBoundary {
          points := points + [Point(x, y)];
        }
        x := x + 1;
      }
      y := y + 1;
    }
    BoundaryEmptyIffMaskEmpty(mask, width, height, points);
  }

  /** The test `traceSelection` makes at (x, y): the pixel is marked and one
      of its four neighbours is off the frame or unmarked. */
  method BoundaryPixel(mask: seq<bool>, width: int, height: int, x: int, y: int) returns (isOnBoundary: bool)
    requires |mask| == width * height && 0 <= x < width && 0 <= y < height
    ensures isOnBoundary == OnBoundary(mask, width, height, x, y)
  {
    var pos := y * width + x;
    IndexInFrame(width, height, x, y);
    NeighbourIndices(width, height, x, y);
    isOnBoundary := false;
    if mask[pos] {
      isOnBoundary :=
        x == 0 || !mask[pos - 1] || x == width - 1 || !mask[pos + 1]
        || y == 0 || !mask[pos - width] || y == height - 1 || !mask[pos + width];
    }
  }

  // ---------------------------------------------------------------------
  // Tolerance

  /** `Math.max(1, Math.min(100, t))`: the tolerance stays within 1..100. */
  function ClampTolerance(t: int): (r: int)
    ensures 1 <= r <= 100
    ensures 1 <= t <= 100 ==> r == t
    ensures t < 1 ==> r == 1
    ensures t > 100 ==> r == 100
  {
    if t > 100 then 100 else if t < 1 then 1 else t
  }

  /** Below the top of the range a "+" step is undone by a "-" step; from
      96 to 100 the clamp loses the difference and "-" lands on 95. */
  lemma StepUpThenDown(t: int)
    requires 1 <= t <= 100
    ensures t <= 95 ==> ClampTolerance(ClampTolerance(t + STEP) - STEP) == t
    ensures t > 95 ==> ClampTolerance(ClampTolerance(t + STEP) - STEP) == 95
  {
  }

  /** The amount one button press moves the tolerance by. */
  const STEP := 5

  /** The contextual buttons: "-", a label showing the tolerance, "+". */
  function ToleranceButtons(tolerance: int): (b: seq<ToolButton>)
    ensures |b| == 3
    ensures b[0] == LessTolerance && b[1] == ToleranceLabel(tolerance) && b[2] == MoreTolerance
  {
    [LessTolerance, ToleranceLabel(tolerance), MoreTolerance]
  }

  /** One row of `applyToMask`: with the rows above `y` merged into the
      overlay, merges row `y` pixel by pixel, left to right. */
  method MergeRow(overlay: array<byte>, ghost before: seq<byte>, mask: seq<bool>, add: bool,
                  width: int, height: int, y: int, row: int)
    requires overlay.Length == |before| == 4 * |mask| && |mask| == width * height
    requires 0 <= y < height && row == y * width
    requires forall k :: 0 <= k < overlay.Length ==>
      overlay[k] == if k < 4 * row then Merge(before, mask, add)[k] else before[k]
    modifies overlay
    ensures forall k :: 0 <= k < overlay.Length ==>
      overlay[k] == if k < 4 * (row + width) then Merge(before, mask, add)[k] else before[k]
  {
    var x := 0;
    while x < width
      invariant 0 <= x <= width
      invariant forall k :: 0 <= k < overlay.Length ==>
        overlay[k] == if k < 4 * (row + x) then Merge(before, mask, add)[k] else before[k]
    {
      IndexInFrame(width, height, x, y);
      MergePixelInto(overlay, before, mask, add, row + x);
      x := x + 1;
    }
  }

  /** The merge loop of `applyToMask`: row by row, every pixel of the
      mask is merged into the overlay. */
  method MergeMask(overlay: array<byte>, mask: seq<bool>, add: bool, width: int, height: int)
    requires overlay.Length == 4 * |mask| && |mask| == width * height && 0 <= height
    modifies overlay
    ensures overlay[..] == Merge(old(overlay[..]), mask, add)
  {
    ghost var before := overlay[..];
    ghost var merged := Merge(before, mask, add);
    var y, row := 0, 0;
    while y < height
      invariant 0 <= y <= height && row == y * width
      invariant forall k :: 0 <= k < overlay.Length ==>
        overlay[k] == if k < 4 * row then merged[k] else before[k]
    {
      MergeRow(overlay, before, mask, add, width, height, y, row);
      assert (y + 1) * width == row + width;
      y, row := y + 1, row + width;
    }
    assert row == |mask|;
    assert overlay[..] == merged;
  }

  // ---------------------------------------------------------------------
  // The tool

  /** One Magic Wand tool instance. `tolerance` is the closure variable the
      buttons change; `image` is the picture canvas, `overlay` the RGBA
      buffer of the mask canvas (`hasMaskCanvas` says whether that canvas
      exists), `mode` the editor's mode prop; `events` records the
      callbacks made so far. */
  class MagicWandTool {
    var tolerance: int
    const image: ImageData
    const overlay: array<byte>
    const hasMaskCanvas: bool
    const mode: Option<string>
    var events: seq<Event>

    ghost predicate Valid()
      reads this
    {
      1 <= tolerance <= 100 && image.Valid() && overlay.Length == 4 * image.Size()
    }

    /** A fresh tool starts at tolerance 1 and has made no callback. */
    constructor(image: ImageData, overlay: array<byte>, hasMaskCanvas: bool, mode: Option<string>)
      requires image.Valid() && overlay.Length == 4 * image.Size()
      ensures Valid() && tolerance == 1 && events == []
      ensures this.image == image && this.overlay == overlay
      ensures this.hasMaskCanvas == hasMaskCanvas && this.mode == mode
    {
      tolerance := 1;
      this.image := image;
      this.overlay := overlay;
      this.hasMaskCanvas := hasMaskCanvas;
      this.mode := mode;
      events := [];
    }

    /** Registers "-", the tolerance label and "+". */
    method RegisterContextButtons()
      modifies this
      ensures tolerance == old(tolerance)
      ensures events == old(events) + [RegisterToolButtons(ToleranceButtons(tolerance))]
    {
      events := events + [RegisterToolButtons(ToleranceButtons(tolerance))];
    }

    /** Activating the tool registers its buttons; the cursor is always
        "pointer". */
    method InitTool() returns (cursor: string)
      modifies this
      ensures cursor == "pointer"
      ensures tolerance == old(tolerance)
      ensures events == old(events) + [RegisterToolButtons(ToleranceButtons(tolerance))]
    {
      RegisterContextButtons();
      cursor := "pointer";
    }

    /** Moves the tolerance by `amount`, clamped to 1..100, and re-registers
        the buttons so the label shows the new value. */
    method AdjustTolerance(amount: int)
      requires Valid()
      modifies this
      ensures Valid()
      ensures tolerance == ClampTolerance(old(tolerance) + amount)
      ensures events == old(events) + [RegisterToolButtons(ToleranceButtons(tolerance))]
    {
      tolerance := if tolerance + amount > 100 then 100 else if tolerance + amount < 1 then 1 else tolerance + amount;
      RegisterContextButtons();
    }

    /** A click on one of the registered buttons: "-" steps down by 5, "+"
        up by 5, the label does nothing. */
    method Click(button: ToolButton)
      requires Valid() && button in ToleranceButtons(tolerance)
      modifies this
      ensures Valid()
      ensures button == LessTolerance ==> tolerance == ClampTolerance(old(tolerance) - STEP)
      ensures button == MoreTolerance ==> tolerance == ClampTolerance(old(tolerance) + STEP)
      ensures button == LessTolerance || button == MoreTolerance ==>
        events == old(events) + [RegisterToolButtons(ToleranceButtons(tolerance))]
      ensures button.ToleranceLabel? ==> tolerance == old(tolerance) && events == old(events)
    {
      match button {
        case LessTolerance => AdjustTolerance(-STEP);
        case MoreTolerance => AdjustTolerance(STEP);
        case ToleranceLabel(_) =>
        case ApplyGrabCut =>
      }
    }

    /** Writes `mask` into the overlay: in Add mode every masked pixel
        becomes (255, 0, 0, 150), in Subtract mode its alpha becomes 0;
        other pixels keep their bytes. Without a mask canvas nothing
        happens. */
    method ApplyToMask(mask: seq<bool>)
      requires Valid() && |mask| == image.Size()
      modifies this, overlay
      ensures Valid() && tolerance == old(tolerance)
      ensures hasMaskCanvas ==> overlay[..] == Merge(old(overlay[..]), mask, IsAddMode(mode))
      ensures hasMaskCanvas ==> events == old(events) + [SetIsMaskApplied]
      ensures !hasMaskCanvas ==> overlay[..] == old(overlay[..]) && events == old(events)
    {
      if !hasMaskCanvas {
        return;
      }
      var width, height := image.width, image.height;
      var isAddMode := mode == Some("add") || mode == None || mode == Some("");
      MergeMask(overlay, mask, isAddMode, width, height);
      events := events + [SetIsMaskApplied];
    }

    /** A click at (x, y): fill from the click, trace the boundary, and
        either report that nothing was selected or merge the fill into the
        overlay, refresh the preview and mark a selection as present. */
    method ProcessMagicWand(x: int, y: int)
      requires Valid()
      modifies this, overlay
      ensures Valid() && tolerance == old(tolerance)
      ensures !image.InFrame(x, y) ==>
        overlay[..] == old(overlay[..]) && events == old(events) + [SetErrorMessage(EmptySelection)]
      ensures image.InFrame(x, y) && hasMaskCanvas ==>
        && overlay[..] == Merge(old(overlay[..]), WandRegion(image, x, y, tolerance), IsAddMode(mode))
        && events == old(events) + [SetIsMaskApplied, UpdatePreview, SetHasSelection(true)]
      ensures image.InFrame(x, y) && !hasMaskCanvas ==>
        overlay[..] == old(overlay[..]) && events == old(events) + [UpdatePreview, SetHasSelection(true)]
    {
      var mask: seq<bool>;
      ghost var enqueued: nat;
      mask, enqueued := FloodFill(image, x, y, tolerance);
      var selection := TraceSelection(image, mask);
      WandEmptyIffOffFrame(image, x, y, tolerance);
      if |selection| == 0 {
        events := events + [SetErrorMessage(EmptySelection)];
        return;
      }
      ApplyToMask(mask);
      events := events + [UpdatePreview, SetHasSelection(true)];
    }

    /** A mouse-down runs the selection at the pointer and hands the point
        back. */
    method HandleMouseDown(x: int, y: int) returns (p: Point)
      requires Valid()
      modifies this, overlay
      ensures Valid() && tolerance == old(tolerance)
      ensures p == Point(x, y)
      ensures !image.InFrame(x, y) ==>
        overlay[..] == old(overlay[..]) && events == old(events) + [SetErrorMessage(EmptySelection)]
      ensures image.InFrame(x, y) && hasMaskCanvas ==>
        && overlay[..] == Merge(old(overlay[..]), WandRegion(image, x, y, tolerance), IsAddMode(mode))
        && events == old(events) + [SetIsMaskApplied, UpdatePreview, SetHasSelection(true)]
      ensures image.InFrame(x, y) && !hasMaskCanvas ==>
        overlay[..] == old(overlay[..]) && events == old(events) + [UpdatePreview, SetHasSelection(true)]
    {
      ProcessMagicWand(x, y);
      p := Point(x, y);
    }
  }
}
