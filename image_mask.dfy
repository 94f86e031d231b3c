/**
 * The earlier all-in-one mask editor: one component holding the selected
 * tool, the Add/Subtract mode, the drag state and both selection methods.
 * Its Magic Wand fills depth-first over a stack with a per-channel colour
 * test at a fixed tolerance of 32; its GrabCut runs on mouse-up; and both
 * replace the whole mask overlay with a fresh buffer instead of merging
 * into it.
 */
module ImageMask {
  import opened Wrappers
  import opened Grid
  import opened Fill
  import opened Raster
  import opened Overlay
  import G = GrabCut

  datatype Tool = GrabCutTool | MagicWandTool

  datatype Mode = Add | Subtract

  /** The mode button: Add becomes Subtract and Subtract becomes Add. */
  function Toggled(mode: Mode): (r: Mode)
    ensures r != mode
  {
    if mode == Add then Subtract else Add
  }

  /** Pressing the mode button twice restores the mode. */
  lemma ToggleTwice(mode: Mode)
    ensures Toggled(Toggled(mode)) == mode
  {
  }

  /** The per-channel tolerance of the Magic Wand. */
  const TOLERANCE := 32

  /** The iteration count passed to `grabCut`. */
  const ITERATIONS: nat := 5

  /** The pixel index of an in-frame point. */
  function Index(p: Point, w: int): int
  {
    p.y * w + p.x
  }

  /** The pixel indices of a stack of points. */
  ghost function Indices(stack: seq<Point>, w: int): (r: seq<int>)
    ensures |r| == |stack|
    ensures forall k :: 0 <= k < |stack| ==> r[k] == Index(stack[k], w)
  {
    seq(|stack|, k requires 0 <= k < |stack| => Index(stack[k], w))
  }

  /** Popping a point pops its index. */
  lemma IndicesPop(stack: seq<Point>, w: int)
    requires |stack| > 0
    ensures Indices(stack[..|stack| - 1], w) == Indices(stack, w)[..|stack| - 1]
  {
  }

  /** Every point on the stack lies in the frame. */
  ghost predicate AllInFrame(img: ImageData, stack: seq<Point>)
  {
    forall k :: 0 <= k < |stack| ==> img.InFrame(stack[k].x, stack[k].y)
  }

  /** The pixels the fill from an in-frame seed selects: its 4-connected
      region of pixels whose every channel is within `tolerance` of
      `target`. */
  ghost function StackRegion(img: ImageData, x: int, y: int, target: Rgb, tolerance: int): (m: seq<bool>)
    requires img.Valid() && img.InFrame(x, y)
    ensures |m| == img.Size()
  {
    IndexInFrame(img.width, img.height, x, y);
    var ok := ChannelMatches(img, target, tolerance);
    seq(img.Size(), p requires 0 <= p < img.Size() => InRegion(img.width, ok, y * img.width + x, p))
  }

  /** `p` as a one-element stack when `c` holds, else the empty stack. */
  function PointIf(c: bool, p: Point): seq<Point>
  {
    if c then [p] else []
  }

  lemma IndicesAppend(a: seq<Point>, b: seq<Point>, w: int)
    ensures Indices(a + b, w) == Indices(a, w) + Indices(b, w)
  {
  }

  lemma AllInFrameAppend(img: ImageData, a: seq<Point>, b: seq<Point>)
    requires AllInFrame(img, a) && AllInFrame(img, b)
    ensures AllInFrame(img, a + b)
  {
    forall k | 0 <= k < |a + b|
      ensures img.InFrame((a + b)[k].x, (a + b)[k].y)
    {
      if k >= |a| {
        assert (a + b)[k] == b[k - |a|];
      }
    }
  }

  /** No pixel is taken: this fill pushes neighbours whether marked or not. */
  ghost function NoneTaken(n: nat): (t: seq<bool>)
    ensures |t| == n && forall q :: 0 <= q < n ==> !t[q]
  {
    seq(n, _ => false)
  }

  /** Pushing four lists of points pushes their indices. */
  lemma IndicesAppendFour(stack: seq<Point>, l: seq<Point>, r: seq<Point>, u: seq<Point>, d: seq<Point>, w: int)
    ensures Indices(stack + (l + r + u + d), w) == Indices(stack, w) + (Indices(l, w) + Indices(r, w) + Indices(u, w) + Indices(d, w))
  {
    IndicesAppend(l, r, w);
    IndicesAppend(l + r, u, w);
    IndicesAppend(l + r + u, d, w);
    IndicesAppend(stack, l + r + u + d, w);
  }

  /** Pushing the in-frame neighbours of an in-frame point keeps the stack
      inside the frame. */
  lemma NeighboursInFrame(img: ImageData, stack: seq<Point>, x: int, y: int)
    requires AllInFrame(img, stack) && img.InFrame(x, y)
    ensures AllInFrame(img, stack + (PointIf(x > 0, Point(x - 1, y)) + PointIf(x < img.width - 1, Point(x + 1, y))
                                     + PointIf(y > 0, Point(x, y - 1)) + PointIf(y < img.height - 1, Point(x, y + 1))))
  {
    var l := PointIf(x > 0, Point(x - 1, y));
    var r := PointIf(x < img.width - 1, Point(x + 1, y));
    var u := PointIf(y > 0, Point(x, y - 1));
    var d := PointIf(y < img.height - 1, Point(x, y + 1));
    AllInFrameAppend(img, l, r);
    AllInFrameAppend(img, l + r, u);
    AllInFrameAppend(img, l + r + u, d);
    AllInFrameAppend(img, stack, l + r + u + d);
  }

  /** The four pushes of the fill: left, right, up, down, each whenever it
      is inside the frame (marked or not). On pixel indices they are the
      pushes `FourPushes` describes, with no pixel taken. */
  method PushNeighbours(img: ImageData, stack: seq<Point>, current: Point, ghost p: int)
    returns (stack': seq<Point>, ghost left: seq<int>, ghost right: seq<int>, ghost up: seq<int>,
             ghost down: seq<int>)
    requires img.InFrame(current.x, current.y) && AllInFrame(img, stack)
    requires p == current.y * img.width + current.x
    ensures AllInFrame(img, stack')
    ensures Indices(stack', img.width) == Indices(stack, img.width) + (left + right + up + down)
    ensures Pushes(img.width, img.height, current.x, current.y, p, NoneTaken(img.Size()), left, right, up, down)
  {
    var l := PointIf(current.x > 0, Point(current.x - 1, current.y));
    var r := PointIf(current.x < img.width - 1, Point(current.x + 1, current.y));
    var u := PointIf(current.y > 0, Point(current.x, current.y - 1));
    var d := PointIf(current.y < img.height - 1, Point(current.x, current.y + 1));
    var pushed := l + r + u + d;
    stack' := stack + pushed;
    left, right, up, down := Indices(l, img.width), Indices(r, img.width), Indices(u, img.width), Indices(d, img.width);
    PushedIndices(img, current.x, current.y, p);
    IndicesAppendFour(stack, l, r, u, d, img.width);
    NeighboursInFrame(img, stack, current.x, current.y);
  }

  /** The indices of the points pushed from (x, y) are the index pushes of
      `FourPushes` from its index, with no pixel taken. */
  lemma PushedIndices(img: ImageData, x: int, y: int, p: int)
    requires img.InFrame(x, y) && p == y * img.width + x
    ensures Pushes(img.width, img.height, x, y, p, NoneTaken(img.Size()),
                   Indices(PointIf(x > 0, Point(x - 1, y)), img.width),
                     Indices(PointIf(x < img.width - 1, Point(x + 1, y)), img.width),
                     Indices(PointIf(y > 0, Point(x, y - 1)), img.width),
                     Indices(PointIf(y < img.height - 1, Point(x, y + 1)), img.width))
  {
    OnePush(img, x > 0, Point(x - 1, y), p - 1);
    OnePush(img, x < img.width - 1, Point(x + 1, y), p + 1);
    if y > 0 {
      assert (y - 1) * img.width + x == p - img.width;
    }
    OnePush(img, y > 0, Point(x, y - 1), p - img.width);
    if y < img.height - 1 {
      assert (y + 1) * img.width + x == p + img.width;
    }
    OnePush(img, y < img.height - 1, Point(x, y + 1), p + img.width);
  }

  /** One push of the stack fill, as an index push with no pixel taken. */
  lemma OnePush(img: ImageData, c: bool, pt: Point, q: int)
    requires c ==> img.InFrame(pt.x, pt.y) && q == pt.y * img.width + pt.x
    ensures Indices(PointIf(c, pt), img.width) == PushedIf(c && Free(NoneTaken(img.Size()), q), q)
  {
    if c {
      IndexInFrame(img.width, img.height, pt.x, pt.y);
      assert Indices([pt], img.width) == [q];
    }
  }

  /** Marking the popped point `current` (the entry `j` of the work list)
      and pushing its in-frame neighbours onto the rest of the stack. */
  method MarkAndPush(img: ImageData, mask: array<bool>, rest: seq<Point>, current: Point,
                     ghost ok: seq<bool>, ghost seed: int, ghost work: seq<int>, ghost from: seq<int>,
                     ghost parent: seq<int>, ghost rank: seq<nat>, ghost step: nat, ghost j: int,
                     ghost restFrom: seq<int>)
    returns (stack': seq<Point>, ghost from': seq<int>, ghost parent': seq<int>, ghost rank': seq<nat>,
             ghost step': nat)
    requires img.Valid() && mask.Length == img.Size() && img.InFrame(current.x, current.y)
    requires AllInFrame(img, rest) && |ok| == img.Size()
    requires FillInv(img.width, ok, seed, mask[..], work, from, parent, rank, step)
    requires 0 <= j < |work| && work[j] == Index(current, img.width) && ok[work[j]] && !mask[work[j]]
    requires Removed(work, j, Indices(rest, img.width)) && Removed(from, j, restFrom)
    modifies mask
    ensures AllInFrame(img, stack')
    ensures FillInv(img.width, ok, seed, mask[..], Indices(stack', img.width), from', parent', rank', step')
    ensures Count(mask[..]) == Count(old(mask[..])) + 1
  {
    var width := img.width;
    IndexInFrame(width, img.height, current.x, current.y);
    var pos := current.y * width + current.x;
    ghost var marked := mask[..];
    mask[pos] := true;
    assert mask[..] == marked[pos := true];
    CountSet(marked, pos);
    ghost var left, right, up, down;
    stack', left, right, up, down := PushNeighbours(img, rest, current, pos);
    ghost var added := left + right + up + down;
    from' := restFrom + Repeat(pos, |added|);
    parent' := if pos == seed then parent else parent[pos := from[j]];
    rank' := rank[pos := step];
    step' := step + 1;
    FillPush(width, img.height, ok, seed, marked, work, from, parent, rank, step, step', j, Indices(rest, width), restFrom,
             current.x, current.y, pos, NoneTaken(img.Size()), left, right, up, down);
  }

  /** One turn of the fill loop: pop the top point; skip it when it is
      marked or does not match; otherwise mark it and push its in-frame
      neighbours. Either one more pixel is marked, or the stack is one
      shorter and nothing is marked. */
  method VisitTop(img: ImageData, mask: array<bool>, stack: seq<Point>, target: Rgb, tolerance: int,
                  ghost ok: seq<bool>, ghost seed: int, ghost from: seq<int>, ghost parent: seq<int>,
                  ghost rank: seq<nat>, ghost step: nat)
    returns (stack': seq<Point>, ghost from': seq<int>, ghost parent': seq<int>, ghost rank': seq<nat>,
             ghost step': nat)
    requires img.Valid() && mask.Length == img.Size() && |stack| > 0 && AllInFrame(img, stack)
    requires ok == ChannelMatches(img, target, tolerance)
    requires FillInv(img.width, ok, seed, mask[..], Indices(stack, img.width), from, parent, rank, step)
    modifies mask
    ensures AllInFrame(img, stack')
    ensures FillInv(img.width, ok, seed, mask[..], Indices(stack', img.width), from', parent', rank', step')
    ensures || Count(mask[..]) == Count(old(mask[..])) + 1
            || (mask[..] == old(mask[..]) && |stack'| < |stack|)
  {
    var width := img.width;
    var j := |stack| - 1;
    var current := stack[j];
    var rest := stack[..j];
    ghost var restFrom := from[..j];
    PopTop(img, stack, j, from, target, tolerance);
    var pos := Index(current, width);
    if !mask[pos] && ColorMatch(target, img.ColorAt(pos), tolerance) {
      stack', from', parent', rank', step' :=
        MarkAndPush(img, mask, rest, current, ok, seed, Indices(stack, width), from, parent, rank, step, j, restFrom);
    } else {
      FillSkip(width, ok, seed, mask[..], Indices(stack, width), from, parent, rank, step, j, Indices(rest, width),
               restFrom);
      stack', from', parent', rank', step' := rest, restFrom, parent, rank, step;
    }
  }

  /** Popping the top point (entry `j`, the last) of the stack: on indices
      it takes out entry `j` of the work list (and of `from`); the point is
      in the frame and matches exactly when its channels are within
      `tolerance`. */
  lemma PopTop(img: ImageData, stack: seq<Point>, j: int, from: seq<int>, target: Rgb, tolerance: int)
    requires img.Valid() && |stack| > 0 && j == |stack| - 1 && |from| == |stack| && AllInFrame(img, stack)
    ensures && Removed(Indices(stack, img.width), j, Indices(stack[..j], img.width))
            && Removed(from, j, from[..j])
            && AllInFrame(img, stack[..j])
            && img.InFrame(stack[j].x, stack[j].y)
            && 0 <= Index(stack[j], img.width) < img.Size()
            && Indices(stack, img.width)[j] == Index(stack[j], img.width)
            && ChannelMatches(img, target, tolerance)[Index(stack[j], img.width)]
               == ColorMatch(target, img.ColorAt(Index(stack[j], img.width)), tolerance)
  {
    IndexInFrame(img.width, img.height, stack[j].x, stack[j].y);
    IndicesPop(stack, img.width);
    RemovedLast(Indices(stack, img.width));
    RemovedLast(from);
  }

  /** Depth-first fill over a stack of points from the in-frame seed
      (x, y), into a fresh mask: a popped point is marked when it is
      unmarked and every channel is within `tolerance` of `target`;
      marking it pushes all its in-frame 4-neighbours. */
  method FloodFill(img: ImageData, mask: array<bool>, x: int, y: int, target: Rgb, tolerance: int)
    requires img.Valid() && mask.Length == img.Size() && img.InFrame(x, y)
    requires forall p :: 0 <= p < mask.Length ==> !mask[p]
    modifies mask
    ensures mask[..] == StackRegion(img, x, y, target, tolerance)
  {
    var stack := [Point(x, y)];
    var width := img.width;
    var n := mask.Length;
    IndexInFrame(width, img.height, x, y);
    ghost var seed := y * width + x;
    ghost var ok := ChannelMatches(img, target, tolerance);
    ghost var from: seq<int> := [seed];
    ghost var parent: seq<int> := seq(n, _ => 0);
    ghost var rank: seq<nat> := seq(n, _ => 0);
    ghost var step: nat := 0;
    assert Indices(stack, width) == [seed];
    FillStart(width, ok, seed, mask[..], parent, rank);
    while |stack| > 0
      invariant AllInFrame(img, stack)
      invariant FillInv(width, ok, seed, mask[..], Indices(stack, width), from, parent, rank, step)
      decreases n - Count(mask[..]), |stack|
    {
      stack, from, parent, rank, step := VisitTop(img, mask, stack, target, tolerance, ok, seed, from, parent, rank, step);
    }
    assert Indices(stack, width) == [];
    FillDone(width, ok, seed, mask[..], from, parent, rank, step);
    assert mask[..] == StackRegion(img, x, y, target, tolerance);
  }

  /** The fill a click at (x, y) produces: tolerance 32 around the colour
      of the clicked pixel. */
  ghost function WandSelection(img: ImageData, x: int, y: int): (m: seq<bool>)
    requires img.Valid() && img.InFrame(x, y)
    ensures |m| == img.Size()
  {
    IndexInFrame(img.width, img.height, x, y);
    StackRegion(img, x, y, img.ColorAt(y * img.width + x), TOLERANCE)
  }

  /** The clicked pixel is always part of the selection: it matches its
      own colour on every channel. */
  lemma WandSelectsSeed(img: ImageData, x: int, y: int)
    requires img.Valid() && img.InFrame(x, y)
    ensures 0 <= y * img.width + x < img.Size() && WandSelection(img, x, y)[y * img.width + x]
  {
    IndexInFrame(img.width, img.height, x, y);
    var c := img.ColorAt(y * img.width + x);
    ColorMatchSymmetric(c, c, TOLERANCE);
    SeedInRegion(img.width, ChannelMatches(img, c, TOLERANCE), y * img.width + x);
  }

  /** What `handleGrabCut` leaves in the overlay when segmentation succeeds. */
  ghost function GrabCutSelection(seg: G.Segmenter, start: Point, end: Point, width: nat, height: nat): (m: seq<bool>)
    ensures |m| == width * height
  {
    G.ForegroundMask(G.Segment(seg, G.CreateSelectionRect(start, end), ITERATIONS, height, width))
  }

  /** The editor. `image` is the picture canvas and `overlay` the mask
      canvas's pixels; the other fields are the component's state. */
  class Editor {
    var selectedTool: Tool
    var mode: Mode
    var isSelecting: bool
    var startPoint: Point
    var endPoint: Point
    const isOpenCVReady: bool
    const image: ImageData
    var overlay: seq<byte>

    ghost predicate Valid()
      reads this
    {
      image.Valid() && |overlay| == 4 * image.Size()
    }

    /** The initial state: GrabCut selected, Add mode, no drag, both
        points at the origin. */
    constructor(image: ImageData, overlay: seq<byte>, isOpenCVReady: bool)
      requires image.Valid() && |overlay| == 4 * image.Size()
      ensures Valid()
      ensures selectedTool == GrabCutTool && mode == Add && !isSelecting
      ensures startPoint == Point(0, 0) && endPoint == Point(0, 0)
      ensures this.isOpenCVReady == isOpenCVReady && this.image == image && this.overlay == overlay
    {
      selectedTool := GrabCutTool;
      mode := Add;
      isSelecting := false;
      startPoint := Point(0, 0);
      endPoint := Point(0, 0);
      this.isOpenCVReady := isOpenCVReady;
      this.image := image;
      this.overlay := overlay;
    }

    /** Replaces the overlay with a fresh buffer holding (255, 0, 0, 128)
        on every selected pixel and zero everywhere else; the mode plays no
        part. */
    method ApplyMask(maskData: seq<bool>)
      requires Valid() && |maskData| == image.Size()
      modifies this
      ensures Valid() && overlay == Replaced(maskData)
      ensures selectedTool == old(selectedTool) && mode == old(mode) && isSelecting == old(isSelecting)
      ensures startPoint == old(startPoint) && endPoint == old(endPoint)
    {
      var data := new byte[4 * |maskData|](_ => 0);
      var i := 0;
      while i < |maskData|
        modifies data
        invariant 0 <= i <= |maskData|
        invariant forall k :: 0 <= k < data.Length ==> data[k] == if k < 4 * i then Replaced(maskData)[k] else 0
      {
        var pos := i * 4;
        ReplacedBytes(maskData, i);
        if maskData[i] {
          data[pos] := 255;
          data[pos + 1] := 0;
          data[pos + 2] := 0;
          data[pos + 3] := 128;
        }
        i := i + 1;
      }
      overlay := data[..];
    }

    /** A Magic Wand click at the in-frame point (x, y): fill with
        tolerance 32 around the clicked colour and replace the overlay
        with the result. */
    method HandleMagicWand(x: int, y: int)
      requires Valid() && image.InFrame(x, y)
      modifies this
      ensures Valid() && overlay == Replaced(WandSelection(image, x, y))
      ensures selectedTool == old(selectedTool) && mode == old(mode) && isSelecting == old(isSelecting)
      ensures startPoint == old(startPoint) && endPoint == old(endPoint)
    {
      var mask := new bool[image.Size()](_ => false);
      IndexInFrame(image.width, image.height, x, y);
      var pos := y * image.width + x;
      var targetColor := image.ColorAt(pos);
      FloodFill(image, mask, x, y, targetColor, TOLERANCE);
      ApplyMask(mask[..]);
    }

    /** Mouse-down: start a drag at `p`; with the Magic Wand selected, run
        it at `p`. */
    method MouseDown(p: Point)
      requires Valid() && (selectedTool == MagicWandTool ==> image.InFrame(p.x, p.y))
      modifies this
      ensures Valid() && isSelecting && startPoint == p && endPoint == p
      ensures selectedTool == old(selectedTool) && mode == old(mode)
      ensures selectedTool == MagicWandTool ==> overlay == Replaced(WandSelection(image, p.x, p.y))
      ensures selectedTool == GrabCutTool ==> overlay == old(overlay)
    {
      isSelecting := true;
      startPoint := p;
      endPoint := p;
      if selectedTool == MagicWandTool {
        HandleMagicWand(p.x, p.y);
      }
    }

    /** Mouse-move: only a GrabCut drag in progress follows the pointer. */
    method MouseMove(p: Point)
      modifies this
      ensures endPoint == if old(isSelecting) && selectedTool == GrabCutTool then p else old(endPoint)
      ensures selectedTool == old(selectedTool) && mode == old(mode) && isSelecting == old(isSelecting)
      ensures startPoint == old(startPoint) && overlay == old(overlay)
    {
      if isSelecting && selectedTool == GrabCutTool {
        endPoint := p;
      }
    }

    /** GrabCut on the dragged rectangle. Nothing happens unless OpenCV is
        ready and present. The four matrices are allocated before the
        segmentation and deleted in order afterwards; a `delete()` that
        throws ends the clean-up there. The overlay is replaced only when
        the segmentation succeeds. */
    method HandleGrabCut(cv: Option<G.OpenCV>) returns (ghost mats: seq<G.Mat>)
      requires Valid()
      modifies this
      ensures Valid()
      ensures selectedTool == old(selectedTool) && mode == old(mode) && isSelecting == old(isSelecting)
      ensures startPoint == old(startPoint) && endPoint == old(endPoint)
      ensures !isOpenCVReady || cv.None? || cv.value.imreadThrows ==> mats == [] && overlay == old(overlay)
      ensures isOpenCVReady && cv.Some? && !cv.value.imreadThrows ==>
        && |mats| == 4
        && (forall i :: 0 <= i < 4 ==> fresh(mats[i]))
        && (forall i :: 0 <= i < 4 ==>
              (mats[i].deleteAttempted <==> forall j :: 0 <= j < i ==> !mats[j].deleteFails))
        && (cv.value.segmenter.throws(G.CreateSelectionRect(startPoint, endPoint), ITERATIONS) ==> overlay == old(overlay))
        && (!cv.value.segmenter.throws(G.CreateSelectionRect(startPoint, endPoint), ITERATIONS) ==>
              overlay == Replaced(GrabCutSelection(cv.value.segmenter, startPoint, endPoint, image.width, image.height)))
    {
      mats := [];
      if !isOpenCVReady || cv.None? {
        return;
      }
      var lib := cv.value;
      if lib.imreadThrows {
        return;
      }
      var src := new G.Mat(image.height, image.width, 0 in lib.failingDeletes);
      var mask := new G.Mat(src.rows, src.cols, 1 in lib.failingDeletes);
      var bgdModel := new G.Mat(1, 65, 2 in lib.failingDeletes);
      var fgdModel := new G.Mat(1, 65, 3 in lib.failingDeletes);
      var matrices := [src, mask, bgdModel, fgdModel];
      mats := matrices;
      var rect := G.CreateSelectionRect(startPoint, endPoint);
      if !lib.segmenter.throws(rect, ITERATIONS) {
        mask.data := G.Segment(lib.segmenter, rect, ITERATIONS, mask.rows, mask.cols);
        var maskData := G.ExtractMaskData(mask);
        assert maskData == G.ForegroundMask(mask.data);
        ApplyMask(maskData);
      }
      DeleteInOrder(matrices);
    }

    /** Mouse-up: the drag ends; with GrabCut selected, segment the
        rectangle. */
    method MouseUp(cv: Option<G.OpenCV>)
      requires Valid()
      modifies this
      ensures Valid() && !isSelecting
      ensures selectedTool == old(selectedTool) && mode == old(mode)
      ensures startPoint == old(startPoint) && endPoint == old(endPoint)
      ensures selectedTool == MagicWandTool ==> overlay == old(overlay)
      ensures selectedTool == GrabCutTool ==>
        overlay == if isOpenCVReady && cv.Some? && !cv.value.imreadThrows
                      && !cv.value.segmenter.throws(G.CreateSelectionRect(startPoint, endPoint), ITERATIONS)
                   then Replaced(GrabCutSelection(cv.value.segmenter, startPoint, endPoint, image.width, image.height))
                   else old(overlay)
    {
      isSelecting := false;
      if selectedTool == GrabCutTool {
        ghost var mats := HandleGrabCut(cv);
      }
    }

    /** The mode button. */
    method ToggleMode()
      modifies this
      ensures mode == Toggled(old(mode))
      ensures selectedTool == old(selectedTool) && isSelecting == old(isSelecting)
      ensures startPoint == old(startPoint) && endPoint == old(endPoint) && overlay == old(overlay)
    {
      mode := Toggled(mode);
    }

    /** The tool buttons; the GrabCut button is disabled until OpenCV is
        ready. */
    method SelectTool(tool: Tool)
      modifies this
      ensures selectedTool == if tool == GrabCutTool && !isOpenCVReady then old(selectedTool) else tool
      ensures mode == old(mode) && isSelecting == old(isSelecting)
      ensures startPoint == old(startPoint) && endPoint == old(endPoint) && overlay == old(overlay)
    {
      if tool == MagicWandTool || isOpenCVReady {
        selectedTool := tool;
      }
    }
  }

  /** The `finally` block: `delete()` on each matrix in turn, without a
      guard, so the first one that throws stops the rest. */
  method DeleteInOrder(mats: seq<G.Mat>)
    modifies set i | 0 <= i < |mats| :: mats[i]
    requires forall i, j :: 0 <= i < j < |mats| ==> mats[i] != mats[j]
    requires forall i :: 0 <= i < |mats| ==> !mats[i].deleteAttempted
    ensures forall i :: 0 <= i < |mats| ==>
      (mats[i].deleteAttempted <==> forall j :: 0 <= j < i ==> !mats[j].deleteFails)
  {
    var i := 0;
    while i < |mats|
      invariant 0 <= i <= |mats|
      invariant forall k :: 0 <= k < i ==> mats[k].deleteAttempted
      invariant forall k :: 0 <= k < i ==> !mats[k].deleteFails
      invariant forall k :: i <= k < |mats| ==> !mats[k].deleteAttempted
    {
      var threw := mats[i].Delete();
      if threw {
        return;
      }
      i := i + 1;
    }
  }
}
