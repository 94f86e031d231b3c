/**
 * The GrabCut tool: the user drags a rectangle over the picture, and
 * "Apply GrabCut" hands the picture and the rectangle to OpenCV's
 * `grabCut`, turns the label grid it produces into a foreground mask and
 * merges that mask into the overlay in Add or Subtract mode. Every OpenCV
 * matrix allocated on the way is released again, whichever way the run
 * ends.
 */
module GrabCut {
  import opened Wrappers
  import opened Grid
  import opened Raster
  import opened Overlay
  import opened Callbacks

  // ---------------------------------------------------------------------
  // The selection rectangle

  /** The minimum side of a selection, in pixels. */
  const MIN_SIDE := 20

  /** `Math.max(0, Math.min(v, limit))`. */
  function ClampTo(v: int, limit: nat): (r: int)
    ensures 0 <= r <= limit
    ensures 0 <= v <= limit ==> r == v
    ensures v < 0 ==> r == 0
    ensures v > limit ==> r == limit
  {
    if v < 0 then 0 else if v > limit then limit else v
  }

  /** The point a drag reports while the button is down: nothing when no
      selection is being drawn, otherwise the pointer clamped to the canvas
      (both edges included). */
  function MouseMove(isSelecting: bool, pointer: Point, width: nat, height: nat): (r: Option<Point>)
    ensures !isSelecting <==> r == None
    ensures r.Some? ==> 0 <= r.value.x <= width && 0 <= r.value.y <= height
    ensures r.Some? && 0 <= pointer.x <= width && 0 <= pointer.y <= height ==> r.value == pointer
  {
    if !isSelecting then None
    else Some(Point(ClampTo(pointer.x, width), ClampTo(pointer.y, height)))
  }

  /** Clamping a reported point again changes nothing. */
  lemma MouseMoveIdempotent(pointer: Point, width: nat, height: nat)
    ensures var p := MouseMove(true, pointer, width, height).value;
      MouseMove(true, p, width, height) == Some(p)
  {
  }

  /** Mouse-up keeps a rectangle only when both sides exceed 20 pixels. */
  predicate AcceptedOnMouseUp(start: Point, end: Point): (ok: bool)
    ensures ok <==> CreateSelectionRect(start, end).width > MIN_SIDE && CreateSelectionRect(start, end).height > MIN_SIDE
  {
    Abs(end.x - start.x) > MIN_SIDE && Abs(end.y - start.y) > MIN_SIDE
  }

  /** "Apply" refuses a rectangle with a side below 20 pixels. */
  predicate ValidSelection(start: Point, end: Point): (ok: bool)
    ensures ok <==> CreateSelectionRect(start, end).width >= MIN_SIDE && CreateSelectionRect(start, end).height >= MIN_SIDE
  {
    !(Abs(end.x - start.x) < MIN_SIDE || Abs(end.y - start.y) < MIN_SIDE)
  }

  /** A rectangle kept on mouse-up always passes the check before Apply,
      and neither check depends on which corner the drag started from. */
  lemma MouseUpImpliesValid(start: Point, end: Point)
    ensures AcceptedOnMouseUp(start, end) ==> ValidSelection(start, end)
    ensures AcceptedOnMouseUp(start, end) == AcceptedOnMouseUp(end, start)
    ensures ValidSelection(start, end) == ValidSelection(end, start)
  {
  }

  /** The two checks disagree on a side of exactly 20 pixels: Apply would
      take it, mouse-up does not. */
  lemma TwentyPixelSide()
    ensures ValidSelection(Point(0, 0), Point(20, 20))
    ensures !AcceptedOnMouseUp(Point(0, 0), Point(20, 20))
  {
  }

  datatype Rect = Rect(x: int, y: int, width: int, height: int)

  /** The rectangle spanned by two corners of a drag: its left and right
      edges are the two x-coordinates, its top and bottom edges the two
      y-coordinates. */
  function CreateSelectionRect(start: Point, end: Point): (r: Rect)
    ensures r.width >= 0 && r.height >= 0
    ensures {r.x, r.x + r.width} == {start.x, end.x}
    ensures {r.y, r.y + r.height} == {start.y, end.y}
  {
    Rect(if start.x < end.x then start.x else end.x,
         if start.y < end.y then start.y else end.y,
         Abs(end.x - start.x), Abs(end.y - start.y))
  }

  /** The rectangle does not depend on which corner the drag started from. */
  lemma SelectionRectSymmetric(start: Point, end: Point)
    ensures CreateSelectionRect(start, end) == CreateSelectionRect(end, start)
  {
  }

  /** The rectangle lies inside a `cols` x `rows` image. */
  predicate ValidateRectPosition(rect: Rect, cols: int, rows: int): (ok: bool)
    ensures ok ==> forall px, py :: Covers(rect, px, py) ==> 0 <= px < cols && 0 <= py < rows
  {
    !(rect.x < 0 || rect.y < 0 || rect.x + rect.width > cols || rect.y + rect.height > rows)
  }

  /** Pixel (px, py) lies under the rectangle. */
  predicate Covers(rect: Rect, px: int, py: int)
  {
    rect.x <= px < rect.x + rect.width && rect.y <= py < rect.y + rect.height
  }

  /** For a rectangle with both sides positive, the position check holds
      exactly when every pixel the rectangle covers is a pixel of the image. */
  lemma RectInsideIffPixelsInside(rect: Rect, cols: int, rows: int)
    requires rect.width > 0 && rect.height > 0
    ensures ValidateRectPosition(rect, cols, rows) <==>
      forall px, py :: Covers(rect, px, py) ==> 0 <= px < cols && 0 <= py < rows
  {
    if !ValidateRectPosition(rect, cols, rows) {
      var right, bottom := rect.x + rect.width - 1, rect.y + rect.height - 1;
      if rect.x < 0 || rect.y < 0 {
        assert Covers(rect, rect.x, rect.y);
      } else if right >= cols {
        assert Covers(rect, right, rect.y);
      } else {
        assert Covers(rect, rect.x, bottom);
      }
    }
  }

  /** A rectangle drawn between two points that lie on the canvas (both
      edges included) always lies inside the image read from that canvas. */
  lemma DraggedRectInside(start: Point, end: Point, width: nat, height: nat)
    requires 0 <= start.x <= width && 0 <= start.y <= height
    requires 0 <= end.x <= width && 0 <= end.y <= height
    ensures ValidateRectPosition(CreateSelectionRect(start, end), width, height)
  {
    var r := CreateSelectionRect(start, end);
    assert r.x + r.width in {start.x, end.x} && r.y + r.height in {start.y, end.y};
  }

  // ---------------------------------------------------------------------
  // Labels

  /** The label values `grabCut` writes: background, foreground, probable
      background, probable foreground. */
  const GC_BGD: byte := 0
  const GC_FGD: byte := 1
  const GC_PR_BGD: byte := 2
  const GC_PR_FGD: byte := 3

  /** A label counts as selected when it is foreground or probable
      foreground. */
  predicate IsForeground(l: byte)
  {
    l == GC_FGD || l == GC_PR_FGD
  }

  /** The label grid in row-major order, one byte per pixel. */
  function ForegroundMask(labels: seq<byte>): (m: seq<bool>)
    ensures |m| == |labels|
    ensures forall k :: 0 <= k < |labels| ==> (m[k] <==> labels[k] == GC_FGD || labels[k] == GC_PR_FGD)
  {
    seq(|labels|, k requires 0 <= k < |labels| => IsForeground(labels[k]))
  }

  // ---------------------------------------------------------------------
  // OpenCV

  /** An OpenCV matrix: `rows` x `cols` bytes. `deleteFails` says whether
      its `delete()` throws; `deleteAttempted` whether `delete()` was
      called, `deleted` whether the memory was released. */
  class Mat {
    const rows: nat
    const cols: nat
    var data: seq<byte>
    const deleteFails: bool
    var deleteAttempted: bool
    var deleted: bool

    /** `new cv.Mat()` followed by `create(rows, cols)` and `setTo(0)`. */
    constructor(rows: nat, cols: nat, deleteFails: bool)
      ensures this.rows == rows && this.cols == cols && this.deleteFails == deleteFails
      ensures data == seq(rows * cols, _ => 0) && !deleteAttempted && !deleted
    {
      this.rows := rows;
      this.cols := cols;
      this.deleteFails := deleteFails;
      data := seq(rows * cols, _ => 0);
      deleteAttempted := false;
      deleted := false;
    }

    /** `empty()`: the matrix holds no element. */
    predicate Empty()
    {
      rows * cols == 0
    }

    /** `delete()`; `threw` reports the exception it may raise. */
    method Delete() returns (threw: bool)
      modifies this
      ensures deleteAttempted && deleted == !deleteFails && threw == deleteFails
      ensures data == old(data)
    {
      deleteAttempted := true;
      deleted := !deleteFails;
      threw := deleteFails;
    }
  }

  /** What `cv.grabCut` does, as an input: given the rectangle and the
      iteration count, whether it throws, and otherwise the label it leaves
      at each (row, column) of the mask matrix. */
  datatype Segmenter = Segmenter(throws: (Rect, nat) -> bool, labelAt: (Rect, nat, nat, nat) -> byte)

  /** The parts of `window.cv` the tool uses: whether `imread` throws, the
      segmentation, and which of the four matrices (0 the picture, 1 the
      label grid, 2 and 3 the two models) fail to delete. */
  datatype OpenCV = OpenCV(imreadThrows: bool, segmenter: Segmenter, failingDeletes: set<nat>)

  /** The label grid `grabCut` leaves in a `rows` x `cols` mask matrix,
      row-major: the label of row r, column c sits at index r * cols + c. */
  function Segment(seg: Segmenter, rect: Rect, iterations: nat, rows: nat, cols: nat): (labels: seq<byte>)
    ensures |labels| == rows * cols
    ensures forall r, c :: 0 <= r < rows && 0 <= c < cols ==>
      0 <= Cell(cols, c, r) < |labels| && labels[Cell(cols, c, r)] == seg.labelAt(rect, iterations, r, c)
  {
    if cols == 0 then seq(rows * cols, _ => 0)
    else
      var labels := seq(rows * cols, k requires 0 <= k < rows * cols => seg.labelAt(rect, iterations, k / cols, k % cols));
      RowMajorLabels(seg, rect, iterations, rows, cols, labels);
      labels
  }

  /** A grid stored with the label of index k taken from row k / cols,
      column k % cols holds the label of row r, column c at
      `Cell(cols, c, r)`. */
  lemma RowMajorLabels(seg: Segmenter, rect: Rect, iterations: nat, rows: nat, cols: nat, labels: seq<byte>)
    requires cols > 0 && |labels| == rows * cols
    requires forall k :: 0 <= k < |labels| ==> labels[k] == seg.labelAt(rect, iterations, k / cols, k % cols)
    ensures forall r, c :: 0 <= r < rows && 0 <= c < cols ==>
      0 <= Cell(cols, c, r) < |labels| && labels[Cell(cols, c, r)] == seg.labelAt(rect, iterations, r, c)
  {
    CellsInFrame(cols, rows);
  }

  /** The iteration count Apply passes to `grabCut`. */
  const ITERATIONS: nat := 3

  /** Copies the label grid of `mask` into a fresh 0/1 mask, row by row:
      a pixel is 1 exactly when its label is foreground or probable
      foreground. */
  method ExtractMaskData(mask: Mat) returns (maskData: seq<bool>)
    requires |mask.data| == mask.rows * mask.cols
    ensures |maskData| == |mask.data|
    ensures forall k :: 0 <= k < |maskData| ==>
      (maskData[k] <==> mask.data[k] == GC_FGD || mask.data[k] == GC_PR_FGD)
  {
    var rows, cols := mask.rows, mask.cols;
    var out := new bool[rows * cols](_ => false);
    var i := 0;
    while i < rows
      invariant 0 <= i <= rows
      invariant forall k :: 0 <= k < out.Length ==> (out[k] <==> k < i * cols && IsForeground(mask.data[k]))
    {
      var j := 0;
      while j < cols
        invariant 0 <= j <= cols
        invariant forall k :: 0 <= k < out.Length ==> (out[k] <==> k < i * cols + j && IsForeground(mask.data[k]))
      {
        IndexInFrame(cols, rows, j, i);
        var pixelValue := mask.data[i * cols + j];
        if pixelValue == GC_FGD || pixelValue == GC_PR_FGD {
          out[i * cols + j] := true;
        }
        j := j + 1;
      }
      assert i * cols + cols == (i + 1) * cols;
      i := i + 1;
    }
    assert i * cols == rows * cols;
    maskData := out[..];
  }

  /** `cleanupResources`: with OpenCV present, calls `delete()` on every
      matrix in the list, going on past a `delete()` that throws; without
      it, touches nothing. */
  method CleanupResources(cvPresent: bool, resources: seq<Option<Mat>>)
    modifies set i | 0 <= i < |resources| && resources[i].Some? :: resources[i].value
    ensures cvPresent ==> forall i :: 0 <= i < |resources| && resources[i].Some? ==>
      resources[i].value.deleteAttempted
    ensures cvPresent ==> forall i :: 0 <= i < |resources| && resources[i].Some? ==>
      resources[i].value.deleted == !resources[i].value.deleteFails
    ensures !cvPresent ==> forall i :: 0 <= i < |resources| && resources[i].Some? ==>
      unchanged(resources[i].value)
    ensures forall i :: 0 <= i < |resources| && resources[i].Some? ==>
      resources[i].value.data == old(resources[i].value.data)
  {
    if !cvPresent {
      return;
    }
    var i := 0;
    while i < |resources|
      invariant 0 <= i <= |resources|
      invariant forall j :: 0 <= j < i && resources[j].Some? ==>
        resources[j].value.deleteAttempted && resources[j].value.deleted == !resources[j].value.deleteFails
      invariant forall j :: 0 <= j < |resources| && resources[j].Some? ==>
        resources[j].value.data == old(resources[j].value.data)
    {
      if resources[i].Some? {
        var threw := resources[i].value.Delete();
      }
      i := i + 1;
    }
  }

  // ---------------------------------------------------------------------
  // The tool

  /** Why a run of Apply ends without a result, in the order the checks
      happen; `None` when the segmentation is merged into the overlay.
      `maskCanvas` says whether the mask canvas is mounted: writing the
      mask into a missing one throws after the segmentation has run. */
  function GrabCutError(ready: bool, cv: Option<OpenCV>, start: Point, end: Point, width: nat, height: nat,
                        maskCanvas: bool)
    : (e: Option<ErrorKind>)
    ensures e !in {Some(NotReady), Some(LibraryMissing), Some(SelectionTooSmall)} ==>
      ready && cv.Some? && ValidSelection(start, end)
    ensures e.None? ==> cv.Some? && !cv.value.imreadThrows && width * height > 0 && maskCanvas
    ensures e.None? ==> ValidateRectPosition(CreateSelectionRect(start, end), width, height)
  {
    if !ready then Some(NotReady)
    else if cv.None? then Some(LibraryMissing)
    else if !ValidSelection(start, end) then Some(SelectionTooSmall)
    else if cv.value.imreadThrows || width * height == 0 then Some(ReadFailure)
    else if !ValidateRectPosition(CreateSelectionRect(start, end), width, height) then Some(OutOfBounds)
    else if cv.value.segmenter.throws(CreateSelectionRect(start, end), ITERATIONS) then Some(SegmentationFailed)
    else if !maskCanvas then Some(NoMaskCanvas)
    else None
  }

  /** A rectangle that survived mouse-up between two points on the canvas
      can only fail to read the picture, to segment it or to find the mask
      canvas; it never fails on its size or its position. */
  lemma AcceptedDragFailures(cv: OpenCV, start: Point, end: Point, width: nat, height: nat, maskCanvas: bool)
    requires 0 <= start.x <= width && 0 <= start.y <= height
    requires 0 <= end.x <= width && 0 <= end.y <= height
    requires AcceptedOnMouseUp(start, end)
    ensures GrabCutError(true, Some(cv), start, end, width, height, maskCanvas) in
      {None, Some(ReadFailure), Some(SegmentationFailed), Some(NoMaskCanvas)}
  {
    MouseUpImpliesValid(start, end);
    DraggedRectInside(start, end, width, height);
  }

  /** One GrabCut tool instance. The canvas is `width` x `height`; `overlay`
      is the RGBA buffer of the mask canvas, which is mounted when
      `hasMaskCanvas` holds; `mode`, `isOpenCVReady`,
      `hasSelection`, `startPoint` and `endPoint` are the editor's props;
      `events` records the callbacks made so far. */
  class GrabCutTool {
    const width: nat
    const height: nat
    const overlay: array<byte>
    const hasMaskCanvas: bool
    const mode: Option<string>
    const isOpenCVReady: bool
    const hasSelection: bool
    const startPoint: Point
    const endPoint: Point
    var events: seq<Event>

    ghost predicate Valid()
      reads this
    {
      overlay.Length == 4 * (width * height)
    }

    constructor(width: nat, height: nat, overlay: array<byte>, hasMaskCanvas: bool, mode: Option<string>,
                isOpenCVReady: bool, hasSelection: bool, startPoint: Point, endPoint: Point)
      requires overlay.Length == 4 * (width * height)
      ensures Valid() && events == []
      ensures this.width == width && this.height == height && this.overlay == overlay
      ensures this.hasMaskCanvas == hasMaskCanvas && this.mode == mode
      ensures this.isOpenCVReady == isOpenCVReady && this.hasSelection == hasSelection
      ensures this.startPoint == startPoint && this.endPoint == endPoint
    {
      this.width := width;
      this.height := height;
      this.overlay := overlay;
      this.hasMaskCanvas := hasMaskCanvas;
      this.mode := mode;
      this.isOpenCVReady := isOpenCVReady;
      this.hasSelection := hasSelection;
      this.startPoint := startPoint;
      this.endPoint := endPoint;
      events := [];
    }

    /** The contextual buttons: "Apply GrabCut" while a rectangle is kept,
        none otherwise. */
    method RegisterContextButtons()
      modifies this
      ensures hasSelection ==> events == old(events) + [RegisterToolButtons([ApplyGrabCut])]
      ensures !hasSelection ==> events == old(events) + [RegisterToolButtons([])]
    {
      if hasSelection {
        events := events + [RegisterToolButtons([ApplyGrabCut])];
      } else {
        events := events + [RegisterToolButtons([])];
      }
    }

    /** Activating the tool registers its buttons; the cursor is always
        "crosshair". */
    method InitTool() returns (cursor: string)
      modifies this
      ensures cursor == "crosshair"
      ensures events == old(events) + [RegisterToolButtons(if hasSelection then [ApplyGrabCut] else [])]
    {
      RegisterContextButtons();
      cursor := "crosshair";
    }

    /** Mouse-up: keeps the rectangle (and says a selection exists) when both
        sides exceed 20 pixels, otherwise reports it as too small. */
    method HandleMouseUp(end: Point, start: Point) returns (accepted: bool)
      modifies this
      ensures accepted == AcceptedOnMouseUp(start, end)
      ensures accepted ==> events == old(events) + [SetHasSelection(true)]
      ensures !accepted ==> events == old(events) + [SetErrorMessage(SelectionTooSmall)]
    {
      var w := Abs(end.x - start.x);
      var h := Abs(end.y - start.y);
      if w > 20 && h > 20 {
        events := events + [SetHasSelection(true)];
        accepted := true;
      } else {
        events := events + [SetErrorMessage(SelectionTooSmall)];
        accepted := false;
      }
    }

    /** Writes `maskData` into the overlay, pixel by pixel: in Add mode a
        selected pixel becomes (255, 0, 0, 150), in Subtract mode its alpha
        becomes 0; other pixels keep their bytes. Without a mounted mask
        canvas the first access throws before anything is written, which
        `applied == false` stands for. */
    method ApplyMaskToCanvas(maskData: seq<bool>) returns (applied: bool)
      requires Valid() && |maskData| == width * height
      modifies this, overlay
      ensures applied == hasMaskCanvas
      ensures !applied ==> overlay[..] == old(overlay[..]) && events == old(events)
      ensures applied ==> overlay[..] == Merge(old(overlay[..]), maskData, IsAddMode(mode))
      ensures applied ==> events == old(events) + [SetIsMaskApplied]
    {
      if !hasMaskCanvas {
        return false;
      }
      var isAddMode := mode == Some("add") || mode == None || mode == Some("");
      ghost var before := overlay[..];
      ghost var merged := Merge(before, maskData, isAddMode);
      var i := 0;
      while i < |maskData|
        modifies overlay
        invariant 0 <= i <= |maskData|
        invariant forall k :: 0 <= k < overlay.Length ==> overlay[k] == if k < 4 * i then merged[k] else before[k]
      {
        MergePixelInto(overlay, before, maskData, isAddMode, i);
        i := i + 1;
      }
      assert overlay[..] == merged;
      events := events + [SetIsMaskApplied];
      applied := true;
    }

    /** Apply: clear the error, check the environment and the rectangle,
        then run the segmentation; on any failure report it. Whatever
        happens past the checks, `resources` holds the four slots released
        by the `finally` block (the picture, the label grid and the two
        models): the picture unless `imread` threw, the other three unless
        the read failed; each allocated one gets its `delete()`. */
    method ProcessGrabCut(cv: Option<OpenCV>) returns (ghost resources: seq<Option<Mat>>)
      requires Valid()
      modifies this, overlay
      ensures Valid()
      ensures forall i :: 0 <= i < |resources| && resources[i].Some? ==>
        && fresh(resources[i].value)
        && resources[i].value.deleteAttempted
        && resources[i].value.deleted == !resources[i].value.deleteFails
      ensures var e := GrabCutError(isOpenCVReady, cv, startPoint, endPoint, width, height, hasMaskCanvas);
        && (e in {Some(NotReady), Some(LibraryMissing), Some(SelectionTooSmall)} ==> resources == [])
        && (e !in {Some(NotReady), Some(LibraryMissing), Some(SelectionTooSmall)} ==>
              && |resources| == 4
              && (resources[0].Some? <==> !cv.value.imreadThrows)
              && forall i :: 1 <= i < 4 ==> (resources[i].Some? <==> e != Some(ReadFailure)))
        && (e.None? ==> |resources| == 4 && forall i :: 0 <= i < 4 ==> resources[i].Some?)
        && (e.Some? ==> overlay[..] == old(overlay[..]) && events == old(events) + [ClearErrorMessage, SetErrorMessage(e.value)])
        && (e.None? ==>
              && overlay[..] == Merge(old(overlay[..]), ForegroundMask(Segment(cv.value.segmenter, CreateSelectionRect(startPoint, endPoint), ITERATIONS, height, width)), IsAddMode(mode))
              && events == old(events) + [ClearErrorMessage, SetIsMaskApplied, ResetSelectionOnly, UpdatePreview])
    {
      resources := [];
      events := events + [ClearErrorMessage];
      if !isOpenCVReady {
        events := events + [SetErrorMessage(NotReady)];
        return;
      }
      if cv.None? {
        events := events + [SetErrorMessage(LibraryMissing)];
        return;
      }
      var w := Abs(endPoint.x - startPoint.x);
      var h := Abs(endPoint.y - startPoint.y);
      if w < 20 || h < 20 {
        events := events + [SetErrorMessage(SelectionTooSmall)];
        return;
      }
      var failure: Option<ErrorKind>;
      var slots: seq<Option<Mat>>;
      failure, slots := RunSegmentation(cv.value);
      if failure.Some? {
        events := events + [SetErrorMessage(failure.value)];
      }
      CleanupResources(true, slots);
      resources := slots;
    }

    /** The body of the `try` block of Apply: read the picture, allocate the
        label grid and the two models, check the rectangle's position,
        segment, extract the foreground and merge it into the overlay. It
        returns the first failure, if any, and the four matrix slots in the
        order they are released (empty slots for matrices never
        allocated). */
    method RunSegmentation(lib: OpenCV) returns (failure: Option<ErrorKind>, resources: seq<Option<Mat>>)
      requires Valid() && isOpenCVReady && ValidSelection(startPoint, endPoint)
      modifies this, overlay
      ensures Valid()
      ensures failure == GrabCutError(true, Some(lib), startPoint, endPoint, width, height, hasMaskCanvas)
      ensures |resources| == 4
      ensures resources[0].Some? <==> !lib.imreadThrows
      ensures forall i :: 1 <= i < 4 ==> (resources[i].Some? <==> failure != Some(ReadFailure))
      ensures forall i :: 0 <= i < 4 && resources[i].Some? ==> fresh(resources[i].value)
      ensures failure.None? ==> forall i :: 0 <= i < 4 ==> resources[i].Some?
      ensures failure.Some? ==> overlay[..] == old(overlay[..]) && events == old(events)
      ensures failure.None? ==>
        && overlay[..] == Merge(old(overlay[..]), ForegroundMask(Segment(lib.segmenter, CreateSelectionRect(startPoint, endPoint), ITERATIONS, height, width)), IsAddMode(mode))
        && events == old(events) + [SetIsMaskApplied, ResetSelectionOnly, UpdatePreview]
    {
      var src: Option<Mat> := None;
      var mask: Option<Mat> := None;
      var bgdModel: Option<Mat> := None;
      var fgdModel: Option<Mat> := None;
      failure := None;
      if lib.imreadThrows {
        failure := Some(ReadFailure);
      } else {
        var s := new Mat(height, width, 0 in lib.failingDeletes);
        src := Some(s);
        if s.Empty() {
          failure := Some(ReadFailure);
        } else {
          var m := new Mat(s.rows, s.cols, 1 in lib.failingDeletes);
          var b := new Mat(1, 65, 2 in lib.failingDeletes);
          var f := new Mat(1, 65, 3 in lib.failingDeletes);
          mask, bgdModel, fgdModel := Some(m), Some(b), Some(f);
          var rect := CreateSelectionRect(startPoint, endPoint);
          if !ValidateRectPosition(rect, s.cols, s.rows) {
            failure := Some(OutOfBounds);
          } else if lib.segmenter.throws(rect, ITERATIONS) {
            failure := Some(SegmentationFailed);
          } else {
            m.data := Segment(lib.segmenter, rect, ITERATIONS, m.rows, m.cols);
            var maskData := ExtractMaskData(m);
            assert maskData == ForegroundMask(m.data);
            var applied := ApplyMaskToCanvas(maskData);
            if applied {
              events := events + [ResetSelectionOnly, UpdatePreview];
            } else {
              failure := Some(NoMaskCanvas);
            }
          }
        }
      }
      resources := [src, mask, bgdModel, fgdModel];
    }
  }
}
