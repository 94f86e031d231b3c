# Image masking in the facade editor

This project models the image-masking core of the facade editor, a web tool
where a user marks a building's facade on a photograph. The mask is an RGBA
overlay the size of the picture. A pixel is selected when its alpha byte is
above zero. Two tools build the mask:

- **Magic Wand.** A click selects the 4-connected area whose colour is
  within a tolerance of the clicked pixel. The fill is breadth-first over a
  queue. Colours are compared by Euclidean RGB distance. The tolerance
  starts at 1, and the "-" and "+" buttons move it in steps of 5 within
  1..100. An empty selection is reported as an error. Otherwise the area is
  merged into the overlay.
- **GrabCut.** The user drags a rectangle. Mouse-up keeps it only when both
  sides exceed 20 pixels. "Apply GrabCut" checks the rectangle again, reads
  the picture and runs OpenCV's `grabCut` for 3 iterations. It turns the
  labels "foreground" and "probable foreground" into a mask and merges that
  mask into the overlay. A missing mask canvas makes that last write throw;
  the failure is reported and the overlay stays as it was. Every OpenCV
  matrix it allocated then gets its `delete()`, even when the run fails or
  a `delete()` throws.

Merging works in two modes:

- **Add** (mode "add", or no mode) paints every selected pixel
  (255, 0, 0, 150).
- **Subtract** (any other mode string) sets the alpha of every selected
  pixel to zero.

Pixels outside the selection are never touched.

The project also models the earlier all-in-one editor (`ImageMask`). Its
fill is depth-first over a stack, with a per-channel colour test at a fixed
tolerance of 32. It runs GrabCut for 5 iterations on mouse-up and deletes
its four matrices in order. Both of its tools replace the whole overlay
with a fresh buffer that holds (255, 0, 0, 128) on the selected pixels.

The tool dispatcher (`ToolInitializer`) completes the model. It builds the
GrabCut tool from a case-insensitive name and lowercases the mode it hands
on. It also chooses the canvas cursor.

Modules:

- `Raster`: pixel buffers and the two colour tests.
- `Overlay`: the merge of a selection into the overlay and the replacement
  of the overlay.
- `Grid`: row-major index arithmetic, 4-neighbours and connected regions.
- `Fill`: the loop invariant shared by both flood fills and the lemmas
  that keep it.
- `MagicWand`, `GrabCut`, `ImageMask`, `ToolInitializer`: one module per
  source file.
- `Callbacks`: the React callbacks, recorded as a list of events.
- `Wrappers`: `Option`.

The proofs cover the following properties:

- **Both fills select exactly the seed's region.** A pixel is selected
  exactly when a 4-connected path of matching pixels joins it to the seed.
- **The Magic Wand's work is bounded.** The queue receives at most
  1 + 4·(width·height) pushes.
- **The traced boundary is exact and ordered.** It holds exactly the marked
  pixels that have an unmarked or off-frame neighbour, in scan order. It is
  empty exactly when the mask is.
- **The Magic Wand reports an empty selection only off the image.** With a
  non-negative tolerance it does so exactly when the click lies off the
  picture.
- **Merge properties.** Writing the merge in place byte by byte gives the
  merge function. The merge is idempotent. Add-then-Subtract clears the
  selection.
- **A rectangle kept on mouse-up always passes Apply's checks.** Its size
  check always passes. Its position check passes when both corners lie on
  the canvas.
- **Every allocated matrix gets its `delete()`.** This holds on every path
  of GrabCut's Apply that passes the early checks. The released list always
  has four slots. The picture is allocated unless `imread` throws. The
  label grid and the two models are allocated unless the read fails.
- **Dispatch ignores case.** Tool names are compared after lowercasing.

Two behaviours of the code are worth knowing:

- **The 20-pixel checks.** Mouse-up keeps a rectangle only when both sides
  are `> 20` (GrabCutComponent.js:95). Apply refuses only sides `< 20`
  (GrabCutComponent.js:211). A side of exactly 20 pixels is therefore
  refused on mouse-up but accepted by Apply (`GrabCut.TwentyPixelSide`).
- **Matrix clean-up in the earlier editor.** The earlier editor's `finally`
  block (ImageMask.js:107-112) stops at the first `delete()` that throws
  (`ImageMask.DeleteInOrder`).

## Model

| member | source | states |
|---|---|---|
| Raster.WithinDistanceOfItself | buildingfachade/components/MagicWandComponent.js:94-101 | a colour is within any non-negative Euclidean distance of itself, so the seed always passes the wand's test |
| Raster.WithinDistance | buildingfachade/components/MagicWandComponent.js:94-101 | the Euclidean test passes only for a non-negative tolerance, and implies the per-channel test: every channel differs by at most the tolerance |
| Raster.ColorMatch | buildingfachade/components/ImageMask.js:163-169 | the per-channel test passes only for a non-negative tolerance, and two equal colours match exactly when it is non-negative |
| Raster.ColorMatchSymmetric | buildingfachade/components/ImageMask.js:163-169 | the per-channel test is symmetric in its two colours, and a colour matches itself at every non-negative tolerance |
| Overlay.IsAddMode | buildingfachade/components/MagicWandComponent.js:345 | no mode and "add" select Add; "subtract" and "ADD" (the comparison is case-sensitive) select Subtract |
| Overlay.Merge | buildingfachade/components/MagicWandComponent.js:350-369 | the merged overlay has the same length; every byte of a pixel outside the mask is unchanged, and a masked pixel's alpha is above zero exactly in Add mode |
| Overlay.MergePixel | buildingfachade/components/MagicWandComponent.js:355-366 | after a merge, a selected pixel reads (255,0,0,150) in Add mode; in Subtract mode it keeps R,G,B and has alpha 0; an unselected pixel keeps all four bytes |
| Overlay.MergePixelInto | buildingfachade/components/GrabCutComponent.js:292-306 | the in-place write of pixel i extends a merged prefix of the overlay by that pixel's four bytes and leaves the rest untouched |
| Overlay.MergeSelection | buildingfachade/components/MagicWandComponent.js:336-376 | after merging, pixel i is selected iff (mask[i] and Add) or (not mask[i] and it was selected before) |
| Overlay.MergeIdempotent | buildingfachade/components/MagicWandComponent.js:355-366 | merging the same mask twice in the same mode equals merging it once |
| Overlay.AddThenSubtract | buildingfachade/components/GrabCutComponent.js:281-310 | Subtract right after Add leaves every masked pixel unselected with colour (255,0,0), and every other pixel as it was before the Add |
| Overlay.SubtractKeepsEmpty | buildingfachade/components/GrabCutComponent.js:302-305 | Subtract never selects a pixel: an overlay selecting nothing still selects nothing |
| Overlay.Replaced | buildingfachade/components/ImageMask.js:173-186 | the fresh buffer is four bytes per mask entry; every byte of an unmasked pixel is zero, and a pixel's alpha is above zero exactly when it is masked |
| Overlay.ReplacedSelection | buildingfachade/components/ImageMask.js:171-189 | the fresh buffer's selection is exactly the mask; a selected pixel reads (255,0,0,128) and every other pixel reads (0,0,0,0), whatever the overlay held before |
| Grid.RowFacts | buildingfachade/components/MagicWandComponent.js:82-83 | `pos % width` and `floor(pos / width)` give a column and row inside the frame that index back to pos; the edge tests on the row equal the index bounds the pushes rely on |
| Grid.PointNeighbours | buildingfachade/components/ImageMask.js:153-158 | the four guarded pushes from column x, row y (left if x > 0, right if x < w-1, up if y > 0, down if y < h-1) are exactly the 4-neighbours of that pixel |
| Grid.FourPushes | buildingfachade/components/MagicWandComponent.js:104-108 | the pushed indices are at most four, are all neighbours of the popped pixel, and include every neighbour that is not taken |
| Grid.RegionMatches | buildingfachade/components/MagicWandComponent.js:100-102 | every pixel of a seed's region matches, and so does the seed |
| Grid.MarkingIsRegion | buildingfachade/components/MagicWandComponent.js:80-110 | a marking in which every marked pixel has a chain of marked parents back to the seed, and which is closed under matching neighbours, is exactly the seed's region |
| Grid.CountSet | buildingfachade/components/MagicWandComponent.js:101 | marking an unmarked pixel raises the count of marked pixels by one, which bounds both fill loops |
| Fill.FillStart | buildingfachade/components/MagicWandComponent.js:76-77 | a fresh mask and a work list holding only the seed satisfy the fill invariant |
| Fill.FillSkip | buildingfachade/components/MagicWandComponent.js:86-87 | dropping a popped pixel that is already marked or does not match keeps the invariant |
| Fill.FillMark | buildingfachade/components/MagicWandComponent.js:101-109 | marking a popped matching pixel and pushing every unmarked neighbour keeps the invariant |
| Fill.FillPush | buildingfachade/components/MagicWandComponent.js:101-108 | marking a popped pixel and making the four guarded pushes keeps the invariant, with at most four entries added |
| Fill.FillDone | buildingfachade/components/MagicWandComponent.js:80 | when the work list is empty, the marked pixels are exactly the seed's region |
| MagicWand.FloodFill | buildingfachade/components/MagicWandComponent.js:56-113 | an off-frame seed gives an empty mask; otherwise pixel p is set iff it is in the seed's 4-connected region of pixels within the tolerance of the seed colour; at most 1 + 4·size pushes |
| MagicWand.FillIsWandRegion | buildingfachade/components/MagicWandComponent.js:80-113 | once the queue is empty, the marking is the wand's region |
| MagicWand.VisitNext | buildingfachade/components/MagicWandComponent.js:80-110 | one dequeue keeps the fill invariant and the push bound, and either marks one more pixel or shortens the queue and marks nothing |
| MagicWand.MarkAndEnqueue | buildingfachade/components/MagicWandComponent.js:101-109 | marking the dequeued pixel and enqueueing its free neighbours adds at most four entries, keeps the invariant and marks exactly one more pixel |
| MagicWand.EnqueueFreeNeighbours | buildingfachade/components/MagicWandComponent.js:104-108 | the queue grows by the left, right, up and down pushes, each made exactly when the neighbour is in the frame and unmarked |
| MagicWand.EnqueueIfFree | buildingfachade/components/MagicWandComponent.js:105 | one guarded push: the index when it is in the frame and unmarked, nothing otherwise |
| MagicWand.WandSelectsSeed | buildingfachade/components/MagicWandComponent.js:64-77 | with a non-negative tolerance, an in-frame click always selects the clicked pixel |
| MagicWand.WandEmptyIffOffFrame | buildingfachade/components/MagicWandComponent.js:64-67 | with a non-negative tolerance, the wand selects nothing exactly when the click is off the image |
| MagicWand.BoundaryToTheRight | buildingfachade/components/MagicWandComponent.js:124-137 | in a row, walking right from a marked pixel reaches a boundary pixel |
| MagicWand.MarkedHasBoundary | buildingfachade/components/MagicWandComponent.js:124-137 | a mask with a marked pixel has a boundary pixel |
| MagicWand.BoundaryEmptyIffMaskEmpty | buildingfachade/components/MagicWandComponent.js:146-152 | the list of all boundary pixels is empty exactly when the mask is, so the empty-selection check sees an empty fill |
| MagicWand.TraceSelection | buildingfachade/components/MagicWandComponent.js:116-153 | returns exactly the boundary pixels (marked, with an unmarked or off-frame neighbour) in row-major order, and is empty iff the mask is empty |
| MagicWand.BoundaryPixel | buildingfachade/components/MagicWandComponent.js:124-137 | the per-pixel test is true iff the pixel is marked and one of its four neighbours is off the frame or unmarked |
| MagicWand.ClampTolerance | buildingfachade/components/MagicWandComponent.js:189 | the result lies in 1..100: values in range are kept, lower values become 1 and higher values become 100 |
| MagicWand.StepUpThenDown | buildingfachade/components/MagicWandComponent.js:169-189 | "+" then "-" restores a tolerance up to 95; from 96 to 100 it lands on 95 |
| MagicWand.ToleranceButtons | buildingfachade/components/MagicWandComponent.js:163-184 | three buttons, the middle one a label showing the current tolerance |
| MagicWand.MergeRow | buildingfachade/components/MagicWandComponent.js:351-368 | one row of the merge loop extends the merged prefix of the overlay by that row |
| MagicWand.MergeMask | buildingfachade/components/MagicWandComponent.js:350-369 | the nested loops leave the overlay equal to the merge of the mask into the old overlay |
| MagicWand.MagicWandTool.constructor | buildingfachade/components/MagicWandComponent.js:24 | a new tool has tolerance 1 and has made no callback |
| MagicWand.MagicWandTool.RegisterContextButtons | buildingfachade/components/MagicWandComponent.js:161-185 | registers "-", the tolerance label and "+", and leaves the tolerance unchanged |
| MagicWand.MagicWandTool.InitTool | buildingfachade/components/MagicWandComponent.js:31-42 | registers the buttons and returns the cursor "pointer" |
| MagicWand.MagicWandTool.AdjustTolerance | buildingfachade/components/MagicWandComponent.js:188-193 | the tolerance becomes the old one plus the amount, clamped to 1..100, and the buttons are registered again |
| MagicWand.MagicWandTool.Click | buildingfachade/components/MagicWandComponent.js:169-182 | "-" lowers the tolerance by 5 and "+" raises it by 5, both clamped, and each registers the buttons again so the label shows the new value; the label changes nothing |
| MagicWand.MagicWandTool.ApplyToMask | buildingfachade/components/MagicWandComponent.js:336-376 | with a mask canvas, the overlay becomes the merge in the tool's mode and the mask is flagged as applied; without one, nothing changes |
| MagicWand.MagicWandTool.ProcessMagicWand | buildingfachade/components/MagicWandComponent.js:196-256 | a click off the image reports EmptySelection and leaves the overlay; otherwise the wand's region is merged, and the preview and selection flag are updated |
| MagicWand.MagicWandTool.HandleMouseDown | buildingfachade/components/MagicWandComponent.js:259-279 | runs the wand at the pointer with ProcessMagicWand's three outcomes: off the image, EmptySelection and no change; on the image with a mask canvas, the merge and the three callbacks; on the image without one, only the preview and selection callbacks. Returns the point |
| GrabCut.ClampTo | buildingfachade/components/GrabCutComponent.js:81-82 | the result lies in 0..limit: values in range are kept, lower values become 0 and higher values become the limit |
| GrabCut.MouseMove | buildingfachade/components/GrabCutComponent.js:76-88 | no point unless a selection is being drawn; otherwise the pointer clamped to the canvas, both edges included, unchanged when already inside |
| GrabCut.MouseMoveIdempotent | buildingfachade/components/GrabCutComponent.js:79-84 | clamping a reported point again gives the same point |
| GrabCut.AcceptedOnMouseUp | buildingfachade/components/GrabCutComponent.js:91-95 | mouse-up keeps a rectangle iff both sides of the rectangle between the two corners exceed 20 |
| GrabCut.ValidSelection | buildingfachade/components/GrabCutComponent.js:207-219 | Apply's size check passes iff both sides of the rectangle between the two corners are at least 20 |
| GrabCut.MouseUpImpliesValid | buildingfachade/components/GrabCutComponent.js:90-105 | a rectangle kept on mouse-up (both sides > 20) passes Apply's size check (no side < 20); neither check depends on the drag direction |
| GrabCut.TwentyPixelSide | buildingfachade/components/GrabCutComponent.js:207-219 | a 20 x 20 rectangle passes Apply's check but is refused on mouse-up |
| GrabCut.CreateSelectionRect | buildingfachade/components/GrabCutComponent.js:244-252 | non-negative width and height; the left and right edges are the two x-coordinates and the top and bottom edges the two y-coordinates |
| GrabCut.SelectionRectSymmetric | buildingfachade/components/GrabCutComponent.js:244-252 | swapping the two corners gives the same rectangle |
| GrabCut.ValidateRectPosition | buildingfachade/components/GrabCutComponent.js:255-262 | a rectangle that passes the position check covers only pixels of the image |
| GrabCut.RectInsideIffPixelsInside | buildingfachade/components/GrabCutComponent.js:255-262 | for a rectangle with positive sides, the position check holds iff every pixel it covers is a pixel of the image |
| GrabCut.DraggedRectInside | buildingfachade/components/GrabCutComponent.js:255-262 | a rectangle between two points on the canvas (edges included) always passes the position check |
| GrabCut.Mat.constructor | buildingfachade/components/GrabCutComponent.js:226-238 | a new matrix has the given shape, is all zero and has not been deleted |
| GrabCut.Mat.Delete | buildingfachade/components/GrabCutComponent.js:319 | `delete()` is attempted; the memory is released unless it throws; the data is unchanged |
| GrabCut.Segment | buildingfachade/components/GrabCutComponent.js:169 | the label grid has one label per pixel, row-major: row r, column c holds the label grabCut writes there |
| GrabCut.ForegroundMask | buildingfachade/components/GrabCutComponent.js:265-278 | one entry per label, set iff the label is foreground or probable foreground |
| GrabCut.ExtractMaskData | buildingfachade/components/GrabCutComponent.js:265-278 | the mask has one entry per label, and an entry is set iff its label is foreground or probable foreground |
| GrabCut.CleanupResources | buildingfachade/components/GrabCutComponent.js:313-325 | with OpenCV present, every matrix in the list gets its `delete()`, even after one throws; without OpenCV, nothing is touched |
| GrabCut.GrabCutError | buildingfachade/components/GrabCutComponent.js:138-189 | a run without error had OpenCV ready and present, a valid size, a non-empty picture, a rectangle inside the picture and a mounted mask canvas; any failure after the three early checks had OpenCV ready and present and a valid size |
| GrabCut.AcceptedDragFailures | buildingfachade/components/GrabCutComponent.js:90-189 | a rectangle kept on mouse-up between two points on the canvas can only fail to read the picture, to segment it or to find the mask canvas |
| GrabCut.GrabCutTool.constructor | buildingfachade/components/GrabCutComponent.js:5-21 | the tool holds the props it was given and has made no callback |
| GrabCut.GrabCutTool.RegisterContextButtons | buildingfachade/components/GrabCutComponent.js:40-54 | registers "Apply GrabCut" when a selection exists, otherwise no button |
| GrabCut.GrabCutTool.InitTool | buildingfachade/components/GrabCutComponent.js:27-35 | registers the buttons and returns the cursor "crosshair" |
| GrabCut.GrabCutTool.HandleMouseUp | buildingfachade/components/GrabCutComponent.js:90-105 | accepts iff both sides exceed 20; then sets the selection flag, otherwise reports SelectionTooSmall |
| GrabCut.GrabCutTool.ApplyMaskToCanvas | buildingfachade/components/GrabCutComponent.js:281-310 | succeeds iff the mask canvas is mounted; then the overlay becomes the merge of the mask in the tool's mode and the mask is flagged as applied; otherwise (the access at :282 throws) nothing changes |
| GrabCut.GrabCutTool.ProcessGrabCut | buildingfachade/components/GrabCutComponent.js:138-189 | clears the error, then either reports the first failure (a missing mask canvas included) with the overlay untouched, or merges the foreground of the 3-iteration segmentation and resets the selection; no matrix exists after the early checks fail; otherwise four slots are released: the picture iff `imread` did not throw, the other three iff the read succeeded, and each allocated one gets its `delete()` |
| GrabCut.GrabCutTool.RunSegmentation | buildingfachade/components/GrabCutComponent.js:147-179 | the try block fails exactly as GrabCutError says after the early checks; of its four slots the picture is allocated iff `imread` did not throw and the other three iff the read succeeded; a failure leaves the overlay and the events unchanged |
| ImageMask.Toggled | buildingfachade/components/ImageMask.js:287-289 | the mode button always changes the mode |
| ImageMask.ToggleTwice | buildingfachade/components/ImageMask.js:287-289 | pressing the mode button twice restores the mode |
| ImageMask.FloodFill | buildingfachade/components/ImageMask.js:133-161 | on a fresh mask, the stack fill from an in-frame seed marks exactly the seed's 4-connected region of pixels whose every channel is within the tolerance |
| ImageMask.VisitTop | buildingfachade/components/ImageMask.js:138-160 | one pop keeps the stack in the frame and keeps the fill invariant, and either marks one more pixel or shortens the stack and marks nothing |
| ImageMask.PopTop | buildingfachade/components/ImageMask.js:139-142 | popping the top point removes the last work entry; the point is in the frame and matches iff its channels are within the tolerance |
| ImageMask.MarkAndPush | buildingfachade/components/ImageMask.js:150-159 | marking the popped pixel and pushing its neighbours keeps the invariant and marks exactly one more pixel |
| ImageMask.PushNeighbours | buildingfachade/components/ImageMask.js:153-158 | pushes each in-frame neighbour, marked or not; on indices these are the guarded pushes with no pixel taken, and the stack stays in the frame |
| ImageMask.PushedIndices | buildingfachade/components/ImageMask.js:153-158 | the indices of the pushed points are the left, right, up and down index pushes |
| ImageMask.WandSelectsSeed | buildingfachade/components/ImageMask.js:115-131 | a click always selects the clicked pixel |
| ImageMask.Editor.constructor | buildingfachade/components/ImageMask.js:17-22 | initial state: GrabCut selected, Add mode, no drag, both points at the origin |
| ImageMask.Editor.ApplyMask | buildingfachade/components/ImageMask.js:171-189 | the overlay is replaced by the fresh (255,0,0,128) buffer of the mask, whatever the mode; all other state is unchanged |
| ImageMask.Editor.HandleMagicWand | buildingfachade/components/ImageMask.js:115-131 | the overlay becomes the replacement buffer of the tolerance-32 fill around the clicked colour |
| ImageMask.Editor.MouseDown | buildingfachade/components/ImageMask.js:191-210 | starts a drag at the point; with the Magic Wand selected, runs it there, otherwise leaves the overlay |
| ImageMask.Editor.MouseMove | buildingfachade/components/ImageMask.js:212-238 | the end point follows the pointer only during a GrabCut drag |
| ImageMask.Editor.HandleGrabCut | buildingfachade/components/ImageMask.js:74-113 | nothing happens without OpenCV or when the picture cannot be read; otherwise four matrices are allocated and deleted in order, stopping at the first throw, and the overlay is replaced by the 5-iteration foreground only when segmentation succeeds |
| ImageMask.Editor.MouseUp | buildingfachade/components/ImageMask.js:240-252 | the drag ends; with GrabCut selected, the overlay becomes the segmentation's replacement buffer when every step succeeds, and is kept otherwise |
| ImageMask.Editor.ToggleMode | buildingfachade/components/ImageMask.js:281-293 | the mode flips and nothing else changes |
| ImageMask.Editor.SelectTool | buildingfachade/components/ImageMask.js:258-280 | selects the tool, except that the GrabCut button does nothing until OpenCV is ready |
| ImageMask.DeleteInOrder | buildingfachade/components/ImageMask.js:107-112 | matrix i gets its `delete()` iff none of the matrices before it threw |
| ToolInitializer.Lower | buildingfachade/utils/toolInitializer.js:40 | the same length, with every character lowercased (A-Z to a-z, others kept) |
| ToolInitializer.LowerIdempotent | buildingfachade/utils/toolInitializer.js:40 | lowercasing leaves no capital letter, so lowercasing again changes nothing |
| ToolInitializer.InitGrabCutTool | buildingfachade/utils/toolInitializer.js:8-44 | the tool gets no mode iff none was given; otherwise the mode in lower case |
| ToolInitializer.LowerModeUnchanged | buildingfachade/utils/toolInitializer.js:40 | a mode already in lower case reaches the tool unchanged |
| ToolInitializer.InitializeTool | buildingfachade/utils/toolInitializer.js:52-70 | a missing or empty name or missing props gives nothing; otherwise the buttons are cleared if a callback exists, and a tool is built iff the lowercased name is "grabcut" |
| ToolInitializer.DispatchIgnoresCase | buildingfachade/utils/toolInitializer.js:62-69 | two names equal after lowercasing dispatch identically |
| ToolInitializer.MagicWandNotDispatched | buildingfachade/utils/toolInitializer.js:56-69 | "magic_wand" builds no tool but still clears the buttons |
| ToolInitializer.GrabCutCapitalised | buildingfachade/utils/toolInitializer.js:62-64 | "GrabCut" builds the GrabCut tool |
| ToolInitializer.GrabCutUpperCase | buildingfachade/utils/toolInitializer.js:62-64 | "GRABCUT" builds the GrabCut tool |
| ToolInitializer.GetToolCursor | buildingfachade/utils/toolInitializer.js:79-87 | the tool's own cursor when it has a non-empty one, otherwise "crosshair"; the two flags play no part |

## Left out

- GrabCut.DraggedRectInside: requires both corners to lie on the canvas. Only the end corner is clamped (GrabCutComponent.js:81-82). The start corner is the raw mouse-down position (GrabCutComponent.js:57-73). It is on the canvas only because the mouse-down lands on it, and that pointer geometry is not modelled.
- GrabCut.AcceptedDragFailures: requires both corners to lie on the canvas, for the same reason.
- `Math.sqrt` in the Magic Wand's colour test is modelled exactly as a squared comparison (`WithinDistance`); no floating point is modelled.
- Drawing on canvases is not modelled: `drawSelection`, `drawSelectionRect`, `clearSelection`, the dashed strokes and the clearing of the selection canvas. Only the RGBA buffer of the mask canvas is modelled.
- React's deferred state updates, `setTimeout` (including the 500 ms clear of the trace and the deferred preview refresh) and the `useEffect` hooks are not modelled. Callbacks are recorded in call order as `Event`s.
- Loading OpenCV's script and the picture are not modelled. Readiness is a flag, and `window.cv` is an `Option<OpenCV>` parameter.
- `cv.grabCut` is an input (`Segmenter`): whether it throws, and the label it writes at each pixel. `cv.cvtColor`, the data type of each matrix (CV_8UC1, CV_64FC1) and `cv.Rect` are left out.
- Pointer geometry (`getBoundingClientRect`, `clientX - rect.left`) is left out. Points arrive as integer image coordinates. The `Math.round` in the Magic Wand's mouse-down is therefore not modelled, nor are the fractional coordinates the earlier editor can pass on.
- ImageMask.FloodFill: requires an in-frame seed and a fresh mask, because the earlier editor indexes the image with an off-frame point and JavaScript's out-of-range reads (undefined colours, stray mask keys) are not modelled.
- ImageMask.Editor.HandleMagicWand: requires an in-frame click, for the same reason.
- ImageMask.Editor.MouseDown: requires an in-frame point when the Magic Wand is selected, for the same reason.
- The Magic Wand's `handleMouseMove` and `handleMouseUp` do nothing, and GrabCut's `handleMouseDown` only clears the selection canvas; they have no members.
- The `try`/`catch` of `processMagicWand` is left out: no step of the model throws.
- Whether a tool's mask canvas is mounted is the flag `hasMaskCanvas`, in `MagicWand.MagicWandTool` and in `GrabCut.GrabCutTool`. The Magic Wand skips the write without one. GrabCut's write throws, and that throw is the failure `NoMaskCanvas`; the text of the JavaScript `TypeError` is not modelled. The earlier editor renders its own mask canvas (ImageMask.js:310), so `ImageMask.Editor` has no such flag. In every tool the image and the overlay are taken to have the same size.
- `toLowerCase` is modelled on the letters A to Z. Other Unicode case mappings are left out.
- Props other than the mode and the `registerToolButtons` callback are handed on unchanged by `initGrabCutTool` and are not modelled.
- `console.log`, `console.warn` and `console.error` are left out.
- The four neighbour pushes of each fill are stated as one concatenation of four lists. Each list holds at most one entry, so the result is the same as four `push` calls.
- Only the masking components are modelled. Capture, upload, the 3-D viewer, navigation, the pages and the OpenCV context provider are not part of this model.
