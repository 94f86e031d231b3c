/**
 * What a tool tells the editor that hosts it. The tools own no editor
 * state: they report through callbacks handed to them as props
 * (`setErrorMessage`, `setHasSelection`, `setIsMaskApplied`,
 * `updatePreview`, `resetSelectionOnly`, `registerToolButtons`). The model
 * records each call, in order, as an `Event`.
 */
module Callbacks {

  /** The error conditions a tool reports to the user. */
  datatype ErrorKind =
    | NotReady            // OpenCV has not signalled readiness
    | LibraryMissing      // `window.cv` is absent
    | SelectionTooSmall   // rectangle below the 20-pixel minimum
    | ReadFailure         // `cv.imread` gave nothing usable
    | OutOfBounds         // rectangle not inside the image
    | SegmentationFailed  // `cv.grabCut` threw
    | NoMaskCanvas        // the mask canvas is not mounted, so drawing on it threw
    | EmptySelection      // the Magic Wand traced no boundary

  /** The contextual buttons a tool can register. */
  datatype ToolButton =
    | LessTolerance              // "-": tolerance - 5
    | ToleranceLabel(value: int) // shows the current tolerance, no action
    | MoreTolerance              // "+": tolerance + 5
    | ApplyGrabCut               // runs the segmentation on the rectangle

  datatype Event =
    | ClearErrorMessage
    | SetErrorMessage(error: ErrorKind)
    | SetHasSelection(value: bool)
    | SetIsMaskApplied
    | UpdatePreview
    | ResetSelectionOnly
    | RegisterToolButtons(buttons: seq<ToolButton>)
}
