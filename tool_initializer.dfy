/**
 * Tool dispatch: building a tool from its name and the editor's props, and
 * choosing the cursor the canvas shows for it.
 *
 * A tool name or a props object that is missing, and an empty tool name
 * (falsy in JavaScript), give no tool. Names are compared after
 * lowercasing, and "grabcut" is the only name with a tool behind it.
 */
module ToolInitializer {
  import opened Wrappers
  import opened Callbacks

  /** The props the dispatch itself looks at: whether the
      `registerToolButtons` callback is supplied, and the selection mode.
      Every other prop is handed on to the tool unchanged. */
  datatype Props = Props(hasRegisterToolButtons: bool, mode: Option<string>)

  /** The GrabCut tool as it is built: the mode it receives. */
  datatype ToolConfig = GrabCutConfig(mode: Option<string>)

  /** What `initializeTool` does: the callbacks it makes, in order, and the
      tool it returns (`None` for null). */
  datatype Dispatch = Dispatch(events: seq<Event>, tool: Option<ToolConfig>)

  /** The only tool name that builds a tool, in lower case. */
  const GRABCUT := "grabcut"

  /** The cursor used when a tool does not define one. */
  const DEFAULT_CURSOR := "crosshair"

  predicate IsUpper(c: char)
  {
    'A' <= c <= 'Z'
  }

  /** One character in lower case (letters A to Z). */
  function LowerChar(c: char): (r: char)
    ensures !IsUpper(r)
    ensures !IsUpper(c) ==> r == c
  {
    if IsUpper(c) then (c as int + ('a' as int - 'A' as int)) as char else c
  }

  /** `toLowerCase`, character by character. */
  function Lower(s: string): (r: string)
    ensures |r| == |s|
    ensures forall i :: 0 <= i < |s| ==> r[i] == LowerChar(s[i])
  {
    if s == [] then [] else [LowerChar(s[0])] + Lower(s[1..])
  }

  /** Lowercasing leaves no upper-case letter, so doing it twice changes
      nothing more. */
  lemma LowerIdempotent(s: string)
    ensures forall i :: 0 <= i < |Lower(s)| ==> !IsUpper(Lower(s)[i])
    ensures Lower(Lower(s)) == Lower(s)
  {
  }

  /** `initGrabCutTool`: the GrabCut tool is built with the mode in lower
      case, and with no mode when none was given. */
  function InitGrabCutTool(props: Props): (t: ToolConfig)
    ensures t.mode.None? <==> props.mode.None?
    ensures props.mode.Some? ==> |t.mode.value| == |props.mode.value|
    ensures props.mode.Some? ==>
      forall i :: 0 <= i < |props.mode.value| ==> t.mode.value[i] == LowerChar(props.mode.value[i])
  {
    match props.mode
    case None => GrabCutConfig(None)
    case Some(m) => GrabCutConfig(Some(Lower(m)))
  }

  /** A mode that is already in lower case reaches the tool unchanged. */
  lemma LowerModeUnchanged(props: Props)
    requires props.mode.Some? && forall i :: 0 <= i < |props.mode.value| ==> !IsUpper(props.mode.value[i])
    ensures InitGrabCutTool(props).mode == props.mode
  {
    var m := props.mode.value;
    assert Lower(m) == m;
  }

  /** `initializeTool(toolType, props)`. */
  function InitializeTool(toolType: Option<string>, props: Option<Props>): (r: Dispatch)
    ensures toolType.None? || toolType.value == [] || props.None? ==> r == Dispatch([], None)
    ensures toolType.Some? && toolType.value != [] && props.Some? ==>
      r.events == if props.value.hasRegisterToolButtons then [RegisterToolButtons([])] else []
    ensures r.tool.Some? <==> toolType.Some? && props.Some? && Lower(toolType.value) == GRABCUT
    ensures r.tool.Some? ==> props.Some? && r.tool.value == InitGrabCutTool(props.value)
  {
    if toolType.None? || toolType.value == [] || props.None? then
      Dispatch([], None)
    else
      var events := if props.value.hasRegisterToolButtons then [RegisterToolButtons([])] else [];
      if Lower(toolType.value) == GRABCUT then
        Dispatch(events, Some(InitGrabCutTool(props.value)))
      else
        Dispatch(events, None)
  }

  /** Two names that agree once lowercased dispatch alike. */
  lemma DispatchIgnoresCase(a: string, b: string, props: Option<Props>)
    requires Lower(a) == Lower(b)
    ensures InitializeTool(Some(a), props) == InitializeTool(Some(b), props)
  {
    assert |a| == |Lower(a)| == |Lower(b)| == |b|;
  }

  /** Only GrabCut is implemented: the Magic Wand name gives no tool, even
      though its buttons are still cleared. */
  lemma MagicWandNotDispatched(props: Props)
    ensures InitializeTool(Some("magic_wand"), Some(props)).tool == None
    ensures props.hasRegisterToolButtons ==>
      InitializeTool(Some("magic_wand"), Some(props)).events == [RegisterToolButtons([])]
  {
    assert Lower("magic_wand")[0] == 'm';
  }

  /** "GrabCut", as the toolbar spells it, builds the GrabCut tool. */
  lemma GrabCutCapitalised(props: Props)
    ensures InitializeTool(Some("GrabCut"), Some(props)).tool == Some(InitGrabCutTool(props))
  {
    assert Lower("GrabCut") == GRABCUT;
  }

  /** So does "GRABCUT", all in upper case. */
  lemma GrabCutUpperCase(props: Props)
    ensures InitializeTool(Some("GRABCUT"), Some(props)).tool == Some(InitGrabCutTool(props))
  {
    assert Lower("GRABCUT") == GRABCUT;
  }

  /** A built tool, as far as the cursor goes: the cursor it defines, if
      any. */
  datatype ToolObject = ToolObject(cursor: Option<string>)

  /** `getToolCursor(tool, hasSelection, isMaskApplied)`: the tool's own
      cursor when it has a non-empty one, otherwise "crosshair". The two
      flags do not take part. */
  function GetToolCursor(tool: Option<ToolObject>, hasSelection: bool, isMaskApplied: bool): (r: string)
    ensures r != []
    ensures tool.Some? && tool.value.cursor.Some? && tool.value.cursor.value != [] ==> r == tool.value.cursor.value
    ensures tool.None? || tool.value.cursor.None? || tool.value.cursor.value == [] ==> r == DEFAULT_CURSOR
  {
    if tool.Some? && tool.value.cursor.Some? && tool.value.cursor.value != [] then tool.value.cursor.value
    else DEFAULT_CURSOR
  }
}
