/**
 * The report sections the excepthook can render, one function per recipe
 * entry: `gen_type`, `gen_message`, `gen_file`, `gen_scope`, `gen_line`,
 * `gen_code`, `gen_trace`, `gen_trace_with_locals`, `gen_inner`,
 * `gen_inner_with_locals` and `gen_locals`.  A section is a list of blocks; a
 * renderer that would raise inside the excepthook yields a `RenderError`.
 */
module Renderers {
  import opened Wrappers
  import opened PyText
  import opened Frames
  import opened Pointers
  import opened HookErrors

  /** What the renderers read: the exception's type name and message, the
      traceback's frames (outermost first), the mirror file's path, and the
      original script's path (the first item of the stored source info) and
      lines. */
  datatype Context = Context(
    kind: string,
    message: string,
    frames: seq<Frame>,
    mirror: string,
    sourcePath: string,
    source: seq<string>)

  /** The locals part of a trace panel. */
  datatype LocalsView =
    | Hidden                                // a renderer without locals
    | NoLocalsMarker                        // "NO LOCALS WERE FOUND IN THIS TRACE"
    | Listed(entries: seq<(string, string)>) // the `name = value` lines

  /** One element of a section's template list. */
  datatype Block =
    | TypeLine(kind: string)
    | MessageLine(text: string)
    | FileLine(path: string)
    | ScopeLine(scope: string)
    | LineNumberLine(lineno: int)
    | CodeLine(code: string)
    | PointerLine(pointer: Pointer)
    | Blank
    | TracePanel(number: nat, scope: string, file: string, code: string, startLine: int,
                 pointer: Pointer, locals: LocalsView)
    | LocalsPanel(scope: string, entries: seq<(string, string)>)

  // ------------------------------------------------------- one-line sections

  function GenType(ctx: Context): seq<Block> {
    [TypeLine(ctx.kind)]
  }

  function GenMessage(ctx: Context): seq<Block> {
    [MessageLine(ctx.message)]
  }

  /** The original script's path, never the mirror's. */
  function GenFile(ctx: Context): seq<Block> {
    [FileLine(ctx.sourcePath)]
  }

  /** The two lines every trace-style section starts with. */
  function Header(ctx: Context): seq<Block> {
    [TypeLine(ctx.kind), MessageLine(ctx.message)]
  }

  /** Frame `i` is the innermost frame of the user's script. */
  predicate IsInnermostTarget(ctx: Context, i: int) {
    && 0 <= i < |ctx.frames|
    && IsTarget(ctx.frames[i], ctx.mirror)
    && forall j :: i < j < |ctx.frames| ==> !IsTarget(ctx.frames[j], ctx.mirror)
  }

  predicate NoTarget(ctx: Context) {
    forall j :: 0 <= j < |ctx.frames| ==> !IsTarget(ctx.frames[j], ctx.mirror)
  }

  /** `gen_scope`: the name of the innermost frame of the script. */
  function GenScope(ctx: Context): (r: Result<seq<Block>, RenderError>)
    ensures r.Failure? <==> NoTarget(ctx)
    ensures r.Failure? ==> r.error == NoTargetFrame
    ensures r.Success? ==> exists i :: IsInnermostTarget(ctx, i) && r.value == [ScopeLine(ctx.frames[i].name)]
  {
    match InnermostTarget(ctx.frames, ctx.mirror)
    case None => Failure(NoTargetFrame)
    case Some(i) =>
      assert IsInnermostTarget(ctx, i);
      Success([ScopeLine(ctx.frames[i].name)])
  }

  /** `gen_line`: the innermost script frame's line, in the original script's numbering. */
  function GenLine(ctx: Context): (r: Result<seq<Block>, RenderError>)
    ensures r.Failure? <==> NoTarget(ctx)
    ensures r.Failure? ==> r.error == NoTargetFrame
    ensures r.Success? ==> exists i ::
      IsInnermostTarget(ctx, i) && r.value == [LineNumberLine(DisplayedLine(ctx.frames[i].lineno))]
  {
    match InnermostTarget(ctx.frames, ctx.mirror)
    case None => Failure(NoTargetFrame)
    case Some(i) =>
      assert IsInnermostTarget(ctx, i);
      Success([LineNumberLine(DisplayedLine(ctx.frames[i].lineno))])
  }

  /** `gen_code`: the innermost script frame's code and, under it, its pointer
      without line numbers. */
  function GenCode(ctx: Context): (r: Result<seq<Block>, RenderError>)
    ensures NoTarget(ctx) ==> r == Failure(NoTargetFrame)
    ensures !NoTarget(ctx) ==> exists i ::
      && IsInnermostTarget(ctx, i)
      && (match GenPointer(ctx.mirror, ctx.source, ctx.frames[i], false)
          case Failure(e) => r == Failure(e)
          case Success(p) => r == Success([CodeLine(ctx.frames[i].line), PointerLine(p)]))
  {
    match InnermostTarget(ctx.frames, ctx.mirror)
    case None => Failure(NoTargetFrame)
    case Some(i) =>
      assert IsInnermostTarget(ctx, i);
      var f := ctx.frames[i];
      var p :- GenPointer(ctx.mirror, ctx.source, f, false);
      Success([CodeLine(f.line), PointerLine(p)])
  }

  // ----------------------------------------------------------- trace panels

  /** The panel of frame `i` in the trace-style sections: numbered by its
      position in the whole stack; a script frame shows the original path and
      line number, any other frame its own. */
  function PanelAt(ctx: Context, i: nat, withLocals: bool): (r: Result<Block, RenderError>)
    requires i < |ctx.frames|
    ensures r.Success? <==> GenPointer(ctx.mirror, ctx.source, ctx.frames[i], true).Success?
    ensures r.Failure? ==> IsTarget(ctx.frames[i], ctx.mirror) && r.error == GenPointer(ctx.mirror, ctx.source, ctx.frames[i], true).error
    ensures r.Success? ==> && r.value.TracePanel? && r.value.number == i + 1 && r.value.scope == ctx.frames[i].name
                           && (r.value.locals == Hidden <==> !withLocals)
  {
    var f := ctx.frames[i];
    var target := IsTarget(f, ctx.mirror);
    var p :- GenPointer(ctx.mirror, ctx.source, f, true);
    Success(TracePanel(
      i + 1,
      f.name,
      if target then ctx.sourcePath else f.filename,
      f.line,
      ShownLine(f, ctx.mirror),
      p,
      if !withLocals then Hidden
      else if target then Listed(VisibleLocals(f.locals))
      else NoLocalsMarker))
  }

  /** Whether a section shows frame `i`: the inner sections skip foreign frames. */
  predicate Shown(ctx: Context, i: int, innerOnly: bool)
    requires 0 <= i < |ctx.frames|
  {
    !innerOnly || IsTarget(ctx.frames[i], ctx.mirror)
  }

  /** The frames a section shows from `from` on, in stack order. */
  function ShownPositions(ctx: Context, from: nat, innerOnly: bool): (ps: seq<nat>)
    ensures forall k :: 0 <= k < |ps| ==> from <= ps[k] < |ctx.frames| && Shown(ctx, ps[k], innerOnly)
  {
    if innerOnly then TargetPositions(ctx.frames, ctx.mirror, from) else AllPositions(ctx.frames, from)
  }

  /** Every shown frame from `from` on renders. */
  predicate AllPanelsRender(ctx: Context, from: nat, innerOnly: bool, withLocals: bool) {
    forall i :: from <= i < |ctx.frames| && Shown(ctx, i, innerOnly) ==> PanelAt(ctx, i, withLocals).Success?
  }

  /** A blank line ahead of each block: `template.extend(['', block])` per block. */
  function Spaced(bs: seq<Block>): (r: seq<Block>)
    ensures |r| == 2 * |bs|
  {
    if |bs| == 0 then [] else [Blank, bs[0]] + Spaced(bs[1..])
  }

  /** `panels` holds the panel of each position of `ps`, in order. */
  predicate PanelsFor(ctx: Context, ps: seq<nat>, withLocals: bool, panels: seq<Block>)
    requires forall k :: 0 <= k < |ps| ==> ps[k] < |ctx.frames|
  {
    && |panels| == |ps|
    && forall k :: 0 <= k < |ps| ==>
      PanelAt(ctx, ps[k], withLocals).Success? && panels[k] == PanelAt(ctx, ps[k], withLocals).value
  }

  /** The `while exc_info['traceback_']` loop of the trace-style renderers,
      from frame `from` on: a panel per shown frame; the first shown frame
      whose pointer raises aborts the section. */
  function Panels(ctx: Context, from: nat, innerOnly: bool, withLocals: bool): (r: Result<seq<Block>, RenderError>)
    ensures r.Success? <==> AllPanelsRender(ctx, from, innerOnly, withLocals)
    ensures r.Failure? ==> r.error.SourceLineMissing? || r.error.BlankSourceLine?
    decreases |ctx.frames| - from
  {
    if from >= |ctx.frames| then Success([])
    else if !Shown(ctx, from, innerOnly) then Panels(ctx, from + 1, innerOnly, withLocals)
    else
      var panel :- PanelAt(ctx, from, withLocals);
      var rest :- Panels(ctx, from + 1, innerOnly, withLocals);
      Success([panel] + rest)
  }

  function GenTrace(ctx: Context): (r: Result<seq<Block>, RenderError>)
    ensures r.Success? <==> AllPanelsRender(ctx, 0, false, false)
    ensures r.Failure? ==> !NoTarget(ctx) && (r.error.SourceLineMissing? || r.error.BlankSourceLine?)
    ensures r.Success? ==> |r.value| >= 2 && r.value[..2] == Header(ctx)
  {
    var panels :- Panels(ctx, 0, false, false);
    Success(Header(ctx) + Spaced(panels))
  }

  function GenTraceWithLocals(ctx: Context): (r: Result<seq<Block>, RenderError>)
    ensures r.Success? <==> AllPanelsRender(ctx, 0, false, true)
    ensures r.Failure? ==> !NoTarget(ctx) && (r.error.SourceLineMissing? || r.error.BlankSourceLine?)
    ensures r.Success? ==> |r.value| >= 2 && r.value[..2] == Header(ctx)
  {
    var panels :- Panels(ctx, 0, false, true);
    Success(Header(ctx) + Spaced(panels))
  }

  function GenInner(ctx: Context): (r: Result<seq<Block>, RenderError>)
    ensures r.Success? <==> AllPanelsRender(ctx, 0, true, false)
    ensures r.Failure? ==> !NoTarget(ctx) && (r.error.SourceLineMissing? || r.error.BlankSourceLine?)
    ensures r.Success? ==> |r.value| >= 2 && r.value[..2] == Header(ctx)
  {
    var panels :- Panels(ctx, 0, true, false);
    Success(Header(ctx) + Spaced(panels))
  }

  function GenInnerWithLocals(ctx: Context): (r: Result<seq<Block>, RenderError>)
    ensures r.Success? <==> AllPanelsRender(ctx, 0, true, true)
    ensures r.Failure? ==> !NoTarget(ctx) && (r.error.SourceLineMissing? || r.error.BlankSourceLine?)
    ensures r.Success? ==> |r.value| >= 2 && r.value[..2] == Header(ctx)
  {
    var panels :- Panels(ctx, 0, true, true);
    Success(Header(ctx) + Spaced(panels))
  }

  /** The locals panel of frame `i` in `gen_locals`. */
  function LocalsPanelAt(ctx: Context, i: nat): Block
    requires i < |ctx.frames|
  {
    LocalsPanel(ctx.frames[i].name, VisibleLocals(ctx.frames[i].locals))
  }

  /** `gen_locals`' loop from frame `from` on: a locals panel per script
      frame.  It never reads the source, so it cannot fail. */
  function LocalsPanels(ctx: Context, from: nat): (r: seq<Block>)
    ensures |r| == |TargetPositions(ctx.frames, ctx.mirror, from)|
    decreases |ctx.frames| - from
  {
    if from >= |ctx.frames| then []
    else if !IsTarget(ctx.frames[from], ctx.mirror) then LocalsPanels(ctx, from + 1)
    else [LocalsPanelAt(ctx, from)] + LocalsPanels(ctx, from + 1)
  }

  function GenLocals(ctx: Context): (r: seq<Block>)
    ensures |r| == 2 * |TargetPositions(ctx.frames, ctx.mirror, 0)|
    ensures r == [] <==> NoTarget(ctx)
  {
    var ps := TargetPositions(ctx.frames, ctx.mirror, 0);
    assert ps == [] <==> NoTarget(ctx) by {
      if !NoTarget(ctx) {
        var j :| 0 <= j < |ctx.frames| && IsTarget(ctx.frames[j], ctx.mirror);
        assert j in ps;
      }
      if ps != [] {
        assert IsTarget(ctx.frames[ps[0]], ctx.mirror);
      }
    }
    Spaced(LocalsPanels(ctx, 0))
  }
}
