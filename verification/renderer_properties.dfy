/**
 * What the section renderers promise: the trace sections number their panels
 * by stack position, the inner sections keep exactly the script's frames
 * under those same numbers, the locals variants differ only in their locals,
 * script frames are reported at their original line, and the one-line
 * sections all describe the same innermost script frame.
 */
module RendererProperties {
  import opened Wrappers
  import opened PyText
  import opened Frames
  import opened Pointers
  import opened HookErrors
  import opened Renderers

  lemma ShownPositionsStep(ctx: Context, from: nat, innerOnly: bool)
    requires from < |ctx.frames|
    ensures ShownPositions(ctx, from, innerOnly) ==
      (if Shown(ctx, from, innerOnly) then [from] else []) + ShownPositions(ctx, from + 1, innerOnly)
  {
  }

  /** A shown frame's panel heads the rest of the section. */
  lemma PanelsStep(ctx: Context, from: nat, innerOnly: bool, withLocals: bool)
    requires from < |ctx.frames|
    requires Panels(ctx, from, innerOnly, withLocals).Success?
    ensures Panels(ctx, from + 1, innerOnly, withLocals).Success?
    ensures Shown(ctx, from, innerOnly) ==>
      && PanelAt(ctx, from, withLocals).Success?
      && Panels(ctx, from, innerOnly, withLocals).value ==
         [PanelAt(ctx, from, withLocals).value] + Panels(ctx, from + 1, innerOnly, withLocals).value
    ensures !Shown(ctx, from, innerOnly) ==>
      Panels(ctx, from, innerOnly, withLocals) == Panels(ctx, from + 1, innerOnly, withLocals)
  {
  }

  /** A failing section fails at this frame's panel or in the rest. */
  lemma PanelsFailStep(ctx: Context, from: nat, innerOnly: bool, withLocals: bool)
    requires Panels(ctx, from, innerOnly, withLocals).Failure?
    ensures from < |ctx.frames|
    ensures Shown(ctx, from, innerOnly) && PanelAt(ctx, from, withLocals).Failure? ==>
      Panels(ctx, from, innerOnly, withLocals).error == PanelAt(ctx, from, withLocals).error
    ensures !(Shown(ctx, from, innerOnly) && PanelAt(ctx, from, withLocals).Failure?) ==>
      && Panels(ctx, from + 1, innerOnly, withLocals).Failure?
      && Panels(ctx, from, innerOnly, withLocals).error == Panels(ctx, from + 1, innerOnly, withLocals).error
  {
  }

  /** Putting one more position and its panel in front keeps `PanelsFor`. */
  lemma PanelsForCons(ctx: Context, p: nat, ps: seq<nat>, withLocals: bool, panels: seq<Block>, ps': seq<nat>, panels': seq<Block>)
    requires p < |ctx.frames|
    requires forall k :: 0 <= k < |ps| ==> ps[k] < |ctx.frames|
    requires PanelAt(ctx, p, withLocals).Success?
    requires PanelsFor(ctx, ps, withLocals, panels)
    requires ps' == [p] + ps && panels' == [PanelAt(ctx, p, withLocals).value] + panels
    ensures forall k :: 0 <= k < |ps'| ==> ps'[k] < |ctx.frames|
    ensures PanelsFor(ctx, ps', withLocals, panels')
  {
    forall k | 0 <= k < |ps'|
      ensures ps'[k] < |ctx.frames|
      ensures PanelAt(ctx, ps'[k], withLocals).Success? && panels'[k] == PanelAt(ctx, ps'[k], withLocals).value
    {
      if k > 0 {
        assert ps'[k] == ps[k - 1];
        assert panels'[k] == panels[k - 1];
      }
    }
  }

  /** One step of `PanelsListShownFrames`: the claim from `from` follows
      from the claim from `from + 1`. */
  lemma PanelsListStep(ctx: Context, from: nat, innerOnly: bool, withLocals: bool)
    requires from < |ctx.frames|
    requires Panels(ctx, from, innerOnly, withLocals).Success?
    requires Panels(ctx, from + 1, innerOnly, withLocals).Success?
    requires PanelsFor(ctx, ShownPositions(ctx, from + 1, innerOnly), withLocals, Panels(ctx, from + 1, innerOnly, withLocals).value)
    ensures PanelsFor(ctx, ShownPositions(ctx, from, innerOnly), withLocals, Panels(ctx, from, innerOnly, withLocals).value)
  {
    var ps := ShownPositions(ctx, from, innerOnly);
    var tail := ShownPositions(ctx, from + 1, innerOnly);
    var panels := Panels(ctx, from, innerOnly, withLocals).value;
    var rest := Panels(ctx, from + 1, innerOnly, withLocals).value;
    if Shown(ctx, from, innerOnly) {
      assert ps == [from] + tail by {
        ShownPositionsStep(ctx, from, innerOnly);
      }
      assert PanelAt(ctx, from, withLocals).Success? && panels == [PanelAt(ctx, from, withLocals).value] + rest by {
        PanelsStep(ctx, from, innerOnly, withLocals);
      }
      PanelsForCons(ctx, from, tail, withLocals, rest, ps, panels);
    } else {
      assert ps == tail by {
        ShownPositionsStep(ctx, from, innerOnly);
      }
      assert panels == rest by {
        PanelsStep(ctx, from, innerOnly, withLocals);
      }
    }
  }

  /** A section that renders holds one panel per shown frame, in stack order. */
  lemma {:induction false} PanelsListShownFrames(ctx: Context, from: nat, innerOnly: bool, withLocals: bool)
    requires Panels(ctx, from, innerOnly, withLocals).Success?
    ensures PanelsFor(ctx, ShownPositions(ctx, from, innerOnly), withLocals, Panels(ctx, from, innerOnly, withLocals).value)
    decreases |ctx.frames| - from
  {
    if from < |ctx.frames| {
      assert Panels(ctx, from + 1, innerOnly, withLocals).Success? by {
        PanelsStep(ctx, from, innerOnly, withLocals);
      }
      PanelsListShownFrames(ctx, from + 1, innerOnly, withLocals);
      PanelsListStep(ctx, from, innerOnly, withLocals);
    }
  }

  /** Frame `i` is the first frame from `from` on that the section shows and
      whose panel fails, with error `e`. */
  predicate FirstFailingPanel(ctx: Context, from: nat, innerOnly: bool, withLocals: bool, i: nat, e: RenderError) {
    && from <= i < |ctx.frames|
    && Shown(ctx, i, innerOnly)
    && PanelAt(ctx, i, withLocals) == Failure(e)
    && forall j :: from <= j < i && Shown(ctx, j, innerOnly) ==> PanelAt(ctx, j, withLocals).Success?
  }

  /** One frame earlier that renders, or is not shown, keeps the first
      failing panel first. */
  lemma FirstFailingPanelBack(ctx: Context, from: nat, innerOnly: bool, withLocals: bool, i: nat, e: RenderError)
    requires from < |ctx.frames|
    requires FirstFailingPanel(ctx, from + 1, innerOnly, withLocals, i, e)
    requires Shown(ctx, from, innerOnly) ==> PanelAt(ctx, from, withLocals).Success?
    ensures FirstFailingPanel(ctx, from, innerOnly, withLocals, i, e)
  {
  }

  /** A section that fails reports the error of the first shown frame whose
      panel fails; every shown frame before it rendered. */
  lemma {:induction false} PanelsFailAtFirstBadFrame(ctx: Context, from: nat, innerOnly: bool, withLocals: bool)
    requires Panels(ctx, from, innerOnly, withLocals).Failure?
    ensures exists i :: FirstFailingPanel(ctx, from, innerOnly, withLocals, i, Panels(ctx, from, innerOnly, withLocals).error)
    decreases |ctx.frames| - from
  {
    var e := Panels(ctx, from, innerOnly, withLocals).error;
    assert from < |ctx.frames| by {
      PanelsFailStep(ctx, from, innerOnly, withLocals);
    }
    if Shown(ctx, from, innerOnly) && PanelAt(ctx, from, withLocals).Failure? {
      assert FirstFailingPanel(ctx, from, innerOnly, withLocals, from, e) by {
        PanelsFailStep(ctx, from, innerOnly, withLocals);
      }
    } else {
      assert Panels(ctx, from + 1, innerOnly, withLocals).Failure? && Panels(ctx, from + 1, innerOnly, withLocals).error == e by {
        PanelsFailStep(ctx, from, innerOnly, withLocals);
      }
      PanelsFailAtFirstBadFrame(ctx, from + 1, innerOnly, withLocals);
      var i :| FirstFailingPanel(ctx, from + 1, innerOnly, withLocals, i, e);
      FirstFailingPanelBack(ctx, from, innerOnly, withLocals, i, e);
    }
  }

  /** `Spaced` puts a blank line before every block and keeps their order. */
  lemma {:induction false} SpacedContents(bs: seq<Block>)
    ensures forall k :: 0 <= k < |bs| ==> Spaced(bs)[2 * k] == Blank && Spaced(bs)[2 * k + 1] == bs[k]
  {
    if |bs| > 0 {
      SpacedContents(bs[1..]);
      var r := Spaced(bs);
      var tail := Spaced(bs[1..]);
      assert r == [Blank, bs[0]] + tail;
      forall k | 0 <= k < |bs|
        ensures r[2 * k] == Blank && r[2 * k + 1] == bs[k]
      {
        if k > 0 {
          assert r[2 * k] == tail[2 * (k - 1)];
          assert r[2 * k + 1] == tail[2 * (k - 1) + 1];
        }
      }
    }
  }

  /** A panel carries its frame's stack number (from 1) and scope. */
  lemma PanelTitle(ctx: Context, i: nat, withLocals: bool)
    requires i < |ctx.frames|
    requires PanelAt(ctx, i, withLocals).Success?
    ensures PanelAt(ctx, i, withLocals).value.TracePanel?
    ensures PanelAt(ctx, i, withLocals).value.number == i + 1
    ensures PanelAt(ctx, i, withLocals).value.scope == ctx.frames[i].name
  {
  }

  /** The blocks of a section: the two header lines, then a blank line and a
      block for each of `panels`. */
  lemma SectionLayout(ctx: Context, panels: seq<Block>)
    ensures var bs := Header(ctx) + Spaced(panels);
      && |bs| == 2 + 2 * |panels|
      && bs[0] == TypeLine(ctx.kind) && bs[1] == MessageLine(ctx.message)
      && forall k :: 0 <= k < |panels| ==> bs[2 + 2 * k] == Blank && bs[3 + 2 * k] == panels[k]
  {
    SpacedContents(panels);
    var bs := Header(ctx) + Spaced(panels);
    forall k | 0 <= k < |panels|
      ensures bs[2 + 2 * k] == Blank && bs[3 + 2 * k] == panels[k]
    {
      assert bs[2 + 2 * k] == Spaced(panels)[2 * k];
      assert bs[3 + 2 * k] == Spaced(panels)[2 * k + 1];
    }
  }

  /** `gen_trace` and `gen_trace_with_locals`: after the type and message
      lines, one panel per frame of the whole stack, numbered 1, 2, ..., n
      from the outermost frame, each titled with its frame's scope. */
  lemma TraceNumbersEveryFrame(ctx: Context, withLocals: bool)
    requires Panels(ctx, 0, false, withLocals).Success?
    ensures var bs := Header(ctx) + Spaced(Panels(ctx, 0, false, withLocals).value);
      && |bs| == 2 + 2 * |ctx.frames|
      && bs[0] == TypeLine(ctx.kind) && bs[1] == MessageLine(ctx.message)
      && forall k :: 0 <= k < |ctx.frames| ==>
        && bs[2 + 2 * k] == Blank
        && bs[3 + 2 * k].TracePanel?
        && bs[3 + 2 * k].number == k + 1
        && bs[3 + 2 * k].scope == ctx.frames[k].name
  {
    var panels := Panels(ctx, 0, false, withLocals).value;
    var ps := ShownPositions(ctx, 0, false);
    assert PanelsFor(ctx, ps, withLocals, panels) by {
      PanelsListShownFrames(ctx, 0, false, withLocals);
    }
    SectionLayout(ctx, panels);
    forall k | 0 <= k < |ctx.frames|
      ensures panels[k].TracePanel? && panels[k].number == k + 1 && panels[k].scope == ctx.frames[k].name
    {
      assert ps[k] == k;
      PanelTitle(ctx, k, withLocals);
    }
  }

  /** `gen_inner` and `gen_inner_with_locals`: one panel per frame of the
      script, in stack order, each keeping the number it has in the full
      trace; no foreign frame gets a panel. */
  lemma InnerKeepsStackNumbers(ctx: Context, withLocals: bool)
    requires Panels(ctx, 0, true, withLocals).Success?
    ensures var ps := TargetPositions(ctx.frames, ctx.mirror, 0);
      var bs := Header(ctx) + Spaced(Panels(ctx, 0, true, withLocals).value);
      && |bs| == 2 + 2 * |ps|
      && forall k :: 0 <= k < |ps| ==>
        && bs[2 + 2 * k] == Blank
        && bs[3 + 2 * k] == PanelAt(ctx, ps[k], withLocals).value
        && bs[3 + 2 * k].number == ps[k] + 1
        && IsTarget(ctx.frames[ps[k]], ctx.mirror)
  {
    var panels := Panels(ctx, 0, true, withLocals).value;
    var ps := ShownPositions(ctx, 0, true);
    assert PanelsFor(ctx, ps, withLocals, panels) by {
      PanelsListShownFrames(ctx, 0, true, withLocals);
    }
    SectionLayout(ctx, panels);
    forall k | 0 <= k < |ps|
      ensures panels[k].number == ps[k] + 1
    {
      PanelTitle(ctx, ps[k], withLocals);
    }
  }

  /** Only a script frame's panel can fail, and the locals flag plays no part in it. */
  lemma PanelFailsOnlyOnTarget(ctx: Context, i: nat, withLocals: bool)
    requires i < |ctx.frames|
    ensures PanelAt(ctx, i, withLocals).Failure? ==> IsTarget(ctx.frames[i], ctx.mirror)
    ensures PanelAt(ctx, i, withLocals).Failure? <==> PanelAt(ctx, i, !withLocals).Failure?
  {
    PointerFailsOnlyOnTargetSource(ctx.mirror, ctx.source, ctx.frames[i], true);
  }

  /** The full trace fails exactly when the inner trace does, with or
      without locals: every failure comes from a frame of the script. */
  lemma TraceAndInnerFailTogether(ctx: Context, withLocals: bool, otherLocals: bool)
    ensures Panels(ctx, 0, false, withLocals).Failure? <==> Panels(ctx, 0, true, otherLocals).Failure?
  {
    forall i | 0 <= i < |ctx.frames|
      ensures PanelAt(ctx, i, withLocals).Failure? ==> IsTarget(ctx.frames[i], ctx.mirror)
      ensures PanelAt(ctx, i, withLocals).Failure? <==> PanelAt(ctx, i, otherLocals).Failure?
    {
      PanelFailsOnlyOnTarget(ctx, i, withLocals);
    }
  }

  /** Asking for locals changes nothing but the locals part of each panel:
      a script frame lists its visible locals, a foreign frame gets the
      no-locals marker. */
  lemma LocalsOnlyAddLocals(ctx: Context, i: nat)
    requires i < |ctx.frames|
    requires PanelAt(ctx, i, false).Success?
    ensures PanelAt(ctx, i, true).Success?
    ensures PanelAt(ctx, i, false).value.locals == Hidden
    ensures PanelAt(ctx, i, true).value ==
      PanelAt(ctx, i, false).value.(locals :=
        if IsTarget(ctx.frames[i], ctx.mirror) then Listed(VisibleLocals(ctx.frames[i].locals))
        else NoLocalsMarker)
  {
  }

  /** A script frame's panel shows the original script's path and starts at
      the frame's line in that script: the mirror line it ran is that very
      line of the script. */
  lemma TargetPanelShowsScriptLine(ctx: Context, i: nat, withLocals: bool)
    requires i < |ctx.frames|
    requires IsTarget(ctx.frames[i], ctx.mirror)
    requires HeaderLength < ctx.frames[i].lineno <= |MirrorLines(ctx.source)|
    ensures PanelAt(ctx, i, withLocals).Success? <==> !IsBlank(ctx.source[ctx.frames[i].lineno - 4])
    ensures PanelAt(ctx, i, withLocals).Success? ==>
      var p := PanelAt(ctx, i, withLocals).value;
      && p.file == ctx.sourcePath
      && 1 <= p.startLine <= |ctx.source|
      && ctx.source[p.startLine - 1] == MirrorLines(ctx.source)[ctx.frames[i].lineno - 1]
  {
    var f := ctx.frames[i];
    assert PanelAt(ctx, i, withLocals).Success? <==> !IsBlank(ctx.source[f.lineno - 4]) by {
      assert PyIndex(ctx.source, f.lineno - 4) == Some(ctx.source[f.lineno - 4]);
      PointerFailsOnlyOnTargetSource(ctx.mirror, ctx.source, f, true);
    }
    if PanelAt(ctx, i, withLocals).Success? {
      var p := PanelAt(ctx, i, withLocals).value;
      assert p.file == ctx.sourcePath && p.startLine == DisplayedLine(f.lineno) by {
        TargetPanelPlace(ctx, i, withLocals);
      }
      assert 1 <= DisplayedLine(f.lineno) <= |ctx.source| &&
        ctx.source[DisplayedLine(f.lineno) - 1] == MirrorLines(ctx.source)[f.lineno - 1] by {
        MirrorLineIsSourceLine(ctx.source, f.lineno);
      }
    }
  }

  /** A rendered script frame's panel names the original script and its line there. */
  lemma TargetPanelPlace(ctx: Context, i: nat, withLocals: bool)
    requires i < |ctx.frames|
    requires IsTarget(ctx.frames[i], ctx.mirror)
    requires PanelAt(ctx, i, withLocals).Success?
    ensures PanelAt(ctx, i, withLocals).value.file == ctx.sourcePath
    ensures PanelAt(ctx, i, withLocals).value.startLine == DisplayedLine(ctx.frames[i].lineno)
  {
  }

  /** A foreign frame's panel always renders, with the frame's own path and
      line, and one caret per character of its code behind four blanks and the
      padding for the script index `lineno - 4`. */
  lemma ForeignPanelAsReported(ctx: Context, i: nat, withLocals: bool)
    requires i < |ctx.frames|
    requires !IsTarget(ctx.frames[i], ctx.mirror)
    ensures PanelAt(ctx, i, withLocals).Success?
    ensures var p := PanelAt(ctx, i, withLocals).value;
      && p.file == ctx.frames[i].filename
      && p.startLine == ctx.frames[i].lineno
      && p.pointer.carets == |ctx.frames[i].line|
      && p.pointer.indent == 4 + GutterPad(ctx.frames[i].lineno - 4)
  {
    ForeignPointer(ctx.mirror, ctx.source, ctx.frames[i]);
  }

  // ------------------------------------------------------------- gen_locals

  /** `panels` holds the locals panel of each position of `ps`, in order. */
  predicate LocalsFor(ctx: Context, ps: seq<nat>, panels: seq<Block>) {
    && |panels| == |ps|
    && forall k :: 0 <= k < |ps| ==> ps[k] < |ctx.frames| && panels[k] == LocalsPanelAt(ctx, ps[k])
  }

  lemma LocalsForCons(ctx: Context, p: nat, ps: seq<nat>, panels: seq<Block>)
    requires p < |ctx.frames|
    requires LocalsFor(ctx, ps, panels)
    ensures LocalsFor(ctx, [p] + ps, [LocalsPanelAt(ctx, p)] + panels)
  {
    var ps' := [p] + ps;
    var panels' := [LocalsPanelAt(ctx, p)] + panels;
    forall k | 0 <= k < |ps'|
      ensures ps'[k] < |ctx.frames| && panels'[k] == LocalsPanelAt(ctx, ps'[k])
    {
      if k > 0 {
        assert ps'[k] == ps[k - 1];
        assert panels'[k] == panels[k - 1];
      }
    }
  }

  /** One script frame's locals panel per script frame, in stack order. */
  lemma {:induction false} LocalsPanelsListScriptFrames(ctx: Context, from: nat)
    ensures LocalsFor(ctx, TargetPositions(ctx.frames, ctx.mirror, from), LocalsPanels(ctx, from))
    decreases |ctx.frames| - from
  {
    if from < |ctx.frames| {
      var tail := TargetPositions(ctx.frames, ctx.mirror, from + 1);
      var rest := LocalsPanels(ctx, from + 1);
      LocalsPanelsListScriptFrames(ctx, from + 1);
      if IsTarget(ctx.frames[from], ctx.mirror) {
        assert TargetPositions(ctx.frames, ctx.mirror, from) == [from] + tail;
        assert LocalsPanels(ctx, from) == [LocalsPanelAt(ctx, from)] + rest;
        LocalsForCons(ctx, from, tail, rest);
      } else {
        assert TargetPositions(ctx.frames, ctx.mirror, from) == tail;
        assert LocalsPanels(ctx, from) == rest;
      }
    }
  }

  /** `gen_locals`: a blank line and, for each script frame in stack order,
      a panel titled with its scope that lists its visible locals. */
  lemma GenLocalsListsScriptFrames(ctx: Context)
    ensures var ps := TargetPositions(ctx.frames, ctx.mirror, 0);
      var bs := GenLocals(ctx);
      && |bs| == 2 * |ps|
      && forall k :: 0 <= k < |ps| ==>
        && bs[2 * k] == Blank
        && bs[2 * k + 1] == LocalsPanel(ctx.frames[ps[k]].name, VisibleLocals(ctx.frames[ps[k]].locals))
  {
    LocalsPanelsListScriptFrames(ctx, 0);
    SpacedContents(LocalsPanels(ctx, 0));
  }

  // --------------------------------------------------- scope / line / code

  /** There is only one innermost script frame, and it is the one the
      backward searches find. */
  lemma InnermostTargetFound(ctx: Context, i: int)
    requires IsInnermostTarget(ctx, i)
    ensures InnermostTarget(ctx.frames, ctx.mirror) == Some(i)
  {
  }

  /** `gen_scope`, `gen_line` and `gen_code` all describe the same frame:
      the innermost frame of the script. */
  lemma ScopeLineAndCodeAgree(ctx: Context, i: int)
    requires IsInnermostTarget(ctx, i)
    ensures GenScope(ctx) == Success([ScopeLine(ctx.frames[i].name)])
    ensures GenLine(ctx) == Success([LineNumberLine(DisplayedLine(ctx.frames[i].lineno))])
    ensures GenCode(ctx).Success? ==> GenCode(ctx).value[0] == CodeLine(ctx.frames[i].line)
  {
    assert InnermostTarget(ctx.frames, ctx.mirror) == Some(i) by {
      InnermostTargetFound(ctx, i);
    }
  }

  /** `gen_code` shows the innermost script frame's code over its pointer. */
  lemma CodeAtInnermost(ctx: Context, i: int)
    requires IsInnermostTarget(ctx, i)
    ensures GenPointer(ctx.mirror, ctx.source, ctx.frames[i], false).Success? ==>
      GenCode(ctx) == Success([CodeLine(ctx.frames[i].line),
                               PointerLine(GenPointer(ctx.mirror, ctx.source, ctx.frames[i], false).value)])
    ensures GenPointer(ctx.mirror, ctx.source, ctx.frames[i], false).Failure? ==>
      GenCode(ctx) == Failure(GenPointer(ctx.mirror, ctx.source, ctx.frames[i], false).error)
  {
    InnermostTargetFound(ctx, i);
  }

  /** With the frame's columns inside its code, the carets `gen_code` draws
      sit exactly under the characters of the script line that failed. */
  lemma CodeCaretsUnderFailure(ctx: Context, i: int)
    requires IsInnermostTarget(ctx, i)
    requires 0 <= ctx.frames[i].lineno - 4 < |ctx.source|
    requires FirstNonSpace(ctx.source[ctx.frames[i].lineno - 4]).Some?
    requires ctx.frames[i].line == Strip(ctx.source[ctx.frames[i].lineno - 4])
    requires FirstNonSpace(ctx.source[ctx.frames[i].lineno - 4]).value <= ctx.frames[i].colno <= ctx.frames[i].endColno
    requires ctx.frames[i].endColno - FirstNonSpace(ctx.source[ctx.frames[i].lineno - 4]).value <= |ctx.frames[i].line|
    ensures GenPointer(ctx.mirror, ctx.source, ctx.frames[i], false).Success?
    ensures GenCode(ctx) == Success([CodeLine(ctx.frames[i].line),
                                     PointerLine(GenPointer(ctx.mirror, ctx.source, ctx.frames[i], false).value)])
    ensures Underlines(GenPointer(ctx.mirror, ctx.source, ctx.frames[i], false).value,
                       ctx.frames[i].line, ctx.source[ctx.frames[i].lineno - 4], ctx.frames[i].colno, ctx.frames[i].endColno)
  {
    CodePointerUnderFailingText(ctx.mirror, ctx.source, ctx.frames[i]);
    CodeAtInnermost(ctx, i);
  }
}
