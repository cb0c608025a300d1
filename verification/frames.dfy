/**
 * The mirror file and the frames of a traceback.
 *
 * pymg runs a copy of the user's script (the mirror file) that starts with a
 * three-line header installing its excepthook.  A frame is a target frame when
 * it comes from that mirror file; its line numbers are three too high for the
 * original script.  Every other frame (library or interpreter code) is foreign.
 */
module Frames {
  import opened Wrappers
  import opened PyText

  /** The header `gen_mirror_header` puts ahead of the user's source. */
  const MirrorHeader: seq<string> := [
    "import sys\n",
    "from pymg import display_error_message\n",
    "sys.excepthook = display_error_message\n"
  ]

  /** The line offset `gen_line` and the trace renderers subtract. */
  const HeaderLength := 3

  /** The lines `mk_mirror_file` writes: the header, then the source unchanged. */
  function MirrorLines(source: seq<string>): (r: seq<string>)
    ensures |r| == HeaderLength + |source|
    ensures r[..HeaderLength] == MirrorHeader
    ensures r[HeaderLength..] == source
  {
    MirrorHeader + source
  }

  /** `''.join(lines)` */
  function Concat(lines: seq<string>): string {
    if |lines| == 0 then "" else lines[0] + Concat(lines[1..])
  }

  function NewlineCount(s: string): nat {
    if |s| == 0 then 0 else (if s[0] == '\n' then 1 else 0) + NewlineCount(s[1..])
  }

  /** A line as `readlines` returns it: exactly one newline, at the end. */
  predicate IsTerminatedLine(line: string) {
    |line| > 0 && line[|line| - 1] == '\n' && '\n' !in line[..|line| - 1]
  }

  /** A value bound to a local variable: its `str()` and whether it is a module. */
  datatype Value = Value(text: string, isModule: bool)

  /** One traceback entry: `FrameSummary` fields plus the frame's `f_locals`
      items.  `line` is the source text the traceback module reports (already
      stripped); `colno`/`endColno` delimit the failing expression. */
  datatype Frame = Frame(
    filename: string,
    name: string,
    lineno: int,
    line: string,
    colno: int,
    endColno: int,
    locals: seq<(string, Value)>)

  /** A frame comes from the user's script when its file is the mirror file. */
  predicate IsTarget(f: Frame, mirror: string) {
    f.filename == mirror
  }

  /** The line number shown for a target frame: the mirror line less the header. */
  function DisplayedLine(rawLine: int): int {
    rawLine - HeaderLength
  }

  /** The line number a trace panel shows for a frame: the script's
      numbering for a target frame, the frame's own number otherwise. */
  function ShownLine(f: Frame, mirror: string): int {
    if IsTarget(f, mirror) then DisplayedLine(f.lineno) else f.lineno
  }

  /** The index of the last (innermost) target frame, as the backwards loops
      of `gen_scope`, `gen_line` and `gen_code` find it; None when there is
      none (those loops then leave their variable unbound). */
  function InnermostTarget(frames: seq<Frame>, mirror: string): (r: Option<nat>)
    ensures r.Some? ==> r.value < |frames| && IsTarget(frames[r.value], mirror)
    ensures r.Some? ==> forall j :: r.value < j < |frames| ==> !IsTarget(frames[j], mirror)
    ensures r.None? <==> forall j :: 0 <= j < |frames| ==> !IsTarget(frames[j], mirror)
    decreases |frames|
  {
    if |frames| == 0 then None
    else if IsTarget(frames[|frames| - 1], mirror) then Some(|frames| - 1)
    else InnermostTarget(frames[..|frames| - 1], mirror)
  }

  /** The positions of the target frames from `from` on, in stack order. */
  function TargetPositions(frames: seq<Frame>, mirror: string, from: nat): (ps: seq<nat>)
    ensures forall k :: 0 <= k < |ps| ==> from <= ps[k] < |frames| && IsTarget(frames[ps[k]], mirror)
    ensures forall i :: from <= i < |frames| && IsTarget(frames[i], mirror) ==> i in ps
    ensures forall k, l :: 0 <= k < l < |ps| ==> ps[k] < ps[l]
    decreases |frames| - from
  {
    if from >= |frames| then []
    else (if IsTarget(frames[from], mirror) then [from] else []) + TargetPositions(frames, mirror, from + 1)
  }

  /** The positions `from`, `from + 1`, ..., `|frames| - 1`. */
  function AllPositions(frames: seq<Frame>, from: nat): (ps: seq<nat>)
    ensures |ps| == if from >= |frames| then 0 else |frames| - from
    ensures forall k :: 0 <= k < |ps| ==> ps[k] == from + k
    decreases |frames| - from
  {
    if from >= |frames| then [] else [from] + AllPositions(frames, from + 1)
  }

  // ------------------------------------------------------------------ locals

  /** The comprehension filter of the `*_with_locals` and `locals` renderers:
      dunder-prefixed or -suffixed names, the hook itself and modules are hidden. */
  predicate IsShownLocal(name: string, v: Value) {
    && !StartsWith(name, "__")
    && !EndsWith(name, "__")
    && name != "display_error_message"
    && !v.isModule
  }

  /** The `name = value` pairs a locals panel lists, in `f_locals` order. */
  function VisibleLocals(locals: seq<(string, Value)>): (r: seq<(string, string)>)
    ensures |r| <= |locals|
    ensures forall k :: 0 <= k < |r| ==>
      !StartsWith(r[k].0, "__") && !EndsWith(r[k].0, "__") && r[k].0 != "display_error_message"
  {
    if |locals| == 0 then []
    else
      var (name, v) := locals[0];
      (if IsShownLocal(name, v) then [(name, v.text)] else []) + VisibleLocals(locals[1..])
  }

  // ---------------------------------------------------------------- lemmas

  /** The source line a target frame points at: mirror line `raw` is line
      `DisplayedLine(raw)` of the original script. */
  lemma MirrorLineIsSourceLine(source: seq<string>, raw: int)
    requires HeaderLength < raw <= |MirrorLines(source)|
    ensures 1 <= DisplayedLine(raw) <= |source|
    ensures MirrorLines(source)[raw - 1] == source[DisplayedLine(raw) - 1]
  {
  }

  lemma {:induction false} ConcatAppend(a: seq<string>, b: seq<string>)
    ensures Concat(a + b) == Concat(a) + Concat(b)
    decreases |a|
  {
    if |a| == 0 {
      assert a + b == b;
    } else {
      assert (a + b)[1..] == a[1..] + b;
      ConcatAppend(a[1..], b);
    }
  }

  lemma {:induction false} NewlineCountAppend(a: string, b: string)
    ensures NewlineCount(a + b) == NewlineCount(a) + NewlineCount(b)
    decreases |a|
  {
    if |a| == 0 {
      assert a + b == b;
    } else {
      assert (a + b)[1..] == a[1..] + b;
      NewlineCountAppend(a[1..], b);
    }
  }

  lemma {:induction false} NewlineFree(s: string)
    requires '\n' !in s
    ensures NewlineCount(s) == 0
    decreases |s|
  {
    if |s| > 0 {
      NewlineFree(s[1..]);
    }
  }

  lemma {:induction false} TerminatedLinesCount(lines: seq<string>)
    requires forall i :: 0 <= i < |lines| ==> IsTerminatedLine(lines[i])
    ensures NewlineCount(Concat(lines)) == |lines|
    decreases |lines|
  {
    if |lines| > 0 {
      var l := lines[0];
      TerminatedLinesCount(lines[1..]);
      NewlineCountAppend(l, Concat(lines[1..]));
      assert l == l[..|l| - 1] + ['\n'];
      NewlineCountAppend(l[..|l| - 1], ['\n']);
      NewlineFree(l[..|l| - 1]);
    }
  }

  /** The mirror text is the header text followed by the source text, and the
      header text holds exactly `HeaderLength` line breaks: every source line
      sits `HeaderLength` lines further down in the mirror. */
  lemma MirrorShiftsSourceByHeader(source: seq<string>)
    ensures Concat(MirrorLines(source)) == Concat(MirrorHeader) + Concat(source)
    ensures NewlineCount(Concat(MirrorHeader)) == HeaderLength
    ensures forall i :: 0 <= i < |MirrorHeader| ==> IsTerminatedLine(MirrorHeader[i])
  {
    assert Concat(MirrorLines(source)) == Concat(MirrorHeader) + Concat(source) by {
      ConcatAppend(MirrorHeader, source);
    }
    assert forall i :: 0 <= i < |MirrorHeader| ==> IsTerminatedLine(MirrorHeader[i]) by {
      HeaderLinesTerminated();
    }
    TerminatedLinesCount(MirrorHeader);
  }

  /** Each header line ends in its only line break. */
  lemma HeaderLinesTerminated()
    ensures forall i :: 0 <= i < |MirrorHeader| ==> IsTerminatedLine(MirrorHeader[i])
  {
    assert IsTerminatedLine(MirrorHeader[0]);
    assert IsTerminatedLine(MirrorHeader[1]);
    assert IsTerminatedLine(MirrorHeader[2]);
  }

  /** A local is listed, with its value's text, exactly when the frame binds
      it and the filter lets it through. */
  lemma {:induction false} VisibleLocalsExactly(locals: seq<(string, Value)>, name: string, text: string)
    ensures (name, text) in VisibleLocals(locals) <==>
      exists i :: 0 <= i < |locals| && locals[i].0 == name && locals[i].1.text == text && IsShownLocal(name, locals[i].1)
    decreases |locals|
  {
    if |locals| > 0 {
      VisibleLocalsExactly(locals[1..], name, text);
      var rest := locals[1..];
      if (name, text) in VisibleLocals(rest) {
        var i :| 0 <= i < |rest| && rest[i].0 == name && rest[i].1.text == text && IsShownLocal(name, rest[i].1);
        assert locals[i + 1] == rest[i];
      }
      if exists i :: 0 <= i < |locals| && locals[i].0 == name && locals[i].1.text == text && IsShownLocal(name, locals[i].1) {
        var i :| 0 <= i < |locals| && locals[i].0 == name && locals[i].1.text == text && IsShownLocal(name, locals[i].1);
        if i > 0 {
          assert rest[i - 1] == locals[i];
        }
      }
    }
  }

  /** Dunder names, the hook's own name and module bindings never reach a locals panel. */
  lemma HiddenLocalsNeverShown(locals: seq<(string, Value)>)
    ensures forall p :: p in VisibleLocals(locals) ==>
      !StartsWith(p.0, "__") && !EndsWith(p.0, "__") && p.0 != "display_error_message"
    ensures forall i :: 0 <= i < |locals| && IsShownLocal(locals[i].0, locals[i].1) ==>
      (locals[i].0, locals[i].1.text) in VisibleLocals(locals)
  {
    forall p | p in VisibleLocals(locals)
      ensures !StartsWith(p.0, "__") && !EndsWith(p.0, "__") && p.0 != "display_error_message"
    {
      VisibleLocalsExactly(locals, p.0, p.1);
    }
    forall i | 0 <= i < |locals| && IsShownLocal(locals[i].0, locals[i].1)
      ensures (locals[i].0, locals[i].1.text) in VisibleLocals(locals)
    {
      VisibleLocalsExactly(locals, locals[i].0, locals[i].1.text);
    }
  }
}
