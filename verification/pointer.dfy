/**
 * `gen_pointer`: the caret line drawn under the failing code.  For a target
 * frame the carets span the frame's column range and are indented by the
 * column less the source line's leading whitespace (the code is shown
 * stripped); a foreign frame gets one caret per character of its line.  With
 * line numbers, four more blanks plus one per extra character of the line
 * number the panel shows make room for the gutter.
 */
module Pointers {
  import opened Wrappers
  import opened PyText
  import opened Frames
  import opened HookErrors

  /** A line with nothing but whitespace (or nothing at all). */
  predicate IsBlank(s: string) {
    forall j :: 0 <= j < |s| ==> IsSpace(s[j])
  }

  /** A caret line: `indent` blanks, then `carets` carets. */
  datatype Pointer = Pointer(indent: nat, carets: nat)

  function PointerText(p: Pointer): string {
    Repeat(' ', p.indent) + Repeat('^', p.carets)
  }

  /** `len(str(n)) - 1` blanks when `str(n)` has two characters or more, else none. */
  function GutterPad(n: int): nat {
    var width := |IntToString(n)|;
    if width >= 2 then width - 1 else 0
  }

  /** The caret line of `gen_pointer(tb, with_line_number)`, with the
      wide-number padding taken from `padFor`.  `source` is the user's script
      as `read_source` returns it and `mirror` the mirror file's path.  The
      index `lineno - 4` is the 0-based position in the original script of the
      mirror line `lineno`. */
  function PaddedPointer(mirror: string, source: seq<string>, f: Frame, withLineNumber: bool, padFor: int): Result<Pointer, RenderError> {
    var index := f.lineno - 4;
    if IsTarget(f, mirror) then
      match PyIndex(source, index)
      case None => Failure(SourceLineMissing(index))
      case Some(text) =>
        match FirstNonSpace(text)
        case None => Failure(BlankSourceLine(index))
        case Some(ws) =>
          var indent := if withLineNumber then Clamp(f.colno - ws + 4) + GutterPad(padFor) else Clamp(f.colno - ws);
          Success(Pointer(indent, Clamp(f.endColno - f.colno)))
    else
      Success(Pointer(if withLineNumber then 4 + GutterPad(padFor) else 0, |f.line|))
  }

  /** `gen_pointer`: with line numbers, the padding follows `lineno - 4`,
      the script index, as the code writes it. */
  function GenPointer(mirror: string, source: seq<string>, f: Frame, withLineNumber: bool): (r: Result<Pointer, RenderError>)
    ensures r.Failure? ==>
      && IsTarget(f, mirror)
      && (r.error == SourceLineMissing(f.lineno - 4) || r.error == BlankSourceLine(f.lineno - 4))
    ensures !IsTarget(f, mirror) ==> r.Success? && r.value.carets == |f.line|
    ensures IsTarget(f, mirror) && r.Success? && f.colno <= f.endColno ==> r.value.carets == f.endColno - f.colno
  {
    PaddedPointer(mirror, source, f, withLineNumber, f.lineno - 4)
  }

  /** The caret line with the padding following the line number the panel
      shows (`ShownLine`), so the carets clear a gutter of any width: what
      the padding of `gen_pointer` evidently aims at. */
  function GenPointerForShownLine(mirror: string, source: seq<string>, f: Frame, withLineNumber: bool): Result<Pointer, RenderError> {
    PaddedPointer(mirror, source, f, withLineNumber, ShownLine(f, mirror))
  }

  // ---------------------------------------------------------------- lemmas

  /** The gutter padding is needed exactly for numbers of two or more
      characters: ten and up, or any negative number (its minus sign). */
  lemma GutterPadWhenWide(n: int)
    ensures GutterPad(n) > 0 <==> n >= 10 || n < 0
    ensures GutterPad(n) == |IntToString(n)| - 1
  {
  }

  /** Only a target frame can make the pointer fail: when its line is past
      the script's end (Python's negative indexing allowed) or is blank. */
  lemma PointerFailsOnlyOnTargetSource(mirror: string, source: seq<string>, f: Frame, withLineNumber: bool)
    ensures GenPointer(mirror, source, f, withLineNumber).Failure? <==>
      && IsTarget(f, mirror)
      && (|| !(-|source| <= f.lineno - 4 < |source|)
          || IsBlank(PyIndex(source, f.lineno - 4).value))
  {
    var index := f.lineno - 4;
    if IsTarget(f, mirror) && -|source| <= index < |source| {
      var text := PyIndex(source, index).value;
      if FirstNonSpace(text).Some? {
        var ws := FirstNonSpace(text).value;
        assert !IsSpace(text[ws]);
      }
    }
  }

  /** With line numbers the pointer renders exactly when it does without,
      with the same carets, pushed right past the four-column gutter and the
      padding for a wide line number; a column left of the line's
      indentation is clamped, so the push can only be smaller then. */
  lemma NumberedPointerShift(mirror: string, source: seq<string>, f: Frame)
    ensures GenPointer(mirror, source, f, true).Success? <==> GenPointer(mirror, source, f, false).Success?
    ensures GenPointer(mirror, source, f, false).Success? ==>
      var plain := GenPointer(mirror, source, f, false).value;
      var numbered := GenPointer(mirror, source, f, true).value;
      && numbered.carets == plain.carets
      && numbered.indent <= plain.indent + 4 + GutterPad(f.lineno - 4)
      && (plain.indent > 0 || !IsTarget(f, mirror) ==> numbered.indent == plain.indent + 4 + GutterPad(f.lineno - 4))
  {
  }

  /** The padding follows the shown number, so with line numbers the carets
      move right by exactly the gutter that number needs: three columns plus
      one per character of the number. */
  lemma PointerClearsShownGutter(mirror: string, source: seq<string>, f: Frame)
    ensures GenPointerForShownLine(mirror, source, f, false) == GenPointer(mirror, source, f, false)
    ensures GenPointerForShownLine(mirror, source, f, true).Success? <==> GenPointer(mirror, source, f, true).Success?
    ensures GenPointer(mirror, source, f, false).Success? ==>
      var plain := GenPointer(mirror, source, f, false).value;
      var numbered := GenPointerForShownLine(mirror, source, f, true).value;
      plain.indent > 0 || !IsTarget(f, mirror) ==>
        numbered.indent == plain.indent + 3 + |IntToString(ShownLine(f, mirror))|
  {
    GutterPadWhenWide(ShownLine(f, mirror));
  }

  /** The two paddings differ by exactly the difference of the widths of
      the script index `lineno - 4` and the shown number. */
  lemma PaddingsDiffer(mirror: string, source: seq<string>, f: Frame)
    ensures GenPointerForShownLine(mirror, source, f, true).Success? <==> GenPointer(mirror, source, f, true).Success?
    ensures GenPointer(mirror, source, f, true).Success? ==>
      GenPointerForShownLine(mirror, source, f, true).value.indent - GenPointer(mirror, source, f, true).value.indent
        == |IntToString(ShownLine(f, mirror))| - |IntToString(f.lineno - 4)|
  {
    GutterPadWhenWide(f.lineno - 4);
    GutterPadWhenWide(ShownLine(f, mirror));
  }

  /** The code as written pads for the script index `lineno - 4`, not for
      the shown number: a script frame at mirror line 13 (shown as line 10),
      or a foreign frame at lines 10 to 13, gets one blank too few; a foreign
      frame at lines 1 to 3 (index `-3` to `-1`) gets one too many. */
  lemma AsWrittenPadMissesGutter(mirror: string, source: seq<string>, f: Frame)
    requires IsTarget(f, mirror) ==> f.lineno == 13
    requires !IsTarget(f, mirror) ==> 1 <= f.lineno <= 3 || 10 <= f.lineno <= 13
    ensures GenPointer(mirror, source, f, true).Success? <==> GenPointerForShownLine(mirror, source, f, true).Success?
    ensures GenPointer(mirror, source, f, true).Success? ==>
      var asWritten := GenPointer(mirror, source, f, true).value.indent;
      var shown := GenPointerForShownLine(mirror, source, f, true).value.indent;
      (if f.lineno <= 3 then asWritten == shown + 1 else shown == asWritten + 1)
  {
    GutterPadWhenWide(f.lineno - 4);
    GutterPadWhenWide(ShownLine(f, mirror));
  }

  /** A frame outside the script is underlined whole: one caret per
      character of its code, behind four blanks and the padding for
      `lineno - 4` with line numbers, and at the margin without. */
  lemma ForeignPointer(mirror: string, source: seq<string>, f: Frame)
    requires !IsTarget(f, mirror)
    ensures GenPointer(mirror, source, f, true).Success? && GenPointer(mirror, source, f, false).Success?
    ensures GenPointer(mirror, source, f, true).value.indent == 4 + GutterPad(f.lineno - 4)
    ensures GenPointer(mirror, source, f, false).value.indent == 0
    ensures GenPointer(mirror, source, f, true).value.carets == GenPointer(mirror, source, f, false).value.carets == |f.line|
  {
  }

  /** The pointer of a target frame reads the very line the frame reports:
      mirror line `lineno` is source line `lineno - 4` (0-based). */
  lemma PointerReadsFrameLine(source: seq<string>, f: Frame)
    requires HeaderLength < f.lineno <= |MirrorLines(source)|
    ensures 0 <= f.lineno - 4 < |source|
    ensures PyIndex(source, f.lineno - 4) == Some(MirrorLines(source)[f.lineno - 1])
    ensures f.lineno - 4 == DisplayedLine(f.lineno) - 1
  {
    MirrorLineIsSourceLine(source, f.lineno);
  }

  lemma StripLeftFromFirstNonSpace(s: string)
    requires FirstNonSpace(s).Some?
    ensures StripLeft(s) == s[FirstNonSpace(s).value..]
  {
  }

  /** A slice of a stretch of `text` that starts at `ws` is the slice of
      `text` shifted by `ws`. */
  lemma SliceOfStretch(text: string, line: string, ws: nat, a: int, b: int)
    requires ws <= |text| && |line| <= |text| - ws && line == text[ws..][..|line|]
    requires ws <= a <= b && b - ws <= |line|
    ensures b <= |text|
    ensures line[a - ws..b - ws] == text[a..b]
  {
    forall k | 0 <= k < b - a
      ensures line[a - ws..b - ws][k] == text[a..b][k]
    {
      assert line[a - ws + k] == text[ws..][a - ws + k];
    }
  }

  /** The stripped line is a stretch of the line starting at its first non-blank. */
  lemma StripIsSlice(text: string)
    requires FirstNonSpace(text).Some?
    ensures |Strip(text)| <= |text| - FirstNonSpace(text).value
    ensures Strip(text) == text[FirstNonSpace(text).value..][..|Strip(text)|]
  {
    StripLeftFromFirstNonSpace(text);
  }

  lemma CodePointerValue(mirror: string, source: seq<string>, f: Frame)
    requires IsTarget(f, mirror)
    requires 0 <= f.lineno - 4 < |source|
    requires FirstNonSpace(source[f.lineno - 4]).Some?
    requires FirstNonSpace(source[f.lineno - 4]).value <= f.colno <= f.endColno
    ensures GenPointer(mirror, source, f, false) ==
      Success(Pointer(f.colno - FirstNonSpace(source[f.lineno - 4]).value, f.endColno - f.colno))
  {
  }

  /** The carets of `p`, drawn under `line`, cover exactly the characters
      `a` to `b` of `text`. */
  predicate Underlines(p: Pointer, line: string, text: string, a: int, b: int) {
    && 0 <= a <= b <= |text|
    && p.indent + p.carets <= |line|
    && line[p.indent..p.indent + p.carets] == text[a..b]
  }

  /** Without line numbers (`gen_code`) the carets sit exactly under the
      failing characters of the stripped code shown above them, whenever the
      frame's columns lie inside the code. */
  lemma CodePointerUnderFailingText(mirror: string, source: seq<string>, f: Frame)
    requires IsTarget(f, mirror)
    requires 0 <= f.lineno - 4 < |source|
    requires FirstNonSpace(source[f.lineno - 4]).Some?
    requires f.line == Strip(source[f.lineno - 4])
    requires FirstNonSpace(source[f.lineno - 4]).value <= f.colno <= f.endColno
    requires f.endColno - FirstNonSpace(source[f.lineno - 4]).value <= |f.line|
    ensures GenPointer(mirror, source, f, false).Success?
    ensures Underlines(GenPointer(mirror, source, f, false).value, f.line, source[f.lineno - 4], f.colno, f.endColno)
  {
    var text := source[f.lineno - 4];
    assert |f.line| <= |text| - FirstNonSpace(text).value && f.line == text[FirstNonSpace(text).value..][..|f.line|] by {
      StripIsSlice(text);
    }
    CaretsUnderStretch(mirror, source, f);
  }

  /** The same, for any code line that is a stretch of the script line
      starting at its first non-blank. */
  lemma CaretsUnderStretch(mirror: string, source: seq<string>, f: Frame)
    requires IsTarget(f, mirror)
    requires 0 <= f.lineno - 4 < |source|
    requires FirstNonSpace(source[f.lineno - 4]).Some?
    requires var ws := FirstNonSpace(source[f.lineno - 4]).value;
      |f.line| <= |source[f.lineno - 4]| - ws && f.line == source[f.lineno - 4][ws..][..|f.line|]
    requires FirstNonSpace(source[f.lineno - 4]).value <= f.colno <= f.endColno
    requires f.endColno - FirstNonSpace(source[f.lineno - 4]).value <= |f.line|
    ensures GenPointer(mirror, source, f, false).Success?
    ensures Underlines(GenPointer(mirror, source, f, false).value, f.line, source[f.lineno - 4], f.colno, f.endColno)
  {
    var text := source[f.lineno - 4];
    var ws := FirstNonSpace(text).value;
    var p := Pointer(f.colno - ws, f.endColno - f.colno);
    assert GenPointer(mirror, source, f, false) == Success(p) by {
      CodePointerValue(mirror, source, f);
    }
    assert f.endColno <= |text| && f.line[f.colno - ws..f.endColno - ws] == text[f.colno..f.endColno] by {
      SliceOfStretch(text, f.line, ws, f.colno, f.endColno);
    }
    assert Underlines(p, f.line, text, f.colno, f.endColno);
  }
}
