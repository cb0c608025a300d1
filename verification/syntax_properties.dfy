/**
 * Each dialect's parser inverts the way the interpreter prints that dialect:
 * a diagnostic built from a message, a file and a line number parses back to
 * that message and line number, with the code read from the script's line
 * (or taken from the diagnostic, in the generic dialect).
 */
module SyntaxProperties {
  import opened Wrappers
  import opened PyText
  import opened Pointers
  import opened SyntaxErrors

  /** The location the interpreter appends to a tab or indentation error. */
  function Location(file: string, n: nat): string {
    file + ", line " + NatToString(n) + ")\n"
  }

  /** How the interpreter reports a tab/space mix. */
  function TabText(msg: string, file: string, n: nat): string {
    TabPrefix + " " + msg + " (" + Location(file, n)
  }

  /** How the interpreter reports an indentation error. */
  function IndentationText(msg: string, file: string, n: nat): string {
    IndentationPrefix + " " + msg + " (" + Location(file, n)
  }

  /** How the interpreter reports any other syntax error: a location line,
      the code, the caret line, the message line, and whatever follows. */
  function GenericText(lead: string, n: nat, code: string, carets: string, msg: string, more: seq<string>): string {
    lead + ", " + Join(["line " + NatToString(n), code, carets, "SyntaxError: " + msg] + more, '\n')
  }

  /** The result the two source-reading dialects produce. */
  function FromSource(title: string, n: nat, source: seq<string>, msg: string): Result<SyntaxDetail, SyntaxParseError> {
    match PyIndex(source, n - 1)
    case None => Failure(LineOutOfRange(n - 1))
    case Some(line) => Success(SyntaxDetail(title, n, Strip(line), FixedPointer, msg))
  }

  lemma PrefixStarts(p: string, s: string)
    ensures StartsWith(p + s, p)
  {
    assert (p + s)[..|p|] == p;
  }

  /** What follows the last comma of a text that ends in a location. */
  lemma LocationTail(q: string, file: string, n: nat)
    ensures Last(Split(q + Location(file, n), ',')) == " line " + NatToString(n) + ")\n"
  {
    var c := " line " + NatToString(n) + ")\n";
    assert ',' !in c by {
      NumeralChars(n);
    }
    assert q + Location(file, n) == (q + file) + [','] + c;
    SplitLast(q + file, ',', c);
  }

  /** The line number sits after the last comma of the location. */
  lemma LocationLineNumber(file: string, n: nat)
    requires '(' !in file
    ensures '(' !in Location(file, n)
    ensures Digits(Last(Split(Location(file, n), ','))) == Success(n)
  {
    assert '(' !in NatToString(n) by {
      NumeralChars(n);
    }
    assert "" + Location(file, n) == Location(file, n);
    LocationTail("", file, n);
    assert ExtractDigits(" line " + NatToString(n) + ")\n") == Some(n) by {
      ExtractDigitsOfNumeral(" line ", n, ")\n");
    }
  }

  /** The tab branch once the pieces around the parentheses are known. */
  lemma TabFields(err: string, pieces: seq<string>, n: nat, source: seq<string>)
    requires Split(err, '(') == pieces
    requires Digits(Last(Split(Last(pieces), ','))) == Success(n)
    ensures ParseTab(err, source) == FromSource("TabError", n, source, Strip(Drop(pieces[0], 16)))
  {
    var d := Digits(Last(Split(Last(pieces), ',')));
    assert !d.IsFailure() && d.Extract() == n;
    match PyIndex(source, n - 1)
    case None =>
      assert SourceLine(source, n) == Failure(LineOutOfRange(n - 1));
    case Some(line) =>
      assert SourceLine(source, n) == Success(line);
  }

  /** The tab branch on any text of the shape `a(b` with the tag in `a`. */
  lemma TabParse(a: string, b: string, n: nat, source: seq<string>)
    requires '(' !in a && '(' !in b && StartsWith(a, TabPrefix)
    requires Digits(Last(Split(b, ','))) == Success(n)
    ensures DialectOf(a + ['('] + b) == TabDialect
    ensures ParseTab(a + ['('] + b, source) == FromSource("TabError", n, source, Strip(Drop(a, 16)))
  {
    var err := a + ['('] + b;
    assert StartsWith(err, TabPrefix) by {
      assert err[..|TabPrefix|] == a[..|TabPrefix|];
    }
    assert Split(err, '(') == [a, b] by {
      SplitAtSep(a, '(', b);
      SplitNoSep(b, '(');
    }
    TabFields(err, [a, b], n, source);
  }

  /** A TabError diagnostic parses back to its message and line number, with
      the code read from that line of the script; a line number past the
      script's end makes the parser fail. */
  lemma TabRoundTrip(msg: string, file: string, n: nat, source: seq<string>)
    requires IsStripped(msg) && '(' !in msg && '(' !in file
    ensures DialectOf(TabText(msg, file, n)) == TabDialect
    ensures ParseSyntaxError(TabText(msg, file, n), source) == FromSource("TabError", n, source, msg)
  {
    var rest := " " + msg + " ";
    var a := TabPrefix + rest;
    var b := Location(file, n);
    assert TabText(msg, file, n) == a + ['('] + b;
    PrefixStarts(TabPrefix, rest);
    assert '(' !in a by {
      assert forall i :: 0 <= i < |a| ==> a[i] in TabPrefix || a[i] in rest;
    }
    LocationLineNumber(file, n);
    TabParse(a, b, n, source);
    assert Drop(a, 16) == rest;
    StripPadded(msg);
  }

  /** The words of the location's tail, its newline dropped. */
  lemma LocationWords(num: string)
    requires |num| > 0 && NoSpaces(num)
    ensures Words(DropLast(" line " + num + ")\n")) == ["line", num + ")"]
  {
    var words := ["line", num + ")"];
    assert NoSpaces(num + ")");
    assert DropLast(" line " + num + ")\n") == [' '] + Join(words, ' ') by {
      assert Join(words, ' ') == "line" + [' '] + (num + ")");
    }
    WordsAfterSpace(Join(words, ' '));
    WordsOfJoin(words);
  }

  lemma IndentationLineNumber(p: string, file: string, n: nat)
    ensures var w := Words(DropLast(Last(Split(p + Location(file, n), ','))));
      |w| > 0 && Digits(Last(w)) == Success(n)
  {
    var num := NatToString(n);
    LocationTail(p, file, n);
    NumeralChars(n);
    LocationWords(num);
    assert ExtractDigits(num + ")") == Some(n) by {
      assert "" + num + ")" == num + ")";
      ExtractDigitsOfNumeral("", n, ")");
    }
  }

  /** The message is the third colon-separated field, up to the parenthesis. */
  lemma {:induction false} IndentationMessage(x: string, y: string, msg: string, rest: string)
    requires ':' !in x && ':' !in y && ':' !in msg && '(' !in msg && IsStripped(msg)
    ensures var fields := Split(x + [':'] + y + [':'] + (" " + msg + " ") + ['('] + rest, ':');
      |fields| >= 3 && Strip(Split(fields[2], '(')[0]) == msg
  {
    var m := " " + msg + " ";
    var r := m + ['('] + rest;
    assert ':' !in m;
    assert x + [':'] + y + [':'] + m + ['('] + rest == x + [':'] + (y + [':'] + r);
    SplitAtSep(x, ':', y + [':'] + r);
    SplitAtSep(y, ':', r);
    var mp := m + ['('];
    assert ':' !in mp;
    assert r == mp + rest;
    SplitHeadAppend(mp, ':', rest);
    var h := Split(rest, ':')[0];
    assert Split(r, ':')[0] == m + ['('] + h;
    SplitAtSep(m, '(', h);
    StripPadded(msg);
  }

  /** The indentation tag is not the tab tag. */
  lemma IndentationIsNotTab(err: string)
    requires StartsWith(err, IndentationPrefix)
    ensures DialectOf(err) == IndentationDialect
  {
    assert err[7] == 'I';
  }

  /** The indentation branch once the line number and the message field
      are known. */
  lemma {:induction false} IndentationParse(err: string, n: nat, msg: string, source: seq<string>)
    requires var w := Words(DropLast(Last(Split(err, ','))));
      |w| > 0 && Digits(Last(w)) == Success(n)
    requires var fields := Split(err, ':');
      |fields| >= 3 && Strip(Split(fields[2], '(')[0]) == msg
    ensures ParseIndentation(err, source) == FromSource("IndentationError", n, source, msg)
  {
    match PyIndex(source, n - 1)
    case None =>
      assert SourceLine(source, n) == Failure(LineOutOfRange(n - 1));
    case Some(line) =>
      assert SourceLine(source, n) == Success(line);
  }

  /** An IndentationError diagnostic parses back to its message and line
      number, with the code read from that line of the script. */
  lemma IndentationRoundTrip(msg: string, file: string, n: nat, source: seq<string>)
    requires IsStripped(msg) && ':' !in msg && '(' !in msg
    ensures DialectOf(IndentationText(msg, file, n)) == IndentationDialect
    ensures ParseSyntaxError(IndentationText(msg, file, n), source) == FromSource("IndentationError", n, source, msg)
  {
    var err := IndentationText(msg, file, n);
    IndentationTextStarts(msg, file, n);
    IndentationTextLineNumber(msg, file, n);
    IndentationTextMessage(msg, file, n);
    IndentationParse(err, n, msg, source);
    IndentationIsNotTab(err);
  }

  lemma IndentationTextStarts(msg: string, file: string, n: nat)
    ensures StartsWith(IndentationText(msg, file, n), IndentationPrefix)
  {
    PrefixStarts(IndentationPrefix, " " + msg + " (" + Location(file, n));
    assert IndentationText(msg, file, n) == IndentationPrefix + (" " + msg + " (" + Location(file, n));
  }

  lemma IndentationTextLineNumber(msg: string, file: string, n: nat)
    ensures var w := Words(DropLast(Last(Split(IndentationText(msg, file, n), ','))));
      |w| > 0 && Digits(Last(w)) == Success(n)
  {
    var p := IndentationPrefix + " " + msg + " (";
    assert IndentationText(msg, file, n) == p + Location(file, n);
    IndentationLineNumber(p, file, n);
  }

  lemma IndentationTextMessage(msg: string, file: string, n: nat)
    requires IsStripped(msg) && ':' !in msg && '(' !in msg
    ensures var fields := Split(IndentationText(msg, file, n), ':');
      |fields| >= 3 && Strip(Split(fields[2], '(')[0]) == msg
  {
    var loc := Location(file, n);
    var m := " " + msg + " ";
    assert IndentationPrefix == "Sorry" + [':'] + " IndentationError" + [':'];
    assert " " + msg + " (" == m + ['('];
    assert IndentationText(msg, file, n) == IndentationPrefix + m + ['('] + loc;
    IndentationMessage("Sorry", " IndentationError", msg, loc);
  }

  /** The generic branch once the comma and the lines after it are known. */
  lemma GenericParse(err: string, comma: nat, lines: seq<string>, n: nat)
    requires IndexOf(err, ',') == Some(comma)
    requires Split(Drop(err, comma + 2), '\n') == lines && |lines| >= 4
    requires |Words(lines[0])| > 0 && Digits(Last(Words(lines[0]))) == Success(n)
    ensures ParseGeneric(err) == Success(SyntaxDetail("SyntaxError", n, Strip(lines[1]), lines[2], Drop(lines[3], 13)))
  {
    var words := Words(lines[0]);
    var d := Digits(Last(words));
    assert !d.IsFailure() && d.Extract() == n;
  }

  /** The location line `line <n>` reads back as `n`. */
  lemma LocationLineWords(n: nat)
    ensures var w := Words("line " + NatToString(n));
      |w| > 0 && Digits(Last(w)) == Success(n)
  {
    var num := NatToString(n);
    NumeralChars(n);
    var words := ["line", num];
    assert Join(words, ' ') == "line " + num;
    WordsOfJoin(words);
    assert ExtractDigits(num) == Some(n) by {
      assert "" + num + "" == num;
      ExtractDigitsOfNumeral("", n, "");
    }
  }

  /** A generic diagnostic parses back to its line number, code (stripped),
      caret line and message, whatever the script holds; no line offset is
      applied. */
  lemma GenericRoundTrip(lead: string, n: nat, code: string, carets: string, msg: string, more: seq<string>, source: seq<string>)
    requires |lead| > 0 && lead[0] != 'S' && ',' !in lead
    requires '\n' !in code && '\n' !in carets && '\n' !in msg
    requires forall i :: 0 <= i < |more| ==> '\n' !in more[i]
    ensures DialectOf(GenericText(lead, n, code, carets, msg, more)) == GenericDialect
    ensures ParseSyntaxError(GenericText(lead, n, code, carets, msg, more), source) ==
      Success(SyntaxDetail("SyntaxError", n, Strip(code), carets, msg))
  {
    var parts := ["line " + NatToString(n), code, carets, "SyntaxError: " + msg] + more;
    var err := GenericText(lead, n, code, carets, msg, more);
    GenericTextLayout(lead, n, code, carets, msg, more);
    LocationLineWords(n);
    assert ("SyntaxError: " + msg)[13..] == msg;
    GenericParse(err, |lead|, parts, n);
  }

  /** Where the pieces of a generic diagnostic sit: the dialect, the first
      comma, and the lines after it. */
  lemma GenericTextLayout(lead: string, n: nat, code: string, carets: string, msg: string, more: seq<string>)
    requires |lead| > 0 && lead[0] != 'S' && ',' !in lead
    requires '\n' !in code && '\n' !in carets && '\n' !in msg
    requires forall i :: 0 <= i < |more| ==> '\n' !in more[i]
    ensures var err := GenericText(lead, n, code, carets, msg, more);
      var parts := ["line " + NatToString(n), code, carets, "SyntaxError: " + msg] + more;
      && DialectOf(err) == GenericDialect
      && IndexOf(err, ',') == Some(|lead|)
      && |lead| + 2 <= |err|
      && Split(Drop(err, |lead| + 2), '\n') == parts
  {
    var num := NatToString(n);
    var parts := ["line " + num, code, carets, "SyntaxError: " + msg] + more;
    var body := Join(parts, '\n');
    var err := GenericText(lead, n, code, carets, msg, more);
    assert err == lead + [','] + (" " + body);
    assert DialectOf(err) == GenericDialect by {
      assert err[0] == lead[0];
    }
    assert IndexOf(err, ',') == Some(|lead|) by {
      IndexOfFirst(lead, ',', " " + body);
    }
    assert Drop(err, |lead| + 2) == body;
    assert Split(body, '\n') == parts by {
      assert '\n' !in num by {
        NumeralChars(n);
      }
      assert forall i :: 0 <= i < |parts| ==> '\n' !in parts[i];
      JoinSplit(parts, '\n');
    }
  }

  /** The generic dialect needs a comma to find the location line. */
  lemma GenericNeedsComma(err: string, source: seq<string>)
    requires DialectOf(err) == GenericDialect && ',' !in err
    ensures ParseSyntaxError(err, source) == Failure(NoComma)
  {
  }

  lemma JoinFour(a: string, b: string, c: string, d: string, sep: char)
    ensures Join([a, b, c, d], sep) == a + [sep] + b + [sep] + c + [sep] + d
  {
    assert [a, b, c, d][1..] == [b, c, d];
    assert [b, c, d][1..] == [c, d];
    assert [c, d][1..] == [d];
    assert Join([c, d], sep) == c + [sep] + d;
    assert Join([b, c, d], sep) == b + [sep] + (c + [sep] + d);
  }

  lemma {:induction false} StripLeftIndent(pad: string, s: string)
    requires forall i :: 0 <= i < |pad| ==> IsSpace(pad[i])
    requires |s| > 0 && !IsSpace(s[0])
    ensures StripLeft(pad + s) == s
    decreases |pad|
  {
    if |pad| == 0 {
      assert pad + s == s;
    } else {
      assert (pad + s)[0] == pad[0];
      assert (pad + s)[1..] == pad[1..] + s;
      StripLeftIndent(pad[1..], s);
    }
  }

  /** The scenario's diagnostic is the generic form of its parts. */
  lemma ScenarioText()
    ensures GenericText("File \"x.py\"", 9, "    " + "def f(:", "         ^", "invalid syntax", []) ==
      "File \"x.py\"" + ", " + ("line 9" + "\n" + ("    " + "def f(:") + "\n" + "         ^" + "\n" + "SyntaxError: invalid syntax")
  {
    assert "line " + NatToString(9) == "line 9";
    assert "SyntaxError: " + "invalid syntax" == "SyntaxError: invalid syntax";
    var parts := ["line 9", "    " + "def f(:", "         ^", "SyntaxError: invalid syntax"];
    assert ["line " + NatToString(9), "    " + "def f(:", "         ^", "SyntaxError: " + "invalid syntax"] + [] == parts;
    JoinFour("line 9", "    " + "def f(:", "         ^", "SyntaxError: invalid syntax", '\n');
  }

  /** `File "x.py", line 9` over `def f(:` reports line 9: the line number
      of the generic dialect is read as printed. */
  lemma GenericScenario(source: seq<string>)
    ensures ParseSyntaxError("File \"x.py\"" + ", " + ("line 9" + "\n" + ("    " + "def f(:") + "\n" + "         ^" + "\n" + "SyntaxError: invalid syntax"), source) ==
      Success(SyntaxDetail("SyntaxError", 9, "def f(:", "         ^", "invalid syntax"))
  {
    ScenarioText();
    GenericRoundTrip("File \"x.py\"", 9, "    " + "def f(:", "         ^", "invalid syntax", [], source);
    ScenarioCode();
  }

  lemma ScenarioCode()
    ensures Strip("    " + "def f(:") == "def f(:"
  {
    StripLeftIndent("    ", "def f(:");
    assert !IsSpace("def f(:"[6]);
  }

  /** The panel shows the parsed line number and code; the caret line is
      pushed right by `len(str(lineno)) - 1` blanks from line 10 on. */
  lemma PanelPointerShift(err: string, source: seq<string>)
    requires ParseSyntaxError(err, source).Success?
    ensures var d := ParseSyntaxError(err, source).value;
      var p := DisplaySyntaxError(err, source).value;
      && p.startLine == d.lineno
      && p.code == d.code
      && EndsWith(p.pointerRow, d.pointer)
      && (d.lineno < 10 ==> p.pointerRow == d.pointer)
      && (d.lineno >= 10 ==> p.pointerRow == Repeat(' ', |NatToString(d.lineno)| - 1) + d.pointer)
  {
    var d := ParseSyntaxError(err, source).value;
    GutterPadWhenWide(d.lineno);
    var pad := Repeat(' ', GutterPad(d.lineno));
    assert (pad + d.pointer)[|pad|..] == d.pointer;
    if d.lineno < 10 {
      assert pad == [];
    }
  }
}
