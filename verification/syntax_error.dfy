/**
 * The parsing half of `display_syntax_error`: the text `py_compile` writes to
 * stderr is recognised by its prefix as one of three dialects and taken apart
 * into a title, a line number, the offending code, a caret line and a
 * message, which are then laid out in a panel.
 *
 *   TabError:          "Sorry: TabError: <msg> (<file>, line <n>)\n"
 *   IndentationError:  "Sorry: IndentationError: <msg> (<file>, line <n>)\n"
 *   anything else:     "<lead>, line <n>\n<code>\n<carets>\nSyntaxError: <msg>..."
 *
 * The first and last read the code from the script itself; the generic one
 * takes code and carets from the diagnostic.
 */
module SyntaxErrors {
  import opened Wrappers
  import opened PyText
  import opened Pointers

  const TabPrefix := "Sorry: TabError:"
  const IndentationPrefix := "Sorry: IndentationError:"

  datatype Dialect = TabDialect | GenericDialect | IndentationDialect

  /** The branch `display_syntax_error` takes; anything not tagged as a tab
      or indentation error is read as the generic dialect. */
  function DialectOf(err: string): Dialect {
    if StartsWith(err, TabPrefix) then TabDialect
    else if !StartsWith(err, IndentationPrefix) then GenericDialect
    else IndentationDialect
  }

  /** The exception `display_syntax_error` raises on text it cannot take apart. */
  datatype SyntaxParseError =
    | NoComma                   // `syntax_err.index(',')`: ValueError
    | MissingField              // a list subscript past the end: IndexError
    | NoDigits                  // `int('')`: ValueError
    | LineOutOfRange(index: int) // `read_source(...)[lineno - 1]`: IndexError

  datatype SyntaxDetail = SyntaxDetail(title: string, lineno: nat, code: string, pointer: string, message: string)

  /** The caret line of the two dialects that read the code from the script. */
  const FixedPointer := "    ^"

  /** `extract_digits`. */
  function Digits(s: string): Result<nat, SyntaxParseError> {
    match ExtractDigits(s)
    case None => Failure(NoDigits)
    case Some(n) => Success(n)
  }

  /** `read_source(...)[lineno - 1]`; line 0 reads the last line, as Python's
      negative subscript does. */
  function SourceLine(source: seq<string>, lineno: nat): Result<string, SyntaxParseError> {
    match PyIndex(source, lineno - 1)
    case None => Failure(LineOutOfRange(lineno - 1))
    case Some(line) => Success(line)
  }

  function Last<T>(s: seq<T>): T
    requires |s| > 0
  {
    s[|s| - 1]
  }

  /** The TabError branch: the line number is the digits after the last
      comma following the first parenthesis, the message what lies between
      the tag and that parenthesis. */
  function ParseTab(err: string, source: seq<string>): (r: Result<SyntaxDetail, SyntaxParseError>)
    ensures r.Success? ==> && r.value.title == "TabError" && r.value.pointer == FixedPointer
                           && SourceLine(source, r.value.lineno).Success?
                           && r.value.code == Strip(SourceLine(source, r.value.lineno).value)
    ensures r.Failure? ==> r.error == NoDigits || r.error.LineOutOfRange?
  {
    var pieces := Split(err, '(');
    var lineno :- Digits(Last(Split(Last(pieces), ',')));
    var line :- SourceLine(source, lineno);
    Success(SyntaxDetail("TabError", lineno, Strip(line), FixedPointer, Strip(Drop(pieces[0], 16))))
  }

  /** The generic branch: the lines after the first comma are the location,
      the code, the carets and the message. */
  function ParseGeneric(err: string): (r: Result<SyntaxDetail, SyntaxParseError>)
    ensures r == Failure(NoComma) <==> ',' !in err
    ensures r.Success? ==> r.value.title == "SyntaxError"
    ensures r.Failure? ==> !r.error.LineOutOfRange?
  {
    match IndexOf(err, ',')
    case None => Failure(NoComma)
    case Some(comma) =>
      var lines := Split(Drop(err, comma + 2), '\n');
      var words := Words(lines[0]);
      if |words| == 0 then Failure(MissingField)
      else
        var lineno :- Digits(Last(words));
        if |lines| < 4 then Failure(MissingField)
        else Success(SyntaxDetail("SyntaxError", lineno, Strip(lines[1]), lines[2], Drop(lines[3], 13)))
  }

  /** The IndentationError branch: the line number is the last word of the
      text after the last comma, less its final character; the message is the
      third colon-separated field up to its first parenthesis. */
  function ParseIndentation(err: string, source: seq<string>): (r: Result<SyntaxDetail, SyntaxParseError>)
    ensures r.Success? ==> && r.value.title == "IndentationError" && r.value.pointer == FixedPointer
                           && SourceLine(source, r.value.lineno).Success?
                           && r.value.code == Strip(SourceLine(source, r.value.lineno).value)
    ensures r.Failure? ==> r.error != NoComma
  {
    var words := Words(DropLast(Last(Split(err, ','))));
    if |words| == 0 then Failure(MissingField)
    else
      var lineno :- Digits(Last(words));
      var line :- SourceLine(source, lineno);
      var fields := Split(err, ':');
      if |fields| < 3 then Failure(MissingField)
      else Success(SyntaxDetail("IndentationError", lineno, Strip(line), FixedPointer, Strip(Split(fields[2], '(')[0])))
  }

  /** The three branches of `display_syntax_error` up to the panel, each in
      the order Python evaluates its subscripts and conversions. */
  function ParseSyntaxError(err: string, source: seq<string>): (r: Result<SyntaxDetail, SyntaxParseError>)
    ensures r.Success? ==> (r.value.title == "TabError" <==> StartsWith(err, TabPrefix))
    ensures r.Success? ==> (r.value.title == "SyntaxError" <==> DialectOf(err) == GenericDialect)
    ensures r.Success? && r.value.title != "SyntaxError" ==>
      && r.value.pointer == FixedPointer && SourceLine(source, r.value.lineno).Success?
      && r.value.code == Strip(SourceLine(source, r.value.lineno).value)
    ensures r == Failure(NoComma) ==> DialectOf(err) == GenericDialect
  {
    match DialectOf(err)
    case TabDialect => ParseTab(err, source)
    case GenericDialect => ParseGeneric(err)
    case IndentationDialect => ParseIndentation(err, source)
  }

  /** The panel: the code shown at its line number, the caret line pushed
      right by one blank per extra digit of a two-or-more-digit line number,
      and the message capitalized. */
  datatype SyntaxPanel = SyntaxPanel(title: string, code: string, startLine: nat, pointerRow: string, message: string)

  function DisplaySyntaxError(err: string, source: seq<string>): (r: Result<SyntaxPanel, SyntaxParseError>)
    ensures r.Success? <==> ParseSyntaxError(err, source).Success?
    ensures r.Failure? ==> r.error == ParseSyntaxError(err, source).error
    ensures r.Success? ==> && r.value.title == ParseSyntaxError(err, source).value.title
                           && r.value.startLine == ParseSyntaxError(err, source).value.lineno
                           && r.value.code == ParseSyntaxError(err, source).value.code
  {
    var d :- ParseSyntaxError(err, source);
    Success(SyntaxPanel(d.title, d.code, d.lineno, Repeat(' ', GutterPad(d.lineno)) + d.pointer, Capitalize(d.message)))
  }
}
