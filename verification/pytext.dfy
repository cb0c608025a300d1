/**
 * The handful of Python `str` and `list` operations the report code leans on:
 * `split`, `strip`, slicing, negative subscripts, `str(int)`, `int(...)` of the
 * digits of a string and `re.search('\S', ...)`.  Each is written so that its
 * edge cases (empty pieces, an index past the end, no digits at all) behave as
 * in CPython.
 */
module PyText {
  import opened Wrappers

  /** Python's `str.isspace()`: the ASCII controls TAB..CR, the separators
      0x1C..0x1F, and the Unicode space characters. */
  predicate IsSpace(c: char) {
    || c == ' '
    || ('\t' <= c <= '\r')
    || ('\U{1c}' <= c <= '\U{1f}')
    || c == '\U{85}' || c == '\U{a0}' || c == '\U{1680}'
    || ('\U{2000}' <= c <= '\U{200a}')
    || c == '\U{2028}' || c == '\U{2029}' || c == '\U{202f}' || c == '\U{205f}' || c == '\U{3000}'
  }

  /** An ASCII decimal digit. */
  predicate IsDigit(c: char) {
    '0' <= c <= '9'
  }

  predicate AllDigits(s: string) {
    forall i :: 0 <= i < |s| ==> IsDigit(s[i])
  }

  predicate NoDigits(s: string) {
    forall i :: 0 <= i < |s| ==> !IsDigit(s[i])
  }

  predicate NoSpaces(s: string) {
    forall i :: 0 <= i < |s| ==> !IsSpace(s[i])
  }

  /** `s.startswith(prefix)` */
  predicate StartsWith(s: string, prefix: string) {
    |prefix| <= |s| && s[..|prefix|] == prefix
  }

  /** `s.endswith(suffix)` */
  predicate EndsWith(s: string, suffix: string) {
    |suffix| <= |s| && s[|s| - |suffix|..] == suffix
  }

  /** `s[k:]`: a start past the end gives the empty string. */
  function Drop(s: string, k: nat): string {
    if k >= |s| then [] else s[k..]
  }

  /** `s[:-1]`: the empty string stays empty. */
  function DropLast(s: string): string {
    if |s| == 0 then [] else s[..|s| - 1]
  }

  /** `s[i]` on a Python list: a negative index counts from the end, anything
      else out of range raises IndexError (None). */
  function PyIndex<T>(s: seq<T>, i: int): Option<T> {
    if 0 <= i < |s| then Some(s[i])
    else if -|s| <= i < 0 then Some(s[|s| + i])
    else None
  }

  /** The length of `c * k`: Python repeats a negative number of times as zero. */
  function Clamp(k: int): nat {
    if k < 0 then 0 else k
  }

  function Repeat(c: char, k: nat): (r: string)
    ensures |r| == k
  {
    seq(k, _ => c)
  }

  // ---------------------------------------------------------------- numerals

  function DigitChar(d: nat): char
    requires d < 10
  {
    ('0' as int + d) as char
  }

  /** `str(n)` for a non-negative integer. */
  function NatToString(n: nat): (s: string)
    ensures |s| > 0 && AllDigits(s)
    ensures |s| >= 2 <==> n >= 10
  {
    if n < 10 then [DigitChar(n)] else NatToString(n / 10) + [DigitChar(n % 10)]
  }

  /** `str(n)` for any integer. */
  function IntToString(n: int): string {
    if n < 0 then "-" + NatToString(-n) else NatToString(n)
  }

  /** The value of a string of decimal digits, read most significant first. */
  function DecimalValue(d: string): nat
    requires AllDigits(d)
  {
    if |d| == 0 then 0 else DecimalValue(d[..|d| - 1]) * 10 + (d[|d| - 1] as int - '0' as int)
  }

  /** The digit characters of `s`, in order. */
  function DigitsOf(s: string): (d: string)
    ensures AllDigits(d)
    ensures |d| == 0 <==> NoDigits(s)
  {
    if |s| == 0 then [] else (if IsDigit(s[0]) then [s[0]] else []) + DigitsOf(s[1..])
  }

  /** `int(''.join(c for c in s if c.isdigit()))`; `int('')` raises ValueError,
      which is None here. */
  function ExtractDigits(s: string): Option<nat> {
    var d := DigitsOf(s);
    if |d| == 0 then None else Some(DecimalValue(d))
  }

  /** A numeral holds no whitespace and none of the separators the
      diagnostics are split on. */
  lemma NumeralChars(n: nat)
    ensures NoSpaces(NatToString(n))
    ensures forall c :: c in NatToString(n) ==> IsDigit(c)
  {
  }

  /** Reading back what `str(n)` printed gives `n`. */
  lemma {:induction false} DecimalValueOfNatToString(n: nat)
    ensures DecimalValue(NatToString(n)) == n
  {
    if n >= 10 {
      var s := NatToString(n / 10);
      DecimalValueOfNatToString(n / 10);
      assert (s + [DigitChar(n % 10)])[..|s|] == s;
    }
  }

  lemma {:induction false} DigitsOfAppend(a: string, b: string)
    ensures DigitsOf(a + b) == DigitsOf(a) + DigitsOf(b)
  {
    if |a| == 0 {
      assert a + b == b;
    } else {
      var h := if IsDigit(a[0]) then [a[0]] else [];
      assert (a + b)[0] == a[0] && (a + b)[1..] == a[1..] + b;
      assert DigitsOf(a + b) == h + DigitsOf(a[1..] + b);
      DigitsOfAppend(a[1..], b);
      assert DigitsOf(a) == h + DigitsOf(a[1..]);
      assert h + (DigitsOf(a[1..]) + DigitsOf(b)) == (h + DigitsOf(a[1..])) + DigitsOf(b);
    }
  }

  lemma {:induction false} DigitsOfDigits(s: string)
    requires AllDigits(s)
    ensures DigitsOf(s) == s
  {
    if |s| > 0 {
      DigitsOfDigits(s[1..]);
    }
  }

  lemma {:induction false} DigitsOfNone(s: string)
    requires NoDigits(s)
    ensures DigitsOf(s) == []
  {
  }

  /** Digit extraction recovers a number printed between two digit-free strings. */
  lemma ExtractDigitsOfNumeral(a: string, n: nat, b: string)
    requires NoDigits(a) && NoDigits(b)
    ensures ExtractDigits(a + NatToString(n) + b) == Some(n)
  {
    var s := NatToString(n);
    assert DigitsOf(a + s + b) == s by {
      assert DigitsOf(a + s + b) == DigitsOf(a + s) + DigitsOf(b) by {
        DigitsOfAppend(a + s, b);
      }
      assert DigitsOf(a + s) == DigitsOf(a) + DigitsOf(s) by {
        DigitsOfAppend(a, s);
      }
      DigitsOfNone(a);
      DigitsOfNone(b);
      DigitsOfDigits(s);
      assert [] + s + [] == s;
    }
    DecimalValueOfNatToString(n);
  }

  // ------------------------------------------------------------------- split

  /** `s.split(sep)` for a one-character separator: one more piece than there
      are separators, empty pieces kept. */
  function Split(s: string, sep: char): (parts: seq<string>)
    ensures |parts| >= 1
    ensures forall i :: 0 <= i < |parts| ==> sep !in parts[i]
    decreases |s|
  {
    if |s| == 0 then [""]
    else
      var rest := Split(s[1..], sep);
      if s[0] == sep then [""] + rest
      else [[s[0]] + rest[0]] + rest[1..]
  }

  /** `sep.join(parts)` */
  function Join(parts: seq<string>, sep: char): string {
    if |parts| == 0 then ""
    else if |parts| == 1 then parts[0]
    else parts[0] + [sep] + Join(parts[1..], sep)
  }

  /** Splitting and re-joining with the same separator gives back the text. */
  lemma {:induction false} SplitJoin(s: string, sep: char)
    ensures Join(Split(s, sep), sep) == s
  {
    if |s| > 0 {
      var rest := Split(s[1..], sep);
      SplitJoin(s[1..], sep);
      if s[0] == sep {
        assert Split(s, sep) == [""] + rest;
        assert ([""] + rest)[1..] == rest;
      } else {
        var parts := Split(s, sep);
        assert parts == [[s[0]] + rest[0]] + rest[1..];
        if |rest| == 1 {
          assert parts == [[s[0]] + rest[0]];
        } else {
          assert parts[1..] == rest[1..];
          assert Join(rest, sep) == rest[0] + [sep] + Join(rest[1..], sep);
        }
      }
    }
  }

  lemma {:induction false} SplitNoSep(a: string, sep: char)
    requires sep !in a
    ensures Split(a, sep) == [a]
  {
    if |a| > 0 {
      SplitNoSep(a[1..], sep);
      assert a[0] != sep;
      assert [a[0]] + a[1..] == a;
    }
  }

  lemma {:induction false} SplitAtSep(a: string, sep: char, b: string)
    requires sep !in a
    ensures Split(a + [sep] + b, sep) == [a] + Split(b, sep)
  {
    var s := a + [sep] + b;
    if |a| == 0 {
      assert s[1..] == b;
    } else {
      assert s[0] == a[0] && a[0] != sep;
      assert s[1..] == a[1..] + [sep] + b;
      SplitAtSep(a[1..], sep, b);
      var rest := Split(s[1..], sep);
      assert rest[0] == a[1..] && rest[1..] == Split(b, sep);
      assert [a[0]] + a[1..] == a;
    }
  }

  /** A separator-free prefix runs into the first piece; the later pieces
      are those of the rest. */
  lemma {:induction false} SplitHeadAppend(a: string, sep: char, b: string)
    requires sep !in a
    ensures Split(a + b, sep)[0] == a + Split(b, sep)[0]
    ensures Split(a + b, sep)[1..] == Split(b, sep)[1..]
    decreases |a|
  {
    if |a| == 0 {
      assert a + b == b;
    } else {
      var s := a + b;
      assert s[0] == a[0] && a[0] != sep;
      assert s[1..] == a[1..] + b;
      SplitHeadAppend(a[1..], sep, b);
      assert [a[0]] + a[1..] == a;
    }
  }

  /** The last piece is whatever follows the last separator. */
  lemma {:induction false} SplitLast(a: string, sep: char, b: string)
    requires sep !in b
    ensures |Split(a + [sep] + b, sep)| >= 2
    ensures Split(a + [sep] + b, sep)[|Split(a + [sep] + b, sep)| - 1] == b
    decreases |a|
  {
    var s := a + [sep] + b;
    if |a| == 0 {
      assert s[0] == sep && s[1..] == b;
      SplitNoSep(b, sep);
    } else {
      assert s[0] == a[0];
      assert s[1..] == a[1..] + [sep] + b;
      SplitLast(a[1..], sep, b);
    }
  }

  /** Joining separator-free pieces and splitting again gives back the pieces. */
  lemma {:induction false} JoinSplit(parts: seq<string>, sep: char)
    requires |parts| >= 1
    requires forall i :: 0 <= i < |parts| ==> sep !in parts[i]
    ensures Split(Join(parts, sep), sep) == parts
  {
    if |parts| == 1 {
      SplitNoSep(parts[0], sep);
    } else {
      JoinSplit(parts[1..], sep);
      SplitAtSep(parts[0], sep, Join(parts[1..], sep));
    }
  }

  // ------------------------------------------------------------------- words

  /** `s.split()`: the maximal runs of non-whitespace characters. */
  function Words(s: string): (words: seq<string>)
    ensures forall i :: 0 <= i < |words| ==> |words[i]| > 0 && NoSpaces(words[i])
    ensures |s| > 0 && !IsSpace(s[0]) ==> |words| > 0 && words[0][0] == s[0]
    decreases |s|
  {
    if |s| == 0 then []
    else if IsSpace(s[0]) then Words(s[1..])
    else
      var rest := Words(s[1..]);
      if |s| > 1 && !IsSpace(s[1]) then [[s[0]] + rest[0]] + rest[1..]
      else [[s[0]]] + rest
  }

  lemma {:induction false} WordsOfWordThenSpace(w: string, s: string)
    requires |w| > 0 && NoSpaces(w)
    requires |s| == 0 || IsSpace(s[0])
    ensures Words(w + s) == [w] + Words(s)
  {
    var t := w + s;
    assert t[0] == w[0] && !IsSpace(t[0]);
    assert t[1..] == w[1..] + s;
    if |w| > 1 {
      assert t[1] == w[1] && !IsSpace(t[1]);
      WordsOfWordThenSpace(w[1..], s);
      var rest := Words(t[1..]);
      assert rest == [w[1..]] + Words(s);
      assert Words(t) == [[t[0]] + rest[0]] + rest[1..];
      assert [w[0]] + w[1..] == w;
    } else {
      assert w == [w[0]] && t[1..] == s;
      assert |t| > 1 ==> IsSpace(t[1]);
      assert Words(t) == [[t[0]]] + Words(t[1..]);
    }
  }

  /** Leading whitespace starts no word. */
  lemma WordsAfterSpace(s: string)
    ensures Words([' '] + s) == Words(s)
  {
    assert ([' '] + s)[1..] == s;
  }

  /** Words separated by single blanks are split back into the same words. */
  lemma {:induction false} WordsOfJoin(ws: seq<string>)
    requires forall i :: 0 <= i < |ws| ==> |ws[i]| > 0 && NoSpaces(ws[i])
    ensures Words(Join(ws, ' ')) == ws
  {
    if |ws| == 1 {
      WordsOfWordThenSpace(ws[0], "");
      assert ws[0] + "" == ws[0];
    } else if |ws| > 1 {
      var rest := Join(ws[1..], ' ');
      var t := [' '] + rest;
      assert Join(ws, ' ') == ws[0] + t;
      WordsOfJoin(ws[1..]);
      WordsOfWordThenSpace(ws[0], t);
      assert t[0] == ' ' && t[1..] == rest;
      assert Words(t) == Words(rest);
      assert [ws[0]] + ws[1..] == ws;
    }
  }

  // ------------------------------------------------------------------- strip

  function StripLeft(s: string): (r: string)
    ensures |r| <= |s| && r == s[|s| - |r|..]
    ensures |r| == 0 || !IsSpace(r[0])
    ensures forall i :: 0 <= i < |s| - |r| ==> IsSpace(s[i])
    decreases |s|
  {
    if |s| > 0 && IsSpace(s[0]) then StripLeft(s[1..]) else s
  }

  function StripRight(s: string): (r: string)
    ensures |r| <= |s| && r == s[..|r|]
    ensures |r| == 0 || !IsSpace(r[|r| - 1])
    ensures forall i :: |r| <= i < |s| ==> IsSpace(s[i])
    decreases |s|
  {
    if |s| > 0 && IsSpace(s[|s| - 1]) then StripRight(s[..|s| - 1]) else s
  }

  /** `s.strip()` */
  function Strip(s: string): string {
    StripRight(StripLeft(s))
  }

  /** No whitespace at either end. */
  predicate IsStripped(s: string) {
    |s| == 0 || (!IsSpace(s[0]) && !IsSpace(s[|s| - 1]))
  }

  lemma StripPadded(m: string)
    requires IsStripped(m)
    ensures Strip(" " + m + " ") == m
  {
    var s := [' '] + (m + [' ']);
    assert " " + m + " " == s;
    assert s[0] == ' ' && s[1..] == m + [' '];
    assert StripLeft(s) == StripLeft(m + [' ']);
    if |m| == 0 {
      assert m + [' '] == [' '] && [' '][1..] == [];
      assert StripLeft(m + [' ']) == StripLeft([]);
    } else {
      assert (m + [' '])[0] == m[0];
      assert StripLeft(m + [' ']) == m + [' '];
    }
    var t := m + [' '];
    assert t[|t| - 1] == ' ' && t[..|t| - 1] == m;
    assert StripRight(t) == StripRight(m);
  }

  /** `re.search('\S', s).start()`: the index of the first non-whitespace
      character; a blank string has none (`re.search` returns None). */
  function FirstNonSpace(s: string): (r: Option<nat>)
    ensures r.Some? ==> r.value < |s| && !IsSpace(s[r.value])
    ensures r.Some? ==> forall j :: 0 <= j < r.value ==> IsSpace(s[j])
    ensures r.None? ==> forall j :: 0 <= j < |s| ==> IsSpace(s[j])
    decreases |s|
  {
    if |s| == 0 then None
    else if !IsSpace(s[0]) then Some(0)
    else match FirstNonSpace(s[1..])
      case None => None
      case Some(k) => Some(k + 1)
  }

  /** `s.index(c)`: the first occurrence, or ValueError (None). */
  function IndexOf(s: string, c: char): (r: Option<nat>)
    ensures r.Some? ==> r.value < |s| && s[r.value] == c && c !in s[..r.value]
    ensures r.None? ==> c !in s
    decreases |s|
  {
    if |s| == 0 then None
    else if s[0] == c then Some(0)
    else match IndexOf(s[1..], c)
      case None => None
      case Some(k) =>
        assert s[..k + 1] == [s[0]] + s[1..][..k];
        Some(k + 1)
  }

  /** `index` finds the separator that ends a separator-free prefix. */
  lemma {:induction false} IndexOfFirst(a: string, c: char, b: string)
    requires c !in a
    ensures IndexOf(a + [c] + b, c) == Some(|a|)
    decreases |a|
  {
    var s := a + [c] + b;
    if |a| > 0 {
      assert s[0] == a[0];
      assert s[1..] == a[1..] + [c] + b;
      IndexOfFirst(a[1..], c, b);
    }
  }

  // ------------------------------------------------------------------ casing

  function ToUpper(c: char): char {
    if 'a' <= c <= 'z' then (c as int - 32) as char else c
  }

  function ToLower(c: char): char {
    if 'A' <= c <= 'Z' then (c as int + 32) as char else c
  }

  /** `s.capitalize()` on ASCII letters: first character upper case, the rest lower case. */
  function Capitalize(s: string): string {
    if |s| == 0 then [] else [ToUpper(s[0])] + seq(|s| - 1, i requires 0 <= i < |s| - 1 => ToLower(s[i + 1]))
  }
}
