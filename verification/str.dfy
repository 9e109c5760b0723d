/** The string utilities of the transpiler: `normalizeLineEndings`,
    `splitFirstLine`, `tryParseInt`, `indent` and `dedent`. The block
    splitter `textToStrBlocks` lives in module `Blocks`. */
module Str {
  import opened Chars
  import Wrappers

  // ---------------------------------------------------------------------
  // normalizeLineEndings

  /** `normalizeLineEndings`: deletes every carriage return. */
  function NormalizeLineEndings(text: string): (r: string)
    ensures '\r' !in r
    ensures '\r' !in text ==> r == text
    ensures |r| <= |text|
  {
    if |text| == 0 then []
    else (if text[0] == '\r' then [] else [text[0]]) + NormalizeLineEndings(text[1..])
  }

  /** Normalisation works character by character: it distributes over
      concatenation, so it keeps every other character in its place. */
  lemma {:induction false} NormalizeConcat(a: string, b: string)
    ensures NormalizeLineEndings(a + b) == NormalizeLineEndings(a) + NormalizeLineEndings(b)
    decreases |a|
  {
    if |a| > 0 {
      NormalizeConcat(a[1..], b);
      assert (a + b)[0] == a[0];
      assert (a + b)[1..] == a[1..] + b;
      var h := if a[0] == '\r' then [] else [a[0]];
      calc {
        NormalizeLineEndings(a + b);
        h + NormalizeLineEndings(a[1..] + b);
        h + (NormalizeLineEndings(a[1..]) + NormalizeLineEndings(b));
        (h + NormalizeLineEndings(a[1..])) + NormalizeLineEndings(b);
      }
    } else {
      assert a + b == b;
    }
  }

  lemma NormalizeIdempotent(s: string)
    ensures NormalizeLineEndings(NormalizeLineEndings(s)) == NormalizeLineEndings(s)
  {
  }

  // ---------------------------------------------------------------------
  // splitFirstLine

  datatype FirstLine = FirstLine(firstLine: string, restText: string)

  /** `splitFirstLine`: the text up to the first `\n`, and everything
      after it. */
  function SplitFirstLine(text: string): (r: FirstLine)
    ensures '\n' !in r.firstLine
    ensures '\n' in text ==> r.firstLine + "\n" + r.restText == text
    ensures '\n' !in text ==> r.firstLine == text && r.restText == []
  {
    var parts := SplitOn(text, '\n');
    JoinSplit(text, '\n');
    assert parts == [parts[0]] + parts[1..];
    if |parts| > 1 then
      JoinCons(parts[0], parts[1..], "\n");
      FirstLine(parts[0], Join(parts[1..], "\n"))
    else
      FirstLine(parts[0], Join(parts[1..], "\n"))
  }

  lemma JoinCons(x: string, xs: seq<string>, sep: string)
    requires |xs| > 0
    ensures Join([x] + xs, sep) == x + sep + Join(xs, sep)
  {
    assert ([x] + xs)[1..] == xs;
  }

  // ---------------------------------------------------------------------
  // tryParseInt, following `parseInt` (section 19.2.5 of ECMA-262)

  /** What `tryParseInt` returns: the parsed integer, or the text itself
      when `parseInt` gives NaN. */
  datatype IntOrText = Int(n: int) | Text(s: string)

  predicate IsDecDigit(c: char) {
    '0' <= c <= '9'
  }

  predicate IsDigitIn(c: char, radix: nat) {
    if radix == 16 then IsDecDigit(c) || ('a' <= c <= 'f') || ('A' <= c <= 'F')
    else IsDecDigit(c)
  }

  function DigitValue(c: char): nat {
    if IsDecDigit(c) then c as int - '0' as int
    else if 'a' <= c <= 'f' then c as int - 'a' as int + 10
    else if 'A' <= c <= 'F' then c as int - 'A' as int + 10
    else 0
  }

  /** Length of the longest prefix of digits valid in `radix`. */
  function DigitPrefix(s: string, radix: nat): (n: nat)
    ensures n <= |s|
    ensures forall i :: 0 <= i < n ==> IsDigitIn(s[i], radix)
    ensures n < |s| ==> !IsDigitIn(s[n], radix)
  {
    if |s| > 0 && IsDigitIn(s[0], radix) then 1 + DigitPrefix(s[1..], radix) else 0
  }

  /** The number a digit string denotes, most significant digit first. */
  function DigitsValue(s: string, radix: nat): nat
  {
    if |s| == 0 then 0 else DigitsValue(s[..|s| - 1], radix) * radix + DigitValue(s[|s| - 1])
  }

  /** The digits after the sign: an optional `0x`/`0X` selecting base 16,
      then the longest digit prefix; `None` when that prefix is empty. */
  function ParseUnsigned(s1: string): (r: Wrappers.Option<nat>)
  {
    var hex := |s1| >= 2 && s1[0] == '0' && (s1[1] == 'x' || s1[1] == 'X');
    var radix := if hex then 16 else 10;
    var s2 := if hex then s1[2..] else s1;
    var n := DigitPrefix(s2, radix);
    if n == 0 then Wrappers.None else Wrappers.Some(DigitsValue(s2[..n], radix))
  }

  /** `parseInt(text)` without a radix: leading whitespace, an optional
      sign, then the unsigned part; `None` stands for NaN. */
  function ParseInt(text: string): (r: Wrappers.Option<int>)
  {
    var s := TrimStart(text);
    if |s| > 0 && s[0] == '-' then
      match ParseUnsigned(s[1..])
      case Some(v) => Wrappers.Some(-(v as int))
      case None => Wrappers.None
    else if |s| > 0 && s[0] == '+' then
      match ParseUnsigned(s[1..])
      case Some(v) => Wrappers.Some(v)
      case None => Wrappers.None
    else
      match ParseUnsigned(s)
      case Some(v) => Wrappers.Some(v)
      case None => Wrappers.None
  }

  /** `tryParseInt`: the parsed integer, or the unchanged text. */
  function TryParseInt(text: string): (r: IntOrText)
    ensures r.Text? ==> r.s == text
    ensures r.Int? <==> ParseInt(text).Some?
    ensures r.Int? ==> r.n == ParseInt(text).value
  {
    match ParseInt(text)
    case Some(n) => Int(n)
    case None => Text(text)
  }

  lemma {:induction false} NatToStringDigits(n: nat)
    ensures forall i :: 0 <= i < |NatToString(n)| ==> IsDecDigit(NatToString(n)[i])
    ensures DigitsValue(NatToString(n), 10) == n
    ensures |NatToString(n)| > 1 ==> NatToString(n)[0] != '0'
    decreases n
  {
    if n >= 10 {
      NatToStringDigits(n / 10);
      var p := NatToString(n / 10);
      var s := p + [DigitChar(n % 10)];
      assert s[..|s| - 1] == p;
      assert s[0] == p[0];
    }
  }

  lemma DigitPrefixAll(s: string, t: string, radix: nat)
    requires forall i :: 0 <= i < |s| ==> IsDigitIn(s[i], radix)
    requires |t| > 0 ==> !IsDigitIn(t[0], radix)
    ensures DigitPrefix(s + t, radix) == |s|
    decreases |s|
  {
    if |s| > 0 {
      assert (s + t)[1..] == s[1..] + t;
      DigitPrefixAll(s[1..], t, radix);
    }
  }

  /** `tryParseInt` reads back the decimal rendering of any integer, and
      stops at the first character that is not a digit: `"12abc"` gives
      12. A `0` followed by `x` would switch to base 16, so that case is
      excluded. */
  lemma ParseUnsignedDigits(m: nat, rest: string)
    requires |rest| > 0 ==> !IsDecDigit(rest[0])
    requires m == 0 && |rest| > 0 ==> rest[0] != 'x' && rest[0] != 'X'
    ensures ParseUnsigned(NatToString(m) + rest) == Wrappers.Some(m)
  {
    var d := NatToString(m);
    NatToStringDigits(m);
    var s1 := d + rest;
    assert !(|s1| >= 2 && s1[0] == '0' && (s1[1] == 'x' || s1[1] == 'X')) by {
      if |d| > 1 {
        assert s1[0] == d[0];
      } else if |s1| >= 2 && s1[0] == '0' {
        assert d == "0" && m == 0;
        assert s1[1] == rest[0];
      }
    }
    DigitPrefixAll(d, rest, 10);
    assert s1[..|d|] == d;
  }

  lemma TryParseIntPrefix(n: int, rest: string)
    requires |rest| > 0 ==> !IsDecDigit(rest[0])
    requires n == 0 && |rest| > 0 ==> rest[0] != 'x' && rest[0] != 'X'
    ensures TryParseInt(IntToString(n) + rest) == Int(n)
  {
    if n < 0 {
      ParseNegative(-n, rest);
    } else {
      ParseNonNegative(n, rest);
    }
  }

  lemma ParseNegative(m: nat, rest: string)
    requires m > 0 && (|rest| > 0 ==> !IsDecDigit(rest[0]))
    ensures ParseInt(IntToString(-(m as int)) + rest) == Wrappers.Some(-(m as int))
  {
    var u := NatToString(m) + rest;
    var text := "-" + u;
    assert IntToString(-(m as int)) + rest == text;
    assert text[1..] == u;
    ParseUnsignedDigits(m, rest);
    ParseMinus(text, m);
  }

  lemma ParseMinus(text: string, v: nat)
    requires |text| > 0 && text[0] == '-' && ParseUnsigned(text[1..]) == Wrappers.Some(v)
    ensures ParseInt(text) == Wrappers.Some(-(v as int))
  {
    assert LeadingWhitespace(text) == 0;
    assert TrimStart(text) == text;
  }

  lemma ParseNonNegative(m: nat, rest: string)
    requires |rest| > 0 ==> !IsDecDigit(rest[0])
    requires m == 0 && |rest| > 0 ==> rest[0] != 'x' && rest[0] != 'X'
    ensures ParseInt(IntToString(m) + rest) == Wrappers.Some(m)
  {
    var d := NatToString(m);
    NatToStringDigits(m);
    var text := IntToString(m) + rest;
    assert text == d + rest;
    assert text[0] == d[0] && IsDecDigit(text[0]);
    assert LeadingWhitespace(text) == 0;
    assert TrimStart(text) == text;
    ParseUnsignedDigits(m, rest);
  }

  /** Text with no digits where `parseInt` looks for them comes back as
      itself, including the empty text. */
  lemma TryParseIntNaNFixtures()
    ensures TryParseInt("") == Text("")
    ensures TryParseInt("test") == Text("test")
  {
    assert LeadingWhitespace("test") == 0;
    assert DigitPrefix("test", 10) == 0;
  }

  /** Decimal text with an optional minus sign. */
  lemma TryParseIntDecimalFixture()
    ensures TryParseInt("0") == Int(0)
    ensures TryParseInt("123") == Int(123)
  {
    assert NatToString(0) == "0";
    TryParseIntPrefix(0, "");
    assert IntToString(0) + "" == "0";
    assert NatToString(123) == "123";
    TryParseIntPrefix(123, "");
    assert IntToString(123) + "" == "123";
  }

  lemma TryParseIntNegativeFixture()
    ensures TryParseInt("-123") == Int(-123)
  {
    assert NatToString(123) == "123";
    TryParseIntPrefix(-123, "");
    assert IntToString(-123) + "" == "-123";
  }

  /** A numeric prefix is read as `parseInt` reads it. */
  lemma TryParseIntPrefixFixture()
    ensures TryParseInt("12abc") == Int(12)
  {
    assert NatToString(12) == "12";
    TryParseIntPrefix(12, "abc");
    assert IntToString(12) + "abc" == "12abc";
  }

  // ---------------------------------------------------------------------
  // indent

  /** Index of the first line terminator, or `|s|`. */
  function LineEnd(s: string): (i: nat)
    ensures i <= |s|
    ensures i < |s| ==> IsLineTerminator(s[i])
    ensures forall j :: 0 <= j < i ==> !IsLineTerminator(s[j])
  {
    if |s| == 0 then 0 else if IsLineTerminator(s[0]) then 0 else 1 + LineEnd(s[1..])
  }

  /** The lines of a text, split at every line terminator. */
  function Lines(s: string): (ls: seq<string>)
    ensures |ls| >= 1
    ensures forall k :: 0 <= k < |ls| ==> forall j :: 0 <= j < |ls[k]| ==> !IsLineTerminator(ls[k][j])
    decreases |s|
  {
    var i := LineEnd(s);
    if i == |s| then [s] else [s[..i]] + Lines(s[i + 1..])
  }

  /** What the `indent` replacement does to one line: a line holding
      something other than whitespace gets `size` spaces in front. */
  function IndentLine(line: string, size: nat): string {
    if HasNonWhitespace(line) then Spaces(size) + line else line
  }

  /** `indent(text, size)`: the replacement of `/^(.+)$/gm` applied to
      each maximal run of characters between line terminators. */
  function Indent(text: string, size: nat): string
    decreases |text|
  {
    var i := LineEnd(text);
    if i == |text| then IndentLine(text, size)
    else IndentLine(text[..i], size) + [text[i]] + Indent(text[i + 1..], size)
  }

  /** `indent` prefixes `size` spaces to every line holding something
      other than whitespace, leaves the other lines alone, and keeps the
      number of lines. */
  lemma {:induction false} IndentLines(text: string, size: nat)
    ensures |Lines(Indent(text, size))| == |Lines(text)|
    ensures forall k :: 0 <= k < |Lines(text)| ==> Lines(Indent(text, size))[k] == IndentLine(Lines(text)[k], size)
    decreases |text|
  {
    var i := LineEnd(text);
    var line := IndentLine(text[..i], size);
    assert forall j :: 0 <= j < |line| ==> !IsLineTerminator(line[j]);
    if i == |text| {
      assert text[..i] == text;
      NoTerminatorLines(line);
    } else {
      var rest := Indent(text[i + 1..], size);
      IndentLines(text[i + 1..], size);
      LinesCons(line, text[i], rest);
      assert Indent(text, size) == line + [text[i]] + rest;
    }
  }

  lemma NoTerminatorLines(line: string)
    requires forall j :: 0 <= j < |line| ==> !IsLineTerminator(line[j])
    ensures Lines(line) == [line]
  {
    assert LineEnd(line) == |line|;
  }

  lemma LinesCons(line: string, t: char, rest: string)
    requires IsLineTerminator(t)
    requires forall j :: 0 <= j < |line| ==> !IsLineTerminator(line[j])
    ensures Lines(line + [t] + rest) == [line] + Lines(rest)
  {
    var s := line + [t] + rest;
    assert s == line + ([t] + rest);
    LineEndPrefix(line, [t] + rest);
    assert LineEnd(s) == |line|;
    assert s[..|line|] == line;
    assert s[|line| + 1..] == rest;
  }

  lemma LineEndPrefix(a: string, b: string)
    requires forall j :: 0 <= j < |a| ==> !IsLineTerminator(a[j])
    requires |b| > 0 && IsLineTerminator(b[0])
    ensures LineEnd(a + b) == |a|
    decreases |a|
  {
    if |a| > 0 {
      assert (a + b)[1..] == a[1..] + b;
      LineEndPrefix(a[1..], b);
    }
  }

  // ---------------------------------------------------------------------
  // dedent

  /** Indentation of the first line holding something other than
      whitespace, or 0 when there is none. */
  function FirstIndent(lines: seq<string>): nat
  {
    if |lines| == 0 then 0
    else if HasNonWhitespace(lines[0]) then LeadingWhitespace(lines[0])
    else FirstIndent(lines[1..])
  }

  /** What `dedent` does to one line, given the reference indentation. */
  function DedentLine(line: string, d: nat): string {
    if !HasNonWhitespace(line) then line
    else if LeadingWhitespace(line) >= d then line[d..]
    else Trim(line)
  }

  function DedentLines(lines: seq<string>, d: nat): (r: seq<string>)
    ensures |r| == |lines|
    ensures forall k :: 0 <= k < |lines| ==> r[k] == DedentLine(lines[k], d)
  {
    seq(|lines|, k requires 0 <= k < |lines| => DedentLine(lines[k], d))
  }

  /** `dedent`: removes the first non-blank line's indentation from every
      line indented at least that much, trims lines indented less, keeps
      blank lines, and leaves the text alone when that indentation is 0. */
  function Dedent(text: string): (r: string)
    ensures FirstIndent(SplitOn(text, '\n')) == 0 ==> r == text
    ensures FirstIndent(SplitOn(text, '\n')) > 0 ==>
              r == Join(DedentLines(SplitOn(text, '\n'), FirstIndent(SplitOn(text, '\n'))), "\n")
  {
    if |text| == 0 then []
    else
      var lines := SplitOn(text, '\n');
      var d := FirstIndent(lines);
      if d == 0 then text else Join(DedentLines(lines, d), "\n")
  }

  // Indent and dedent are related: indenting adds the same amount to every
  // non-blank line, and dedent measures from the first one, so it removes
  // what indent added.

  /** A text whose only line terminator is `\n`. */
  predicate OnlyNewlines(s: string) {
    forall i :: 0 <= i < |s| ==> (IsLineTerminator(s[i]) ==> s[i] == '\n')
  }

  lemma {:induction false} LinesAreSplit(s: string)
    requires OnlyNewlines(s)
    ensures Lines(s) == SplitOn(s, '\n')
    decreases |s|
  {
    var i := LineEnd(s);
    assert IndexOf(s, '\n') == i by {
      IndexOfLineEnd(s);
    }
    if i < |s| {
      LinesAreSplit(s[i + 1..]);
    }
  }

  lemma IndexOfLineEnd(s: string)
    requires OnlyNewlines(s)
    ensures IndexOf(s, '\n') == LineEnd(s)
    decreases |s|
  {
    if |s| > 0 && !IsLineTerminator(s[0]) {
      IndexOfLineEnd(s[1..]);
    }
  }

  lemma {:induction false} SplitJoin(parts: seq<string>)
    requires |parts| >= 1
    requires forall k :: 0 <= k < |parts| ==> '\n' !in parts[k]
    ensures SplitOn(Join(parts, "\n"), '\n') == parts
    decreases |parts|
  {
    if |parts| == 1 {
      assert IndexOf(parts[0], '\n') == |parts[0]|;
    } else {
      var s := Join(parts, "\n");
      var tail := Join(parts[1..], "\n");
      assert s == parts[0] + ("\n" + tail);
      assert parts[0] == parts[0];
      IndexOfNoNewline(parts[0], "\n" + tail);
      assert s[..|parts[0]|] == parts[0];
      assert s[|parts[0]| + 1..] == tail;
      SplitJoin(parts[1..]);
      assert SplitOn(s, '\n') == [parts[0]] + SplitOn(tail, '\n');
      assert parts == [parts[0]] + parts[1..];
    }
  }

  lemma IndexOfNoNewline(a: string, b: string)
    requires '\n' !in a && |b| > 0 && b[0] == '\n'
    ensures IndexOf(a + b, '\n') == |a|
    decreases |a|
  {
    if |a| > 0 {
      assert (a + b)[1..] == a[1..] + b;
      IndexOfNoNewline(a[1..], b);
    }
  }

  lemma LeadingSpaces(n: nat, l: string)
    ensures LeadingWhitespace(Spaces(n) + l) == n + LeadingWhitespace(l)
    ensures TrimStart(Spaces(n) + l) == TrimStart(l)
    decreases n
  {
    var s := Spaces(n) + l;
    if n > 0 {
      assert s[0] == ' ';
      assert s[1..] == Spaces(n - 1) + l;
      LeadingSpaces(n - 1, l);
    }
    assert s[n + LeadingWhitespace(l)..] == l[LeadingWhitespace(l)..];
  }

  lemma HasNonWhitespaceSpaces(n: nat, l: string)
    ensures HasNonWhitespace(Spaces(n) + l) == HasNonWhitespace(l)
  {
    var s := Spaces(n) + l;
    if HasNonWhitespace(l) {
      var i :| 0 <= i < |l| && !IsWhitespace(l[i]);
      assert s[n + i] == l[i];
    }
    if HasNonWhitespace(s) {
      var i :| 0 <= i < |s| && !IsWhitespace(s[i]);
      assert i >= n;
      assert l[i - n] == s[i];
    }
  }

  lemma TrimSpaces(n: nat, l: string)
    ensures Trim(Spaces(n) + l) == Trim(l)
  {
    LeadingSpaces(n, l);
  }

  /** Dedenting an indented line by the shifted reference indentation
      gives what dedenting the original line gives. */
  lemma DedentIndentLine(l: string, n: nat, d: nat)
    ensures DedentLine(IndentLine(l, n), d + n) == DedentLine(l, d)
  {
    if HasNonWhitespace(l) {
      var s := Spaces(n) + l;
      LeadingSpaces(n, l);
      HasNonWhitespaceSpaces(n, l);
      TrimSpaces(n, l);
      if LeadingWhitespace(l) >= d {
        assert s[d + n..] == l[d..];
      }
    }
  }

  predicate AnyNonBlank(lines: seq<string>) {
    exists k :: 0 <= k < |lines| && HasNonWhitespace(lines[k])
  }

  lemma {:induction false} FirstIndentShift(lines: seq<string>, n: nat)
    ensures FirstIndent(ShiftLines(lines, n)) == if AnyNonBlank(lines) then FirstIndent(lines) + n else 0
    decreases |lines|
  {
    var shifted := ShiftLines(lines, n);
    if |lines| > 0 {
      HasNonWhitespaceSpaces(n, lines[0]);
      LeadingSpaces(n, lines[0]);
      FirstIndentShift(lines[1..], n);
      assert shifted[1..] == ShiftLines(lines[1..], n);
      if !HasNonWhitespace(lines[0]) {
        assert AnyNonBlank(lines) == AnyNonBlank(lines[1..]) by {
          if AnyNonBlank(lines) {
            var k :| 0 <= k < |lines| && HasNonWhitespace(lines[k]);
            assert lines[1..][k - 1] == lines[k];
          }
          if AnyNonBlank(lines[1..]) {
            var k :| 0 <= k < |lines[1..]| && HasNonWhitespace(lines[1..][k]);
            assert lines[k + 1] == lines[1..][k];
          }
        }
      } else {
        assert AnyNonBlank(lines);
      }
    }
  }

  lemma DedentShifted(lines: seq<string>, n: nat, d: nat)
    ensures DedentLines(ShiftLines(lines, n), d + n) == DedentLines(lines, d)
  {
    forall k | 0 <= k < |lines|
      ensures DedentLine(ShiftLines(lines, n)[k], d + n) == DedentLine(lines[k], d)
    {
      DedentIndentLine(lines[k], n, d);
    }
  }

  lemma DedentZero(lines: seq<string>)
    ensures DedentLines(lines, 0) == lines
  {
    forall k | 0 <= k < |lines| ensures DedentLine(lines[k], 0) == lines[k] {
      assert lines[k][0..] == lines[k];
    }
  }

  lemma ShiftBlank(lines: seq<string>, n: nat)
    requires !AnyNonBlank(lines) || n == 0
    ensures ShiftLines(lines, n) == lines
  {
    forall k | 0 <= k < |lines| ensures IndentLine(lines[k], n) == lines[k] {
      assert Spaces(0) + lines[k] == lines[k];
    }
  }

  lemma NoNonBlankLines(lines: seq<string>)
    requires !AnyNonBlank(lines)
    ensures FirstIndent(lines) == 0
    decreases |lines|
  {
    if |lines| > 0 {
      NoNonBlankLines(lines[1..]);
    }
  }

  function ShiftLines(lines: seq<string>, n: nat): (r: seq<string>)
    ensures |r| == |lines|
    ensures forall k :: 0 <= k < |lines| ==> r[k] == IndentLine(lines[k], n)
  {
    seq(|lines|, k requires 0 <= k < |lines| => IndentLine(lines[k], n))
  }

  lemma IndentSplit(text: string, n: nat)
    requires OnlyNewlines(text)
    ensures SplitOn(Indent(text, n), '\n') == ShiftLines(SplitOn(text, '\n'), n)
    ensures Join(ShiftLines(SplitOn(text, '\n'), n), "\n") == Indent(text, n)
  {
    var r := Indent(text, n);
    LinesAreSplit(text);
    IndentOnlyNewlines(text, n);
    LinesAreSplit(r);
    IndentLines(text, n);
    JoinSplit(r, '\n');
  }

  /** For text whose only line terminator is `\n`, dedenting after
      indenting by any amount gives the dedent of the original text. In
      particular text whose first non-blank line is flush left comes back
      unchanged. */
  lemma DedentIndent(text: string, n: nat)
    requires OnlyNewlines(text)
    ensures Dedent(Indent(text, n)) == Dedent(text)
  {
    var lines := SplitOn(text, '\n');
    IndentSplit(text, n);
    JoinSplit(text, '\n');
    FirstIndentShift(lines, n);
    var r := Indent(text, n);
    if !AnyNonBlank(lines) || n == 0 {
      ShiftBlank(lines, n);
    } else if FirstIndent(lines) == 0 {
      JoinSplit(text, '\n');
      DedentIndentFlush(text, lines, r, n);
    } else {
      DedentIndentIndented(text, lines, r, n);
    }
  }

  lemma DedentIndentFlush(text: string, lines: seq<string>, r: string, n: nat)
    requires Join(lines, "\n") == text
    requires n > 0 && FirstIndent(lines) == 0
    requires SplitOn(r, '\n') == ShiftLines(lines, n)
    requires FirstIndent(ShiftLines(lines, n)) == n
    ensures Dedent(r) == text
  {
    var shifted := ShiftLines(lines, n);
    assert Dedent(r) == Join(DedentLines(shifted, n), "\n");
    DedentShifted(lines, n, 0);
    assert DedentLines(shifted, n) == DedentLines(lines, 0);
    DedentZero(lines);
  }

  lemma DedentIndentIndented(text: string, lines: seq<string>, r: string, n: nat)
    requires lines == SplitOn(text, '\n') && FirstIndent(lines) > 0
    requires SplitOn(r, '\n') == ShiftLines(lines, n)
    requires FirstIndent(ShiftLines(lines, n)) == FirstIndent(lines) + n
    ensures Dedent(r) == Dedent(text)
  {
    DedentShifted(lines, n, FirstIndent(lines));
  }

  lemma IndentOnlyNewlines(text: string, n: nat)
    requires OnlyNewlines(text)
    ensures OnlyNewlines(Indent(text, n))
    decreases |text|
  {
    var i := LineEnd(text);
    if i < |text| {
      assert OnlyNewlines(text[i + 1..]);
      IndentOnlyNewlines(text[i + 1..], n);
    }
  }
}
