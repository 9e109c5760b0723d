/** Character classes and string helpers with the semantics of the
    JavaScript built-ins the transpiler relies on (`trim`, `slice`,
    `split`, `join`, number-to-string). Characters stand for UTF-16 code
    units. */
module Chars {

  /** ECMAScript LineTerminator: what `.` refuses and where `^`/`$` anchor
      in multiline mode. */
  predicate IsLineTerminator(c: char) {
    c == '\n' || c == '\r' || c == '\U{2028}' || c == '\U{2029}'
  }

  /** ECMAScript WhiteSpace plus LineTerminator: what `trim` removes and
      what `\s` matches. */
  predicate IsWhitespace(c: char) {
    || IsLineTerminator(c)
    || c == '\t' || c == '\U{000B}' || c == '\U{000C}' || c == ' '
    || c == '\U{00A0}' || c == '\U{FEFF}' || c == '\U{1680}'
    || ('\U{2000}' <= c <= '\U{200A}')
    || c == '\U{202F}' || c == '\U{205F}' || c == '\U{3000}'
  }

  predicate HasNonWhitespace(s: string) {
    exists i :: 0 <= i < |s| && !IsWhitespace(s[i])
  }

  /** Number of leading whitespace characters. */
  function LeadingWhitespace(s: string): (n: nat)
    ensures n <= |s|
    ensures forall i :: 0 <= i < n ==> IsWhitespace(s[i])
    ensures n == |s| || !IsWhitespace(s[n])
  {
    if |s| > 0 && IsWhitespace(s[0]) then 1 + LeadingWhitespace(s[1..]) else 0
  }

  /** Number of trailing whitespace characters. */
  function TrailingWhitespace(s: string): (n: nat)
    ensures n <= |s|
    ensures forall i :: |s| - n <= i < |s| ==> IsWhitespace(s[i])
    ensures n == |s| || !IsWhitespace(s[|s| - n - 1])
  {
    if |s| > 0 && IsWhitespace(s[|s| - 1]) then 1 + TrailingWhitespace(s[..|s| - 1]) else 0
  }

  predicate AllWhitespace(p: string) {
    forall k :: 0 <= k < |p| ==> IsWhitespace(p[k])
  }

  lemma {:induction false} LeadingPad(p: string, t: string)
    requires AllWhitespace(p)
    requires |t| > 0 && !IsWhitespace(t[0])
    ensures LeadingWhitespace(p + t) == |p|
    decreases |p|
  {
    if |p| > 0 {
      assert (p + t)[1..] == p[1..] + t;
      LeadingPad(p[1..], t);
    }
  }

  lemma {:induction false} TrailingPad(t: string, p: string)
    requires AllWhitespace(p)
    requires |t| > 0 && !IsWhitespace(t[|t| - 1])
    ensures TrailingWhitespace(t + p) == |p|
    decreases |p|
  {
    if |p| > 0 {
      assert (t + p)[..|t + p| - 1] == t + p[..|p| - 1];
      TrailingPad(t, p[..|p| - 1]);
    }
  }

  /** Trimming removes exactly the whitespace padding around a trimmed
      text. */
  lemma TrimPad(pre: string, t: string, post: string)
    requires AllWhitespace(pre) && AllWhitespace(post)
    requires |t| > 0 && !IsWhitespace(t[0]) && !IsWhitespace(t[|t| - 1])
    ensures Trim(pre + t + post) == t
  {
    LeadingPad(pre, t + post);
    assert pre + t + post == pre + (t + post);
    var u := (pre + t + post)[|pre|..];
    assert u == t + post;
    TrailingPad(t, post);
    assert u[..|u| - |post|] == t;
  }

  /** `String.prototype.trimStart`. */
  function TrimStart(s: string): string {
    s[LeadingWhitespace(s)..]
  }

  /** `String.prototype.trimEnd`. */
  function TrimEnd(s: string): string {
    s[..|s| - TrailingWhitespace(s)]
  }

  /** `String.prototype.trim`. */
  function Trim(s: string): (r: string)
    ensures |r| <= |s|
    ensures r == [] <==> !HasNonWhitespace(s)
    ensures r != [] ==> !IsWhitespace(r[0]) && !IsWhitespace(r[|r| - 1])
  {
    var t := TrimStart(s);
    if t == [] then
      assert forall i :: 0 <= i < |s| ==> IsWhitespace(s[i]);
      t
    else
      assert !IsWhitespace(t[0]);
      var r := TrimEnd(t);
      assert HasNonWhitespace(s) by {
        assert !IsWhitespace(s[LeadingWhitespace(s)]);
      }
      r
  }

  /** Whitespace appended to a text does not survive `trim`. */
  lemma TrimAppendWhitespace(x: string, p: string)
    requires AllWhitespace(p)
    ensures Trim(x + p) == Trim(x)
  {
    if HasNonWhitespace(x) {
      var l := LeadingWhitespace(x);
      var u := x[l..];
      var n := TrailingWhitespace(u);
      var t := Trim(x);
      assert t == u[..|u| - n];
      var pre, post := x[..l], u[|u| - n..];
      assert x == pre + t + post;
      assert AllWhitespace(post + p);
      assert x + p == pre + t + (post + p);
      TrimPad(pre, t, post + p);
    } else {
      assert !HasNonWhitespace(x + p) by {
        forall i | 0 <= i < |x + p| ensures IsWhitespace((x + p)[i]) {
          if i >= |x| {
            assert (x + p)[i] == p[i - |x|];
          }
        }
      }
    }
  }

  function Spaces(n: nat): (r: string)
    ensures |r| == n
    ensures forall i :: 0 <= i < n ==> r[i] == ' '
  {
    seq(n, _ => ' ')
  }

  function Repeat(c: char, n: nat): (r: string)
    ensures |r| == n
    ensures forall i :: 0 <= i < n ==> r[i] == c
  {
    seq(n, _ => c)
  }

  /** Index of the first occurrence of `c`, or `|s|` when there is none. */
  function IndexOf(s: string, c: char): (r: nat)
    ensures r <= |s|
    ensures r < |s| ==> s[r] == c
    ensures forall i :: 0 <= i < r ==> s[i] != c
  {
    if |s| == 0 then 0 else if s[0] == c then 0 else 1 + IndexOf(s[1..], c)
  }

  /** Relative index as `String.prototype.slice` resolves it. */
  function RelativeIndex(i: int, len: nat): (r: nat)
    ensures r <= len
  {
    if i < 0 then (if len + i < 0 then 0 else len + i) else if i > len then len else i
  }

  /** `String.prototype.slice(a, b)`, clamping both ends. */
  function Slice(s: string, a: int, b: int): (r: string)
    ensures 0 <= a <= b <= |s| ==> r == s[a..b]
    ensures b <= a && 0 <= b ==> r == []
  {
    var from := RelativeIndex(a, |s|);
    var to := RelativeIndex(b, |s|);
    if from >= to then [] else s[from..to]
  }

  /** `Array.prototype.join(sep)`. */
  function Join(parts: seq<string>, sep: string): string
  {
    if |parts| == 0 then []
    else if |parts| == 1 then parts[0]
    else parts[0] + sep + Join(parts[1..], sep)
  }

  /** `String.prototype.split(c)` for a one-character separator. */
  function SplitOn(s: string, c: char): (parts: seq<string>)
    ensures |parts| >= 1
    ensures forall k :: 0 <= k < |parts| ==> c !in parts[k]
    decreases |s|
  {
    var i := IndexOf(s, c);
    if i == |s| then
      assert c !in s;
      [s]
    else
      assert c !in s[..i];
      [s[..i]] + SplitOn(s[i + 1..], c)
  }

  lemma {:induction false} JoinSplit(s: string, c: char)
    ensures Join(SplitOn(s, c), [c]) == s
    decreases |s|
  {
    var i := IndexOf(s, c);
    if i < |s| {
      var rest := SplitOn(s[i + 1..], c);
      var parts := [s[..i]] + rest;
      assert SplitOn(s, c) == parts;
      assert parts[1..] == rest;
      assert Join(parts, [c]) == s[..i] + [c] + Join(rest, [c]);
      JoinSplit(s[i + 1..], c);
      assert s == s[..i] + [c] + s[i + 1..];
    }
  }

  function DigitChar(d: nat): char
    requires d < 10
  {
    "0123456789"[d]
  }

  /** Decimal digits of a natural number. */
  function NatToString(n: nat): (r: string)
    ensures |r| >= 1
    decreases n
  {
    if n < 10 then [DigitChar(n)] else NatToString(n / 10) + [DigitChar(n % 10)]
  }

  /** `String(n)` for an integral number. */
  function IntToString(n: int): string
  {
    if n < 0 then "-" + NatToString(-n) else NatToString(n)
  }
}
