/** `textToStrBlocks`: the text is trimmed and split at every match of
    `/\n^\s*\n(?! |\n|})/gm`, the way `String.prototype.split` scans for a
    separator (section 22.2.6.14 of ECMA-262).

    A separator starts at a `\n`, runs greedily over whitespace (newlines
    included) and must end at a `\n` that is not followed by a space, a
    `\n` or `}`; when the greedy run overshoots, the match backs off to
    the last such `\n` inside the run. */
module Blocks {
  import opened Wrappers
  import opened Chars

  /** What the negative lookahead `(?! |\n|})` refuses. */
  predicate ContinuesBlock(c: char) {
    c == ' ' || c == '\n' || c == '}'
  }

  /** The separator may end with the `\n` at index `k` of `s`. */
  predicate BreakAt(s: string, k: nat) {
    1 <= k < |s| && s[k] == '\n' && (k + 1 == |s| || !ContinuesBlock(s[k + 1]))
  }

  /** Backtracking over the whitespace run: the largest `j <= k` at which
      the separator may end; the match then ends just after it. */
  function LastBreak(s: string, k: nat): (r: Option<nat>)
    ensures r.Some? ==> 1 <= r.value - 1 <= k && BreakAt(s, r.value - 1)
    ensures r.Some? ==> forall j :: r.value <= j <= k ==> !BreakAt(s, j)
    ensures r.None? ==> forall j :: 1 <= j <= k ==> !BreakAt(s, j)
    decreases k
  {
    if k < 1 then None
    else if BreakAt(s, k) then Some(k + 1)
    else LastBreak(s, k - 1)
  }

  /** Length of the separator match at the start of `s`, if one starts
      there. */
  function SepLen(s: string): (r: Option<nat>)
    ensures r.Some? ==> 2 <= r.value <= |s|
    ensures r.Some? ==> s[0] == '\n' && s[r.value - 1] == '\n'
    ensures r.Some? ==> forall m :: 0 < m < r.value - 1 ==> IsWhitespace(s[m])
  {
    if |s| < 2 || s[0] != '\n' then None
    else
      var runEnd := 1 + LeadingWhitespace(s[1..]);
      assert forall m :: 0 < m < runEnd ==> IsWhitespace(s[m]) by {
        forall m | 0 < m < runEnd ensures IsWhitespace(s[m]) {
          assert s[1..][m - 1] == s[m];
        }
      }
      LastBreak(s, runEnd - 1)
  }

  /** The separator match tried at position `i` of `s`. */
  function SepAt(s: string, i: nat): (r: Option<nat>)
    requires i <= |s|
    ensures r.Some? ==> 2 <= r.value && i + r.value <= |s|
  {
    SepLen(s[i..])
  }

  /** The split loop: `s` is the text from the start of the current block,
      `i` the position being tried. */
  function SplitBlocks(s: string, i: nat): (r: seq<string>)
    requires i <= |s|
    ensures |r| >= 1
    decreases |s|, |s| - i
  {
    if i == |s| then [s]
    else
      match SepAt(s, i)
      case Some(l) => [s[..i]] + SplitBlocks(s[i + l..], 0)
      case None => SplitBlocks(s, i + 1)
  }

  /** `textToStrBlocks(text)`. */
  function TextToStrBlocks(text: string): seq<string>
  {
    if |text| == 0 then [] else SplitBlocks(Trim(text), 0)
  }

  /** No separator starts anywhere in `b`. */
  predicate NoSepIn(b: string) {
    forall i :: 0 <= i < |b| ==> SepAt(b, i).None?
  }

  /** Every two `\n` of `b` have something other than whitespace between
      them. */
  predicate NoBlankLine(b: string) {
    forall i, j :: 0 <= i < j < |b| && b[i] == '\n' && b[j] == '\n' ==>
      exists m :: i < m < j && !IsWhitespace(b[m])
  }

  /** A block that the splitter returns whole and that can follow a blank
      line: not empty, trimmed, not starting with `}`, and without a
      separator inside. */
  predicate GoodBlock(b: string) {
    && |b| > 0
    && !IsWhitespace(b[0]) && !IsWhitespace(b[|b| - 1])
    && b[0] != '}'
    && NoSepIn(b)
  }

  // Locality: a separator that starts inside a trimmed block ends inside it.

  lemma LeadingWhitespaceConcat(u: string, v: string)
    requires HasNonWhitespace(u)
    ensures LeadingWhitespace(u + v) == LeadingWhitespace(u)
    decreases |u|
  {
    if IsWhitespace(u[0]) {
      assert (u + v)[1..] == u[1..] + v;
      var i :| 0 <= i < |u| && !IsWhitespace(u[i]);
      assert u[1..][i - 1] == u[i];
      LeadingWhitespaceConcat(u[1..], v);
    }
  }

  lemma LastBreakConcat(x: string, c: string, k: nat)
    requires k + 1 < |x|
    ensures LastBreak(x + c, k) == LastBreak(x, k)
    decreases k
  {
    if k >= 1 {
      assert BreakAt(x + c, k) == BreakAt(x, k);
      LastBreakConcat(x, c, k - 1);
    }
  }

  lemma SepLenConcat(x: string, c: string)
    requires |x| > 0 && !IsWhitespace(x[|x| - 1])
    ensures SepLen(x + c) == SepLen(x)
  {
    var y := x + c;
    if |x| >= 2 && x[0] == '\n' {
      assert y[1..] == x[1..] + c;
      assert HasNonWhitespace(x[1..]) by {
        assert x[1..][|x| - 2] == x[|x| - 1];
      }
      LeadingWhitespaceConcat(x[1..], c);
      var runEnd := 1 + LeadingWhitespace(x[1..]);
      LastBreakConcat(x, c, runEnd - 1);
    } else if |x| == 1 {
      assert y[0] == x[0];
    }
  }

  /** The separator between two good blocks is exactly the blank line. */
  lemma JunctionSep(rest: string)
    requires |rest| > 0 && !IsWhitespace(rest[0]) && rest[0] != '}'
    ensures SepLen("\n\n" + rest) == Some(2)
  {
    var s := "\n\n" + rest;
    assert s[1..] == "\n" + rest;
    assert LeadingWhitespace(s[1..]) == 1 by {
      assert s[1..][1..] == rest;
    }
    assert BreakAt(s, 1);
  }

  lemma {:induction false} SplitWhole(b: string, i: nat)
    requires i <= |b| && forall j :: i <= j < |b| ==> SepAt(b, j).None?
    ensures SplitBlocks(b, i) == [b]
    decreases |b| - i
  {
    if i < |b| {
      SplitWhole(b, i + 1);
    }
  }

  /** A block followed by a separator splits off as the first part. */
  lemma {:induction false} SplitAtSep(b: string, sep: string, rest: string, i: nat)
    requires i <= |b| && |b| > 0 && !IsWhitespace(b[|b| - 1]) && NoSepIn(b)
    requires SepLen(sep + rest) == Some(|sep|)
    ensures SplitBlocks(b + sep + rest, i) == [b] + SplitBlocks(rest, 0)
    decreases |b| - i
  {
    var s := b + sep + rest;
    if i < |b| {
      assert s[i..] == b[i..] + (sep + rest);
      assert SepAt(b, i).None?;
      SepLenConcat(b[i..], sep + rest);
      assert SepAt(s, i).None?;
      SplitAtSep(b, sep, rest, i + 1);
    } else {
      SplitAtBoundary(b, sep, rest);
    }
  }

  lemma SplitAtBoundary(b: string, sep: string, rest: string)
    requires SepLen(sep + rest) == Some(|sep|)
    ensures SplitBlocks(b + sep + rest, |b|) == [b] + SplitBlocks(rest, 0)
  {
    var s := b + sep + rest;
    assert s[|b|..] == sep + rest;
    assert SepAt(s, |b|) == Some(|sep|);
    assert s[..|b|] == b;
    assert s[|b| + |sep|..] == rest;
  }

  function JoinBlocks(bs: seq<string>): string {
    Join(bs, "\n\n")
  }

  lemma JoinBlocksShape(bs: seq<string>)
    requires |bs| > 0 && forall k :: 0 <= k < |bs| ==> GoodBlock(bs[k])
    ensures |bs[0]| > 0 && |bs[|bs| - 1]| > 0 && |JoinBlocks(bs)| > 0
    ensures JoinBlocks(bs)[0] == bs[0][0]
    ensures JoinBlocks(bs)[|JoinBlocks(bs)| - 1] == bs[|bs| - 1][|bs[|bs| - 1]| - 1]
    decreases |bs|
  {
    if |bs| > 1 {
      JoinBlocksShape(bs[1..]);
    }
  }

  lemma {:induction false} SplitJoined(bs: seq<string>)
    requires |bs| > 0 && forall k :: 0 <= k < |bs| ==> GoodBlock(bs[k])
    ensures SplitBlocks(JoinBlocks(bs), 0) == bs
    decreases |bs|
  {
    if |bs| == 1 {
      SplitWhole(bs[0], 0);
    } else {
      var tail := JoinBlocks(bs[1..]);
      JoinBlocksShape(bs[1..]);
      JunctionSep(tail);
      assert JoinBlocks(bs) == bs[0] + "\n\n" + tail;
      SplitAtSep(bs[0], "\n\n", tail, 0);
      SplitJoined(bs[1..]);
    }
  }

  lemma TrimNoop(s: string)
    requires |s| > 0 && !IsWhitespace(s[0]) && !IsWhitespace(s[|s| - 1])
    ensures Trim(s) == s
  {
    assert LeadingWhitespace(s) == 0;
    assert TrailingWhitespace(s) == 0;
    assert s[0..] == s;
  }

  /** Good blocks joined with a blank line split back into the same
      blocks. */
  lemma TextToStrBlocksJoin(bs: seq<string>)
    requires |bs| > 0 && forall k :: 0 <= k < |bs| ==> GoodBlock(bs[k])
    ensures TextToStrBlocks(JoinBlocks(bs)) == bs
  {
    JoinBlocksShape(bs);
    TrimNoop(JoinBlocks(bs));
    SplitJoined(bs);
  }

  /** A separator is a blank line: two `\n` with only whitespace between. */
  lemma SepIsBlankLine(b: string, i: int)
    requires 0 <= i < |b| && SepAt(b, i).Some?
    ensures var n := SepAt(b, i).value - 1;
            && i + n < |b| && b[i] == '\n' && b[i + n] == '\n'
            && forall m :: i < m < i + n ==> IsWhitespace(b[m])
  {
    var s := b[i..];
    assert SepAt(b, i) == SepLen(s);
    var n := SepLen(s).value - 1;
    forall m | i < m < i + n ensures IsWhitespace(b[m]) {
      assert s[m - i] == b[m];
    }
  }

  /** A block without blank lines has no separator inside. */
  lemma NoBlankLineNoSep(b: string)
    requires NoBlankLine(b)
    ensures NoSepIn(b)
  {
    forall i | 0 <= i < |b| ensures SepAt(b, i).None? {
      if SepAt(b, i).Some? {
        SepIsBlankLine(b, i);
      }
    }
  }

  /** The empty text has no blocks; trimmed text without blank lines is
      one block. */
  lemma TextToStrBlocksSingle(text: string)
    requires HasNonWhitespace(text) && NoBlankLine(Trim(text))
    ensures TextToStrBlocks(text) == [Trim(text)]
  {
    NoBlankLineNoSep(Trim(text));
    SplitWhole(Trim(text), 0);
  }

  lemma TextToStrBlocksEmpty()
    ensures TextToStrBlocks("") == []
  {
  }

  // The splitter on the sample texts of its tests.

  lemma NoNewlineNoSep(b: string)
    requires '\n' !in b
    ensures NoSepIn(b)
  {
    forall i | 0 <= i < |b| ensures SepAt(b, i).None? {
      assert b[i..][0] == b[i];
    }
  }

  lemma NoSepCons(y: string)
    requires |y| > 0 && SepLen(y).None? && NoSepIn(y[1..])
    ensures NoSepIn(y)
  {
    forall i | 1 <= i < |y| ensures SepAt(y, i).None? {
      assert y[i..] == y[1..][i - 1..];
      assert SepAt(y, i) == SepAt(y[1..], i - 1);
    }
  }

  lemma NoSepConcat(x: string, y: string)
    requires |x| > 0 && !IsWhitespace(x[|x| - 1]) && NoSepIn(x) && NoSepIn(y)
    ensures NoSepIn(x + y)
  {
    forall i | 0 <= i < |x + y| ensures SepAt((x + y), i).None? {
      if i < |x| {
        assert (x + y)[i..] == x[i..] + y;
        SepLenConcat(x[i..], y);
        assert SepAt(x + y, i) == SepAt(x, i);
      } else {
        assert (x + y)[i..] == y[i - |x|..];
        assert SepAt(x + y, i) == SepAt(y, i - |x|);
      }
    }
  }

  /** Single-line and two-line texts are one block. */
  lemma SingleLineFixture(a: string)
    requires a == "Hello world!"
    ensures TextToStrBlocks(a) == [a]
  {
    TrimNoop(a);
    NoNewlineNoSep(a);
    SplitWhole(a, 0);
  }

  lemma TwoLineFixture(a: string, b: string)
    requires a == "My first line" && b == "My second line"
    ensures TextToStrBlocks(a + "\n" + b) == [a + "\n" + b]
  {
    var b2 := "\n" + b;
    assert a + "\n" + b == a + b2;
    assert !IsWhitespace(a[0]) && !IsWhitespace(b2[|b2| - 1]);
    TrimNoop(a + b2);
    NoNewlineNoSep(a);
    assert b2[1..] == b;
    NoNewlineNoSep(b);
    NoSepCons(b2);
    NoSepConcat(a, b2);
    SplitWhole(a + b2, 0);
  }

  lemma HeadNoSep(b1: string)
    requires b1 == "@objBlock"
    ensures NoSepIn(b1)
  {
    assert '\n' !in b1;
    NoNewlineNoSep(b1);
  }

  lemma IndentedLineNoSep(b2: string)
    requires b2 == "\n    property1"
    ensures NoSepIn(b2)
  {
    NoNewlineNoSep(b2[1..]);
    NoSepCons(b2);
  }

  /** A blank line followed by an indented line is not a separator. */
  lemma IndentedAfterBlankNoSep(b3: string)
    requires b3 == "\n\n    property2"
    ensures NoSepIn(b3)
  {
    NoNewlineNoSep(b3[2..]);
    assert b3[1..][1..] == b3[2..];
    NoSepCons(b3[1..]);
    NoSepCons(b3);
  }

  lemma IndentedBlockNoSep(b: string)
    requires b == "@objBlock\n    property1\n\n    property2"
    ensures NoSepIn(b)
  {
    var b1, b2, b3 := "@objBlock", "\n    property1", "\n\n    property2";
    assert b == b1 + b2 + b3;
    HeadNoSep(b1);
    IndentedLineNoSep(b2);
    NoSepConcat(b1, b2);
    IndentedAfterBlankNoSep(b3);
    NoSepConcat(b1 + b2, b3);
  }

  /** A run of blank lines is one separator, ending at its last `\n`. */
  lemma BlankRunSep(sep: string, c: string)
    requires sep == "\n\n  \n\n   \n" && c == "Last line"
    ensures SepLen(sep + c) == Some(|sep|)
  {
    var s := sep + c;
    assert s[1..] == sep[1..] + c;
    LeadingPad(sep[1..], c);
    assert BreakAt(s, |sep| - 1);
  }

  /** Three blocks, padded, the second and third joined by any
      separator. */
  lemma ThreeBlocks(pre: string, a: string, b: string, sep: string, c: string, post: string)
    requires AllWhitespace(pre) && AllWhitespace(post)
    requires GoodBlock(a) && GoodBlock(b) && GoodBlock(c)
    requires SepLen(sep + c) == Some(|sep|)
    ensures TextToStrBlocks(pre + a + "\n\n" + b + sep + c + post) == [a, b, c]
  {
    var rest := b + sep + c;
    var t := a + "\n\n" + rest;
    assert pre + a + "\n\n" + b + sep + c + post == pre + t + post;
    SplitTwo(b, sep, c);
    SplitAfterBlank(a, rest);
    assert t[0] == a[0] && t[|t| - 1] == c[|c| - 1];
    PadStrip(pre, t, post);
  }

  lemma PadStrip(pre: string, t: string, post: string)
    requires AllWhitespace(pre) && AllWhitespace(post)
    requires |t| > 0 && !IsWhitespace(t[0]) && !IsWhitespace(t[|t| - 1])
    ensures TextToStrBlocks(pre + t + post) == SplitBlocks(t, 0)
  {
    TrimPad(pre, t, post);
  }

  lemma SplitTwo(b: string, sep: string, c: string)
    requires GoodBlock(b) && GoodBlock(c)
    requires SepLen(sep + c) == Some(|sep|)
    ensures SplitBlocks(b + sep + c, 0) == [b, c]
  {
    SplitAtSep(b, sep, c, 0);
    SplitWhole(c, 0);
  }

  /** A good block, a blank line, then text that splits into `tail`. */
  lemma SplitAfterBlank(a: string, rest: string)
    requires GoodBlock(a)
    requires |rest| > 0 && !IsWhitespace(rest[0]) && rest[0] != '}'
    ensures SplitBlocks(a + "\n\n" + rest, 0) == [a] + SplitBlocks(rest, 0)
  {
    assert rest[0] == rest[0];
    JunctionSep(rest);
    SplitAtSep(a, "\n\n", rest, 0);
  }

  lemma PlainGood(a: string)
    requires |a| > 0 && '\n' !in a && !IsWhitespace(a[0]) && !IsWhitespace(a[|a| - 1]) && a[0] != '}'
    ensures GoodBlock(a)
  {
    NoNewlineNoSep(a);
  }

  /** Leading and trailing blank lines are dropped, an indented line after
      a blank line stays in its block, and a run of blank lines is one
      separator: the sample text is the concatenation below. */
  lemma PaddedTextFixture(pre: string, a: string, b: string, sep: string, c: string, post: string)
    requires pre == "\n\n   \n \n" && post == "\n   \n\n  "
    requires a == "Hello World!" && b == "@objBlock\n    property1\n\n    property2"
    requires sep == "\n\n  \n\n   \n" && c == "Last line"
    ensures TextToStrBlocks(pre + a + "\n\n" + b + sep + c + post) == [a, b, c]
  {
    assert AllWhitespace(pre) && AllWhitespace(post);
    PlainGood(a);
    PlainGood(c);
    IndentedBlockNoSep(b);
    BlankRunSep(sep, c);
    ThreeBlocks(pre, a, b, sep, c, post);
  }
}
