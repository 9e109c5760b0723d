/** Reading meta: `parseLineMeta`, `parseMeta` and `detachMeta`.

    The YAML reader and `isPlainObject` are not modelled; `parseMeta`
    takes the outcome of reading a text as YAML as a parameter. */
module MetaParse {
  import opened Wrappers
  import opened MetaValues
  import Chars
  import Strs = Str

  // Tokens: `lineMeta.trim().match(/(?:[^\s"]+|"[^"]*")+/g)`.

  /** A character of `[^\s"]`. */
  predicate IsBare(c: char) {
    !Chars.IsWhitespace(c) && c != '"'
  }

  predicate AllBare(w: string) {
    forall i :: 0 <= i < |w| ==> IsBare(w[i])
  }

  /** Length of the longest prefix of bare characters. */
  function BareRun(s: string): (n: nat)
    ensures n <= |s|
    ensures forall i :: 0 <= i < n ==> IsBare(s[i])
    ensures n < |s| ==> !IsBare(s[n])
  {
    if |s| == 0 || !IsBare(s[0]) then 0 else 1 + BareRun(s[1..])
  }

  /** One repetition of the group `[^\s"]+|"[^"]*"` at the start of `s`:
      the length it consumes, or `None` when neither branch matches. */
  function PieceLen(s: string): (r: Option<nat>)
    ensures r.Some? ==> 0 < r.value <= |s|
    ensures r.Some? <==> |s| > 0 && (IsBare(s[0]) || (s[0] == '"' && '"' in s[1..]))
  {
    if |s| > 0 && IsBare(s[0]) then Some(BareRun(s))
    else if |s| > 0 && s[0] == '"' then
      var j := Chars.IndexOf(s[1..], '"');
      if j < |s| - 1 then Some(j + 2) else None
    else None
  }

  /** Length of the whole `(?:…)+` match at the start of `s`; 0 when
      there is none. The repetition is greedy and nothing follows it, so
      no backtracking is needed. */
  function MatchLen(s: string): (n: nat)
    ensures n <= |s|
    ensures n > 0 <==> PieceLen(s).Some?
    decreases |s|
  {
    match PieceLen(s)
    case None => 0
    case Some(p) => p + MatchLen(s[p..])
  }

  /** Every match, left to right; a position where no match starts is
      skipped. */
  function Tokenize(s: string): (toks: seq<string>)
    ensures forall i :: 0 <= i < |toks| ==> |toks[i]| > 0 && !Chars.IsWhitespace(toks[i][0])
    decreases |s|
  {
    if |s| == 0 then []
    else
      var n := MatchLen(s);
      if n == 0 then Tokenize(s[1..]) else [s[..n]] + Tokenize(s[n..])
  }

  // The tokens the line form writes.

  predicate IsBareWord(w: string) {
    |w| > 0 && AllBare(w)
  }

  /** A bare word followed by a double-quoted string, as in `title="My Title"`. */
  predicate IsQuotedWord(w: string) {
    var p := BareRun(w);
    0 < p && p + 2 <= |w| && w[p] == '"' && w[|w| - 1] == '"' && '"' !in w[p + 1..|w| - 1]
  }

  predicate IsWord(w: string) {
    |w| > 0 && (IsBareWord(w) || IsQuotedWord(w))
  }

  lemma {:induction false} BareRunConcat(a: string, x: string)
    requires AllBare(a)
    requires |x| == 0 || !IsBare(x[0])
    ensures BareRun(a + x) == |a|
    decreases |a|
  {
    if |a| > 0 {
      assert (a + x)[1..] == a[1..] + x;
      BareRunConcat(a[1..], x);
    }
  }

  lemma {:induction false} IndexOfFirst(v: string, c: char, y: string)
    requires c !in v
    ensures Chars.IndexOf(v + [c] + y, c) == |v|
  {
    var s := v + [c] + y;
    assert s[|v|] == c;
    assert forall j :: 0 <= j < |v| ==> s[j] == v[j];
  }

  /** A quoted string followed by a space or nothing is one piece. */
  lemma {:induction false} QuotedPiece(v: string, x: string)
    requires '"' !in v
    requires |x| == 0 || x[0] == ' '
    ensures MatchLen("\"" + v + "\"" + x) == |v| + 2
  {
    var s := "\"" + v + "\"" + x;
    assert s[0] == '"' && !IsBare(s[0]);
    assert s[1..] == v + ['"'] + x;
    IndexOfFirst(v, '"', x);
    assert PieceLen(s) == Some(|v| + 2);
    assert s[|v| + 2..] == x;
    NoMatchAtSpace(x);
  }

  lemma {:induction false} NoMatchAtSpace(x: string)
    requires |x| == 0 || x[0] == ' '
    ensures MatchLen(x) == 0
  {
    assert PieceLen(x).None?;
  }

  /** A written token followed by a space or nothing is exactly one match. */
  lemma {:induction false} WordMatch(w: string, x: string)
    requires IsWord(w)
    requires |x| == 0 || x[0] == ' '
    ensures MatchLen(w + x) == |w|
  {
    if IsBareWord(w) {
      BareWordMatch(w, x);
    } else {
      var p := BareRun(w);
      var v := w[p + 1..|w| - 1];
      QuotedWordShape(w, p, v);
      QuotedWordMatch(w[..p], v, x);
    }
  }

  lemma {:induction false} BareWordMatch(w: string, x: string)
    requires IsBareWord(w)
    requires |x| == 0 || x[0] == ' '
    ensures MatchLen(w + x) == |w|
  {
    var s := w + x;
    BareRunConcat(w, x);
    assert PieceLen(s) == Some(|w|);
    assert s[|w|..] == x;
    NoMatchAtSpace(x);
  }

  lemma {:induction false} QuotedWordShape(w: string, p: nat, v: string)
    requires IsQuotedWord(w) && p == BareRun(w) && v == w[p + 1..|w| - 1]
    ensures w == w[..p] + "\"" + v + "\"" && AllBare(w[..p]) && |w[..p]| > 0 && '"' !in v
  {
  }

  lemma {:induction false} QuotedWordMatch(a: string, v: string, x: string)
    requires AllBare(a) && |a| > 0 && '"' !in v
    requires |x| == 0 || x[0] == ' '
    ensures MatchLen(a + "\"" + v + "\"" + x) == |a| + |v| + 2
  {
    var q := "\"" + v + "\"" + x;
    var s := a + "\"" + v + "\"" + x;
    assert s == a + q;
    assert PieceLen(s) == Some(|a|) by {
      BareRunConcat(a, q);
    }
    assert s[|a|..] == q;
    QuotedPiece(v, x);
    MatchLenStep(s, |a|);
  }

  lemma {:induction false} MatchLenStep(s: string, n: nat)
    requires PieceLen(s) == Some(n)
    ensures MatchLen(s) == n + MatchLen(s[n..])
  {
  }

  lemma {:induction false} TokenizeCons(w: string, r: string)
    requires IsWord(w)
    ensures Tokenize(w + " " + r) == [w] + Tokenize(r)
  {
    var s := w + " " + r;
    assert s == w + (" " + r);
    WordMatch(w, " " + r);
    assert s[..|w|] == w && s[|w|..] == " " + r;
    assert (" " + r)[1..] == r;
  }

  /** Written tokens joined by single spaces tokenize back into
      themselves. */
  lemma {:induction false} TokenizeJoin(ws: seq<string>)
    requires |ws| > 0
    requires forall i :: 0 <= i < |ws| ==> IsWord(ws[i])
    ensures Tokenize(Chars.Join(ws, " ")) == ws
    decreases |ws|
  {
    if |ws| == 1 {
      WordMatch(ws[0], "");
      assert ws[0] + "" == ws[0];
      assert ws[0][|ws[0]|..] == "";
    } else {
      Strs.JoinCons(ws[0], ws[1..], " ");
      assert [ws[0]] + ws[1..] == ws;
      TokenizeCons(ws[0], Chars.Join(ws[1..], " "));
      TokenizeJoin(ws[1..]);
    }
  }

  /** Input without a non-whitespace character has no token. */
  lemma {:induction false} TokenizeBlank(s: string)
    requires !Chars.HasNonWhitespace(s)
    ensures Tokenize(s) == []
    decreases |s|
  {
    if |s| > 0 {
      assert Chars.IsWhitespace(s[0]);
      assert !Chars.HasNonWhitespace(s[1..]) by {
        forall i | 0 <= i < |s[1..]| ensures Chars.IsWhitespace(s[1..][i]) {
          assert s[1..][i] == s[i + 1];
        }
      }
      TokenizeBlank(s[1..]);
    }
  }

  // Token rules.

  const PushTypeError: string := "TypeError: meta.classes.push is not a function"

  /** `classes` holds a truthy value that is not an array, which
      `push` cannot extend. */
  predicate ClassesBlocked(m: Meta) {
    Get(m, "classes").Some? && Truthy(Get(m, "classes").value) && !Get(m, "classes").value.StrList?
  }

  /** The classes `(meta.classes ||= [])` extends: the array, or a fresh
      one when the value is falsy or absent. */
  function ClassesOf(m: Meta): seq<string> {
    match Get(m, "classes")
    case Some(StrList(items)) => items
    case _ => []
  }

  /** The value of a `key=value` token: a double-quoted value loses its
      quotes (`slice(1, -1)`), any other goes through `tryParseInt`. */
  function ValueOf(v: string): Value {
    if |v| > 0 && v[0] == '"' && v[|v| - 1] == '"' then Str(if |v| >= 2 then v[1..|v| - 1] else "")
    else
      match Strs.TryParseInt(v)
      case Int(n) => Num(n)
      case Text(t) => Str(t)
  }

  predicate IsPrefixSymbol(c: char) {
    c == '#' || c == '.' || c == '+' || c == '-'
  }

  /** The property a token writes. */
  function TokenKey(tok: string): string
    requires |tok| > 0
  {
    if tok[0] == '#' then "id"
    else if tok[0] == '.' then "classes"
    else if tok[0] == '+' || tok[0] == '-' then tok[1..]
    else Chars.SplitOn(tok, '=')[0]
  }

  /** One token: `#id`, `.class`, `+flag`, `-flag`, `key=value` or `key`. */
  function ApplyToken(m: Meta, tok: string): (r: Result<Meta>)
    requires |tok| > 0
    ensures r.Failure? <==> tok[0] == '.' && ClassesBlocked(m)
    ensures r.Failure? ==> r.error == PushTypeError
    ensures r.Success? ==> forall k :: k != TokenKey(tok) ==> Get(r.value, k) == Get(m, k)
    ensures r.Success? && UniqueKeys(m) ==> UniqueKeys(r.value)
    ensures tok[0] == '#' ==> r.Success? && Get(r.value, "id") == Some(Str(tok[1..]))
    ensures tok[0] == '.' && r.Success? ==> Get(r.value, "classes") == Some(StrList(ClassesOf(m) + [tok[1..]]))
    ensures tok[0] == '+' ==> r.Success? && Get(r.value, tok[1..]) == Some(Bool(true))
    ensures tok[0] == '-' ==> r.Success? && Get(r.value, tok[1..]) == Some(Bool(false))
    ensures !IsPrefixSymbol(tok[0]) ==>
              var parts := Chars.SplitOn(tok, '=');
              && r.Success?
              && (parts[0] == "" ==> r.value == m)
              && (parts[0] != "" && |parts| == 1 ==> Get(r.value, parts[0]) == Some(Null))
              && (parts[0] != "" && |parts| > 1 ==> Get(r.value, parts[0]) == Some(ValueOf(parts[1])))
  {
    var rest := tok[1..];
    if tok[0] == '#' then Success(Set(m, "id", Str(rest)))
    else if tok[0] == '.' then
      if ClassesBlocked(m) then Failure(PushTypeError)
      else Success(Set(m, "classes", StrList(ClassesOf(m) + [rest])))
    else if tok[0] == '+' then Success(Set(m, rest, Bool(true)))
    else if tok[0] == '-' then Success(Set(m, rest, Bool(false)))
    else
      var parts := Chars.SplitOn(tok, '=');
      var key := parts[0];
      if key == "" then Success(m)
      else if |parts| == 1 then Success(Set(m, key, Null))
      else Success(Set(m, key, ValueOf(parts[1])))
  }

  /** The token loop; a thrown error ends it. */
  function ApplyTokens(m: Meta, toks: seq<string>): (r: Result<Meta>)
    requires forall i :: 0 <= i < |toks| ==> |toks[i]| > 0
    ensures r.Failure? ==> r.error == PushTypeError
    ensures r.Success? && UniqueKeys(m) ==> UniqueKeys(r.value)
    decreases |toks|
  {
    if |toks| == 0 then Success(m)
    else
      match ApplyToken(m, toks[0])
      case Failure(e) => Failure(e)
      case Success(m1) => ApplyTokens(m1, toks[1..])
  }

  /** Properties no token names keep their value. */
  lemma {:induction false} ApplyTokensFrame(m: Meta, toks: seq<string>, k: string)
    requires forall i :: 0 <= i < |toks| ==> |toks[i]| > 0 && TokenKey(toks[i]) != k
    requires ApplyTokens(m, toks).Success?
    ensures Get(ApplyTokens(m, toks).value, k) == Get(m, k)
    decreases |toks|
  {
    if |toks| > 0 {
      var m1 := ApplyToken(m, toks[0]).value;
      ApplyTokensFrame(m1, toks[1..], k);
    }
  }

  lemma {:induction false} ApplyTokensAppend(m: Meta, a: seq<string>, b: seq<string>)
    requires forall i :: 0 <= i < |a| ==> |a[i]| > 0
    requires forall i :: 0 <= i < |b| ==> |b[i]| > 0
    ensures ApplyTokens(m, a + b) ==
            match ApplyTokens(m, a)
            case Failure(e) => Failure(e)
            case Success(m1) => ApplyTokens(m1, b)
    decreases |a|
  {
    if |a| == 0 {
      assert a + b == b;
    } else {
      assert (a + b)[0] == a[0] && (a + b)[1..] == a[1..] + b;
      match ApplyToken(m, a[0])
      case Failure(_) =>
      case Success(m1) => ApplyTokensAppend(m1, a[1..], b);
    }
  }

  /** The object the loop starts from: `{ classes: [] }`. */
  const InitialMeta: Meta := [("classes", StrList([]))]

  /** The final step: an empty `classes` list is deleted. */
  function DropEmptyClasses(m: Meta): (r: Meta)
    ensures Get(r, "classes") != Some(StrList([]))
    ensures Get(m, "classes") == Some(StrList([])) ==> Get(r, "classes").None?
    ensures forall k :: k != "classes" ==> Get(r, k) == Get(m, k)
    ensures Get(m, "classes") != Some(StrList([])) ==> r == m
    ensures UniqueKeys(m) ==> UniqueKeys(r)
  {
    if Get(m, "classes") == Some(StrList([])) then
      var r := Delete(m, "classes");
      assert UniqueKeys(m) ==> UniqueKeys(r) by {
        if UniqueKeys(m) {
          DeleteUnique(m, "classes");
        }
      }
      r
    else m
  }

  lemma {:induction false} DeleteUnique(m: Meta, k: string)
    requires UniqueKeys(m)
    ensures UniqueKeys(Delete(m, k))
    decreases |m|
  {
    if |m| > 0 {
      DeleteUnique(m[1..], k);
      var rest := Delete(m[1..], k);
      if m[0].0 != k {
        assert Get(m[1..], m[0].0).None?;
        forall j | 0 <= j < |rest| ensures rest[j].0 != m[0].0 {
          GetEntry(rest, j);
        }
      }
    }
  }

  function ParseTokens(toks: seq<string>): (r: Result<Meta>)
    requires forall i :: 0 <= i < |toks| ==> |toks[i]| > 0
    ensures r.Failure? ==> r.error == PushTypeError
    ensures r.Success? ==> UniqueKeys(r.value) && Get(r.value, "classes") != Some(StrList([]))
  {
    match ApplyTokens(InitialMeta, toks)
    case Failure(e) => Failure(e)
    case Success(m) => Success(DropEmptyClasses(m))
  }

  /** `parseLineMeta`. A `.class` token meeting a truthy non-array
      `classes` value throws the `TypeError` `push` raises. */
  function ParseLineMeta(lineMeta: string): (r: Result<Meta>)
    ensures r.Failure? ==> r.error == PushTypeError
    ensures r.Success? ==> UniqueKeys(r.value)
    ensures r.Success? ==> Get(r.value, "classes") != Some(StrList([]))
  {
    ParseTokens(Tokenize(Chars.Trim(lineMeta)))
  }

  /** Only properties some token names appear in the result; in
      particular `classes` is absent unless a token names it. */
  lemma {:induction false} ParseLineMetaKeys(lineMeta: string, k: string)
    requires ParseLineMeta(lineMeta).Success?
    requires forall t :: t in Tokenize(Chars.Trim(lineMeta)) ==> TokenKey(t) != k
    ensures Get(ParseLineMeta(lineMeta).value, k).None?
  {
    var toks := Tokenize(Chars.Trim(lineMeta));
    assert forall i :: 0 <= i < |toks| ==> toks[i] in toks;
    ApplyTokensFrame(InitialMeta, toks, k);
  }

  /** Whitespace alone parses to `{}`. */
  lemma {:induction false} ParseLineMetaBlank(lineMeta: string)
    requires !Chars.HasNonWhitespace(lineMeta)
    ensures ParseLineMeta(lineMeta) == Success([])
  {
    TokenizeBlank(Chars.Trim(lineMeta));
    assert Get(InitialMeta, "classes") == Some(StrList([]));
    assert Delete(InitialMeta, "classes") == [];
  }

  /** Written tokens joined by spaces, with any whitespace around them,
      parse as the token sequence. */
  lemma {:induction false} ParseLineMetaWords(pre: string, ws: seq<string>, post: string)
    requires Chars.AllWhitespace(pre) && Chars.AllWhitespace(post)
    requires |ws| > 0
    requires forall i :: 0 <= i < |ws| ==> IsWord(ws[i])
    ensures forall i :: 0 <= i < |ws| ==> |ws[i]| > 0
    ensures ParseLineMeta(pre + Chars.Join(ws, " ") + post) == ParseTokens(ws)
  {
    var t := Chars.Join(ws, " ");
    JoinEnds(ws, t);
    Chars.TrimPad(pre, t, post);
    TokenizeJoin(ws);
  }

  lemma {:induction false} JoinEnds(ws: seq<string>, t: string)
    requires |ws| > 0 && t == Chars.Join(ws, " ")
    requires forall i :: 0 <= i < |ws| ==> IsWord(ws[i])
    ensures |t| > 0 && !Chars.IsWhitespace(t[0]) && !Chars.IsWhitespace(t[|t| - 1])
    decreases |ws|
  {
    var w := ws[0];
    assert IsBare(w[0]) by {
      if !IsBareWord(w) {
        assert BareRun(w) > 0;
      }
    }
    if |ws| == 1 {
      if !IsBareWord(w) {
        assert w[|w| - 1] == '"';
      }
    } else {
      Strs.JoinCons(w, ws[1..], " ");
      assert [w] + ws[1..] == ws;
      JoinEnds(ws[1..], Chars.Join(ws[1..], " "));
    }
  }

  // parseMeta and detachMeta.

  /** What reading a text as YAML gave: an exception, a value that is not
      a plain object, or a plain object. */
  datatype YamlParse = YamlThrows | YamlNotPlainObject | YamlPlainObject(meta: Meta)

  /** `parseMeta`: a text with a line break is YAML, and anything but a
      plain object reads as `{}`; other text is line meta. */
  function ParseMeta(textMeta: string, parseYaml: string -> YamlParse): (r: Result<Meta>)
    ensures '\n' !in textMeta ==> r == ParseLineMeta(textMeta)
    ensures '\n' in textMeta ==> r.Success?
    ensures '\n' in textMeta && !parseYaml(textMeta).YamlPlainObject? ==> r.value == []
    ensures '\n' in textMeta && parseYaml(textMeta).YamlPlainObject? ==> r.value == parseYaml(textMeta).meta
  {
    if '\n' in textMeta then
      match parseYaml(textMeta)
      case YamlPlainObject(m) => Success(m)
      case _ => Success([])
    else ParseLineMeta(textMeta)
  }

  predicate NoTerminator(s: string) {
    forall j :: 0 <= j < |s| ==> !Chars.IsLineTerminator(s[j])
  }

  /** `^{(.*)}\n` matches the first `n` characters: `.` does not cross a
      line terminator. */
  predicate LineMetaAt(text: string, n: nat) {
    3 <= n <= |text| && text[0] == '{' && text[n - 2] == '}' && text[n - 1] == '\n' && NoTerminator(text[1..n - 2])
  }

  /** `^}\n` at position `k` of a multiline regex: a line that is exactly `}`. */
  predicate ClosesAt(text: string, k: nat) {
    1 <= k && k + 1 < |text| && Chars.IsLineTerminator(text[k - 1]) && text[k] == '}' && text[k + 1] == '\n'
  }

  /** A matched meta prefix: the captured meta text and the length of the
      whole match. */
  datatype Prefix = Prefix(inner: string, len: nat)

  /** The first alternative at offset 0. */
  function LinePrefix(text: string): (r: Option<Prefix>)
    ensures r.Some? ==> LineMetaAt(text, r.value.len) && r.value.inner == text[1..r.value.len - 2]
    ensures forall n :: LineMetaAt(text, n) ==> r.Some? && r.value.len == n
  {
    if |text| >= 3 && text[0] == '{' then
      var l := 1 + Strs.LineEnd(text[1..]);
      assert forall j :: 1 <= j < l ==> text[j] == text[1..][j - 1];
      if 2 <= l < |text| && text[l] == '\n' && text[l - 1] == '}' then
        assert text[1..l - 1] == text[1..][..l - 2];
        Some(Prefix(text[1..l - 1], l + 1))
      else
        assert forall n :: LineMetaAt(text, n) ==> n == l + 1 by {
          forall n | LineMetaAt(text, n) ensures n == l + 1 {
            LineMetaEnd(text, n, l);
          }
        }
        None
    else None
  }

  lemma {:induction false} LineMetaEnd(text: string, n: nat, l: nat)
    requires LineMetaAt(text, n)
    requires 1 <= l <= |text|
    requires l < |text| ==> Chars.IsLineTerminator(text[l])
    requires forall j :: 1 <= j < l ==> !Chars.IsLineTerminator(text[j])
    ensures n == l + 1
  {
    assert Chars.IsLineTerminator(text[n - 1]);
    assert forall j :: 1 <= j < n - 2 ==> text[j] == text[1..n - 2][j - 1];
  }

  /** The smallest `k >= from` where a line that is exactly `}` starts. */
  function FirstClose(text: string, from: nat): (r: Option<nat>)
    requires 1 <= from
    ensures r.Some? ==> from <= r.value && ClosesAt(text, r.value)
    ensures r.Some? ==> forall j :: from <= j < r.value ==> !ClosesAt(text, j)
    ensures r.None? ==> forall j :: from <= j ==> !ClosesAt(text, j)
    decreases |text| - from
  {
    if from + 1 >= |text| then None
    else if ClosesAt(text, from) then Some(from)
    else FirstClose(text, from + 1)
  }

  /** The second alternative at offset 0, `^{([\s\S]*?)^}\n`: the lazy
      group stops at the first line that is exactly `}`. */
  function ComplexPrefix(text: string): (r: Option<Prefix>)
    ensures r.Some? ==> |text| > 0 && text[0] == '{' && r.value.len >= 3 && ClosesAt(text, r.value.len - 2)
    ensures r.Some? ==> r.value.inner == text[1..r.value.len - 2]
    ensures r.Some? ==> forall j :: 1 <= j < r.value.len - 2 ==> !ClosesAt(text, j)
    ensures r.None? ==> |text| == 0 || text[0] != '{' || forall j :: 1 <= j ==> !ClosesAt(text, j)
  {
    if |text| > 0 && text[0] == '{' then
      match FirstClose(text, 1)
      case None => None
      case Some(k) =>
        assert k >= 2 by {
          assert !Chars.IsLineTerminator(text[0]);
        }
        Some(Prefix(text[1..k], k + 2))
    else None
  }

  /** The match `detachMeta`'s regex finds at offset 0, if any: the
      first alternative is tried first. */
  function FindPrefix(text: string): (r: Option<Prefix>)
    ensures r.Some? ==> r.value.len <= |text| && text[..r.value.len] == "{" + r.value.inner + "}\n"
    ensures (exists n :: LineMetaAt(text, n)) ==> r == LinePrefix(text)
    ensures r.None? <==> LinePrefix(text).None? && ComplexPrefix(text).None?
  {
    var line := LinePrefix(text);
    if line.Some? then
      PrefixShape(text, line.value);
      line
    else
      var complex := ComplexPrefix(text);
      assert complex.Some? ==> complex.value.len <= |text| && text[..complex.value.len] == "{" + complex.value.inner + "}\n" by {
        if complex.Some? {
          PrefixShape(text, complex.value);
        }
      }
      complex
  }

  lemma {:induction false} PrefixShape(text: string, p: Prefix)
    requires 3 <= p.len <= |text| && text[0] == '{' && text[p.len - 2] == '}' && text[p.len - 1] == '\n'
    requires p.inner == text[1..p.len - 2]
    ensures text[..p.len] == "{" + p.inner + "}\n"
  {
  }

  datatype Detached = Detached(meta: Meta, restText: string)

  /** `detachMeta`: a meta prefix is removed only at offset 0 and only
      when it is not the whole text; `parseMeta`'s exception propagates. */
  function DetachMeta(text: string, parseYaml: string -> YamlParse): (r: Result<Detached>)
    ensures FindPrefix(text).None? ==> r == Success(Detached([], text))
    ensures FindPrefix(text).Some? && FindPrefix(text).value.len == |text| ==> r == Success(Detached([], text))
    ensures FindPrefix(text).Some? && FindPrefix(text).value.len < |text| ==>
              var p := FindPrefix(text).value;
              && r.Success? == ParseMeta(p.inner, parseYaml).Success?
              && (r.Success? ==> r.value.meta == ParseMeta(p.inner, parseYaml).value)
              && (r.Success? ==> text == "{" + p.inner + "}\n" + r.value.restText)
    ensures |text| == 0 || text[0] != '{' ==> r == Success(Detached([], text))
  {
    match FindPrefix(text)
    case None => Success(Detached([], text))
    case Some(p) =>
      if p.len == |text| then Success(Detached([], text))
      else
        assert text == text[..p.len] + text[p.len..];
        match ParseMeta(p.inner, parseYaml)
        case Failure(e) => Failure(e)
        case Success(meta) => Success(Detached(meta, text[p.len..]))
  }
}
