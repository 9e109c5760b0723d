/** Writing meta: `stringifyMeta`.

    Two lines of the source disagree with what its tests expect, so the
    function is given in both readings: `AsWritten` follows the code,
    `Corrected` the tests. `null` is not an object value when choosing
    the YAML form, and a string is quoted unless it is a plain word.
    The YAML writer is a parameter. */
module MetaStringify {
  import opened Wrappers
  import opened MetaValues
  import Chars
  import Strs = Str
  import MetaParse

  datatype Revision = AsWritten | Corrected

  /** `typeof value === 'object'`, which as written also holds for `null`. */
  predicate IsObjectValue(v: Value, rev: Revision) {
    v.StrList? || v.Nested? || (rev == AsWritten && v.Null?)
  }

  /** Some property besides `id` and `classes` holds an object. */
  predicate HasObjectProps(m: Meta, rev: Revision) {
    exists i :: 0 <= i < |m| && m[i].0 != "id" && m[i].0 != "classes" && IsObjectValue(m[i].1, rev)
  }

  predicate IsWordChar(c: char) {
    ('a' <= c <= 'z') || ('A' <= c <= 'Z') || ('0' <= c <= '9') || c == '_'
  }

  /** As written, a string is quoted when it holds a space; corrected,
      whenever it holds anything but word characters. */
  predicate NeedsQuotes(s: string, rev: Revision) {
    if rev == AsWritten then ' ' in s else exists i :: 0 <= i < |s| && !IsWordChar(s[i])
  }

  /** `#id `, when `meta.id` is truthy. */
  function IdPieces(m: Meta): (r: seq<string>)
    ensures |r| <= 1
  {
    match Get(m, "id")
    case Some(v) => if Truthy(v) then ["#" + ValueText(v)] else []
    case None => []
  }

  function ClassTokens(items: seq<string>): (r: seq<string>)
    ensures |r| == |items|
    ensures forall i :: 0 <= i < |items| ==> r[i] == "." + items[i]
  {
    seq(|items|, i requires 0 <= i < |items| => "." + items[i])
  }

  /** `meta.classes.map(item => '.' + item).join(' ') + ' '` when
      `classes` is an array; an empty array still writes the space. */
  function ClassesPart(m: Meta): string {
    match Get(m, "classes")
    case Some(StrList(items)) => Chars.Join(ClassTokens(items), " ") + " "
    case _ => ""
  }

  /** The token one property contributes to the line form, if any. */
  function EntryToken(k: string, v: Value, rev: Revision): Option<string> {
    if k == "id" || k == "classes" then None
    else if v.Bool? then Some((if v.b then "+" else "-") + k)
    else if !Truthy(v) then Some(k)
    else if v.Str? then Some(if NeedsQuotes(v.s, rev) then k + "=\"" + v.s + "\"" else k + "=" + v.s)
    else if v.Num? then Some(k + "=" + Chars.IntToString(v.n))
    else None
  }

  /** The tokens of all properties, in entry order. */
  function EntryPieces(m: Meta, rev: Revision): (r: seq<string>)
    ensures |r| <= |m|
    decreases |m|
  {
    if |m| == 0 then []
    else
      (match EntryToken(m[0].0, m[0].1, rev) case Some(t) => [t] case None => [])
      + EntryPieces(m[1..], rev)
  }

  /** Each token followed by one space. */
  function Spaced(ps: seq<string>): string
    decreases |ps|
  {
    if |ps| == 0 then "" else ps[0] + " " + Spaced(ps[1..])
  }

  /** The text between `{` and `}` of the line form, before the leading
      space. */
  function LineOutput(m: Meta, rev: Revision): string {
    Spaced(IdPieces(m)) + ClassesPart(m) + Spaced(EntryPieces(m, rev))
  }

  /** The line form: nothing when there is nothing to write, otherwise
      `{ `, the tokens each followed by a space, and `}`. */
  function StringifyLine(m: Meta, rev: Revision): string {
    var out := LineOutput(m, rev);
    if out == "" then "" else "{ " + out + "}"
  }

  /** A non-empty line form opens with `{ ` and closes with ` }`. */
  lemma StringifyLineShape(m: Meta, rev: Revision)
    ensures var r := StringifyLine(m, rev);
            r == "" || (|r| >= 4 && r[..2] == "{ " && r[|r| - 2..] == " }")
  {
    var out := LineOutput(m, rev);
    if out != "" {
      LineOutputEndsInSpace(m, rev);
      BracesShape(out, StringifyLine(m, rev));
    }
  }

  lemma BracesShape(out: string, r: string)
    requires |out| > 0 && out[|out| - 1] == ' ' && r == "{ " + out + "}"
    ensures |r| >= 4 && r[..2] == "{ " && r[|r| - 2..] == " }"
  {
    assert r[|r| - 2] == out[|out| - 1];
    assert r[|r| - 2..] == [r[|r| - 2], r[|r| - 1]];
  }

  lemma {:induction false} SpacedEnd(ps: seq<string>)
    requires |ps| > 0
    ensures var s := Spaced(ps); |s| > 0 && s[|s| - 1] == ' '
    decreases |ps|
  {
    if |ps| > 1 {
      SpacedEnd(ps[1..]);
    }
  }

  lemma LineOutputEndsInSpace(m: Meta, rev: Revision)
    requires LineOutput(m, rev) != ""
    ensures var out := LineOutput(m, rev); out[|out| - 1] == ' '
  {
    var a := Spaced(IdPieces(m));
    var b := ClassesPart(m);
    var c := Spaced(EntryPieces(m, rev));
    if |EntryPieces(m, rev)| > 0 {
      SpacedEnd(EntryPieces(m, rev));
    } else if b != "" {
      assert c == "";
    } else {
      assert c == "" && b == "";
      assert |IdPieces(m)| > 0;
      SpacedEnd(IdPieces(m));
    }
  }

  /** `stringifyMeta(meta, complexMetaAllowed)` under either reading:
      `undefined` gives nothing; the YAML form is chosen when allowed and
      some property holds an object. */
  function StringifyMetaWith(meta: Option<Meta>, complexAllowed: bool, dumpYaml: Meta -> string, rev: Revision): (r: string)
    ensures meta.None? ==> r == ""
    ensures meta.Some? && !complexAllowed ==> r == StringifyLine(meta.value, rev)
    ensures r == "" || (r[0] == '{' && r[|r| - 1] == '}')
  {
    match meta
    case None => ""
    case Some(m) =>
      if complexAllowed && HasObjectProps(m, rev) then "{\n" + Strs.Indent(dumpYaml(m), 4) + "}"
      else StringifyLine(m, rev)
  }

  function StringifyMetaAsWritten(meta: Option<Meta>, complexAllowed: bool, dumpYaml: Meta -> string): string {
    StringifyMetaWith(meta, complexAllowed, dumpYaml, AsWritten)
  }

  /** The corrected `stringifyMeta` the rest of the model uses. */
  function StringifyMeta(meta: Option<Meta>, complexAllowed: bool, dumpYaml: Meta -> string): string {
    StringifyMetaWith(meta, complexAllowed, dumpYaml, Corrected)
  }

  /** Only lists and nested YAML values call for the YAML form: a meta
      whose other properties hold scalars, `null` among them, is written
      in line form even where the YAML form is allowed. As written, one
      `null` property is enough to switch to YAML. */
  lemma ScalarsStayInLine(m: Meta, dumpYaml: Meta -> string)
    requires forall i :: 0 <= i < |m| && m[i].0 != "id" && m[i].0 != "classes" ==> !m[i].1.StrList? && !m[i].1.Nested?
    ensures StringifyMeta(Some(m), true, dumpYaml) == StringifyLine(m, Corrected)
    ensures (exists i :: 0 <= i < |m| && m[i].0 != "id" && m[i].0 != "classes" && m[i].1.Null?) ==>
              StringifyMetaAsWritten(Some(m), true, dumpYaml) == "{\n" + Strs.Indent(dumpYaml(m), 4) + "}"
  {
    assert !HasObjectProps(m, Corrected);
  }

  // Reading the line form back.

  /** A key the line form writes so that it reads back: one bare word,
      without `=`, not starting with a token symbol. */
  predicate SafeKey(k: string) {
    MetaParse.IsBareWord(k) && '=' !in k && !MetaParse.IsPrefixSymbol(k[0])
  }

  /** A value that reads back: no falsy numbers or strings (they are
      written as bare keys and read as `null`), no objects (skipped), no
      quotes or `=` in strings, and no string `tryParseInt` turns into a
      number. */
  predicate SafeValue(v: Value) {
    match v
    case Null => true
    case Bool(_) => true
    case Num(n) => n != 0
    case Str(s) => s != "" && '"' !in s && '=' !in s && Strs.TryParseInt(s).Text?
    case StrList(_) => false
    case Nested(_) => false
  }

  predicate IsOther(k: string) {
    k != "id" && k != "classes"
  }

  predicate SafeId(m: Meta) {
    match Get(m, "id")
    case None => true
    case Some(v) => v.Str? && MetaParse.IsBareWord(v.s)
  }

  predicate SafeClasses(m: Meta) {
    match Get(m, "classes")
    case None => true
    case Some(v) => v.StrList? && |v.items| > 0 && forall i :: 0 <= i < |v.items| ==> MetaParse.AllBare(v.items[i])
  }

  predicate SafeEntries(m: Meta) {
    forall i :: 0 <= i < |m| && IsOther(m[i].0) ==> SafeKey(m[i].0) && SafeValue(m[i].1)
  }

  predicate LineSafe(m: Meta) {
    UniqueKeys(m) && SafeId(m) && SafeClasses(m) && SafeEntries(m)
  }

  /** Under the restrictions above, the text between the braces of the
      corrected line form parses back to the same object. */
  lemma {:induction false} LineRoundTrip(m: Meta, dumpYaml: Meta -> string)
    requires LineSafe(m)
    ensures var out := StringifyMeta(Some(m), false, dumpYaml);
            var inner := if out == "" then "" else out[1..|out| - 1];
            && MetaParse.ParseLineMeta(inner).Success?
            && ToMap(MetaParse.ParseLineMeta(inner).value) == ToMap(m)
  {
    var out := StringifyMeta(Some(m), false, dumpYaml);
    assert out == StringifyLine(m, Corrected);
    var ps := LinePieces(m);
    LineOutputPieces(m, ps);
    PiecesParse(m, ps);
    var inner := if out == "" then "" else out[1..|out| - 1];
    InnerParses(ps, out, inner);
    SameLookupsSameMap(MetaParse.ParseTokens(ps).value, m);
  }

  /** The text between the braces reads back as the tokens written. */
  lemma {:induction false} InnerParses(ps: seq<string>, out: string, inner: string)
    requires forall i :: 0 <= i < |ps| ==> |ps[i]| > 0 && MetaParse.IsWord(ps[i])
    requires out == if Spaced(ps) == "" then "" else "{ " + Spaced(ps) + "}"
    requires inner == if out == "" then "" else out[1..|out| - 1]
    ensures MetaParse.ParseLineMeta(inner) == MetaParse.ParseTokens(ps)
  {
    if out == "" {
      SpacedEmpty(ps);
      assert Chars.Trim("") == "";
      assert MetaParse.Tokenize("") == [];
    } else {
      SpacedJoin(ps);
      assert inner == " " + Chars.Join(ps, " ") + " ";
      assert Chars.AllWhitespace(" ");
      MetaParse.ParseLineMetaWords(" ", ps, " ");
    }
  }

  /** The tokens the corrected line form writes, in order. */
  function LinePieces(m: Meta): seq<string> {
    IdPieces(m) + ClassPieces(m) + EntryPieces(m, Corrected)
  }

  function ClassPieces(m: Meta): seq<string> {
    match Get(m, "classes")
    case Some(StrList(items)) => ClassTokens(items)
    case _ => []
  }

  lemma {:induction false} SpacedAppend(a: seq<string>, b: seq<string>)
    ensures Spaced(a + b) == Spaced(a) + Spaced(b)
    decreases |a|
  {
    if |a| == 0 {
      assert a + b == b;
    } else {
      assert (a + b)[0] == a[0] && (a + b)[1..] == a[1..] + b;
      SpacedAppend(a[1..], b);
    }
  }

  lemma {:induction false} SpacedJoin(ps: seq<string>)
    ensures |ps| > 0 ==> Spaced(ps) == Chars.Join(ps, " ") + " "
    decreases |ps|
  {
    if |ps| > 1 {
      SpacedJoin(ps[1..]);
      Strs.JoinCons(ps[0], ps[1..], " ");
      assert [ps[0]] + ps[1..] == ps;
    }
  }

  lemma SpacedEmpty(ps: seq<string>)
    requires Spaced(ps) == ""
    ensures ps == []
  {
  }

  lemma {:induction false} LineOutputPieces(m: Meta, ps: seq<string>)
    requires SafeClasses(m) && ps == LinePieces(m)
    ensures LineOutput(m, Corrected) == Spaced(ps)
  {
    var cls := ClassPieces(m);
    assert ClassesPart(m) == Spaced(cls) by {
      if cls != [] {
        SpacedJoin(cls);
      }
    }
    SpacedAppend(IdPieces(m), cls);
    SpacedAppend(IdPieces(m) + cls, EntryPieces(m, Corrected));
  }

  // Reading back, token by token.

  lemma SplitOnNone(a: string, c: char)
    requires c !in a
    ensures Chars.SplitOn(a, c) == [a]
  {
  }

  lemma {:induction false} SplitOnOnce(a: string, b: string, c: char)
    requires c !in a && c !in b
    ensures Chars.SplitOn(a + [c] + b, c) == [a, b]
  {
    var s := a + [c] + b;
    MetaParse.IndexOfFirst(a, c, b);
    assert s[..|a|] == a && s[|a| + 1..] == b;
    SplitOnNone(b, c);
  }

  lemma {:induction false} AllBareConcat(a: string, b: string)
    requires MetaParse.AllBare(a) && MetaParse.AllBare(b)
    ensures MetaParse.AllBare(a + b)
  {
    assert forall i :: 0 <= i < |a + b| ==> (a + b)[i] == if i < |a| then a[i] else b[i - |a|];
  }

  lemma CharBare(c: char)
    requires IsWordChar(c) || c in "#.+-="
    ensures MetaParse.IsBare(c)
  {
  }

  /** Digits, and therefore the text of an integer, are bare. */
  lemma {:induction false} DigitsBare(d: string)
    requires forall i :: 0 <= i < |d| ==> Strs.IsDecDigit(d[i])
    ensures MetaParse.AllBare(d) && '=' !in d && '"' !in d
  {
    forall i | 0 <= i < |d| ensures MetaParse.IsBare(d[i]) {
      CharBare(d[i]);
    }
  }

  lemma {:induction false} IntToStringBare(n: int)
    ensures |Chars.IntToString(n)| > 0
    ensures MetaParse.AllBare(Chars.IntToString(n)) && '=' !in Chars.IntToString(n)
    ensures Chars.IntToString(n)[0] != '"'
  {
    if n < 0 {
      var d := Chars.NatToString(-n);
      Strs.NatToStringDigits(-n);
      DigitsBare(d);
      CharBare('-');
      AllBareConcat("-", d);
    } else {
      Strs.NatToStringDigits(n);
      DigitsBare(Chars.NatToString(n));
    }
  }

  /** A safe property writes one token, and reading that token stores
      the property. */
  lemma {:induction false} EntryApplies(st: Meta, k: string, v: Value)
    requires IsOther(k) && SafeKey(k) && SafeValue(v)
    ensures EntryToken(k, v, Corrected).Some?
    ensures MetaParse.IsWord(EntryToken(k, v, Corrected).value)
    ensures MetaParse.ApplyToken(st, EntryToken(k, v, Corrected).value) == Success(Set(st, k, v))
  {
    var t := EntryToken(k, v, Corrected).value;
    match v
    case Null =>
      SplitOnNone(k, '=');
    case Bool(b) =>
      assert t == (if b then "+" else "-") + k;
      assert t[1..] == k;
      CharBare(t[0]);
      AllBareConcat(if b then "+" else "-", k);
    case Num(n) =>
      NumEntry(st, k, n, t);
    case Str(x) =>
      if NeedsQuotes(x, Corrected) {
        QuotedEntry(st, k, x, t);
      } else {
        PlainEntry(st, k, x, t);
      }
  }

  lemma {:induction false} NumEntry(st: Meta, k: string, n: int, t: string)
    requires SafeKey(k) && n != 0 && t == k + "=" + Chars.IntToString(n)
    ensures MetaParse.IsWord(t)
    ensures MetaParse.ApplyToken(st, t) == Success(Set(st, k, Num(n)))
  {
    var d := Chars.IntToString(n);
    IntToStringBare(n);
    PlainWord(k, d, t);
    SplitOnOnce(k, d, '=');
    Strs.TryParseIntPrefix(n, "");
    assert d + "" == d;
  }

  /** `key=value` with a bare value is a bare word that starts like `key`. */
  lemma {:induction false} PlainWord(k: string, x: string, t: string)
    requires SafeKey(k) && MetaParse.AllBare(x) && t == k + "=" + x
    ensures MetaParse.IsWord(t) && t[0] == k[0]
  {
    CharBare('=');
    AllBareConcat(k, "=");
    AllBareConcat(k + "=", x);
  }

  lemma {:induction false} PlainEntry(st: Meta, k: string, x: string, t: string)
    requires SafeKey(k) && SafeValue(Str(x)) && !NeedsQuotes(x, Corrected)
    requires t == k + "=" + x
    ensures MetaParse.IsWord(t)
    ensures MetaParse.ApplyToken(st, t) == Success(Set(st, k, Str(x)))
  {
    forall i | 0 <= i < |x| ensures MetaParse.IsBare(x[i]) {
      CharBare(x[i]);
    }
    PlainWord(k, x, t);
    SplitOnOnce(k, x, '=');
    assert MetaParse.ValueOf(x) == Str(x) by {
      assert x[0] != '"';
    }
  }

  lemma {:induction false} QuotedEntry(st: Meta, k: string, x: string, t: string)
    requires SafeKey(k) && SafeValue(Str(x))
    requires t == k + "=\"" + x + "\""
    ensures MetaParse.IsWord(t)
    ensures MetaParse.ApplyToken(st, t) == Success(Set(st, k, Str(x)))
  {
    var q := "\"" + x + "\"";
    assert t == k + "=" + q;
    QuotedWord(k, x, q, t);
    QuotedSplit(k, x, q, t);
  }

  lemma {:induction false} QuotedWord(k: string, x: string, q: string, t: string)
    requires SafeKey(k) && SafeValue(Str(x))
    requires q == "\"" + x + "\"" && t == k + "=" + q
    ensures MetaParse.IsWord(t)
  {
    CharBare('=');
    AllBareConcat(k, "=");
    QuotedWordIntro(k + "=", x, t);
  }

  /** A bare prefix followed by a quoted string without quotes is a word. */
  lemma {:induction false} QuotedWordIntro(a: string, x: string, w: string)
    requires MetaParse.AllBare(a) && |a| > 0 && '"' !in x
    requires w == a + "\"" + x + "\""
    ensures MetaParse.IsWord(w)
  {
    var q := "\"" + x + "\"";
    assert w == a + q;
    MetaParse.BareRunConcat(a, q);
    assert w[|a|] == '"' && w[|w| - 1] == '"';
    assert w[|a| + 1..|w| - 1] == x;
    assert MetaParse.IsQuotedWord(w);
  }

  lemma {:induction false} QuotedSplit(k: string, x: string, q: string, t: string)
    requires SafeKey(k) && SafeValue(Str(x))
    requires q == "\"" + x + "\"" && t == k + "=" + q
    ensures t[0] == k[0]
    ensures Chars.SplitOn(t, '=') == [k, q]
    ensures MetaParse.ValueOf(q) == Str(x)
  {
    assert '=' !in q;
    SplitOnOnce(k, q, '=');
    assert q[1..|q| - 1] == x;
  }

  /** Reference definition: the other properties of `es` stored into
      `st` one by one, in entry order. */
  function StoreEntries(st: Meta, es: Meta): Meta
    decreases |es|
  {
    if |es| == 0 then st
    else StoreEntries(if IsOther(es[0].0) then Set(st, es[0].0, es[0].1) else st, es[1..])
  }

  /** After storing, every other property of `es` has its value from
      `es`, and every other key its value from `st`. */
  lemma {:induction false} StoreEntriesLookups(st: Meta, es: Meta)
    requires UniqueKeys(es)
    ensures forall k :: Get(StoreEntries(st, es), k) == if IsOther(k) && Get(es, k).Some? then Get(es, k) else Get(st, k)
    decreases |es|
  {
    if |es| > 0 {
      var e, rest := es[0], es[1..];
      assert [e] + rest == es;
      assert UniqueKeys(rest) by {
        assert forall i :: 0 <= i < |rest| ==> rest[i] == es[i + 1];
      }
      assert Get(rest, e.0).None? by {
        forall i | 0 <= i < |rest| ensures rest[i].0 != e.0 {
          assert rest[i] == es[i + 1];
        }
      }
      forall k ensures Get(es, k) == if e.0 == k then Some(e.1) else Get(rest, k) {
        GetCons(e, rest, k);
      }
      var st1 := if IsOther(e.0) then Set(st, e.0, e.1) else st;
      StoreEntriesLookups(st1, rest);
    }
  }

  /** The entry tokens of `es` are words, and reading them into `st`
      stores the other properties of `es`. */
  lemma {:induction false} ApplyEntries(st: Meta, es: Meta)
    requires SafeEntries(es)
    ensures forall i :: 0 <= i < |EntryPieces(es, Corrected)| ==> |EntryPieces(es, Corrected)[i]| > 0 && MetaParse.IsWord(EntryPieces(es, Corrected)[i])
    ensures MetaParse.ApplyTokens(st, EntryPieces(es, Corrected)) == Success(StoreEntries(st, es))
    decreases |es|
  {
    if |es| > 0 {
      var e, rest := es[0], es[1..];
      assert SafeEntries(rest) by {
        assert forall i :: 0 <= i < |rest| ==> rest[i] == es[i + 1];
      }
      if IsOther(e.0) {
        var st1 := Set(st, e.0, e.1);
        ApplyEntries(st1, rest);
        EntryStep(st, es, st1);
      } else {
        assert EntryToken(e.0, e.1, Corrected).None?;
        assert EntryPieces(es, Corrected) == EntryPieces(rest, Corrected);
        ApplyEntries(st, rest);
      }
    }
  }

  lemma {:induction false} EntryStep(st: Meta, es: Meta, st1: Meta)
    requires |es| > 0 && SafeEntries(es) && IsOther(es[0].0)
    requires st1 == Set(st, es[0].0, es[0].1)
    requires forall i :: 0 <= i < |EntryPieces(es[1..], Corrected)| ==> |EntryPieces(es[1..], Corrected)[i]| > 0 && MetaParse.IsWord(EntryPieces(es[1..], Corrected)[i])
    ensures forall i :: 0 <= i < |EntryPieces(es, Corrected)| ==> |EntryPieces(es, Corrected)[i]| > 0 && MetaParse.IsWord(EntryPieces(es, Corrected)[i])
    ensures MetaParse.ApplyTokens(st, EntryPieces(es, Corrected)) == MetaParse.ApplyTokens(st1, EntryPieces(es[1..], Corrected))
  {
    var e := es[0];
    var t := EntryToken(e.0, e.1, Corrected).value;
    var ts := EntryPieces(es, Corrected);
    assert ts == [t] + EntryPieces(es[1..], Corrected);
    assert ts[0] == t && ts[1..] == EntryPieces(es[1..], Corrected);
    EntryApplies(st, e.0, e.1);
    ApplyTokensCons(st, ts, st1);
  }

  /** The class tokens, read into a state whose `classes` is an array,
      extend that array in place. */
  lemma {:induction false} ApplyClasses(st: Meta, pre: seq<string>, items: seq<string>)
    requires Get(st, "classes") == Some(StrList(pre))
    ensures forall i :: 0 <= i < |ClassTokens(items)| ==> |ClassTokens(items)[i]| > 0
    ensures MetaParse.ApplyTokens(st, ClassTokens(items)) == Success(Set(st, "classes", StrList(pre + items)))
    decreases |items|
  {
    if |items| == 0 {
      assert pre + items == pre;
      SetSame(st, "classes", StrList(pre));
    } else {
      var x, rest := items[0], items[1..];
      assert (pre + [x]) + rest == pre + items;
      var st1 := Set(st, "classes", StrList(pre + [x]));
      ApplyClasses(st1, pre + [x], rest);
      SetTwice(st, "classes", StrList(pre + [x]), StrList(pre + items));
      ClassesStep(st, pre, items, st1);
    }
  }

  lemma {:induction false} ClassesStep(st: Meta, pre: seq<string>, items: seq<string>, st1: Meta)
    requires Get(st, "classes") == Some(StrList(pre)) && |items| > 0
    requires st1 == Set(st, "classes", StrList(pre + [items[0]]))
    ensures MetaParse.ApplyTokens(st, ClassTokens(items)) == MetaParse.ApplyTokens(st1, ClassTokens(items[1..]))
  {
    var t := ClassTokens(items);
    ClassTokensTail(items, t);
    ClassStep(st, pre, items[0], t[0]);
    ApplyTokensCons(st, t, st1);
  }

  lemma ApplyTokensCons(m: Meta, toks: seq<string>, m1: Meta)
    requires |toks| > 0 && forall i :: 0 <= i < |toks| ==> |toks[i]| > 0
    requires MetaParse.ApplyToken(m, toks[0]) == Success(m1)
    ensures MetaParse.ApplyTokens(m, toks) == MetaParse.ApplyTokens(m1, toks[1..])
  {
  }

  lemma ClassTokensTail(items: seq<string>, t: seq<string>)
    requires |items| > 0 && t == ClassTokens(items)
    ensures t[0] == "." + items[0] && t[1..] == ClassTokens(items[1..])
  {
  }

  /** One `.class` token appends to an array `classes`. */
  lemma {:induction false} ClassStep(st: Meta, pre: seq<string>, item: string, t: string)
    requires Get(st, "classes") == Some(StrList(pre))
    requires t == "." + item
    ensures MetaParse.ApplyToken(st, t) == Success(Set(st, "classes", StrList(pre + [item])))
  {
    assert t[0] == '.' && t[1..] == item;
    assert !MetaParse.ClassesBlocked(st);
    assert MetaParse.ClassesOf(st) == pre;
  }

  /** Storing a property's own value changes nothing. */
  lemma SetSame(m: Meta, k: string, v: Value)
    requires Get(m, k) == Some(v)
    ensures Set(m, k, v) == m
  {
    var i := KeyIndex(m, k);
    assert m[i := (k, v)] == m;
  }

  /** Storing twice into a present property keeps the second value in place. */
  lemma SetTwice(m: Meta, k: string, a: Value, b: Value)
    requires Get(m, k).Some?
    ensures Set(Set(m, k, a), k, b) == Set(m, k, b)
  {
    var i := KeyIndex(m, k);
    var m1 := Set(m, k, a);
    assert m1 == m[i := (k, a)];
    KeyIndexUnique(m1, k, i);
    assert m1[i := (k, b)] == m[i := (k, b)];
  }

  /** The tokens of a safe meta read back to the same lookups. */
  lemma {:induction false} PiecesParse(m: Meta, ps: seq<string>)
    requires LineSafe(m) && ps == LinePieces(m)
    ensures forall i :: 0 <= i < |ps| ==> |ps[i]| > 0 && MetaParse.IsWord(ps[i])
    ensures MetaParse.ParseTokens(ps).Success?
    ensures forall k :: Get(MetaParse.ParseTokens(ps).value, k) == Get(m, k)
  {
    var st0 := MetaParse.InitialMeta;
    var st1 := IdState(m, st0);
    var st2 := ClassesState(m, st1);
    var st3 := StoreEntries(st2, m);
    StoreEntriesLookups(st2, m);
    FinalLookups(m, st0, st1, st2, st3);
    PiecesRead(m, ps, st0, st1, st2, st3);
  }

  /** The state after the id token. */
  function IdState(m: Meta, st0: Meta): Meta {
    match Get(m, "id")
    case Some(v) => Set(st0, "id", v)
    case None => st0
  }

  /** The state after the class tokens. */
  function ClassesState(m: Meta, st1: Meta): Meta {
    match Get(m, "classes")
    case Some(v) => Set(st1, "classes", v)
    case None => st1
  }

  lemma {:induction false} PiecesRead(m: Meta, ps: seq<string>, st0: Meta, st1: Meta, st2: Meta, st3: Meta)
    requires SafeId(m) && SafeClasses(m) && SafeEntries(m)
    requires ps == LinePieces(m)
    requires st0 == MetaParse.InitialMeta && st1 == IdState(m, st0) && st2 == ClassesState(m, st1)
    requires st3 == StoreEntries(st2, m)
    ensures forall i :: 0 <= i < |ps| ==> |ps[i]| > 0 && MetaParse.IsWord(ps[i])
    ensures MetaParse.ParseTokens(ps) == Success(MetaParse.DropEmptyClasses(st3))
  {
    var ids := IdPieces(m);
    var cls := ClassPieces(m);
    var ens := EntryPieces(m, Corrected);
    WordsOfIdAndClasses(m);
    AfterId(m, st0, st1);
    AfterClasses(m, st1, st2);
    ApplyEntries(st2, m);
    Words3(ids, cls, ens);
    Compose3(st0, ids, cls, ens, st1, st2, st3);
  }

  lemma {:induction false} Words3(a: seq<string>, b: seq<string>, c: seq<string>)
    requires forall i :: 0 <= i < |a| ==> MetaParse.IsWord(a[i])
    requires forall i :: 0 <= i < |b| ==> MetaParse.IsWord(b[i])
    requires forall i :: 0 <= i < |c| ==> MetaParse.IsWord(c[i])
    ensures forall i :: 0 <= i < |(a + b) + c| ==> |((a + b) + c)[i]| > 0 && MetaParse.IsWord(((a + b) + c)[i])
  {
    var s := (a + b) + c;
    forall i | 0 <= i < |s| ensures MetaParse.IsWord(s[i]) {
      if i < |a| {
        assert s[i] == a[i];
      } else if i < |a| + |b| {
        assert s[i] == b[i - |a|];
      } else {
        assert s[i] == c[i - |a| - |b|];
      }
    }
  }

  lemma {:induction false} Compose3(st0: Meta, a: seq<string>, b: seq<string>, c: seq<string>, st1: Meta, st2: Meta, st3: Meta)
    requires forall i :: 0 <= i < |a| ==> |a[i]| > 0
    requires forall i :: 0 <= i < |b| ==> |b[i]| > 0
    requires forall i :: 0 <= i < |c| ==> |c[i]| > 0
    requires forall i :: 0 <= i < |(a + b) + c| ==> |((a + b) + c)[i]| > 0
    requires MetaParse.ApplyTokens(st0, a) == Success(st1)
    requires MetaParse.ApplyTokens(st1, b) == Success(st2)
    requires MetaParse.ApplyTokens(st2, c) == Success(st3)
    ensures MetaParse.ApplyTokens(st0, (a + b) + c) == Success(st3)
  {
    MetaParse.ApplyTokensAppend(st0, a, b);
    MetaParse.ApplyTokensAppend(st0, a + b, c);
  }

  lemma {:induction false} WordsOfIdAndClasses(m: Meta)
    requires SafeId(m) && SafeClasses(m)
    ensures forall i :: 0 <= i < |IdPieces(m)| ==> MetaParse.IsWord(IdPieces(m)[i])
    ensures forall i :: 0 <= i < |ClassPieces(m)| ==> MetaParse.IsWord(ClassPieces(m)[i])
  {
    if Get(m, "id").Some? {
      AllBareConcat("#", Get(m, "id").value.s);
    }
    if Get(m, "classes").Some? {
      var items := Get(m, "classes").value.items;
      forall i | 0 <= i < |items| ensures MetaParse.IsWord(ClassTokens(items)[i]) {
        AllBareConcat(".", items[i]);
      }
    }
  }

  lemma {:induction false} AfterId(m: Meta, st0: Meta, st1: Meta)
    requires SafeId(m) && st1 == IdState(m, st0)
    ensures forall i :: 0 <= i < |IdPieces(m)| ==> |IdPieces(m)[i]| > 0
    ensures MetaParse.ApplyTokens(st0, IdPieces(m)) == Success(st1)
  {
    match Get(m, "id")
    case None =>
    case Some(v) =>
      var t := "#" + v.s;
      assert IdPieces(m) == [t];
      assert t[1..] == v.s;
  }

  lemma {:induction false} AfterClasses(m: Meta, st1: Meta, st2: Meta)
    requires SafeClasses(m) && Get(st1, "classes") == Some(StrList([]))
    requires st2 == ClassesState(m, st1)
    ensures forall i :: 0 <= i < |ClassPieces(m)| ==> |ClassPieces(m)[i]| > 0
    ensures MetaParse.ApplyTokens(st1, ClassPieces(m)) == Success(st2)
  {
    match Get(m, "classes")
    case None =>
    case Some(v) =>
      assert [] + v.items == v.items;
      ApplyClasses(st1, [], v.items);
  }

  lemma {:induction false} FinalLookups(m: Meta, st0: Meta, st1: Meta, st2: Meta, st3: Meta)
    requires LineSafe(m)
    requires st0 == MetaParse.InitialMeta && st1 == IdState(m, st0) && st2 == ClassesState(m, st1)
    requires forall k :: Get(st3, k) == if IsOther(k) && Get(m, k).Some? then Get(m, k) else Get(st2, k)
    ensures forall k :: Get(MetaParse.DropEmptyClasses(st3), k) == Get(m, k)
  {
    forall k ensures Get(MetaParse.DropEmptyClasses(st3), k) == Get(m, k) {
      if IsOther(k) {
        assert Get(st0, k).None?;
      }
    }
  }
}
