/** The examples the meta tests state, as lemmas about the model. */
module MetaExamples {
  import opened Wrappers
  import opened MetaValues
  import Chars
  import Strs = Str
  import MetaStringify

  const Corrected := MetaStringify.Corrected

  /** The line form of a meta with id, classes, flags and a plain string. */
  lemma InlineExample(m: Meta, dumpYaml: Meta -> string)
    requires m == [("id", Str("myId")), ("classes", StrList(["classOne", "classTwo"])),
                   ("flag", Bool(true)), ("disabled", Bool(false)), ("title", Str("Hello"))]
    ensures MetaStringify.StringifyMeta(Some(m), false, dumpYaml)
            == "{ #myId .classOne .classTwo +flag -disabled title=Hello }"
  {
    InlineLine(m);
    InlineText();
  }

  lemma InlineLine(m: Meta)
    requires m == [("id", Str("myId")), ("classes", StrList(["classOne", "classTwo"])),
                   ("flag", Bool(true)), ("disabled", Bool(false)), ("title", Str("Hello"))]
    ensures MetaStringify.LineOutput(m, Corrected)
            == ("#myId" + " ") + ("." + "classOne" + " ." + "classTwo" + " ")
               + ("+flag" + " " + "-disabled" + " " + "title=Hello" + " ")
  {
    KeyIndexUnique(m, "id", 0);
    KeyIndexUnique(m, "classes", 1);
    IdToken("myId", "#myId");
    ClassesOfTwo(m, "classOne", "classTwo");
    InlineEntries(m);
    Spaced1("#myId");
    Spaced3("+flag", "-disabled", "title=Hello");
  }

  lemma InlineEntries(m: Meta)
    requires m == [("id", Str("myId")), ("classes", StrList(["classOne", "classTwo"])),
                   ("flag", Bool(true)), ("disabled", Bool(false)), ("title", Str("Hello"))]
    ensures MetaStringify.EntryPieces(m, Corrected) == ["+flag", "-disabled", "title=Hello"]
  {
    FlagToken("flag", true, "+flag");
    FlagToken("disabled", false, "-disabled");
    PlainToken("title", "Hello", "title=Hello");
    EntryPiecesSkip2(m, Corrected);
    EntryPieces3(m[2..], Corrected);
  }

  lemma InlineText()
    ensures "{ " + ("#myId" + " ") + ("." + "classOne" + " ." + "classTwo" + " ")
            + ("+flag" + " " + "-disabled" + " " + "title=Hello" + " ") + "}"
            == "{ #myId .classOne .classTwo +flag -disabled title=Hello }"
  {
    assert "#myId" + " " == "#myId ";
    assert "." + "classOne" + " ." + "classTwo" + " " == ".classOne .classTwo ";
    InlineEntriesText();
    InlineJoin1();
    InlineJoin2();
  }

  lemma InlineEntriesText()
    ensures "+flag" + " " + "-disabled" + " " + "title=Hello" + " " == "+flag -disabled title=Hello "
  {
  }

  lemma InlineJoin1()
    ensures "{ " + "#myId " + ".classOne .classTwo " == "{ #myId .classOne .classTwo "
  {
  }

  lemma InlineJoin2()
    ensures "{ #myId .classOne .classTwo " + "+flag -disabled title=Hello " + "}"
            == "{ #myId .classOne .classTwo +flag -disabled title=Hello }"
  {
    assert "{ #myId .classOne .classTwo " + "+flag -disabled title=Hello "
           == "{ #myId .classOne .classTwo +flag -disabled title=Hello ";
  }

  /** `null` is not an object value: with the YAML form allowed, a meta
      holding only an id, `null` and a number keeps the line form. As
      written, `typeof null === 'object'` selects the YAML form. */
  lemma NullPropExample(m: Meta, dumpYaml: Meta -> string)
    requires m == [("id", Str("simple")), ("nullProp", Null), ("num", Num(42))]
    ensures MetaStringify.StringifyMetaAsWritten(Some(m), true, dumpYaml)
            == "{\n" + Strs.Indent(dumpYaml(m), 4) + "}"
    ensures MetaStringify.StringifyMeta(Some(m), true, dumpYaml) == "{ #simple nullProp num=42 }"
  {
    NullPropObjects(m);
    NullPropLine(m);
    NullPropText();
  }

  lemma NullPropObjects(m: Meta)
    requires m == [("id", Str("simple")), ("nullProp", Null), ("num", Num(42))]
    ensures MetaStringify.HasObjectProps(m, MetaStringify.AsWritten)
    ensures !MetaStringify.HasObjectProps(m, Corrected)
  {
    assert m[1].0 != "id" && m[1].0 != "classes" && MetaStringify.IsObjectValue(m[1].1, MetaStringify.AsWritten);
  }

  lemma NullPropText()
    ensures "{ " + ("#simple" + " ") + ("nullProp" + " " + "num=42" + " ") + "}" == "{ #simple nullProp num=42 }"
  {
  }

  lemma NullPropLine(m: Meta)
    requires m == [("id", Str("simple")), ("nullProp", Null), ("num", Num(42))]
    ensures MetaStringify.LineOutput(m, Corrected) == ("#simple" + " ") + ("nullProp" + " " + "num=42" + " ")
  {
    KeyIndexUnique(m, "id", 0);
    IdToken("simple", "#simple");
    assert Get(m, "classes").None?;
    NumToken42();
    NullPropEntries(m);
    Spaced1("#simple");
    Spaced2("nullProp", "num=42");
  }

  lemma NullPropEntries(m: Meta)
    requires m == [("id", Str("simple")), ("nullProp", Null), ("num", Num(42))]
    requires MetaStringify.EntryToken("num", Num(42), Corrected) == Some("num=42")
    ensures MetaStringify.EntryPieces(m, Corrected) == ["nullProp", "num=42"]
  {
    EntryPiecesStep(m, 2, Corrected);
    EntryPiecesStep(m, 1, Corrected);
    EntryPiecesStep(m, 0, Corrected);
    assert m[0..] == m;
  }

  lemma NumToken42()
    ensures MetaStringify.EntryToken("num", Num(42), Corrected) == Some("num=42")
  {
    assert Chars.NatToString(4) == "4";
    assert Chars.IntToString(42) == "42";
    assert "num" + "=" + "42" == "num=42";
  }

  lemma IdToken(id: string, t: string)
    requires t == "#" + id
    ensures "#" + ValueText(Str(id)) == t
  {
  }

  /** Strings with characters other than word characters are quoted; as
      written only a space triggers the quotes. */
  lemma QuotingExample(m: Meta)
    requires m == [("normalString", Str("hello")), ("specialString", Str("hello@world!")),
                   ("spacedString", Str("hello world"))]
    ensures MetaStringify.EntryPieces(m, MetaStringify.AsWritten)
            == ["normalString=hello", "specialString=hello@world!", "spacedString=\"hello world\""]
    ensures MetaStringify.EntryPieces(m, Corrected)
            == ["normalString=hello", "specialString=\"hello@world!\"", "spacedString=\"hello world\""]
  {
    QuotingTokens();
    QuotingEntries(m, MetaStringify.AsWritten);
    QuotingEntries(m, Corrected);
  }

  lemma QuotingEntries(m: Meta, rev: MetaStringify.Revision)
    requires m == [("normalString", Str("hello")), ("specialString", Str("hello@world!")),
                   ("spacedString", Str("hello world"))]
    ensures MetaStringify.EntryPieces(m, rev)
            == [MetaStringify.EntryToken("normalString", Str("hello"), rev).value,
                MetaStringify.EntryToken("specialString", Str("hello@world!"), rev).value,
                MetaStringify.EntryToken("spacedString", Str("hello world"), rev).value]
  {
    EntryPieces3(m, rev);
  }

  lemma QuotingTokens()
    ensures MetaStringify.EntryToken("normalString", Str("hello"), MetaStringify.AsWritten) == Some("normalString=hello")
    ensures MetaStringify.EntryToken("normalString", Str("hello"), Corrected) == Some("normalString=hello")
    ensures MetaStringify.EntryToken("specialString", Str("hello@world!"), MetaStringify.AsWritten) == Some("specialString=hello@world!")
    ensures MetaStringify.EntryToken("specialString", Str("hello@world!"), Corrected) == Some("specialString=\"hello@world!\"")
    ensures MetaStringify.EntryToken("spacedString", Str("hello world"), MetaStringify.AsWritten) == Some("spacedString=\"hello world\"")
    ensures MetaStringify.EntryToken("spacedString", Str("hello world"), Corrected) == Some("spacedString=\"hello world\"")
  {
    NeedsQuotesCases();
    QuotingText();
  }

  lemma NeedsQuotesCases()
    ensures !MetaStringify.NeedsQuotes("hello", MetaStringify.AsWritten)
    ensures !MetaStringify.NeedsQuotes("hello", Corrected)
    ensures !MetaStringify.NeedsQuotes("hello@world!", MetaStringify.AsWritten)
    ensures MetaStringify.NeedsQuotes("hello@world!", Corrected)
    ensures MetaStringify.NeedsQuotes("hello world", MetaStringify.AsWritten)
    ensures MetaStringify.NeedsQuotes("hello world", Corrected)
  {
    assert !MetaStringify.IsWordChar("hello@world!"[5]);
    assert "hello world"[5] == ' ';
    assert !MetaStringify.IsWordChar("hello world"[5]);
  }

  lemma QuotingText()
    ensures "normalString" + "=" + "hello" == "normalString=hello"
    ensures "specialString" + "=" + "hello@world!" == "specialString=hello@world!"
    ensures "specialString" + "=\"" + "hello@world!" + "\"" == "specialString=\"hello@world!\""
    ensures "spacedString" + "=\"" + "hello world" + "\"" == "spacedString=\"hello world\""
  {
  }

  /** The meta of the second paragraph in the stringifier tests: no
      property holds an object, so a block keeps the line form. */
  lemma ParagraphMetaExample(m: Meta, dumpYaml: Meta -> string)
    requires m == [("id", Str("p2")), ("classes", StrList(["foo", "bar"])), ("toc", Bool(true))]
    ensures MetaStringify.StringifyMeta(Some(m), true, dumpYaml) == "{ #p2 .foo .bar +toc }"
  {
    ParagraphMetaObjects(m);
    ParagraphMetaLine(m);
    ParagraphMetaText();
  }

  lemma ParagraphMetaObjects(m: Meta)
    requires m == [("id", Str("p2")), ("classes", StrList(["foo", "bar"])), ("toc", Bool(true))]
    ensures !MetaStringify.HasObjectProps(m, Corrected)
  {
  }

  lemma ParagraphMetaText()
    ensures "{ " + ("#p2" + " ") + ("." + "foo" + " ." + "bar" + " ") + ("+toc" + " ") + "}" == "{ #p2 .foo .bar +toc }"
  {
  }

  lemma ParagraphMetaLine(m: Meta)
    requires m == [("id", Str("p2")), ("classes", StrList(["foo", "bar"])), ("toc", Bool(true))]
    ensures MetaStringify.LineOutput(m, Corrected) == ("#p2" + " ") + ("." + "foo" + " ." + "bar" + " ") + ("+toc" + " ")
  {
    KeyIndexUnique(m, "id", 0);
    KeyIndexUnique(m, "classes", 1);
    IdToken("p2", "#p2");
    ClassesOfTwo(m, "foo", "bar");
    FlagToken("toc", true, "+toc");
    EntryPiecesSkip2(m, Corrected);
    EntryPiecesStep(m, 2, Corrected);
    assert m[3..] == [];
    Spaced1("#p2");
    Spaced1("+toc");
  }

  // Evaluation steps shared by the examples.

  lemma FlagToken(k: string, b: bool, t: string)
    requires MetaStringify.IsOther(k) && t == (if b then "+" else "-") + k
    ensures MetaStringify.EntryToken(k, Bool(b), Corrected) == Some(t)
  {
  }

  lemma PlainToken(k: string, v: string, t: string)
    requires MetaStringify.IsOther(k) && v != "" && t == k + "=" + v
    requires forall i :: 0 <= i < |v| ==> MetaStringify.IsWordChar(v[i])
    ensures MetaStringify.EntryToken(k, Str(v), Corrected) == Some(t)
  {
  }

  lemma ClassesOfTwo(m: Meta, a: string, b: string)
    requires Get(m, "classes") == Some(StrList([a, b]))
    ensures MetaStringify.ClassesPart(m) == "." + a + " ." + b + " "
  {
    var cls := MetaStringify.ClassTokens([a, b]);
    assert cls == ["." + a, "." + b];
    assert Chars.Join(cls, " ") == "." + a + " " + "." + b;
  }

  /** The pieces of a three-entry meta, one entry at a time. */
  lemma {:induction false} EntryPieces3(m: Meta, rev: MetaStringify.Revision)
    requires |m| == 3
    ensures MetaStringify.EntryPieces(m, rev)
            == Piece(m[0], rev) + Piece(m[1], rev) + Piece(m[2], rev)
  {
    EntryPiecesStep(m, 2, rev);
    EntryPiecesStep(m, 1, rev);
    EntryPiecesStep(m, 0, rev);
    assert m[3..] == [];
    assert m[0..] == m;
  }

  /** The id and classes entries write no piece of their own. */
  lemma {:induction false} EntryPiecesSkip2(m: Meta, rev: MetaStringify.Revision)
    requires |m| >= 2 && m[0].0 == "id" && m[1].0 == "classes"
    ensures MetaStringify.EntryPieces(m, rev) == MetaStringify.EntryPieces(m[2..], rev)
  {
    EntryPiecesStep(m, 1, rev);
    EntryPiecesStep(m, 0, rev);
    assert m[0..] == m;
  }

  function Piece(e: Entry, rev: MetaStringify.Revision): seq<string> {
    match MetaStringify.EntryToken(e.0, e.1, rev) case Some(t) => [t] case None => []
  }

  lemma {:induction false} EntryPiecesStep(m: Meta, i: nat, rev: MetaStringify.Revision)
    requires i < |m|
    ensures MetaStringify.EntryPieces(m[i..], rev)
            == (match MetaStringify.EntryToken(m[i].0, m[i].1, rev) case Some(t) => [t] case None => [])
               + MetaStringify.EntryPieces(m[i + 1..], rev)
  {
    assert m[i..][0] == m[i];
    assert m[i..][1..] == m[i + 1..];
  }

  lemma Spaced1(a: string)
    ensures MetaStringify.Spaced([a]) == a + " "
  {
    assert [a][1..] == [];
  }

  lemma Spaced2(a: string, b: string)
    ensures MetaStringify.Spaced([a, b]) == a + " " + b + " "
  {
    assert [a, b][1..] == [b];
    Spaced1(b);
  }

  lemma Spaced3(a: string, b: string, c: string)
    ensures MetaStringify.Spaced([a, b, c]) == a + " " + b + " " + c + " "
  {
    assert [a, b, c][1..] == [b, c];
    assert [b, c][1..] == [c];
    Spaced1(c);
  }
}
