/** The stringifier tests with no transpilers registered, as lemmas about
    the model: an empty root, three paragraphs (one with line meta, one
    with YAML meta) and a root holding an error node. The YAML writer is
    a parameter; the lemmas assume what it writes for the one meta that
    needs it. */
module StringifyExamples {
  import opened Wrappers
  import opened MetaValues
  import Chars
  import Strs = Str
  import StrBlocks = Blocks
  import MetaStringify
  import MetaExamples
  import opened Nodes
  import W = Stringifier

  /** `createParagraph(text, meta)`: a paragraph around an inliners group
      holding one text node. */
  function TestParagraph<D>(meta: Meta, text: string): Node<D> {
    Paragraph(meta, "", Inliners(Kids([Text([], "", text)])))
  }

  /** A test paragraph writes its text with its meta put back, and logs
      its text node and itself. */
  lemma TestParagraphWrites<D>(s: W.Stringifier<D>, meta: Meta, text: string)
    ensures var n := TestParagraph<D>(meta, text);
            && W.Writable(s, W.Corrected, n)
            && W.TextOf(s, W.Corrected, n) == W.WithMeta(text, meta, true, s.dumpYaml)
            && |W.Logged(n)| == 2
  {
    var t: Node<D> := Text([], "", text);
    assert W.WithMeta(text, [], false, s.dumpYaml) == text;
    assert [] + [Stepped(t, text)] == [Stepped(t, text)];
    assert W.Stringify(s, W.Corrected, t, []) == Success(W.Out(text, [Stepped(t, text)]));
    assert W.StringifyEach(s, W.Corrected, [t], "", []) == Success(W.Out(text, [Stepped(t, text)])) by {
      assert [t][1..] == [];
      assert text + "" + "" == text;
    }
    var n := TestParagraph<D>(meta, text);
    W.StringifyWritable(s, W.Corrected, n, []);
    assert W.LoggedEach([t]) == [t] by {
      assert [t][1..] == [];
    }
  }

  /** `indent` on the YAML the third paragraph's meta dumps to: two
      lines, each holding something, each get four spaces. */
  lemma YamlIndent(l1: string, l2: string)
    requires l1 == "foo:" && l2 == "    baz: bar"
    ensures Strs.Indent(l1 + "\n" + l2 + "\n", 4) == "    " + l1 + "\n" + "    " + l2 + "\n"
  {
    var y := l1 + "\n" + l2 + "\n";
    var r1 := l2 + ['\n'] + "";
    assert y == l1 + ['\n'] + r1;
    YamlLines(l1, l2);
    IndentStep(l1, r1);
    IndentStep(l2, "");
    IndentEmpty();
    IndentGlue(Strs.Indent(y, 4), Strs.IndentLine(l1, 4), Strs.Indent(r1, 4), Strs.IndentLine(l2, 4),
               Strs.Indent("", 4), l1, l2);
  }

  lemma IndentEmpty()
    ensures Strs.Indent("", 4) == ""
  {
    assert !Chars.HasNonWhitespace("");
  }

  lemma IndentGlue(x: string, p1: string, x1: string, p2: string, x2: string, l1: string, l2: string)
    requires x == p1 + ['\n'] + x1 && x1 == p2 + ['\n'] + x2 && x2 == ""
    requires p1 == Chars.Spaces(4) + l1 && p2 == Chars.Spaces(4) + l2
    ensures x == "    " + l1 + "\n" + "    " + l2 + "\n"
  {
    assert Chars.Spaces(4) == "    ";
  }

  lemma YamlLines(l1: string, l2: string)
    requires l1 == "foo:" && l2 == "    baz: bar"
    ensures forall j :: 0 <= j < |l1| ==> !Chars.IsLineTerminator(l1[j])
    ensures forall j :: 0 <= j < |l2| ==> !Chars.IsLineTerminator(l2[j])
    ensures Strs.IndentLine(l1, 4) == Chars.Spaces(4) + l1
    ensures Strs.IndentLine(l2, 4) == Chars.Spaces(4) + l2
  {
    assert !Chars.IsWhitespace(l1[0]);
    assert !Chars.IsWhitespace(l2[4]);
  }

  /** `indent` works one line at a time. */
  lemma IndentStep(line: string, rest: string)
    requires forall j :: 0 <= j < |line| ==> !Chars.IsLineTerminator(line[j])
    ensures Strs.Indent(line + ['\n'] + rest, 4) == Strs.IndentLine(line, 4) + ['\n'] + Strs.Indent(rest, 4)
  {
    var s := line + ['\n'] + rest;
    assert s == line + (['\n'] + rest);
    Strs.LineEndPrefix(line, ['\n'] + rest);
    assert s[..|line|] == line;
    assert s[|line| + 1..] == rest;
  }

  /** The third paragraph's meta holds an object, so a block writes it in
      the YAML form. */
  lemma YamlMetaExample(m: Meta, dumpYaml: Meta -> string, l1: string, l2: string)
    requires m == [("foo", Nested("baz: bar"))]
    requires l1 == "foo:" && l2 == "    baz: bar" && dumpYaml(m) == l1 + "\n" + l2 + "\n"
    ensures MetaStringify.StringifyMeta(Some(m), true, dumpYaml) == "{\n" + "    " + l1 + "\n" + "    " + l2 + "\n" + "}"
  {
    assert MetaStringify.HasObjectProps(m, MetaStringify.Corrected) by {
      assert m[0].0 != "id" && m[0].0 != "classes" && MetaStringify.IsObjectValue(m[0].1, MetaStringify.Corrected);
    }
    var x := Strs.Indent(dumpYaml(m), 4);
    assert MetaStringify.StringifyMeta(Some(m), true, dumpYaml) == "{\n" + x + "}";
    YamlIndent(l1, l2);
    YamlWrap(x, l1, l2);
  }

  lemma YamlWrap(x: string, l1: string, l2: string)
    requires x == "    " + l1 + "\n" + "    " + l2 + "\n"
    ensures "{\n" + x + "}" == "{\n" + "    " + l1 + "\n" + "    " + l2 + "\n" + "}"
  {
  }

  /** 'should stringify a few paragraphs': the three paragraphs joined with
      blank lines, the second with its line meta above it and the third
      with its meta dumped as YAML, indented and in braces above it; six
      steps, one per paragraph and one per text node. */
  lemma ThreeParagraphsFixture<D>(dumpYaml: Meta -> string, t1: string, t2: string, t3: string, m2: Meta, m3: Meta,
                                  l1: string, l2: string)
    requires t1 == "First Paragraph" && t2 == "Second,\nParagraph!" && t3 == "Third Paragraph"
    requires m2 == [("id", Str("p2")), ("classes", StrList(["foo", "bar"])), ("toc", Bool(true))]
    requires m3 == [("foo", Nested("baz: bar"))]
    requires l1 == "foo:" && l2 == "    baz: bar" && dumpYaml(m3) == l1 + "\n" + l2 + "\n"
    ensures var root := Blocks(Defined([TestParagraph<D>([], t1), TestParagraph(m2, t2), TestParagraph(m3, t3)]));
            var r := W.Stringify(W.NewStringifier([], dumpYaml), W.Corrected, root, []);
            && r.Success?
            && r.value.text == t1 + "\n\n" + (("{ #p2 .foo .bar +toc }" + "\n" + t2)
                               + "\n\n" + ("{\n" + "    " + l1 + "\n" + "    " + l2 + "\n" + "}" + "\n" + t3))
            && |r.value.steps| == 6
  {
    var s := W.NewStringifier<D>([], dumpYaml);
    TestParagraphWrites(s, [], t1);
    TestParagraphWrites(s, m2, t2);
    TestParagraphWrites(s, m3, t3);
    var w2 := "{ #p2 .foo .bar +toc }" + "\n" + t2;
    var w3 := "{\n" + "    " + l1 + "\n" + "    " + l2 + "\n" + "}" + "\n" + t3;
    ThreeParagraphMetas(dumpYaml, t1, t2, t3, m2, m3, l1, l2, w2, w3);
    Ends(t1, t3, w2, w3);
    ThreeRoot(s, TestParagraph<D>([], t1), TestParagraph(m2, t2), TestParagraph(m3, t3), t1, w2, w3);
  }

  /** Each test paragraph's text with its meta put back. */
  lemma ThreeParagraphMetas(dumpYaml: Meta -> string, t1: string, t2: string, t3: string, m2: Meta, m3: Meta,
                            l1: string, l2: string, w2: string, w3: string)
    requires m2 == [("id", Str("p2")), ("classes", StrList(["foo", "bar"])), ("toc", Bool(true))]
    requires m3 == [("foo", Nested("baz: bar"))]
    requires l1 == "foo:" && l2 == "    baz: bar" && dumpYaml(m3) == l1 + "\n" + l2 + "\n"
    requires w2 == "{ #p2 .foo .bar +toc }" + "\n" + t2
    requires w3 == "{\n" + "    " + l1 + "\n" + "    " + l2 + "\n" + "}" + "\n" + t3
    ensures W.WithMeta(t1, [], true, dumpYaml) == t1
    ensures W.WithMeta(t2, m2, true, dumpYaml) == w2
    ensures W.WithMeta(t3, m3, true, dumpYaml) == w3
  {
    MetaExamples.ParagraphMetaExample(m2, dumpYaml);
    YamlMetaExample(m3, dumpYaml, l1, l2);
  }

  /** A root over three writable nodes, two steps each, whose texts join
      into a trimmed text. */
  lemma ThreeRoot<D>(s: W.Stringifier<D>, n1: Node<D>, n2: Node<D>, n3: Node<D>, w1: string, w2: string, w3: string)
    requires W.Writable(s, W.Corrected, n1) && |W.Logged(n1)| == 2 && W.TextOf(s, W.Corrected, n1) == w1
    requires W.Writable(s, W.Corrected, n2) && |W.Logged(n2)| == 2 && W.TextOf(s, W.Corrected, n2) == w2
    requires W.Writable(s, W.Corrected, n3) && |W.Logged(n3)| == 2 && W.TextOf(s, W.Corrected, n3) == w3
    requires var j := w1 + "\n\n" + (w2 + "\n\n" + w3);
             |j| > 0 && !Chars.IsWhitespace(j[0]) && !Chars.IsWhitespace(j[|j| - 1])
    ensures var r := W.Stringify(s, W.Corrected, Blocks(Defined([n1, n2, n3])), []);
            r.Success? && r.value.text == w1 + "\n\n" + (w2 + "\n\n" + w3) && |r.value.steps| == 6
  {
    ThreeRootText(s, [n1, n2, n3], w1, w2, w3);
    LoggedThree(n1, n2, n3);
    W.StringifyLog(s, W.Corrected, Blocks(Defined([n1, n2, n3])), []);
  }

  lemma ThreeRootText<D>(s: W.Stringifier<D>, ns: seq<Node<D>>, w1: string, w2: string, w3: string)
    requires |ns| == 3
    requires W.Writable(s, W.Corrected, ns[0]) && W.TextOf(s, W.Corrected, ns[0]) == w1
    requires W.Writable(s, W.Corrected, ns[1]) && W.TextOf(s, W.Corrected, ns[1]) == w2
    requires W.Writable(s, W.Corrected, ns[2]) && W.TextOf(s, W.Corrected, ns[2]) == w3
    requires var j := w1 + "\n\n" + (w2 + "\n\n" + w3);
             |j| > 0 && !Chars.IsWhitespace(j[0]) && !Chars.IsWhitespace(j[|j| - 1])
    ensures var r := W.Stringify(s, W.Corrected, Blocks(Defined(ns)), []);
            r.Success? && r.value.text == w1 + "\n\n" + (w2 + "\n\n" + w3)
  {
    TextsThree(s, ns);
    ThreeTrimJoin(w1, w2, w3);
    BlocksWrite(s, ns, w1 + "\n\n" + (w2 + "\n\n" + w3));
  }

  lemma ThreeTrimJoin(w1: string, w2: string, w3: string)
    requires var j := w1 + "\n\n" + (w2 + "\n\n" + w3);
             |j| > 0 && !Chars.IsWhitespace(j[0]) && !Chars.IsWhitespace(j[|j| - 1])
    ensures Chars.Trim(Chars.Join([w1, w2, w3], W.BlockSep)) == w1 + "\n\n" + (w2 + "\n\n" + w3)
  {
    ThreeJoin(w1, w2, w3);
    StrBlocks.TrimNoop(w1 + "\n\n" + (w2 + "\n\n" + w3));
  }

  /** A blocks group of writable children writes their trimmed join. */
  lemma BlocksWrite<D>(s: W.Stringifier<D>, ns: seq<Node<D>>, j: string)
    requires forall i :: 0 <= i < |ns| ==> W.Writable(s, W.Corrected, ns[i])
    requires Chars.Trim(Chars.Join(W.TextsOf(s, W.Corrected, ns), W.BlockSep)) == j
    ensures var r := W.Stringify(s, W.Corrected, Blocks(Defined(ns)), []);
            r.Success? && r.value.text == j
  {
    W.StringifyWritable(s, W.Corrected, Blocks(Defined(ns)), []);
    W.GroupText(s, W.Corrected, ns, []);
  }

  /** The joined text starts and ends with no whitespace. */
  lemma Ends(t1: string, t3: string, w2: string, w3: string)
    requires t1 == "First Paragraph" && t3 == "Third Paragraph"
    requires |w3| >= |t3| && w3[|w3| - |t3|..] == t3
    ensures var j := t1 + "\n\n" + (w2 + "\n\n" + w3);
            |j| > 0 && !Chars.IsWhitespace(j[0]) && !Chars.IsWhitespace(j[|j| - 1])
  {
    var j := t1 + "\n\n" + (w2 + "\n\n" + w3);
    assert j[0] == t1[0];
    assert j[|j| - 1] == w3[|w3| - 1] == t3[|t3| - 1];
  }

  lemma TextsThree<D>(s: W.Stringifier<D>, ns: seq<Node<D>>)
    requires |ns| == 3
    ensures W.TextsOf(s, W.Corrected, ns)
            == [W.TextOf(s, W.Corrected, ns[0]), W.TextOf(s, W.Corrected, ns[1]), W.TextOf(s, W.Corrected, ns[2])]
  {
  }

  lemma ThreeJoin(a: string, b: string, c: string)
    ensures Chars.Join([a, b, c], W.BlockSep) == a + "\n\n" + (b + "\n\n" + c)
  {
    assert [a, b, c][1..] == [b, c];
    assert [b, c][1..] == [c];
    assert Chars.Join([c], W.BlockSep) == c;
    assert Chars.Join([b, c], W.BlockSep) == b + W.BlockSep + c;
  }

  lemma LoggedThree<D>(n1: Node<D>, n2: Node<D>, n3: Node<D>)
    requires |W.Logged(n1)| == 2 && |W.Logged(n2)| == 2 && |W.Logged(n3)| == 2
    ensures |W.LoggedEach([n1, n2, n3])| == 6
  {
    assert [n1, n2, n3][1..] == [n2, n3];
    assert [n2, n3][1..] == [n3];
    assert [n3][1..] == [];
    assert |W.LoggedEach([n3])| == 2;
    assert |W.LoggedEach([n2, n3])| == 4;
  }

  /** 'should stringify empty root and return empty string': nothing
      written, no step. */
  lemma EmptyRootFixture<D>(s: W.Stringifier<D>, rev: W.Defaults)
    ensures W.Stringify(s, rev, Blocks(Undefined), []) == Success(W.Out("", []))
    ensures W.Stringify(s, rev, Blocks(Defined([])), []) == Success(W.Out("", []))
  {
  }

  /** 'should stringify error block' and 'should stringify error inliner':
      a root holding one error node writes its raw text, with one step. */
  lemma ErrorFixtures<D>(s: W.Stringifier<D>, rev: W.Defaults, a: string, b: string, name: string, error: string)
    requires a == "Error block source text." && b == "Error inliner source text."
    ensures var r := W.Stringify(s, rev, Blocks(Defined([BlockError(name, a, error)])), []);
            r.Success? && r.value.text == a && |r.value.steps| == 1
    ensures var r := W.Stringify(s, rev, Blocks(Defined([InlinerError(name, b, error)])), []);
            r.Success? && r.value.text == b && |r.value.steps| == 1
  {
    ErrorRoot(s, rev, BlockError(name, a, error), a);
    ErrorRoot(s, rev, InlinerError(name, b, error), b);
  }

  lemma ErrorRoot<D>(s: W.Stringifier<D>, rev: W.Defaults, e: Node<D>, raw: string)
    requires (e.BlockError? && e.strBlock == raw) || (e.InlinerError? && e.strInliner == raw)
    requires |raw| > 0 && !Chars.IsWhitespace(raw[0]) && !Chars.IsWhitespace(raw[|raw| - 1])
    ensures var r := W.Stringify(s, rev, Blocks(Defined([e])), []);
            r.Success? && r.value.text == raw && |r.value.steps| == 1
  {
    var root := Blocks(Defined([e]));
    W.StringifyWritable(s, rev, root, []);
    W.GroupText(s, rev, [e], []);
    assert W.TextsOf(s, rev, [e]) == [raw];
    StrBlocks.TrimNoop(raw);
    W.StringifyLog(s, rev, root, []);
    assert W.LoggedEach([e]) == [e] by {
      assert [e][1..] == [];
    }
  }
}
