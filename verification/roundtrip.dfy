/** Parsing and writing back: with no strategies registered, a text made
    of plain blocks parses to one paragraph per block, and the stringifier
    writes that tree back to the same text, logging as many steps as the
    parser did. */
module RoundTrip {
  import opened Wrappers
  import Chars
  import Strs = Str
  import StrBlocks = Blocks
  import opened Nodes
  import MetaParse
  import PS = Parser
  import PF = ParserFacts
  import W = Stringifier

  /** A paragraph the default parser makes of a plain block writes back
      that block, and logs its text node and itself. */
  lemma PlainParagraphWrites<D>(s: W.Stringifier<D>, n: Node<D>, b: string)
    requires PF.PlainParagraphOf(n, b)
    ensures W.Writable(s, W.Corrected, n) && W.TextOf(s, W.Corrected, n) == b && |W.Logged(n)| == 2
  {
    var t := KidsOf(n.content.children)[0];
    assert n.content.children == Defined([t]);
    assert t == Text([], t.autoId, b);
    assert W.WithMeta(b, [], false, s.dumpYaml) == b;
    assert [] + [Stepped(t, b)] == [Stepped(t, b)];
    assert W.Stringify(s, W.Corrected, t, []) == Success(W.Out(b, [Stepped(t, b)]));
    assert W.StringifyEach(s, W.Corrected, [t], "", []) == Success(W.Out(b, [Stepped(t, b)])) by {
      assert [t][1..] == [];
      assert b + "" + "" == b;
    }
    W.StringifyWritable(s, W.Corrected, n, []);
    assert W.LoggedEach([t]) == [t] by {
      assert [t][1..] == [];
    }
  }

  /** Plain paragraphs write back their blocks, two steps each. */
  lemma {:induction false} PlainParagraphsWrite<D>(s: W.Stringifier<D>, ns: seq<Node<D>>, bs: seq<string>)
    requires PF.PlainParagraphs(ns, bs)
    ensures W.TextsOf(s, W.Corrected, ns) == bs
    ensures forall i :: 0 <= i < |ns| ==> W.Writable(s, W.Corrected, ns[i])
    ensures |W.LoggedEach(ns)| == 2 * |ns|
    decreases |ns|
  {
    forall i | 0 <= i < |ns| ensures W.Writable(s, W.Corrected, ns[i]) && W.TextOf(s, W.Corrected, ns[i]) == bs[i] {
      PlainParagraphWrites(s, ns[i], bs[i]);
    }
    if |ns| > 0 {
      PlainParagraphWrites(s, ns[0], bs[0]);
      PlainParagraphsWrite(s, ns[1..], bs[1..]);
    }
  }

  /** No carriage return survives joining blocks that have none. */
  lemma {:induction false} JoinNoReturn(bs: seq<string>)
    requires forall k :: 0 <= k < |bs| ==> '\r' !in bs[k]
    ensures '\r' !in StrBlocks.JoinBlocks(bs)
    decreases |bs|
  {
    if |bs| > 1 {
      JoinNoReturn(bs[1..]);
      assert StrBlocks.JoinBlocks(bs) == bs[0] + "\n\n" + StrBlocks.JoinBlocks(bs[1..]);
    }
  }

  /** Blocks that split back whole and do not open with meta, joined with
      blank lines, parse with the default parser and write back to the
      same text, with the same number of steps, whatever stringifiers are
      registered. */
  lemma ParseThenStringify<D>(parseYaml: string -> MetaParse.YamlParse, options: PS.ParseOptions,
                              s: W.Stringifier<D>, bs: seq<string>)
    requires |bs| > 0
    requires forall k :: 0 <= k < |bs| ==> StrBlocks.GoodBlock(bs[k]) && PF.PlainBlock(bs[k])
    ensures var r := PS.Parse(PS.NewParser<D>([], parseYaml), StrBlocks.JoinBlocks(bs), options);
            && r.Success?
            && var w := W.Stringify(s, W.Corrected, r.value.value, []);
               && w.Success? && w.value.text == StrBlocks.JoinBlocks(bs)
               && |w.value.steps| == |r.value.steps|
  {
    var text := StrBlocks.JoinBlocks(bs);
    JoinNoReturn(bs);
    StrBlocks.TextToStrBlocksJoin(bs);
    PF.DefaultParser<D>(parseYaml);
    var p := PS.NewParser<D>([], parseYaml);
    PF.PlainParse(p, text, options);
    var r := PS.Parse(p, text, options);
    var ns := KidsOf(r.value.value.children);
    WriteRoot(s, r.value.value, ns, bs);
  }

  /** The root over plain paragraphs writes their blocks joined with blank
      lines, two steps per block. */
  lemma WriteRoot<D>(s: W.Stringifier<D>, root: Node<D>, ns: seq<Node<D>>, bs: seq<string>)
    requires |bs| > 0 && root.Blocks? && ns == KidsOf(root.children)
    requires forall k :: 0 <= k < |bs| ==> StrBlocks.GoodBlock(bs[k])
    requires PF.PlainParagraphs(ns, bs)
    ensures var w := W.Stringify(s, W.Corrected, root, []);
            && w.Success? && w.value.text == StrBlocks.JoinBlocks(bs) && |w.value.steps| == 2 * |bs|
  {
    assert root == Blocks(Defined(ns));
    PlainParagraphsWrite(s, ns, bs);
    RootText(s, ns, bs);
    W.StringifyLog(s, W.Corrected, root, []);
  }

  lemma RootText<D>(s: W.Stringifier<D>, ns: seq<Node<D>>, bs: seq<string>)
    requires |bs| > 0 && forall k :: 0 <= k < |bs| ==> StrBlocks.GoodBlock(bs[k])
    requires W.TextsOf(s, W.Corrected, ns) == bs
    requires forall i :: 0 <= i < |ns| ==> W.Writable(s, W.Corrected, ns[i])
    ensures var w := W.Stringify(s, W.Corrected, Blocks(Defined(ns)), []);
            w.Success? && w.value.text == StrBlocks.JoinBlocks(bs)
  {
    W.StringifyWritable(s, W.Corrected, Blocks(Defined(ns)), []);
    W.GroupText(s, W.Corrected, ns, []);
    StrBlocks.JoinBlocksShape(bs);
    StrBlocks.TrimNoop(StrBlocks.JoinBlocks(bs));
  }
}
