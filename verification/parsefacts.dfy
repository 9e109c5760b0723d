/** What `parseBlock`, `parseBlocks` and `parse` (`parser.ts`) promise:
    the first claiming block strategy decides, its failure becomes an
    error node holding the raw block, an unclaimed block is a paragraph
    over the inline parse of its text, and every node is logged once,
    after the nodes inside it. */
module ParserFacts {
  import opened Wrappers
  import opened MetaValues
  import Chars
  import Strs = Str
  import StrBlocks = Blocks
  import MetaParse
  import AutoIds
  import opened Nodes
  import opened Strategies
  import PS = Parser
  import opened InlinePlan

  /** What `parseBlock` can produce: a paragraph, a block element or a
      block error node. */
  predicate BlockLevel<D>(n: Node<D>) {
    n.Paragraph? || (n.Element? && n.place == Block) || n.BlockError?
  }

  /** Strategy `k` is the first whose `canParse` accepts the text. */
  predicate FirstClaimer<D>(fs: seq<(string, BlockStrategy<D>)>, text: string, k: nat) {
    k < |fs| && fs[k].1.canParse(text) && forall j :: 0 <= j < k ==> !fs[j].1.canParse(text)
  }

  /** A meta prefix that does not parse fails the whole block. */
  lemma DetachFailure<D>(p: PS.Parser<D>, strBlock: string, reg: AutoIds.Registry, steps: seq<Stepped<D>>)
    requires MetaParse.DetachMeta(strBlock, p.parseYaml).Failure?
    ensures PS.ParseBlock(p, strBlock, reg, steps) == Failure(MetaParse.DetachMeta(strBlock, p.parseYaml).error)
  {
  }

  /** The first claiming strategy decides the block, with no
      backtracking: its parse data makes a block element named after it,
      carrying the detached meta, whose auto id is what its `alterAutoId`
      makes of the generated one with the fewest dashes appended that
      make it unregistered; if `createParseData`
      fails, a block error node with that name keeps the whole raw block,
      meta prefix included. Either way the node is logged once, with the
      raw block. */
  lemma {:induction false} BlockClaimed<D>(p: PS.Parser<D>, strBlock: string, reg: AutoIds.Registry, steps: seq<Stepped<D>>,
                                           meta: Meta, rest: string, k: nat)
    requires MetaParse.DetachMeta(strBlock, p.parseYaml) == Success(MetaParse.Detached(meta, rest))
    requires FirstClaimer(p.blockFactories, rest, k)
    ensures var r := PS.ParseBlock(p, strBlock, reg, steps);
            var (name, s) := p.blockFactories[k];
            && r.Success?
            && r.value.steps == steps + [Stepped(r.value.value, strBlock)]
            && match s.createParseData(meta, rest)
               case Success(d) =>
                 && r.value.value.Element? && r.value.value.place == Block && r.value.value.name == name
                 && r.value.value.meta == meta && r.value.value.data == d
                 && r.value.value.autoId == AutoIds.Finalize(reg, s.alterAutoId(AutoIds.Generate(name, strBlock), rest, d, strBlock))
                 && r.value.value.autoId !in reg.ids && r.value.reg.ids == reg.ids + {r.value.value.autoId}
               case Failure(e) =>
                 r.value == PS.Parsed(BlockError(name, strBlock, e), reg, steps + [Stepped(BlockError(name, strBlock, e), strBlock)])
  {
    assert PS.FirstClaim(p.blockFactories, rest) == Some(k);
    var s := p.blockFactories[k].1;
    match s.createParseData(meta, rest)
    case Success(d) =>
    case Failure(e) =>
  }

  /** A block no strategy claims is a paragraph: it carries the detached
      meta and a fresh `paragraph` auto id made before its children's,
      and its children are the inline parse of the rest of the block,
      which decides whether the block fails. The paragraph is logged
      once, with the raw block, after its children. */
  lemma {:induction false} BlockFallback<D>(p: PS.Parser<D>, strBlock: string, reg: AutoIds.Registry, steps: seq<Stepped<D>>,
                                            meta: Meta, rest: string)
    requires MetaParse.DetachMeta(strBlock, p.parseYaml) == Success(MetaParse.Detached(meta, rest))
    requires forall j :: 0 <= j < |p.blockFactories| ==> !p.blockFactories[j].1.canParse(rest)
    ensures var r := PS.ParseBlock(p, strBlock, reg, steps);
            var (pid, reg1) := AutoIds.CreateAutoId(reg, None, ParagraphName, strBlock);
            && (r.Success? <==> MetasParse(p, PlanOf(p, rest)))
            && (r.Success? ==>
                  var n := r.value.value;
                  var out := r.value.steps;
                  && n.Paragraph? && n.meta == meta && n.autoId == pid && pid !in reg.ids
                  && n.content.Inliners?
                  && |out| > |steps| && out[|out| - 1] == Stepped(n, strBlock)
                  && Extends(out[..|out| - 1], steps)
                  && Realizes(p, PlanOf(p, rest), KidsOf(n.content.children), out[|steps|..|out| - 1]))
  {
    assert PS.FirstClaim(p.blockFactories, rest).None?;
    var (pid, reg1) := AutoIds.CreateAutoId(reg, None, ParagraphName, strBlock);
    ParagraphCase(p, strBlock, reg, steps, meta, rest);
    ParseInlinersPlan(p, rest, reg1, steps);
    var ri := PS.ParseInliners(p, rest, reg1, steps);
    if ri.Success? {
      var inl := ri.value;
      var n := Paragraph(meta, pid, Inliners(Kids(inl.value)));
      var out := inl.steps + [Stepped(n, strBlock)];
      assert out[..|out| - 1] == inl.steps;
      assert out[|steps|..|out| - 1] == inl.steps[|steps|..];
    }
  }

  /** An unclaimed block, with the inline parse left unevaluated. */
  lemma ParagraphCase<D>(p: PS.Parser<D>, strBlock: string, reg: AutoIds.Registry, steps: seq<Stepped<D>>,
                         meta: Meta, rest: string)
    requires MetaParse.DetachMeta(strBlock, p.parseYaml) == Success(MetaParse.Detached(meta, rest))
    requires PS.FirstClaim(p.blockFactories, rest).None?
    ensures var (pid, reg1) := AutoIds.CreateAutoId(reg, None, ParagraphName, strBlock);
            var ri := PS.ParseInliners(p, rest, reg1, steps);
            var r := PS.ParseBlock(p, strBlock, reg, steps);
            && (ri.Failure? ==> r == Failure(ri.error))
            && (ri.Success? ==>
                  var n := Paragraph(meta, pid, Inliners(Kids(ri.value.value)));
                  r == Success(PS.Parsed(n, ri.value.reg, ri.value.steps + [Stepped(n, strBlock)])))
  {
  }

  /** A successful block is a block-level node, logged last. */
  lemma ParseBlockShape<D>(p: PS.Parser<D>, strBlock: string, reg: AutoIds.Registry, steps: seq<Stepped<D>>)
    ensures var r := PS.ParseBlock(p, strBlock, reg, steps);
            r.Success? ==> BlockLevel(r.value.value) && |r.value.steps| > |steps| && Extends(r.value.steps, steps)
                           && r.value.steps[|r.value.steps| - 1] == Stepped(r.value.value, strBlock)
  {
    match MetaParse.DetachMeta(strBlock, p.parseYaml)
    case Failure(_) =>
      DetachFailure(p, strBlock, reg, steps);
    case Success(detached) =>
      match PS.FirstClaim(p.blockFactories, detached.restText)
      case Some(k) =>
        BlockClaimed(p, strBlock, reg, steps, detached.meta, detached.restText, k);
      case None =>
        FallbackShape(p, strBlock, reg, steps, detached.meta, detached.restText);
  }

  lemma FallbackShape<D>(p: PS.Parser<D>, strBlock: string, reg: AutoIds.Registry, steps: seq<Stepped<D>>,
                         meta: Meta, rest: string)
    requires MetaParse.DetachMeta(strBlock, p.parseYaml) == Success(MetaParse.Detached(meta, rest))
    requires PS.FirstClaim(p.blockFactories, rest) == None
    ensures var r := PS.ParseBlock(p, strBlock, reg, steps);
            r.Success? ==> BlockLevel(r.value.value) && |r.value.steps| > |steps| && Extends(r.value.steps, steps)
                           && r.value.steps[|r.value.steps| - 1] == Stepped(r.value.value, strBlock)
  {
    BlockFallback(p, strBlock, reg, steps, meta, rest);
    var r := PS.ParseBlock(p, strBlock, reg, steps);
    if r.Success? {
      LastStepExtends(r.value.steps, steps);
    }
  }

  /** A log whose prefix without its last entry extends another, extends
      it too. */
  lemma LastStepExtends<D>(out: seq<Stepped<D>>, steps: seq<Stepped<D>>)
    requires |out| > |steps| && Extends(out[..|out| - 1], steps)
    ensures Extends(out, steps)
  {
    assert out[..|out| - 1][..|steps|] == out[..|steps|];
  }

  /** One step of `ParseEach`, with the block's and the remaining
      blocks' results given. */
  lemma EachCons<D>(p: PS.Parser<D>, strBlocks: seq<string>, reg: AutoIds.Registry, steps: seq<Stepped<D>>,
                    b: PS.Parsed<Node<D>, D>, more: PS.Parsed<seq<Node<D>>, D>)
    requires |strBlocks| > 0
    requires PS.ParseBlock(p, strBlocks[0], reg, steps) == Success(b)
    requires PS.ParseEach(p, strBlocks[1..], b.reg, b.steps) == Success(more)
    ensures PS.ParseEach(p, strBlocks, reg, steps) == Success(PS.Parsed([b.value] + more.value, more.reg, more.steps))
  {
  }

  /** `ParseEach` succeeds only when its first block and then the rest
      do. */
  lemma EachSuccess<D>(p: PS.Parser<D>, strBlocks: seq<string>, reg: AutoIds.Registry, steps: seq<Stepped<D>>)
    requires |strBlocks| > 0
    requires PS.ParseEach(p, strBlocks, reg, steps).Success?
    ensures PS.ParseBlock(p, strBlocks[0], reg, steps).Success?
    ensures var b := PS.ParseBlock(p, strBlocks[0], reg, steps).value;
            PS.ParseEach(p, strBlocks[1..], b.reg, b.steps).Success?
  {
  }

  /** The shape facts carried from one block and the rest to the whole. */
  lemma EachConsShape<D>(steps: seq<Stepped<D>>, b: PS.Parsed<Node<D>, D>, more: PS.Parsed<seq<Node<D>>, D>)
    requires BlockLevel(b.value) && Extends(b.steps, steps)
    requires (forall i :: 0 <= i < |more.value| ==> BlockLevel(more.value[i])) && Extends(more.steps, b.steps)
    ensures var all := [b.value] + more.value;
            (forall i :: 0 <= i < |all| ==> BlockLevel(all[i])) && Extends(more.steps, steps)
  {
    var all := [b.value] + more.value;
    assert forall i :: 1 <= i < |all| ==> all[i] == more.value[i - 1];
    assert more.steps[..|steps|] == b.steps[..|steps|];
  }

  /** Parsing the blocks in turn: each result is a block-level node, and
      the log only grows. */
  lemma {:induction false} ParseEachShape<D>(p: PS.Parser<D>, strBlocks: seq<string>, reg: AutoIds.Registry, steps: seq<Stepped<D>>)
    ensures var r := PS.ParseEach(p, strBlocks, reg, steps);
            r.Success? ==> (forall i :: 0 <= i < |r.value.value| ==> BlockLevel(r.value.value[i]))
                           && Extends(r.value.steps, steps)
    decreases |strBlocks|
  {
    if |strBlocks| > 0 && PS.ParseEach(p, strBlocks, reg, steps).Success? {
      EachSuccess(p, strBlocks, reg, steps);
      var b := PS.ParseBlock(p, strBlocks[0], reg, steps).value;
      ParseBlockShape(p, strBlocks[0], reg, steps);
      ParseEachShape(p, strBlocks[1..], b.reg, b.steps);
      var more := PS.ParseEach(p, strBlocks[1..], b.reg, b.steps).value;
      EachConsShape(steps, b, more);
      EachCons(p, strBlocks, reg, steps, b, more);
    }
  }

  /** A parsed root holds only block-level nodes. */
  lemma ParseRootBlocks<D>(p: PS.Parser<D>, text: string, options: PS.ParseOptions)
    ensures var r := PS.Parse(p, text, options);
            r.Success? ==> forall n :: n in KidsOf(r.value.value.children) ==> BlockLevel(n)
  {
    if text != "" {
      var strBlocks := StrBlocks.TextToStrBlocks(Strs.NormalizeLineEndings(text));
      ParseEachShape(p, strBlocks, PS.ResolveRegistry(options), []);
    }
  }

  // ---------------------------------------------------------------------
  // A parser without transpilers.

  /** A block the default parser reads as plain text: not empty, no meta
      prefix, and already normalized. */
  predicate PlainBlock(b: string) {
    |b| > 0 && b[0] != '{' && '\r' !in b
  }

  /** Without inliner strategies the plan of a text is its normalized text
      as one piece. */
  lemma PlainPlan<D>(p: PS.Parser<D>, text: string)
    requires |p.inlinerFactories| == 0
    ensures PlanOf(p, text) == TextPiece(Strs.NormalizeLineEndings(text))
  {
    if text != "" {
      var t := Strs.NormalizeLineEndings(text);
      assert PS.Candidates(p.inlinerFactories, t, 0) == [];
      assert PS.ResolveRanges(p.inlinerFactories, t) == [];
      assert PS.Lead(t, []) == t;
      assert Plan(t, []) == TextPiece(t) + [];
    }
  }

  /** Without inliner strategies, a text that is not empty once
      normalized becomes one text node holding it, logged once. */
  lemma PlainInliners<D>(p: PS.Parser<D>, text: string, reg: AutoIds.Registry, steps: seq<Stepped<D>>)
    requires |p.inlinerFactories| == 0
    requires Strs.NormalizeLineEndings(text) != ""
    ensures var r := PS.ParseInliners(p, text, reg, steps);
            var t := Strs.NormalizeLineEndings(text);
            && r.Success? && |r.value.value| == 1
            && r.value.value[0].Text? && r.value.value[0].meta == [] && r.value.value[0].text == t
            && r.value.steps == steps + [Stepped(r.value.value[0], t)]
  {
    var t := Strs.NormalizeLineEndings(text);
    PlainPlan(p, text);
    assert PlanOf(p, text) == [PlannedText(t)];
    ParseInlinersPlan(p, text, reg, steps);
    var out := PS.ParseInliners(p, text, reg, steps).value.steps;
    assert out == out[..|steps|] + out[|steps|..];
  }

  /** A paragraph around one text node holding the block. */
  predicate PlainParagraphOf<D>(n: Node<D>, block: string) {
    && n.Paragraph? && n.meta == [] && n.content.Inliners?
    && var kids := KidsOf(n.content.children);
       |kids| == 1 && kids[0].Text? && kids[0].meta == [] && kids[0].text == block
  }

  /** Without strategies, a plain block is a paragraph around one text
      node holding the block: the text node is logged, then the
      paragraph. */
  lemma PlainParagraph<D>(p: PS.Parser<D>, block: string, reg: AutoIds.Registry, steps: seq<Stepped<D>>)
    requires |p.blockFactories| == 0 && |p.inlinerFactories| == 0
    requires PlainBlock(block)
    ensures var r := PS.ParseBlock(p, block, reg, steps);
            && r.Success? && PlainParagraphOf(r.value.value, block)
            && r.value.steps == steps + [Stepped(KidsOf(r.value.value.content.children)[0], block), Stepped(r.value.value, block)]
  {
    assert PS.FirstClaim(p.blockFactories, block).None?;
    var (pid, reg1) := AutoIds.CreateAutoId(reg, None, ParagraphName, block);
    ParagraphCase(p, block, reg, steps, [], block);
    PlainInliners(p, block, reg1, steps);
    var inl := PS.ParseInliners(p, block, reg1, steps).value;
    ParagraphGlue(block, pid, steps, inl);
  }

  /** The paragraph built around the inline parse of a plain block. */
  lemma ParagraphGlue<D>(block: string, pid: string, steps: seq<Stepped<D>>, inl: PS.Parsed<seq<Node<D>>, D>)
    requires |inl.value| == 1 && inl.value[0].Text? && inl.value[0].meta == [] && inl.value[0].text == block
    requires inl.steps == steps + [Stepped(inl.value[0], block)]
    ensures var n := Paragraph([], pid, Inliners(Kids(inl.value)));
            && PlainParagraphOf(n, block)
            && inl.steps + [Stepped(n, block)] == steps + [Stepped(KidsOf(n.content.children)[0], block), Stepped(n, block)]
  {
  }

  /** Without strategies, plain blocks parse to one such paragraph each,
      with two steps per block. */
  lemma {:induction false} PlainEach<D>(p: PS.Parser<D>, blocks: seq<string>, reg: AutoIds.Registry, steps: seq<Stepped<D>>)
    requires |p.blockFactories| == 0 && |p.inlinerFactories| == 0
    requires forall i :: 0 <= i < |blocks| ==> PlainBlock(blocks[i])
    ensures var r := PS.ParseEach(p, blocks, reg, steps);
            && r.Success? && |r.value.steps| == |steps| + 2 * |blocks|
            && forall i :: 0 <= i < |r.value.value| ==> PlainParagraphOf(r.value.value[i], blocks[i])
    decreases |blocks|
  {
    if |blocks| > 0 {
      PlainParagraph(p, blocks[0], reg, steps);
      var b := PS.ParseBlock(p, blocks[0], reg, steps).value;
      PlainEach(p, blocks[1..], b.reg, b.steps);
      var more := PS.ParseEach(p, blocks[1..], b.reg, b.steps).value;
      EachCons(p, blocks, reg, steps, b, more);
      PlainCons(blocks, steps, b, more);
    }
  }

  /** The counts and shapes carried from one plain block and the rest to
      the whole. */
  lemma PlainCons<D>(blocks: seq<string>, steps: seq<Stepped<D>>, b: PS.Parsed<Node<D>, D>, more: PS.Parsed<seq<Node<D>>, D>)
    requires |blocks| > 0 && PlainParagraphOf(b.value, blocks[0]) && |b.steps| == |steps| + 2
    requires |more.steps| == |b.steps| + 2 * (|blocks| - 1)
    requires |more.value| == |blocks| - 1
    requires forall i :: 0 <= i < |more.value| ==> PlainParagraphOf(more.value[i], blocks[1..][i])
    ensures var all := [b.value] + more.value;
            |more.steps| == |steps| + 2 * |blocks| && forall i :: 0 <= i < |all| ==> PlainParagraphOf(all[i], blocks[i])
  {
    var all := [b.value] + more.value;
    assert forall i :: 1 <= i < |all| ==> all[i] == more.value[i - 1] && blocks[i] == blocks[1..][i - 1];
  }

  /** One plain paragraph per block, in order. */
  predicate PlainParagraphs<D>(ns: seq<Node<D>>, bs: seq<string>) {
    |ns| == |bs| && forall i :: 0 <= i < |bs| ==> PlainParagraphOf(ns[i], bs[i])
  }

  /** Without strategies, a text whose blocks are all plain parses to one
      plain paragraph per block, two steps each. */
  lemma PlainBlocks<D>(p: PS.Parser<D>, text: string, reg: AutoIds.Registry, steps: seq<Stepped<D>>)
    requires |p.blockFactories| == 0 && |p.inlinerFactories| == 0
    requires var bs := StrBlocks.TextToStrBlocks(Strs.NormalizeLineEndings(text));
             forall i :: 0 <= i < |bs| ==> PlainBlock(bs[i])
    ensures var bs := StrBlocks.TextToStrBlocks(Strs.NormalizeLineEndings(text));
            var r := PS.ParseBlocks(p, text, reg, steps);
            r.Success? && |r.value.steps| == |steps| + 2 * |bs| && PlainParagraphs(r.value.value, bs)
  {
    var bs := StrBlocks.TextToStrBlocks(Strs.NormalizeLineEndings(text));
    if text != "" {
      assert forall i :: 0 <= i < |bs| ==> PlainBlock(bs[i]);
      PlainEach(p, bs, reg, steps);
    } else {
      assert StrBlocks.TextToStrBlocks(Strs.NormalizeLineEndings(text)) == [];
    }
  }

  /** Without strategies, a text whose blocks are all plain parses to a
      root with one plain paragraph per block, two steps each. */
  lemma PlainParse<D>(p: PS.Parser<D>, text: string, options: PS.ParseOptions)
    requires |p.blockFactories| == 0 && |p.inlinerFactories| == 0
    requires var bs := StrBlocks.TextToStrBlocks(Strs.NormalizeLineEndings(text));
             forall i :: 0 <= i < |bs| ==> PlainBlock(bs[i])
    ensures var bs := StrBlocks.TextToStrBlocks(Strs.NormalizeLineEndings(text));
            var r := PS.Parse(p, text, options);
            r.Success? && |r.value.steps| == 2 * |bs| && PlainParagraphs(KidsOf(r.value.value.children), bs)
  {
    var reg := PS.ResolveRegistry(options);
    var bs := StrBlocks.TextToStrBlocks(Strs.NormalizeLineEndings(text));
    var rb := PS.ParseBlocks(p, text, reg, []);
    assert rb.Success? && |rb.value.steps| == 2 * |bs| && PlainParagraphs(rb.value.value, bs) by {
      PlainBlocks(p, text, reg, []);
    }
    assert PS.Parse(p, text, options) == Success(PS.Parsed(Blocks(Kids(rb.value.value)), rb.value.reg, rb.value.steps)) by {
      ParseUnfold(p, text, options);
    }
    PlainRoot(PS.Parse(p, text, options), rb.value.value, rb.value.reg, rb.value.steps, bs);
  }

  /** The root over plain paragraphs lists them. */
  lemma PlainRoot<D>(r: Result<PS.Parsed<Node<D>, D>>, v: seq<Node<D>>, reg: AutoIds.Registry, st: seq<Stepped<D>>,
                     bs: seq<string>)
    requires r == Success(PS.Parsed(Blocks(Kids(v)), reg, st))
    requires |st| == 2 * |bs| && PlainParagraphs(v, bs)
    ensures r.Success? && |r.value.steps| == 2 * |bs| && PlainParagraphs(KidsOf(r.value.value.children), bs)
  {
  }

  /** `parse` wraps the blocks `parseBlocks` makes in a root. */
  lemma ParseUnfold<D>(p: PS.Parser<D>, text: string, options: PS.ParseOptions)
    ensures var rb := PS.ParseBlocks(p, text, PS.ResolveRegistry(options), []);
            rb.Success? ==> PS.Parse(p, text, options) == Success(PS.Parsed(Blocks(Kids(rb.value.value)), rb.value.reg, rb.value.steps))
  {
  }

  /** `new Parser({})` has no strategies. */
  lemma DefaultParser<D>(parseYaml: string -> MetaParse.YamlParse)
    ensures |PS.NewParser<D>([], parseYaml).blockFactories| == 0
    ensures |PS.NewParser<D>([], parseYaml).inlinerFactories| == 0
  {
    assert Registered<D>([]) == [];
  }

  /** One line without surrounding whitespace is one plain block. */
  lemma PlainLine(a: string)
    requires |a| > 0 && '\n' !in a && '\r' !in a && a[0] != '{' && a[0] != '}'
    requires !Chars.IsWhitespace(a[0]) && !Chars.IsWhitespace(a[|a| - 1])
    ensures PlainBlock(a) && Strs.NormalizeLineEndings(a) == a && StrBlocks.TextToStrBlocks(a) == [a]
  {
    StrBlocks.PlainGood(a);
    assert StrBlocks.JoinBlocks([a]) == a;
    StrBlocks.TextToStrBlocksJoin([a]);
  }

  /** Two such lines with a blank line between them are two plain
      blocks. */
  lemma PlainLines(a: string, b: string)
    requires |a| > 0 && '\n' !in a && '\r' !in a && a[0] != '{' && a[0] != '}'
    requires !Chars.IsWhitespace(a[0]) && !Chars.IsWhitespace(a[|a| - 1])
    requires |b| > 0 && '\n' !in b && '\r' !in b && b[0] != '{' && b[0] != '}'
    requires !Chars.IsWhitespace(b[0]) && !Chars.IsWhitespace(b[|b| - 1])
    ensures var text := a + "\n\n" + b;
            Strs.NormalizeLineEndings(text) == text && StrBlocks.TextToStrBlocks(text) == [a, b]
  {
    StrBlocks.PlainGood(a);
    StrBlocks.PlainGood(b);
    assert StrBlocks.JoinBlocks([a, b]) == a + "\n\n" + b by {
      assert Chars.Join([a, b][1..], "\n\n") == b;
    }
    StrBlocks.TextToStrBlocksJoin([a, b]);
  }

  /** `Hello world` is one plain block. */
  lemma HelloWorldLine(a: string)
    requires a == "Hello world"
    ensures PlainBlock(a) && StrBlocks.TextToStrBlocks(Strs.NormalizeLineEndings(a)) == [a]
  {
    PlainLine(a);
  }

  /** `Hello\n\nWorld` is two plain blocks. */
  lemma HelloWorldLines(a: string, b: string, text: string)
    requires a == "Hello" && b == "World" && text == a + "\n\n" + b
    ensures PlainBlock(a) && PlainBlock(b) && StrBlocks.TextToStrBlocks(Strs.NormalizeLineEndings(text)) == [a, b]
  {
    PlainLines(a, b);
    PlainLine(a);
    PlainLine(b);
  }

  /** The default parser on `Hello world`: one paragraph around one text
      node holding the text, two steps; and the empty text is an empty
      root. */
  lemma HelloWorldFixture<D>(parseYaml: string -> MetaParse.YamlParse, a: string, options: PS.ParseOptions)
    requires a == "Hello world"
    ensures var r := PS.Parse(PS.NewParser<D>([], parseYaml), a, options);
            && r.Success? && |r.value.steps| == 2
            && var kids := KidsOf(r.value.value.children);
               |kids| == 1 && PlainParagraphOf(kids[0], a)
    ensures PS.Parse(PS.NewParser<D>([], parseYaml), "", options).value.value == Blocks(Undefined)
  {
    DefaultParser<D>(parseYaml);
    HelloWorldLine(a);
    PlainParse(PS.NewParser<D>([], parseYaml), a, options);
  }

  /** The default parser on two blocks: two paragraphs, four steps. */
  lemma TwoBlocksFixture<D>(parseYaml: string -> MetaParse.YamlParse, text: string, a: string, b: string,
                            reg: AutoIds.Registry)
    requires a == "Hello" && b == "World" && text == a + "\n\n" + b
    ensures var r := PS.ParseBlocks(PS.NewParser<D>([], parseYaml), text, reg, []);
            r.Success? && |r.value.steps| == 4 && PlainParagraphs(r.value.value, [a, b])
  {
    DefaultParser<D>(parseYaml);
    HelloWorldLines(a, b, text);
    PlainBlocks(PS.NewParser<D>([], parseYaml), text, reg, []);
  }

  /** `parseInliners('Hello world')` with no strategies: one text node, one
      step; the empty text gives no nodes. */
  lemma InlinersFixture<D>(parseYaml: string -> MetaParse.YamlParse, a: string, reg: AutoIds.Registry)
    requires a == "Hello world"
    ensures var r := PS.ParseInliners(PS.NewParser<D>([], parseYaml), a, reg, []);
            && r.Success? && |r.value.value| == 1 && |r.value.steps| == 1
            && r.value.value[0].Text? && r.value.value[0].text == a
    ensures PS.ParseInliners(PS.NewParser<D>([], parseYaml), "", reg, []).value.value == []
  {
    DefaultParser<D>(parseYaml);
    assert '\r' !in a;
    PlainInliners(PS.NewParser<D>([], parseYaml), a, reg, []);
  }
}
