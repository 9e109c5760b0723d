/** `Parser` (`parser.ts`): text to blocks, blocks to nodes by the first
    strategy that claims them (or a paragraph), paragraph text to inline
    nodes around the ranges the inliner strategies outline.

    The auto-id registry and the log of `step` calls are threaded through
    every function: each takes them and returns them updated, in the order
    the source makes its `createAutoId` and `step` calls. */
module Parser {
  import opened Wrappers
  import opened MetaValues
  import Chars
  import Strs = Str
  import Ranges
  import Merge
  import StrBlocks = Blocks
  import MetaParse
  import AutoIds
  import opened Nodes
  import opened Strategies

  /** A `Parser`: its block and inliner factory lists, in registry order,
      and the YAML reader `parseMeta` relies on. */
  datatype Parser<!D> = Parser(
    blockFactories: seq<(string, BlockStrategy<D>)>,
    inlinerFactories: seq<(string, InlinerStrategy<D>)>,
    parseYaml: string -> MetaParse.YamlParse)

  /** `new Parser(transpilers)`. */
  function NewParser<D>(ts: seq<ParserTranspiler<D>>, parseYaml: string -> MetaParse.YamlParse): Parser<D> {
    var lists := SplitFactories(Registered(ts));
    Parser(lists.0, lists.1, parseYaml)
  }

  /** The part of `ParseOptions` that carries state: the auto-id registry,
      absent when the caller gives none. */
  datatype ParseOptions = ParseOptions(autoId: Option<AutoIds.Registry>)

  /** `resolveParseOptions`: the given registry, or a fresh `HashAutoId`. */
  function ResolveRegistry(options: ParseOptions): AutoIds.Registry {
    if options.autoId.Some? then options.autoId.value else AutoIds.Fresh
  }

  /** A value produced together with the registry and the step log after
      producing it. */
  datatype Parsed<T, D> = Parsed(value: T, reg: AutoIds.Registry, steps: seq<Stepped<D>>)

  // ---------------------------------------------------------------------
  // Inline meta after a range: `afterText.replace(/^{(.+)}/, ...)`.

  /** The largest `k` with `2 <= k < e` and `s[k] == '}'`. */
  function LastCloseBefore(s: string, e: nat): (r: Option<nat>)
    requires e <= |s|
    ensures r.Some? ==> 2 <= r.value < e && s[r.value] == '}'
    ensures r.Some? ==> forall k :: r.value < k < e ==> s[k] != '}'
    ensures r.None? ==> forall k :: 2 <= k < e ==> s[k] != '}'
    decreases e
  {
    if e <= 2 then None else if s[e - 1] == '}' then Some(e - 1) else LastCloseBefore(s, e - 1)
  }

  /** What the replacement leaves of a gap, and the captured line meta
      when the pattern matched. */
  datatype Consumed = Consumed(lineMeta: Option<string>, rest: string)

  /** The text of a consumed meta, braces included. */
  function MetaText(c: Consumed): string {
    if c.lineMeta.Some? then "{" + c.lineMeta.value + "}" else ""
  }

  /** `/^{(.+)}/` at the start of the gap: `{`, a non-empty run without
      line terminators, `}`; the greedy `.+` reaches the last `}` of the
      first line. What is consumed and what is left make up the gap. */
  function ConsumeLineMeta(gap: string): (c: Consumed)
    ensures gap == MetaText(c) + c.rest
  {
    if |gap| > 0 && gap[0] == '{' then
      var e := 1 + Strs.LineEnd(gap[1..]);
      match LastCloseBefore(gap, e)
      case Some(k) =>
        ConsumedAt(gap, e, k);
        Consumed(Some(gap[1..k]), gap[k + 1..])
      case None => Consumed(None, gap)
    else Consumed(None, gap)
  }

  /** The match is the longest one the pattern allows: the meta is a
      non-empty run on the first line, the rest of that line holds no
      `}`, and nothing is consumed only when the gap does not start with
      `{` or no `}` closes it on its first line after at least one
      character. */
  lemma ConsumeLineMetaMatch(gap: string)
    ensures var c := ConsumeLineMeta(gap);
            && (c.lineMeta.Some? ==> |c.lineMeta.value| >= 1 && MetaParse.NoTerminator(c.lineMeta.value))
            && (c.lineMeta.Some? ==> forall j :: 0 <= j < Strs.LineEnd(c.rest) ==> c.rest[j] != '}')
            && (c.lineMeta.None? ==>
                  |gap| == 0 || gap[0] != '{' || forall k :: 2 <= k < |gap| && gap[k] == '}' ==> k > Strs.LineEnd(gap[1..]))
  {
    if |gap| > 0 && gap[0] == '{' {
      var e := 1 + Strs.LineEnd(gap[1..]);
      match LastCloseBefore(gap, e)
      case Some(k) => ConsumedAt(gap, e, k);
      case None =>
    }
  }

  /** A gap cut after its last `}` before the first line end: the meta
      between the braces has no line terminator, and the rest of the line
      holds no `}`. */
  lemma {:induction false} ConsumedAt(gap: string, e: nat, k: nat)
    requires |gap| > 0 && gap[0] == '{' && e == 1 + Strs.LineEnd(gap[1..])
    requires 2 <= k < e && gap[k] == '}'
    requires forall j :: k < j < e ==> gap[j] != '}'
    ensures gap == "{" + gap[1..k] + "}" + gap[k + 1..]
    ensures MetaParse.NoTerminator(gap[1..k])
    ensures var rest := gap[k + 1..]; forall j :: 0 <= j < Strs.LineEnd(rest) ==> rest[j] != '}'
  {
    var t := gap[1..];
    assert forall j :: 1 <= j < e ==> gap[j] == t[j - 1];
    assert gap == "{" + gap[1..k] + "}" + gap[k + 1..];
    var m := gap[1..k];
    forall j | 0 <= j < |m|
      ensures !Chars.IsLineTerminator(m[j])
    {
      assert m[j] == t[j] && j < Strs.LineEnd(t);
    }
    ConsumedRest(gap, e, k, gap[k + 1..]);
  }

  /** After the last `}` before the line end, the rest of the line holds
      no `}`. */
  lemma {:induction false} ConsumedRest(gap: string, e: nat, k: nat, rest: string)
    requires 2 <= k < e <= |gap| && rest == gap[k + 1..]
    requires e < |gap| ==> Chars.IsLineTerminator(gap[e])
    requires forall j :: k < j < e ==> gap[j] != '}'
    requires forall j :: 1 <= j < e ==> !Chars.IsLineTerminator(gap[j])
    ensures forall j :: 0 <= j < Strs.LineEnd(rest) ==> rest[j] != '}'
  {
    assert forall j :: 0 <= j < |rest| ==> rest[j] == gap[k + 1 + j];
    LineEndAt(rest, e - k - 1);
  }

  /** The first line terminator is where the text says it is. */
  lemma {:induction false} LineEndAt(s: string, l: nat)
    requires l <= |s|
    requires l < |s| ==> Chars.IsLineTerminator(s[l])
    requires forall j :: 0 <= j < l ==> !Chars.IsLineTerminator(s[j])
    ensures Strs.LineEnd(s) == l
    decreases l
  {
    if l > 0 {
      assert forall j :: 0 <= j < l - 1 ==> s[1..][j] == s[j + 1];
      LineEndAt(s[1..], l - 1);
    }
  }

  /** The meta of an inliner: `{}` unless line meta was consumed, which
      `parseMeta` reads (and may throw on). */
  function InlineMeta(c: Consumed, parseYaml: string -> MetaParse.YamlParse): Result<Meta> {
    if c.lineMeta.Some? then MetaParse.ParseMeta(c.lineMeta.value, parseYaml) else Success([])
  }

  // ---------------------------------------------------------------------
  // The pieces of an inline text around the accepted ranges.

  /** `text.slice(0, ranges[0]?.start ?? text.length)`. */
  function Lead(text: string, spans: seq<Merge.Span>): string {
    Chars.Slice(text, 0, if |spans| > 0 then spans[0].range.start else |text|)
  }

  /** The text covered by range `i`. */
  function RangeText(text: string, spans: seq<Merge.Span>, i: nat): string
    requires i < |spans|
  {
    Chars.Slice(text, spans[i].range.start, spans[i].range.end)
  }

  /** `text.slice(range.end, ranges[i + 1]?.start ?? text.length)`. */
  function Gap(text: string, spans: seq<Merge.Span>, i: nat): string
    requires i < |spans|
  {
    Chars.Slice(text, spans[i].range.end, if i + 1 < |spans| then spans[i + 1].range.start else |text|)
  }

  // ---------------------------------------------------------------------
  // Range resolution: `outlineRanges` of every inliner factory, merged.

  /** The candidates, factory by factory in registry order, each range
      tagged with the position of the factory that outlined it. */
  function Candidates<D>(fs: seq<(string, InlinerStrategy<D>)>, text: string, k: nat): (r: seq<Merge.Span>)
    requires k <= |fs|
    ensures forall x :: x in r ==> k <= x.owner < |fs|
    decreases |fs| - k
  {
    if k == |fs| then []
    else
      var rs := fs[k].1.outlineRanges(text);
      var here := seq(|rs|, j requires 0 <= j < |rs| => Merge.Span(k, rs[j]));
      here + Candidates(fs, text, k + 1)
  }

  /** The ranges the merge loop keeps, with the factory of each. */
  function ResolveRanges<D>(fs: seq<(string, InlinerStrategy<D>)>, text: string): (r: seq<Merge.Span>)
    ensures forall x :: x in r ==> x.owner < |fs|
  {
    var cands := Candidates(fs, text, 0);
    MergeFrom(cands);
    Merge.MergeAll([], cands)
  }

  /** The resolution as `parser.ts` writes it, with the ascending splice
      of contained ranges (see `Merge.MergeStepAsWritten`). The rest of
      the model resolves with the corrected merge; the two agree whenever
      no candidate contains two ranges accepted before it
      (`InlinePlan.AsWrittenResolutionAgrees`). */
  function ResolveRangesAsWritten<D>(fs: seq<(string, InlinerStrategy<D>)>, text: string): seq<Merge.Span> {
    Merge.MergeAllAsWritten([], Candidates(fs, text, 0))
  }

  /** Every range the merge keeps is one of its candidates. */
  lemma {:induction false} MergeFrom(cands: seq<Merge.Span>)
    ensures forall x :: x in Merge.MergeAll([], cands) ==> x in cands
  {
    MergeFromAcc([], cands);
  }

  lemma {:induction false} MergeFromAcc(acc: seq<Merge.Span>, cands: seq<Merge.Span>)
    ensures forall x :: x in Merge.MergeAll(acc, cands) ==> x in acc || x in cands
    decreases |cands|
  {
    if |cands| > 0 {
      var next := Merge.MergeStep(acc, cands[0]);
      assert forall x :: x in next ==> x in acc || x == cands[0] by {
        match Merge.Scan(cands[0].range, acc, 0)
        case Rejected =>
        case Approved(_) =>
          var w := Merge.WithoutContained(acc, cands[0].range);
          var k := Merge.InsertIndex(w, cands[0].range.start);
          assert next == w[..k] + [cands[0]] + w[k..];
          assert forall x :: x in next ==> x in w[..k] || x == cands[0] || x in w[k..];
      }
      MergeFromAcc(next, cands[1..]);
      assert forall x :: x in cands[1..] ==> x in cands;
    }
  }

  // ---------------------------------------------------------------------
  // Emission.

  /** `pushTextNode`: a text node with its auto id, logged; nothing for an
      empty text. */
  function PushText<D>(t: string, reg: AutoIds.Registry, steps: seq<Stepped<D>>): (r: Parsed<seq<Node<D>>, D>)
    ensures steps <= r.steps
  {
    if t == "" then Parsed([], reg, steps)
    else
      var (id, reg') := AutoIds.CreateAutoId(reg, None, TextName, t);
      var node := Text([], id, t);
      Parsed([node], reg', steps + [Stepped(node, t)])
  }

  /** One range: the strategy's parse data (then its auto id and the step)
      or, when `createParseData` throws, an inline error node holding the
      range text, without the meta. */
  function EmitRange<D>(name: string, s: InlinerStrategy<D>, meta: Meta, parseText: string,
                        reg: AutoIds.Registry, steps: seq<Stepped<D>>): (r: Parsed<Node<D>, D>)
    ensures steps <= r.steps
  {
    match s.createParseData(meta, parseText)
    case Success(d) =>
      var (id, reg') := AutoIds.CreateAutoId(reg, Some((x: string) => s.alterAutoId(x, parseText, d, parseText)), name, parseText);
      var node := Element(Inliner, name, meta, id, d);
      Parsed(node, reg', steps + [Stepped(node, parseText)])
    case Failure(e) =>
      var node := InlinerError(name, parseText, e);
      Parsed(node, reg, steps + [Stepped(node, parseText)])
  }

  /** The loop over the accepted ranges from `i` on: each range's node,
      then the text left in the gap after it once a leading `{…}` has
      been taken as the node's meta. */
  function EmitFrom<D>(p: Parser<D>, text: string, spans: seq<Merge.Span>, i: nat,
                       reg: AutoIds.Registry, steps: seq<Stepped<D>>): (r: Result<Parsed<seq<Node<D>>, D>>)
    requires i <= |spans|
    requires forall x :: x in spans ==> x.owner < |p.inlinerFactories|
    ensures r.Success? ==> steps <= r.value.steps
    decreases |spans| - i
  {
    if i == |spans| then Success(Parsed([], reg, steps))
    else
      assert spans[i] in spans;
      var (name, s) := p.inlinerFactories[spans[i].owner];
      var c := ConsumeLineMeta(Gap(text, spans, i));
      match InlineMeta(c, p.parseYaml)
      case Failure(e) => Failure(e)
      case Success(meta) =>
        var node := EmitRange(name, s, meta, RangeText(text, spans, i), reg, steps);
        var after := PushText(c.rest, node.reg, node.steps);
        match EmitFrom(p, text, spans, i + 1, after.reg, after.steps)
        case Failure(e) => Failure(e)
        case Success(more) => Success(Parsed([node.value] + after.value + more.value, more.reg, more.steps))
  }

  /** `parseInliners(text, options)`. */
  function ParseInliners<D>(p: Parser<D>, text: string, reg: AutoIds.Registry, steps: seq<Stepped<D>>)
    : (r: Result<Parsed<seq<Node<D>>, D>>)
    ensures text == "" ==> r == Success(Parsed([], reg, steps))
    ensures r.Success? ==> steps <= r.value.steps
  {
    if text == "" then Success(Parsed([], reg, steps))
    else
      var t := Strs.NormalizeLineEndings(text);
      var spans := ResolveRanges(p.inlinerFactories, t);
      var lead := PushText(Lead(t, spans), reg, steps);
      match EmitFrom(p, t, spans, 0, lead.reg, lead.steps)
      case Failure(e) => Failure(e)
      case Success(rest) => Success(Parsed(lead.value + rest.value, rest.reg, rest.steps))
  }

  // ---------------------------------------------------------------------
  // Blocks.

  /** The first block factory whose `canParse` accepts the text. */
  function FirstClaim<D>(fs: seq<(string, BlockStrategy<D>)>, text: string): (r: Option<nat>)
    ensures r.Some? ==> r.value < |fs| && fs[r.value].1.canParse(text)
    ensures r.Some? ==> forall j :: 0 <= j < r.value ==> !fs[j].1.canParse(text)
    ensures r.None? ==> forall j :: 0 <= j < |fs| ==> !fs[j].1.canParse(text)
    decreases |fs|
  {
    if |fs| == 0 then None
    else if fs[0].1.canParse(text) then Some(0)
    else
      var r := FirstClaim(fs[1..], text);
      assert forall j :: 1 <= j < |fs| ==> fs[j] == fs[1..][j - 1];
      if r.Some? then Some(r.value + 1) else None
  }

  /** `parseBlock(strBlock, options)`. */
  function ParseBlock<D>(p: Parser<D>, strBlock: string, reg: AutoIds.Registry, steps: seq<Stepped<D>>)
    : (r: Result<Parsed<Node<D>, D>>)
  {
    match MetaParse.DetachMeta(strBlock, p.parseYaml)
    case Failure(e) => Failure(e)
    case Success(detached) =>
      var meta := detached.meta;
      var rest := detached.restText;
      match FirstClaim(p.blockFactories, rest)
      case Some(k) =>
        var (name, s) := p.blockFactories[k];
        (match s.createParseData(meta, rest)
         case Success(d) =>
           var (id, reg') := AutoIds.CreateAutoId(reg, Some((x: string) => s.alterAutoId(x, rest, d, strBlock)), name, strBlock);
           var node := Element(Block, name, meta, id, d);
           Success(Parsed(node, reg', steps + [Stepped(node, strBlock)]))
         case Failure(e) =>
           var node := BlockError(name, strBlock, e);
           Success(Parsed(node, reg, steps + [Stepped(node, strBlock)])))
      case None =>
        var (id, reg1) := AutoIds.CreateAutoId(reg, None, ParagraphName, strBlock);
        match ParseInliners(p, rest, reg1, steps)
        case Failure(e) => Failure(e)
        case Success(inl) =>
          var node := Paragraph(meta, id, Inliners(Kids(inl.value)));
          Success(Parsed(node, inl.reg, inl.steps + [Stepped(node, strBlock)]))
  }

  /** The blocks in order, each parsed with the state the previous one
      left. */
  function ParseEach<D>(p: Parser<D>, strBlocks: seq<string>, reg: AutoIds.Registry, steps: seq<Stepped<D>>)
    : (r: Result<Parsed<seq<Node<D>>, D>>)
    ensures r.Success? ==> |r.value.value| == |strBlocks|
    decreases |strBlocks|
  {
    if |strBlocks| == 0 then Success(Parsed([], reg, steps))
    else
      match ParseBlock(p, strBlocks[0], reg, steps)
      case Failure(e) => Failure(e)
      case Success(b) =>
        match ParseEach(p, strBlocks[1..], b.reg, b.steps)
        case Failure(e) => Failure(e)
        case Success(more) => Success(Parsed([b.value] + more.value, more.reg, more.steps))
  }

  /** `parseBlocks(text, options)`. */
  function ParseBlocks<D>(p: Parser<D>, text: string, reg: AutoIds.Registry, steps: seq<Stepped<D>>)
    : (r: Result<Parsed<seq<Node<D>>, D>>)
    ensures text == "" ==> r == Success(Parsed([], reg, steps))
    ensures r.Success? ==> |r.value.value| == |StrBlocks.TextToStrBlocks(Strs.NormalizeLineEndings(text))|
  {
    if text == "" then Success(Parsed([], reg, steps))
    else ParseEach(p, StrBlocks.TextToStrBlocks(Strs.NormalizeLineEndings(text)), reg, steps)
  }

  /** `parse(text, options)`: a root holding the blocks; the registry is
      the caller's or a fresh one, and the log starts empty. */
  function Parse<D>(p: Parser<D>, text: string, options: ParseOptions): (r: Result<Parsed<Node<D>, D>>)
    ensures text == "" ==> r == Success(Parsed(Blocks(Undefined), ResolveRegistry(options), []))
    ensures r.Success? ==> r.value.value.Blocks?
  {
    match ParseBlocks(p, text, ResolveRegistry(options), [])
    case Failure(e) => Failure(e)
    case Success(bs) => Success(Parsed(Blocks(Kids(bs.value)), bs.reg, bs.steps))
  }
}
