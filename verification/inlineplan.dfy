/** What `parseInliners` (`parser.ts`) produces for a text, stated from
    the text alone: a plan of text pieces and range pieces, read off the
    accepted ranges. The plan's pieces put back together give the text
    again, and the nodes and `step` calls of a successful parse realize
    the plan piece by piece. */
module InlinePlan {
  import opened Wrappers
  import opened MetaValues
  import Ranges
  import Strs = Str
  import Merge
  import MetaParse
  import AutoIds
  import opened Nodes
  import opened Strategies
  import PS = Parser

  /** One node the inline parse emits: a text node for a non-empty piece
      of text, or the node of accepted range `owner`'s strategy, with the
      text it covers and the `{…}` taken from the gap after it. */
  datatype Planned =
    | PlannedText(t: string)
    | PlannedRange(owner: nat, parseText: string, metaText: string)

  /** The part of the input a planned node stands for. */
  function Source(x: Planned): string {
    match x
    case PlannedText(t) => t
    case PlannedRange(_, parseText, metaText) => parseText + metaText
  }

  /** The text the `step` callback is given for the node. */
  function Logged(x: Planned): string {
    if x.PlannedText? then x.t else x.parseText
  }

  function Sources(plan: seq<Planned>): string
    decreases |plan|
  {
    if |plan| == 0 then "" else Source(plan[0]) + Sources(plan[1..])
  }

  /** A text node for a piece of text, none for an empty one. */
  function TextPiece(t: string): (r: seq<Planned>)
    ensures Sources(r) == t
    ensures |r| <= 1 && (|r| == 1 <==> t != "")
  {
    if t == "" then [] else [PlannedText(t)]
  }

  /** The plan from accepted range `i` on: each range, then what its gap
      leaves once a leading `{…}` is taken. */
  function PlanFrom(text: string, spans: seq<Merge.Span>, i: nat): seq<Planned>
    requires i <= |spans|
    decreases |spans| - i
  {
    if i == |spans| then []
    else
      var c := PS.ConsumeLineMeta(PS.Gap(text, spans, i));
      [PlannedRange(spans[i].owner, PS.RangeText(text, spans, i), PS.MetaText(c))] + TextPiece(c.rest)
        + PlanFrom(text, spans, i + 1)
  }

  /** The whole plan: the text before the first range, then the ranges. */
  function Plan(text: string, spans: seq<Merge.Span>): seq<Planned> {
    TextPiece(PS.Lead(text, spans)) + PlanFrom(text, spans, 0)
  }

  /** The meta of a range piece: `{}` without a `{…}`, otherwise what
      `parseMeta` reads between the braces. */
  function MetaOf(metaText: string, parseYaml: string -> MetaParse.YamlParse): Result<Meta> {
    if |metaText| < 2 then Success([]) else MetaParse.ParseMeta(metaText[1..|metaText| - 1], parseYaml)
  }

  /** A node is what the plan asks for: a text node holding the piece, or
      the range strategy's element with the meta and parse data it made,
      or its error node holding the range text. */
  ghost predicate Fits<D>(p: PS.Parser<D>, x: Planned, n: Node<D>) {
    match x
    case PlannedText(t) => n.Text? && n.meta == [] && n.text == t
    case PlannedRange(o, pt, mt) =>
      o < |p.inlinerFactories| && MetaOf(mt, p.parseYaml).Success?
      && var name := p.inlinerFactories[o].0;
         var meta := MetaOf(mt, p.parseYaml).value;
         match p.inlinerFactories[o].1.createParseData(meta, pt)
         case Success(d) => n.Element? && n.place == Inliner && n.name == name && n.meta == meta && n.data == d
         case Failure(e) => n == InlinerError(name, pt, e)
  }

  /** The nodes realize the plan in order, and each is logged once, with
      its text, in the same order. */
  ghost predicate Realizes<D>(p: PS.Parser<D>, plan: seq<Planned>, nodes: seq<Node<D>>, log: seq<Stepped<D>>) {
    |nodes| == |plan| && |log| == |plan|
    && forall k :: 0 <= k < |plan| ==> Fits(p, plan[k], nodes[k]) && log[k] == Stepped(nodes[k], Logged(plan[k]))
  }

  /** Every `{…}` of the plan is meta `parseMeta` accepts. */
  predicate MetasParse<D>(p: PS.Parser<D>, plan: seq<Planned>) {
    forall k :: 0 <= k < |plan| && plan[k].PlannedRange? ==> MetaOf(plan[k].metaText, p.parseYaml).Success?
  }

  /** `a` continues the log `b`. */
  ghost predicate Extends<D>(a: seq<Stepped<D>>, b: seq<Stepped<D>>) {
    |b| <= |a| && a[..|b|] == b
  }

  /** Every range strategy outlines valid ranges inside the text. */
  predicate WellOutlined<D>(fs: seq<(string, InlinerStrategy<D>)>, text: string) {
    forall k, x :: 0 <= k < |fs| && x in fs[k].1.outlineRanges(text) ==> Ranges.Valid(x) && x.end <= |text|
  }

  // ---------------------------------------------------------------------
  // Reassembly.

  lemma {:induction false} SourcesAppend(a: seq<Planned>, b: seq<Planned>)
    ensures Sources(a + b) == Sources(a) + Sources(b)
    decreases |a|
  {
    if |a| > 0 {
      assert (a + b)[0] == a[0];
      assert (a + b)[1..] == a[1..] + b;
      SourcesAppend(a[1..], b);
    } else {
      assert a + b == b;
    }
  }

  /** Where the gap after range `i` ends: at the next range, or at the
      end of the text. */
  function GapEnd(text: string, spans: seq<Merge.Span>, i: nat): int
    requires i < |spans|
  {
    if i + 1 < |spans| then spans[i + 1].range.start else |text|
  }

  lemma {:induction false} PlanFromUnfold(text: string, spans: seq<Merge.Span>, i: nat)
    requires i < |spans|
    ensures var c := PS.ConsumeLineMeta(PS.Gap(text, spans, i));
            PlanFrom(text, spans, i)
            == [PlannedRange(spans[i].owner, PS.RangeText(text, spans, i), PS.MetaText(c))] + TextPiece(c.rest)
               + PlanFrom(text, spans, i + 1)
  {
  }

  lemma {:induction false} SourcesTriple(x: Planned, t: string, rest: seq<Planned>)
    ensures Sources([x] + TextPiece(t) + rest) == Source(x) + t + Sources(rest)
  {
    SourcesAppend([x], TextPiece(t));
    SourcesAppend([x] + TextPiece(t), rest);
  }

  lemma Glue(rt: string, mt: string, rest: string, gap: string, tail: string, whole: string)
    requires gap == mt + rest
    requires whole == (rt + mt) + rest + tail
    ensures whole == rt + gap + tail
  {
  }

  /** Unfolding one range of the plan: its text, its gap, then the rest. */
  lemma {:induction false} PlanFromStep(text: string, spans: seq<Merge.Span>, i: nat)
    requires i < |spans|
    ensures Sources(PlanFrom(text, spans, i))
            == PS.RangeText(text, spans, i) + PS.Gap(text, spans, i) + Sources(PlanFrom(text, spans, i + 1))
  {
    var gap := PS.Gap(text, spans, i);
    var c := PS.ConsumeLineMeta(gap);
    var x := PlannedRange(spans[i].owner, PS.RangeText(text, spans, i), PS.MetaText(c));
    PlanFromUnfold(text, spans, i);
    SourcesTriple(x, c.rest, PlanFrom(text, spans, i + 1));
    Glue(PS.RangeText(text, spans, i), PS.MetaText(c), c.rest, gap,
         Sources(PlanFrom(text, spans, i + 1)), Sources(PlanFrom(text, spans, i)));
  }

  /** Range `i` and its gap are the text from the start of the range to
      the end of the gap. */
  lemma {:induction false} RangeAndGap(text: string, spans: seq<Merge.Span>, i: nat)
    requires i < |spans|
    requires Merge.Separated(spans) && Merge.AllValid(spans)
    requires forall j :: 0 <= j < |spans| ==> spans[j].range.end <= |text|
    ensures 0 <= spans[i].range.start <= GapEnd(text, spans, i) <= |text|
    ensures PS.RangeText(text, spans, i) + PS.Gap(text, spans, i) == text[spans[i].range.start..GapEnd(text, spans, i)]
  {
    var s := spans[i].range;
    var next := GapEnd(text, spans, i);
    assert Ranges.Valid(s);
    if i + 1 < |spans| {
      assert spans[i].range.end < spans[i + 1].range.start;
      assert Ranges.Valid(spans[i + 1].range);
    }
    assert PS.RangeText(text, spans, i) == text[s.start..s.end];
    assert PS.Gap(text, spans, i) == text[s.end..next];
  }

  lemma SliceJoin(text: string, a: int, b: int, x: string, y: string)
    requires 0 <= a <= b <= |text| && x == text[a..b] && y == text[b..]
    ensures x + y == text[a..]
  {
  }

  /** From range `i` on, the plan's pieces give the text from the start
      of range `i` to the end. */
  lemma {:induction false} PlanFromSources(text: string, spans: seq<Merge.Span>, i: nat)
    requires i < |spans|
    requires Merge.Separated(spans) && Merge.AllValid(spans)
    requires forall j :: 0 <= j < |spans| ==> spans[j].range.end <= |text|
    ensures Sources(PlanFrom(text, spans, i)) == text[spans[i].range.start..]
    decreases |spans| - i
  {
    PlanFromStep(text, spans, i);
    RangeAndGap(text, spans, i);
    if i + 1 < |spans| {
      PlanFromSources(text, spans, i + 1);
    } else {
      assert PlanFrom(text, spans, i + 1) == [];
    }
    SliceJoin(text, spans[i].range.start, GapEnd(text, spans, i),
              PS.RangeText(text, spans, i) + PS.Gap(text, spans, i), Sources(PlanFrom(text, spans, i + 1)));
  }

  lemma {:induction false} PlanLead(text: string, spans: seq<Merge.Span>)
    ensures Sources(Plan(text, spans)) == PS.Lead(text, spans) + Sources(PlanFrom(text, spans, 0))
  {
    SourcesAppend(TextPiece(PS.Lead(text, spans)), PlanFrom(text, spans, 0));
  }

  lemma {:induction false} LeadJoin(text: string, spans: seq<Merge.Span>, x: string)
    requires |spans| > 0 && Ranges.Valid(spans[0].range) && spans[0].range.end <= |text|
    requires x == text[spans[0].range.start..]
    ensures PS.Lead(text, spans) + x == text
  {
    assert PS.Lead(text, spans) == text[..spans[0].range.start];
  }

  /** The plan's pieces, in order, are the text: the lead, and for each
      range its text, its `{…}` and the rest of its gap. */
  lemma {:induction false} PlanSources(text: string, spans: seq<Merge.Span>)
    requires Merge.Separated(spans) && Merge.AllValid(spans)
    requires forall j :: 0 <= j < |spans| ==> spans[j].range.end <= |text|
    ensures Sources(Plan(text, spans)) == text
  {
    if |spans| > 0 {
      PlanLead(text, spans);
      PlanFromSources(text, spans, 0);
      assert Ranges.Valid(spans[0].range);
      LeadJoin(text, spans, Sources(PlanFrom(text, spans, 0)));
    } else {
      assert Plan(text, spans) == TextPiece(text);
    }
  }

  /** No text node is planned for an empty piece of text. */
  predicate NoEmptyText(plan: seq<Planned>) {
    forall k :: 0 <= k < |plan| && plan[k].PlannedText? ==> plan[k].t != ""
  }

  lemma NoEmptyTextAppend(a: seq<Planned>, b: seq<Planned>)
    requires NoEmptyText(a) && NoEmptyText(b)
    ensures NoEmptyText(a + b)
  {
    forall k | 0 <= k < |a + b| && (a + b)[k].PlannedText? ensures (a + b)[k].t != "" {
      if k >= |a| { assert (a + b)[k] == b[k - |a|]; }
    }
  }

  lemma {:induction false} PlanFromNoEmptyText(text: string, spans: seq<Merge.Span>, i: nat)
    requires i <= |spans|
    ensures NoEmptyText(PlanFrom(text, spans, i))
    decreases |spans| - i
  {
    if i < |spans| {
      var c := PS.ConsumeLineMeta(PS.Gap(text, spans, i));
      var head := [PlannedRange(spans[i].owner, PS.RangeText(text, spans, i), PS.MetaText(c))];
      PlanFromNoEmptyText(text, spans, i + 1);
      NoEmptyTextAppend(head, TextPiece(c.rest));
      NoEmptyTextAppend(head + TextPiece(c.rest), PlanFrom(text, spans, i + 1));
    }
  }

  /** Empty gaps emit no text node: every planned text piece is
      non-empty. */
  lemma {:induction false} PlanNoEmptyText(text: string, spans: seq<Merge.Span>)
    ensures NoEmptyText(Plan(text, spans))
  {
    PlanFromNoEmptyText(text, spans, 0);
    NoEmptyTextAppend(TextPiece(PS.Lead(text, spans)), PlanFrom(text, spans, 0));
  }

  /** The ranges the merge keeps are in order, separated and inside the
      text, once the strategies outline valid ranges inside it. */
  lemma {:induction false} ResolvedWellFormed<D>(fs: seq<(string, InlinerStrategy<D>)>, text: string)
    requires WellOutlined(fs, text)
    ensures var spans := PS.ResolveRanges(fs, text);
            Merge.SortedByStart(spans) && Merge.Separated(spans) && Merge.AllValid(spans)
            && forall j :: 0 <= j < |spans| ==> spans[j].range.end <= |text|
  {
    var cands := PS.Candidates(fs, text, 0);
    CandidatesOutlined(fs, text, 0);
    Merge.MergeAllSeparated([], cands);
    PS.MergeFrom(cands);
    var spans := PS.ResolveRanges(fs, text);
    forall j | 0 <= j < |spans| ensures spans[j].range.end <= |text| {
      assert spans[j] in spans;
    }
  }

  /** The resolution as written gives the same ranges as the corrected
      one, and so everything stated here of `ParseInliners`, when no
      candidate contains two ranges accepted before it. */
  lemma AsWrittenResolutionAgrees<D>(fs: seq<(string, InlinerStrategy<D>)>, text: string)
    requires WellOutlined(fs, text)
    requires Merge.ContainsAtMostOneAlong([], PS.Candidates(fs, text, 0))
    ensures PS.ResolveRangesAsWritten(fs, text) == PS.ResolveRanges(fs, text)
    ensures Merge.Separated(PS.ResolveRangesAsWritten(fs, text))
  {
    CandidatesOutlined(fs, text, 0);
    Merge.AsWrittenSeparatedIfAtMostOne([], PS.Candidates(fs, text, 0));
  }

  lemma {:induction false} CandidatesOutlined<D>(fs: seq<(string, InlinerStrategy<D>)>, text: string, k: nat)
    requires k <= |fs| && WellOutlined(fs, text)
    ensures var cands := PS.Candidates(fs, text, k);
            Merge.AllValid(cands) && forall x :: x in cands ==> x.range.end <= |text|
    decreases |fs| - k
  {
    if k < |fs| {
      CandidatesOutlined(fs, text, k + 1);
      var rs := fs[k].1.outlineRanges(text);
      var here := seq(|rs|, j requires 0 <= j < |rs| => Merge.Span(k, rs[j]));
      var cands := PS.Candidates(fs, text, k);
      assert cands == here + PS.Candidates(fs, text, k + 1);
      forall j | 0 <= j < |here| ensures Ranges.Valid(here[j].range) && here[j].range.end <= |text| {
        assert rs[j] in rs;
      }
      forall x | x in cands ensures x.range.end <= |text| {
        if x in here {
          var j :| 0 <= j < |here| && here[j] == x;
        }
      }
      forall j | 0 <= j < |cands| ensures Ranges.Valid(cands[j].range) {
        if j >= |here| {
          assert cands[j] == PS.Candidates(fs, text, k + 1)[j - |here|];
        }
      }
    }
  }

  // ---------------------------------------------------------------------
  // Realization.

  lemma {:induction false} RealizesAppend<D>(p: PS.Parser<D>, a: seq<Planned>, n1: seq<Node<D>>, l1: seq<Stepped<D>>,
                                             b: seq<Planned>, n2: seq<Node<D>>, l2: seq<Stepped<D>>)
    requires Realizes(p, a, n1, l1) && Realizes(p, b, n2, l2)
    ensures Realizes(p, a + b, n1 + n2, l1 + l2)
  {
    forall k | 0 <= k < |a + b|
      ensures Fits(p, (a + b)[k], (n1 + n2)[k]) && (l1 + l2)[k] == Stepped((n1 + n2)[k], Logged((a + b)[k]))
    {
      if k >= |a| {
        assert (a + b)[k] == b[k - |a|] && (n1 + n2)[k] == n2[k - |a|] && (l1 + l2)[k] == l2[k - |a|];
      } else {
        assert (a + b)[k] == a[k] && (n1 + n2)[k] == n1[k] && (l1 + l2)[k] == l1[k];
      }
    }
  }

  lemma MetasParseAppend<D>(p: PS.Parser<D>, a: seq<Planned>, b: seq<Planned>)
    ensures MetasParse(p, a + b) <==> MetasParse(p, a) && MetasParse(p, b)
  {
    if MetasParse(p, a) && MetasParse(p, b) {
      forall k | 0 <= k < |a + b| && (a + b)[k].PlannedRange?
        ensures MetaOf((a + b)[k].metaText, p.parseYaml).Success?
      {
        if k >= |a| { assert (a + b)[k] == b[k - |a|]; }
      }
    }
    if MetasParse(p, a + b) {
      forall k | 0 <= k < |b| && b[k].PlannedRange? ensures MetaOf(b[k].metaText, p.parseYaml).Success? {
        assert (a + b)[k + |a|] == b[k];
      }
      forall k | 0 <= k < |a| && a[k].PlannedRange? ensures MetaOf(a[k].metaText, p.parseYaml).Success? {
        assert (a + b)[k] == a[k];
      }
    }
  }

  /** The text of a consumed `{…}` gives back the meta the parser read. */
  lemma MetaOfConsumed(c: PS.Consumed, gap: string, parseYaml: string -> MetaParse.YamlParse)
    requires c == PS.ConsumeLineMeta(gap)
    ensures MetaOf(PS.MetaText(c), parseYaml) == PS.InlineMeta(c, parseYaml)
  {
    if c.lineMeta.Some? {
      var m := c.lineMeta.value;
      assert PS.MetaText(c)[1..|PS.MetaText(c)| - 1] == m;
    }
  }

  /** `pushTextNode` emits and logs exactly the text piece. */
  lemma PushTextRealizes<D>(p: PS.Parser<D>, t: string, reg: AutoIds.Registry, steps: seq<Stepped<D>>)
    ensures var r := PS.PushText(t, reg, steps);
            Extends(r.steps, steps) && Realizes(p, TextPiece(t), r.value, r.steps[|steps|..])
  {
    var r := PS.PushText(t, reg, steps);
    if t != "" {
      assert r.steps[|steps|..] == [Stepped(r.value[0], t)];
    }
  }

  /** One range emits and logs the planned range piece. */
  lemma EmitRangeRealizes<D>(p: PS.Parser<D>, o: nat, meta: Meta, pt: string, mt: string,
                             reg: AutoIds.Registry, steps: seq<Stepped<D>>)
    requires o < |p.inlinerFactories| && MetaOf(mt, p.parseYaml) == Success(meta)
    ensures var (name, s) := p.inlinerFactories[o];
            var r := PS.EmitRange(name, s, meta, pt, reg, steps);
            r.steps == steps + [Stepped(r.value, pt)]
            && Realizes(p, [PlannedRange(o, pt, mt)], [r.value], [Stepped(r.value, pt)])
  {
  }

  lemma {:induction false} RealizesChain2<D>(p: PS.Parser<D>, a: seq<Planned>, b: seq<Planned>,
                                             na: seq<Node<D>>, nb: seq<Node<D>>,
                                             s0: seq<Stepped<D>>, s1: seq<Stepped<D>>, s2: seq<Stepped<D>>)
    requires Extends(s1, s0) && Realizes(p, a, na, s1[|s0|..])
    requires Extends(s2, s1) && Realizes(p, b, nb, s2[|s1|..])
    ensures Extends(s2, s0) && Realizes(p, a + b, na + nb, s2[|s0|..])
  {
    var l1, l2 := s1[|s0|..], s2[|s1|..];
    assert s1 == s0 + l1 && s2 == s1 + l2;
    RealizesAppend(p, a, na, l1, b, nb, l2);
    assert s2 == s0 + (l1 + l2);
  }

  /** Three logged stretches in a row realize the three plans in a row. */
  lemma {:induction false} RealizesChain<D>(p: PS.Parser<D>, a: seq<Planned>, b: seq<Planned>, c: seq<Planned>,
                                            na: seq<Node<D>>, nb: seq<Node<D>>, nc: seq<Node<D>>,
                                            s0: seq<Stepped<D>>, s1: seq<Stepped<D>>, s2: seq<Stepped<D>>, s3: seq<Stepped<D>>)
    requires Extends(s1, s0) && Realizes(p, a, na, s1[|s0|..])
    requires Extends(s2, s1) && Realizes(p, b, nb, s2[|s1|..])
    requires Extends(s3, s2) && Realizes(p, c, nc, s3[|s2|..])
    ensures Extends(s3, s0) && Realizes(p, a + b + c, na + nb + nc, s3[|s0|..])
  {
    RealizesChain2(p, a, b, na, nb, s0, s1, s2);
    RealizesChain2(p, a + b, c, na + nb, nc, s0, s2, s3);
  }

  /** One step of the emission loop, for a range whose meta parsed. */
  lemma {:induction false} EmitFromUnfold<D>(p: PS.Parser<D>, text: string, spans: seq<Merge.Span>, i: nat,
                                             reg: AutoIds.Registry, steps: seq<Stepped<D>>, meta: Meta)
    requires i < |spans| && spans[i].owner < |p.inlinerFactories|
    requires forall x :: x in spans ==> x.owner < |p.inlinerFactories|
    requires PS.InlineMeta(PS.ConsumeLineMeta(PS.Gap(text, spans, i)), p.parseYaml) == Success(meta)
    ensures var c := PS.ConsumeLineMeta(PS.Gap(text, spans, i));
            var (name, s) := p.inlinerFactories[spans[i].owner];
            var node := PS.EmitRange(name, s, meta, PS.RangeText(text, spans, i), reg, steps);
            var after := PS.PushText(c.rest, node.reg, node.steps);
            PS.EmitFrom(p, text, spans, i, reg, steps)
            == match PS.EmitFrom(p, text, spans, i + 1, after.reg, after.steps)
               case Failure(e) => Failure(e)
               case Success(more) => Success(PS.Parsed([node.value] + after.value + more.value, more.reg, more.steps))
  {
    assert spans[i] in spans;
  }

  lemma MetasParseSingle<D>(p: PS.Parser<D>, x: Planned)
    requires x.PlannedRange?
    ensures MetasParse(p, [x]) <==> MetaOf(x.metaText, p.parseYaml).Success?
  {
    assert [x][0] == x;
  }

  lemma MetasParseText<D>(p: PS.Parser<D>, t: string)
    ensures MetasParse(p, TextPiece(t))
  {
  }

  lemma {:induction false} MetasParseHead<D>(p: PS.Parser<D>, x: Planned, t: string, rest: seq<Planned>)
    requires x.PlannedRange?
    ensures MetasParse(p, [x] + TextPiece(t) + rest)
            <==> MetaOf(x.metaText, p.parseYaml).Success? && MetasParse(p, rest)
  {
    MetasParseAppend(p, [x], TextPiece(t));
    MetasParseAppend(p, [x] + TextPiece(t), rest);
    MetasParseSingle(p, x);
    MetasParseText(p, t);
  }

  /** The meta of the plan from range `i` on parses exactly when range
      `i`'s does and the rest's does. */
  lemma {:induction false} MetasParseStep<D>(p: PS.Parser<D>, text: string, spans: seq<Merge.Span>, i: nat)
    requires i < |spans|
    ensures var c := PS.ConsumeLineMeta(PS.Gap(text, spans, i));
            MetasParse(p, PlanFrom(text, spans, i))
            <==> PS.InlineMeta(c, p.parseYaml).Success? && MetasParse(p, PlanFrom(text, spans, i + 1))
  {
    var gap := PS.Gap(text, spans, i);
    var c := PS.ConsumeLineMeta(gap);
    PlanFromUnfold(text, spans, i);
    MetaOfConsumed(c, gap, p.parseYaml);
    MetasParseHead(p, PlannedRange(spans[i].owner, PS.RangeText(text, spans, i), PS.MetaText(c)), c.rest,
                   PlanFrom(text, spans, i + 1));
  }

  lemma {:induction false} EmitFromRealizes<D>(p: PS.Parser<D>, text: string, spans: seq<Merge.Span>, i: nat,
                                               reg: AutoIds.Registry, steps: seq<Stepped<D>>)
    requires i <= |spans|
    requires forall x :: x in spans ==> x.owner < |p.inlinerFactories|
    ensures var r := PS.EmitFrom(p, text, spans, i, reg, steps);
            (r.Success? <==> MetasParse(p, PlanFrom(text, spans, i)))
            && (r.Success? ==> Extends(r.value.steps, steps)
                               && Realizes(p, PlanFrom(text, spans, i), r.value.value, r.value.steps[|steps|..]))
    decreases |spans| - i
  {
    if i < |spans| {
      assert spans[i] in spans;
      var o := spans[i].owner;
      var gap := PS.Gap(text, spans, i);
      var c := PS.ConsumeLineMeta(gap);
      var pt := PS.RangeText(text, spans, i);
      MetasParseStep(p, text, spans, i);
      match PS.InlineMeta(c, p.parseYaml)
      case Failure(e) =>
      case Success(meta) =>
        var (name, s) := p.inlinerFactories[o];
        var node := PS.EmitRange(name, s, meta, pt, reg, steps);
        var after := PS.PushText(c.rest, node.reg, node.steps);
        EmitFromUnfold(p, text, spans, i, reg, steps, meta);
        EmitFromRealizes(p, text, spans, i + 1, after.reg, after.steps);
        match PS.EmitFrom(p, text, spans, i + 1, after.reg, after.steps)
        case Failure(e) =>
        case Success(more) =>
          MetaOfConsumed(c, gap, p.parseYaml);
          EmitRangeRealizes(p, o, meta, pt, PS.MetaText(c), reg, steps);
          PushTextRealizes(p, c.rest, node.reg, node.steps);
          assert node.steps[|steps|..] == [Stepped(node.value, pt)];
          RealizesChain(p, [PlannedRange(o, pt, PS.MetaText(c))], TextPiece(c.rest), PlanFrom(text, spans, i + 1),
                        [node.value], after.value, more.value, steps, node.steps, after.steps, more.steps);
          PlanFromUnfold(text, spans, i);
    }
  }

  lemma {:induction false} ParseInlinersUnfold<D>(p: PS.Parser<D>, text: string, reg: AutoIds.Registry, steps: seq<Stepped<D>>)
    requires text != ""
    ensures var t := Strs.NormalizeLineEndings(text);
            var spans := PS.ResolveRanges(p.inlinerFactories, t);
            var lead := PS.PushText(PS.Lead(t, spans), reg, steps);
            PS.ParseInliners(p, text, reg, steps)
            == match PS.EmitFrom(p, t, spans, 0, lead.reg, lead.steps)
               case Failure(e) => Failure(e)
               case Success(rest) => Success(PS.Parsed(lead.value + rest.value, rest.reg, rest.steps))
  {
  }

  /** `parseInliners` of a non-empty text succeeds exactly when every
      consumed `{…}` is meta `parseMeta` accepts, and then emits and logs
      the plan of the normalized text over the accepted ranges. */
  lemma {:induction false} ParseInlinersRealizes<D>(p: PS.Parser<D>, text: string, reg: AutoIds.Registry, steps: seq<Stepped<D>>)
    requires text != ""
    ensures var t := Strs.NormalizeLineEndings(text);
            var plan := Plan(t, PS.ResolveRanges(p.inlinerFactories, t));
            var r := PS.ParseInliners(p, text, reg, steps);
            (r.Success? <==> MetasParse(p, plan))
            && (r.Success? ==> Extends(r.value.steps, steps) && Realizes(p, plan, r.value.value, r.value.steps[|steps|..]))
  {
    var t := Strs.NormalizeLineEndings(text);
    var spans := PS.ResolveRanges(p.inlinerFactories, t);
    var lead := PS.PushText(PS.Lead(t, spans), reg, steps);
    ParseInlinersUnfold(p, text, reg, steps);
    EmitFromRealizes(p, t, spans, 0, lead.reg, lead.steps);
    MetasParseAppend(p, TextPiece(PS.Lead(t, spans)), PlanFrom(t, spans, 0));
    match PS.EmitFrom(p, t, spans, 0, lead.reg, lead.steps)
    case Failure(e) =>
    case Success(rest) =>
      PushTextRealizes(p, PS.Lead(t, spans), reg, steps);
      RealizesChain2(p, TextPiece(PS.Lead(t, spans)), PlanFrom(t, spans, 0), lead.value, rest.value,
                     steps, lead.steps, rest.steps);
  }

  /** The plan of `parseInliners(text)`: nothing for an empty text,
      otherwise the plan of the normalized text over the ranges the merge
      accepts. */
  function PlanOf<D>(p: PS.Parser<D>, text: string): seq<Planned> {
    if text == "" then []
    else
      var t := Strs.NormalizeLineEndings(text);
      Plan(t, PS.ResolveRanges(p.inlinerFactories, t))
  }

  /** `parseInliners(text)` succeeds exactly when every consumed `{…}` is
      meta `parseMeta` accepts; then its nodes realize the plan of the
      text and each is logged once, in order, after the earlier log. */
  lemma {:induction false} ParseInlinersPlan<D>(p: PS.Parser<D>, text: string, reg: AutoIds.Registry, steps: seq<Stepped<D>>)
    ensures var r := PS.ParseInliners(p, text, reg, steps);
            (r.Success? <==> MetasParse(p, PlanOf(p, text)))
            && (r.Success? ==> Extends(r.value.steps, steps) && Realizes(p, PlanOf(p, text), r.value.value, r.value.steps[|steps|..]))
  {
    if text != "" {
      ParseInlinersRealizes(p, text, reg, steps);
    } else {
      assert steps[|steps|..] == [];
    }
  }

  /** With well-outlined ranges, the text pieces and the range pieces of
      the parse's plan, with their `{…}`, put together give back the
      normalized text. */
  lemma {:induction false} ParseInlinersReassembles<D>(p: PS.Parser<D>, text: string)
    requires WellOutlined(p.inlinerFactories, Strs.NormalizeLineEndings(text))
    ensures var t := Strs.NormalizeLineEndings(text);
            Sources(Plan(t, PS.ResolveRanges(p.inlinerFactories, t))) == t
  {
    var t := Strs.NormalizeLineEndings(text);
    ResolvedWellFormed(p.inlinerFactories, t);
    PlanSources(t, PS.ResolveRanges(p.inlinerFactories, t));
  }
}
