/** `Stringifier` (`stringifier.ts`) with the built-in paragraph and text
    stringifiers (`stringifyDefault.ts`): a node tree back to text.

    Error nodes give back their raw text, groups join their children,
    elements are written by the stringifier registered under their name
    and get their meta put back, and every element and error node is
    handed to `step` once, after the nodes inside it. The log of `step`
    calls is threaded through as in the parser.

    The built-in stringifiers declare a parameter `elementNode`, but
    `stringify` calls `stringifyElement()` without an argument, so as
    written they read a field of `undefined`. `Defaults` selects that
    reading or the one the tests expect, where they read the node being
    written. */
module Stringifier {
  import opened Wrappers
  import opened MetaValues
  import Chars
  import MetaStringify
  import opened Nodes

  /** The stringify factory an element name resolves to. */
  datatype Factory<!D> =
    | ParagraphFactory
    | TextFactory
    /** A registered transpiler's `Stringifier`: `stringifyElement` as a
        function of the node's meta and parse data. */
    | CustomFactory(stringifyElement: (Meta, D) -> Result<string>)

  /** The registered stringifiers by element name, and the YAML writer
      `stringifyMeta` uses for complex meta. */
  datatype Stringifier<!D> = Stringifier(custom: map<string, (Meta, D) -> Result<string>>, dumpYaml: Meta -> string)

  /** Which built-in stringifiers: `AsWritten` reads the missing argument
      and fails, `Corrected` reads the node. */
  datatype Defaults = AsWritten | Corrected

  /** The result of writing a node: its text and the step log after it. */
  datatype Out<D> = Out(text: string, steps: seq<Stepped<D>>)

  /** The constructor loop: `factories[elementName] = transpiler.Stringifier`
      in registry order. */
  function Register<D>(ts: seq<(string, (Meta, D) -> Result<string>)>): map<string, (Meta, D) -> Result<string>>
    decreases |ts|
  {
    if |ts| == 0 then map[] else Register(ts[..|ts| - 1])[ts[|ts| - 1].0 := ts[|ts| - 1].1]
  }

  /** `new Stringifier(transpilers)`. */
  function NewStringifier<D>(ts: seq<(string, (Meta, D) -> Result<string>)>, dumpYaml: Meta -> string): Stringifier<D> {
    Stringifier(Register(ts), dumpYaml)
  }

  /** `this.factories[name]`: the constructor sets `paragraph` and `text`
      last, so the built-ins win over registered stringifiers of the same
      name. */
  function FactoryFor<D>(s: Stringifier<D>, name: string): Option<Factory<D>> {
    if name == ParagraphName then Some(ParagraphFactory)
    else if name == TextName then Some(TextFactory)
    else if name in s.custom then Some(CustomFactory(s.custom[name]))
    else None
  }

  function NoStringifierMessage(name: string): string {
    "No stringifier found for element \"" + name + "\"!"
  }

  function UnknownNodeMessage(description: string): string {
    "Unknown node type \"" + description + "\"!"
  }

  /** What reading `elementNode.parseData` of `undefined` throws. */
  const MissingArgumentMessage: string := "Cannot read properties of undefined (reading 'parseData')"

  /** A built-in stringifier given an element whose parse data is neither
      a node nor a string. */
  function BuiltinDataMessage(name: string): string {
    "Built-in stringifier cannot read the parse data of \"" + name + "\""
  }

  const BlockSep: string := "\n\n"

  /** The meta of an element put back around its body: only when the meta
      has a key and `stringifyMeta` writes something; above the body, on
      its own line, for a block, and after it for an inliner. A block may
      use the complex form. */
  function WithMeta(body: string, meta: Meta, isBlock: bool, dumpYaml: Meta -> string): string {
    if |meta| == 0 then body
    else
      var m := MetaStringify.StringifyMeta(Some(meta), isBlock, dumpYaml);
      if m == "" then body else if isBlock then m + "\n" + body else body + m
  }

  /** An element's text with its meta, logged after everything inside it. */
  function Finish<D>(s: Stringifier<D>, node: Node<D>, meta: Meta, isBlock: bool, body: string, steps: seq<Stepped<D>>): Out<D> {
    var text := WithMeta(body, meta, isBlock, s.dumpYaml);
    Out(text, steps + [Stepped(node, text)])
  }

  /** `stringify(node, options)`. */
  function Stringify<D>(s: Stringifier<D>, rev: Defaults, node: Node<D>, steps: seq<Stepped<D>>): Result<Out<D>>
    decreases node
  {
    match node
    case BlockError(_, strBlock, _) => Success(Out(strBlock, steps + [Stepped(node, strBlock)]))
    case InlinerError(_, strInliner, _) => Success(Out(strInliner, steps + [Stepped(node, strInliner)]))
    case Blocks(Undefined) => Success(Out("", steps))
    case Blocks(Defined(ns)) =>
      if |ns| == 0 then Success(Out("", steps))
      else
        (match StringifyEach(s, rev, ns, BlockSep, steps)
         case Failure(e) => Failure(e)
         case Success(o) => Success(Out(Chars.Trim(o.text), o.steps)))
    case Inliners(Undefined) => Success(Out("", steps))
    case Inliners(Defined(ns)) =>
      if |ns| == 0 then Success(Out("", steps)) else StringifyEach(s, rev, ns, "", steps)
    case Paragraph(meta, _, content) =>
      if rev == AsWritten then Failure(MissingArgumentMessage)
      else
        (match Stringify(s, rev, content, steps)
         case Failure(e) => Failure(e)
         case Success(o) => Success(Finish(s, node, meta, true, o.text, o.steps)))
    case Text(meta, _, text) =>
      if rev == AsWritten then Failure(MissingArgumentMessage)
      else Success(Finish(s, node, meta, false, text, steps))
    case Element(place, name, meta, _, data) =>
      (match FactoryFor(s, name)
       case None => Failure(NoStringifierMessage(name))
       case Some(CustomFactory(f)) =>
         (match f(meta, data)
          case Failure(e) => Failure(e)
          case Success(body) => Success(Finish(s, node, meta, place == Block, body, steps)))
       case Some(_) => if rev == AsWritten then Failure(MissingArgumentMessage) else Failure(BuiltinDataMessage(name)))
    case Foreign(description) => Failure(UnknownNodeMessage(description))
  }

  /** The group loop: each child in order, followed by `sep`. */
  function StringifyEach<D>(s: Stringifier<D>, rev: Defaults, ns: seq<Node<D>>, sep: string, steps: seq<Stepped<D>>)
    : Result<Out<D>>
    decreases ns
  {
    if |ns| == 0 then Success(Out("", steps))
    else
      match Stringify(s, rev, ns[0], steps)
      case Failure(e) => Failure(e)
      case Success(first) =>
        match StringifyEach(s, rev, ns[1..], sep, first.steps)
        case Failure(e) => Failure(e)
        case Success(rest) => Success(Out(first.text + sep + rest.text, rest.steps))
  }

  /** The nodes `step` is handed while `node` is written, in order: every
      element and error node, each after the nodes inside it. Groups are
      not handed over themselves. */
  ghost function Logged<D>(node: Node<D>): seq<Node<D>>
    decreases node
  {
    match node
    case Blocks(Undefined) => []
    case Blocks(Defined(ns)) => LoggedEach(ns)
    case Inliners(Undefined) => []
    case Inliners(Defined(ns)) => LoggedEach(ns)
    case Paragraph(_, _, content) => Logged(content) + [node]
    case Foreign(_) => []
    case _ => [node]
  }

  ghost function LoggedEach<D>(ns: seq<Node<D>>): seq<Node<D>>
    decreases ns
  {
    if |ns| == 0 then [] else Logged(ns[0]) + LoggedEach(ns[1..])
  }

  /** When `stringify` returns rather than throws: every element inside
      has a stringifier, a registered one that succeeds or a built-in one
      that reads the node, and nothing inside is foreign. */
  ghost predicate Writable<D>(s: Stringifier<D>, rev: Defaults, node: Node<D>)
    decreases node
  {
    match node
    case Blocks(Defined(ns)) => forall i :: 0 <= i < |ns| ==> Writable(s, rev, ns[i])
    case Inliners(Defined(ns)) => forall i :: 0 <= i < |ns| ==> Writable(s, rev, ns[i])
    case Paragraph(_, _, content) => rev == Corrected && Writable(s, rev, content)
    case Text(_, _, _) => rev == Corrected
    case Element(_, name, meta, _, data) =>
      (match FactoryFor(s, name)
       case Some(CustomFactory(f)) => f(meta, data).Success?
       case _ => false)
    case Foreign(_) => false
    case _ => true
  }

  ghost function NodesOf<D>(st: seq<Stepped<D>>): (r: seq<Node<D>>)
    ensures |r| == |st|
  {
    seq(|st|, i requires 0 <= i < |st| => st[i].node)
  }

  /** `after` is `before` with steps for `nodes` appended. */
  ghost predicate Logs<D>(before: seq<Stepped<D>>, after: seq<Stepped<D>>, nodes: seq<Node<D>>) {
    && |before| <= |after| && after[..|before|] == before
    && NodesOf(after[|before|..]) == nodes
  }

  lemma LogsChain<D>(a: seq<Stepped<D>>, b: seq<Stepped<D>>, c: seq<Stepped<D>>, n1: seq<Node<D>>, n2: seq<Node<D>>)
    requires Logs(a, b, n1) && Logs(b, c, n2)
    ensures Logs(a, c, n1 + n2)
  {
    assert c[|a|..] == b[|a|..] + c[|b|..];
  }

  lemma LogsOne<D>(a: seq<Stepped<D>>, x: Stepped<D>)
    ensures Logs(a, a + [x], [x.node])
  {
    assert (a + [x])[|a|..] == [x];
  }

  lemma LogsNone<D>(a: seq<Stepped<D>>)
    ensures Logs(a, a, [])
  {
  }

  /** Writing a node hands `step` exactly the nodes `Logged` lists, after
      the steps already made. */
  lemma {:induction false} StringifyLog<D>(s: Stringifier<D>, rev: Defaults, node: Node<D>, steps: seq<Stepped<D>>)
    ensures var r := Stringify(s, rev, node, steps);
            r.Success? ==> Logs(steps, r.value.steps, Logged(node))
    decreases node
  {
    var r := Stringify(s, rev, node, steps);
    if r.Success? {
      match node
      case Blocks(Defined(ns)) =>
        if |ns| == 0 { LogsNone(steps); } else { EachLog(s, rev, ns, BlockSep, steps); }
      case Inliners(Defined(ns)) =>
        if |ns| == 0 { LogsNone(steps); } else { EachLog(s, rev, ns, "", steps); }
      case Paragraph(meta, _, content) =>
        StringifyLog(s, rev, content, steps);
        var o := Stringify(s, rev, content, steps).value;
        LogsOne(o.steps, Stepped(node, r.value.text));
        LogsChain(steps, o.steps, r.value.steps, Logged(content), [node]);
      case Blocks(Undefined) => LogsNone(steps);
      case Inliners(Undefined) => LogsNone(steps);
      case Foreign(_) =>
      case _ => LogsOne(steps, Stepped(node, r.value.text));
    }
  }

  lemma {:induction false} EachLog<D>(s: Stringifier<D>, rev: Defaults, ns: seq<Node<D>>, sep: string, steps: seq<Stepped<D>>)
    ensures var r := StringifyEach(s, rev, ns, sep, steps);
            r.Success? ==> Logs(steps, r.value.steps, LoggedEach(ns))
    decreases ns
  {
    if |ns| == 0 {
      LogsNone(steps);
    } else {
      var f := Stringify(s, rev, ns[0], steps);
      if f.Success? {
        StringifyLog(s, rev, ns[0], steps);
        EachLog(s, rev, ns[1..], sep, f.value.steps);
        var r := StringifyEach(s, rev, ns[1..], sep, f.value.steps);
        if r.Success? {
          LogsChain(steps, f.value.steps, r.value.steps, Logged(ns[0]), LoggedEach(ns[1..]));
        }
      }
    }
  }

  /** `stringify` returns exactly when the tree is `Writable`, whatever
      steps came before. */
  lemma {:induction false} StringifyWritable<D>(s: Stringifier<D>, rev: Defaults, node: Node<D>, steps: seq<Stepped<D>>)
    ensures Stringify(s, rev, node, steps).Success? <==> Writable(s, rev, node)
    decreases node
  {
    match node
    case Blocks(Defined(ns)) => if |ns| > 0 { EachWritable(s, rev, ns, BlockSep, steps); }
    case Inliners(Defined(ns)) => if |ns| > 0 { EachWritable(s, rev, ns, "", steps); }
    case Paragraph(_, _, content) => StringifyWritable(s, rev, content, steps);
    case _ =>
  }

  lemma {:induction false} EachWritable<D>(s: Stringifier<D>, rev: Defaults, ns: seq<Node<D>>, sep: string, steps: seq<Stepped<D>>)
    ensures StringifyEach(s, rev, ns, sep, steps).Success? <==> forall i :: 0 <= i < |ns| ==> Writable(s, rev, ns[i])
    decreases ns
  {
    if |ns| > 0 {
      StringifyWritable(s, rev, ns[0], steps);
      var f := Stringify(s, rev, ns[0], steps);
      if f.Success? {
        EachWritable(s, rev, ns[1..], sep, f.value.steps);
        assert forall i :: 1 <= i < |ns| ==> ns[i] == ns[1..][i - 1];
      }
    }
  }

  /** A result as it comes out after `steps`: the same text, the steps
      after `steps`. */
  ghost function After<D>(r: Result<Out<D>>, steps: seq<Stepped<D>>): Result<Out<D>> {
    match r
    case Failure(e) => Failure(e)
    case Success(o) => Success(Out(o.text, steps + o.steps))
  }

  /** The steps made before do not change what a node writes, nor which
      steps it adds. */
  lemma {:induction false} StringifyFrame<D>(s: Stringifier<D>, rev: Defaults, node: Node<D>, steps: seq<Stepped<D>>)
    ensures Stringify(s, rev, node, steps) == After(Stringify(s, rev, node, []), steps)
    decreases node
  {
    match node
    case Blocks(Defined(ns)) => if |ns| > 0 { EachFrame(s, rev, ns, BlockSep, steps); } else { NoStepFrame(steps); }
    case Inliners(Defined(ns)) => if |ns| > 0 { EachFrame(s, rev, ns, "", steps); } else { NoStepFrame(steps); }
    case Blocks(Undefined) => NoStepFrame(steps);
    case Inliners(Undefined) => NoStepFrame(steps);
    case Paragraph(meta, _, content) =>
      StringifyFrame(s, rev, content, steps);
      var r0 := Stringify(s, rev, content, []);
      if r0.Success? {
        var text := WithMeta(r0.value.text, meta, true, s.dumpYaml);
        assert steps + r0.value.steps + [Stepped(node, text)] == steps + (r0.value.steps + [Stepped(node, text)]);
      }
    case Text(meta, _, text) => OneStepFrame(steps, Stepped(node, WithMeta(text, meta, false, s.dumpYaml)));
    case Element(place, _, meta, _, data) =>
      if FactoryFor(s, node.name).Some? && FactoryFor(s, node.name).value.CustomFactory? {
        var b := FactoryFor(s, node.name).value.stringifyElement(meta, data);
        if b.Success? {
          OneStepFrame(steps, Stepped(node, WithMeta(b.value, meta, place == Block, s.dumpYaml)));
        }
      }
    case BlockError(_, strBlock, _) => OneStepFrame(steps, Stepped(node, strBlock));
    case InlinerError(_, strInliner, _) => OneStepFrame(steps, Stepped(node, strInliner));
    case _ =>
  }

  lemma NoStepFrame<D>(steps: seq<Stepped<D>>)
    ensures steps + [] == steps
  {
  }

  lemma OneStepFrame<D>(steps: seq<Stepped<D>>, x: Stepped<D>)
    ensures steps + ([] + [x]) == steps + [x]
  {
  }

  lemma {:induction false} EachFrame<D>(s: Stringifier<D>, rev: Defaults, ns: seq<Node<D>>, sep: string, steps: seq<Stepped<D>>)
    ensures StringifyEach(s, rev, ns, sep, steps) == After(StringifyEach(s, rev, ns, sep, []), steps)
    decreases ns
  {
    if |ns| > 0 {
      StringifyFrame(s, rev, ns[0], steps);
      var f0 := Stringify(s, rev, ns[0], []);
      if f0.Success? {
        var st := f0.value.steps;
        EachFrame(s, rev, ns[1..], sep, steps + st);
        EachFrame(s, rev, ns[1..], sep, st);
        var r0 := StringifyEach(s, rev, ns[1..], sep, []);
        if r0.Success? {
          assert steps + st + r0.value.steps == steps + (st + r0.value.steps);
          assert StringifyEach(s, rev, ns, sep, []) == Success(Out(f0.value.text + sep + r0.value.text, st + r0.value.steps));
          assert StringifyEach(s, rev, ns, sep, steps) == Success(Out(f0.value.text + sep + r0.value.text, steps + st + r0.value.steps));
        }
      }
    } else {
      NoStepFrame(steps);
    }
  }

  /** What a node writes, read off the call with no earlier steps. */
  ghost function TextOf<D>(s: Stringifier<D>, rev: Defaults, node: Node<D>): string {
    var r := Stringify(s, rev, node, []);
    if r.Success? then r.value.text else ""
  }

  ghost function TextsOf<D>(s: Stringifier<D>, rev: Defaults, ns: seq<Node<D>>): (r: seq<string>)
    ensures |r| == |ns|
  {
    seq(|ns|, i requires 0 <= i < |ns| => TextOf(s, rev, ns[i]))
  }

  /** The group loop writes every child followed by the separator. */
  lemma {:induction false} EachText<D>(s: Stringifier<D>, rev: Defaults, ns: seq<Node<D>>, sep: string, steps: seq<Stepped<D>>)
    requires |ns| > 0
    ensures var r := StringifyEach(s, rev, ns, sep, steps);
            r.Success? ==> r.value.text == Chars.Join(TextsOf(s, rev, ns), sep) + sep
    decreases ns
  {
    var f := Stringify(s, rev, ns[0], steps);
    if f.Success? {
      var rest := StringifyEach(s, rev, ns[1..], sep, f.value.steps);
      if rest.Success? {
        EachUnfold(s, rev, ns, sep, steps);
        TextOfAnySteps(s, rev, ns[0], steps);
        TextsOfCons(s, rev, ns);
        if |ns| == 1 {
          assert rest.value.text == "";
        } else {
          EachText(s, rev, ns[1..], sep, f.value.steps);
          var ts := TextsOf(s, rev, ns);
          JoinCons(ts, sep);
          ConcatAssoc(ts[0] + sep, Chars.Join(ts[1..], sep), sep);
        }
      }
    }
  }

  lemma EachUnfold<D>(s: Stringifier<D>, rev: Defaults, ns: seq<Node<D>>, sep: string, steps: seq<Stepped<D>>)
    requires |ns| > 0
    ensures var f := Stringify(s, rev, ns[0], steps);
            f.Success? && StringifyEach(s, rev, ns[1..], sep, f.value.steps).Success? ==>
              var rest := StringifyEach(s, rev, ns[1..], sep, f.value.steps).value;
              StringifyEach(s, rev, ns, sep, steps) == Success(Out(f.value.text + sep + rest.text, rest.steps))
  {
  }

  lemma TextOfAnySteps<D>(s: Stringifier<D>, rev: Defaults, node: Node<D>, steps: seq<Stepped<D>>)
    ensures Stringify(s, rev, node, steps).Success? ==> Stringify(s, rev, node, steps).value.text == TextOf(s, rev, node)
  {
    StringifyFrame(s, rev, node, steps);
  }

  lemma TextsOfCons<D>(s: Stringifier<D>, rev: Defaults, ns: seq<Node<D>>)
    requires |ns| > 0
    ensures TextsOf(s, rev, ns)[0] == TextOf(s, rev, ns[0])
    ensures TextsOf(s, rev, ns[1..]) == TextsOf(s, rev, ns)[1..]
  {
  }

  lemma ConcatAssoc(a: string, b: string, c: string)
    ensures a + (b + c) == a + b + c
  {
  }

  lemma JoinCons(ts: seq<string>, sep: string)
    requires |ts| >= 2
    ensures Chars.Join(ts, sep) == ts[0] + sep + Chars.Join(ts[1..], sep)
  {
  }

  /** A blocks group writes its children's texts with a blank line between
      them, trimmed; an inliners group writes them one after the other. */
  lemma GroupText<D>(s: Stringifier<D>, rev: Defaults, ns: seq<Node<D>>, steps: seq<Stepped<D>>)
    ensures var r := Stringify(s, rev, Blocks(Defined(ns)), steps);
            r.Success? ==> r.value.text == Chars.Trim(Chars.Join(TextsOf(s, rev, ns), BlockSep))
    ensures var r := Stringify(s, rev, Inliners(Defined(ns)), steps);
            r.Success? ==> r.value.text == Chars.Join(TextsOf(s, rev, ns), "")
  {
    if |ns| > 0 {
      EachText(s, rev, ns, BlockSep, steps);
      EachText(s, rev, ns, "", steps);
      Chars.TrimAppendWhitespace(Chars.Join(TextsOf(s, rev, ns), BlockSep), BlockSep);
    } else {
      assert !Chars.HasNonWhitespace("");
    }
  }

  /** The registered stringifier under a name is the one registered last
      under it, and there is one exactly when some registration uses the
      name. */
  lemma {:induction false} RegisterLast<D>(ts: seq<(string, (Meta, D) -> Result<string>)>, name: string)
    ensures name in Register(ts) <==> exists i :: 0 <= i < |ts| && ts[i].0 == name
    ensures forall j :: 0 <= j < |ts| && ts[j].0 == name && (forall k :: j < k < |ts| ==> ts[k].0 != name) ==>
              name in Register(ts) && Register(ts)[name] == ts[j].1
  {
    RegisterHas(ts, name);
    forall j | 0 <= j < |ts| && ts[j].0 == name && (forall k :: j < k < |ts| ==> ts[k].0 != name)
      ensures name in Register(ts) && Register(ts)[name] == ts[j].1
    {
      RegisterAt(ts, name, j);
    }
  }

  lemma {:induction false} RegisterAt<D>(ts: seq<(string, (Meta, D) -> Result<string>)>, name: string, j: nat)
    requires j < |ts| && ts[j].0 == name
    requires forall k :: j < k < |ts| ==> ts[k].0 != name
    ensures name in Register(ts) && Register(ts)[name] == ts[j].1
    decreases |ts|
  {
    if j < |ts| - 1 {
      var init := ts[..|ts| - 1];
      assert ts[|ts| - 1].0 != name;
      assert init[j] == ts[j];
      forall k | j < k < |init|
        ensures init[k].0 != name
      {
        assert init[k] == ts[k];
      }
      RegisterAt(init, name, j);
    }
  }

  lemma {:induction false} RegisterHas<D>(ts: seq<(string, (Meta, D) -> Result<string>)>, name: string)
    ensures name in Register(ts) <==> exists i :: 0 <= i < |ts| && ts[i].0 == name
    decreases |ts|
  {
    if |ts| > 0 {
      var init := ts[..|ts| - 1];
      RegisterHas(init, name);
      if ts[|ts| - 1].0 != name {
        if exists i :: 0 <= i < |ts| && ts[i].0 == name {
          var i :| 0 <= i < |ts| && ts[i].0 == name;
          assert init[i] == ts[i];
        }
        if exists i :: 0 <= i < |init| && init[i].0 == name {
          var i :| 0 <= i < |init| && init[i].0 == name;
          assert ts[i] == init[i];
        }
      }
    }
  }

  /** After construction an element name resolves to the built-in
      stringifier for `paragraph` and `text`, whatever was registered under
      those names; any other name to the stringifier registered last under
      it, or to none when nothing was. */
  lemma FactoryForNew<D>(ts: seq<(string, (Meta, D) -> Result<string>)>, dumpYaml: Meta -> string, name: string)
    ensures var f := FactoryFor(NewStringifier(ts, dumpYaml), name);
            && (name == ParagraphName ==> f == Some(ParagraphFactory))
            && (name == TextName ==> f == Some(TextFactory))
            && (name != ParagraphName && name != TextName ==>
                  && (f.None? <==> forall i :: 0 <= i < |ts| ==> ts[i].0 != name)
                  && forall j :: 0 <= j < |ts| && ts[j].0 == name && (forall k :: j < k < |ts| ==> ts[k].0 != name) ==>
                       f == Some(CustomFactory(ts[j].1)))
  {
    RegisterLast(ts, name);
  }

  /** As written the built-in stringifiers read a field of `undefined`, so
      any tree holding a paragraph or a text node fails to write; here a
      root with one paragraph among its blocks. */
  lemma AsWrittenParagraphFails<D>(s: Stringifier<D>, ns: seq<Node<D>>, i: nat, steps: seq<Stepped<D>>)
    requires i < |ns| && ns[i].Paragraph?
    ensures Stringify(s, AsWritten, Blocks(Defined(ns)), steps).Failure?
    ensures !Writable(s, AsWritten, Blocks(Defined(ns)))
  {
    StringifyWritable(s, AsWritten, Blocks(Defined(ns)), steps);
  }
}
