/** Parse factories (`parseFactory.ts`) as records of what their methods
    do, and the ordered registry the `Parser` constructor builds from the
    element transpilers.

    A strategy is foreign code; each method is a function of what it can
    see. `canParse` sees the block text left after meta detaching.
    `createParseData` sees the element node's meta (what `payload()`
    exposes) and the text it parses, and may throw (`Failure`).
    `alterAutoId` sees the candidate id, the text the factory parsed, the
    parse data it produced and the raw text of the node. */
module Strategies {
  import opened Wrappers
  import opened MetaValues
  import Ranges
  import Chars
  import Strs = Str
  import MetaParse

  datatype BlockStrategy<!D> = BlockStrategy(
    canParse: string -> bool,
    createParseData: (Meta, string) -> Result<D>,
    alterAutoId: (string, string, D, string) -> string)

  datatype InlinerStrategy<!D> = InlinerStrategy(
    outlineRanges: string -> seq<Ranges.Range>,
    createParseData: (Meta, string) -> Result<D>,
    alterAutoId: (string, string, D, string) -> string)

  /** One entry of a transpiler's `Parsers` list: a `BlockParseFactory`
      subclass or an `InlinerParseFactory` one. */
  datatype ParseFactory<!D> = BlockFactory(block: BlockStrategy<D>) | InlinerFactory(inliner: InlinerStrategy<D>)

  /** The part of an element transpiler the parser uses: the element name
      it is registered under and its `Parsers`. */
  datatype ParserTranspiler<!D> = ParserTranspiler(name: string, parsers: seq<ParseFactory<D>>)

  /** `ParseFactory.alterAutoId`: the candidate id, unchanged. */
  function KeepId<D>(id: string, seen: string, data: D, strNode: string): string {
    id
  }

  // The Parser constructor.

  /** `Object.entries(transpilers)` flattened with each `Parsers` list:
      every factory with the element name it serves, in order. */
  function Registered<D>(ts: seq<ParserTranspiler<D>>): (r: seq<(string, ParseFactory<D>)>)
    decreases |ts|
  {
    if |ts| == 0 then []
    else seq(|ts[0].parsers|, j requires 0 <= j < |ts[0].parsers| => (ts[0].name, ts[0].parsers[j])) + Registered(ts[1..])
  }

  /** The constructor loop: each factory is pushed onto the block list or
      onto the inliner list, keeping registry order within each. */
  function SplitFactories<D>(all: seq<(string, ParseFactory<D>)>)
    : (r: (seq<(string, BlockStrategy<D>)>, seq<(string, InlinerStrategy<D>)>))
    ensures |r.0| + |r.1| == |all|
    decreases |all|
  {
    if |all| == 0 then ([], [])
    else
      var rest := SplitFactories(all[..|all| - 1]);
      var (name, f) := all[|all| - 1];
      match f
      case BlockFactory(b) => (rest.0 + [(name, b)], rest.1)
      case InlinerFactory(i) => (rest.0, rest.1 + [(name, i)])
  }

  /** The split is compatible with concatenation: the factories of a
      later stretch of the registry come after those of an earlier one in
      both lists, so each list keeps registry order. */
  lemma {:induction false} SplitAppend<D>(a: seq<(string, ParseFactory<D>)>, b: seq<(string, ParseFactory<D>)>)
    ensures SplitFactories(a + b).0 == SplitFactories(a).0 + SplitFactories(b).0
    ensures SplitFactories(a + b).1 == SplitFactories(a).1 + SplitFactories(b).1
    decreases |b|
  {
    if |b| == 0 {
      assert a + b == a;
    } else {
      var b' := b[..|b| - 1];
      assert (a + b)[..|a + b| - 1] == a + b';
      assert (a + b)[|a + b| - 1] == b[|b| - 1];
      SplitAppend(a, b');
    }
  }

  /** A lone block factory goes to the block list and a lone inliner
      factory to the inliner list, under the name it was registered with. */
  lemma SplitSingle<D>(name: string, f: ParseFactory<D>)
    ensures f.BlockFactory? ==> SplitFactories([(name, f)]) == ([(name, f.block)], [])
    ensures f.InlinerFactory? ==> SplitFactories([(name, f)]) == ([], [(name, f.inliner)])
  {
    var one := [(name, f)];
    assert one[..|one| - 1] == [];
    assert one[|one| - 1] == (name, f);
    assert SplitFactories(one[..|one| - 1]) == ([], []);
    match f
    case BlockFactory(b) =>
      assert SplitFactories(one) == ([] + [(name, b)], []);
      assert [] + [(name, b)] == [(name, b)];
    case InlinerFactory(i) =>
      assert SplitFactories(one) == ([], [] + [(name, i)]);
      assert [] + [(name, i)] == [(name, i)];
  }

  // ObjBlockParseFactory.

  /** A line that `/^@(\S+)$/m` matches: `@` and one or more characters
      that are not whitespace, up to the end of the line. */
  predicate ObjLine(line: string) {
    |line| >= 2 && line[0] == '@' && forall k :: 1 <= k < |line| ==> !Chars.IsWhitespace(line[k])
  }

  /** The first line satisfying `p`. */
  function FirstLineWhere(lines: seq<string>, p: string -> bool): (r: Option<nat>)
    ensures r.Some? ==> r.value < |lines| && p(lines[r.value])
    ensures r.Some? ==> forall j :: 0 <= j < r.value ==> !p(lines[j])
    ensures r.None? ==> forall j :: 0 <= j < |lines| ==> !p(lines[j])
    decreases |lines|
  {
    if |lines| == 0 then None
    else if p(lines[0]) then Some(0)
    else
      var r := FirstLineWhere(lines[1..], p);
      assert forall j :: 1 <= j < |lines| ==> lines[j] == lines[1..][j - 1];
      if r.Some? then Some(r.value + 1) else None
  }

  /** What the first match of `/^@(\S+)$/m` captures, if anything
      matches: the multiline anchors make it the first line of that
      shape. */
  function ObjName(text: string): (r: Option<string>)
    ensures r.Some? <==> exists k :: 0 <= k < |Strs.Lines(text)| && ObjLine(Strs.Lines(text)[k])
    ensures r.Some? ==> exists k :: 0 <= k < |Strs.Lines(text)| && ObjLine(Strs.Lines(text)[k])
                          && "@" + r.value == Strs.Lines(text)[k]
                          && forall j :: 0 <= j < k ==> !ObjLine(Strs.Lines(text)[j])
  {
    var lines := Strs.Lines(text);
    match FirstLineWhere(lines, ObjLine)
    case None =>
      assert forall j :: 0 <= j < |lines| ==> !ObjLine(lines[j]);
      None
    case Some(k) =>
      var name := lines[k][1..];
      assert ObjLine(lines[k]);
      assert "@" + name == lines[k];
      assert lines == Strs.Lines(text);
      Some(name)
  }

  /** `ObjBlockParseFactory.canParse`. */
  predicate ObjCanParse(objName: string, text: string) {
    ObjName(text) == Some(objName)
  }

  /** What `getParseMode` can answer. */
  datatype ParseMode = StringMode | ObjectMode | AnyMode

  /** What `parseDataFromObj` is handed: the raw content text in 'string'
      mode; otherwise what YAML made of it, a plain object or some other
      value. */
  datatype ObjContent = RawText(text: string) | PlainObject(obj: Meta) | OtherValue

  const YamlError: string := "YAMLParseError"

  function NotPlainMessage(objName: string): string {
    "Block \"" + objName + "\" content must be a plain object!"
  }

  /** `ObjBlockParseFactory.createParseData`: the first line (`@name`) is
      dropped; the rest goes to `parseDataFromObj` as text or as YAML,
      and in 'object' mode anything but a plain object is rejected. */
  function ObjCreateParseData<D>(objName: string, mode: ParseMode, parseYaml: string -> MetaParse.YamlParse,
                                 fromObj: (Meta, ObjContent, string) -> Result<D>, meta: Meta, strBlock: string): (r: Result<D>)
  {
    var content := Strs.SplitFirstLine(strBlock).restText;
    if mode == StringMode then fromObj(meta, RawText(content), strBlock)
    else
      match parseYaml(content)
      case YamlThrows => Failure(YamlError)
      case YamlPlainObject(m) => fromObj(meta, PlainObject(m), strBlock)
      case YamlNotPlainObject =>
        if mode == ObjectMode then Failure(NotPlainMessage(objName))
        else fromObj(meta, OtherValue, strBlock)
  }

  /** The content is everything after the first line break, and a block
      without one has empty content. In 'string' mode it is passed on as
      text, in any mode a plain object is passed on, and in the default
      'object' mode any other YAML value is an error. */
  lemma {:induction false} ObjContentAfterFirstLine<D>(objName: string, mode: ParseMode, parseYaml: string -> MetaParse.YamlParse,
                                   fromObj: (Meta, ObjContent, string) -> Result<D>, meta: Meta,
                                   head: string, content: string, strBlock: string)
    requires '\n' !in head
    requires strBlock == head + "\n" + content || ('\n' !in strBlock && head == strBlock && content == "")
    ensures var r := ObjCreateParseData(objName, mode, parseYaml, fromObj, meta, strBlock);
            && (mode == StringMode ==> r == fromObj(meta, RawText(content), strBlock))
            && (mode != StringMode && parseYaml(content).YamlPlainObject? ==>
                  r == fromObj(meta, PlainObject(parseYaml(content).meta), strBlock))
            && (mode == ObjectMode && !parseYaml(content).YamlPlainObject? ==> r.Failure?)
            && (mode == ObjectMode && parseYaml(content) == MetaParse.YamlNotPlainObject ==>
                  r == Failure(NotPlainMessage(objName)))
  {
    var fl := Strs.SplitFirstLine(strBlock);
    if '\n' in strBlock {
      SplitAtFirstBreak(head, content, fl.firstLine, fl.restText);
    }
  }

  /** Splitting at the first line break is unique. */
  lemma {:induction false} SplitAtFirstBreak(h1: string, c1: string, h2: string, c2: string)
    requires '\n' !in h1 && '\n' !in h2
    requires h1 + "\n" + c1 == h2 + "\n" + c2
    ensures h1 == h2 && c1 == c2
  {
    var s := h1 + "\n" + c1;
    assert s == h1 + ("\n" + c1) && s == h2 + ("\n" + c2);
    Strs.IndexOfNoNewline(h1, "\n" + c1);
    Strs.IndexOfNoNewline(h2, "\n" + c2);
    assert h1 == s[..|h1|] && h2 == s[..|h2|];
    assert c1 == s[|h1| + 1..] && c2 == s[|h2| + 1..];
  }

  /** An `ObjBlockParseFactory` as a block strategy. */
  function ObjBlockStrategy<D>(objName: string, mode: ParseMode, parseYaml: string -> MetaParse.YamlParse,
                               fromObj: (Meta, ObjContent, string) -> Result<D>,
                               alterAutoId: (string, string, D, string) -> string): BlockStrategy<D>
  {
    BlockStrategy(
      (text: string) => ObjCanParse(objName, text),
      (meta: Meta, text: string) => ObjCreateParseData(objName, mode, parseYaml, fromObj, meta, text),
      alterAutoId)
  }

  // RegexpInlinerParseFactory.

  /** One match of a global regular expression: where it starts, the
      matched text, and the capture groups. */
  datatype RegexpMatch = RegexpMatch(index: nat, text: string, groups: seq<string>)

  /** `outlineRanges`: one range `[index, index + length)` per match,
      in match order (`tryRange` accepts every one of them). */
  function MatchRanges(ms: seq<RegexpMatch>): (r: seq<Ranges.Range>)
    ensures |r| == |ms|
    ensures forall i :: 0 <= i < |ms| ==> r[i] == Ranges.Range(ms[i].index, ms[i].index + |ms[i].text|)
    decreases |ms|
  {
    if |ms| == 0 then []
    else
      var first := Ranges.TryRange(ms[0].index, ms[0].index + |ms[0].text|);
      var rest := MatchRanges(ms[1..]);
      if first.Some? then [first.value] + rest else rest
  }

  /** `createParseData`: `new RegExp(regexp).exec(strInliner)` is the first
      match in the inliner's own text; `null` when there is none. */
  function RegexpCreateParseData<D>(matchAll: string -> seq<RegexpMatch>, fromMatch: (Meta, Option<RegexpMatch>) -> Result<D>,
                                    meta: Meta, strInliner: string): Result<D>
  {
    var ms := matchAll(strInliner);
    fromMatch(meta, if |ms| > 0 then Some(ms[0]) else None)
  }

  /** A `RegexpInlinerParseFactory` as an inliner strategy, given its
      regular expression as the list of matches it finds in a text. */
  function RegexpStrategy<D>(matchAll: string -> seq<RegexpMatch>, fromMatch: (Meta, Option<RegexpMatch>) -> Result<D>,
                             alterAutoId: (string, string, D, string) -> string): InlinerStrategy<D>
  {
    InlinerStrategy(
      (text: string) => MatchRanges(matchAll(text)),
      (meta: Meta, text: string) => RegexpCreateParseData(matchAll, fromMatch, meta, text),
      alterAutoId)
  }
}
