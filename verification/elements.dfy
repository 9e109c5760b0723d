/** The literal texts of the custom element fixtures, kept apart from
    the definitions they are used with. */
module HeadingLiterals {
  lemma Heading1Line(hashes: string, t: string, line: string)
    requires hashes == "#" && t == "Heading 1" && line == "# Heading 1"
    ensures hashes + " " + t == line
  {
  }

  lemma ThrowLine(hashes: string, t: string, line: string)
    requires hashes == "###" && t == "This heading should throw" && line == "### This heading should throw"
    ensures hashes + " " + t == line
  {
  }

  lemma Heading1Title(pre: string, t: string, post: string, title: string)
    requires pre == "[default prefix] " && t == "Heading 1" && post == " [default postfix]"
    requires title == "[default prefix] Heading 1 [default postfix]"
    ensures pre + t + post == title
  {
  }

  lemma ObjTitle(pre: string, t: string, post: string, title: string)
    requires pre == "[default prefix] " && t == "Object Heading" && post == " [default postfix]"
    requires title == "[default prefix] Object Heading [default postfix]"
    ensures pre + t + post == title
  {
  }
}

/** The element transpilers the transpiler's tests register
    (`test/transpiler/elements.ts`): a block heading written as `# Title`
    or as an `@heading` object block, an inline dash ` -- `, and inline
    bold text `**…**`.

    The regular expressions are hand-written scanners, each with a
    reference definition of what the expression matches and a lemma
    tying the two together. All three elements share one parse data type. */
module Elements {
  import opened Wrappers
  import opened MetaValues
  import Chars
  import HeadingLiterals
  import Strs = Str
  import Ranges
  import MetaParse
  import S = Strategies

  /** The parse data of the three elements: a heading's level, title and
      whether it came from an object block; nothing for a dash; the text
      inside a bold. */
  datatype ElementData =
    | HeadingData(level: int, title: string, obj: bool)
    | DashData
    | BoldData(text: string)

  /** A transpiler's `provide`: the heading's optional title prefix and
      postfix. */
  datatype Provide = Provide(prefix: Option<string>, postfix: Option<string>)

  /** `headingTranspiler`'s provide. */
  const DefaultProvide: Provide := Provide(Some("[default prefix] "), Some(" [default postfix]"))

  /** `smileHeadingTranspiler`'s provide. */
  const SmileProvide: Provide := Provide(Some(":) "), Some(" :("))

  /** The destructuring defaults `prefix = ''` and `postfix = ''`. */
  function PrefixOf(p: Provide): string {
    if p.prefix.Some? then p.prefix.value else ""
  }

  function PostfixOf(p: Provide): string {
    if p.postfix.Some? then p.postfix.value else ""
  }

  // ---------------------------------------------------------------------
  // Heading: `/^(#+) (.+)$/m`.

  /** The reference reading of the expression on one line: `n` hashes, a
      space and at least one more character. A match never crosses a line
      terminator, so it is a whole line of this shape. */
  predicate HeadingAt(line: string, n: nat) {
    1 <= n && n + 1 < |line| && (forall j :: 0 <= j < n ==> line[j] == '#') && line[n] == ' '
  }

  /** The two capture groups: the hashes and the rest of the line. */
  datatype HeadingMatch = HeadingMatch(hashes: string, rest: string)

  /** Number of leading `#` characters. */
  function HashRun(s: string): (n: nat)
    ensures n <= |s|
    ensures forall j :: 0 <= j < n ==> s[j] == '#'
    ensures n == |s| || s[n] != '#'
  {
    if |s| > 0 && s[0] == '#' then 1 + HashRun(s[1..]) else 0
  }

  /** The run of hashes before the space is the whole leading run: `#+`
      cannot stop early because the space that must follow is not `#`. */
  lemma {:induction false} HeadingAtRun(line: string, n: nat)
    requires HeadingAt(line, n)
    ensures n == HashRun(line)
  {
    var h := HashRun(line);
    assert h <= n by {
      assert line[n] != '#';
    }
  }

  /** The expression on one line. */
  function MatchHeadingLine(line: string): (r: Option<HeadingMatch>)
    ensures r.Some? <==> exists n :: HeadingAt(line, n)
    ensures r.Some? ==> HeadingAt(line, |r.value.hashes|) && line == r.value.hashes + " " + r.value.rest
  {
    var n := HashRun(line);
    if n >= 1 && n + 1 < |line| && line[n] == ' ' then
      assert HeadingAt(line, n);
      assert line == line[..n] + " " + line[n + 1..];
      Some(HeadingMatch(line[..n], line[n + 1..]))
    else
      assert forall m :: HeadingAt(line, m) ==> m == n by {
        forall m | HeadingAt(line, m) ensures m == n {
          HeadingAtRun(line, m);
        }
      }
      None
  }

  predicate IsHeadingLine(line: string) {
    MatchHeadingLine(line).Some?
  }

  /** Some line has heading shape. */
  ghost predicate SomeHeadingLine(lines: seq<string>) {
    exists k, n :: 0 <= k < |lines| && HeadingAt(lines[k], n)
  }

  /** `strBlock.match(/^(#+) (.+)$/m)`: the first line of heading shape. */
  function MatchHeading(text: string): (r: Option<HeadingMatch>)
    ensures r.Some? <==> SomeHeadingLine(Strs.Lines(text))
    ensures var lines := Strs.Lines(text);
            r.Some? ==> exists k :: 0 <= k < |lines| && lines[k] == r.value.hashes + " " + r.value.rest
                          && HeadingAt(lines[k], |r.value.hashes|)
                          && forall j, n :: 0 <= j < k ==> !HeadingAt(lines[j], n)
  {
    var lines := Strs.Lines(text);
    match S.FirstLineWhere(lines, IsHeadingLine)
    case None =>
      assert forall k, n :: 0 <= k < |lines| ==> !HeadingAt(lines[k], n) by {
        forall k, n | 0 <= k < |lines| ensures !HeadingAt(lines[k], n) {
          assert !IsHeadingLine(lines[k]);
        }
      }
      None
    case Some(k) =>
      assert IsHeadingLine(lines[k]);
      assert forall j, n :: 0 <= j < k ==> !HeadingAt(lines[j], n) by {
        forall j, n | 0 <= j < k ensures !HeadingAt(lines[j], n) {
          assert !IsHeadingLine(lines[j]);
        }
      }
      var m := MatchHeadingLine(lines[k]);
      assert m.Some? && lines[k] == m.value.hashes + " " + m.value.rest && HeadingAt(lines[k], |m.value.hashes|);
      var h := |m.value.hashes|;
      assert 0 <= k < |lines| && HeadingAt(lines[k], h);
      assert SomeHeadingLine(lines);
      m
  }

  /** `HeadingParser.canParse`. */
  predicate HeadingCanParse(text: string) {
    MatchHeading(text).Some?
  }

  const HeadingThrowMessage: string := "Heading wanted to throw!"

  /** What is left for `createParseData` when `canParse` has not matched
      the text it is handed. */
  const HeadingUnscannedMessage: string := "Heading level and title were never scanned"

  /** `meta.throw` is truthy. */
  predicate WantsThrow(meta: Meta) {
    var v := Get(meta, "throw");
    v.Some? && Truthy(v.value)
  }

  /** `HeadingParser.createParseData`: throws when the meta asks it to;
      otherwise the level is the number of hashes and the title is the
      trimmed rest of the line between the provided prefix and postfix. */
  function HeadingCreateParseData(provide: Provide, meta: Meta, text: string): (r: Result<ElementData>)
  {
    if WantsThrow(meta) then Failure(HeadingThrowMessage)
    else
      match MatchHeading(text)
      case None => Failure(HeadingUnscannedMessage)
      case Some(m) => Success(HeadingData(|m.hashes|, PrefixOf(provide) + Chars.Trim(m.rest) + PostfixOf(provide), false))
  }

  /** `HeadingParser.alterAutoId`: the scanned title, without prefix and
      postfix, after `custom-heading:`. */
  function HeadingAutoId(id: string, text: string, data: ElementData, strNode: string): string {
    match MatchHeading(text)
    case None => "custom-heading:undefined"
    case Some(m) => "custom-heading:" + Chars.Trim(m.rest)
  }

  function HeadingStrategy(provide: Provide): S.BlockStrategy<ElementData> {
    S.BlockStrategy(
      HeadingCanParse,
      (meta: Meta, text: string) => HeadingCreateParseData(provide, meta, text),
      HeadingAutoId)
  }

  // ObjHeadingParser.

  const InvalidHeadingMessage: string := "Invalid heading object!"

  const TitleTrimMessage: string := "obj.title.trim is not a function"

  const LevelNotIntegerMessage: string := "Heading level is not an integer"

  /** `+obj.level` for the values whose number is an integer: numbers,
      booleans and strings of decimal digits. */
  function LevelNumber(v: Value): Option<int> {
    match v
    case Num(n) => Some(n)
    case Bool(b) => Some(if b then 1 else 0)
    case Str(s) =>
      if |s| > 0 && forall k :: 0 <= k < |s| ==> Strs.IsDecDigit(s[k]) then Some(Strs.DigitsValue(s, 10) as int) else None
    case _ => None
  }

  /** `ObjHeadingParser.parseDataFromObj` on a plain object: `level` and
      `title` must both be truthy, the title must be a string, and it is
      trimmed and wrapped in the provided prefix and postfix. */
  function ObjHeadingData(provide: Provide, obj: Meta): (r: Result<ElementData>)
  {
    var level := Get(obj, "level");
    var title := Get(obj, "title");
    if !(level.Some? && Truthy(level.value)) || !(title.Some? && Truthy(title.value)) then Failure(InvalidHeadingMessage)
    else if !title.value.Str? then Failure(TitleTrimMessage)
    else
      match LevelNumber(level.value)
      case None => Failure(LevelNotIntegerMessage)
      case Some(n) => Success(HeadingData(n, PrefixOf(provide) + Chars.Trim(title.value.s) + PostfixOf(provide), true))
  }

  /** What the object block strategy hands `parseDataFromObj`. In the
      default 'object' mode only plain objects get here; any other
      content has no truthy `level`. */
  function ObjHeadingFromObj(provide: Provide, meta: Meta, content: S.ObjContent, strBlock: string): Result<ElementData> {
    match content
    case PlainObject(obj) => ObjHeadingData(provide, obj)
    case _ => Failure(InvalidHeadingMessage)
  }

  function ObjHeadingFrom(provide: Provide): (Meta, S.ObjContent, string) -> Result<ElementData> {
    (meta: Meta, content: S.ObjContent, strBlock: string) => ObjHeadingFromObj(provide, meta, content, strBlock)
  }

  function ObjHeadingStrategy(provide: Provide, parseYaml: string -> MetaParse.YamlParse): S.BlockStrategy<ElementData> {
    S.ObjBlockStrategy("heading", S.ObjectMode, parseYaml, ObjHeadingFrom(provide), S.KeepId)
  }

  /** `defineElementTranspiler` for the heading: the line form is tried
      before the object form. */
  function HeadingTranspiler(name: string, provide: Provide, parseYaml: string -> MetaParse.YamlParse): S.ParserTranspiler<ElementData> {
    S.ParserTranspiler(name, [S.BlockFactory(HeadingStrategy(provide)), S.BlockFactory(ObjHeadingStrategy(provide, parseYaml))])
  }

  // HeadingStringifier.

  /** `objToText(name, obj)`, the same formatter as `toStrObjectBlock`:
      `@name`, then the YAML of the object indented by four spaces. */
  function ObjToText(objName: string, obj: Meta, dumpYaml: Meta -> string): string {
    "@" + objName + "\n" + Strs.Indent(dumpYaml(obj), 4)
  }

  function InvalidCountMessage(n: int): string {
    "Invalid count value: " + Chars.IntToString(n)
  }

  const UndefinedObjMessage: string := "Cannot read properties of undefined (reading 'obj')"

  /** `HeadingStringifier.stringifyElement`: an object heading goes back
      to an object block holding its level and title; any other heading
      is `level` hashes, a space and the title. A negative level is a
      `repeat` range error. Parse data of another shape is read the way
      JavaScript reads it: a string has no `obj`, `level` or `title`, and
      `undefined` has no properties at all. */
  function HeadingStringify(dumpYaml: Meta -> string, meta: Meta, data: ElementData): Result<string> {
    match data
    case HeadingData(level, title, obj) =>
      if obj then Success(ObjToText("heading", HeadingObject(level, title), dumpYaml))
      else if level < 0 then Failure(InvalidCountMessage(level))
      else Success(HeadingLine(level, title))
    case DashData => Failure(UndefinedObjMessage)
    case BoldData(_) => Success(" undefined")
  }

  /** The line form of a heading. */
  function HeadingLine(level: nat, title: string): string {
    Chars.Repeat('#', level) + " " + title
  }

  /** The raw object an object heading is written back as: `parseData`
      without `obj`, in the order its keys were created. */
  function HeadingObject(level: int, title: string): Meta {
    [("level", Num(level)), ("title", Str(title))]
  }

  // Heading properties.

  /** `createParseData` fails exactly when the meta asks it to or `canParse`
      has not matched; otherwise the heading comes from the first line of
      heading shape: its level is that line's run of hashes and its title
      the trimmed rest of the line inside the prefix and postfix. */
  lemma {:induction false} HeadingCreateSpec(provide: Provide, meta: Meta, text: string)
    ensures WantsThrow(meta) ==> HeadingCreateParseData(provide, meta, text) == Failure(HeadingThrowMessage)
    ensures HeadingCreateParseData(provide, meta, text).Success? <==> !WantsThrow(meta) && HeadingCanParse(text)
  {
  }

  /** A successful `createParseData` takes the heading from the first line
      of heading shape: its level is that line's run of hashes and its
      title the trimmed rest of the line inside the prefix and postfix. */
  lemma {:induction false} HeadingCreateFrom(provide: Provide, meta: Meta, text: string)
    requires HeadingCreateParseData(provide, meta, text).Success?
    ensures var d := HeadingCreateParseData(provide, meta, text).value;
            && d.HeadingData? && !d.obj && d.level >= 1
            && exists k :: FirstHeadingLine(Strs.Lines(text), k, d.level)
                           && d.title == PrefixOf(provide) + Chars.Trim(Strs.Lines(text)[k][d.level + 1..]) + PostfixOf(provide)
  {
    var m := MatchHeading(text).value;
    var lines := Strs.Lines(text);
    var k :| 0 <= k < |lines| && lines[k] == m.hashes + " " + m.rest
             && HeadingAt(lines[k], |m.hashes|)
             && forall j, n :: 0 <= j < k ==> !HeadingAt(lines[j], n);
    assert FirstHeadingLine(lines, k, |m.hashes|);
    assert lines[k][|m.hashes| + 1..] == m.rest;
  }

  /** Line `k` is of heading shape with `n` hashes, and no line before it
      is. */
  ghost predicate FirstHeadingLine(lines: seq<string>, k: int, n: nat) {
    && 0 <= k < |lines| && HeadingAt(lines[k], n)
    && forall j, h :: 0 <= j < k ==> !HeadingAt(lines[j], h)
  }

  /** The auto id of a heading parsed from the line form is its title
      without the provided prefix and postfix. */
  lemma {:induction false} HeadingAutoIdSpec(provide: Provide, meta: Meta, text: string, id: string, strNode: string)
    requires HeadingCreateParseData(provide, meta, text).Success?
    ensures var d := HeadingCreateParseData(provide, meta, text).value;
            && |PrefixOf(provide)| + |PostfixOf(provide)| <= |d.title|
            && HeadingAutoId(id, text, d, strNode)
               == "custom-heading:" + d.title[|PrefixOf(provide)|..|d.title| - |PostfixOf(provide)|]
  {
    var m := MatchHeading(text).value;
    var t := Chars.Trim(m.rest);
    var d := HeadingCreateParseData(provide, meta, text).value;
    assert d.title == PrefixOf(provide) + t + PostfixOf(provide);
    assert d.title[|PrefixOf(provide)|..|d.title| - |PostfixOf(provide)|] == t;
  }

  /** A title the line form writes so that it reads back: not empty, no
      whitespace at either end and no line terminator. */
  predicate TitleText(t: string) {
    && |t| > 0 && !Chars.IsWhitespace(t[0]) && !Chars.IsWhitespace(t[|t| - 1])
    && forall j :: 0 <= j < |t| ==> !Chars.IsLineTerminator(t[j])
  }

  /** The line form of a heading is its own one line, of heading shape,
      with the level's hashes and the title as its captures. */
  lemma {:induction false} HeadingLineMatches(level: nat, title: string)
    requires level >= 1 && TitleText(title)
    ensures MatchHeading(HeadingLine(level, title)) == Some(HeadingMatch(Chars.Repeat('#', level), title))
  {
    var line := HeadingLine(level, title);
    forall j | 0 <= j < |line| ensures !Chars.IsLineTerminator(line[j]) {
      if j > level {
        assert line[j] == title[j - level - 1];
      }
    }
    Strs.NoTerminatorLines(line);
    assert HeadingAt(line, level);
    HeadingAtRun(line, level);
    assert line[..level] == Chars.Repeat('#', level);
    assert line[level + 1..] == title;
    assert MatchHeadingLine(line) == Some(HeadingMatch(Chars.Repeat('#', level), title));
  }

  /** A heading without prefix or postfix read from its line form comes
      back unchanged, and written again gives the same line; with a prefix
      and a postfix the title gains them. */
  lemma {:induction false} HeadingRoundTrip(provide: Provide, meta: Meta, dumpYaml: Meta -> string, level: nat, title: string)
    requires level >= 1 && TitleText(title) && !WantsThrow(meta)
    ensures HeadingCanParse(HeadingLine(level, title))
    ensures HeadingCreateParseData(provide, meta, HeadingLine(level, title))
            == Success(HeadingData(level, PrefixOf(provide) + title + PostfixOf(provide), false))
    ensures provide == Provide(None, None) ==>
              HeadingStringify(dumpYaml, meta, HeadingData(level, title, false)) == Success(HeadingLine(level, title))
  {
    HeadingLineMatches(level, title);
    Chars.TrimPad("", title, "");
    assert "" + title + "" == title;
  }

  /** An object heading is written as an object block the object
      heading parser claims, and when the YAML of that block reads back as
      the object written, parsing it gives back the heading (with the
      provided prefix and postfix around the title, and the title
      trimmed). */
  lemma {:induction false} ObjHeadingRoundTrip(provide: Provide, parseYaml: string -> MetaParse.YamlParse,
                                               dumpYaml: Meta -> string, meta: Meta, level: int, title: string)
    requires level != 0 && title != ""
    requires parseYaml(Strs.Indent(dumpYaml(HeadingObject(level, title)), 4)) == MetaParse.YamlPlainObject(HeadingObject(level, title))
    ensures HeadingStringify(dumpYaml, meta, HeadingData(level, title, true)).Success?
    ensures var text := HeadingStringify(dumpYaml, meta, HeadingData(level, title, true)).value;
            && ObjHeadingStrategy(provide, parseYaml).canParse(text)
            && ObjHeadingStrategy(provide, parseYaml).createParseData(meta, text)
               == Success(HeadingData(level, PrefixOf(provide) + Chars.Trim(title) + PostfixOf(provide), true))
  {
    var obj := HeadingObject(level, title);
    var content := Strs.Indent(dumpYaml(obj), 4);
    assert ObjToText("heading", obj, dumpYaml) == "@heading" + "\n" + content;
    ObjHeadingBlockParses(provide, parseYaml, meta, content, obj);
    ObjHeadingDataOf(provide, level, title);
  }

  /** A block of `@heading` and content YAML reads as a plain object is
      claimed by the object heading parser and handed that object. */
  lemma {:induction false} ObjHeadingBlockParses(provide: Provide, parseYaml: string -> MetaParse.YamlParse,
                                                 meta: Meta, content: string, obj: Meta)
    requires parseYaml(content) == MetaParse.YamlPlainObject(obj)
    ensures ObjHeadingStrategy(provide, parseYaml).canParse("@heading" + "\n" + content)
    ensures ObjHeadingStrategy(provide, parseYaml).createParseData(meta, "@heading" + "\n" + content)
            == ObjHeadingData(provide, obj)
  {
    var text := "@heading" + "\n" + content;
    assert ObjHeadingStrategy(provide, parseYaml).canParse(text) by {
      ObjHeadingLine(content);
    }
    assert S.ObjCreateParseData("heading", S.ObjectMode, parseYaml, ObjHeadingFrom(provide), meta, text)
           == ObjHeadingFrom(provide)(meta, S.PlainObject(obj), text) by {
      S.ObjContentAfterFirstLine("heading", S.ObjectMode, parseYaml, ObjHeadingFrom(provide), meta, "@heading", content, text);
    }
  }

  /** The object an object heading is written as reads back as that
      heading. */
  lemma {:induction false} ObjHeadingDataOf(provide: Provide, level: int, title: string)
    requires level != 0 && title != ""
    ensures ObjHeadingData(provide, HeadingObject(level, title))
            == Success(HeadingData(level, PrefixOf(provide) + Chars.Trim(title) + PostfixOf(provide), true))
  {
    var obj := HeadingObject(level, title);
    GetCons(("level", Num(level)), [("title", Str(title))], "title");
    GetCons(("title", Str(title)), [], "title");
    GetCons(("level", Num(level)), [("title", Str(title))], "level");
  }

  /** The first line of an object heading block names the heading. */
  lemma {:induction false} ObjHeadingLine(content: string)
    ensures S.ObjName("@heading" + "\n" + content) == Some("heading")
  {
    var head := "@heading";
    assert head + "\n" + content == head + ['\n'] + content;
    Strs.LinesCons(head, '\n', content);
    assert S.ObjLine(head);
    assert head[1..] == "heading";
  }

  // The headings of the parse test for custom elements.

  /** `# Heading 1` with the default prefix and postfix. */
  lemma HeadingFixture(line: string, title: string)
    requires line == "# Heading 1" && title == "[default prefix] Heading 1 [default postfix]"
    ensures HeadingCanParse(line)
    ensures HeadingCreateParseData(DefaultProvide, [], line) == Success(HeadingData(1, title, false))
  {
    var t := "Heading 1";
    TitleFixture(t, "Heading 1");
    HeadingLineFixture(1, t, line);
    DefaultWrapFixture(t, title);
    HeadingRoundTrip(DefaultProvide, [], (m: Meta) => "", 1, t);
  }

  /** The object heading block, when its YAML reads as level 2 and title
      `Object Heading`. */
  lemma ObjHeadingFixture(parseYaml: string -> MetaParse.YamlParse, content: string, block: string, title: string)
    requires content == "    level: 2\n    title: Object Heading" && block == "@heading\n" + content
    requires title == "[default prefix] Object Heading [default postfix]"
    requires parseYaml(content) == MetaParse.YamlPlainObject(HeadingObject(2, "Object Heading"))
    ensures ObjHeadingStrategy(DefaultProvide, parseYaml).canParse(block)
    ensures ObjHeadingStrategy(DefaultProvide, parseYaml).createParseData([], block) == Success(HeadingData(2, title, true))
  {
    var t := "Object Heading";
    assert block == "@heading" + "\n" + content;
    ObjHeadingBlockParses(DefaultProvide, parseYaml, [], content, HeadingObject(2, t));
    ObjHeadingDataOf(DefaultProvide, 2, t);
    TitleFixture(t, "Object Heading");
    Chars.TrimPad("", t, "");
    assert "" + t + "" == t;
    DefaultWrapFixture(t, title);
  }

  /** A `+throw` flag makes the line heading fail, whatever its line. */
  lemma ThrowFixture(line: string)
    requires line == "### This heading should throw"
    ensures HeadingCanParse(line)
    ensures HeadingCreateParseData(DefaultProvide, [("throw", Bool(true))], line) == Failure(HeadingThrowMessage)
  {
    var t := "This heading should throw";
    TitleFixture(t, "This heading should throw");
    HeadingLineFixture(3, t, line);
    HeadingLineMatches(3, t);
    assert Get([("throw", Bool(true))], "throw") == Some(Bool(true)) by {
      GetCons(("throw", Bool(true)), [], "throw");
    }
  }

  lemma TitleFixture(t: string, s: string)
    requires t == s && (s == "Heading 1" || s == "Object Heading" || s == "This heading should throw")
    ensures TitleText(t)
  {
  }

  lemma HeadingLineFixture(level: nat, t: string, line: string)
    requires (level == 1 && t == "Heading 1" && line == "# Heading 1")
          || (level == 3 && t == "This heading should throw" && line == "### This heading should throw")
    ensures HeadingLine(level, t) == line
  {
    if level == 1 {
      assert Chars.Repeat('#', 1) == "#";
      HeadingLiterals.Heading1Line("#", t, line);
    } else {
      assert Chars.Repeat('#', 3) == "###";
      HeadingLiterals.ThrowLine("###", t, line);
    }
  }

  lemma DefaultWrapFixture(t: string, title: string)
    requires (t == "Heading 1" && title == "[default prefix] Heading 1 [default postfix]")
          || (t == "Object Heading" && title == "[default prefix] Object Heading [default postfix]")
    ensures PrefixOf(DefaultProvide) + t + PostfixOf(DefaultProvide) == title
  {
    if t == "Heading 1" {
      HeadingLiterals.Heading1Title("[default prefix] ", t, " [default postfix]", title);
    } else {
      HeadingLiterals.ObjTitle("[default prefix] ", t, " [default postfix]", title);
    }
  }

  // ---------------------------------------------------------------------
  // Dash: `/ -- /g`.

  const DashText: string := " -- "

  /** ` -- ` occurs at `i`. */
  predicate DashAt(text: string, i: nat) {
    i + 4 <= |text| && text[i] == ' ' && text[i + 1] == '-' && text[i + 2] == '-' && text[i + 3] == ' '
  }

  /** Some match starts at or before `p` and ends after it. */
  ghost predicate Covered(ms: seq<S.RegexpMatch>, p: nat) {
    exists k :: 0 <= k < |ms| && ms[k].index <= p < ms[k].index + |ms[k].text|
  }

  lemma {:induction false} CoveredCons(x: S.RegexpMatch, ms: seq<S.RegexpMatch>, p: nat)
    requires Covered(ms, p)
    ensures Covered([x] + ms, p)
  {
    var k :| 0 <= k < |ms| && ms[k].index <= p < ms[k].index + |ms[k].text|;
    assert ([x] + ms)[k + 1] == ms[k];
  }

  /** A dash match: ` -- ` where it occurs. */
  predicate DashMatchOf(text: string, m: S.RegexpMatch) {
    m.text == DashText && DashAt(text, m.index)
  }

  /** The text a dash match covers is ` -- `. */
  lemma {:induction false} DashSlice(text: string, i: nat)
    requires DashAt(text, i)
    ensures text[i..i + 4] == DashText
  {
  }

  /** `text.matchAll(/ -- /g)` from position `i`: each match is taken
      where it starts and the search goes on after it. */
  function DashFrom(text: string, i: nat): (r: seq<S.RegexpMatch>)
    requires i <= |text|
    ensures forall k :: 0 <= k < |r| ==> i <= r[k].index && DashMatchOf(text, r[k])
    ensures forall k :: 0 <= k < |r| - 1 ==> r[k].index + 4 <= r[k + 1].index
    decreases |text| - i
  {
    if |text| - i < 4 then []
    else if DashAt(text, i) then [S.RegexpMatch(i, DashText, [])] + DashFrom(text, i + 4)
    else DashFrom(text, i + 1)
  }

  /** Every occurrence of ` -- ` from `i` on lies inside a match: the
      search only passes over one when it overlaps the match before. */
  lemma {:induction false} DashFromCovers(text: string, i: nat, p: nat)
    requires i <= p && DashAt(text, p)
    ensures Covered(DashFrom(text, i), p)
    decreases |text| - i
  {
    var r := DashFrom(text, i);
    if DashAt(text, i) {
      var x := S.RegexpMatch(i, DashText, []);
      assert r == [x] + DashFrom(text, i + 4);
      if p < i + 4 {
        assert r[0] == x && |x.text| == 4;
      } else {
        DashFromCovers(text, i + 4, p);
        CoveredCons(x, DashFrom(text, i + 4), p);
      }
    } else {
      assert p != i;
      DashFromCovers(text, i + 1, p);
    }
  }

  /** `DashParser.outlineRanges`. */
  function DashOutline(text: string): seq<Ranges.Range> {
    S.MatchRanges(DashFrom(text, 0))
  }

  /** The dash ranges are the ` -- ` occurrences, four wide, left to
      right and apart, and every occurrence lies inside one of them. */
  lemma {:induction false} DashOutlineSpec(text: string)
    ensures var r := DashOutline(text);
            && (forall k :: 0 <= k < |r| ==> 0 <= r[k].start && r[k].end == r[k].start + 4 && r[k].end <= |text|
                                              && text[r[k].start..r[k].end] == DashText)
            && (forall k :: 0 <= k < |r| - 1 ==> r[k].end <= r[k + 1].start)
            && (forall p: nat :: DashAt(text, p) ==> exists k :: 0 <= k < |r| && r[k].start <= p < r[k].end)
  {
    DashOutlineShape(text);
    forall p: nat | DashAt(text, p) ensures exists k :: 0 <= k < |DashOutline(text)| && DashOutline(text)[k].start <= p < DashOutline(text)[k].end {
      DashOutlineCovers(text, p);
    }
  }

  lemma {:induction false} DashOutlineShape(text: string)
    ensures var r := DashOutline(text);
            && (forall k :: 0 <= k < |r| ==> 0 <= r[k].start && r[k].end == r[k].start + 4 && r[k].end <= |text|
                                              && text[r[k].start..r[k].end] == DashText)
            && (forall k :: 0 <= k < |r| - 1 ==> r[k].end <= r[k + 1].start)
  {
    var ms := DashFrom(text, 0);
    var r := DashOutline(text);
    forall k | 0 <= k < |r| ensures r[k].end == r[k].start + 4 <= |text| && text[r[k].start..r[k].end] == DashText {
      assert DashMatchOf(text, ms[k]);
      DashSlice(text, ms[k].index);
    }
  }

  lemma {:induction false} DashOutlineCovers(text: string, p: nat)
    requires DashAt(text, p)
    ensures var r := DashOutline(text);
            exists k :: 0 <= k < |r| && r[k].start <= p < r[k].end
  {
    var ms := DashFrom(text, 0);
    var r := DashOutline(text);
    DashFromCovers(text, 0, p);
    var k :| 0 <= k < |ms| && ms[k].index <= p < ms[k].index + |ms[k].text|;
    assert r[k].start <= p < r[k].end;
  }

  function DashStrategy(): S.InlinerStrategy<ElementData> {
    S.InlinerStrategy(DashOutline, (meta: Meta, text: string) => Success(DashData), S.KeepId)
  }

  /** `DashStringifier.stringifyElement`. */
  function DashStringify(meta: Meta, data: ElementData): Result<string> {
    Success(DashText)
  }

  /** Every dash range parses and writes back to the text it covers. */
  lemma {:induction false} DashRoundTrip(text: string, meta: Meta, k: nat)
    requires k < |DashOutline(text)|
    ensures var r := DashOutline(text)[k];
            && 0 <= r.start <= r.end <= |text|
            && var parsed := DashStrategy().createParseData(meta, text[r.start..r.end]);
               && parsed.Success?
               && DashStringify(meta, parsed.value) == Success(text[r.start..r.end])
  {
    DashOutlineSpec(text);
  }

  // ---------------------------------------------------------------------
  // Bold: `/\*\*(.+?)\*\*/g`, two stars, at least one character
  // lazily, two stars.

  /** `**` occurs at `i`. */
  predicate StarsAt(text: string, i: nat) {
    i + 2 <= |text| && text[i] == '*' && text[i + 1] == '*'
  }

  predicate NoTerminator(text: string, a: nat, b: nat)
    requires a <= b <= |text|
  {
    forall k :: a <= k < b ==> !Chars.IsLineTerminator(text[k])
  }

  /** The reference reading of the expression: it matches from `i` to the
      closing stars at `j` when both pairs of stars are there and the text
      between them is at least one character with no line terminator;
      the lazy `+?` takes the first such `j`. */
  predicate BoldSpan(text: string, i: nat, j: nat) {
    StarsAt(text, i) && i + 3 <= j && StarsAt(text, j) && NoTerminator(text, i + 2, j)
  }

  predicate LazyBold(text: string, i: nat, j: nat) {
    BoldSpan(text, i, j) && forall q :: i + 3 <= q < j ==> !StarsAt(text, q)
  }

  /** The search for the closing stars, the content so far being
      `text[c..j]`. */
  function CloseFrom(text: string, c: nat, j: nat): (r: Option<nat>)
    requires c < j <= |text| && NoTerminator(text, c, j)
    decreases |text| - j
  {
    if j + 2 > |text| then None
    else if StarsAt(text, j) then Some(j)
    else if Chars.IsLineTerminator(text[j]) then None
    else CloseFrom(text, c, j + 1)
  }

  lemma {:induction false} CloseFromSpec(text: string, i: nat, j: nat)
    requires StarsAt(text, i) && i + 3 <= j <= |text| && NoTerminator(text, i + 2, j)
    requires forall q :: i + 3 <= q < j ==> !StarsAt(text, q)
    ensures var r := CloseFrom(text, i + 2, j);
            && (r.Some? ==> LazyBold(text, i, r.value))
            && (r.None? ==> forall e :: j <= e ==> !BoldSpan(text, i, e))
    decreases |text| - j
  {
    if j + 2 > |text| {
    } else if StarsAt(text, j) {
    } else if Chars.IsLineTerminator(text[j]) {
    } else {
      CloseFromSpec(text, i, j + 1);
    }
  }

  /** The expression tried at `i`: the position of the closing stars. */
  function BoldAt(text: string, i: nat): (r: Option<nat>)
  {
    if StarsAt(text, i) && i + 3 <= |text| && !Chars.IsLineTerminator(text[i + 2]) then CloseFrom(text, i + 2, i + 3)
    else None
  }

  /** The expression matches at `i` exactly when some closing stars make
      a match, and then it closes at the first of them. */
  lemma {:induction false} BoldAtSpec(text: string, i: nat)
    ensures BoldAt(text, i).Some? <==> exists j :: BoldSpan(text, i, j)
    ensures BoldAt(text, i).Some? ==> LazyBold(text, i, BoldAt(text, i).value)
  {
    if StarsAt(text, i) && i + 3 <= |text| && !Chars.IsLineTerminator(text[i + 2]) {
      CloseFromSpec(text, i, i + 3);
    } else {
      forall e: nat ensures !BoldSpan(text, i, e) {
        BoldSpanOpens(text, i, e);
      }
    }
  }

  /** A match starts with two stars and a character that is not a line
      terminator. */
  lemma {:induction false} BoldSpanOpens(text: string, i: nat, e: nat)
    ensures BoldSpan(text, i, e) ==> i + 3 <= |text| && !Chars.IsLineTerminator(text[i + 2])
  {
    if BoldSpan(text, i, e) {
      assert i + 2 < e;
    }
  }

  /** The lazy match is the only one: two first closings are the same. */
  lemma {:induction false} LazyBoldUnique(text: string, i: nat, j: nat, e: nat)
    requires LazyBold(text, i, j) && LazyBold(text, i, e)
    ensures j == e
  {
  }

  /** A bold match: the text of a lazy match, with the text between the
      stars as its one capture. */
  predicate BoldMatchOf(text: string, m: S.RegexpMatch) {
    && |m.groups| == 1
    && |m.text| >= 5
    && m.index + |m.text| <= |text|
    && LazyBold(text, m.index, m.index + |m.text| - 2)
    && m.text == text[m.index..m.index + |m.text|]
    && m.groups[0] == text[m.index + 2..m.index + |m.text| - 2]
  }

  /** A bold match is its capture between two pairs of stars. */
  lemma {:induction false} BoldMatchText(text: string, m: S.RegexpMatch)
    requires BoldMatchOf(text, m)
    ensures m.text == "**" + m.groups[0] + "**"
  {
    var i := m.index;
    var j := i + |m.text| - 2;
    assert text[i..j + 2] == text[i..i + 2] + text[i + 2..j] + text[j..j + 2];
  }

  /** The match the bold expression makes at `i`, closing at `j`. */
  lemma {:induction false} BoldMatchAt(text: string, i: nat, j: nat)
    requires LazyBold(text, i, j)
    ensures BoldMatchOf(text, S.RegexpMatch(i, text[i..j + 2], [text[i + 2..j]]))
  {
  }

  // `text.matchAll` of the bold expression from position `i`.
  function BoldFrom(text: string, i: nat): (r: seq<S.RegexpMatch>)
    requires i <= |text|
    decreases |text| - i
  {
    if i == |text| then []
    else
      match BoldAt(text, i)
      case None => BoldFrom(text, i + 1)
      case Some(j) =>
        BoldAtSpec(text, i);
        [S.RegexpMatch(i, text[i..j + 2], [text[i + 2..j]])] + BoldFrom(text, j + 2)
  }

  /** Each match from `i` on is a lazy match at or after `i`. */
  lemma {:induction false} BoldFromAt(text: string, i: nat, k: nat)
    requires i <= |text| && k < |BoldFrom(text, i)|
    ensures i <= BoldFrom(text, i)[k].index && BoldMatchOf(text, BoldFrom(text, i)[k])
    decreases |text| - i
  {
    match BoldAt(text, i)
    case None =>
      BoldFromAt(text, i + 1, k);
    case Some(j) =>
      BoldAtSpec(text, i);
      if k == 0 {
        BoldMatchAt(text, i, j);
      } else {
        BoldFromAt(text, j + 2, k - 1);
      }
  }

  /** The matches come left to right, each after the one before. */
  lemma {:induction false} BoldFromOrdered(text: string, i: nat, k: nat)
    requires i <= |text| && k + 1 < |BoldFrom(text, i)|
    ensures BoldFrom(text, i)[k].index + |BoldFrom(text, i)[k].text| <= BoldFrom(text, i)[k + 1].index
    decreases |text| - i
  {
    match BoldAt(text, i)
    case None =>
      BoldFromOrdered(text, i + 1, k);
    case Some(j) =>
      BoldAtSpec(text, i);
      if k == 0 {
        BoldFromAt(text, j + 2, 0);
      } else {
        BoldFromOrdered(text, j + 2, k - 1);
      }
  }

  /** Every place the expression could match from `i` on lies inside a
      match: the search only passes over one inside the match before. */
  lemma {:induction false} BoldFromCovers(text: string, i: nat, p: nat)
    requires i <= p <= |text| && BoldAt(text, p).Some?
    ensures Covered(BoldFrom(text, i), p)
    decreases |text| - i
  {
    var r := BoldFrom(text, i);
    match BoldAt(text, i)
    case None =>
      assert p != i;
      BoldFromCovers(text, i + 1, p);
    case Some(j) =>
      BoldAtSpec(text, i);
      var m := S.RegexpMatch(i, text[i..j + 2], [text[i + 2..j]]);
      assert r == [m] + BoldFrom(text, j + 2);
      if p < j + 2 {
        assert r[0] == m && |m.text| == j + 2 - i;
      } else {
        BoldFromCovers(text, j + 2, p);
        CoveredCons(m, BoldFrom(text, j + 2), p);
      }
  }

  /** `outlineRanges` of the bold parser, as `RegexpInlinerParseFactory`
      computes it. */
  function BoldOutline(text: string): seq<Ranges.Range> {
    S.MatchRanges(BoldFrom(text, 0))
  }

  /** `BoldParser.parseDataFromRegexp`: the capture group; `exec`
      returning `null` makes reading it throw. */
  function BoldFromMatch(meta: Meta, m: Option<S.RegexpMatch>): Result<ElementData> {
    match m
    case None => Failure(NullMatchMessage)
    case Some(x) => if |x.groups| > 0 then Success(BoldData(x.groups[0])) else Failure(NullMatchMessage)
  }

  const NullMatchMessage: string := "Cannot read properties of null (reading '1')"

  function BoldStrategy(): S.InlinerStrategy<ElementData> {
    S.RegexpStrategy((text: string) => BoldFrom(text, 0), BoldFromMatch, S.KeepId)
  }

  /** `BoldStringifier.stringifyElement`: the parse data between two
      pairs of stars, `String()` of it when it is not a string. */
  function BoldStringify(meta: Meta, data: ElementData): Result<string> {
    match data
    case BoldData(t) => Success("**" + t + "**")
    case HeadingData(_, _, _) => Success("**[object Object]**")
    case DashData => Success("**undefined**")
  }

  /** A lazy match seen on its own text is still a lazy match from 0. */
  lemma {:induction false} LazyBoldSlice(text: string, i: nat, j: nat)
    requires LazyBold(text, i, j)
    ensures LazyBold(text[i..j + 2], 0, j - i)
  {
    var s := text[i..j + 2];
    assert forall q :: 0 <= q < |s| ==> s[q] == text[i + q];
    forall q | 3 <= q < j - i ensures !StarsAt(s, q) {
      assert !StarsAt(text, i + q);
    }
  }

  /** The bold ranges are the lazy matches, left to right and apart, and
      every place the expression matches lies inside one of them. */
  lemma {:induction false} BoldOutlineSpec(text: string)
    ensures var r := BoldOutline(text);
            && (forall k :: 0 <= k < |r| ==> 0 <= r[k].start && r[k].start + 5 <= r[k].end && LazyBold(text, r[k].start, r[k].end - 2))
            && (forall k :: 0 <= k < |r| - 1 ==> r[k].end <= r[k + 1].start)
            && (forall p: nat, j: nat :: BoldSpan(text, p, j) ==> exists k :: 0 <= k < |r| && r[k].start <= p < r[k].end)
  {
    var r := BoldOutline(text);
    forall k | 0 <= k < |r| ensures 0 <= r[k].start && r[k].start + 5 <= r[k].end && LazyBold(text, r[k].start, r[k].end - 2) {
      BoldRangeOf(text, k);
    }
    forall k | 0 <= k < |r| - 1 ensures r[k].end <= r[k + 1].start {
      BoldFromOrdered(text, 0, k);
    }
    forall p: nat, j: nat | BoldSpan(text, p, j) ensures exists k :: 0 <= k < |r| && r[k].start <= p < r[k].end {
      BoldOutlineCovers(text, p, j);
    }
  }

  lemma {:induction false} BoldRangeOf(text: string, k: nat)
    requires k < |BoldOutline(text)|
    ensures BoldOutline(text)[k].start + 5 <= BoldOutline(text)[k].end
    ensures BoldOutline(text)[k] == Ranges.Range(BoldFrom(text, 0)[k].index, BoldFrom(text, 0)[k].index + |BoldFrom(text, 0)[k].text|)
    ensures BoldMatchOf(text, BoldFrom(text, 0)[k])
    ensures LazyBold(text, BoldOutline(text)[k].start, BoldOutline(text)[k].end - 2)
  {
    BoldFromAt(text, 0, k);
  }

  lemma {:induction false} BoldOutlineCovers(text: string, p: nat, j: nat)
    requires BoldSpan(text, p, j)
    ensures exists k :: 0 <= k < |BoldOutline(text)| && BoldOutline(text)[k].start <= p < BoldOutline(text)[k].end
  {
    var ms := BoldFrom(text, 0);
    var r := BoldOutline(text);
    BoldAtSpec(text, p);
    BoldFromCovers(text, 0, p);
    var k :| 0 <= k < |ms| && ms[k].index <= p < ms[k].index + |ms[k].text|;
    assert r[k].start <= p < r[k].end;
  }

  /** A lazy match, seen on its own, is the first match of its text,
      with the same capture. */
  lemma {:induction false} BoldReparse(text: string, i: nat, j: nat)
    requires LazyBold(text, i, j)
    ensures |BoldFrom(text[i..j + 2], 0)| > 0
    ensures BoldFrom(text[i..j + 2], 0)[0] == S.RegexpMatch(0, text[i..j + 2], [text[i + 2..j]])
  {
    var s := text[i..j + 2];
    LazyBoldSlice(text, i, j);
    BoldAtSpec(s, 0);
    var first := BoldAt(s, 0);
    LazyBoldUnique(s, 0, first.value, j - i);
    assert s[0..j - i + 2] == s;
    assert s[2..j - i] == text[i + 2..j] by {
      assert forall q :: 2 <= q < j - i ==> s[q] == text[i + q];
    }
  }

  /** Each bold range parses, from its own text, to the text between the
      stars, and writes back to the text it covers. */
  lemma {:induction false} BoldRoundTrip(text: string, meta: Meta, k: nat)
    requires k < |BoldOutline(text)|
    ensures 0 <= BoldOutline(text)[k].start && BoldOutline(text)[k].start + 5 <= BoldOutline(text)[k].end <= |text|
    ensures BoldStrategy().createParseData(meta, text[BoldOutline(text)[k].start..BoldOutline(text)[k].end])
            == Success(BoldData(text[BoldOutline(text)[k].start + 2..BoldOutline(text)[k].end - 2]))
    ensures BoldStringify(meta, BoldData(text[BoldOutline(text)[k].start + 2..BoldOutline(text)[k].end - 2]))
            == Success(text[BoldOutline(text)[k].start..BoldOutline(text)[k].end])
  {
    BoldRangeOf(text, k);
    var m := BoldFrom(text, 0)[k];
    BoldMatchText(text, m);
    var i := m.index;
    var j := i + |m.text| - 2;
    BoldReparse(text, i, j);
    BoldParsesOwnText(meta, text[i..j + 2], text[i + 2..j]);
  }

  /** The parse data of a range whose first match is all of it, with
      capture `c`, is `c`. */
  lemma {:induction false} BoldParsesOwnText(meta: Meta, s: string, c: string)
    requires |BoldFrom(s, 0)| > 0 && BoldFrom(s, 0)[0] == S.RegexpMatch(0, s, [c])
    ensures BoldStrategy().createParseData(meta, s) == Success(BoldData(c))
  {
    assert S.RegexpCreateParseData((t: string) => BoldFrom(t, 0), BoldFromMatch, meta, s) == Success(BoldData(c));
  }
}
