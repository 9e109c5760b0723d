# bitran transpiler and DOM core in Dafny

This project models the engine that turns bitran markup into a node tree
and writes that tree back to text, together with the tree utilities it
relies on.

The transpiler side covers:

- **Text utilities.** Line-ending normalisation, splitting text into blocks
  at blank lines, first-line splitting, indent, dedent and the `parseInt`
  rule of `tryParseInt`.
- **Meta mini-language.** The `{ #id .class +flag -flag key=value }` line
  form: its tokenizer, how the tokens apply, the prefix rule that detaches
  meta from a block, and the line form of `stringifyMeta`.
- **Auto ids.** The 32-bit string hash, the id registry, and the
  `finalize` rule that appends dashes until the id is fresh.
- **Parser.** It splits text into blocks and gives each block to the first
  block strategy that claims it, falling back to a paragraph. It resolves
  the ranges the inline strategies outline (the range merge) and emits
  inliners, text gaps and trailing inline meta.
- **Stringifier.** It dispatches on node kind, with built-in paragraph and
  text writers, and logs every step.
- **The heading, dash and bold strategies** used by the transpiler's own
  tests, hand-coded as scanners.

The core DOM side covers:

- the child-list and parent operations of a group node;
- the `walk*` traversals;
- the `traceNodeUp` and `traceNodeDown` formatters;
- the cache decision of `createRenderData`.

Everything is pure functions over immutable datatypes. Ranges are values, and
meta is an ordered association list (JavaScript key order) with a map view.
Nodes form a tree datatype, and the parse and stringify step callbacks
become a step log carried in the result. The auto-id registry is a set
threaded through the parse. A DOM forest is a parent map plus a map from
each group to its child list.

These stay unknowns, passed in as function parameters:

- YAML parsing and dumping;
- `isPlainObject`;
- the matcher behind a regexp inliner strategy;
- the `createValue` callback of render data;
- class names.

`range.ts` is not part of this model. Its `getIntersection` is defined so
that it agrees with every case of the range tests:

- Intervals are closed, so ranges that only touch are `Partial`.
- `Inside` is checked before `Contain`. Two equal ranges are therefore
  `Inside`, and a later strategy with the same range as an accepted one is
  dropped.

Where the code and its own tests disagree, "## Findings" gives the code
as written in a member of its own, with the input that shows the
discrepancy. The rest of the model uses the corrected definition:

- the parser resolves inline ranges with the corrected merge;
- element meta is written by the corrected `stringifyMeta`;
- `moveBefore` and `moveAfter` are the corrected moves.

"## Left out" names the members whose statements hold only of the
corrected definitions. The code also differs in places that need no
correction:

- `trace.test.ts` imports `traceNode`, a name `trace.ts` does not export.
  The fixtures are modelled against `traceNodeUp`.
- `objToText` is imported but only `toStrObjectBlock` exists. Both are the
  same YAML-dump parameter.

## Model

| member | source | states |
|---|---|---|
| Hash.ToInt32 | packages/transpiler/src/utils/hash.ts:9 | the result is a signed 32-bit integer, and a value already in that range is kept as it is |
| Hash.HashValue | packages/transpiler/src/utils/hash.ts:7-10 | the running hash is always a signed 32-bit integer |
| Hash.HashIsPolynomial | packages/transpiler/src/utils/hash.ts:7-10 | the running hash equals the 32-bit wrap of the base-31 polynomial of the character codes, so wrapping at every step is the same as wrapping once at the end |
| Hash.StepIsTimes31 | packages/transpiler/src/utils/hash.ts:8-9 | `(h << 5) - h` with 32-bit wrapping is 31·h wrapped to 32 bits |
| Hash.HashString | packages/transpiler/src/utils/hash.ts:12-17 | the output has max(length, 0) characters, all from the 62-character alphanumeric alphabet |
| Hash.HashStringCharacters | packages/transpiler/src/utils/hash.ts:13-15 | output character i is alphabet[abs(hash + i) mod 62] |
| Hash.AlphabetInjective | packages/transpiler/src/utils/hash.ts:2-3 | the 62 alphabet characters are pairwise distinct |
| Hash.AdjacentHashesDiffer | packages/transpiler/src/utils/hash.ts:13-15 | two inputs whose non-negative hashes differ by one, not across a multiple of 62, give different output strings |
| Hash.HashValueFixtures | packages/transpiler/test/utils/hash.test.ts:8-10 | 'test1' and 'test2' hash to 110251487 and 110251488 |
| Hash.HashStringDistinctFixture | packages/transpiler/test/utils/hash.test.ts:8-13 | 'test1' and 'test2' hash to different strings at length 10 |
| Hash.HashStringFixtures | packages/transpiler/test/utils/hash.test.ts:16-34 | the empty input gives the alphabet from 'A'; lengths 0 and -5 give ''; length 1000 gives 1000 characters |
| AutoIds.Push | packages/transpiler/src/parse/autoId.ts:12-19 | pushing fails exactly when the id is already registered, with the source's message; otherwise the registry gains exactly that id |
| AutoIds.Generate | packages/transpiler/src/parse/autoId.ts:23-25 | the candidate is the element name, ':' and a 6-character hash of the text |
| AutoIds.Finalize | packages/transpiler/src/parse/autoId.ts:27-31 | the result is the id followed by the fewest dashes that make it unregistered |
| AutoIds.CreateAutoId | packages/transpiler/src/parse/autoId.ts:34-49 | the id is the finalized form of the altered candidate, that is the candidate with the fewest dashes appended that make it unregistered; it was not registered, and the new registry is the old one plus it |
| AutoIds.CreateAllDistinct | packages/transpiler/src/parse/autoId.ts:22-49 | ids handed out one after another on one registry are fresh and pairwise distinct, and the registry grows by exactly them |
| AutoIds.RepeatedTextGetsDash | packages/transpiler/src/parse/autoId.ts:27-49 | the same element and text seen twice gets the generated id, then that id with one dash |
| Str.NormalizeLineEndings | packages/transpiler/src/utils/str.ts:3-5 | no '\r' is left, a text without '\r' comes back unchanged, and the result is never longer |
| Str.NormalizeIdempotent | packages/transpiler/src/utils/str.ts:3-5 | normalizing twice is normalizing once |
| Str.SplitFirstLine | packages/transpiler/src/utils/str.ts:12-19 | the first line has no '\n'; with a '\n' the text is firstLine + "\n" + rest, otherwise rest is empty |
| Str.TryParseInt | packages/transpiler/src/utils/str.ts:78-81 | a text result is the input itself, and an integer results exactly when the `parseInt` reading of the leading sign and digits finds one, with that value |
| Str.TryParseIntPrefix | packages/transpiler/src/utils/str.ts:78-81 | the decimal form of any integer, followed by a rest that does not start with a digit (nor with 'x' after a lone 0), reads back as that integer |
| Str.ParseNegative | packages/transpiler/src/utils/str.ts:78-81 | '-' and the digits of a positive m, before any non-digit rest, read as -m |
| Str.IndentLines | packages/transpiler/src/utils/str.ts:39-43 | indenting keeps the number of lines and prefixes exactly n spaces to each line with non-whitespace, leaving the others as they are |
| Str.DedentIndent | packages/transpiler/src/utils/str.ts:39-76 | for text whose only line breaks are '\n', dedenting an indented text gives the same as dedenting the text |
| Str.DedentIndentFlush | packages/transpiler/src/utils/str.ts:39-76 | dedenting the lines of a text whose first non-blank line is flush, all shifted by n, restores the text |
| Str.TryParseIntNaNFixtures | packages/transpiler/test/utils/str.test.ts:238-246 | '' and 'test' come back unchanged as text |
| Str.TryParseIntDecimalFixture | packages/transpiler/test/utils/str.test.ts:248-251 | '0' and '123' read as 0 and 123 |
| Str.TryParseIntNegativeFixture | packages/transpiler/test/utils/str.test.ts:248-251 | '-123' reads as -123 |
| Str.TryParseIntPrefixFixture | packages/transpiler/src/utils/str.ts:78-81 | '12abc' reads as 12, as `parseInt` does |
| Blocks.TextToStrBlocksJoin | packages/transpiler/src/utils/str.ts:7-10 | non-empty blocks that are trimmed, do not start with '}' and contain no separator, joined with blank lines, split back into exactly those blocks |
| Blocks.SepIsBlankLine | packages/transpiler/src/utils/str.ts:9 | a separator starts and ends with '\n' and holds only whitespace between |
| Blocks.NoBlankLineNoSep | packages/transpiler/src/utils/str.ts:9 | text with no "\n\n" has no separator |
| Blocks.TextToStrBlocksSingle | packages/transpiler/src/utils/str.ts:7-10 | a text with non-whitespace and no blank line gives the single trimmed text |
| Blocks.TextToStrBlocksEmpty | packages/transpiler/src/utils/str.ts:7-10 | the empty text gives no blocks |
| Blocks.ThreeBlocks | packages/transpiler/src/utils/str.ts:7-10 | three blocks between whitespace, one blank line and another separator split into exactly those three |
| Blocks.SingleLineFixture | packages/transpiler/test/utils/str.test.ts:22-57 | 'Hello world!' is one block |
| Blocks.TwoLineFixture | packages/transpiler/test/utils/str.test.ts:22-57 | two lines with no blank line between stay one block |
| Blocks.PaddedTextFixture | packages/transpiler/test/utils/str.test.ts:22-57 | surrounding whitespace is trimmed, runs of blank lines separate, and an indented continuation after a blank line stays in its block |
| Ranges.MakeRange | packages/transpiler/test/utils/range.test.ts:70-81 | building a range fails exactly when start < 0 or end < start, and otherwise keeps both ends |
| Ranges.TryRange | packages/transpiler/test/utils/range.test.ts:82-93 | gives nothing exactly where building fails, and the same range otherwise |
| Ranges.IntersectionMeaning | packages/transpiler/test/utils/range.test.ts:8-68 | None, Inside, Contain and Partial, each stated as a relation of the two closed intervals, in both directions |
| Ranges.IntersectionMirror | packages/transpiler/test/utils/range.test.ts:8-68 | swapping the arguments keeps None and Partial and turns Inside into Contain for distinct ranges; equal ranges are Inside |
| Ranges.IntersectionFixtures | packages/transpiler/test/utils/range.test.ts:8-93 | every case of the range tests |
| MetaValues.Get | packages/transpiler/src/meta.ts:56-95 | a found value is stored under the key, and nothing is found exactly when no entry has the key |
| MetaValues.Set | packages/transpiler/src/meta.ts:56-92 | after `meta[k] = v` the key reads v and every other key is unchanged; a present key keeps its place and a new one is appended |
| MetaValues.Delete | packages/transpiler/src/meta.ts:95 | after `delete` the key is absent and every other key is unchanged |
| MetaParse.Tokenize | packages/transpiler/src/meta.ts:54 | every token is non-empty and starts with a non-whitespace character |
| MetaParse.TokenizeJoin | packages/transpiler/src/meta.ts:54 | words joined with single spaces tokenize back into exactly those words |
| MetaParse.ApplyToken | packages/transpiler/src/meta.ts:56-92 | '#x' sets id; '.x' appends a class; '+k' and '-k' set true and false; 'k=v' sets the value of v, bare 'k' sets null, and an empty key changes nothing; every other key is kept; it fails exactly when '.' meets a classes value that is set and is not a list |
| MetaParse.ApplyTokensFrame | packages/transpiler/src/meta.ts:56-92 | tokens whose keys differ from k leave k as it was |
| MetaParse.DropEmptyClasses | packages/transpiler/src/meta.ts:95 | an empty classes list is removed, and nothing else changes |
| MetaParse.ParseLineMeta | packages/transpiler/src/meta.ts:51-97 | it fails only with the type error of pushing onto a non-list; a result has unique keys and never an empty classes list |
| MetaParse.ParseLineMetaKeys | packages/transpiler/src/meta.ts:51-97 | a key no token mentions is absent; in particular classes is absent without a '.' token |
| MetaParse.ParseLineMetaBlank | packages/transpiler/src/meta.ts:51-97 | blank text gives the empty meta |
| MetaParse.ParseLineMetaWords | packages/transpiler/src/meta.ts:51-97 | space-joined words between whitespace parse as those words applied in order |
| MetaParse.ParseMeta | packages/transpiler/src/meta.ts:34-49 | text with a newline goes to YAML, and gives {} when that fails or is not a plain object; other text goes to the line parser |
| MetaParse.LinePrefix | packages/transpiler/src/meta.ts:20 | the line prefix '{…}' followed by a line break, when one exists, and the text between its braces |
| MetaParse.ComplexPrefix | packages/transpiler/src/meta.ts:20 | a '{' at the start up to the first line that is exactly '}', and none when there is no such line |
| MetaParse.FindPrefix | packages/transpiler/src/meta.ts:19-22 | a found prefix is '{', its inner text, '}' and a line break at offset 0; the line shape wins when it applies; none exactly when neither shape applies |
| MetaParse.DetachMeta | packages/transpiler/src/meta.ts:11-32 | no prefix, or a prefix that is the whole text, gives {} and the text unchanged; otherwise the parsed inner meta and the text after the prefix, failing exactly when the inner meta fails to parse |
| MetaStringify.StringifyMetaWith | packages/transpiler/src/meta.ts:103-166 | undefined meta writes ''; without complex meta it is the line form; any output is empty or opens with '{' and closes with '}' |
| MetaStringify.StringifyLineShape | packages/transpiler/src/meta.ts:127-165 | the line form is empty or opens with '{ ' and closes with ' }' |
| MetaStringify.LineRoundTrip | packages/transpiler/src/meta.ts:51-165 | a meta within the lossless subset (see Left out) parses back from the text between the braces of its corrected line form to the same map |
| MetaStringify.PiecesParse | packages/transpiler/src/meta.ts:51-165 | every written piece is one word, and the pieces parse to a meta with the same value under every key |
| MetaStringify.ScalarsStayInLine | packages/transpiler/src/meta.ts:106-118 | corrected, a meta whose properties besides id and classes hold only scalars, null included, is written in line form even where YAML is allowed; as written, one null property switches to YAML |
| MetaExamples.InlineExample | packages/transpiler/test/meta.test.ts:71-83 | id, two classes, two flags and a title write as `{ #myId .classOne .classTwo +flag -disabled title=Hello }` |
| MetaExamples.NullPropExample | packages/transpiler/test/meta.test.ts:155-164 | with a null property and complex meta allowed, the code as written switches to YAML, while the corrected writer gives `{ #simple nullProp num=42 }` |
| MetaExamples.QuotingExample | packages/transpiler/test/meta.test.ts:126-136 | as written 'hello@world!' stays bare and only the spaced string is quoted; corrected, both are quoted |
| MetaExamples.ParagraphMetaExample | packages/transpiler/test/transpiler/stringifyDefault.test.ts:49-78 | id p2, classes foo and bar, and flag toc write as `{ #p2 .foo .bar +toc }` |
| Merge.Scan | packages/transpiler/src/parse/parser.ts:160-182 | a candidate is rejected exactly when it is Partial with or Inside some accepted range; otherwise the indexes to remove are exactly the ranges it contains, strictly increasing |
| Merge.RemoveAt | packages/transpiler/src/parse/parser.ts:187 | one splice removes the entry at an index in range and otherwise changes nothing |
| Merge.InsertIndex | packages/transpiler/src/parse/parser.ts:191-194 | the insertion point comes after every range with a start not larger than the candidate's and before the first with a larger start |
| Merge.MergeStepKeepsSorted | packages/transpiler/src/parse/parser.ts:184-201 | in both readings a merge step keeps the list sorted by start, leaves it unchanged for a rejected candidate and contains an approved one |
| Merge.MergeStepKeepsSeparated | packages/transpiler/src/parse/parser.ts:184-201 | the corrected merge step keeps a sorted list of valid ranges disjoint and not touching |
| Merge.MergeAllSeparated | packages/transpiler/src/parse/parser.ts:149-203 | the corrected merge of any candidates gives a sorted list of separated ranges |
| Merge.AtMostOneContainedAgrees | packages/transpiler/src/parse/parser.ts:184-188 | when a candidate contains at most one accepted range, the step as written equals the corrected step |
| Merge.AsWrittenSeparatedIfAtMostOne | packages/transpiler/src/parse/parser.ts:184-188 | when every candidate contains at most one accepted range, the merge as written equals the corrected merge and stays separated |
| Merge.ApprovedNone | packages/transpiler/src/parse/parser.ts:160-182 | an approved candidate with nothing to remove contains no accepted range |
| Merge.ApprovedOne | packages/transpiler/src/parse/parser.ts:160-182 | an approved candidate with one index to remove contains exactly that accepted range |
| Merge.AscendingSpliceCounterexample | packages/transpiler/src/parse/parser.ts:184-188 | accepted [0,2),[3,5),[10,12) and candidate [0,6): the merge as written yields [0,6),[3,5), which overlap |
| Merge.CounterexampleAsWritten | packages/transpiler/src/parse/parser.ts:184-188 | the as-written result of that example |
| Merge.CounterexampleFixed | packages/transpiler/src/parse/parser.ts:184-188 | the corrected step yields [0,6),[10,12) on that example |
| Parser.LastCloseBefore | packages/transpiler/src/parse/parser.ts:242 | the last '}' before the end position, at index 2 or later, or none when there is no such '}' |
| Parser.ConsumeLineMeta | packages/transpiler/src/parse/parser.ts:238-245 | the consumed meta text and the rest of the gap rebuild the gap |
| Parser.ConsumeLineMetaMatch | packages/transpiler/src/parse/parser.ts:242-245 | consumed meta is a non-empty run within one line and no '}' is left before the rest's line end; nothing is consumed when the gap does not open with '{' or has no '}' after it on that line |
| Parser.Candidates | packages/transpiler/src/parse/parser.ts:153-158 | every candidate is tagged with a registered inline strategy |
| Parser.ResolveRanges | packages/transpiler/src/parse/parser.ts:149-203 | every resolved range, under the corrected merge, belongs to a registered inline strategy |
| Parser.MergeFrom | packages/transpiler/src/parse/parser.ts:149-203 | every range the corrected merge keeps is one of the candidates |
| Parser.ParseInliners | packages/transpiler/src/parse/parser.ts:136-274 | empty text gives no inliners and leaves the registry and the log unchanged; on success the step log only grows |
| Parser.FirstClaim | packages/transpiler/src/parse/parser.ts:79-90 | the first block strategy in registry order whose canParse holds, and none before it does |
| Parser.ParseEach | packages/transpiler/src/parse/parser.ts:64-68 | a successful result has one node per block |
| Parser.ParseBlocks | packages/transpiler/src/parse/parser.ts:56-71 | empty text gives nothing; otherwise one node per block of the normalised text |
| Parser.Parse | packages/transpiler/src/parse/parser.ts:46-54 | empty text gives a root with undefined children, the options' registry and no steps; any result is a blocks root |
| InlinePlan.ParseInlinersPlan | packages/transpiler/src/parse/parser.ts:136-274 | the inliners succeed exactly when every consumed meta parses; then the log only grows and the nodes and new steps realize the plan of the text (ranges resolved by the corrected merge) |
| InlinePlan.ParseInlinersRealizes | packages/transpiler/src/parse/parser.ts:136-274 | for non-empty text the same, with the plan built from the normalised text and the ranges the corrected merge resolves |
| InlinePlan.ParseInlinersReassembles | packages/transpiler/src/parse/parser.ts:225-271 | when the strategies outline valid ranges within the text, the pieces of the plan (ranges resolved by the corrected merge) concatenate back to the normalised text |
| InlinePlan.PlanNoEmptyText | packages/transpiler/src/parse/parser.ts:227-270 | no Text piece of a plan is empty |
| InlinePlan.ResolvedWellFormed | packages/transpiler/src/parse/parser.ts:149-203 | when the strategies outline valid ranges within the text, the ranges the corrected merge resolves are sorted, separated, valid and within the text |
| InlinePlan.AsWrittenResolutionAgrees | packages/transpiler/src/parse/parser.ts:149-203 | when the strategies outline valid ranges and no candidate contains two ranges accepted before it, the merge as written resolves the same ranges as the corrected one, and they are separated |
| InlinePlan.MetaOfConsumed | packages/transpiler/src/parse/parser.ts:242-245 | the meta a plan gives a range is the meta parsed from the consumed run |
| InlinePlan.PushTextRealizes | packages/transpiler/src/parse/parser.ts:211-223 | pushing a gap realizes its Text piece, and only extends the log |
| InlinePlan.EmitRangeRealizes | packages/transpiler/src/parse/parser.ts:247-268 | a range whose meta parses adds exactly one node, the inliner or its error node, logged with the range's text |
| ParserFacts.DetachFailure | packages/transpiler/src/parse/parser.ts:77 | a block whose meta prefix makes the meta parser fail makes the parse fail |
| ParserFacts.BlockClaimed | packages/transpiler/src/parse/parser.ts:79-109 | a claimed block is the strategy's element with the detached meta, its data and the id that finalizing the altered candidate gives (fresh, and registered), or a block error node with the strategy's name and the raw block text, meta prefix included, when creation fails; either way logged once |
| ParserFacts.BlockFallback | packages/transpiler/src/parse/parser.ts:112-129 | an unclaimed block succeeds exactly when its inline metas parse; it is a paragraph with the detached meta and a fresh id, whose children realize the inline plan of the rest (corrected merge) and which is logged after them |
| ParserFacts.ParagraphCase | packages/transpiler/src/parse/parser.ts:114-129 | with no claimant, failing inliners fail the block; otherwise the paragraph holds the detached meta, the paragraph id and the inliners, logged after them |
| ParserFacts.ParseBlockShape | packages/transpiler/src/parse/parser.ts:73-130 | every parsed block is block-level and is the last step logged |
| ParserFacts.ParseEachShape | packages/transpiler/src/parse/parser.ts:64-68 | every node is block-level and the log only grows |
| ParserFacts.ParseRootBlocks | packages/transpiler/src/parse/parser.ts:46-71 | every child of the root is block-level |
| ParserFacts.PlainInliners | packages/transpiler/src/parse/parser.ts:136-274 | with no inline strategies, a non-empty text gives exactly one Text node, without meta, equal to the normalised text, logged once |
| ParserFacts.PlainParagraph | packages/transpiler/src/parse/parser.ts:112-129 | with no strategies, a block not opening with '{' becomes a paragraph with no meta and one Text child equal to the block, logged after its text |
| ParserFacts.PlainBlocks | packages/transpiler/src/parse/parser.ts:56-71 | with no strategies, every such block becomes such a paragraph, two steps each |
| ParserFacts.PlainParse | packages/transpiler/src/parse/parser.ts:46-54 | with no strategies, the root holds one such paragraph per block, two steps each |
| ParserFacts.DefaultParser | packages/transpiler/src/parse/parser.ts:26-40 | a parser built from no elements has no block and no inline strategies |
| ParserFacts.HelloWorldFixture | packages/transpiler/test/transpiler/parseDefault.test.ts:13-25 | 'Hello world' gives one plain paragraph and two steps; '' gives a root with undefined children |
| ParserFacts.TwoBlocksFixture | packages/transpiler/test/transpiler/parseDefault.test.ts:71-75 | 'Hello', a blank line and 'World' give two plain paragraphs and four steps |
| ParserFacts.InlinersFixture | packages/transpiler/test/transpiler/parseDefault.test.ts:44-56 | 'Hello world' gives one Text node and one step; '' gives none |
| Strategies.SplitFactories | packages/transpiler/src/parse/parser.ts:26-40 | every factory lands in one of the two lists: their lengths add up to the registry's |
| Strategies.SplitAppend | packages/transpiler/src/parse/parser.ts:26-40 | the split of a concatenation is the concatenation of the splits, so registry order is kept in each list |
| Strategies.SplitSingle | packages/transpiler/src/parse/parser.ts:26-40 | a single factory lands in the list of its kind |
| Strategies.FirstLineWhere | packages/transpiler/src/parse/parseFactory.ts:98-100 | the index of the first line satisfying the predicate, or none when no line does |
| Strategies.ObjName | packages/transpiler/src/parse/parseFactory.ts:98-100 | a name is found exactly when some line is '@' plus non-whitespace, and it is the first such line |
| Strategies.ObjContentAfterFirstLine | packages/transpiler/src/parse/parseFactory.ts:102-125 | the content is what follows the first line; 'string' mode passes it as text; a plain object is passed on; in 'object' mode anything else fails |
| Strategies.SplitAtFirstBreak | packages/transpiler/src/parse/parseFactory.ts:102-108 | the head before the first line break and the content after it are unique |
| Strategies.MatchRanges | packages/transpiler/src/parse/parseFactory.ts:149-159 | one range [index, index + length) per match, in match order |
| Stringifier.StringifyLog | packages/transpiler/src/stringify/stringifier.ts:43-104 | the steps added are exactly the node's element and error nodes, each after its children, and never its groups |
| Stringifier.StringifyWritable | packages/transpiler/src/stringify/stringifier.ts:36-117 | writing succeeds exactly when the tree is writable: every element has a stringifier whose writer succeeds |
| Stringifier.StringifyFrame | packages/transpiler/src/stringify/stringifier.ts:36-117 | earlier steps change neither the text nor the steps a node adds |
| Stringifier.EachText | packages/transpiler/src/stringify/stringifier.ts:61-67 | the group loop writes each child's text followed by the separator |
| Stringifier.GroupText | packages/transpiler/src/stringify/stringifier.ts:55-70 | a blocks group joins its children with a blank line and trims; an inliners group concatenates them |
| Stringifier.RegisterLast | packages/transpiler/src/stringify/stringifier.ts:28-30 | a name resolves exactly when some registration uses it, and to the last one that does |
| Stringifier.FactoryForNew | packages/transpiler/src/stringify/stringifier.ts:27-34 | paragraph and text always resolve to the built-in writers, and any other name to its last registration |
| Stringifier.AsWrittenParagraphFails | packages/transpiler/src/stringify/stringifyDefault.ts:10-19 | as written, a root holding a paragraph fails to write |
| StringifyExamples.ThreeParagraphsFixture | packages/transpiler/test/transpiler/stringifyDefault.test.ts:49-78 | three paragraphs, with no meta, with line meta and with nested meta, write the asserted text in six steps |
| StringifyExamples.EmptyRootFixture | packages/transpiler/test/transpiler/stringifyDefault.test.ts:41-47 | a root with no children, or undefined children, writes '' with no step |
| StringifyExamples.ErrorFixtures | packages/transpiler/test/transpiler/stringifyDefault.test.ts:80-98 | block and inliner error nodes write their stored text verbatim, with one step |
| StringifyExamples.TestParagraphWrites | packages/transpiler/src/stringify/stringifier.ts:92-102 | a paragraph of one text node is writable, writes its text under its meta in block style, and logs two steps |
| StringifyExamples.YamlMetaExample | packages/transpiler/src/meta.ts:117-123 | complex meta writes '{', the YAML dump indented four spaces, and '}' |
| RoundTrip.ParseThenStringify | packages/transpiler/test/transpiler/invertibility.test.ts:15-65 | plain blocks joined by blank lines parse with the default parser and write back to the same text, with as many steps as parsing made |
| RoundTrip.PlainParagraphWrites | packages/transpiler/src/stringify/stringifyDefault.ts:10-19 | a plain paragraph writes back its block and logs two steps |
| Elements.MatchHeading | packages/transpiler/test/transpiler/elements.ts:49 | a match exists exactly when some line is one or more '#', a space and a non-empty rest, and it is the first such line |
| Elements.HeadingCreateSpec | packages/transpiler/test/transpiler/elements.ts:58-69 | a 'throw' meta fails with the heading's message; otherwise creation succeeds exactly when a heading line exists |
| Elements.HeadingCreateFrom | packages/transpiler/test/transpiler/elements.ts:48-69 | the level is the hash count of the first heading line, and the title is its trimmed rest between prefix and postfix |
| Elements.HeadingAutoIdSpec | packages/transpiler/test/transpiler/elements.ts:71-73 | the auto id is 'custom-heading:' and the title without prefix and postfix |
| Elements.HeadingLineMatches | packages/transpiler/test/transpiler/elements.ts:49-103 | a written heading line matches with its hashes and its title as captures |
| Elements.HeadingRoundTrip | packages/transpiler/test/transpiler/elements.ts:48-103 | a written heading parses back with the title wrapped in prefix and postfix, and writes again to the same line |
| Elements.ObjHeadingRoundTrip | packages/transpiler/test/transpiler/elements.ts:79-101 | an object heading written as '@heading' and YAML parses back to the same level and trimmed title |
| Elements.ObjHeadingBlockParses | packages/transpiler/test/transpiler/elements.ts:76-92 | '@heading' followed by YAML content that is a plain object is claimed and handed that object |
| Elements.ObjHeadingDataOf | packages/transpiler/test/transpiler/elements.ts:82-91 | the object a heading is written as reads back as that heading |
| Elements.HeadingFixture | packages/transpiler/test/transpiler/parseElements.test.ts:53-62 | '# Heading 1' gives level 1 and the title wrapped in the default prefix and postfix |
| Elements.ObjHeadingFixture | packages/transpiler/test/transpiler/parseElements.test.ts:92-101 | the object heading block gives level 2 and the wrapped title |
| Elements.ThrowFixture | packages/transpiler/test/transpiler/parseElements.test.ts:103-111 | a heading block with '+throw' is claimed and fails to create |
| Elements.DashOutlineSpec | packages/transpiler/test/transpiler/elements.ts:138-150 | the dash ranges are 4-wide ' -- ' occurrences, left to right and apart, and every occurrence lies in one of them |
| Elements.DashRoundTrip | packages/transpiler/test/transpiler/elements.ts:138-161 | every dash range parses and writes back to the text it covers |
| Elements.BoldAtSpec | packages/transpiler/test/transpiler/elements.ts:180 | the expression matches at a place exactly when some closing '**' exists, and then at the first one |
| Elements.LazyBoldUnique | packages/transpiler/test/transpiler/elements.ts:180 | a lazy match closes at one place only |
| Elements.BoldOutlineSpec | packages/transpiler/test/transpiler/elements.ts:180 | the bold ranges are the lazy matches, left to right and apart, covering every place a match could start |
| Elements.BoldReparse | packages/transpiler/test/transpiler/elements.ts:180 | a lazy match seen on its own is the first match of its text, with the same capture |
| Elements.BoldRoundTrip | packages/transpiler/test/transpiler/elements.ts:179-192 | each bold range parses to the text between its stars and writes back to the text it covers |
| Group.DetachNode | packages/core/src/dom/group.ts:149-158 | the node loses its parent, every other parent link is kept, and no link is added |
| Group.DetachSpec | packages/core/src/dom/group.ts:149-158 | the forest stays consistent and each group's list loses exactly that node, other lists unchanged |
| Group.InsertAtList | packages/core/src/dom/group.ts:34-44 | the nodes sit together, in argument order, at the index clamped to the end, with the other children in their order |
| Group.InsertAtParents | packages/core/src/dom/group.ts:36-40 | the forest stays consistent, every inserted node has the group as parent, and no other parent link changes |
| Group.InsertAtOther | packages/core/src/dom/group.ts:36-40 | every other group's list only loses the inserted nodes |
| Group.SwapSpec | packages/core/src/dom/group.ts:46-62 | the list is a permutation of the old one, the forest stays consistent, and swapping again restores the forest |
| Group.MoveSpec | packages/core/src/dom/group.ts:64-70 | an in-bounds entry is taken out and put back at the clamped target index; the list is a permutation and the forest stays consistent |
| Group.MoveBack | packages/core/src/dom/group.ts:64-70 | moving an entry from i to j and back from j to i restores the forest |
| Group.DetachAllSpec | packages/core/src/dom/group.ts:76-80 | the forest stays consistent and each group's list loses exactly the detached nodes |
| Group.ClearSpec | packages/core/src/dom/group.ts:76-80 | every child loses its parent, no other parent link changes, and other groups' lists are unchanged |
| Group.SetNodesSpec | packages/core/src/dom/group.ts:84-93 | the children become exactly the given nodes, each with the group as parent |
| Group.PrependAppendSpec | packages/core/src/dom/group.ts:99-105 | prepend puts the nodes first and append puts them last, with the other children in their order |
| Group.BeforeSpec | packages/core/src/dom/group.ts:107-112 | the nodes go right before the reference node, with the other children in their order |
| Group.AfterSpec | packages/core/src/dom/group.ts:114-119 | the nodes go right after the reference node, with the other children in their order |
| Group.ReplaceSpec | packages/core/src/dom/group.ts:121-127 | the new nodes take the replaced node's place, with the other children in their order |
| Group.ReplaceDetaches | packages/core/src/dom/group.ts:121-127 | the replaced node ends up with no parent and the forest stays consistent |
| Group.MissingReference | packages/core/src/dom/group.ts:107-146 | before, after, replace, moveBefore and moveAfter, in both readings, change nothing when the reference is not a child |
| Group.MoveBeforeSpec | packages/core/src/dom/group.ts:129-139 | the corrected moveBefore leaves the node immediately before the reference, from either side, the others in order |
| Group.MoveAfterSpec | packages/core/src/dom/group.ts:141-146 | the corrected moveAfter leaves the node immediately after the reference, from either side, the others in order |
| Group.MoveInPlace | packages/core/src/dom/group.ts:129-146 | a node already right before (or after) the reference stays put under moveBefore (or moveAfter), in both readings |
| Group.MoveBackwardAsWritten | packages/core/src/dom/group.ts:129-146 | when the node starts after the reference, the moves as written equal the corrected ones |
| Group.MoveBeforeCounterexample | packages/core/src/dom/group.ts:129-139 | on [1,2,3], moveBefore(1, 3) as written gives [2,3,1]; corrected, [2,1,3] |
| Group.MoveAfterCounterexample | packages/core/src/dom/group.ts:141-146 | on [1,2,3], moveAfter(1, 2) as written gives [2,3,1]; corrected, [2,1,3] |
| Group.SwapFixture | packages/core/test/dom/group.test.ts:279-281 | swapping 1 and 3 in [1,2,3] gives [3,2,1] |
| Group.MoveAfterLastFixture | packages/core/test/dom/group.test.ts:288-291 | moveAfter(1, 3) on [1,2,3] gives [2,3,1] in both readings |
| Group.MoveBeforeFirstFixture | packages/core/test/dom/group.test.ts:300-303 | moveBefore(3, 1) on [1,2,3] gives [3,1,2] in both readings |
| Walk.NeighbourSpec | packages/core/src/dom/walk.ts:37-51 | next and previous are the siblings at index ±1, and nothing past either end |
| Walk.NoNeighbours | packages/core/src/dom/walk.ts:37-51 | without a parent, or one without children, there is no neighbour |
| Walk.WalkSpec | packages/core/src/dom/walk.ts:7-17 | the k-th visit is the (k+1)-th successor; only the last visit may stop the walk; the walk ends at a stopping step or at undefined |
| Walk.WalkUpSpec | packages/core/src/dom/walk.ts:33-35 | walkUp visits the strict ancestors, nearest first, up to the first stopping step |
| Walk.WalkForwardSpec | packages/core/src/dom/walk.ts:53-58 | walkForward visits the later siblings in order up to the first stopping step |
| Walk.WalkBackwardSpec | packages/core/src/dom/walk.ts:60-65 | walkBackward visits the earlier siblings, nearest first, up to the first stopping step |
| Walk.AnyHaltsSpec | packages/core/src/dom/walk.ts:24-29 | some visited step stops the walk exactly when one returns false |
| Walk.WalkDownSpec | packages/core/src/dom/walk.ts:19-31 | walkDown visits the descendants in pre-order through the first stopping node and returns false exactly when there is one |
| Walk.WalkDownFixture | packages/core/test/dom/walk.test.ts:36-86 | a tree visits [1,3,4,2] in pre-order, and stopping at 1 visits only [1] and returns false |
| Walk.WalkUpFixture | packages/core/test/dom/walk.test.ts:88-128 | from 2 the walk up visits [1,0], and stopping at 1 visits [1] |
| Walk.WalkFixture | packages/core/test/dom/walk.test.ts:130-183 | a chain 1→2→3 visits [2,3], and stopping at 2 visits [2] |
| Walk.NextPreviousFixture | packages/core/test/dom/walk.test.ts:185-233 | next and previous inside a list, at its ends, and for parentless nodes |
| Walk.ForwardFixture | packages/core/test/dom/walk.test.ts:248-271 | from the first of three siblings the walk forward visits [2,3], and stopping at 2 visits [2] |
| Walk.BackwardFixture | packages/core/test/dom/walk.test.ts:273-297 | from the last of three siblings the walk backward visits [2,1], and stopping at 2 visits [2] |
| Trace.AncestrySpec | packages/core/src/dom/trace.ts:12-21 | the ancestry ends at the node, each entry is the parent of the next, and with enough fuel the first has no parent |
| Trace.UpLinesSpec | packages/core/src/dom/trace.ts:23-41 | under a RootNode top the i-th ancestor is on line i indented 2·i spaces; otherwise a '!NO_PARENT!' line comes first and every entry shifts down one line and right two spaces |
| Trace.ChainLinesSpec | packages/core/src/dom/trace.ts:23-41 | for any chain, top first: one line per entry, shifted by one '!NO_PARENT!' line when the top is not a RootNode, entry i indented two spaces per level |
| Trace.NotNodeTrace | packages/core/src/dom/trace.ts:13-47 | a value that is not a Node traces to '' |
| Trace.TraceDownSpec | packages/core/src/dom/trace.ts:46-63 | on a tree, the start node and then its descendants in pre-order, each indented two spaces per level |
| Trace.LoneRootFixture | packages/core/test/dom/trace.test.ts:5-8 | a lone root traces as '<RootNode>' |
| Trace.NestedTraceFixture | packages/core/test/dom/trace.test.ts:10-32 | a four-level chain under a root traces as the tests' indented lines |
| Trace.NoParentFixture | packages/core/test/dom/trace.test.ts:34-53 | a chain without a root starts with '!NO_PARENT!' and shifts the lines right |
| RenderData.CreateRenderData | packages/core/src/renderData.ts:45-105 | no generator gives nothing; a throwing createKey fails with what it threw and changes nothing; a cached truthy key returns its value without creating; without createValue an uncached truthy key fails; storage changes only by writing the result under a truthy key; nothing fails once createValue ran |
| RenderData.CreatedValue | packages/core/src/renderData.ts:80-104 | a returned value becomes success data, a throw becomes an error message, undefined leaves storage unchanged, and the value is stored exactly when the key is truthy |
| RenderData.SecondCallCached | packages/core/src/renderData.ts:58-102 | after a value is created under a truthy key, the next call returns it without creating again |

## Left out

- YAML parsing and dumping, `objToText`/`toStrObjectBlock` and `isPlainObject` are function parameters. Their results are not interpreted, and they depend on an outside library and on prototype reflection.
- Regular expressions in general are left out. The heading, bold and dash expressions are hand-written scanners. A regexp inliner strategy takes its matches from a matcher parameter.
- Asynchronous ordering is not modelled, and that includes the `createAutoId` calls that are never awaited. Every hook and step is a sequential call, and the step log is an ordinary value.
- Some JavaScript details are not modelled:
  - integer-like object keys sort first in `Object.entries`;
  - `parseInt` returns a double, so digit strings beyond 2^53 are rounded and `'-0'` reads as negative zero, while the model reads the exact integer;
  - `hashString` hashes UTF-16 code units, but the model hashes Dafny characters;
  - numbers that are not integers are not formatted.
- Strategies do not call back into `parseBlocks`/`parseInliners` from inside `createParseData`. That nesting exists (parseFactory.ts:59-73) but is not modelled, so a shared registry across nested calls is not proved.
- `payload()` and the `provide` lookup through the transpiler are left out. The heading strategies take the provided prefix and postfix as a parameter.
- Class names come from a parameter instead of `constructor.name`. The one place the model has no such parameter is the missing-stringifier message: for an element with an empty name the source falls back to the node's class name, and the model prints the empty name.
- The stringifier's `console.error` diagnostics are left out.
- `walkDown` iterates the live `children` array, so a step callback that detaches or inserts siblings changes what is visited next. The model walks one fixed forest: its step callback is a pure function of the node and cannot change the tree.
- Walks and traces take a fuel or depth bound instead of relying on the tree being finite. Their lemmas hold for any bound, and they describe a complete walk when the bound exceeds the tree's height or the walk's length.
- `GroupNode.hasChildren`, `isEmpty` and `__detachAt` are one-line reads and splices, and they are used inside the modelled operations.
- The paragraph fixture of parseElements.test.ts:64-90 is not evaluated concretely, and neither are the bold-meta fixture (113-118) and the step counts (127-161). Their parts are proved separately: the bold and dash outlines, the range merge and the inline reassembly.
- stringifyElements.test.ts and the error-block case of the invertibility test are not evaluated. Their stringify rules are proved for all inputs.
- Elements.ObjHeadingDataOf: a non-integer `level` is not modelled, because YAML numbers are integers here.
- Elements.ObjHeadingData: `+obj.level` is read only for integers, booleans and strings of decimal digits. Any other truthy level becomes a "Heading level is not an integer" failure, so the block turns into a block error node. In JavaScript that read never fails: it gives NaN (for `abc`) or a number (for `" 3"`, `"0x1A"` or `[3]`), and the block stays a heading. NaN levels are not modelled.
- MetaStringify.LineRoundTrip: proved only for the lossless subset. Keys are plain words. Values are booleans, null, non-zero integers or strings that do not read as numbers. A classes list is non-empty. Outside that subset, the code itself loses information.
- Parser.ParseInliners: its own contract states only the empty case and the log growth. The full emission is stated by InlinePlan.ParseInlinersRealizes and InlinePlan.ParseInlinersReassembles.
- Parser.ResolveRanges: resolves with the corrected merge, not the ascending splice of parser.ts:184-188 (see "## Findings"). As written, a candidate that contains two or more accepted ranges removes only some of them, and the ranges left overlap. For instance, with the dash strategy registered before bold, the bold range of `**a -- b -- c**` keeps the second dash range inside it. The two merges agree when no candidate contains two accepted ranges (InlinePlan.AsWrittenResolutionAgrees).
- Parser.MergeFrom: stated of the corrected merge, as Parser.ResolveRanges is.
- InlinePlan.ParseInlinersPlan: stated of the inline emission over the ranges of the corrected merge. The overlapping ranges the code as written can keep are not modelled.
- InlinePlan.ParseInlinersRealizes: stated of the corrected merge, as InlinePlan.ParseInlinersPlan is.
- InlinePlan.ParseInlinersReassembles: stated of the corrected merge. With overlapping ranges as written, the pieces need not reassemble the text.
- InlinePlan.ResolvedWellFormed: stated of the corrected merge. As written, the ranges need not be separated (Merge.AscendingSpliceCounterexample).
- ParserFacts.BlockFallback: the paragraph's children are stated over the ranges of the corrected merge, as in InlinePlan.ParseInlinersPlan.
- Stringifier.WithMeta: meta is always written by the corrected `stringifyMeta`, including under the `AsWritten` defaults. As written, a `null` property switches a block's meta to the YAML form, and a string holding no space is left unquoted (see "## Findings").
- Stringifier.StringifyLog: a registered element stringifier is a function of the element's meta and data. It cannot call `stringify` back on nested nodes (stringifyFactory.ts:22-24), so the text and steps of such nested writes are not modelled. "Exactly the node's element and error nodes" is stated of that model.
- Group.SetNodes: takes the new nodes by value. In the source, `g.setNodes(g.children)` passes the live `_children` array, which `clear()` empties before the nodes are inserted (group.ts:5-7, group.ts:76-80, group.ts:149-158), so the group ends up with no children. The model cannot tell that alias from a copy of the same nodes and keeps them.
- Group.SetNodesSpec: stated of nodes passed by value, as Group.SetNodes is. It does not hold for the aliased call `g.setNodes(g.children)`.
- The renderer-vue package and the transpiler's registry, option and schema files are not part of this model.

## Findings

| source | as written | input that shows it | evidently intended | confidence | as-written member | corrected member |
|---|---|---|---|---|---|---|
| packages/transpiler/src/parse/parser.ts:184-188 | contained ranges are spliced out by index in ascending order, so every splice after the first removes the range that moved into that place | accepted [0,2),[3,5),[10,12) and candidate [0,6): the result is [0,6),[3,5), which overlap | remove every contained range, giving [0,6),[10,12) | not executed | Merge.AscendingSpliceCounterexample | Merge.MergeAllSeparated |
| packages/transpiler/src/meta.ts:111 | `typeof null === 'object'` makes a null value pick the YAML form | { title: null } with complex meta allowed (meta.test.ts:155-164) | null is written in line form as a bare key | not executed | MetaExamples.NullPropExample | MetaStringify.ScalarsStayInLine |
| packages/transpiler/src/meta.ts:151-153 | a string is quoted only when it holds a space | 'hello@world!' is left bare, while meta.test.ts:126-136 expects it quoted | quote every string that is not a plain word | not executed | MetaExamples.QuotingExample | MetaStringify.LineRoundTrip |
| packages/transpiler/src/stringify/stringifyDefault.ts:10-19 | the built-in paragraph and text writers read a field of their argument, but stringifier.ts:90 calls them with none | any tree holding a paragraph or text node | read the element node being written | not executed | Stringifier.AsWrittenParagraphFails | StringifyExamples.ThreeParagraphsFixture |
| packages/core/src/dom/group.ts:129-139 | moveBefore inserts at the reference's index taken before the node was removed, so a node moving forward lands after the reference | [1,2,3] moveBefore(1, 3) gives [2,3,1] | [2,1,3] | not executed | Group.MoveBeforeCounterexample | Group.MoveBeforeSpec |
| packages/core/src/dom/group.ts:141-146 | moveAfter inserts at the reference's index + 1 taken before the node was removed, so a node moving forward lands one place too far | [1,2,3] moveAfter(1, 2) gives [2,3,1] | [2,1,3] | not executed | Group.MoveAfterCounterexample | Group.MoveAfterSpec |
