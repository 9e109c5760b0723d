/** `trace.ts`: printing a node's ancestry (`traceNodeUp`) or its subtree
    (`traceNodeDown`), one node per line, indented two spaces per level.
    What the source reads from a node's class — its constructor name and
    whether it is an `ElementNode` or a `RootNode` — is given by `cls`; the
    argument is `None` when it is falsy or not a `Node`. */
module Trace {
  import opened Wrappers
  import opened Chars
  import opened Dom
  import opened Walk
  import Strs = Str

  datatype NodeClass = NodeClass(name: string, isElement: bool, isRoot: bool)

  /** `stringifyNode`: an element by its bare class name, any other node
      in angle brackets. */
  function Label(c: NodeClass): string {
    if c.isElement then c.name else "<" + c.name + ">"
  }

  /** The step callback of both traces, which never returns `false`. */
  function NoStop(x: NodeId): bool {
    false
  }

  /** The node and its ancestors, top first: the `nodes` array after
      `reverse()`. */
  function Ancestry(f: Forest, n: NodeId, fuel: nat): seq<NodeId> {
    Reverse([n] + WalkUp(f, n, NoStop, fuel))
  }

  /** The ancestry ends at the node itself, each entry is the parent of the
      next, and, when the walk did not run out of fuel, the first entry
      has no parent. */
  lemma {:induction false} AncestrySpec(f: Forest, n: NodeId, fuel: nat)
    ensures var a := Ancestry(f, n, fuel);
            |a| >= 1 && a[|a| - 1] == n
            && (forall i, j :: 0 <= i < j < |a| && j == i + 1 ==> a[j] in f.parent && f.parent[a[j]] == a[i])
            && (|a| <= fuel ==> a[0] !in f.parent)
  {
    var r := WalkUp(f, n, NoStop, fuel);
    WalkUpSpec(f, n, NoStop, fuel);
    var c := [n] + r;
    var a := Reverse(c);
    forall i, j | 0 <= i < j < |a| && j == i + 1 ensures a[j] in f.parent && f.parent[a[j]] == a[i] {
      var m := |c| - 2 - i;
      assert a[j] == c[m] && a[i] == c[m + 1];
      if m > 0 { assert c[m] == r[m - 1] && c[m + 1] == r[m]; }
    }
  }

  /** The lines of `traceNodeUp` before joining: the top node, preceded by
      `!NO_PARENT!` and indented when it is not a `RootNode`, then every
      later entry indented two more spaces than the one before. */
  function UpLines(f: Forest, n: NodeId, cls: NodeId -> NodeClass, fuel: nat): seq<string> {
    ChainLines(Ancestry(f, n, fuel), cls)
  }

  /** The lines for an ancestry chain, top first. */
  function ChainLines(chain: seq<NodeId>, cls: NodeId -> NodeClass): seq<string>
    requires |chain| >= 1
  {
    var top := chain[0];
    var rest := chain[1..];
    var rooted := cls(top).isRoot;
    var shift := if rooted then 1 else 2;
    (if rooted then [Label(cls(top))] else ["!NO_PARENT!", Spaces(2) + Label(cls(top))])
      + seq(|rest|, i requires 0 <= i < |rest| => Spaces(2 * (i + shift)) + Label(cls(rest[i])))
  }

  /** `traceNodeUp(node)`. */
  function TraceUp(f: Forest, node: Option<NodeId>, cls: NodeId -> NodeClass, fuel: nat): string {
    match node
    case None => ""
    case Some(n) => Trim(Join(UpLines(f, n, cls, fuel), "\n"))
  }

  /** Line by line: under a `RootNode` top, the i-th ancestry entry is on
      line i indented 2·i spaces; otherwise a `!NO_PARENT!` line comes
      first and every entry moves one line down and two spaces right. */
  lemma {:induction false} UpLinesSpec(f: Forest, n: NodeId, cls: NodeId -> NodeClass, fuel: nat)
    ensures var a := Ancestry(f, n, fuel);
            var ls := UpLines(f, n, cls, fuel);
            var s := if cls(a[0]).isRoot then 0 else 1;
            |ls| == |a| + s
            && (s == 1 ==> ls[0] == "!NO_PARENT!")
            && (forall i :: 0 <= i < |a| ==> ls[i + s] == Spaces(2 * (i + s)) + Label(cls(a[i])))
  {
    ChainLinesSpec(Ancestry(f, n, fuel), cls);
  }

  lemma {:induction false} ChainLinesSpec(a: seq<NodeId>, cls: NodeId -> NodeClass)
    requires |a| >= 1
    ensures var ls := ChainLines(a, cls);
            var s := if cls(a[0]).isRoot then 0 else 1;
            |ls| == |a| + s
            && (s == 1 ==> ls[0] == "!NO_PARENT!")
            && (forall i :: 0 <= i < |a| ==> ls[i + s] == Spaces(2 * (i + s)) + Label(cls(a[i])))
  {
    var rest := a[1..];
    var rooted := cls(a[0]).isRoot;
    var sh := if rooted then 1 else 2;
    var head: seq<string> := if rooted then [Label(cls(a[0]))] else ["!NO_PARENT!", Spaces(2) + Label(cls(a[0]))];
    var tail := seq(|rest|, i requires 0 <= i < |rest| => Spaces(2 * (i + sh)) + Label(cls(rest[i])));
    var ls := head + tail;
    assert ChainLines(a, cls) == ls;
    var s := if rooted then 0 else 1;
    assert Spaces(0) == [];
    forall i | 0 <= i < |a| ensures ls[i + s] == Spaces(2 * (i + s)) + Label(cls(a[i])) {
      if i > 0 {
        assert ls[i + s] == tail[i - 1];
        assert rest[i - 1] == a[i];
      }
    }
  }

  /** A value that is not a `Node` traces to the empty string. */
  lemma NotNodeTrace(f: Forest, cls: NodeId -> NodeClass, fuel: nat)
    ensures TraceUp(f, None, cls, fuel) == "" && TraceDown(f, None, cls, fuel) == ""
  {
  }

  /** The lines of `traceNodeDown` after the first: the walk's visits in
      order, each one level below the level recorded for its parent (level
      0 when the parent has none recorded), with the levels map updated as
      the callback does. */
  function DownLines(f: Forest, cls: NodeId -> NodeClass, visits: seq<NodeId>, levels: map<NodeId, nat>): seq<string>
    decreases |visits|
  {
    if |visits| == 0 then []
    else
      var c := visits[0];
      var lvl := ChildLevel(f, levels, c);
      [Spaces(2 * lvl) + Label(cls(c))] + DownLines(f, cls, visits[1..], levels[c := lvl])
  }

  /** `(levels.get(child.parent) || 0) + 1`. */
  function ChildLevel(f: Forest, levels: map<NodeId, nat>, c: NodeId): nat {
    (if c in f.parent && f.parent[c] in levels then levels[f.parent[c]] else 0) + 1
  }

  /** The levels map once the callback has run over `visits`. */
  function LevelsAfter(f: Forest, visits: seq<NodeId>, levels: map<NodeId, nat>): map<NodeId, nat>
    decreases |visits|
  {
    if |visits| == 0 then levels
    else LevelsAfter(f, visits[1..], levels[visits[0] := ChildLevel(f, levels, visits[0])])
  }

  /** `traceNodeDown(node)`, exploring at most `depth` levels. */
  function TraceDown(f: Forest, node: Option<NodeId>, cls: NodeId -> NodeClass, depth: nat): string {
    match node
    case None => ""
    case Some(n) =>
      var visits := WalkDown(f, n, NoStop, depth).visited;
      Join([Label(cls(n))] + DownLines(f, cls, visits, map[n := 0]), "\n")
  }

  /** Reference: the descendants of `x` in pre-order, each paired with its
      depth below the start node, `x` itself being at depth `k`. */
  function Depths(f: Forest, x: NodeId, depth: nat, k: nat): seq<(NodeId, nat)>
    decreases depth, 0
  {
    if depth == 0 then [] else DepthsAll(f, KidsOf(f, x), depth - 1, k + 1)
  }

  function DepthsAll(f: Forest, cs: seq<NodeId>, depth: nat, k: nat): seq<(NodeId, nat)>
    decreases depth, |cs|
  {
    if |cs| == 0 then []
    else [(cs[0], k)] + Depths(f, cs[0], depth, k) + DepthsAll(f, cs[1..], depth, k)
  }

  /** One line per (node, depth) pair, indented two spaces per level. */
  function LinesOf(p: seq<(NodeId, nat)>, cls: NodeId -> NodeClass): (r: seq<string>)
    ensures |r| == |p|
    ensures forall i :: 0 <= i < |p| ==> r[i] == Spaces(2 * p[i].1) + Label(cls(p[i].0))
  {
    seq(|p|, i requires 0 <= i < |p| => Spaces(2 * p[i].1) + Label(cls(p[i].0)))
  }

  function Nodes(p: seq<(NodeId, nat)>): (r: seq<NodeId>)
    ensures |r| == |p|
    ensures forall i :: 0 <= i < |p| ==> r[i] == p[i].0
  {
    seq(|p|, i requires 0 <= i < |p| => p[i].0)
  }

  /** Every listed child names the node listing it as its parent, as the
      group operations keep it. */
  predicate ParentsAgree(f: Forest) {
    forall y, c :: y in f.kids && c in f.kids[y] ==> c in f.parent && f.parent[c] == y
  }

  /** On a tree — parents agree and no node is reached twice —
      `traceNodeDown` prints the start node, then its descendants in
      pre-order, each indented two spaces per level below the start. */
  lemma {:induction false} TraceDownSpec(f: Forest, n: NodeId, cls: NodeId -> NodeClass, depth: nat)
    requires ParentsAgree(f) && Distinct([n] + PreOrder(f, n, depth))
    ensures Nodes(Depths(f, n, depth, 0)) == PreOrder(f, n, depth)
    ensures TraceDown(f, Some(n), cls, depth) == Join([Label(cls(n))] + LinesOf(Depths(f, n, depth, 0), cls), "\n")
  {
    var p := PreOrder(f, n, depth);
    WalkDownSpec(f, n, NoStop, depth);
    NeverStops(p);
    ThroughNone(p, NoStop);
    DistinctCons(n, p);
    DepthsNodes(f, n, depth, 0);
    DownTree(f, cls, n, depth, 0, map[n := 0]);
  }

  lemma {:induction false} NeverStops(s: seq<NodeId>)
    ensures !AnyHalts(s, NoStop)
    decreases |s|
  {
    if |s| > 0 {
      NeverStops(s[1..]);
    }
  }

  lemma {:induction false} DistinctCons(x: NodeId, s: seq<NodeId>)
    requires Distinct([x] + s)
    ensures Distinct(s) && x !in s
  {
    DistinctTail([x] + s);
    assert ([x] + s)[1..] == s;
  }

  lemma {:induction false} DistinctSplit(a: seq<NodeId>, b: seq<NodeId>)
    requires Distinct(a + b)
    ensures Distinct(a) && Distinct(b)
    ensures forall x :: x in a ==> x !in b
  {
    assert a == (a + b)[..|a|] && b == (a + b)[|a|..];
    DistinctSlices(a + b, |a|);
  }

  lemma {:induction false} DepthsNodes(f: Forest, x: NodeId, depth: nat, k: nat)
    ensures Nodes(Depths(f, x, depth, k)) == PreOrder(f, x, depth)
    decreases depth, 0
  {
    if depth > 0 {
      DepthsAllNodes(f, KidsOf(f, x), depth - 1, k + 1);
    }
  }

  lemma {:induction false} DepthsAllNodes(f: Forest, cs: seq<NodeId>, depth: nat, k: nat)
    ensures Nodes(DepthsAll(f, cs, depth, k)) == PreOrderAll(f, cs, depth)
    decreases depth, |cs|
  {
    if |cs| > 0 {
      DepthsNodes(f, cs[0], depth, k);
      DepthsAllNodes(f, cs[1..], depth, k);
      NodesAppend([(cs[0], k)], Depths(f, cs[0], depth, k), DepthsAll(f, cs[1..], depth, k));
    }
  }

  lemma NodesAppend(a: seq<(NodeId, nat)>, b: seq<(NodeId, nat)>, c: seq<(NodeId, nat)>)
    ensures Nodes(a + b + c) == Nodes(a) + Nodes(b) + Nodes(c)
  {
  }

  /** Running the callback over two stretches of visits in turn. */
  lemma {:induction false} DownLinesAppend(f: Forest, cls: NodeId -> NodeClass, s: seq<NodeId>, t: seq<NodeId>, levels: map<NodeId, nat>)
    ensures DownLines(f, cls, s + t, levels) == DownLines(f, cls, s, levels) + DownLines(f, cls, t, LevelsAfter(f, s, levels))
    ensures LevelsAfter(f, s + t, levels) == LevelsAfter(f, t, LevelsAfter(f, s, levels))
    decreases |s|
  {
    if |s| == 0 {
      assert s + t == t;
    } else {
      assert (s + t)[0] == s[0] && (s + t)[1..] == s[1..] + t;
      DownLinesAppend(f, cls, s[1..], t, levels[s[0] := ChildLevel(f, levels, s[0])]);
    }
  }

  /** The callback records levels only for the nodes it visits. */
  lemma {:induction false} LevelsKept(f: Forest, s: seq<NodeId>, levels: map<NodeId, nat>, y: NodeId)
    requires y in levels && y !in s
    ensures y in LevelsAfter(f, s, levels) && LevelsAfter(f, s, levels)[y] == levels[y]
    decreases |s|
  {
    if |s| > 0 {
      LevelsKept(f, s[1..], levels[s[0] := ChildLevel(f, levels, s[0])], y);
    }
  }

  /** Over the subtree of `x`, recorded at level `k`, the callback prints
      the reference lines and leaves the level of `x` in place. */
  lemma {:induction false} DownTree(f: Forest, cls: NodeId -> NodeClass, x: NodeId, depth: nat, k: nat, levels: map<NodeId, nat>)
    requires ParentsAgree(f) && x in levels && levels[x] == k
    requires Distinct(PreOrder(f, x, depth)) && x !in PreOrder(f, x, depth)
    ensures DownLines(f, cls, PreOrder(f, x, depth), levels) == LinesOf(Depths(f, x, depth, k), cls)
    decreases depth, 0
  {
    if depth > 0 {
      DownChildren(f, cls, x, KidsOf(f, x), depth - 1, k, levels);
    }
  }

  lemma {:induction false} DownChildren(f: Forest, cls: NodeId -> NodeClass, x: NodeId, cs: seq<NodeId>, depth: nat, k: nat, levels: map<NodeId, nat>)
    requires ParentsAgree(f) && x in levels && levels[x] == k
    requires forall c :: c in cs ==> c in KidsOf(f, x)
    requires Distinct(PreOrderAll(f, cs, depth)) && x !in PreOrderAll(f, cs, depth)
    ensures DownLines(f, cls, PreOrderAll(f, cs, depth), levels) == LinesOf(DepthsAll(f, cs, depth, k + 1), cls)
    ensures x in LevelsAfter(f, PreOrderAll(f, cs, depth), levels)
            && LevelsAfter(f, PreOrderAll(f, cs, depth), levels)[x] == k
    decreases depth, |cs|
  {
    if |cs| > 0 {
      var c := cs[0];
      var sub := PreOrder(f, c, depth);
      var rest := PreOrderAll(f, cs[1..], depth);
      PreOrderParts(f, x, cs, depth);
      ChildParent(f, x, c);
      var l1 := levels[c := k + 1];
      DownTree(f, cls, c, depth, k + 1, l1);
      LevelsKept(f, sub, l1, x);
      var l2 := LevelsAfter(f, sub, l1);
      forall y | y in cs[1..] ensures y in KidsOf(f, x) {
        assert y in cs;
      }
      DownChildren(f, cls, x, cs[1..], depth, k, l2);
      ChildrenStep(f, cls, x, k, levels, c, sub, rest, PreOrderAll(f, cs, depth));
      DepthsAllUnfold(f, cs, depth, k + 1, cls);
    }
  }

  /** The callback over the first child, its subtree and the rest, in turn. */
  lemma {:induction false} ChildrenStep(f: Forest, cls: NodeId -> NodeClass, x: NodeId, k: nat, levels: map<NodeId, nat>,
                                        c: NodeId, sub: seq<NodeId>, rest: seq<NodeId>, all: seq<NodeId>)
    requires all == [c] + sub + rest
    requires c in f.parent && f.parent[c] == x && x in levels && levels[x] == k
    requires var l2 := LevelsAfter(f, sub, levels[c := k + 1]);
             x in LevelsAfter(f, rest, l2) && LevelsAfter(f, rest, l2)[x] == k
    ensures var l1 := levels[c := k + 1];
            DownLines(f, cls, all, levels)
              == [Spaces(2 * (k + 1)) + Label(cls(c))] + DownLines(f, cls, sub, l1) + DownLines(f, cls, rest, LevelsAfter(f, sub, l1))
    ensures x in LevelsAfter(f, all, levels) && LevelsAfter(f, all, levels)[x] == k
  {
    HeadLine(f, cls, x, c, k, levels);
    DownLinesAppend3(f, cls, [c], sub, rest, levels);
    DownLinesAppend(f, cls, [c] + sub, rest, levels);
    DownLinesAppend(f, cls, [c], sub, levels);
  }

  lemma DepthsAllUnfold(f: Forest, cs: seq<NodeId>, depth: nat, k: nat, cls: NodeId -> NodeClass)
    requires |cs| > 0
    ensures LinesOf(DepthsAll(f, cs, depth, k), cls)
            == [Spaces(2 * k) + Label(cls(cs[0]))] + LinesOf(Depths(f, cs[0], depth, k), cls) + LinesOf(DepthsAll(f, cs[1..], depth, k), cls)
  {
    LinesOfAppend3([(cs[0], k)], Depths(f, cs[0], depth, k), DepthsAll(f, cs[1..], depth, k), cls);
  }

  /** The pre-order of a child list splits into the first child, its
      subtree and the rest, and distinctness carries over to the parts. */
  lemma {:induction false} PreOrderParts(f: Forest, x: NodeId, cs: seq<NodeId>, depth: nat)
    requires |cs| > 0
    requires Distinct(PreOrderAll(f, cs, depth)) && x !in PreOrderAll(f, cs, depth)
    ensures var sub := PreOrder(f, cs[0], depth);
            var rest := PreOrderAll(f, cs[1..], depth);
            PreOrderAll(f, cs, depth) == [cs[0]] + sub + rest
            && Distinct(sub) && cs[0] !in sub && x != cs[0] && x !in sub
            && Distinct(rest) && x !in rest
  {
    var sub := PreOrder(f, cs[0], depth);
    var rest := PreOrderAll(f, cs[1..], depth);
    assert PreOrderAll(f, cs, depth) == [cs[0]] + sub + rest;
    DistinctSplit([cs[0]] + sub, rest);
    DistinctCons(cs[0], sub);
  }

  lemma ChildParent(f: Forest, x: NodeId, c: NodeId)
    requires ParentsAgree(f) && c in KidsOf(f, x)
    ensures c in f.parent && f.parent[c] == x
  {
  }

  /** The callback on a child whose parent is recorded at level `k`. */
  lemma HeadLine(f: Forest, cls: NodeId -> NodeClass, x: NodeId, c: NodeId, k: nat, levels: map<NodeId, nat>)
    requires c in f.parent && f.parent[c] == x && x in levels && levels[x] == k
    ensures DownLines(f, cls, [c], levels) == [Spaces(2 * (k + 1)) + Label(cls(c))]
    ensures LevelsAfter(f, [c], levels) == levels[c := k + 1]
  {
  }

  lemma {:induction false} DownLinesAppend3(f: Forest, cls: NodeId -> NodeClass, a: seq<NodeId>, b: seq<NodeId>, c: seq<NodeId>, levels: map<NodeId, nat>)
    ensures var la := LevelsAfter(f, a, levels);
            DownLines(f, cls, a + b + c, levels)
              == DownLines(f, cls, a, levels) + DownLines(f, cls, b, la) + DownLines(f, cls, c, LevelsAfter(f, b, la))
  {
    DownLinesAppend(f, cls, a + b, c, levels);
    DownLinesAppend(f, cls, a, b, levels);
  }

  lemma LinesOfAppend3(a: seq<(NodeId, nat)>, b: seq<(NodeId, nat)>, c: seq<(NodeId, nat)>, cls: NodeId -> NodeClass)
    ensures LinesOf(a + b + c, cls) == LinesOf(a, cls) + LinesOf(b, cls) + LinesOf(c, cls)
  {
  }

  const RootClass := NodeClass("RootNode", false, true)
  const ParagraphClass := NodeClass("ParagraphNode", true, false)
  const InlinersClass := NodeClass("InlinersNode", false, false)
  const TextClass := NodeClass("TextNode", true, false)

  /** The classes of the test document: root 0, paragraph 1, its inliners
      group 2 and text 3. */
  function TestClass(x: NodeId): NodeClass {
    if x == 0 then RootClass else if x == 1 then ParagraphClass else if x == 2 then InlinersClass else TextClass
  }

  /** A lone root traces to `<RootNode>`. */
  lemma LoneRootFixture()
    ensures TraceUp(Forest(map[], map[], {0}), Some(0), TestClass, 5) == "<RootNode>"
  {
    var f := Forest(map[], map[], {0});
    LoneRootLines(f);
    TrimPad("", "<RootNode>", "");
    assert "" + "<RootNode>" + "" == "<RootNode>";
  }

  lemma LoneRootLines(f: Forest)
    requires f == Forest(map[], map[], {0})
    ensures Join(UpLines(f, 0, TestClass, 5), "\n") == "<RootNode>"
  {
    assert WalkUp(f, 0, NoStop, 5) == [];
    assert Ancestry(f, 0, 5) == [0];
    UpLinesSpec(f, 0, TestClass, 5);
    assert Spaces(0) + Label(RootClass) == "<RootNode>";
  }

  /** The expected lines below the top line in both nested traces. */
  const NestedBelow := [Spaces(2) + "ParagraphNode", Spaces(4) + "<InlinersNode>", Spaces(6) + "TextNode"]

  /** The nested trace lines, whatever the top line. */
  lemma NestedLines(ls: seq<string>, top: string)
    requires |ls| == 4 && ls[0] == top
    requires ls[1] == Spaces(2) + Label(ParagraphClass)
    requires ls[2] == Spaces(4) + Label(InlinersClass)
    requires ls[3] == Spaces(6) + Label(TextClass)
    ensures ls == [top] + NestedBelow
  {
    assert Label(InlinersClass) == "<InlinersNode>";
  }

  /** Trimming leaves a trace alone whose first and last characters are
      not whitespace. */
  lemma TrimJoined(top: string, below: seq<string>)
    requires |top| > 0 && !IsWhitespace(top[0]) && |below| > 0
    requires var l := below[|below| - 1]; |l| > 0 && !IsWhitespace(l[|l| - 1])
    ensures Trim(Join([top] + below, "\n")) == Join([top] + below, "\n")
    decreases |below|
  {
    var t := Join([top] + below, "\n");
    Strs.JoinCons(top, below, "\n");
    JoinLast(below);
    assert t == "" + t + "";
    TrimPad("", t, "");
  }

  lemma {:induction false} JoinLast(parts: seq<string>)
    requires |parts| > 0
    ensures var j := Join(parts, "\n"); var l := parts[|parts| - 1];
            |j| >= |l| && j[|j| - |l|..] == l
    decreases |parts|
  {
    if |parts| > 1 {
      JoinLast(parts[1..]);
    }
  }

  /** The text of a paragraph under a root traces to the four nested lines
      of the test; without the root link the trace starts with
      `!NO_PARENT!`. */
  lemma NestedTraceFixture()
    ensures TraceUp(Forest(map[0 := [1], 2 := [3]], map[1 := 0, 2 := 1, 3 := 2], {0, 2}), Some(3), TestClass, 5)
            == Join(["<RootNode>"] + NestedBelow, "\n")
  {
    var f := Forest(map[0 := [1], 2 := [3]], map[1 := 0, 2 := 1, 3 := 2], {0, 2});
    assert WalkUp(f, 3, NoStop, 5) == [2, 1, 0];
    var a := Ancestry(f, 3, 5);
    assert a == [0, 1, 2, 3];
    UpLinesSpec(f, 3, TestClass, 5);
    var ls := UpLines(f, 3, TestClass, 5);
    assert ls[0] == "<RootNode>" by {
      assert ls[0] == Spaces(0) + Label(RootClass);
    }
    NestedLines(ls, "<RootNode>");
    TrimJoined("<RootNode>", NestedBelow);
    assert TraceUp(f, Some(3), TestClass, 5) == Trim(Join(ls, "\n"));
  }

  lemma NoParentFixture()
    ensures TraceUp(Forest(map[2 := [3]], map[2 := 1, 3 := 2], {2}), Some(3), TestClass, 5)
            == Join(["!NO_PARENT!"] + NestedBelow, "\n")
  {
    var f := Forest(map[2 := [3]], map[2 := 1, 3 := 2], {2});
    assert WalkUp(f, 3, NoStop, 5) == [2, 1];
    var a := Ancestry(f, 3, 5);
    assert a == [1, 2, 3];
    UpLinesSpec(f, 3, TestClass, 5);
    var ls := UpLines(f, 3, TestClass, 5);
    NestedLines(ls, "!NO_PARENT!");
    TrimJoined("!NO_PARENT!", NestedBelow);
    assert TraceUp(f, Some(3), TestClass, 5) == Trim(Join(ls, "\n"));
  }
}
