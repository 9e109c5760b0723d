/** The traversals of `walk.ts` over the node forest. A step callback is
    modelled by the predicate `halts`, true exactly where the callback
    returns `false`; the traversal result is the list of nodes the callback
    was called on, in call order. The source loops have no bound (a cyclic
    `next` function or child graph never ends), so each traversal here
    carries a fuel bound. */
module Walk {
  import opened Wrappers
  import opened Dom

  /** The `parent` reference of `n`, if any. */
  function ParentOf(f: Forest, n: NodeId): Option<NodeId> {
    if n in f.parent then Some(f.parent[n]) else None
  }

  /** `children[i]` of a JavaScript array: `undefined` outside the bounds. */
  function At(s: seq<NodeId>, i: int): (r: Option<NodeId>)
    ensures r.Some? <==> 0 <= i < |s|
    ensures r.Some? ==> r.value == s[i]
  {
    if 0 <= i < |s| then Some(s[i]) else None
  }

  /** `next(from)`: the entry after `from` in its parent's child list;
      nothing when there is no parent or the parent's `children` is
      `undefined`. A node its parent does not list has index -1, so it gets
      the first child. */
  function Next(f: Forest, n: NodeId): Option<NodeId> {
    if n !in f.parent || f.parent[n] !in f.kids then None
    else
      var L := f.kids[f.parent[n]];
      At(L, IndexOf(L, n) + 1)
  }

  /** `previous(from)`: the entry before `from`, by the same lookup. */
  function Previous(f: Forest, n: NodeId): Option<NodeId> {
    if n !in f.parent || f.parent[n] !in f.kids then None
    else
      var L := f.kids[f.parent[n]];
      At(L, IndexOf(L, n) - 1)
  }

  /** Siblings of a listed node: `next` and `previous` are the neighbours
      at index plus and minus one, and nothing past either end. */
  lemma {:induction false} NeighbourSpec(f: Forest, p: NodeId, i: nat)
    requires p in f.kids && i < |f.kids[p]| && Distinct(f.kids[p])
    requires f.kids[p][i] in f.parent && f.parent[f.kids[p][i]] == p
    ensures var L := f.kids[p];
            (i + 1 < |L| ==> Next(f, L[i]) == Some(L[i + 1]))
            && (i + 1 == |L| ==> Next(f, L[i]) == None)
            && (i > 0 ==> Previous(f, L[i]) == Some(L[i - 1]))
            && (i == 0 ==> Previous(f, L[i]) == None)
  {
    IndexOfDistinct(f.kids[p], i);
  }

  /** Without a parent, or when the parent has no `children`, there is no
      neighbour in either direction. */
  lemma NoNeighbours(f: Forest, n: NodeId)
    requires n !in f.parent || f.parent[n] !in f.kids
    ensures Next(f, n) == None && Previous(f, n) == None
  {
  }

  /** `nx` applied `k` times from `x`, stopping at the first `undefined`. */
  function Iterate(nx: NodeId -> Option<NodeId>, x: NodeId, k: nat): Option<NodeId>
    decreases k
  {
    if k == 0 then Some(x)
    else match nx(x)
      case None => None
      case Some(y) => Iterate(nx, y, k - 1)
  }

  /** `walk(from, next, step)`: the nodes handed to `step`, at most `fuel`
      of them. */
  function Walk(from: NodeId, nx: NodeId -> Option<NodeId>, halts: NodeId -> bool, fuel: nat): seq<NodeId>
    decreases fuel
  {
    if fuel == 0 then []
    else match nx(from)
      case None => []
      case Some(c) => if halts(c) then [c] else [c] + Walk(c, nx, halts, fuel - 1)
  }

  /** The k-th visit is the (k+1)-th iterate of `nx`; every visit but the
      last let the walk go on; and, unless the fuel ran out, the walk ended
      at a step returning `false` or at an `undefined` successor. */
  lemma {:induction false} WalkSpec(from: NodeId, nx: NodeId -> Option<NodeId>, halts: NodeId -> bool, fuel: nat)
    ensures var r := Walk(from, nx, halts, fuel);
            |r| <= fuel
            && (forall k :: 0 <= k < |r| ==> Iterate(nx, from, k + 1) == Some(r[k]))
            && (forall k :: 0 <= k < |r| - 1 ==> !halts(r[k]))
            && (|r| < fuel ==> (|r| > 0 && halts(r[|r| - 1])) || Iterate(nx, from, |r| + 1) == None)
    decreases fuel
  {
    if fuel > 0 && nx(from).Some? {
      var c := nx(from).value;
      if !halts(c) {
        WalkSpec(c, nx, halts, fuel - 1);
        var w := Walk(c, nx, halts, fuel - 1);
        var r := [c] + w;
        assert Walk(from, nx, halts, fuel) == r;
        forall k | 0 <= k < |r| ensures Iterate(nx, from, k + 1) == Some(r[k]) {
          if k > 0 { assert r[k] == w[k - 1]; }
        }
        forall k | 0 <= k < |r| - 1 ensures !halts(r[k]) {
          if k > 0 { assert r[k] == w[k - 1]; }
        }
      }
    }
  }

  /** One step of `walk`: the successor is visited, and the walk goes on
      from it unless its step returns `false`. */
  lemma WalkStep(from: NodeId, nx: NodeId -> Option<NodeId>, halts: NodeId -> bool, fuel: nat, c: NodeId)
    requires fuel > 0 && nx(from) == Some(c)
    ensures Walk(from, nx, halts, fuel) == if halts(c) then [c] else [c] + Walk(c, nx, halts, fuel - 1)
  {
  }

  lemma ThroughCons(x: NodeId, s: seq<NodeId>, halts: NodeId -> bool)
    ensures Through([x] + s, halts) == if halts(x) then [x] else [x] + Through(s, halts)
    ensures AnyHalts([x] + s, halts) <==> halts(x) || AnyHalts(s, halts)
  {
    assert ([x] + s)[1..] == s;
  }

  /** `walkUp(from, step)`: `walk` along `parent`. */
  function WalkUp(f: Forest, from: NodeId, halts: NodeId -> bool, fuel: nat): seq<NodeId> {
    Walk(from, (x: NodeId) => ParentOf(f, x), halts, fuel)
  }

  /** `walkForward(from, step)`: `walk` along `next`. */
  function WalkForward(f: Forest, from: NodeId, halts: NodeId -> bool, fuel: nat): seq<NodeId> {
    Walk(from, (x: NodeId) => Next(f, x), halts, fuel)
  }

  /** `walkBackward(from, step)`: `walk` along `previous`. */
  function WalkBackward(f: Forest, from: NodeId, halts: NodeId -> bool, fuel: nat): seq<NodeId> {
    Walk(from, (x: NodeId) => Previous(f, x), halts, fuel)
  }

  /** `walkUp` visits the strict ancestors, nearest first: the first visit
      is the parent of `from`, each later one the parent of the one before;
      only the last may stop the walk; and with fuel to spare the walk ends
      at a stopping step or at a parentless node. */
  lemma {:induction false} WalkUpSpec(f: Forest, from: NodeId, halts: NodeId -> bool, fuel: nat)
    ensures var r := WalkUp(f, from, halts, fuel);
            (|r| > 0 ==> from in f.parent && r[0] == f.parent[from])
            && (forall k :: 0 <= k < |r| - 1 ==> r[k] in f.parent && r[k + 1] == f.parent[r[k]])
            && (forall k :: 0 <= k < |r| - 1 ==> !halts(r[k]))
            && (|r| < fuel && (|r| == 0 || !halts(r[|r| - 1])) ==>
                  (if |r| == 0 then from else r[|r| - 1]) !in f.parent)
    decreases fuel
  {
    var nx := (x: NodeId) => ParentOf(f, x);
    if fuel > 0 && from in f.parent {
      var c := f.parent[from];
      assert nx(from) == Some(c);
      if !halts(c) {
        WalkUpSpec(f, c, halts, fuel - 1);
      }
    }
  }

  /** A walk along a list whose successor function steps from each entry
      to the next and ends after the last visits the entries after the
      start, up to the first stopping one. */
  lemma {:induction false} WalkAlong(L: seq<NodeId>, i: nat, nx: NodeId -> Option<NodeId>, halts: NodeId -> bool, fuel: nat)
    requires i < |L| && fuel >= |L| - i - 1
    requires forall j :: 0 <= j < |L| - 1 ==> nx(L[j]) == Some(L[j + 1])
    requires nx(L[|L| - 1]) == None
    ensures Walk(L[i], nx, halts, fuel) == Through(L[i + 1..], halts)
    decreases |L| - i
  {
    if i + 1 < |L| {
      WalkStep(L[i], nx, halts, fuel, L[i + 1]);
      ThroughCons(L[i + 1], L[i + 2..], halts);
      assert L[i + 1..] == [L[i + 1]] + L[i + 2..];
      if !halts(L[i + 1]) {
        WalkAlong(L, i + 1, nx, halts, fuel - 1);
      }
    } else {
      assert L[i + 1..] == [];
    }
  }

  /** `walkForward` from the entry at `i` of a group's list visits the
      later entries in order, ending early exactly at the first stopping
      step. */
  lemma {:induction false} WalkForwardSpec(f: Forest, p: NodeId, i: nat, halts: NodeId -> bool, fuel: nat)
    requires Consistent(f) && p in f.kids && p in f.groups && i < |f.kids[p]|
    requires fuel >= |f.kids[p]| - i - 1
    ensures WalkForward(f, f.kids[p][i], halts, fuel) == Through(f.kids[p][i + 1..], halts)
  {
    var L := f.kids[p];
    var nx := (x: NodeId) => Next(f, x);
    forall j | 0 <= j < |L| ensures nx(L[j]) == if j + 1 < |L| then Some(L[j + 1]) else None {
      GroupNeighbours(f, p, j);
    }
    WalkAlong(L, i, nx, halts, fuel);
  }

  /** `walkBackward` from the entry at `i` visits the earlier entries,
      nearest first, ending early exactly at the first stopping step. */
  lemma {:induction false} WalkBackwardSpec(f: Forest, p: NodeId, i: nat, halts: NodeId -> bool, fuel: nat)
    requires Consistent(f) && p in f.kids && p in f.groups && i < |f.kids[p]|
    requires fuel >= i
    ensures WalkBackward(f, f.kids[p][i], halts, fuel) == Through(Reverse(f.kids[p][..i]), halts)
  {
    var L := f.kids[p];
    var R := Reverse(L);
    var nx := (x: NodeId) => Previous(f, x);
    forall j | 0 <= j < |R| ensures nx(R[j]) == if j + 1 < |R| then Some(R[j + 1]) else None {
      GroupNeighbours(f, p, |L| - 1 - j);
    }
    WalkAlong(R, |L| - 1 - i, nx, halts, fuel);
    ReverseSuffix(L, i);
  }

  lemma {:induction false} GroupNeighbours(f: Forest, p: NodeId, j: nat)
    requires Consistent(f) && p in f.kids && p in f.groups && j < |f.kids[p]|
    ensures var L := f.kids[p];
            Next(f, L[j]) == (if j + 1 < |L| then Some(L[j + 1]) else None)
            && Previous(f, L[j]) == (if j > 0 then Some(L[j - 1]) else None)
  {
    NeighbourSpec(f, p, j);
  }

  lemma {:induction false} ReverseSuffix(L: seq<NodeId>, i: nat)
    requires i < |L|
    ensures Reverse(L)[|L| - i..] == Reverse(L[..i])
  {
  }

  function Reverse(s: seq<NodeId>): (r: seq<NodeId>)
    ensures |r| == |s|
    ensures forall k :: 0 <= k < |s| ==> r[k] == s[|s| - 1 - k]
  {
    if |s| == 0 then [] else [s[|s| - 1]] + Reverse(s[..|s| - 1])
  }

  /** Whether some node of `s` stops a walk. */
  predicate AnyHalts(s: seq<NodeId>, halts: NodeId -> bool)
    decreases |s|
  {
    |s| > 0 && (halts(s[0]) || AnyHalts(s[1..], halts))
  }

  lemma {:induction false} AnyHaltsSpec(s: seq<NodeId>, halts: NodeId -> bool)
    ensures AnyHalts(s, halts) <==> exists k :: 0 <= k < |s| && halts(s[k])
    decreases |s|
  {
    if |s| > 0 {
      AnyHaltsSpec(s[1..], halts);
      if exists k :: 0 <= k < |s| && halts(s[k]) {
        var k :| 0 <= k < |s| && halts(s[k]);
        if k > 0 { assert s[1..][k - 1] == s[k]; }
      }
      if exists k :: 0 <= k < |s[1..]| && halts(s[1..][k]) {
        var k :| 0 <= k < |s[1..]| && halts(s[1..][k]);
        assert s[k + 1] == s[1..][k];
      }
    }
  }

  /** The visits a walk over `s` makes: `s` up to and including its first
      stopping node, or all of `s` when none stops. */
  function Through(s: seq<NodeId>, halts: NodeId -> bool): seq<NodeId>
    decreases |s|
  {
    if |s| == 0 then []
    else if halts(s[0]) then [s[0]]
    else [s[0]] + Through(s[1..], halts)
  }

  /** `Through` keeps a prefix of `s`. */
  lemma {:induction false} ThroughPrefix(s: seq<NodeId>, halts: NodeId -> bool)
    ensures var r := Through(s, halts);
            |r| <= |s| && r == s[..|r|]
    decreases |s|
  {
    if |s| > 0 && !halts(s[0]) {
      ThroughPrefix(s[1..], halts);
    }
  }

  /** The prefix ends at a stopping node exactly when `s` holds one, and
      no earlier node in it stops. */
  lemma {:induction false} ThroughStops(s: seq<NodeId>, halts: NodeId -> bool)
    ensures var r := Through(s, halts);
            (AnyHalts(s, halts) <==> |r| > 0 && halts(r[|r| - 1]))
            && (forall k :: 0 <= k < |r| - 1 ==> !halts(r[k]))
    decreases |s|
  {
    if |s| > 0 && !halts(s[0]) {
      ThroughStops(s[1..], halts);
      var t := Through(s[1..], halts);
      var r := [s[0]] + t;
      assert |t| > 0 ==> r[|r| - 1] == t[|t| - 1];
      forall k | 0 <= k < |r| - 1 ensures !halts(r[k]) {
        if k > 0 { assert r[k] == t[k - 1]; }
      }
    }
  }

  /** With no stopping node, `Through` is all of `s`. */
  lemma {:induction false} ThroughNone(s: seq<NodeId>, halts: NodeId -> bool)
    ensures !AnyHalts(s, halts) ==> Through(s, halts) == s
    decreases |s|
  {
    if |s| > 0 {
      ThroughNone(s[1..], halts);
      assert [s[0]] + s[1..] == s;
    }
  }

  lemma {:induction false} ThroughAppend(s: seq<NodeId>, t: seq<NodeId>, halts: NodeId -> bool)
    ensures Through(s + t, halts) == if AnyHalts(s, halts) then Through(s, halts) else s + Through(t, halts)
    decreases |s|
  {
    if |s| == 0 {
      assert s + t == t;
    } else {
      assert (s + t)[0] == s[0] && (s + t)[1..] == s[1..] + t;
      if !halts(s[0]) {
        ThroughAppend(s[1..], t, halts);
      }
    }
  }

  /** What `walkDown` leaves behind: the nodes handed to `step`, and
      whether it returned `false`. */
  datatype Outcome = Outcome(visited: seq<NodeId>, stopped: bool)

  /** `walkDown(from, step)`, exploring at most `depth` levels. */
  function WalkDown(f: Forest, from: NodeId, halts: NodeId -> bool, depth: nat): Outcome
    decreases depth, 0
  {
    if depth == 0 then Outcome([], false) else WalkChildren(f, KidsOf(f, from), halts, depth - 1)
  }

  /** The `for … of` loop over one child list. */
  function WalkChildren(f: Forest, cs: seq<NodeId>, halts: NodeId -> bool, depth: nat): Outcome
    decreases depth, |cs|
  {
    if |cs| == 0 then Outcome([], false)
    else if halts(cs[0]) then Outcome([cs[0]], true)
    else
      var a := WalkDown(f, cs[0], halts, depth);
      if a.stopped then Outcome([cs[0]] + a.visited, true)
      else
        var b := WalkChildren(f, cs[1..], halts, depth);
        Outcome([cs[0]] + a.visited + b.visited, b.stopped)
  }

  /** The descendants of `n` in left-to-right pre-order, `depth` levels deep. */
  function PreOrder(f: Forest, n: NodeId, depth: nat): seq<NodeId>
    decreases depth, 0
  {
    if depth == 0 then [] else PreOrderAll(f, KidsOf(f, n), depth - 1)
  }

  function PreOrderAll(f: Forest, cs: seq<NodeId>, depth: nat): seq<NodeId>
    decreases depth, |cs|
  {
    if |cs| == 0 then []
    else [cs[0]] + PreOrder(f, cs[0], depth) + PreOrderAll(f, cs[1..], depth)
  }

  /** `walkDown` visits the descendants in pre-order up to and including
      the first node whose step returns `false`, visits nothing after it,
      and returns `false` exactly when such a node exists. */
  lemma {:induction false} WalkDownSpec(f: Forest, from: NodeId, halts: NodeId -> bool, depth: nat)
    ensures var p := PreOrder(f, from, depth);
            WalkDown(f, from, halts, depth) == Outcome(Through(p, halts), AnyHalts(p, halts))
    decreases depth, 0
  {
    if depth > 0 {
      WalkChildrenSpec(f, KidsOf(f, from), halts, depth - 1);
    }
  }

  lemma {:induction false} WalkChildrenSpec(f: Forest, cs: seq<NodeId>, halts: NodeId -> bool, depth: nat)
    ensures var p := PreOrderAll(f, cs, depth);
            WalkChildren(f, cs, halts, depth) == Outcome(Through(p, halts), AnyHalts(p, halts))
    decreases depth, |cs|
  {
    if |cs| > 0 {
      var c := cs[0];
      var d := PreOrder(f, c, depth);
      var rest := PreOrderAll(f, cs[1..], depth);
      assert PreOrderAll(f, cs, depth) == [c] + (d + rest);
      if !halts(c) {
        WalkDownSpec(f, c, halts, depth);
        WalkChildrenSpec(f, cs[1..], halts, depth);
        CombineVisits(c, d, rest, WalkDown(f, c, halts, depth), WalkChildren(f, cs[1..], halts, depth), halts);
      } else {
        ThroughCons(c, d + rest, halts);
      }
    }
  }

  lemma {:induction false} CombineVisits(c: NodeId, d: seq<NodeId>, rest: seq<NodeId>, a: Outcome, b: Outcome, halts: NodeId -> bool)
    requires !halts(c)
    requires a == Outcome(Through(d, halts), AnyHalts(d, halts))
    requires b == Outcome(Through(rest, halts), AnyHalts(rest, halts))
    ensures (if a.stopped then Outcome([c] + a.visited, true) else Outcome([c] + a.visited + b.visited, b.stopped))
            == Outcome(Through([c] + (d + rest), halts), AnyHalts([c] + (d + rest), halts))
  {
    ThroughCons(c, d + rest, halts);
    ThroughAppend(d, rest, halts);
    AnyHaltsAppend(d, rest, halts);
    ThroughNone(d, halts);
    assert [c] + d + Through(rest, halts) == [c] + (d + Through(rest, halts));
  }

  lemma {:induction false} AnyHaltsAppend(s: seq<NodeId>, t: seq<NodeId>, halts: NodeId -> bool)
    ensures AnyHalts(s + t, halts) <==> AnyHalts(s, halts) || AnyHalts(t, halts)
    decreases |s|
  {
    if |s| == 0 {
      assert s + t == t;
    } else {
      assert (s + t)[0] == s[0] && (s + t)[1..] == s[1..] + t;
      AnyHaltsAppend(s[1..], t, halts);
    }
  }

  /** The tree root[child1[grandchild1, grandchild2], child2], numbered
      0, 1, 3, 4, 2, built the way the test nodes set `parent`. */
  const TestTree := Forest(map[0 := [1, 2], 1 := [3, 4], 2 := [], 3 := [], 4 := []], map[1 := 0, 2 := 0, 3 := 1, 4 := 1], {})

  /** `walkDown` from the root visits child1, grandchild1, grandchild2,
      child2; when the step returns `false` at child1 it visits only
      child1 and returns `false`. */
  lemma WalkDownFixture()
    ensures WalkDown(TestTree, 0, (x: NodeId) => false, 3) == Outcome([1, 3, 4, 2], false)
    ensures WalkDown(TestTree, 0, (x: NodeId) => x == 1, 3) == Outcome([1], true)
  {
  }

  /** The chain foo <- foo.bar <- foo.bar.baz, numbered 0, 1, 2. */
  const TestChain := Forest(map[], map[1 := 0, 2 := 1], {})

  /** `walkUp` from the leaf visits foo.bar then foo, and stops after
      foo.bar when its step returns `false`. */
  lemma WalkUpFixture()
    ensures WalkUp(TestChain, 2, (x: NodeId) => false, 5) == [1, 0]
    ensures WalkUp(TestChain, 2, (x: NodeId) => x == 1, 5) == [1]
  {
  }

  /** `walk` over the map node1 -> node2 -> node3 from node1 visits node2
      and node3, or only node2 when its step returns `false`. */
  lemma WalkFixture()
    ensures var nx := (x: NodeId) => if x == 1 then Some(2) else if x == 2 then Some(3) else None;
            Walk(1, nx, (x: NodeId) => false, 5) == [2, 3]
            && Walk(1, nx, (x: NodeId) => x == 2, 5) == [2]
  {
  }

  /** root[child1, child2, child3] numbered 0 to 3; node 5 has no parent; node 6
      has parent 7, whose `children` is `undefined`. */
  const TestSiblings := Forest(map[0 := [1, 2, 3]], map[1 := 0, 2 := 0, 3 := 0, 6 := 7], {})

  lemma NextPreviousFixture()
    ensures Next(TestSiblings, 1) == Some(2) && Next(TestSiblings, 3) == None
    ensures Previous(TestSiblings, 2) == Some(1) && Previous(TestSiblings, 1) == None
    ensures Next(TestSiblings, 5) == None && Previous(TestSiblings, 5) == None
    ensures Next(TestSiblings, 6) == None && Previous(TestSiblings, 6) == None
  {
  }

  /** Over root[child1, child2, child3]: forward from child1 visits child2,
      child3; backward from child3 visits child2, child1; a step returning
      `false` at child2 ends either walk there. */
  lemma ForwardFixture()
    ensures WalkForward(TestSiblings, 1, (x: NodeId) => false, 5) == [2, 3]
    ensures WalkForward(TestSiblings, 1, (x: NodeId) => x == 2, 5) == [2]
  {
  }

  lemma BackwardFixture()
    ensures WalkBackward(TestSiblings, 3, (x: NodeId) => false, 5) == [2, 1]
    ensures WalkBackward(TestSiblings, 3, (x: NodeId) => x == 2, 5) == [2]
  {
  }
}
