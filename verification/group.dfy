/** `GroupNode`: a node whose ordered child list the operations below
    rearrange, keeping the children's `parent` references in step. Each
    operation is a function from the forest before to the forest after;
    `g` is the group the method is called on. */
module Group {
  import opened Dom

  /** `detachNode`: remove `n` from its parent's list when that parent is
      a group listing it, then clear `n.parent`. */
  function DetachNode(f: Forest, n: NodeId): (r: Forest)
    ensures n !in r.parent
    ensures r.groups == f.groups && r.kids.Keys == f.kids.Keys
    ensures forall m :: m != n && m in f.parent ==> m in r.parent && r.parent[m] == f.parent[m]
    ensures forall m :: m in r.parent ==> m in f.parent
  {
    var f1 :=
      if n in f.parent && f.parent[n] in f.groups && f.parent[n] in f.kids then
        var p := f.parent[n];
        var i := IndexOf(f.kids[p], n);
        if i != -1 then f.(kids := f.kids[p := Splice(f.kids[p], i, 1, [])]) else f
      else f;
    f1.(parent := f1.parent - {n})
  }

  /** Detaching `n` filters it out of every group list. */
  lemma {:induction false} DetachLists(f: Forest, n: NodeId)
    requires Consistent(f)
    ensures var r := DetachNode(f, n);
            forall h :: h in r.kids ==> r.kids[h] == if h in f.groups then Without(f.kids[h], [n]) else f.kids[h]
  {
    forall h | h in f.kids
      ensures DetachNode(f, n).kids[h] == if h in f.groups then Without(f.kids[h], [n]) else f.kids[h]
    {
      DetachList(f, n, h);
    }
  }

  lemma {:induction false} DetachList(f: Forest, n: NodeId, h: NodeId)
    requires Consistent(f) && h in f.kids
    ensures DetachNode(f, n).kids[h] == if h in f.groups then Without(f.kids[h], [n]) else f.kids[h]
  {
    var L := f.kids[h];
    if h in f.groups && n in L {
      assert f.parent[n] == h;
      var i := IndexOf(L, n);
      assert DetachNode(f, n).kids[h] == Splice(L, i, 1, []);
      RemoveAtIsWithout(L, i);
    } else {
      assert DetachNode(f, n).kids[h] == L;
      if h in f.groups {
        WithoutOne(L, n);
      }
    }
  }

  /** In a consistent forest, detaching `n` filters it out of every group
      list and keeps the forest consistent. */
  lemma {:induction false} DetachSpec(f: Forest, n: NodeId)
    requires Consistent(f)
    ensures var r := DetachNode(f, n);
            Consistent(r)
            && (forall h :: h in r.kids ==> r.kids[h] == if h in f.groups then Without(f.kids[h], [n]) else f.kids[h])
  {
    var r := DetachNode(f, n);
    DetachLists(f, n);
    forall h | h in r.kids && h in r.groups
      ensures Distinct(r.kids[h]) && forall x :: x in r.kids[h] ==> x in r.parent && r.parent[x] == h
    {
      DetachGroup(f, n, h);
    }
  }

  /** One group after `detachNode`: still distinct, still adopted. */
  lemma {:induction false} DetachGroup(f: Forest, n: NodeId, h: NodeId)
    requires Consistent(f) && h in f.kids && h in f.groups
    ensures var r := DetachNode(f, n);
            Distinct(r.kids[h]) && forall x :: x in r.kids[h] ==> x in r.parent && r.parent[x] == h
  {
    DetachList(f, n, h);
    WithoutDistinct(f.kids[h], [n]);
  }

  /** One pass of the `__insertAt` loop body for node `n` at `index`:
      `_children ||= []`, step the index back when `n` sits before it,
      detach `n`, adopt it, splice it in, and step the index on. */
  function InsertStep(f: Forest, g: NodeId, index: int, n: NodeId): (r: (Forest, int))
    ensures r.0.groups == f.groups && r.0.kids.Keys == f.kids.Keys + {g}
    ensures n in r.0.parent && r.0.parent[n] == g
    ensures forall m :: m != n ==> (m in r.0.parent <==> m in f.parent)
    ensures forall m :: m != n && m in f.parent ==> r.0.parent[m] == f.parent[m]
  {
    var cur := KidsOf(f, g);
    var f1 := f.(kids := f.kids[g := cur]);
    var del := IndexOf(cur, n);
    var idx := if del != -1 && del < index then index - 1 else index;
    var f2 := DetachNode(f1, n);
    assert f2.kids.Keys == f.kids.Keys + {g};
    var f3 := f2.(parent := f2.parent[n := g], kids := f2.kids[g := Splice(f2.kids[g], idx, 0, [n])]);
    assert f3.kids.Keys == f2.kids.Keys;
    (f3, idx + 1)
  }

  /** `__insertAt(index, ...nodes)`: the loop over `nodes`. */
  function InsertAt(f: Forest, g: NodeId, index: int, nodes: seq<NodeId>): (r: Forest)
    ensures r.groups == f.groups
    ensures nodes == [] ==> r == f
    ensures nodes != [] ==> r.kids.Keys == f.kids.Keys + {g}
    decreases |nodes|
  {
    if |nodes| == 0 then f
    else
      var (f1, i1) := InsertStep(f, g, index, nodes[0]);
      InsertAt(f1, g, i1, nodes[1..])
  }

  function Min(a: int, b: int): int {
    if a < b then a else b
  }

  /** The index one past `i`, kept as a named term so that forest-level
      facts about `InsertAt`/`Move` at that index line up syntactically. */
  function Succ(i: int): int {
    i + 1
  }

  /** The index of the target at `ti` once the node at `mi` is taken out. */
  function Shifted(mi: int, ti: int): int {
    if mi < ti then ti - 1 else ti
  }

  /** The list after one step: `n` sits where the index points once `n`
      itself is filtered out of the list, and the forest stays
      consistent. */
  lemma {:induction false} InsertStepSpec(f: Forest, g: NodeId, index: int, n: NodeId)
    requires Consistent(f) && g in f.groups && index >= 0
    ensures var L := KidsOf(f, g);
            var c := Min(index, |L|);
            var (r, i1) := InsertStep(f, g, index, n);
            Consistent(r)
            && r.kids[g] == Without(L[..c], [n]) + [n] + Without(L[c..], [n])
            && i1 >= 0 && Min(i1, |r.kids[g]|) == |Without(L[..c], [n])| + 1
  {
    InsertStepList(f, g, index, n);
    InsertStepConsistent(f, g, index, n);
  }

  lemma {:induction false} OpenGroup(f: Forest, g: NodeId)
    requires Consistent(f)
    ensures Consistent(f.(kids := f.kids[g := KidsOf(f, g)]))
  {
  }

  lemma {:induction false} InsertStepList(f: Forest, g: NodeId, index: int, n: NodeId)
    requires Consistent(f) && g in f.groups && index >= 0
    ensures var L := KidsOf(f, g);
            var c := Min(index, |L|);
            var (r, i1) := InsertStep(f, g, index, n);
            r.kids[g] == Without(L[..c], [n]) + [n] + Without(L[c..], [n])
            && i1 >= 0 && Min(i1, |r.kids[g]|) == |Without(L[..c], [n])| + 1
  {
    var L := KidsOf(f, g);
    var c := Min(index, |L|);
    var f1 := f.(kids := f.kids[g := L]);
    OpenGroup(f, g);
    var f2 := DetachNode(f1, n);
    DetachList(f1, n, g);
    var a := Without(L[..c], [n]);
    var b := Without(L[c..], [n]);
    SplitWithout(L, c, n, a, b);
    var del := IndexOf(L, n);
    var idx := if del != -1 && del < index then index - 1 else index;
    StepPosition(L, n, index, c, del, idx, a, b);
    InsertStepUnfold(f, g, index, n, f2, idx);
    SpliceOne(a + b, idx, n, |a|);
    assert (a + b)[..|a|] == a && (a + b)[|a|..] == b;
  }

  lemma {:induction false} InsertStepConsistent(f: Forest, g: NodeId, index: int, n: NodeId)
    requires Consistent(f) && g in f.groups && index >= 0
    ensures Consistent(InsertStep(f, g, index, n).0)
  {
    var L := KidsOf(f, g);
    var c := Min(index, |L|);
    var f1 := f.(kids := f.kids[g := L]);
    OpenGroup(f, g);
    var f2 := DetachNode(f1, n);
    DetachSpec(f1, n);
    var a := Without(L[..c], [n]);
    var b := Without(L[c..], [n]);
    SplitWithout(L, c, n, a, b);
    var del := IndexOf(L, n);
    var idx := if del != -1 && del < index then index - 1 else index;
    StepPosition(L, n, index, c, del, idx, a, b);
    InsertStepUnfold(f, g, index, n, f2, idx);
    SpliceOne(a + b, idx, n, |a|);
    assert (a + b)[..|a|] == a && (a + b)[|a|..] == b;
    AdoptConsistent(f2, g, n, a, b, InsertStep(f, g, index, n).0);
  }

  /** A step leaves the other lists filtered by `n`. */
  lemma {:induction false} InsertStepOthers(f: Forest, g: NodeId, index: int, n: NodeId, h: NodeId)
    requires Consistent(f) && h in f.kids && h != g
    ensures InsertStep(f, g, index, n).0.kids[h] == if h in f.groups then Without(f.kids[h], [n]) else f.kids[h]
  {
    var f1 := f.(kids := f.kids[g := KidsOf(f, g)]);
    OpenGroup(f, g);
    DetachList(f1, n, h);
  }

  /** `InsertStep` in terms of the forest after the detach. */
  lemma {:induction false} InsertStepUnfold(f: Forest, g: NodeId, index: int, n: NodeId, f2: Forest, idx: int)
    requires f2 == DetachNode(f.(kids := f.kids[g := KidsOf(f, g)]), n)
    requires var del := IndexOf(KidsOf(f, g), n);
             idx == if del != -1 && del < index then index - 1 else index
    ensures g in f2.kids
    ensures InsertStep(f, g, index, n)
            == (f2.(parent := f2.parent[n := g], kids := f2.kids[g := Splice(f2.kids[g], idx, 0, [n])]), idx + 1)
  {
  }

  lemma {:induction false} SpliceOne(s: seq<NodeId>, start: int, x: NodeId, k: nat)
    requires k == SpliceStart(start, |s|)
    ensures Splice(s, start, 0, [x]) == s[..k] + [x] + s[k..]
  {
    var r := Splice(s, start, 0, [x]);
    assert r == r[..k] + r[k..k + 1] + r[k + 1..];
  }

  lemma {:induction false} SplitWithout(L: seq<NodeId>, c: nat, n: NodeId, a: seq<NodeId>, b: seq<NodeId>)
    requires Distinct(L) && c <= |L|
    requires a == Without(L[..c], [n]) && b == Without(L[c..], [n])
    ensures a + b == Without(L, [n]) && Distinct(a + b) && n !in a && n !in b
  {
    assert L == L[..c] + L[c..];
    WithoutAppend(L[..c], L[c..], [n]);
    WithoutDistinct(L, [n]);
  }

  /** Adopting `n` into `g` at the filtered position keeps the forest
      consistent. */
  lemma {:induction false} AdoptConsistent(f2: Forest, g: NodeId, n: NodeId, a: seq<NodeId>, b: seq<NodeId>, r: Forest)
    requires Consistent(f2) && g in f2.groups && g in f2.kids && n !in f2.parent
    requires f2.kids[g] == a + b && n !in a && n !in b
    requires r.groups == f2.groups && r.parent == f2.parent[n := g] && r.kids == f2.kids[g := a + [n] + b]
    ensures Consistent(r)
  {
    DistinctInsert(a, b, n);
  }

  /** Where the spliced node lands: right after the filtered prefix. */
  lemma {:induction false} StepPosition(L: seq<NodeId>, n: NodeId, index: int, c: nat, del: int, idx: int,
                     a: seq<NodeId>, b: seq<NodeId>)
    requires Distinct(L) && index >= 0 && c == Min(index, |L|)
    requires del == IndexOf(L, n) && idx == (if del != -1 && del < index then index - 1 else index)
    requires a == Without(L[..c], [n]) && b == Without(L[c..], [n])
    ensures idx >= 0 && SpliceStart(idx, |a| + |b|) == |a|
  {
    DistinctSlices(L, c);
    if del == -1 {
      WithoutOne(L[..c], n);
      WithoutOne(L[c..], n);
    } else if del < index {
      PositionBefore(L, n, c, del);
    } else {
      PositionAfter(L, n, c, del);
    }
  }

  lemma {:induction false} PositionBefore(L: seq<NodeId>, n: NodeId, c: nat, del: nat)
    requires Distinct(L) && c <= |L| && del < c && del < |L| && L[del] == n
    ensures |Without(L[..c], [n])| == c - 1 && |Without(L[c..], [n])| == |L| - c
  {
    DistinctSlices(L, c);
    assert L[..c][del] == n;
    WithoutOne(L[..c], n);
    WithoutOne(L[c..], n);
  }

  lemma {:induction false} PositionAfter(L: seq<NodeId>, n: NodeId, c: nat, del: nat)
    requires Distinct(L) && c <= del < |L| && L[del] == n
    ensures Without(L[..c], [n]) == L[..c] && |Without(L[c..], [n])| == |L| - c - 1
  {
    DistinctSlices(L, c);
    assert L[c..][del - c] == n;
    WithoutOne(L[..c], n);
    WithoutOne(L[c..], n);
  }

  /** `__insertAt` with distinct nodes and a non-negative index: the
      nodes end up contiguous and in argument order, at the index clamped
      to the end and counted among the children that stay. */
  lemma {:induction false} InsertAtList(f: Forest, g: NodeId, index: int, nodes: seq<NodeId>)
    requires Consistent(f) && g in f.groups && index >= 0 && Distinct(nodes) && |nodes| > 0
    ensures var L := KidsOf(f, g);
            var c := Min(index, |L|);
            InsertAt(f, g, index, nodes).kids[g] == Without(L[..c], nodes) + nodes + Without(L[c..], nodes)
    decreases |nodes|
  {
    var L := KidsOf(f, g);
    var c := Min(index, |L|);
    var n := nodes[0];
    var rest := nodes[1..];
    assert nodes == [n] + rest;
    var (f1, i1) := InsertStep(f, g, index, n);
    InsertStepSpec(f, g, index, n);
    var a := Without(L[..c], [n]);
    var b := Without(L[c..], [n]);
    if |rest| == 0 {
      assert nodes == [n];
    } else {
      DistinctTail(nodes);
      InsertAtList(f1, g, i1, rest);
      assert InsertAt(f, g, index, nodes) == InsertAt(f1, g, i1, rest);
      CombineLists(L[..c], L[c..], n, rest, f1.kids[g], Min(i1, |f1.kids[g]|),
                   InsertAt(f1, g, i1, rest).kids[g]);
    }
  }

  /** `__insertAt` keeps the forest consistent, adopts every inserted
      node and leaves every other node's parent alone. */
  lemma {:induction false} InsertAtParents(f: Forest, g: NodeId, index: int, nodes: seq<NodeId>)
    requires Consistent(f) && g in f.groups && index >= 0 && Distinct(nodes)
    ensures var r := InsertAt(f, g, index, nodes);
            Consistent(r)
            && (forall n :: n in nodes ==> n in r.parent && r.parent[n] == g)
            && (forall m :: m !in nodes ==> (m in r.parent <==> m in f.parent))
            && (forall m :: m !in nodes && m in f.parent ==> r.parent[m] == f.parent[m])
    decreases |nodes|
  {
    if |nodes| > 0 {
      var n := nodes[0];
      var (f1, i1) := InsertStep(f, g, index, n);
      InsertStepSpec(f, g, index, n);
      DistinctTail(nodes);
      InsertAtParents(f1, g, i1, nodes[1..]);
      assert forall x :: x in nodes <==> x == n || x in nodes[1..];
    }
  }

  /** Every other group loses the inserted nodes and nothing else. */
  lemma {:induction false} InsertAtOther(f: Forest, g: NodeId, index: int, nodes: seq<NodeId>, h: NodeId)
    requires Consistent(f) && g in f.groups && index >= 0 && Distinct(nodes) && h in f.kids && h != g
    ensures InsertAt(f, g, index, nodes).kids[h] == if h in f.groups then Without(f.kids[h], nodes) else f.kids[h]
    decreases |nodes|
  {
    if |nodes| == 0 {
      if h in f.groups {
        WithoutNothing(f.kids[h], nodes);
      }
    } else {
      var n := nodes[0];
      var (f1, i1) := InsertStep(f, g, index, n);
      InsertStepSpec(f, g, index, n);
      InsertStepOthers(f, g, index, n, h);
      DistinctTail(nodes);
      InsertAtOther(f1, g, i1, nodes[1..], h);
      if h in f.groups {
        WithoutTwice(f.kids[h], [n], nodes[1..]);
        assert [n] + nodes[1..] == nodes;
      }
    }
  }

  lemma {:induction false} CombineLists(lo: seq<NodeId>, hi: seq<NodeId>, n: NodeId, rest: seq<NodeId>,
                     L1: seq<NodeId>, c1: nat, R: seq<NodeId>)
    requires n !in rest
    requires L1 == Without(lo, [n]) + [n] + Without(hi, [n]) && c1 == |Without(lo, [n])| + 1
    requires R == Without(L1[..c1], rest) + rest + Without(L1[c1..], rest)
    ensures R == Without(lo, [n] + rest) + ([n] + rest) + Without(hi, [n] + rest)
  {
    var A := Without(lo, [n]);
    var B := Without(hi, [n]);
    SliceHalves(A, n, B, L1, c1);
    ComposeWithout(lo, n, rest);
    WithoutTwice(hi, [n], rest);
    Regroup(Without(lo, [n] + rest), n, rest, Without(hi, [n] + rest), R);
  }

  lemma {:induction false} SliceHalves(A: seq<NodeId>, n: NodeId, B: seq<NodeId>, L1: seq<NodeId>, c1: nat)
    requires L1 == A + [n] + B && c1 == |A| + 1
    ensures L1[..c1] == A + [n] && L1[c1..] == B
  {
  }

  lemma {:induction false} Regroup(X: seq<NodeId>, n: NodeId, rest: seq<NodeId>, Y: seq<NodeId>, R: seq<NodeId>)
    requires R == (X + [n]) + rest + Y
    ensures R == X + ([n] + rest) + Y
  {
  }

  /** Filtering `n` then the rest, with `n` put back at one end, is
      filtering by all the nodes. */
  lemma {:induction false} ComposeWithout(x: seq<NodeId>, n: NodeId, rest: seq<NodeId>)
    requires n !in rest
    ensures Without(Without(x, [n]) + [n], rest) == Without(x, [n] + rest) + [n]
  {
    WithoutTwice(x, [n], rest);
    WithoutNothing([n], rest);
    WithoutAppend(Without(x, [n]), [n], rest);
  }

  predicate HasChildren(f: Forest, g: NodeId) {
    |KidsOf(f, g)| > 0
  }

  predicate IsEmpty(f: Forest, g: NodeId) {
    !HasChildren(f, g)
  }

  /** `__swap(indexA, indexB)`: exchange two positions when both are in
      bounds; otherwise, or without children, nothing changes. */
  function Swap(f: Forest, g: NodeId, a: int, b: int): (r: Forest)
    ensures r.parent == f.parent && r.groups == f.groups
    ensures g in f.kids ==> g in r.kids
    ensures g !in f.kids ==> r == f
  {
    if g !in f.kids then f
    else
      var L := f.kids[g];
      if a < 0 || a >= |L| || b < 0 || b >= |L| then f
      else f.(kids := f.kids[g := L[a := L[b]][b := L[a]]])
  }

  /** A swap only permutes the list, keeps the forest consistent, and
      undoes itself. */
  lemma {:induction false} SwapSpec(f: Forest, g: NodeId, a: int, b: int)
    requires Consistent(f) && g in f.groups && g in f.kids
    ensures var r := Swap(f, g, a, b);
            multiset(r.kids[g]) == multiset(f.kids[g]) && Consistent(r)
            && Swap(r, g, a, b) == f
  {
    var L := f.kids[g];
    if 0 <= a < |L| && 0 <= b < |L| {
      var S := L[a := L[b]][b := L[a]];
      SwapMultiset(L, a, b);
      SwapDistinct(L, a, b);
      ReplaceList(f, g, S);
      SwapInvolution(L, a, b);
    }
  }

  lemma {:induction false} SwapInvolution(L: seq<NodeId>, a: nat, b: nat)
    requires a < |L| && b < |L|
    ensures var S: seq<NodeId> := L[a := L[b]][b := L[a]];
            S[a := S[b]][b := S[a]] == L
  {
  }

  lemma {:induction false} SwapDistinct(L: seq<NodeId>, a: nat, b: nat)
    requires Distinct(L) && a < |L| && b < |L|
    ensures var S: seq<NodeId> := L[a := L[b]][b := L[a]];
            Distinct(S) && forall x :: x in S ==> x in L
  {
    var S: seq<NodeId> := L[a := L[b]][b := L[a]];
    forall i, j | 0 <= i < j < |S| ensures S[i] != S[j] {
      var pi := if i == a then b else if i == b then a else i;
      var pj := if j == a then b else if j == b then a else j;
      assert S[i] == L[pi] && S[j] == L[pj] && pi != pj;
    }
    forall x | x in S ensures x in L {
      var i :| 0 <= i < |S| && S[i] == x;
      var pi := if i == a then b else if i == b then a else i;
      assert S[i] == L[pi];
    }
  }

  lemma {:induction false} SwapMultiset(L: seq<NodeId>, a: nat, b: nat)
    requires a < |L| && b < |L|
    ensures multiset(L[a := L[b]][b := L[a]]) == multiset(L)
  {
    var M := L[a := L[b]];
    assert multiset(M) == multiset(L) - multiset{L[a]} + multiset{L[b]};
    assert M[b] == L[b];
  }

  /** Replacing a group's list by a distinct list of its own members keeps
      the forest consistent. */
  lemma {:induction false} ReplaceList(f: Forest, g: NodeId, S: seq<NodeId>)
    requires Consistent(f) && g in f.groups && g in f.kids
    requires Distinct(S) && forall x :: x in S ==> x in f.kids[g]
    ensures Consistent(f.(kids := f.kids[g := S]))
  {
  }

  /** `__move(indexFrom, indexTo)`: take the node at an in-bounds
      `indexFrom` out and splice it in at `indexTo`, which `splice`
      clamps or counts from the end; otherwise nothing changes. */
  function Move(f: Forest, g: NodeId, from: int, to: int): (r: Forest)
    ensures r.parent == f.parent && r.groups == f.groups
    ensures g in f.kids ==> g in r.kids
    ensures g !in f.kids ==> r == f
  {
    if g !in f.kids || from < 0 || from >= |f.kids[g]| then f
    else
      f.(kids := f.kids[g := MovedList(f.kids[g], from, to)])
  }

  /** The array `__move` leaves: `splice(from, 1)` then
      `splice(to, 0, node)`. */
  function MovedList(L: seq<NodeId>, from: nat, to: int): seq<NodeId>
    requires from < |L|
  {
    Splice(Splice(L, from, 1, []), to, 0, [L[from]])
  }

  /** The moved node ends up at the target position of the list without
      it; the others keep their order. */
  lemma {:induction false} MoveSpec(f: Forest, g: NodeId, from: int, to: int)
    requires Consistent(f) && g in f.groups && g in f.kids && 0 <= from < |f.kids[g]|
    ensures var L := f.kids[g];
            var W := Without(L, [L[from]]);
            var k := SpliceStart(to, |W|);
            var r := Move(f, g, from, to);
            r.kids[g] == W[..k] + [L[from]] + W[k..]
            && multiset(r.kids[g]) == multiset(L) && Consistent(r)
  {
    var L := f.kids[g];
    MoveList(L, from, to);
    var W := Without(L, [L[from]]);
    var k := SpliceStart(to, |W|);
    ReplaceList(f, g, W[..k] + [L[from]] + W[k..]);
  }

  lemma {:induction false} MoveList(L: seq<NodeId>, from: nat, to: int)
    requires Distinct(L) && from < |L|
    ensures var x := L[from];
            var W := Without(L, [x]);
            var k := SpliceStart(to, |W|);
            var R := W[..k] + [x] + W[k..];
            MovedList(L, from, to) == R
            && multiset(R) == multiset(L) && Distinct(R) && (forall y :: y in R ==> y in L)
  {
    var x := L[from];
    var W := Without(L, [x]);
    var k := SpliceStart(to, |W|);
    var R := W[..k] + [x] + W[k..];
    RemovedSplice(L, from, x, W);
    SpliceOne(W, to, x, k);
    MoveMultiset(L, from, x, W, k, R);
    InsertKeepsDistinct(W, k, x, R);
  }

  lemma {:induction false} RemovedSplice(L: seq<NodeId>, from: nat, x: NodeId, W: seq<NodeId>)
    requires Distinct(L) && from < |L| && x == L[from] && W == Without(L, [x])
    ensures Splice(L, from, 1, []) == W && W == L[..from] + L[from + 1..] && x !in W && Distinct(W)
  {
    RemoveAtIsWithout(L, from);
    WithoutDistinct(L, [x]);
  }

  lemma {:induction false} MoveMultiset(L: seq<NodeId>, from: nat, x: NodeId, W: seq<NodeId>, k: nat, R: seq<NodeId>)
    requires from < |L| && x == L[from] && W == L[..from] + L[from + 1..]
    requires k <= |W| && R == W[..k] + [x] + W[k..]
    ensures multiset(R) == multiset(L)
  {
    assert L == L[..from] + [x] + L[from + 1..];
    assert multiset(L) == multiset(L[..from]) + multiset([x]) + multiset(L[from + 1..]);
    assert multiset(W) == multiset(L[..from]) + multiset(L[from + 1..]);
    assert W == W[..k] + W[k..];
    assert multiset(W) == multiset(W[..k]) + multiset(W[k..]);
    assert multiset(R) == multiset(W[..k]) + multiset([x]) + multiset(W[k..]);
    assert multiset(R) == multiset(W) + multiset([x]);
  }

  lemma {:induction false} InsertKeepsDistinct(W: seq<NodeId>, k: nat, x: NodeId, R: seq<NodeId>)
    requires Distinct(W) && x !in W && k <= |W| && R == W[..k] + [x] + W[k..]
    ensures Distinct(R) && forall y :: y in R <==> y == x || y in W
  {
    assert W == W[..k] + W[k..];
    DistinctInsert(W[..k], W[k..], x);
  }

  /** Moving a node to an in-bounds position and back restores the list. */
  lemma {:induction false} MoveBack(f: Forest, g: NodeId, i: int, j: int)
    requires g in f.kids && Distinct(f.kids[g]) && 0 <= i < |f.kids[g]| && 0 <= j < |f.kids[g]|
    ensures Move(Move(f, g, i, j), g, j, i) == f
  {
    var L := f.kids[g];
    MovedBack(L, i, j);
    var r := Move(f, g, i, j);
    assert r.kids[g] == MovedList(L, i, j);
    KidsRestored(f, g, Move(r, g, j, i));
  }

  lemma {:induction false} MovedBack(L: seq<NodeId>, i: nat, j: nat)
    requires Distinct(L) && i < |L| && j < |L|
    ensures j < |MovedList(L, i, j)| && MovedList(MovedList(L, i, j), j, i) == L
  {
    var x := L[i];
    var W := Without(L, [x]);
    RemovedSplice(L, i, x, W);
    MoveList(L, i, j);
    var R := MovedList(L, i, j);
    MoveListBack(L, i, j, W, R);
    MoveList(R, j, i);
  }

  lemma {:induction false} KidsRestored(f: Forest, g: NodeId, r: Forest)
    requires g in f.kids && g in r.kids && r.kids == f.kids[g := r.kids[g]] && r.kids[g] == f.kids[g]
    requires r.parent == f.parent && r.groups == f.groups
    ensures r == f
  {
  }

  lemma {:induction false} MoveListBack(L: seq<NodeId>, i: nat, j: nat, W: seq<NodeId>, R: seq<NodeId>)
    requires Distinct(L) && i < |L| && j < |L|
    requires W == Without(L, [L[i]]) && |W| == |L| - 1 && R == W[..j] + [L[i]] + W[j..]
    ensures j < |R| && R[j] == L[i] && Distinct(R) && Without(R, [R[j]]) == W
    ensures W[..i] + [L[i]] + W[i..] == L
  {
    var x := L[i];
    RemovedSplice(L, i, x, W);
    InsertKeepsDistinct(W, j, x, R);
    TakeBackOut(W, j, x, R);
    PutBack(L, i, x, W);
  }

  lemma {:induction false} TakeBackOut(W: seq<NodeId>, j: nat, x: NodeId, R: seq<NodeId>)
    requires j <= |W| && R == W[..j] + [x] + W[j..] && Distinct(R)
    ensures j < |R| && R[j] == x && Without(R, [R[j]]) == W
  {
    RemoveAtIsWithout(R, j);
    assert R[..j] == W[..j] && R[j + 1..] == W[j..];
    assert W == W[..j] + W[j..];
  }

  lemma {:induction false} PutBack(L: seq<NodeId>, i: nat, x: NodeId, W: seq<NodeId>)
    requires i < |L| && x == L[i] && W == L[..i] + L[i + 1..]
    ensures W[..i] + [x] + W[i..] == L
  {
    assert W[..i] == L[..i] && W[i..] == L[i + 1..];
    assert L == L[..i] + [x] + L[i + 1..];
  }

  /** `detachNode` applied to each node in turn. */
  function DetachAll(f: Forest, ns: seq<NodeId>): (r: Forest)
    ensures r.groups == f.groups && r.kids.Keys == f.kids.Keys
    ensures forall m :: m in r.parent <==> m in f.parent && m !in ns
    ensures forall m :: m in r.parent ==> r.parent[m] == f.parent[m]
    decreases |ns|
  {
    if |ns| == 0 then f
    else
      var r := DetachAll(DetachNode(f, ns[0]), ns[1..]);
      assert forall m :: m in ns <==> m == ns[0] || m in ns[1..];
      r
  }

  lemma {:induction false} DetachAllSpec(f: Forest, ns: seq<NodeId>)
    requires Consistent(f)
    ensures var r := DetachAll(f, ns);
            Consistent(r)
            && forall h :: h in r.kids ==> r.kids[h] == if h in f.groups then Without(f.kids[h], ns) else f.kids[h]
    decreases |ns|
  {
    if |ns| == 0 {
      forall h | h in f.kids && h in f.groups ensures Without(f.kids[h], ns) == f.kids[h] {
        WithoutNothing(f.kids[h], ns);
      }
    } else {
      var f1 := DetachNode(f, ns[0]);
      assert Consistent(f1) && f1.kids.Keys == f.kids.Keys && f1.groups == f.groups
        && forall h :: h in f1.kids ==> f1.kids[h] == if h in f.groups then Without(f.kids[h], [ns[0]]) else f.kids[h]
      by {
        DetachSpec(f, ns[0]);
      }
      DetachAllSpec(f1, ns[1..]);
      forall h | h in f.kids && h in f.groups
        ensures Without(Without(f.kids[h], [ns[0]]), ns[1..]) == Without(f.kids[h], ns)
      {
        WithoutHeadThenRest(f.kids[h], ns);
      }
    }
  }

  lemma {:induction false} WithoutHeadThenRest(L: seq<NodeId>, ns: seq<NodeId>)
    requires |ns| > 0
    ensures Without(Without(L, [ns[0]]), ns[1..]) == Without(L, ns)
  {
    WithoutTwice(L, [ns[0]], ns[1..]);
    assert [ns[0]] + ns[1..] == ns;
  }

  /** `clear()`: detach every child, then leave the children undefined. */
  function Clear(f: Forest, g: NodeId): (r: Forest)
    ensures g !in r.kids && r.groups == f.groups
  {
    var r := DetachAll(f, KidsOf(f, g));
    r.(kids := r.kids - {g})
  }

  /** After `clear()` every former child is parentless, every other node
      keeps its parent, and every other list is untouched. */
  lemma {:induction false} ClearSpec(f: Forest, g: NodeId)
    requires Consistent(f) && g in f.groups
    ensures var r := Clear(f, g);
            Consistent(r)
            && (forall n :: n in KidsOf(f, g) ==> n !in r.parent)
            && (forall m :: m !in KidsOf(f, g) ==> (m in r.parent <==> m in f.parent))
            && (forall m :: m in r.parent ==> r.parent[m] == f.parent[m])
            && (forall h :: h in f.kids && h != g ==> h in r.kids && r.kids[h] == f.kids[h])
  {
    var L := KidsOf(f, g);
    var d := DetachAll(f, L);
    DetachAllSpec(f, L);
    DropKeyConsistent(d, g);
    forall h | h in f.kids && h != g ensures d.kids[h] == f.kids[h] {
      if h in f.groups {
        OtherGroupKept(f, g, h);
      }
    }
  }

  lemma {:induction false} DropKeyConsistent(f: Forest, g: NodeId)
    requires Consistent(f)
    ensures Consistent(f.(kids := f.kids - {g}))
  {
  }

  /** The children of `g` never appear in another group's list. */
  lemma {:induction false} OtherGroupKept(f: Forest, g: NodeId, h: NodeId)
    requires Consistent(f) && g in f.groups && h in f.kids && h in f.groups && h != g
    ensures Without(f.kids[h], KidsOf(f, g)) == f.kids[h]
  {
    forall k | 0 <= k < |f.kids[h]| ensures f.kids[h][k] !in KidsOf(f, g) {
      assert f.parent[f.kids[h][k]] == h;
    }
    WithoutNothing(f.kids[h], KidsOf(f, g));
  }

  /** `setNodes(...nodes)`: clear, then insert the nodes from index 0;
      with no nodes the children stay undefined. */
  function SetNodes(f: Forest, g: NodeId, nodes: seq<NodeId>): (r: Forest)
    ensures nodes == [] ==> g !in r.kids
  {
    var c := Clear(f, g);
    if |nodes| == 0 then c else InsertAt(c, g, 0, nodes)
  }

  lemma {:induction false} SetNodesSpec(f: Forest, g: NodeId, nodes: seq<NodeId>)
    requires Consistent(f) && g in f.groups && Distinct(nodes)
    ensures var r := SetNodes(f, g, nodes);
            Consistent(r)
            && (nodes != [] ==> g in r.kids && r.kids[g] == nodes)
            && (forall n :: n in nodes ==> n in r.parent && r.parent[n] == g)
  {
    var c := Clear(f, g);
    assert Consistent(c) && g !in c.kids by {
      ClearSpec(f, g);
    }
    InsertAtParents(c, g, 0, nodes);
    if |nodes| > 0 {
      FillEmpty(c, g, nodes);
    }
  }

  lemma {:induction false} FillEmpty(f: Forest, g: NodeId, nodes: seq<NodeId>)
    requires Consistent(f) && g in f.groups && g !in f.kids && Distinct(nodes) && nodes != []
    ensures InsertAt(f, g, 0, nodes).kids[g] == nodes
  {
    InsertAtList(f, g, 0, nodes);
    assert KidsOf(f, g) == [];
    WithoutNothing([], nodes);
  }

  /** `prepend(...nodes)`. */
  function Prepend(f: Forest, g: NodeId, nodes: seq<NodeId>): Forest {
    InsertAt(f, g, 0, nodes)
  }

  /** `append(...nodes)`. */
  function Append(f: Forest, g: NodeId, nodes: seq<NodeId>): Forest {
    InsertAt(f, g, |KidsOf(f, g)|, nodes)
  }

  lemma {:induction false} PrependAppendSpec(f: Forest, g: NodeId, nodes: seq<NodeId>)
    requires Consistent(f) && g in f.groups && Distinct(nodes) && nodes != []
    ensures Prepend(f, g, nodes).kids[g] == nodes + Without(KidsOf(f, g), nodes)
    ensures Append(f, g, nodes).kids[g] == Without(KidsOf(f, g), nodes) + nodes
  {
    var L := KidsOf(f, g);
    InsertAtList(f, g, 0, nodes);
    InsertAtList(f, g, |L|, nodes);
    AtEnds(L, nodes, Prepend(f, g, nodes).kids[g], Append(f, g, nodes).kids[g]);
  }

  lemma {:induction false} AtEnds(L: seq<NodeId>, xs: seq<NodeId>, P: seq<NodeId>, A: seq<NodeId>)
    requires P == Without(L[..0], xs) + xs + Without(L[0..], xs)
    requires A == Without(L[..|L|], xs) + xs + Without(L[|L|..], xs)
    ensures P == xs + Without(L, xs) && A == Without(L, xs) + xs
  {
    assert L[..0] == [] && L[0..] == L && L[..|L|] == L && L[|L|..] == [];
  }

  /** `before(node, ...nodes)`: insert at the reference node's index;
      nothing when it is not a child. */
  function Before(f: Forest, g: NodeId, ref: NodeId, nodes: seq<NodeId>): Forest {
    var i := IndexOf(KidsOf(f, g), ref);
    if i == -1 then f else InsertAt(f, g, i, nodes)
  }

  /** `after(node, ...nodes)`: insert just past the reference node. */
  function After(f: Forest, g: NodeId, ref: NodeId, nodes: seq<NodeId>): Forest {
    var i := IndexOf(KidsOf(f, g), ref);
    if i == -1 then f else InsertAt(f, g, Succ(i), nodes)
  }

  /** `before`: the inserted nodes sit right before the reference node,
      and the other children keep their order. */
  lemma {:induction false} BeforeSpec(f: Forest, g: NodeId, ref: NodeId, nodes: seq<NodeId>)
    requires Consistent(f) && g in f.groups && Distinct(nodes) && nodes != []
    requires ref in KidsOf(f, g) && ref !in nodes
    ensures var L := KidsOf(f, g);
            var i := IndexOf(L, ref);
            Before(f, g, ref, nodes).kids[g] == Without(L[..i], nodes) + nodes + [ref] + Without(L[i + 1..], nodes)
  {
    var L := KidsOf(f, g);
    var i := IndexOf(L, ref);
    BeforeAfterUnfold(f, g, ref, nodes);
    InsertWithin(f, g, i, nodes);
    BeforeList(L, i, ref, nodes, InsertAt(f, g, i, nodes).kids[g]);
  }

  /** `after`: the inserted nodes sit right after the reference node. */
  lemma {:induction false} AfterSpec(f: Forest, g: NodeId, ref: NodeId, nodes: seq<NodeId>)
    requires Consistent(f) && g in f.groups && Distinct(nodes) && nodes != []
    requires ref in KidsOf(f, g) && ref !in nodes
    ensures var L := KidsOf(f, g);
            var i := IndexOf(L, ref);
            After(f, g, ref, nodes).kids[g] == Without(L[..i], nodes) + [ref] + nodes + Without(L[i + 1..], nodes)
  {
    var L := KidsOf(f, g);
    var i := IndexOf(L, ref);
    BeforeAfterUnfold(f, g, ref, nodes);
    InsertWithin(f, g, Succ(i), nodes);
    AfterList(L, i, Succ(i), ref, nodes, InsertAt(f, g, Succ(i), nodes).kids[g]);
  }

  lemma {:induction false} BeforeAfterUnfold(f: Forest, g: NodeId, ref: NodeId, nodes: seq<NodeId>)
    requires ref in KidsOf(f, g)
    ensures Before(f, g, ref, nodes) == InsertAt(f, g, IndexOf(KidsOf(f, g), ref), nodes)
    ensures After(f, g, ref, nodes) == InsertAt(f, g, Succ(IndexOf(KidsOf(f, g), ref)), nodes)
  {
  }

  /** `InsertAtList` at an index within the list. */
  lemma {:induction false} InsertWithin(f: Forest, g: NodeId, c: nat, nodes: seq<NodeId>)
    requires Consistent(f) && g in f.groups && c <= |KidsOf(f, g)| && Distinct(nodes) && nodes != []
    ensures var L := KidsOf(f, g);
            InsertAt(f, g, c, nodes).kids[g] == Without(L[..c], nodes) + nodes + Without(L[c..], nodes)
  {
    assert Min(c, |KidsOf(f, g)|) == c;
    InsertAtList(f, g, c, nodes);
  }

  lemma {:induction false} BeforeList(L: seq<NodeId>, i: nat, ref: NodeId, nodes: seq<NodeId>, R: seq<NodeId>)
    requires i < |L| && L[i] == ref && ref !in nodes
    requires R == Without(L[..i], nodes) + nodes + Without(L[i..], nodes)
    ensures R == Without(L[..i], nodes) + nodes + [ref] + Without(L[i + 1..], nodes)
  {
    SplitAtRef(L, i, ref, nodes);
  }

  lemma {:induction false} AfterList(L: seq<NodeId>, i: nat, c: nat, ref: NodeId, nodes: seq<NodeId>, R: seq<NodeId>)
    requires i < |L| && L[i] == ref && ref !in nodes && c == i + 1
    requires R == Without(L[..c], nodes) + nodes + Without(L[c..], nodes)
    ensures R == Without(L[..i], nodes) + [ref] + nodes + Without(L[i + 1..], nodes)
  {
    SplitAtRef(L, i, ref, nodes);
  }

  lemma {:induction false} SplitAtRef(L: seq<NodeId>, i: nat, ref: NodeId, nodes: seq<NodeId>)
    requires i < |L| && L[i] == ref && ref !in nodes
    ensures Without(L[i..], nodes) == [ref] + Without(L[i + 1..], nodes)
    ensures Without(L[..i + 1], nodes) == Without(L[..i], nodes) + [ref]
  {
    assert L[i..] == [ref] + L[i + 1..];
    assert L[..i + 1] == L[..i] + [ref];
    WithoutAppend([ref], L[i + 1..], nodes);
    WithoutAppend(L[..i], [ref], nodes);
    WithoutNothing([ref], nodes);
  }

  /** `replace(node, ...withNodes)`: detach the reference node and insert
      the new nodes at its former index. */
  function Replace(f: Forest, g: NodeId, ref: NodeId, withNodes: seq<NodeId>): Forest {
    var i := IndexOf(KidsOf(f, g), ref);
    if i == -1 then f else InsertAt(DetachNode(f, ref), g, i, withNodes)
  }

  lemma {:induction false} ReplaceSpec(f: Forest, g: NodeId, ref: NodeId, withNodes: seq<NodeId>)
    requires Consistent(f) && g in f.groups && Distinct(withNodes)
    requires ref in KidsOf(f, g) && ref !in withNodes
    ensures var L := KidsOf(f, g);
            var i := IndexOf(L, ref);
            var r := Replace(f, g, ref, withNodes);
            g in r.kids && r.kids[g] == Without(L[..i], withNodes) + withNodes + Without(L[i + 1..], withNodes)
  {
    var L := KidsOf(f, g);
    var i := IndexOf(L, ref);
    var f1 := DetachNode(f, ref);
    var L1 := L[..i] + L[i + 1..];
    ReplaceDetach(f, g, ref, i, L1);
    ReplaceUnfold(f, g, ref, withNodes);
    ReplaceInsert(f1, g, i, L, L1, withNodes);
  }

  lemma {:induction false} ReplaceUnfold(f: Forest, g: NodeId, ref: NodeId, withNodes: seq<NodeId>)
    requires ref in KidsOf(f, g)
    ensures Replace(f, g, ref, withNodes) == InsertAt(DetachNode(f, ref), g, IndexOf(KidsOf(f, g), ref), withNodes)
  {
  }

  lemma {:induction false} ReplaceDetach(f: Forest, g: NodeId, ref: NodeId, i: int, L1: seq<NodeId>)
    requires Consistent(f) && g in f.groups && ref in KidsOf(f, g)
    requires i == IndexOf(KidsOf(f, g), ref) && L1 == KidsOf(f, g)[..i] + KidsOf(f, g)[i + 1..]
    ensures var f1 := DetachNode(f, ref);
            Consistent(f1) && g in f1.groups && g in f1.kids && f1.kids[g] == L1
  {
    DetachSpec(f, ref);
    RemoveAtIsWithout(KidsOf(f, g), i);
  }

  lemma {:induction false} ReplaceInsert(f1: Forest, g: NodeId, i: nat, L: seq<NodeId>, L1: seq<NodeId>, withNodes: seq<NodeId>)
    requires Consistent(f1) && g in f1.groups && g in f1.kids && f1.kids[g] == L1 && Distinct(withNodes)
    requires i < |L| && L1 == L[..i] + L[i + 1..]
    ensures var r := InsertAt(f1, g, i, withNodes);
            g in r.kids && r.kids[g] == Without(L[..i], withNodes) + withNodes + Without(L[i + 1..], withNodes)
  {
    if |withNodes| > 0 {
      assert Min(i, |L1|) == i;
      InsertAtList(f1, g, i, withNodes);
      ReplacedList(L, i, L1, withNodes, InsertAt(f1, g, i, withNodes).kids[g]);
    } else {
      ReplacedList(L, i, L1, withNodes, L1);
    }
  }

  lemma {:induction false} ReplacedList(L: seq<NodeId>, i: nat, L1: seq<NodeId>, xs: seq<NodeId>, R: seq<NodeId>)
    requires i < |L| && L1 == L[..i] + L[i + 1..]
    requires R == Without(L1[..i], xs) + xs + Without(L1[i..], xs) || (xs == [] && R == L1)
    ensures R == Without(L[..i], xs) + xs + Without(L[i + 1..], xs)
  {
    assert L1[..i] == L[..i] && L1[i..] == L[i + 1..];
    if xs == [] {
      WithoutNothing(L[..i], xs);
      WithoutNothing(L[i + 1..], xs);
    }
  }

  /** The replaced node is left without a parent. */
  lemma {:induction false} ReplaceDetaches(f: Forest, g: NodeId, ref: NodeId, withNodes: seq<NodeId>)
    requires Consistent(f) && g in f.groups && Distinct(withNodes)
    requires ref in KidsOf(f, g) && ref !in withNodes
    ensures ref !in Replace(f, g, ref, withNodes).parent && Consistent(Replace(f, g, ref, withNodes))
  {
    var f1 := DetachNode(f, ref);
    DetachSpec(f, ref);
    InsertAtParents(f1, g, IndexOf(KidsOf(f, g), ref), withNodes);
  }

  /** `swap(nodeA, nodeB)`: `__swap` on the two nodes' indexes. */
  function SwapNodes(f: Forest, g: NodeId, a: NodeId, b: NodeId): Forest {
    Swap(f, g, IndexOf(KidsOf(f, g), a), IndexOf(KidsOf(f, g), b))
  }

  /** `moveBefore(node, before)` as written: `__move` to the target's
      index, skipped when the node already sits right before it. */
  function MoveBeforeAsWritten(f: Forest, g: NodeId, n: NodeId, before: NodeId): Forest {
    var mi := IndexOf(KidsOf(f, g), n);
    var bi := IndexOf(KidsOf(f, g), before);
    if mi == -1 || bi == -1 || mi == bi - 1 then f else Move(f, g, mi, bi)
  }

  /** `moveAfter(node, after)` as written: `__move` to one past the
      target's index. */
  function MoveAfterAsWritten(f: Forest, g: NodeId, n: NodeId, after: NodeId): Forest {
    var mi := IndexOf(KidsOf(f, g), n);
    var ai := IndexOf(KidsOf(f, g), after);
    if mi == -1 || ai == -1 then f else Move(f, g, mi, Succ(ai))
  }

  /** `moveBefore` corrected: a node moving forward lands one place
      earlier, since taking it out shifts the target left. */
  function MoveBefore(f: Forest, g: NodeId, n: NodeId, before: NodeId): Forest {
    var mi := IndexOf(KidsOf(f, g), n);
    var bi := IndexOf(KidsOf(f, g), before);
    if mi == -1 || bi == -1 || mi == bi then f
    else Move(f, g, mi, Shifted(mi, bi))
  }

  /** `moveAfter` corrected likewise. */
  function MoveAfter(f: Forest, g: NodeId, n: NodeId, after: NodeId): Forest {
    var mi := IndexOf(KidsOf(f, g), n);
    var ai := IndexOf(KidsOf(f, g), after);
    if mi == -1 || ai == -1 || mi == ai then f
    else Move(f, g, mi, Succ(Shifted(mi, ai)))
  }

  /** A reference node that is not a child leaves the forest unchanged. */
  lemma {:induction false} MissingReference(f: Forest, g: NodeId, ref: NodeId, n: NodeId, nodes: seq<NodeId>)
    requires ref !in KidsOf(f, g)
    ensures Before(f, g, ref, nodes) == f && After(f, g, ref, nodes) == f && Replace(f, g, ref, nodes) == f
    ensures MoveBeforeAsWritten(f, g, n, ref) == f && MoveAfterAsWritten(f, g, n, ref) == f
    ensures MoveBefore(f, g, n, ref) == f && MoveAfter(f, g, n, ref) == f
  {
  }

  /** Corrected `moveBefore`: the node ends up immediately before the
      target, the other children in their order. */
  lemma {:induction false} MoveBeforeSpec(f: Forest, g: NodeId, n: NodeId, m: NodeId)
    requires g in f.kids && Distinct(f.kids[g]) && n in f.kids[g] && m in f.kids[g] && n != m
    ensures var W := Without(f.kids[g], [n]);
            var j := IndexOf(W, m);
            0 <= j && MoveBefore(f, g, n, m).kids[g] == W[..j] + [n] + W[j..]
  {
    var L := f.kids[g];
    TargetShift(L, n, m);
    MoveBeforeAt(f, g, n, m, IndexOf(L, n), IndexOf(Without(L, [n]), m));
    MovedToTarget(L, n, m);
  }

  /** Corrected `moveAfter`: the node ends up immediately after the
      target, the other children in their order. */
  lemma {:induction false} MoveAfterSpec(f: Forest, g: NodeId, n: NodeId, m: NodeId)
    requires g in f.kids && Distinct(f.kids[g]) && n in f.kids[g] && m in f.kids[g] && n != m
    ensures var W := Without(f.kids[g], [n]);
            var j := IndexOf(W, m);
            0 <= j && MoveAfter(f, g, n, m).kids[g] == W[..j + 1] + [n] + W[j + 1..]
  {
    var L := f.kids[g];
    TargetShift(L, n, m);
    MoveAfterAt(f, g, n, m, IndexOf(L, n), IndexOf(Without(L, [n]), m));
    MovedToTarget(L, n, m);
  }

  lemma {:induction false} MoveBeforeAt(f: Forest, g: NodeId, n: NodeId, m: NodeId, mi: nat, j: int)
    requires g in f.kids && n in f.kids[g] && m in f.kids[g] && n != m && mi == IndexOf(f.kids[g], n)
    requires j == Shifted(mi, IndexOf(f.kids[g], m))
    ensures MoveBefore(f, g, n, m).kids[g] == MovedList(f.kids[g], mi, j)
  {
  }

  lemma {:induction false} MoveAfterAt(f: Forest, g: NodeId, n: NodeId, m: NodeId, mi: nat, j: int)
    requires g in f.kids && n in f.kids[g] && m in f.kids[g] && n != m && mi == IndexOf(f.kids[g], n)
    requires j == Shifted(mi, IndexOf(f.kids[g], m))
    ensures MoveAfter(f, g, n, m).kids[g] == MovedList(f.kids[g], mi, Succ(j))
  {
  }

  /** The target's index once the moving node is out of the list is the
      one the corrected moves use. */
  lemma {:induction false} TargetShift(L: seq<NodeId>, n: NodeId, m: NodeId)
    requires Distinct(L) && n in L && m in L && n != m
    ensures var mi := IndexOf(L, n);
            var ti := IndexOf(L, m);
            IndexOf(Without(L, [n]), m) == Shifted(mi, ti)
  {
    var mi := IndexOf(L, n);
    var ti := IndexOf(L, m);
    var W := Without(L, [n]);
    RemovedSplice(L, mi, n, W);
    TargetIndex(L, mi, ti, W);
  }

  /** Moving the node to the target's index in the list without it, or
      one past it. */
  lemma {:induction false} MovedToTarget(L: seq<NodeId>, n: NodeId, m: NodeId)
    requires Distinct(L) && n in L && m in L && n != m
    ensures var W := Without(L, [n]);
            var j := IndexOf(W, m);
            var mi := IndexOf(L, n);
            0 <= j
            && MovedList(L, mi, j) == W[..j] + [n] + W[j..]
            && MovedList(L, mi, Succ(j)) == W[..j + 1] + [n] + W[j + 1..]
  {
    var W := Without(L, [n]);
    var mi := IndexOf(L, n);
    RemovedSplice(L, mi, n, W);
    var j := IndexOf(W, m);
    MoveList(L, mi, j);
    MoveList(L, mi, Succ(j));
  }

  /** Where the target sits once the moving node is out of the list. */
  lemma {:induction false} TargetIndex(L: seq<NodeId>, mi: nat, ti: nat, W: seq<NodeId>)
    requires Distinct(L) && mi < |L| && ti < |L| && mi != ti && W == L[..mi] + L[mi + 1..] && Distinct(W)
    ensures IndexOf(W, L[ti]) == if mi < ti then ti - 1 else ti
  {
    var t := if mi < ti then ti - 1 else ti;
    assert W[t] == L[ti];
    IndexOfDistinct(W, t);
  }

  /** A node already right before (after) the target stays put, as
      written and corrected. */
  lemma {:induction false} MoveInPlace(f: Forest, g: NodeId, n: NodeId, m: NodeId)
    requires g in f.kids && n in f.kids[g] && m in f.kids[g]
    ensures IndexOf(f.kids[g], n) + 1 == IndexOf(f.kids[g], m) ==>
              MoveBeforeAsWritten(f, g, n, m) == f && MoveBefore(f, g, n, m) == f
    ensures IndexOf(f.kids[g], m) + 1 == IndexOf(f.kids[g], n) ==>
              MoveAfterAsWritten(f, g, n, m) == f && MoveAfter(f, g, n, m) == f
  {
    var L := f.kids[g];
    var mi := IndexOf(L, n);
    MovedSame(L, mi);
    KidsRestored(f, g, Move(f, g, mi, mi));
  }

  lemma {:induction false} MovedSame(L: seq<NodeId>, i: nat)
    requires i < |L|
    ensures MovedList(L, i, i) == L
  {
    var W := L[..i] + L[i + 1..];
    assert Splice(L, i, 1, []) == W;
    assert W[..i] == L[..i] && W[i..] == L[i + 1..];
    assert L == L[..i] + [L[i]] + L[i + 1..];
  }

  /** As written, moving backwards is right: `moveBefore`/`moveAfter` on a
      node that sits after the target agree with the corrected ones. */
  lemma {:induction false} MoveBackwardAsWritten(f: Forest, g: NodeId, n: NodeId, m: NodeId)
    requires IndexOf(KidsOf(f, g), m) < IndexOf(KidsOf(f, g), n)
    ensures MoveBeforeAsWritten(f, g, n, m) == MoveBefore(f, g, n, m)
    ensures MoveAfterAsWritten(f, g, n, m) == MoveAfter(f, g, n, m)
  {
  }

  /** As written, moving forward overshoots: with children 1, 2, 3,
      `moveBefore(1, 3)` leaves 1 last instead of between 2 and 3. */
  lemma {:induction false} MoveBeforeCounterexample(f: Forest)
    requires 0 in f.kids && f.kids[0] == [1, 2, 3]
    ensures MoveBeforeAsWritten(f, 0, 1, 3).kids[0] == [2, 3, 1]
    ensures MoveBefore(f, 0, 1, 3).kids[0] == [2, 1, 3]
  {
    var L := f.kids[0];
    Indexes123(L);
    MovedLiteral(L, 0, 2, [2, 3], [2, 3, 1]);
    MovedLiteral(L, 0, 1, [2, 3], [2, 1, 3]);
  }

  /** Likewise `moveAfter(1, 2)` leaves 1 last instead of between 2 and 3. */
  lemma {:induction false} MoveAfterCounterexample(f: Forest)
    requires 0 in f.kids && f.kids[0] == [1, 2, 3]
    ensures MoveAfterAsWritten(f, 0, 1, 2).kids[0] == [2, 3, 1]
    ensures MoveAfter(f, 0, 1, 2).kids[0] == [2, 1, 3]
  {
    var L := f.kids[0];
    Indexes123(L);
    MovedLiteral(L, 0, 2, [2, 3], [2, 3, 1]);
    MovedLiteral(L, 0, 1, [2, 3], [2, 1, 3]);
  }

  /** The swap and move cases on children 1, 2, 3 that the source's own
      checks exercise; the corrected moves agree with them. */
  lemma {:induction false} SwapFixture(f: Forest)
    requires 0 in f.kids && f.kids[0] == [1, 2, 3]
    ensures SwapNodes(f, 0, 1, 3).kids[0] == [3, 2, 1]
  {
    var L := f.kids[0];
    Indexes123(L);
    assert L[0 := L[2]][2 := L[0]] == [3, 2, 1];
  }

  /** `moveAfter(1, 3)`: 1 goes last. */
  lemma {:induction false} MoveAfterLastFixture(f: Forest)
    requires 0 in f.kids && f.kids[0] == [1, 2, 3]
    ensures MoveAfterAsWritten(f, 0, 1, 3).kids[0] == [2, 3, 1] && MoveAfter(f, 0, 1, 3).kids[0] == [2, 3, 1]
  {
    var L := f.kids[0];
    Indexes123(L);
    MovedLiteral(L, 0, 3, [2, 3], [2, 3, 1]);
    MovedLiteral(L, 0, 2, [2, 3], [2, 3, 1]);
  }

  /** `moveBefore(3, 1)`: 3 goes first. */
  lemma {:induction false} MoveBeforeFirstFixture(f: Forest)
    requires 0 in f.kids && f.kids[0] == [1, 2, 3]
    ensures MoveBeforeAsWritten(f, 0, 3, 1).kids[0] == [3, 1, 2] && MoveBefore(f, 0, 3, 1).kids[0] == [3, 1, 2]
  {
    var L := f.kids[0];
    Indexes123(L);
    MovedLiteral(L, 2, 0, [1, 2], [3, 1, 2]);
  }

  /** `__move` on a literal list, through its two splices. */
  lemma {:induction false} MovedLiteral(L: seq<NodeId>, from: nat, to: int, W: seq<NodeId>, R: seq<NodeId>)
    requires from < |L| && W == L[..from] + L[from + 1..]
    requires var k := SpliceStart(to, |W|); R == W[..k] + [L[from]] + W[k..]
    ensures MovedList(L, from, to) == R
  {
    assert Splice(L, from, 1, []) == W;
  }

  lemma {:induction false} Indexes123(L: seq<NodeId>)
    requires L == [1, 2, 3]
    ensures IndexOf(L, 1) == 0 && IndexOf(L, 2) == 1 && IndexOf(L, 3) == 2
  {
    assert L[1..] == [2, 3] && L[1..][1..] == [3];
  }

  lemma {:induction false} DistinctInsert(a: seq<NodeId>, b: seq<NodeId>, x: NodeId)
    requires Distinct(a + b) && x !in a && x !in b
    ensures Distinct(a + [x] + b)
  {
    var s := a + [x] + b;
    forall i, j | 0 <= i < j < |s| ensures s[i] != s[j] {
      if i == |a| {
        assert s[j] == (a + b)[j - 1];
      } else if j == |a| {
        assert s[i] == (a + b)[i];
      } else {
        var pi := if i < |a| then i else i - 1;
        var pj := if j < |a| then j else j - 1;
        assert s[i] == (a + b)[pi] && s[j] == (a + b)[pj];
      }
    }
  }
}
