/** The node forest the tree utilities work on. Node objects are
    identified by `NodeId`; the forest records, for every node, the list
    its `children` getter returns (absent when that is `undefined`), its
    `parent` reference (absent when `undefined`), and which nodes are
    `GroupNode`s, the only ones whose child list the group operations
    change. */
module Dom {
  type NodeId = nat

  datatype Forest = Forest(kids: map<NodeId, seq<NodeId>>, parent: map<NodeId, NodeId>, groups: set<NodeId>)

  /** The child list of `g`, with `undefined` read as empty. */
  function KidsOf(f: Forest, g: NodeId): seq<NodeId> {
    if g in f.kids then f.kids[g] else []
  }

  predicate Distinct(s: seq<NodeId>) {
    forall i, j :: 0 <= i < j < |s| ==> s[i] != s[j]
  }

  /** The back-references agree with the group lists: every node a group
      lists names that group as its parent, and lists hold no node
      twice. Nodes may be parentless or have a non-group parent. */
  predicate Consistent(f: Forest) {
    (forall g :: g in f.kids && g in f.groups ==> Distinct(f.kids[g]))
    && (forall g, n :: g in f.kids && g in f.groups && n in f.kids[g] ==> n in f.parent && f.parent[n] == g)
  }

  /** `Array.prototype.indexOf`: the first position of `x`, or -1. */
  function IndexOf(s: seq<NodeId>, x: NodeId): (r: int)
    ensures -1 <= r < |s|
    ensures r == -1 <==> x !in s
    ensures r >= 0 ==> s[r] == x && x !in s[..r]
  {
    if |s| == 0 then -1
    else if s[0] == x then 0
    else
      var r := IndexOf(s[1..], x);
      assert s[1..][..if r < 0 then 0 else r] == s[1..if r < 0 then 1 else r + 1];
      if r == -1 then -1 else r + 1
  }

  /** Under distinct elements, the position of the element at `i` is `i`. */
  lemma {:induction false} IndexOfDistinct(s: seq<NodeId>, i: nat)
    requires Distinct(s) && i < |s|
    ensures IndexOf(s, s[i]) == i
    decreases i
  {
    if i > 0 {
      assert s[0] != s[i];
      DistinctTail(s);
      assert s[1..][i - 1] == s[i];
      IndexOfDistinct(s[1..], i - 1);
    }
  }

  lemma {:induction false} DistinctTail(s: seq<NodeId>)
    requires Distinct(s) && |s| > 0
    ensures Distinct(s[1..]) && s[0] !in s[1..]
  {
    assert forall j :: 0 <= j < |s[1..]| ==> s[1..][j] == s[j + 1];
  }

  /** The start position `Array.prototype.splice` uses for `start`:
      negative positions count from the end, and both ends clamp. */
  function SpliceStart(start: int, len: nat): (r: nat)
    ensures r <= len
    ensures 0 <= start <= len ==> r == start
    ensures start > len ==> r == len
  {
    if start < 0 then (if len + start < 0 then 0 else len + start)
    else if start > len then len
    else start
  }

  /** `s.splice(start, deleteCount, ...items)`, the array it leaves. */
  function Splice(s: seq<NodeId>, start: int, deleteCount: int, items: seq<NodeId>): seq<NodeId> {
    var a := SpliceStart(start, |s|);
    var d := if deleteCount < 0 then 0 else if deleteCount > |s| - a then |s| - a else deleteCount;
    s[..a] + items + s[a + d..]
  }

  /** What `splice` keeps, inserts and drops: the elements before the
      start, then the items, then what follows the deleted run. */
  lemma {:induction false} SpliceParts(s: seq<NodeId>, start: int, deleteCount: int, items: seq<NodeId>)
    ensures var r := Splice(s, start, deleteCount, items);
            var a := SpliceStart(start, |s|);
            var d := if deleteCount < 0 then 0 else if deleteCount > |s| - a then |s| - a else deleteCount;
            |r| == |s| - d + |items| && r[..a] == s[..a] && r[a..a + |items|] == items && r[a + |items|..] == s[a + d..]
  {
  }

  /** `s` with every element of `xs` filtered out, order kept. */
  function Without(s: seq<NodeId>, xs: seq<NodeId>): (r: seq<NodeId>)
    ensures |r| <= |s|
    ensures forall x :: x in r <==> x in s && x !in xs
    decreases |s|
  {
    if |s| == 0 then []
    else
      var rest := Without(s[1..], xs);
      assert forall x :: x in s <==> x == s[0] || x in s[1..];
      if s[0] in xs then rest else [s[0]] + rest
  }

  lemma {:induction false} WithoutAppend(s: seq<NodeId>, t: seq<NodeId>, xs: seq<NodeId>)
    ensures Without(s + t, xs) == Without(s, xs) + Without(t, xs)
    decreases |s|
  {
    if |s| == 0 {
      assert s + t == t;
    } else {
      assert (s + t)[1..] == s[1..] + t;
      WithoutAppend(s[1..], t, xs);
    }
  }

  lemma {:induction false} WithoutNothing(s: seq<NodeId>, xs: seq<NodeId>)
    requires forall k :: 0 <= k < |s| ==> s[k] !in xs
    ensures Without(s, xs) == s
    decreases |s|
  {
    if |s| > 0 {
      assert forall k :: 0 <= k < |s[1..]| ==> s[1..][k] == s[k + 1];
      WithoutNothing(s[1..], xs);
      assert [s[0]] + s[1..] == s;
    }
  }

  /** Filtering twice is filtering by both lists. */
  lemma {:induction false} WithoutTwice(s: seq<NodeId>, a: seq<NodeId>, b: seq<NodeId>)
    ensures Without(Without(s, a), b) == Without(s, a + b)
    decreases |s|
  {
    if |s| > 0 {
      WithoutTwice(s[1..], a, b);
      var w := Without(s[1..], a);
      if s[0] !in a {
        assert ([s[0]] + w)[1..] == w;
      }
    }
  }

  lemma {:induction false} WithoutDistinct(s: seq<NodeId>, xs: seq<NodeId>)
    requires Distinct(s)
    ensures Distinct(Without(s, xs))
    decreases |s|
  {
    if |s| > 0 {
      WithoutDistinct(s[1..], xs);
      var w := Without(s[1..], xs);
      if s[0] !in xs {
        DistinctTail(s);
        assert s[0] !in w;
        var r := [s[0]] + w;
        forall i, j | 0 <= i < j < |r| ensures r[i] != r[j] {
          if i == 0 { assert r[j] in w; } else { assert r[i] == w[i - 1] && r[j] == w[j - 1]; }
        }
      }
    }
  }

  /** Removing the element at its position is filtering it out. */
  lemma {:induction false} RemoveAtIsWithout(s: seq<NodeId>, i: nat)
    requires Distinct(s) && i < |s|
    ensures s[..i] + s[i + 1..] == Without(s, [s[i]])
    decreases i
  {
    DistinctTail(s);
    if i == 0 {
      WithoutNothing(s[1..], [s[0]]);
    } else {
      assert s[0] != s[i];
      assert s[1..][i - 1] == s[i];
      RemoveAtIsWithout(s[1..], i - 1);
      RemoveAtTail(s, i);
    }
  }

  lemma {:induction false} RemoveAtTail(s: seq<NodeId>, i: nat)
    requires 0 < i < |s|
    ensures s[..i] + s[i + 1..] == [s[0]] + (s[1..][..i - 1] + s[1..][i..])
  {
  }

  /** Filtering out one element of a distinct list drops exactly one
      place; filtering out an absent element changes nothing. */
  lemma {:induction false} WithoutOne(s: seq<NodeId>, n: NodeId)
    requires Distinct(s)
    ensures n in s ==> |Without(s, [n])| == |s| - 1
    ensures n !in s ==> Without(s, [n]) == s
  {
    if n in s {
      RemoveAtIsWithout(s, IndexOf(s, n));
    } else {
      WithoutNothing(s, [n]);
    }
  }

  lemma {:induction false} DistinctSlices(s: seq<NodeId>, c: nat)
    requires Distinct(s) && c <= |s|
    ensures Distinct(s[..c]) && Distinct(s[c..])
    ensures forall x :: x in s[..c] ==> x !in s[c..]
  {
    assert forall k :: 0 <= k < |s[c..]| ==> s[c..][k] == s[c + k];
    forall x | x in s[..c] ensures x !in s[c..] {
      var i :| 0 <= i < c && s[..c][i] == x;
      assert forall k :: 0 <= k < |s[c..]| ==> s[c..][k] != s[i];
    }
  }
}
