/** The range-merge loop of `Parser.parseInliners`: candidate ranges from
    the inliner strategies, in strategy order and then in discovery order,
    are merged into an accepted list kept sorted by start.

    `MergeStepAsWritten` follows the source line by line, including the
    removal of contained ranges by splicing their ascending indexes one
    after another without adjusting them. `MergeStep` is the corrected
    step (every contained range is removed); the two agree whenever a
    candidate contains at most one accepted range, and the parser model
    uses the corrected one. */
module Merge {
  import opened Ranges

  /** One accepted entry: the index of the inliner strategy that produced
      it (the paired `rangeFactories` element) and its range. */
  datatype Span = Span(owner: nat, range: Range)

  /** Outcome of comparing a candidate against the accepted list. */
  datatype Verdict = Rejected | Approved(removeIndexes: seq<nat>)

  /** A candidate that is `Partial` or `Inside` with respect to `r`. */
  predicate Blocks(cand: Range, r: Range) {
    GetIntersection(cand, r) == Partial || GetIntersection(cand, r) == Inside
  }

  predicate Contains(cand: Range, r: Range) {
    GetIntersection(cand, r) == Contain
  }

  /** Number of accepted ranges the candidate contains. */
  function CountContained(cand: Range, acc: seq<Span>): nat
  {
    if |acc| == 0 then 0
    else (if Contains(cand, acc[0].range) then 1 else 0) + CountContained(cand, acc[1..])
  }

  predicate StrictlyIncreasing(s: seq<nat>) {
    forall i, j :: 0 <= i < j < |s| ==> s[i] < s[j]
  }

  /** The comparison loop starting at accepted index `i`: the first
      blocking range rejects the candidate and forgets every removal mark;
      each contained range is marked by its index. */
  function Scan(cand: Range, acc: seq<Span>, i: nat): (v: Verdict)
    requires i <= |acc|
    ensures v.Rejected? <==> exists j :: i <= j < |acc| && Blocks(cand, acc[j].range)
    ensures v.Approved? ==> StrictlyIncreasing(v.removeIndexes)
    ensures v.Approved? ==> forall k :: k in v.removeIndexes <==> i <= k < |acc| && Contains(cand, acc[k].range)
    ensures v.Approved? ==> |v.removeIndexes| == CountContained(cand, acc[i..])
    decreases |acc| - i
  {
    if i == |acc| then Approved([])
    else
      assert acc[i..][1..] == acc[i + 1..];
      match GetIntersection(cand, acc[i].range)
      case Partial => Rejected
      case Inside => Rejected
      case Contain =>
        (match Scan(cand, acc, i + 1)
         case Rejected => Rejected
         case Approved(rest) =>
           MarkFirst(cand, acc, i, rest);
           Approved([i] + rest))
      case None => Scan(cand, acc, i + 1)
  }

  /** Marking index `i` in front of the marks of the indexes after it. */
  lemma MarkFirst(cand: Range, acc: seq<Span>, i: nat, rest: seq<nat>)
    requires i < |acc| && Contains(cand, acc[i].range)
    requires StrictlyIncreasing(rest)
    requires forall k :: k in rest <==> i + 1 <= k < |acc| && Contains(cand, acc[k].range)
    ensures StrictlyIncreasing([i] + rest)
    ensures forall k :: k in [i] + rest <==> i <= k < |acc| && Contains(cand, acc[k].range)
  {
    forall k | 0 <= k < |rest| ensures rest[k] > i {
      assert rest[k] in rest;
    }
  }

  /** `Array.prototype.splice(i, 1)` for a non-negative index. */
  function RemoveAt(s: seq<Span>, i: nat): (r: seq<Span>)
    ensures i < |s| ==> r == s[..i] + s[i + 1..]
    ensures i >= |s| ==> r == s
  {
    if i < |s| then s[..i] + s[i + 1..] else s
  }

  /** The source's removal: each marked index is spliced out in ascending
      order, against the list as it stands after the previous splices. */
  function SpliceAscending(s: seq<Span>, idxs: seq<nat>): seq<Span>
    decreases |idxs|
  {
    if |idxs| == 0 then s else SpliceAscending(RemoveAt(s, idxs[0]), idxs[1..])
  }

  /** The accepted ranges the candidate does not contain, in order. */
  function WithoutContained(s: seq<Span>, cand: Range): (r: seq<Span>)
    ensures |r| <= |s|
    ensures forall x :: x in r <==> x in s && !Contains(cand, x.range)
  {
    if |s| == 0 then []
    else (if Contains(cand, s[0].range) then [] else [s[0]]) + WithoutContained(s[1..], cand)
  }

  /** `ranges.findIndex(r => r.start > start)`, or the length when no
      range starts later. */
  function InsertIndex(s: seq<Span>, start: int): (k: nat)
    ensures k <= |s|
    ensures forall j :: 0 <= j < k ==> s[j].range.start <= start
    ensures k < |s| ==> s[k].range.start > start
  {
    if |s| == 0 then 0
    else if s[0].range.start > start then 0
    else 1 + InsertIndex(s[1..], start)
  }

  function InsertSorted(s: seq<Span>, x: Span): seq<Span>
  {
    var k := InsertIndex(s, x.range.start);
    s[..k] + [x] + s[k..]
  }

  /** One candidate, as written in the source. */
  function MergeStepAsWritten(acc: seq<Span>, x: Span): seq<Span>
  {
    match Scan(x.range, acc, 0)
    case Rejected => acc
    case Approved(idxs) => InsertSorted(SpliceAscending(acc, idxs), x)
  }

  /** One candidate, with every contained range removed. */
  function MergeStep(acc: seq<Span>, x: Span): (r: seq<Span>)
    ensures (exists j :: 0 <= j < |acc| && Blocks(x.range, acc[j].range)) ==> r == acc
  {
    match Scan(x.range, acc, 0)
    case Rejected => acc
    case Approved(_) => InsertSorted(WithoutContained(acc, x.range), x)
  }

  function MergeAllAsWritten(acc: seq<Span>, cands: seq<Span>): seq<Span>
    decreases |cands|
  {
    if |cands| == 0 then acc else MergeAllAsWritten(MergeStepAsWritten(acc, cands[0]), cands[1..])
  }

  function MergeAll(acc: seq<Span>, cands: seq<Span>): seq<Span>
    decreases |cands|
  {
    if |cands| == 0 then acc else MergeAll(MergeStep(acc, cands[0]), cands[1..])
  }

  // Invariants of the accepted list.

  predicate SortedByStart(s: seq<Span>) {
    forall i, j :: 0 <= i < j < |s| ==> s[i].range.start <= s[j].range.start
  }

  /** Pairwise disjoint and not even touching, in start order. */
  predicate Separated(s: seq<Span>) {
    forall i, j :: 0 <= i < j < |s| ==> s[i].range.end < s[j].range.start
  }

  predicate AllValid(s: seq<Span>) {
    forall i :: 0 <= i < |s| ==> Valid(s[i].range)
  }

  lemma {:induction false} SpliceAscendingKeepsSorted(s: seq<Span>, idxs: seq<nat>)
    requires SortedByStart(s)
    ensures SortedByStart(SpliceAscending(s, idxs))
    ensures forall x :: x in SpliceAscending(s, idxs) ==> x in s
    decreases |idxs|
  {
    if |idxs| > 0 {
      var t := RemoveAt(s, idxs[0]);
      assert SortedByStart(t) by {
        if idxs[0] < |s| {
          forall i, j | 0 <= i < j < |t|
            ensures t[i].range.start <= t[j].range.start
          {
            var i' := if i < idxs[0] then i else i + 1;
            var j' := if j < idxs[0] then j else j + 1;
            assert t[i] == s[i'] && t[j] == s[j'];
          }
        }
      }
      assert forall x :: x in t ==> x in s;
      SpliceAscendingKeepsSorted(t, idxs[1..]);
    }
  }

  lemma {:induction false} WithoutContainedKeepsOrder(s: seq<Span>, cand: Range)
    requires SortedByStart(s)
    ensures SortedByStart(WithoutContained(s, cand))
    ensures Separated(s) ==> Separated(WithoutContained(s, cand))
    decreases |s|
  {
    if |s| > 0 {
      var rest := WithoutContained(s[1..], cand);
      WithoutContainedKeepsOrder(s[1..], cand);
      if !Contains(cand, s[0].range) {
        FirstBeforeAll(s, rest);
        PrependKeepsOrder(s[0], rest);
      }
    }
  }

  /** The head of a sorted (separated) list precedes every element of its
      tail, hence of any selection from it. */
  lemma FirstBeforeAll(s: seq<Span>, rest: seq<Span>)
    requires |s| > 0 && SortedByStart(s)
    requires forall x :: x in rest ==> x in s[1..]
    ensures forall x :: x in rest ==> s[0].range.start <= x.range.start
    ensures Separated(s) ==> forall x :: x in rest ==> s[0].range.end < x.range.start
  {
    forall x | x in rest
      ensures s[0].range.start <= x.range.start
      ensures Separated(s) ==> s[0].range.end < x.range.start
    {
      var j :| 0 <= j < |s[1..]| && s[1..][j] == x;
      assert s[j + 1] == x;
    }
  }

  lemma PrependKeepsOrder(x: Span, rest: seq<Span>)
    requires SortedByStart(rest)
    requires forall y :: y in rest ==> x.range.start <= y.range.start
    ensures SortedByStart([x] + rest)
    ensures Separated(rest) && (forall y :: y in rest ==> x.range.end < y.range.start) ==> Separated([x] + rest)
  {
    var r := [x] + rest;
    forall i, j | 0 <= i < j < |r|
      ensures r[i].range.start <= r[j].range.start
    {
      assert r[j] == rest[j - 1] && r[j] in rest;
      if i > 0 {
        assert r[i] == rest[i - 1];
      }
    }
    if Separated(rest) && (forall y :: y in rest ==> x.range.end < y.range.start) {
      forall i, j | 0 <= i < j < |r|
        ensures r[i].range.end < r[j].range.start
      {
        assert r[j] == rest[j - 1] && r[j] in rest;
        if i > 0 {
          assert r[i] == rest[i - 1];
        }
      }
    }
  }

  /** Where each element of `InsertSorted(s, x)` comes from. */
  lemma InsertShape(s: seq<Span>, x: Span, k: nat)
    requires k <= |s|
    ensures var r := s[..k] + [x] + s[k..];
            && |r| == |s| + 1 && r[k] == x
            && (forall i :: 0 <= i < k ==> r[i] == s[i])
            && (forall i :: k < i < |r| ==> r[i] == s[i - 1])
  {
  }

  lemma InsertSortedKeepsSorted(s: seq<Span>, x: Span)
    requires SortedByStart(s)
    ensures SortedByStart(InsertSorted(s, x))
    ensures forall y :: y in InsertSorted(s, x) <==> y in s || y == x
  {
    var k := InsertIndex(s, x.range.start);
    var r := s[..k] + [x] + s[k..];
    InsertShape(s, x, k);
    forall i, j | 0 <= i < j < |r|
      ensures r[i].range.start <= r[j].range.start
    {
      if j < k {
        assert r[i] == s[i] && r[j] == s[j];
      } else if i > k {
        assert r[i] == s[i - 1] && r[j] == s[j - 1];
      } else if i == k {
        assert r[j] == s[j - 1];
      } else if j == k {
        assert r[i] == s[i];
      } else {
        assert r[i] == s[i] && r[j] == s[j - 1];
      }
    }
    forall y ensures y in r <==> y in s || y == x {
      assert s == s[..k] + s[k..];
    }
  }

  /** Rejection leaves the list unchanged; acceptance keeps it sorted and
      puts the candidate before the first range that starts later. */
  lemma MergeStepKeepsSorted(acc: seq<Span>, x: Span)
    requires SortedByStart(acc)
    ensures SortedByStart(MergeStep(acc, x)) && SortedByStart(MergeStepAsWritten(acc, x))
    ensures Scan(x.range, acc, 0).Rejected? ==> MergeStep(acc, x) == acc && MergeStepAsWritten(acc, x) == acc
    ensures Scan(x.range, acc, 0).Approved? ==> x in MergeStep(acc, x) && x in MergeStepAsWritten(acc, x)
  {
    match Scan(x.range, acc, 0)
    case Rejected =>
    case Approved(idxs) =>
      WithoutContainedKeepsOrder(acc, x.range);
      InsertSortedKeepsSorted(WithoutContained(acc, x.range), x);
      SpliceAscendingKeepsSorted(acc, idxs);
      InsertSortedKeepsSorted(SpliceAscending(acc, idxs), x);
  }

  /** After an approved candidate, every remaining range is `None` with
      respect to it, so inserting it at its sorted position keeps the list
      separated. */
  lemma InsertDisjointKeepsSeparated(s: seq<Span>, x: Span)
    requires SortedByStart(s) && Separated(s) && AllValid(s) && Valid(x.range)
    requires forall y :: y in s ==> GetIntersection(x.range, y.range) == None
    ensures Separated(InsertSorted(s, x)) && AllValid(InsertSorted(s, x))
  {
    var k := InsertIndex(s, x.range.start);
    var r := s[..k] + [x] + s[k..];
    InsertShape(s, x, k);
    forall i | 0 <= i < |s|
      ensures i < k ==> s[i].range.end < x.range.start
      ensures i >= k ==> x.range.end < s[i].range.start
    {
      assert s[i] in s;
    }
    InsertSeparated(s, x, k, r);
    forall i | 0 <= i < |r| ensures Valid(r[i].range) {
      if i < k { assert r[i] == s[i]; } else if i > k { assert r[i] == s[i - 1]; }
    }
  }

  lemma InsertSeparated(s: seq<Span>, x: Span, k: nat, r: seq<Span>)
    requires k <= |s| && Separated(s)
    requires |r| == |s| + 1 && r[k] == x
    requires forall i :: 0 <= i < k ==> r[i] == s[i]
    requires forall i :: k < i < |r| ==> r[i] == s[i - 1]
    requires forall i :: 0 <= i < k ==> s[i].range.end < x.range.start
    requires forall i :: k <= i < |s| ==> x.range.end < s[i].range.start
    ensures Separated(r)
  {
    forall i, j | 0 <= i < j < |r|
      ensures r[i].range.end < r[j].range.start
    {
      if j < k {
        assert r[i] == s[i] && r[j] == s[j];
      } else if i > k {
        assert r[i] == s[i - 1] && r[j] == s[j - 1];
      } else if i == k {
        assert r[j] == s[j - 1];
      } else if j == k {
        assert r[i] == s[i];
      } else {
        assert r[i] == s[i] && r[j] == s[j - 1];
      }
    }
  }

  /** The corrected step keeps the accepted list valid, sorted and
      separated (disjoint, not touching). */
  lemma MergeStepKeepsSeparated(acc: seq<Span>, x: Span)
    requires SortedByStart(acc) && Separated(acc) && AllValid(acc) && Valid(x.range)
    ensures SortedByStart(MergeStep(acc, x)) && Separated(MergeStep(acc, x)) && AllValid(MergeStep(acc, x))
  {
    MergeStepKeepsSorted(acc, x);
    if Scan(x.range, acc, 0).Approved? {
      var rest := WithoutContained(acc, x.range);
      WithoutContainedKeepsOrder(acc, x.range);
      ApprovedLeavesDisjoint(acc, x.range);
      InsertDisjointKeepsSeparated(rest, x);
    }
  }

  /** Once a candidate is approved, what is left after removing the
      ranges it contains is disjoint from it and still valid. */
  lemma ApprovedLeavesDisjoint(acc: seq<Span>, cand: Range)
    requires AllValid(acc) && Scan(cand, acc, 0).Approved?
    ensures var rest := WithoutContained(acc, cand);
            AllValid(rest) && forall y :: y in rest ==> GetIntersection(cand, y.range) == None
  {
    var rest := WithoutContained(acc, cand);
    forall y | y in rest
      ensures GetIntersection(cand, y.range) == None
    {
      var j :| 0 <= j < |acc| && acc[j] == y;
      assert !Blocks(cand, acc[j].range);
    }
    forall i | 0 <= i < |rest| ensures Valid(rest[i].range) {
      assert rest[i] in acc;
    }
  }


  /** Merging any candidates whose ranges `tryRange` produced yields a
      valid, sorted, separated list. */
  lemma {:induction false} MergeAllSeparated(acc: seq<Span>, cands: seq<Span>)
    requires SortedByStart(acc) && Separated(acc) && AllValid(acc) && AllValid(cands)
    ensures SortedByStart(MergeAll(acc, cands)) && Separated(MergeAll(acc, cands)) && AllValid(MergeAll(acc, cands))
    decreases |cands|
  {
    if |cands| > 0 {
      MergeStepKeepsSeparated(acc, cands[0]);
      MergeAllSeparated(MergeStep(acc, cands[0]), cands[1..]);
    }
  }

  lemma {:induction false} WithoutNothing(s: seq<Span>, cand: Range)
    requires CountContained(cand, s) == 0
    ensures WithoutContained(s, cand) == s
    decreases |s|
  {
    if |s| > 0 {
      WithoutNothing(s[1..], cand);
    }
  }

  lemma {:induction false} WithoutOne(s: seq<Span>, cand: Range, k: nat)
    requires k < |s| && Contains(cand, s[k].range)
    requires forall j :: 0 <= j < |s| && j != k ==> !Contains(cand, s[j].range)
    ensures WithoutContained(s, cand) == s[..k] + s[k + 1..]
    decreases |s|
  {
    if k == 0 {
      CountZero(s[1..], cand);
      WithoutNothing(s[1..], cand);
      assert WithoutContained(s, cand) == WithoutContained(s[1..], cand);
    } else {
      var t := s[1..];
      forall j | 0 <= j < |t| && j != k - 1 ensures !Contains(cand, t[j].range) {
        assert t[j] == s[j + 1];
      }
      WithoutOne(t, cand, k - 1);
      WithoutKeepsHead(s, cand);
      DropShift(s, k);
    }
  }

  lemma WithoutKeepsHead(s: seq<Span>, cand: Range)
    requires |s| > 0 && !Contains(cand, s[0].range)
    ensures WithoutContained(s, cand) == [s[0]] + WithoutContained(s[1..], cand)
  {
  }

  lemma DropShift(s: seq<Span>, k: nat)
    requires 0 < k < |s|
    ensures [s[0]] + (s[1..][..k - 1] + s[1..][k..]) == s[..k] + s[k + 1..]
  {
    assert s[1..][..k - 1] == s[1..k] && s[1..][k..] == s[k + 1..];
    assert s[..k] == [s[0]] + s[1..k];
  }

  lemma {:induction false} CountZero(s: seq<Span>, cand: Range)
    requires forall j :: 0 <= j < |s| ==> !Contains(cand, s[j].range)
    ensures CountContained(cand, s) == 0
    decreases |s|
  {
    if |s| > 0 {
      CountZero(s[1..], cand);
    }
  }

  /** When the candidate contains at most one accepted range, the
      source's ascending splices remove exactly the contained ranges. */
  lemma AtMostOneContainedAgrees(acc: seq<Span>, x: Span)
    requires CountContained(x.range, acc) <= 1
    ensures MergeStepAsWritten(acc, x) == MergeStep(acc, x)
  {
    var v := Scan(x.range, acc, 0);
    if v.Approved? {
      assert acc[0..] == acc;
      var idxs := v.removeIndexes;
      if |idxs| == 0 {
        ApprovedNone(acc, x.range);
        WithoutNothing(acc, x.range);
      } else {
        ApprovedOne(acc, x.range);
        WithoutOne(acc, x.range, idxs[0]);
        assert SpliceAscending(acc, idxs) == RemoveAt(acc, idxs[0]);
      }
    }
  }

  lemma ApprovedNone(acc: seq<Span>, cand: Range)
    requires Scan(cand, acc, 0).Approved? && |Scan(cand, acc, 0).removeIndexes| == 0
    ensures CountContained(cand, acc) == 0
  {
    var v := Scan(cand, acc, 0);
    assert v.removeIndexes == [];
    forall j | 0 <= j < |acc| ensures !Contains(cand, acc[j].range) {
      assert j !in v.removeIndexes;
    }
    CountZero(acc, cand);
  }

  lemma ApprovedOne(acc: seq<Span>, cand: Range)
    requires Scan(cand, acc, 0).Approved? && |Scan(cand, acc, 0).removeIndexes| == 1
    ensures var k := Scan(cand, acc, 0).removeIndexes[0];
            && k < |acc| && Contains(cand, acc[k].range)
            && forall j :: 0 <= j < |acc| && j != k ==> !Contains(cand, acc[j].range)
  {
    var v := Scan(cand, acc, 0);
    var k := v.removeIndexes[0];
    assert k in v.removeIndexes;
    assert v.removeIndexes == [k];
    forall j | 0 <= j < |acc| && j != k ensures !Contains(cand, acc[j].range) {
      assert j !in v.removeIndexes;
    }
  }

  /** Every candidate contains at most one of the ranges accepted before
      it, along the whole as-written run. */
  predicate ContainsAtMostOneAlong(acc: seq<Span>, cands: seq<Span>)
    decreases |cands|
  {
    |cands| == 0 ||
    (CountContained(cands[0].range, acc) <= 1
     && ContainsAtMostOneAlong(MergeStepAsWritten(acc, cands[0]), cands[1..]))
  }

  /** Under the "contains at most one" condition the source's loop keeps
      the accepted ranges pairwise disjoint and never touching. */
  lemma {:induction false} AsWrittenSeparatedIfAtMostOne(acc: seq<Span>, cands: seq<Span>)
    requires SortedByStart(acc) && Separated(acc) && AllValid(acc) && AllValid(cands)
    requires ContainsAtMostOneAlong(acc, cands)
    ensures MergeAllAsWritten(acc, cands) == MergeAll(acc, cands)
    ensures Separated(MergeAllAsWritten(acc, cands))
    decreases |cands|
  {
    if |cands| > 0 {
      AtMostOneContainedAgrees(acc, cands[0]);
      MergeStepKeepsSeparated(acc, cands[0]);
      AsWrittenSeparatedIfAtMostOne(MergeStep(acc, cands[0]), cands[1..]);
    } else {
      MergeAllSeparated(acc, cands);
    }
  }

  /** The counterexample: accepted `[0,2)`, `[3,5)`, `[10,12)` and a
      candidate `[0,6)` that contains the first two. The source's ascending
      splices remove indexes 0 and then 1, the second of which by then
      names `[10,12)`; `[3,5)` survives and overlaps the new range. The
      corrected step removes both contained ranges. */
  lemma AscendingSpliceCounterexample(acc: seq<Span>, x: Span)
    requires acc == [Span(0, Range(0, 2)), Span(0, Range(3, 5)), Span(0, Range(10, 12))]
    requires x == Span(1, Range(0, 6))
    ensures MergeStepAsWritten(acc, x) == [Span(1, Range(0, 6)), Span(0, Range(3, 5))]
    ensures !Separated(MergeStepAsWritten(acc, x))
    ensures MergeStep(acc, x) == [Span(1, Range(0, 6)), Span(0, Range(10, 12))]
  {
    CounterexampleScan(acc, x);
    CounterexampleAsWritten(acc, x);
    CounterexampleFixed(acc, x);
    var r := MergeStepAsWritten(acc, x);
    assert r[0].range.end >= r[1].range.start;
  }

  lemma CounterexampleScan(acc: seq<Span>, x: Span)
    requires acc == [Span(0, Range(0, 2)), Span(0, Range(3, 5)), Span(0, Range(10, 12))]
    requires x == Span(1, Range(0, 6))
    ensures Scan(x.range, acc, 0) == Approved([0, 1])
  {
    assert Scan(x.range, acc, 2) == Approved([]);
    assert Scan(x.range, acc, 1) == Approved([1]);
  }

  lemma CounterexampleAsWritten(acc: seq<Span>, x: Span)
    requires acc == [Span(0, Range(0, 2)), Span(0, Range(3, 5)), Span(0, Range(10, 12))]
    requires x == Span(1, Range(0, 6))
    requires Scan(x.range, acc, 0) == Approved([0, 1])
    ensures MergeStepAsWritten(acc, x) == [Span(1, Range(0, 6)), Span(0, Range(3, 5))]
  {
    var once := RemoveAt(acc, 0);
    assert once == [Span(0, Range(3, 5)), Span(0, Range(10, 12))];
    var twice := RemoveAt(once, 1);
    assert twice == [Span(0, Range(3, 5))];
    assert SpliceAscending(acc, [0, 1]) == SpliceAscending(once, [1]);
    assert SpliceAscending(once, [1]) == SpliceAscending(twice, []);
    assert InsertIndex(twice, 0) == 0;
  }

  lemma CounterexampleFixed(acc: seq<Span>, x: Span)
    requires acc == [Span(0, Range(0, 2)), Span(0, Range(3, 5)), Span(0, Range(10, 12))]
    requires x == Span(1, Range(0, 6))
    requires Scan(x.range, acc, 0) == Approved([0, 1])
    ensures MergeStep(acc, x) == [Span(1, Range(0, 6)), Span(0, Range(10, 12))]
  {
    var last := acc[2..];
    assert last == [Span(0, Range(10, 12))];
    assert Contains(x.range, acc[0].range) && Contains(x.range, acc[1].range);
    assert !Contains(x.range, last[0].range);
    WithoutDropsHead(acc, x.range);
    WithoutDropsHead(acc[1..], x.range);
    assert acc[1..][1..] == last;
    WithoutKeepsHead(last, x.range);
    assert WithoutContained(last[1..], x.range) == [];
    assert WithoutContained(acc, x.range) == last;
    assert InsertIndex(last, 0) == 0;
  }

  lemma WithoutDropsHead(s: seq<Span>, cand: Range)
    requires |s| > 0 && Contains(cand, s[0].range)
    ensures WithoutContained(s, cand) == WithoutContained(s[1..], cand)
  {
  }
}
