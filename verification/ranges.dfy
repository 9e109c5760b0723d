/** Text ranges `[start, end)` over offsets of a string, and the four-way
    classification the inline merge uses to resolve competing matches.

    The source of `utils/range.ts` is not part of this model; its behaviour
    is pinned down by its test suite. Overlap is decided on CLOSED
    intervals, so two ranges that only share an endpoint are `Partial`.
    For two EQUAL ranges no test decides the outcome; this model checks
    `Inside` before `Contain`, so an identical later candidate is `Inside`
    and the range accepted earlier keeps its place. */
module Ranges {
  import Wrappers

  datatype Range = Range(start: int, end: int)

  /** What `range(start, end)` accepts. */
  predicate Valid(r: Range) {
    0 <= r.start <= r.end
  }

  datatype RangeIntersection = None | Partial | Inside | Contain

  /** `range(start, end)`: fails when `end < start` or `start < 0`. */
  function MakeRange(start: int, end: int): (r: Wrappers.Result<Range>)
    ensures r.Success? <==> 0 <= start && start <= end
    ensures r.Success? ==> r.value.start == start && r.value.end == end
  {
    if start < 0 || end < start then Wrappers.Failure("InvalidRangeError")
    else Wrappers.Success(Range(start, end))
  }

  /** `tryRange(start, end)`: `undefined` exactly where `range` throws. */
  function TryRange(start: int, end: int): (r: Wrappers.Option<Range>)
    ensures r.None? <==> MakeRange(start, end).Failure?
    ensures r.Some? ==> r.value == MakeRange(start, end).value
  {
    if 0 <= start <= end then Wrappers.Some(Range(start, end)) else Wrappers.None
  }

  /** `getIntersection(a, b)`: how the candidate `a` relates to `b`. */
  function GetIntersection(a: Range, b: Range): RangeIntersection
  {
    if a.end < b.start || b.end < a.start then None
    else if b.start <= a.start && a.end <= b.end then Inside
    else if a.start <= b.start && b.end <= a.end then Contain
    else Partial
  }

  // Reference semantics: a range as the closed set of offsets it covers.

  ghost predicate Covers(r: Range, i: int) {
    r.start <= i <= r.end
  }

  ghost predicate Touch(a: Range, b: Range) {
    exists i :: Covers(a, i) && Covers(b, i)
  }

  ghost predicate Within(a: Range, b: Range) {
    forall i :: Covers(a, i) ==> Covers(b, i)
  }

  /** The classification agrees with closed-interval set semantics: `None`
      when no offset is shared, `Inside` when every offset of `a` is one of
      `b`'s, `Contain` when `a` strictly encloses `b`, `Partial` otherwise. */
  lemma IntersectionMeaning(a: Range, b: Range)
    requires Valid(a) && Valid(b)
    ensures GetIntersection(a, b) == None <==> !Touch(a, b)
    ensures GetIntersection(a, b) == Inside <==> Within(a, b)
    ensures GetIntersection(a, b) == Contain <==> Within(b, a) && !Within(a, b)
    ensures GetIntersection(a, b) == Partial <==> Touch(a, b) && !Within(a, b) && !Within(b, a)
  {
    var lo := if a.start < b.start then b.start else a.start;
    if !(a.end < b.start || b.end < a.start) {
      assert Covers(a, lo) && Covers(b, lo);
    }
    if Within(a, b) {
      assert Covers(a, a.start) && Covers(a, a.end);
    }
    if Within(b, a) {
      assert Covers(b, b.start) && Covers(b, b.end);
    }
  }

  /** Swapping the arguments keeps `None` and `Partial`, and turns
      `Contain` into `Inside`; equal ranges are `Inside` both ways. */
  lemma IntersectionMirror(a: Range, b: Range)
    requires Valid(a) && Valid(b)
    ensures GetIntersection(a, b) == None <==> GetIntersection(b, a) == None
    ensures GetIntersection(a, b) == Partial <==> GetIntersection(b, a) == Partial
    ensures GetIntersection(a, b) == Contain <==> GetIntersection(b, a) == Inside && a != b
    ensures a == b ==> GetIntersection(a, b) == Inside
  {
  }

  /** The literal cases of the range test suite. */
  lemma IntersectionFixtures()
    ensures GetIntersection(Range(4, 20), Range(21, 80)) == None
    ensures GetIntersection(Range(21, 80), Range(4, 20)) == None
    ensures GetIntersection(Range(4, 20), Range(69, 80)) == None
    ensures GetIntersection(Range(4, 20), Range(5, 21)) == Partial
    ensures GetIntersection(Range(5, 21), Range(4, 20)) == Partial
    ensures GetIntersection(Range(4, 20), Range(20, 21)) == Partial
    ensures GetIntersection(Range(4, 20), Range(1, 4)) == Partial
    ensures GetIntersection(Range(4, 20), Range(3, 21)) == Inside
    ensures GetIntersection(Range(4, 20), Range(4, 21)) == Inside
    ensures GetIntersection(Range(5, 21), Range(4, 21)) == Inside
    ensures GetIntersection(Range(3, 21), Range(4, 20)) == Contain
    ensures GetIntersection(Range(4, 21), Range(4, 20)) == Contain
    ensures GetIntersection(Range(4, 21), Range(5, 21)) == Contain
    ensures MakeRange(1, 10) == Wrappers.Success(Range(1, 10))
    ensures MakeRange(10, 1).Failure? && MakeRange(-1, 10).Failure?
    ensures TryRange(1, 10) == Wrappers.Some(Range(1, 10))
    ensures TryRange(10, 1).None? && TryRange(-1, 10).None?
  {
  }
}
