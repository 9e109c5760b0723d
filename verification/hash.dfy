/** `hashString`: a 32-bit rolling hash of the input rendered as `length`
    characters of a 62-letter URL-safe alphabet. */
module Hash {

  const TwoTo31: int := 0x8000_0000
  const TwoTo32: int := 0x1_0000_0000

  /** Size of the alphabet `A`-`Z`, `a`-`z`, `0`-`9`. */
  const AlphabetSize: nat := 62

  /** Character `k` of the alphabet, which lists `A`-`Z`, then `a`-`z`,
      then `0`-`9`. */
  function AlphabetAt(k: nat): (c: char)
    requires k < AlphabetSize
    ensures IsUrlSafe(c)
  {
    if k < 26 then ('A' as int + k) as char
    else if k < 52 then ('a' as int + (k - 26)) as char
    else ('0' as int + (k - 52)) as char
  }

  predicate IsInt32(x: int) {
    -TwoTo31 <= x < TwoTo31
  }

  /** ECMAScript ToInt32 on an integral number (section 7.1.6 of
      ECMA-262): the value congruent to `x` modulo 2^32 in the signed
      32-bit range. */
  function ToInt32(x: int): (r: int)
    ensures IsInt32(r)
    ensures IsInt32(x) ==> r == x
  {
    (x + TwoTo31) % TwoTo32 - TwoTo31
  }

  /** One loop iteration: `hash = (hash << 5) - hash + code; hash |= 0`.
      The shift converts its operand with ToInt32 and yields a 32-bit
      value; the subtraction and addition are exact; `|= 0` truncates. */
  function Step(h: int, c: char): int
  {
    ToInt32(ToInt32(h * 32) - h + c as int)
  }

  /** The hash value after consuming all of `s`, left to right. */
  function HashValue(s: string): (h: int)
    ensures IsInt32(h)
  {
    if |s| == 0 then 0 else Step(HashValue(s[..|s| - 1]), s[|s| - 1])
  }

  /** `hashString(input, length)`: a negative length yields the empty
      string. */
  function HashString(input: string, length: int): (r: string)
    ensures |r| == if length < 0 then 0 else length
    ensures forall i :: 0 <= i < |r| ==> IsUrlSafe(r[i])
  {
    var h := HashValue(input);
    var n := if length < 0 then 0 else length;
    var r := seq(n, i => AlphabetAt(Abs(h + i) % AlphabetSize));
    assert forall i :: 0 <= i < n ==> r[i] == AlphabetAt(Abs(h + i) % AlphabetSize);
    r
  }

  function Abs(x: int): nat {
    if x < 0 then -x else x
  }

  predicate IsUrlSafe(c: char) {
    ('A' <= c <= 'Z') || ('a' <= c <= 'z') || ('0' <= c <= '9')
  }

  // Reference definition: the hash is the polynomial `sum s[i] * 31^(n-1-i)`
  // reduced to a signed 32-bit integer.

  function Poly(s: string): int
  {
    if |s| == 0 then 0 else 31 * Poly(s[..|s| - 1]) + s[|s| - 1] as int
  }

  lemma ModUnique(y: int, q: int, r: int)
    requires y == TwoTo32 * q + r && 0 <= r < TwoTo32
    ensures y % TwoTo32 == r
  {
  }

  /** ToInt32 only depends on its argument modulo 2^32. */
  lemma ToInt32Shift(x: int, t: int)
    ensures ToInt32(x + TwoTo32 * t) == ToInt32(x)
  {
    var y := x + TwoTo31;
    ModUnique(y + TwoTo32 * t, y / TwoTo32 + t, y % TwoTo32);
  }

  /** ToInt32 subtracts a multiple of 2^32. */
  lemma ToInt32Offset(x: int)
    ensures ToInt32(x) == x + TwoTo32 * (-((x + TwoTo31) / TwoTo32))
  {
  }

  /** The shift-subtract-add step is multiplication by 31 modulo 2^32. */
  lemma StepIsTimes31(h: int, c: char)
    ensures Step(h, c) == ToInt32(31 * h + c as int)
  {
    var q := -((h * 32 + TwoTo31) / TwoTo32);
    ToInt32Offset(h * 32);
    assert ToInt32(h * 32) - h + c as int == (31 * h + c as int) + TwoTo32 * q;
    ToInt32Shift(31 * h + c as int, q);
  }

  /** The loop computes the polynomial hash modulo 2^32. */
  lemma {:induction false} HashIsPolynomial(s: string)
    ensures HashValue(s) == ToInt32(Poly(s))
    decreases |s|
  {
    if |s| > 0 {
      var p := s[..|s| - 1];
      var c := s[|s| - 1];
      HashIsPolynomial(p);
      StepIsTimes31(HashValue(p), c);
      var q := -((Poly(p) + TwoTo31) / TwoTo32);
      ToInt32Offset(Poly(p));
      assert 31 * HashValue(p) + c as int == Poly(s) + TwoTo32 * (31 * q);
      ToInt32Shift(Poly(s), 31 * q);
    }
  }

  /** Character `i` of the result is chosen by `|hash + i| mod 62`. */
  lemma HashStringCharacters(input: string, length: int, i: int)
    requires 0 <= i < length
    ensures HashString(input, length)[i] == AlphabetAt(Abs(HashValue(input) + i) % 62)
  {
  }

  /** The hash values of the test inputs "test1" and "test2" are
      adjacent. */
  lemma HashValueFixtures()
    ensures HashValue("test1") == 110251487 && HashValue("test2") == 110251488
  {
    assert "te"[..1] == "t" && "tes"[..2] == "te" && "test"[..3] == "tes";
    assert HashValue("t") == 116;
    assert HashValue("te") == 3697;
    assert HashValue("tes") == 114722;
    assert HashValue("test") == 3556498;
    assert "test1"[..4] == "test" && "test2"[..4] == "test";
  }

  /** Distinct positions hold distinct characters. */
  lemma AlphabetInjective(j: nat, k: nat)
    requires j < AlphabetSize && k < AlphabetSize && j != k
    ensures AlphabetAt(j) != AlphabetAt(k)
  {
  }

  /** Inputs whose hashes differ by one render differently. */
  lemma AdjacentHashesDiffer(a: string, b: string, length: int)
    requires length > 0 && 0 <= HashValue(a) && HashValue(b) == HashValue(a) + 1
    requires HashValue(a) % 62 != 61
    ensures HashString(a, length) != HashString(b, length)
  {
    var h := HashValue(a);
    HashStringCharacters(a, length, 0);
    HashStringCharacters(b, length, 0);
    NextResidue(h);
    AlphabetInjective(h % 62, h % 62 + 1);
  }

  lemma NextResidue(h: nat)
    requires h % 62 != 61
    ensures Abs(h + 1) % 62 == h % 62 + 1 && Abs(h) % 62 == h % 62
  {
    var q := h / 62;
    assert h + 1 == 62 * q + (h % 62 + 1);
  }

  /** "test1" and "test2" render differently. */
  lemma HashStringDistinctFixture()
    ensures HashString("test1", 10) != HashString("test2", 10)
  {
    HashValueFixtures();
    assert 110251487 % 62 == 49;
    AdjacentHashesDiffer("test1", "test2", 10);
  }

  /** The empty input hashes to 0 and renders `ABCDEFGHIJ`;
      zero and negative lengths give the empty string. */
  lemma HashStringFixtures()
    ensures forall i :: 0 <= i < 10 ==> HashString("", 10)[i] == ('A' as int + i) as char
    ensures HashString("test", 0) == [] && HashString("test", -5) == []
    ensures |HashString("test", 1000)| == 1000
  {
    forall i | 0 <= i < 10 ensures HashString("", 10)[i] == ('A' as int + i) as char {
      HashStringCharacters("", 10, i);
    }
  }
}
