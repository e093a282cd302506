/** The rejection threshold of `arc4random_uniform` and why it makes the result uniform. */
module UniformSampling {
  import opened Arithmetic

  const TWO32: int := 0x1_0000_0000

  type uint32 = x: int | 0 <= x < 0x1_0000_0000

  /** A value stored into an `ev_uint32_t`. */
  function Wrap32(x: int): uint32 {
    x % 0x1_0000_0000
  }

  /** Bitwise complement of an `unsigned int`. */
  function Complement(x: uint32): uint32 {
    0xffff_ffff - x
  }

  /** `min` as arc4random_uniform computes it, without 64-bit arithmetic. */
  function Threshold(bound: uint32): int
    requires 2 <= bound
  {
    if bound > 0x8000_0000 then
      Wrap32(1 + Complement(bound))
    else
      Wrap32(Wrap32(0xffff_ffff - Wrap32(bound * 2)) + 1) % bound
  }

  lemma Wrap32Range(x: int)
    ensures 0 <= x < TWO32 ==> Wrap32(x) == x
    ensures TWO32 <= x < 2 * TWO32 ==> Wrap32(x) == x - TWO32
  {
  }

  /** Both branches compute 2^32 mod bound, also at 2^31 where the doubling wraps to zero. */
  lemma ThresholdIsRemainder(bound: uint32)
    requires 2 <= bound
    ensures Threshold(bound) == TWO32 % bound
  {
    hide Wrap32;
    var b: int := bound;
    Wrap32Range(b * 2);
    if b > 0x8000_0000 {
      Wrap32Range(TWO32 - b);
      ModIsUnique(TWO32, bound, 1, TWO32 - b);
    } else if b == 0x8000_0000 {
      Wrap32Range(0xffff_ffff);
      Wrap32Range(TWO32);
      ModIsUnique(TWO32, bound, 2, 0);
      ModIsUnique(0, bound, 0, 0);
    } else {
      Wrap32Range(0xffff_ffff - 2 * b);
      Wrap32Range(TWO32 - 2 * b);
      SubtractTwice(bound);
    }
  }

  lemma SubtractTwice(bound: uint32)
    requires 0 < bound
    ensures var rest: int := TWO32 - 2 * bound; rest % bound == TWO32 % bound
  {
    var rest: int, d: int := TWO32 - 2 * bound, bound;
    var q, r := rest / d, rest % d;
    assert rest == d * q + r;
    assert TWO32 == d * (q + 2) + r;
    ModIsUnique(TWO32, bound, q + 2, r);
  }

  predicate Accepted(word: int, bound: uint32)
    requires 2 <= bound
  {
    word >= TWO32 % bound
  }

  /** The words of [low, low + bound * n) that leave residue v. */
  ghost function WithResidue(low: int, bound: nat, n: nat, v: int): set<int>
    requires 0 < bound
  {
    set r: int | low <= r < low + bound * n && r % bound == v
  }

  /** Among any bound consecutive numbers exactly one leaves a given residue. */
  lemma OneInEachBlock(low: int, bound: nat, v: int) returns (r: int)
    requires 0 <= v < bound
    ensures low <= r < low + bound && r % bound == v
    ensures forall x :: low <= x < low + bound && x % bound == v ==> x == r
  {
    var q, m := low / bound, low % bound;
    r := if m <= v then low + (v - m) else low + (v - m) + bound;
    if m <= v {
      assert r == bound * q + v;
      ModIsUnique(r, bound, q, v);
    } else {
      assert r == bound * (q + 1) + v;
      ModIsUnique(r, bound, q + 1, v);
    }
    forall x | low <= x < low + bound && x % bound == v ensures x == r {
      var e := x / bound - r / bound;
      assert x - r == bound * e;
      if e > 0 { MulMonotone(bound, 1, e); }
      if e < 0 { MulMonotone(bound, e, -1); }
    }
  }

  lemma {:induction false} ResidueCount(low: int, bound: nat, n: nat, v: int)
    requires 0 <= v < bound
    ensures |WithResidue(low, bound, n, v)| == n
  {
    if n == 0 {
      assert WithResidue(low, bound, n, v) == {};
    } else {
      var front := WithResidue(low, bound, n - 1, v);
      ResidueCount(low, bound, n - 1, v);
      var next := low + bound * (n - 1);
      assert next + bound == low + bound * n;
      var r := OneInEachBlock(next, bound, v);
      assert WithResidue(low, bound, n, v) == front + {r};
    }
  }

  /** The 32-bit words that are accepted and reduce to v. */
  ghost function AcceptedFor(bound: uint32, v: int): set<int>
    requires 2 <= bound
  {
    set r: int | 0 <= r < TWO32 && Accepted(r, bound) && r % bound == v
  }

  /** Uniformity: every result below the bound comes from exactly floor(2^32 / bound) accepted words. */
  lemma EveryResultEquallyLikely(bound: uint32, v: int)
    requires 2 <= bound && 0 <= v < bound
    ensures |AcceptedFor(bound, v)| == TWO32 / bound
  {
    var q, min := TWO32 / bound, TWO32 % bound;
    assert TWO32 == bound * q + min;
    assert AcceptedFor(bound, v) == WithResidue(min, bound, q, v);
    ResidueCount(min, bound, q, v);
  }

  /** More than half of the 2^32 words are accepted. */
  lemma MoreThanHalfAccepted(bound: uint32)
    requires 2 <= bound
    ensures forall r :: TWO32 / 2 - 1 <= r < TWO32 ==> Accepted(r, bound)
  {
    var q, min := TWO32 / bound, TWO32 % bound;
    assert TWO32 == bound * q + min;
    if q < 1 { MulMonotone(bound, q, 0); }
    MulMonotone(bound, 1, q);
  }
}
