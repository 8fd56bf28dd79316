/** The rounding idiom (x + a - 1) & ~(a - 1) on unbounded integers. */
module Align {
  import opened Bytes

  /** x & ~m, bit by bit from the lowest. */
  function AndNot(x: nat, m: nat): nat {
    if x == 0 then 0 else (if x % 2 == 1 && m % 2 == 0 then 1 else 0) + 2 * AndNot(x / 2, m / 2)
  }

  lemma {:induction false} AndNotBounds(x: nat, m: nat)
    ensures x - m <= AndNot(x, m) <= x
  {
    if x > 0 {
      AndNotBounds(x / 2, m / 2);
    }
  }

  lemma AndNotHalves(x: nat, m: nat)
    ensures AndNot(x, m) / 2 == AndNot(x / 2, m / 2)
    ensures AndNot(x, m) % 2 == 1 <==> x % 2 == 1 && m % 2 == 0
  {
  }

  /** A bit is kept exactly where the mask has none. */
  lemma {:induction false} AndNotBits(x: nat, m: nat, k: nat)
    ensures BitAt(AndNot(x, m), k) == 1 <==> BitAt(x, k) == 1 && BitAt(m, k) == 0
    decreases k
  {
    hide BitAt, AndNot;
    AndNotHalves(x, m);
    var r := AndNot(x, m);
    if k == 0 {
      BitZero(r);
      BitZero(x);
      BitZero(m);
    } else {
      BitHalf(r, k);
      BitHalf(x, k);
      BitHalf(m, k);
      AndNotBits(x / 2, m / 2, k - 1);
    }
  }

  function Times(q: nat, a: nat): nat {
    q * a
  }

  predicate Multiple(r: nat, a: nat) {
    exists q: nat :: q <= r && Times(q, a) == r
  }

  /** Clearing the k low bits leaves a multiple of 2^k. */
  lemma {:induction false} AndNotLowOnes(x: nat, k: nat) returns (q: nat)
    ensures AndNot(x, Pow2(k) - 1) == q * Pow2(k)
    decreases k
  {
    if k == 0 {
      q := x;
      AndNotZero(x);
    } else if x == 0 {
      q := 0;
    } else {
      q := AndNotLowOnes(x / 2, k - 1);
      assert (Pow2(k) - 1) / 2 == Pow2(k - 1) - 1 && (Pow2(k) - 1) % 2 == 1;
      Double(q, Pow2(k - 1));
    }
  }

  lemma Double(q: nat, p: nat)
    ensures 2 * (q * p) == q * (2 * p)
  {
  }

  lemma {:induction false} AndNotZero(x: nat)
    ensures AndNot(x, 0) == x
  {
    if x > 0 {
      AndNotZero(x / 2);
    }
  }

  lemma {:induction false} AndNotSelf(x: nat)
    ensures AndNot(x, x) == 0
  {
    if x > 0 {
      AndNotSelf(x / 2);
    }
  }

  /** x & ~(x - 1) is the lowest set bit. */
  lemma {:induction false} LowestBit(x: nat) returns (k: nat)
    requires x > 0
    ensures AndNot(x, x - 1) == Pow2(k) <= x
  {
    if x % 2 == 1 {
      k := 0;
      AndNotSelf(x / 2);
    } else {
      k := LowestBit(x / 2);
      assert (x - 1) / 2 == x / 2 - 1;
      k := k + 1;
    }
  }

  /** (x + align - 1) & ~(align - 1). */
  function AlignUp(x: nat, align: nat): (r: nat)
    requires align > 0
    ensures x <= r < x + align
  {
    AndNotBounds(x + align - 1, align - 1);
    AndNot(x + align - 1, align - 1)
  }

  lemma AlignsToPowerOfTwo(x: nat, align: nat, k: nat)
    requires align == Pow2(k)
    ensures Multiple(AlignUp(x, align), align)
  {
    var q := AndNotLowOnes(x + align - 1, k);
    assert Times(q, align) == AlignUp(x, align);
    FactorBelow(q, align);
  }

  lemma MultipleMod(r: nat, a: nat)
    requires a > 0 && Multiple(r, a)
    ensures r % a == 0
  {
    var q: nat :| q <= r && Times(q, a) == r;
    DivUnique(r, a, q, 0);
  }

  /** For a power of two it is the least multiple that is not below x. */
  lemma AlignUpIsLeast(x: nat, align: nat, k: nat, m: nat)
    requires align == Pow2(k) && Multiple(m, align) && m >= x
    ensures AlignUp(x, align) <= m
  {
    AlignsToPowerOfTwo(x, align, k);
    var r := AlignUp(x, align);
    var q: nat :| q <= r && Times(q, align) == r;
    var p: nat :| p <= m && Times(p, align) == m;
    assert (q - p) * align == r - m;
    MultipleApart(q - p, align);
  }

  lemma FactorBelow(q: nat, a: nat)
    requires a > 0
    ensures q <= q * a
  {
  }

  /** The idiom aligns every value exactly when the alignment is a power of two. */
  lemma AlignUpAlignsIffPowerOfTwo(align: nat)
    requires align > 0
    ensures (forall x: nat :: Multiple(AlignUp(x, align), align)) <==> (exists k: nat :: align == Pow2(k))
  {
    if k: nat :| align == Pow2(k) {
      forall x: nat ensures Multiple(AlignUp(x, align), align) {
        AlignsToPowerOfTwo(x, align, k);
      }
    }
    if forall x: nat :: Multiple(AlignUp(x, align), align) {
      var k := LowestBit(align);
      var r := AlignUp(1, align);
      assert r == Pow2(k) && Multiple(r, align);
      var q: nat :| q <= r && Times(q, align) == r;
      OnlyOnce(q, align, r);
    }
  }

  lemma OnlyOnce(q: nat, a: nat, r: nat)
    requires q * a == r && 0 < r <= a
    ensures r == a
  {
    if q >= 2 {
      AtLeastTwice(q, a);
    }
  }

  lemma AtLeastTwice(q: nat, a: nat)
    requires q >= 2
    ensures q * a >= 2 * a
  {
  }
}
