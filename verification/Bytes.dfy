/** Bytes, the numbers they spell in either byte order, and the mask arithmetic
    shared by the file, memory and cipher models. */
module Bytes {

  type byte = x: int | 0 <= x < 256

  /** One AES block. */
  type Block = s: seq<byte> | |s| == 16 witness seq(16, _ => 0)

  type u32 = x: int | 0 <= x < 0x1_0000_0000

  type u64 = x: int | 0 <= x < 0x1_0000_0000_0000_0000

  function Min(a: nat, b: nat): (r: nat)
    ensures r <= a && r <= b && (r == a || r == b)
  {
    if a < b then a else b
  }

  function Max(a: nat, b: nat): (r: nat)
    ensures r >= a && r >= b && (r == a || r == b)
  {
    if a > b then a else b
  }

  /** Guest memory is addressed with 32 bits. */
  const GUEST: nat := 0x1_0000_0000

  /** The sum of two bits without carry. */
  function Parity(p: nat, q: nat): nat
    requires p < 2 && q < 2
  {
    if p == q then 0 else 1
  }

  /** Exclusive or, bit by bit from the lowest. */
  function XorNat(a: nat, b: nat): nat
    decreases a + b
  {
    if a == 0 && b == 0 then 0 else Parity(a % 2, b % 2) + 2 * XorNat(a / 2, b / 2)
  }

  lemma {:induction false} XorNatBound(a: nat, b: nat, n: nat)
    requires a < Pow2(n) && b < Pow2(n)
    ensures XorNat(a, b) < Pow2(n)
    decreases n
  {
    if n > 0 {
      XorNatBound(a / 2, b / 2, n - 1);
    }
  }

  lemma {:induction false} XorNatCancels(a: nat, b: nat)
    ensures XorNat(XorNat(a, b), b) == a
    decreases a + b
  {
    if a != 0 || b != 0 {
      XorNatCancels(a / 2, b / 2);
      var bit, high := Parity(a % 2, b % 2), XorNat(a / 2, b / 2);
      var r := bit + 2 * high;
      assert r == XorNat(a, b) && r / 2 == high && r % 2 == bit;
      assert Parity(bit, b % 2) == a % 2;
    }
  }

  function Xor(a: byte, b: byte): byte {
    assert Pow2(8) == 256 by { assert Pow2(4) == 16; }
    XorNatBound(a, b, 8);
    XorNat(a, b)
  }

  lemma XorCancels(a: byte, b: byte)
    ensures Xor(Xor(a, b), b) == a
  {
    XorNatCancels(a, b);
  }

  // ---- Quotients ---------------------------------------------------------------

  lemma DivUnique(x: nat, d: nat, q: nat, r: nat)
    requires x == q * d + r && r < d
    ensures x / d == q && x % d == r
  {
    var t := x / d - q;
    assert t * d == r - x % d;
    MultipleApart(t, d);
  }

  lemma MultipleApart(t: int, m: nat)
    ensures t >= 1 ==> t * m >= m
    ensures t <= -1 ==> t * m + m <= 0
  {
  }

  lemma DivDiv(x: nat, a: nat, b: nat)
    requires a > 0 && b > 0
    ensures a * b > 0 && x / a / b == x / (a * b)
  {
    var y := x / a;
    var q, r, s := y / b, y % b, x % a;
    Nested(x, a, b, y, q, r, s);
    DivUnique(x, a * b, q, r * a + s);
  }

  lemma Nested(x: nat, a: nat, b: nat, y: nat, q: nat, r: nat, s: nat)
    requires x == y * a + s && s < a && y == q * b + r && r < b
    ensures x == q * (a * b) + (r * a + s) && r * a + s < a * b
  {
    Expand(q, b, r, a);
    RemainderBelow(r, a, b, s);
  }

  lemma Expand(q: nat, b: nat, r: nat, a: nat)
    ensures (q * b + r) * a == q * (a * b) + r * a
  {
  }

  lemma RemainderBelow(r: nat, a: nat, b: nat, s: nat)
    requires r < b && s < a
    ensures r * a + s < a * b
  {
    assert r * a <= (b - 1) * a;
  }

  // ---- Bits ---------------------------------------------------------------------

  /** Bit k, from the low end. */
  function BitAt(x: nat, k: nat): nat {
    x / Pow2(k) % 2
  }

  lemma BitZero(x: nat)
    ensures BitAt(x, 0) == x % 2
  {
  }

  lemma BitHalf(x: nat, k: nat)
    requires k > 0
    ensures BitAt(x, k) == BitAt(x / 2, k - 1)
  {
    DivDiv(x, 2, Pow2(k - 1));
  }

  // ---- Exclusive or on machine bytes ------------------------------------------------

  function Num(x: bv8): byte {
    x as int
  }

  function Bits(a: byte): bv8 {
    a as bv8
  }

  lemma HalfByte(x: bv8)
    ensures Num(x >> 1) == Num(x) / 2
  {
  }

  lemma LowBit(x: bv8)
    ensures Num(x & 1) == Num(x) % 2
  {
  }

  lemma HalfXor(x: bv8, y: bv8)
    ensures (x ^ y) >> 1 == (x >> 1) ^ (y >> 1)
    ensures (x ^ y) & 1 == (x & 1) ^ (y & 1)
    ensures (x & 1) ^ (y & 1) == if x & 1 == y & 1 then 0 else 1
  {
  }

  lemma HalvesOfXor(x: bv8, y: bv8)
    ensures Num(x ^ y) / 2 == Num((x >> 1) ^ (y >> 1))
    ensures Num(x ^ y) % 2 == Parity(Num(x) % 2, Num(y) % 2)
  {
    HalfByte(x ^ y);
    LowBit(x);
    LowBit(y);
    LowBit(x ^ y);
    HalfXor(x, y);
  }

  lemma XorNatOfZero(x: bv8, y: bv8)
    requires Num(x) == 0 && Num(y) == 0
    ensures XorNat(Num(x), Num(y)) == Num(x ^ y)
  {
    assert x == 0 && y == 0;
  }

  lemma {:induction false} XorNatOfBytes(x: bv8, y: bv8, n: nat)
    requires Num(x) < Pow2(n) && Num(y) < Pow2(n)
    ensures XorNat(Num(x), Num(y)) == Num(x ^ y)
    decreases n
  {
    if n == 0 {
      XorNatOfZero(x, y);
    } else {
      hide *;
      HalvesBelow(x, n);
      HalvesBelow(y, n);
      XorNatOfBytes(x >> 1, y >> 1, n - 1);
      XorNatOfHalves(x, y);
    }
  }

  lemma HalvesBelow(x: bv8, n: nat)
    requires n > 0 && Num(x) < Pow2(n)
    ensures Num(x >> 1) < Pow2(n - 1)
  {
    hide Num;
    HalfByte(x);
  }

  lemma XorNatOfHalves(x: bv8, y: bv8)
    requires XorNat(Num(x >> 1), Num(y >> 1)) == Num((x >> 1) ^ (y >> 1))
    ensures XorNat(Num(x), Num(y)) == Num(x ^ y)
  {
    hide *;
    HalfByte(x);
    HalfByte(y);
    HalvesOfXor(x, y);
    XorNatStep(Num(x), Num(y), Num(x ^ y));
  }

  lemma XorNatStep(a: nat, b: nat, c: nat)
    requires c / 2 == XorNat(a / 2, b / 2) && c % 2 == Parity(a % 2, b % 2)
    ensures XorNat(a, b) == c
  {
  }

  lemma NextByte(x: bv8)
    requires Num(x) < 255
    ensures Num(x + 1) == Num(x) + 1
  {
  }

  lemma {:induction false} SomeBits(a: byte) returns (x: bv8)
    ensures Num(x) == a
    decreases a
  {
    if a == 0 {
      x := 0;
    } else {
      x := SomeBits(a - 1);
      NextByte(x);
      x := x + 1;
    }
  }

  lemma BitsOfNum(x: bv8)
    ensures Bits(Num(x)) == x
  {
  }

  lemma ByteThroughBits(a: byte)
    ensures Num(Bits(a)) == a
  {
    hide Num, Bits;
    var x := SomeBits(a);
    BitsOfNum(x);
  }

  /** c is the machine's exclusive or of a and b. */
  predicate XorIs(a: byte, b: byte, c: byte) {
    (c as bv8) == (a as bv8) ^ (b as bv8)
  }

  lemma XorIsBits(a: byte, b: byte, c: byte)
    ensures XorIs(a, b, c) <==> Bits(c) == Bits(a) ^ Bits(b)
  {
  }

  /** The bit-by-bit definition is the machine's own operation. */
  lemma XorIsMachineXor(a: byte, b: byte, c: byte)
    ensures Xor(a, b) == c <==> XorIs(a, b, c)
  {
    PowerEight();
    hide XorNat, Num, Bits, Pow2, XorIs;
    XorIsBits(a, b, c);
    ByteThroughBits(a);
    ByteThroughBits(b);
    ByteThroughBits(c);
    XorNatOfBytes(Bits(a), Bits(b), 8);
    BitsOfNum(Bits(a) ^ Bits(b));
  }

  lemma PowerEight()
    ensures Pow2(8) == 256
  {
    assert Pow2(4) == 16;
  }

  // ---- Numbers and bytes -----------------------------------------------------------

  function Pow2(n: nat): (p: nat)
    ensures p > 0
  {
    if n == 0 then 1 else 2 * Pow2(n - 1)
  }

  function Pow256(n: nat): (p: nat)
    ensures p > 0
  {
    if n == 0 then 1 else 256 * Pow256(n - 1)
  }

  /** The number a byte string spells, least significant byte first. */
  function LeNum(s: seq<byte>): nat {
    if s == [] then 0 else s[0] + 256 * LeNum(s[1..])
  }

  /** The n least significant bytes of v, least significant first. */
  function LeBytes(v: nat, n: nat): (s: seq<byte>)
    ensures |s| == n
  {
    if n == 0 then [] else [v % 256] + LeBytes(v / 256, n - 1)
  }

  lemma {:induction false} LeNumBound(s: seq<byte>)
    ensures LeNum(s) < Pow256(|s|)
  {
    if s != [] {
      LeNumBound(s[1..]);
    }
  }

  lemma {:induction false} LeNumOfBytes(v: nat, n: nat)
    requires v < Pow256(n)
    ensures LeNum(LeBytes(v, n)) == v
  {
    if n > 0 {
      LeNumOfBytes(v / 256, n - 1);
      assert LeBytes(v, n)[1..] == LeBytes(v / 256, n - 1);
    }
  }

  lemma {:induction false} LeBytesOfNum(s: seq<byte>)
    ensures LeBytes(LeNum(s), |s|) == s
  {
    if s != [] {
      LeBytesOfNum(s[1..]);
      assert LeNum(s) % 256 == s[0] && LeNum(s) / 256 == LeNum(s[1..]);
      assert s == [s[0]] + s[1..];
    }
  }

  /** Appending a most significant byte adds it at its place value. */
  lemma {:induction false} LeNumAppend(s: seq<byte>, b: byte)
    ensures LeNum(s + [b]) == LeNum(s) + b * Pow256(|s|)
  {
    if s == [] {
      assert [b][1..] == [];
    } else {
      LeNumAppend(s[1..], b);
      assert (s + [b])[1..] == s[1..] + [b];
      assert 256 * (b * Pow256(|s| - 1)) == b * Pow256(|s|);
    }
  }

  /** The number a byte string spells, most significant byte first. */
  function BeNum(s: seq<byte>): nat {
    if s == [] then 0 else 256 * BeNum(s[..|s| - 1]) + s[|s| - 1]
  }

  /** The n least significant bytes of v, most significant first. */
  function BeBytes(v: nat, n: nat): (s: seq<byte>)
    ensures |s| == n
  {
    if n == 0 then [] else BeBytes(v / 256, n - 1) + [v % 256]
  }

  lemma {:induction false} BeNumBound(s: seq<byte>)
    ensures BeNum(s) < Pow256(|s|)
  {
    if s != [] {
      BeNumBound(s[..|s| - 1]);
    }
  }

  lemma {:induction false} BeNumOfBytes(v: nat, n: nat)
    requires v < Pow256(n)
    ensures BeNum(BeBytes(v, n)) == v
  {
    if n > 0 {
      BeNumOfBytes(v / 256, n - 1);
      assert BeBytes(v, n)[..n - 1] == BeBytes(v / 256, n - 1);
    }
  }

  lemma {:induction false} BeBytesOfNum(s: seq<byte>)
    ensures BeBytes(BeNum(s), |s|) == s
  {
    if s != [] {
      var head := s[..|s| - 1];
      BeBytesOfNum(head);
      assert BeNum(s) % 256 == s[|s| - 1] && BeNum(s) / 256 == BeNum(head);
      assert s == head + [s[|s| - 1]];
    }
  }

  /** Byte k of n is the digit with n - 1 - k digits below it: the most significant comes first. */
  lemma {:induction false} BeByteAt(v: nat, n: nat, k: nat)
    requires k < n
    ensures BeBytes(v, n)[k] == v / Pow256(n - 1 - k) % 256
  {
    if k < n - 1 {
      BeByteAt(v / 256, n - 1, k);
      DivDiv(v, 256, Pow256(n - 2 - k));
    }
  }

  /** Byte k is the digit with k digits below it: the least significant comes first. */
  lemma {:induction false} LeByteAt(v: nat, n: nat, k: nat)
    requires k < n
    ensures LeBytes(v, n)[k] == v / Pow256(k) % 256
  {
    if k > 0 {
      LeByteAt(v / 256, n - 1, k - 1);
      DivDiv(v, 256, Pow256(k - 1));
    }
  }

  lemma BeBytesInjective(v: nat, w: nat, n: nat)
    requires v < Pow256(n) && w < Pow256(n)
    requires BeBytes(v, n) == BeBytes(w, n)
    ensures v == w
  {
    BeNumOfBytes(v, n);
    BeNumOfBytes(w, n);
  }

  lemma Widths()
    ensures Pow256(2) == 0x1_0000 && Pow256(4) == 0x1_0000_0000 && Pow256(8) == 0x1_0000_0000_0000_0000
  {
  }

  // ---- Overwriting a stretch of a byte string ------------------------------------

  /** d with `data` written over it at `at`. */
  function Splice(d: seq<byte>, at: nat, data: seq<byte>): (r: seq<byte>)
    requires at + |data| <= |d|
    ensures |r| == |d|
    ensures forall k :: 0 <= k < |d| ==> r[k] == if at <= k < at + |data| then data[k - at] else d[k]
  {
    d[..at] + data + d[at + |data|..]
  }

  lemma SpliceSlices(d: seq<byte>, at: nat, data: seq<byte>, a: nat, b: nat)
    requires at + |data| <= |d| && a <= b <= |d|
    ensures Splice(d, at, data)[at..at + |data|] == data
    ensures b <= at || at + |data| <= a ==> Splice(d, at, data)[a..b] == d[a..b]
  {
  }

  /** d holds s at o. */
  predicate SliceIs(d: seq<byte>, o: nat, s: seq<byte>) {
    o + |s| <= |d| && d[o..o + |s|] == s
  }

  lemma SliceAt(d: seq<byte>, o: nat, s: seq<byte>, k: nat)
    requires SliceIs(d, o, s) && k < |s|
    ensures d[o + k] == s[k]
  {
    assert d[o..o + |s|][k] == d[o + k];
  }

  lemma SliceWritten(d: seq<byte>, at: nat, data: seq<byte>)
    requires at + |data| <= |d|
    ensures SliceIs(Splice(d, at, data), at, data)
  {
    SpliceSlices(d, at, data, 0, 0);
  }

  lemma SliceKept(d: seq<byte>, at: nat, data: seq<byte>, o: nat, s: seq<byte>)
    requires at + |data| <= |d| && SliceIs(d, o, s) && (o + |s| <= at || at + |data| <= o)
    ensures SliceIs(Splice(d, at, data), o, s)
  {
    SpliceSlices(d, at, data, o, o + |s|);
  }

  method WriteAt(out: array<byte>, at: nat, data: seq<byte>)
    requires at + |data| <= out.Length
    modifies out
    ensures out[..] == Splice(old(out[..]), at, data)
  {
    for i := 0 to |data|
      invariant out[..] == Splice(old(out[..]), at, data[..i])
    {
      out[at + i] := data[i];
      assert data[..i + 1] == data[..i] + [data[i]];
    }
    assert data[..|data|] == data;
  }
}
