/** The key mixing of scripts/decrypt_self.py: a 16-byte RAP becomes the content
    klicensee through one AES block decryption and five rounds of mixing.

    Every loop of a round visits the key through PBOX, so the model reads the key in
    PBOX order (`InOrder`).  In that order a round is an exclusive or with E1, a running
    exclusive or, and one subtraction of 128-bit little-endian numbers. */
module Rap {
  import opened Bytes

  const PBOX: seq<nat> := [0x0C, 0x03, 0x06, 0x04, 0x01, 0x0B, 0x0F, 0x08,
                           0x02, 0x07, 0x00, 0x05, 0x0A, 0x0E, 0x0D, 0x09]

  const E1: seq<byte> := [0xA9, 0x3E, 0x1F, 0xD6, 0x7C, 0x55, 0xA3, 0x29,
                          0xB7, 0x5F, 0xDD, 0xA6, 0x2A, 0x95, 0xC7, 0xA5]

  const E2: seq<byte> := [0x67, 0xD4, 0x5D, 0xA3, 0x29, 0x6D, 0x00, 0x6A,
                          0x4E, 0x7C, 0x53, 0x7B, 0xF5, 0x53, 0x8C, 0x74]

  /** Where PBOX mentions each index. */
  const PBOX_AT: seq<nat> := [10, 4, 8, 1, 3, 11, 2, 9, 7, 15, 12, 5, 0, 14, 13, 6]

  /** The i-th index a mixing loop visits. */
  function P(i: nat): (p: nat)
    requires i < 16
    ensures p < 16
  {
    PBOX[i]
  }

  function At(p: nat): (i: nat)
    requires p < 16
    ensures i < 16
  {
    PBOX_AT[p]
  }

  lemma PboxIsPermutation()
    ensures forall i: nat :: i < 16 ==> At(P(i)) == i
    ensures forall p: nat :: p < 16 ==> P(At(p)) == p
  {
  }

  /** The key read in the order the loops visit it. */
  function InOrder(key: Block): Block {
    seq(16, i requires 0 <= i < 16 => key[P(i)])
  }

  /** The key whose PBOX-order reading is d. */
  function FromOrder(d: Block): Block {
    seq(16, p requires 0 <= p < 16 => d[At(p)])
  }

  lemma OrderRoundTrip(key: Block)
    ensures FromOrder(InOrder(key)) == key
    ensures InOrder(FromOrder(key)) == key
  {
    PboxIsPermutation();
  }

  // ---- The three steps of a round, on the PBOX-order reading -------------------

  function XorE1(d: Block): Block {
    seq(16, i requires 0 <= i < 16 => Xor(d[i], E1[P(i)]))
  }

  /** Each byte is combined with the byte visited before it, all taken from d. */
  function Chain(d: Block): Block {
    seq(16, i requires 0 <= i < 16 => if i == 0 then d[0] else Xor(d[i], d[i - 1]))
  }

  /** a - b modulo m, for residues a and b. */
  function MinusMod(a: nat, b: nat, m: nat): (r: nat)
    requires a < m && b < m
    ensures r < m
  {
    if a >= b then a - b else a - b + m
  }

  function PlusMod(a: nat, b: nat, m: nat): (r: nat)
    requires a < m && b < m
    ensures r < m
  {
    if a + b < m then a + b else a + b - m
  }

  lemma ModularArithmetic(a: nat, b: nat, m: nat)
    requires a < m && b < m
    ensures MinusMod(a, b, m) == (a - b) % m
    ensures PlusMod(a, b, m) == (a + b) % m
  {
    ModOfSum(MinusMod(a, b, m), if a >= b then 0 else -1, m);
    ModOfSum(PlusMod(a, b, m), if a + b < m then 0 else 1, m);
  }

  lemma ModOfSum(r: nat, q: int, m: nat)
    requires r < m
    ensures (q * m + r) % m == r
  {
    var x := q * m + r;
    var t := x / m - q;
    assert t * m == r - x % m;
    MultipleApart(t, m);
  }

  /** Wrapping subtraction of the numbers d and e spell. */
  function Subtract(d: seq<byte>, e: seq<byte>): (r: seq<byte>)
    requires |d| == |e|
    ensures |r| == |d|
  {
    LeNumBound(d);
    LeNumBound(e);
    LeBytes(MinusMod(LeNum(d), LeNum(e), Pow256(|d|)), |d|)
  }

  /** What the borrow chain computes: the byte strings subtracted as 128-bit numbers. */
  lemma SubtractIsModular(d: Block, e: Block)
    ensures LeNum(Subtract(d, e)) == (LeNum(d) - LeNum(e)) % Pow256(|d|)
  {
    LeNumBound(d);
    LeNumBound(e);
    ModularArithmetic(LeNum(d), LeNum(e), Pow256(|d|));
    LeNumOfBytes(MinusMod(LeNum(d), LeNum(e), Pow256(|d|)), |d|);
  }

  function Round(d: Block): Block {
    Subtract(Chain(XorE1(d)), InOrder(E2))
  }

  function Rounds(d: Block, n: nat): Block {
    if n == 0 then d else Round(Rounds(d, n - 1))
  }

  function Mix(key: Block, n: nat): Block {
    FromOrder(Rounds(InOrder(key), n))
  }

  /** The klicensee for a RAP, aesDec being AES block decryption under the RAP key. */
  function Klicensee(aesDec: Block -> Block, rap: Block): Block {
    Mix(aesDec(rap), 5)
  }

  // ---- The loops ------------------------------------------------------------

  method XorE1Loop(key: array<byte>)
    requires key.Length == 16
    modifies key
    ensures InOrder(key[..]) == XorE1(old(InOrder(key[..])))
    ensures forall p :: 0 <= p < 16 ==> key[p] == Xor(old(key[p]), E1[p])
  {
    hide Xor;
    PboxIsPermutation();
    ghost var was := key[..];
    for i := 0 to 16
      invariant forall j: nat :: j < i ==> key[P(j)] == Xor(was[P(j)], E1[P(j)])
      invariant forall j: nat :: i <= j < 16 ==> key[P(j)] == was[P(j)]
    {
      var p := P(i);
      key[p] := Xor(key[p], E1[p]);
    }
    forall p | 0 <= p < 16 ensures key[p] == Xor(was[p], E1[p]) {
      assert key[P(At(p))] == Xor(was[P(At(p))], E1[P(At(p))]);
    }
  }

  method ChainLoop(key: array<byte>)
    requires key.Length == 16
    modifies key
    ensures InOrder(key[..]) == Chain(old(InOrder(key[..])))
    ensures key[PBOX[0]] == old(key[PBOX[0]])
    ensures forall i :: 1 <= i < 16 ==> key[PBOX[i]] == Xor(old(key[PBOX[i]]), old(key[PBOX[i - 1]]))
  {
    hide Xor;
    PboxIsPermutation();
    ghost var was := key[..];
    for i := 16 downto 1
      invariant forall j: nat :: i <= j < 16 ==> key[P(j)] == Xor(was[P(j)], was[P(j - 1)])
      invariant forall j: nat :: j < i ==> key[P(j)] == was[P(j)]
    {
      key[P(i)] := Xor(key[P(i)], key[P(i - 1)]);
    }
    ChainPlaces(was, key[..]);
  }

  lemma ChainPlaces(was: Block, now: Block)
    requires InOrder(now) == Chain(InOrder(was))
    ensures now[PBOX[0]] == was[PBOX[0]]
    ensures forall i :: 1 <= i < 16 ==> now[PBOX[i]] == Xor(was[PBOX[i]], was[PBOX[i - 1]])
  {
    hide Xor;
    assert InOrder(now)[0] == InOrder(was)[0];
    forall i | 1 <= i < 16 ensures now[PBOX[i]] == Xor(was[PBOX[i]], was[PBOX[i - 1]]) {
      assert InOrder(now)[i] == Chain(InOrder(was))[i];
    }
  }

  /** One byte of the borrow chain: the value stored and the borrow passed on. */
  method BorrowByte(k: byte, e: byte, o: int) returns (stored: byte, borrow: int)
    requires o == 0 || o == 1
    ensures borrow == 0 || borrow == 1
    ensures stored == k - o - e + 256 * borrow
  {
    var kc := (k - o) % 256;
    borrow := o;
    if o != 1 || kc != 0xFF {
      borrow := if kc < e then 1 else 0;
      stored := (kc - e) % 256;
    } else if kc == 0xFF {
      stored := (kc - e) % 256;
    } else {
      assert false;
    }
  }

  lemma BorrowInvariant(cur: Block, was: Block, e: Block, i: nat, o: int, borrow: int)
    requires i < 16
    requires LeNum(cur[..i]) == LeNum(was[..i]) - LeNum(e[..i]) + o * Pow256(i)
    requires cur[i] == was[i] - o - e[i] + 256 * borrow
    ensures LeNum(cur[..i + 1]) == LeNum(was[..i + 1]) - LeNum(e[..i + 1]) + borrow * Pow256(i + 1)
  {
    LeNumSplit(cur, i);
    LeNumSplit(was, i);
    LeNumSplit(e, i);
    Distribute(cur[i], was[i], o, e[i], borrow, Pow256(i));
  }

  lemma LeNumSplit(s: Block, i: nat)
    requires i < 16
    ensures LeNum(s[..i + 1]) == LeNum(s[..i]) + s[i] * Pow256(i)
  {
    LeNumAppend(s[..i], s[i]);
    assert s[..i + 1] == s[..i] + [s[i]];
  }

  lemma Distribute(c: int, w: int, o: int, e: int, b: int, p: int)
    requires c == w - o - e + 256 * b
    ensures c * p == w * p - o * p - e * p + b * (256 * p)
  {
  }

  method SubtractLoop(key: array<byte>)
    requires key.Length == 16
    modifies key
    ensures InOrder(key[..]) == Subtract(old(InOrder(key[..])), InOrder(E2))
  {
    PboxIsPermutation();
    ghost var was := InOrder(key[..]);
    ghost var e := InOrder(E2);
    var o := 0;
    for i := 0 to 16
      invariant o == 0 || o == 1
      invariant forall j: nat :: i <= j < 16 ==> key[P(j)] == was[j]
      invariant LeNum(InOrder(key[..])[..i]) == LeNum(was[..i]) - LeNum(e[..i]) + o * Pow256(i)
    {
      var p := P(i);
      ghost var before := InOrder(key[..]);
      var stored, borrow := BorrowByte(key[p], E2[p], o);
      key[p] := stored;
      ghost var cur := InOrder(key[..]);
      assert cur[..i] == before[..i];
      BorrowInvariant(cur, was, e, i, o, borrow);
      o := borrow;
    }
    WholeBorrow(InOrder(key[..]), was, e, o, 16);
  }

  lemma WholeBorrow(cur: seq<byte>, was: seq<byte>, e: seq<byte>, o: int, n: nat)
    requires n == |cur| == |was| == |e| && (o == 0 || o == 1)
    requires LeNum(cur[..n]) == LeNum(was[..n]) - LeNum(e[..n]) + o * Pow256(n)
    ensures cur == Subtract(was, e)
  {
    hide LeNum, LeBytes, Pow256;
    assert cur[..n] == cur && was[..n] == was && e[..n] == e;
    LeNumBound(cur);
    LeNumBound(was);
    LeNumBound(e);
    LeBytesOfNum(cur);
  }

  method RapToKlicensee(aesDec: Block -> Block, rap: Block) returns (klicensee: Block)
    ensures klicensee == Klicensee(aesDec, rap)
  {
    var block := aesDec(rap);
    var key := new byte[16](i requires 0 <= i < 16 => block[i]);
    assert key[..] == block;
    for n := 0 to 5
      invariant InOrder(key[..]) == Rounds(InOrder(block), n)
    {
      XorE1Loop(key);
      ChainLoop(key);
      SubtractLoop(key);
    }
    OrderRoundTrip(key[..]);
    klicensee := key[..];
  }

  // ---- A round, place by place ---------------------------------------------------

  /** In the i-th place visited, x is the key after the first loop, c after the second and r
      after the third, which takes borrow[i] and passes on borrow[i + 1]. */
  predicate Place(key: Block, x: Block, c: Block, borrow: seq<nat>, r: Block, i: nat)
    requires i < 16 && |borrow| == 17
  {
    var p := PBOX[i];
    && XorIs(key[p], E1[p], x[p])
    && (if i == 0 then c[p] == x[p] else XorIs(x[p], x[PBOX[i - 1]], c[p]))
    && borrow[i + 1] <= 1 && r[p] == c[p] - borrow[i] - E2[p] + 256 * borrow[i + 1]
  }

  lemma {:induction false} BorrowDigits(cur: Block, was: Block, e: Block, borrow: seq<nat>, n: nat)
    requires n <= 16 && |borrow| == 17 && borrow[0] == 0
    requires forall i :: 0 <= i < n ==> cur[i] == was[i] - borrow[i] - e[i] + 256 * borrow[i + 1]
    ensures LeNum(cur[..n]) == LeNum(was[..n]) - LeNum(e[..n]) + borrow[n] * Pow256(n)
  {
    if n > 0 {
      BorrowDigits(cur, was, e, borrow, n - 1);
      BorrowInvariant(cur, was, e, n - 1, borrow[n - 1], borrow[n]);
    }
  }

  lemma PlaceIsRound(key: Block, x: Block, c: Block, borrow: seq<nat>, r: Block, i: nat)
    requires i < 16 && |borrow| == 17 && Place(key, x, c, borrow, r, i)
    ensures var p := PBOX[i];
            && x[p] == Xor(key[p], E1[p])
            && c[p] == if i == 0 then x[p] else Xor(x[p], x[PBOX[i - 1]])
  {
    hide Xor, XorIs;
    var p := PBOX[i];
    XorIsMachineXor(key[p], E1[p], x[p]);
    if i > 0 {
      XorIsMachineXor(x[p], x[PBOX[i - 1]], c[p]);
    }
  }

  lemma PlacesXor(key: Block, x: Block, c: Block, borrow: seq<nat>, r: Block)
    requires |borrow| == 17 && forall i: nat :: i < 16 ==> Place(key, x, c, borrow, r, i)
    ensures Chain(XorE1(InOrder(key))) == InOrder(c)
  {
    hide Xor, Place;
    var d := InOrder(key);
    forall i: nat | i < 16
      ensures XorE1(d)[i] == InOrder(x)[i]
      ensures Chain(InOrder(x))[i] == InOrder(c)[i]
    {
      PlaceIsRound(key, x, c, borrow, r, i);
    }
    assert XorE1(d) == InOrder(x) && Chain(InOrder(x)) == InOrder(c);
  }

  /** Places that fit together are a whole round. */
  lemma RoundByPlaces(key: Block, x: Block, c: Block, borrow: seq<nat>, r: Block)
    requires |borrow| == 17 && borrow[0] == 0
    requires forall i: nat :: i < 16 ==> Place(key, x, c, borrow, r, i)
    ensures Round(InOrder(key)) == InOrder(r)
  {
    hide XorIs, LeNum, Subtract, XorE1, Chain;
    PlacesXor(key, x, c, borrow, r);
    var was, cur, e := InOrder(c), InOrder(r), InOrder(E2);
    forall i | 0 <= i < 16
      ensures cur[i] == was[i] - borrow[i] - e[i] + 256 * borrow[i + 1]
    {
      assert Place(key, x, c, borrow, r, i);
    }
    BorrowDigits(cur, was, e, borrow, 16);
    assert Place(key, x, c, borrow, r, 15);
    WholeBorrow(cur, was, e, borrow[16], 16);
  }

  // ---- The mixing is a bijection -----------------------------------------------

  /** Undoes Chain: bytes are restored in visiting order. */
  function Unchain(d: Block, n: nat): (r: seq<byte>)
    requires n <= 16
    ensures |r| == n
  {
    if n == 0 then []
    else if n == 1 then [d[0]]
    else
      var r := Unchain(d, n - 1);
      r + [Xor(d[n - 1], r[n - 2])]
  }

  function Add(d: seq<byte>, e: seq<byte>): (r: seq<byte>)
    requires |d| == |e|
    ensures |r| == |d|
  {
    LeNumBound(d);
    LeNumBound(e);
    LeBytes(PlusMod(LeNum(d), LeNum(e), Pow256(|d|)), |d|)
  }

  function Unround(d: Block): Block {
    var x: Block := Add(d, InOrder(E2));
    XorE1(Unchain(x, |x|))
  }

  function Unrounds(d: Block, n: nat): Block
    decreases n
  {
    if n == 0 then d else Unrounds(Unround(d), n - 1)
  }

  function Unmix(key: Block, n: nat): Block {
    FromOrder(Unrounds(InOrder(key), n))
  }

  /** The RAP for a klicensee, aesEnc being AES block encryption under the RAP key. */
  function RapOf(aesEnc: Block -> Block, klicensee: Block): Block {
    aesEnc(Unmix(klicensee, 5))
  }

  lemma XorE1Twice(d: Block)
    ensures XorE1(XorE1(d)) == d
  {
    forall i: nat | i < 16 ensures XorE1(XorE1(d))[i] == d[i] {
      XorCancels(d[i], E1[P(i)]);
    }
  }

  lemma {:induction false} UnchainOfChain(d: Block, n: nat)
    requires n <= 16
    ensures Unchain(Chain(d), n) == d[..n]
  {
    if n > 1 {
      UnchainOfChain(d, n - 1);
      XorCancels(d[n - 1], d[n - 2]);
    }
  }

  lemma {:induction false} ChainOfUnchain(d: Block, n: nat, i: nat)
    requires i < n <= 16
    ensures d[i] == if i == 0 then Unchain(d, n)[0] else Xor(Unchain(d, n)[i], Unchain(d, n)[i - 1])
  {
    if i < n - 1 {
      ChainOfUnchain(d, n - 1, i);
    } else if n > 1 {
      XorCancels(d[n - 1], Unchain(d, n - 1)[n - 2]);
    }
  }

  lemma SubtractAndAdd(d: seq<byte>, e: seq<byte>)
    requires |d| == |e|
    ensures Add(Subtract(d, e), e) == d
    ensures Subtract(Add(d, e), e) == d
  {
    LeNumBound(d);
    LeNumBound(e);
    LeNumOfBytes(MinusMod(LeNum(d), LeNum(e), Pow256(|d|)), |d|);
    LeNumOfBytes(PlusMod(LeNum(d), LeNum(e), Pow256(|d|)), |d|);
    LeBytesOfNum(d);
  }

  lemma ChainInverse(d: Block)
    ensures Unchain(Chain(d), |d|) == d
    ensures Chain(Unchain(d, |d|)) == d
  {
    hide Unchain, Xor;
    UnchainOfChain(d, |d|);
    assert d[..|d|] == d;
    forall i: nat | i < |d| ensures Chain(Unchain(d, |d|))[i] == d[i] {
      ChainOfUnchain(d, |d|, i);
    }
  }

  lemma RoundInverse(d: Block)
    ensures Unround(Round(d)) == d
    ensures Round(Unround(d)) == d
  {
    var e := InOrder(E2);
    var x := XorE1(d);
    SubtractAndAdd(Chain(x), e);
    ChainInverse(x);
    XorE1Twice(d);
    var z: Block := Add(d, e);
    var y: Block := Unchain(z, |z|);
    XorE1Twice(y);
    ChainInverse(z);
    SubtractAndAdd(d, e);
  }

  lemma {:induction false} UnroundsOfRounds(d: Block, n: nat)
    ensures Unrounds(Rounds(d, n), n) == d
  {
    hide Round, Unround;
    if n > 0 {
      var r := Rounds(d, n - 1);
      UnroundsOfRounds(d, n - 1);
      assert Unrounds(r, n - 1) == d;
      assert Unround(Round(r)) == r by {
        RoundInverse(r);
      }
    }
  }

  lemma {:induction false} RoundsOfUnrounds(d: Block, n: nat)
    ensures Rounds(Unrounds(d, n), n) == d
    decreases n
  {
    hide Round, Unround;
    if n > 0 {
      var u := Unround(d);
      RoundsOfUnrounds(u, n - 1);
      assert Round(u) == d by {
        RoundInverse(d);
      }
    }
  }

  lemma MixInverse(key: Block, n: nat)
    ensures Unmix(Mix(key, n), n) == key
    ensures Mix(Unmix(key, n), n) == key
  {
    OrderRoundTrip(key);
    UnroundsOfRounds(InOrder(key), n);
    RoundsOfUnrounds(InOrder(key), n);
    OrderRoundTrip(Rounds(InOrder(key), n));
    OrderRoundTrip(Unrounds(InOrder(key), n));
  }

  /** With an invertible block cipher the derivation is a bijection, so every klicensee
      has exactly one RAP and distinct RAPs have distinct klicensees. */
  lemma KlicenseeBijection(aesDec: Block -> Block, aesEnc: Block -> Block, rap: Block, klicensee: Block)
    requires forall b: Block :: aesEnc(aesDec(b)) == b && aesDec(aesEnc(b)) == b
    ensures Klicensee(aesDec, rap) == klicensee <==> rap == RapOf(aesEnc, klicensee)
  {
    hide Mix, Unmix;
    MixInverse(aesDec(rap), 5);
    MixInverse(klicensee, 5);
  }
}
