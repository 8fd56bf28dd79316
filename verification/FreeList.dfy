/** `gt5p_freelist_bad` of src/gt5p_bbcount.cpp: a bounded walk over the sixteen bucket chains
    of a heap's free list, run before and after a suspect call.  Guest memory is a function
    from word addresses to words; address arithmetic wraps at 32 bits. */
module FreeList {
  import opened Bytes

  type Memory = u32 -> u32

  const LO: u32 := 0x2000_0000

  const HI: u32 := 0x2ADF_FF80

  const MAX_HOPS: nat := 4096

  const BUCKETS: nat := 16

  function Wrap(x: nat): u32 {
    x % 0x1_0000_0000
  }

  predicate NodeOk(n: u32, end: u32, next: u32) {
    if n % 4 != 0 then false
    else if n < LO || n >= HI then false
    else if end < LO || end > HI || end <= n then false
    else if next != 0 && (next < LO || next >= HI || next % 4 != 0) then false
    else true
  }

  function EndAddr(n: u32): u32 {
    Wrap(n + 4)
  }

  function NextAddr(n: u32): u32 {
    Wrap(n + 12)
  }

  predicate Good(mem: Memory, n: u32) {
    NodeOk(n, mem(EndAddr(n)), mem(NextAddr(n)))
  }

  function HeadAddr(heap: u32, b: nat): u32 {
    Wrap(heap + 16 + 4 * b)
  }

  /** The k-th node of the chain that starts at n, links followed blindly. */
  function Nth(mem: Memory, n: u32, k: nat): u32 {
    if k == 0 then n else mem(NextAddr(Nth(mem, n, k - 1)))
  }

  /** The chain from n has a k-th node: no link before it was null. */
  predicate Reaches(mem: Memory, n: u32, k: nat) {
    forall j: nat :: j <= k ==> Nth(mem, n, j) != 0
  }

  /** Some node within the first MAX_HOPS fails. */
  ghost predicate ChainBad(mem: Memory, n: u32) {
    exists k: nat :: k < MAX_HOPS && Reaches(mem, n, k) && !Good(mem, Nth(mem, n, k))
  }

  ghost predicate BucketBad(mem: Memory, heap: u32, b: nat) {
    ChainBad(mem, mem(HeadAddr(heap, b)))
  }

  /** How many of the first n buckets are bad. */
  ghost function BadBuckets(mem: Memory, heap: u32, n: nat): (r: nat)
    ensures r <= n
  {
    if n == 0 then 0 else BadBuckets(mem, heap, n - 1) + if BucketBad(mem, heap, n - 1) then 1 else 0
  }

  // ---- The same on the words of memory -----------------------------------------------

  /** Addresses reached from head over the words at +12, none of them null. */
  predicate Path(mem: Memory, head: u32, p: seq<u32>) {
    && p != [] && p[0] == head && (forall i :: 0 <= i < |p| ==> p[i] != 0)
    && forall i :: 0 < i < |p| ==> var n: nat := p[i - 1]; p[i] == mem((n + 12) % 0x1_0000_0000)
  }

  /** Aligned and in the arena, ending above itself inside it, followed by nothing or by an aligned
      address in the arena. */
  predicate NodeFine(mem: Memory, n: u32) {
    var end, next := mem((n + 4) % 0x1_0000_0000), mem((n + 12) % 0x1_0000_0000);
    && n % 4 == 0 && 0x2000_0000 <= n < 0x2ADF_FF80 && n < end <= 0x2ADF_FF80
    && (next == 0 || (next % 4 == 0 && 0x2000_0000 <= next < 0x2ADF_FF80))
  }

  /** Bucket b's word at +16 + 4b leads, within 4096 nodes, to one that is not fine. */
  ghost predicate Broken(mem: Memory, heap: u32, b: nat) {
    exists p :: Path(mem, mem((heap + 16 + 4 * b) % 0x1_0000_0000), p) && |p| <= 4096 && !NodeFine(mem, p[|p| - 1])
  }

  lemma {:induction false} PathIsChain(mem: Memory, head: u32, p: seq<u32>, i: nat)
    requires Path(mem, head, p) && i < |p|
    ensures p[i] == Nth(mem, head, i)
    decreases i
  {
    if i > 0 {
      PathIsChain(mem, head, p, i - 1);
    }
  }

  lemma ChainIsPath(mem: Memory, head: u32, k: nat) returns (p: seq<u32>)
    requires Reaches(mem, head, k)
    ensures Path(mem, head, p) && |p| == k + 1 && p[k] == Nth(mem, head, k)
  {
    p := seq(k + 1, i requires 0 <= i <= k => Nth(mem, head, i));
  }

  lemma GoodIsFine(mem: Memory, n: u32)
    ensures Good(mem, n) <==> NodeFine(mem, n)
  {
  }

  lemma BadIsBroken(mem: Memory, heap: u32, b: nat)
    ensures BucketBad(mem, heap, b) <==> Broken(mem, heap, b)
  {
    hide Good, NodeFine, Nth;
    var head := mem(HeadAddr(heap, b));
    if BucketBad(mem, heap, b) {
      var k: nat :| k < MAX_HOPS && Reaches(mem, head, k) && !Good(mem, Nth(mem, head, k));
      var p := ChainIsPath(mem, head, k);
      GoodIsFine(mem, p[k]);
    }
    if Broken(mem, heap, b) {
      var p :| Path(mem, head, p) && |p| <= 4096 && !NodeFine(mem, p[|p| - 1]);
      forall i: nat | i < |p| ensures p[i] == Nth(mem, head, i) {
        PathIsChain(mem, head, p, i);
      }
      GoodIsFine(mem, p[|p| - 1]);
      assert Reaches(mem, head, |p| - 1);
    }
  }

  lemma {:induction false} BadIsCount(mem: Memory, heap: u32, n: nat)
    ensures BadBuckets(mem, heap, n) == |set b: nat | b < n && Broken(mem, heap, b)|
  {
    hide BucketBad, Broken;
    var now := set b: nat | b < n && Broken(mem, heap, b);
    if n == 0 {
      assert now == {};
    } else {
      BadIsCount(mem, heap, n - 1);
      BadIsBroken(mem, heap, n - 1);
      BrokenGrows(mem, heap, n - 1);
    }
  }

  lemma BrokenGrows(mem: Memory, heap: u32, n: nat)
    ensures |set b: nat | b < n + 1 && Broken(mem, heap, b)|
            == |set b: nat | b < n && Broken(mem, heap, b)| + if Broken(mem, heap, n) then 1 else 0
  {
    hide Broken;
    var before, now := set b: nat | b < n && Broken(mem, heap, b), set b: nat | b < n + 1 && Broken(mem, heap, b);
    assert now == if Broken(mem, heap, n) then before + {n} else before;
  }

  lemma NoneIsZero(mem: Memory, heap: u32, n: nat)
    ensures |set b: nat | b < n && Broken(mem, heap, b)| == 0 <==> forall b: nat :: b < n ==> !Broken(mem, heap, b)
  {
    hide Broken;
    var broken := set b: nat | b < n && Broken(mem, heap, b);
    if b: nat :| b < n && Broken(mem, heap, b) {
      assert b in broken;
    }
  }

  // ---- The walk ----------------------------------------------------------------

  method WalkChain(mem: Memory, head: u32) returns (bad: bool)
    ensures bad <==> ChainBad(mem, head)
  {
    var n := head;
    var hops := 0;
    while n != 0 && hops < MAX_HOPS
      invariant hops <= MAX_HOPS
      invariant n == Nth(mem, head, hops)
      invariant forall j: nat :: j < hops ==> Nth(mem, head, j) != 0 && Good(mem, Nth(mem, head, j))
      decreases MAX_HOPS - hops
    {
      var end := mem(EndAddr(n));
      var next := mem(NextAddr(n));
      if !NodeOk(n, end, next) {
        assert Reaches(mem, head, hops) && !Good(mem, Nth(mem, head, hops));
        return true;
      }
      n := next;
      hops := hops + 1;
    }
    return false;
  }

  lemma CountStep(mem: Memory, heap: u32, n: nat)
    ensures BadBuckets(mem, heap, 0) == 0
    ensures BadBuckets(mem, heap, n + 1) == BadBuckets(mem, heap, n) + if BucketBad(mem, heap, n) then 1 else 0
  {
  }

  method FreelistBad(mem: Memory, heap: u32) returns (bad: nat)
    ensures bad == BadBuckets(mem, heap, BUCKETS)
    ensures bad == |set b: nat | b < 16 && Broken(mem, heap, b)|
    ensures bad == 0 <==> forall b: nat :: b < 16 ==> !Broken(mem, heap, b)
  {
    hide ChainBad, Broken, BadBuckets;
    bad := 0;
    CountStep(mem, heap, 0);
    var off := 16;
    while off <= 76
      invariant off % 4 == 0 && 16 <= off <= 80
      invariant bad == BadBuckets(mem, heap, (off - 16) / 4)
      decreases 80 - off
    {
      CountStep(mem, heap, (off - 16) / 4);
      var chainBad := WalkChain(mem, mem(Wrap(heap + off)));
      assert Wrap(heap + off) == HeadAddr(heap, (off - 16) / 4);
      if chainBad {
        bad := bad + 1;
      }
      off := off + 4;
    }
    BadIsCount(mem, heap, BUCKETS);
    NoneIsZero(mem, heap, 16);
  }

  // ---- What a zero says ------------------------------------------------------

  lemma {:induction false} ZeroMeansEach(mem: Memory, heap: u32, n: nat, b: nat)
    requires BadBuckets(mem, heap, n) == 0 && b < n
    ensures !BucketBad(mem, heap, b)
  {
    if b < n - 1 {
      ZeroMeansEach(mem, heap, n - 1, b);
    }
  }

  lemma {:induction false} NthShift(mem: Memory, n: u32, i: nat, j: nat, d: nat)
    requires Nth(mem, n, i) == Nth(mem, n, j)
    ensures Nth(mem, n, i + d) == Nth(mem, n, j + d)
  {
    if d > 0 {
      NthShift(mem, n, i, j, d - 1);
    }
  }

  /** On a chain that ends or loops within MAX_HOPS nodes, a chain that is not bad has only
      good nodes, however long a cyclic walk is carried on. */
  lemma {:induction false} NotBadMeansAllGood(mem: Memory, n: u32, i: nat, j: nat, k: nat)
    requires !ChainBad(mem, n) && i < j <= MAX_HOPS
    requires Nth(mem, n, j) == 0 || Nth(mem, n, i) == Nth(mem, n, j)
    requires Reaches(mem, n, k)
    ensures Good(mem, Nth(mem, n, k))
    decreases k
  {
    if k >= MAX_HOPS {
      assert Nth(mem, n, j) != 0;
      NthShift(mem, n, i, j, k - j);
      var earlier := i + (k - j);
      assert Reaches(mem, n, earlier);
      NotBadMeansAllGood(mem, n, i, j, earlier);
    }
  }

  /** A zero result vouches for every node reachable through every bucket whose chain ends or
      loops within MAX_HOPS nodes. */
  lemma ZeroMeansIntact(mem: Memory, heap: u32, b: nat, i: nat, j: nat, k: nat)
    requires BadBuckets(mem, heap, BUCKETS) == 0 && b < BUCKETS && i < j <= MAX_HOPS
    requires var head := mem(HeadAddr(heap, b));
             (Nth(mem, head, j) == 0 || Nth(mem, head, i) == Nth(mem, head, j)) && Reaches(mem, head, k)
    ensures var n := Nth(mem, mem(HeadAddr(heap, b)), k);
            n % 4 == 0 && LO <= n < HI && n < mem(EndAddr(n)) <= HI && NodeFine(mem, n)
  {
    ZeroMeansEach(mem, heap, BUCKETS, b);
    NotBadMeansAllGood(mem, mem(HeadAddr(heap, b)), i, j, k);
  }

  // ---- Why bracketing a call is sound --------------------------------------------

  /** The walk of a chain looks at its k-th node. */
  ghost predicate Visits(mem: Memory, n: u32, k: nat) {
    k < MAX_HOPS && Reaches(mem, n, k) && forall j: nat :: j < k ==> Good(mem, Nth(mem, n, j))
  }

  ghost predicate ReadByChain(mem: Memory, n: u32, a: u32) {
    exists k: nat :: Visits(mem, n, k) && (a == EndAddr(Nth(mem, n, k)) || a == NextAddr(Nth(mem, n, k)))
  }

  /** The words a validation reads: bucket heads, and the +4 and +12 words of visited nodes. */
  ghost predicate ReadByCheck(mem: Memory, heap: u32, a: u32) {
    exists b: nat ::
      b < BUCKETS && (a == HeadAddr(heap, b) || ReadByChain(mem, mem(HeadAddr(heap, b)), a))
  }

  ghost predicate SameOnChain(mem: Memory, mem': Memory, n: u32) {
    forall a: u32 :: ReadByChain(mem, n, a) ==> mem(a) == mem'(a)
  }

  lemma {:induction false} SameNth(mem: Memory, mem': Memory, n: u32, k: nat)
    requires SameOnChain(mem, mem', n)
    requires k > 0 ==> Visits(mem, n, k - 1)
    ensures Nth(mem, n, k) == Nth(mem', n, k)
    decreases k
  {
    if k > 0 {
      if k > 1 {
        assert Visits(mem, n, k - 2);
      }
      SameNth(mem, mem', n, k - 1);
      assert ReadByChain(mem, n, NextAddr(Nth(mem, n, k - 1)));
    }
  }

  lemma SameVisit(mem: Memory, mem': Memory, n: u32, k: nat)
    requires SameOnChain(mem, mem', n) && Visits(mem, n, k)
    ensures Nth(mem, n, k) == Nth(mem', n, k)
    ensures Good(mem, Nth(mem, n, k)) == Good(mem', Nth(mem', n, k))
  {
    if k > 0 {
      assert Visits(mem, n, k - 1);
    }
    SameNth(mem, mem', n, k);
    assert ReadByChain(mem, n, EndAddr(Nth(mem, n, k)));
    assert ReadByChain(mem, n, NextAddr(Nth(mem, n, k)));
  }

  lemma {:induction false} VisitsCarryOver(mem: Memory, mem': Memory, n: u32, k: nat)
    requires SameOnChain(mem, mem', n) && Visits(mem, n, k)
    ensures Visits(mem', n, k)
  {
    forall j: nat | j <= k
      ensures Nth(mem', n, j) == Nth(mem, n, j)
      ensures j < k ==> Good(mem', Nth(mem', n, j))
    {
      assert Visits(mem, n, j);
      SameVisit(mem, mem', n, j);
    }
  }

  /** A bad chain has a first bad node, which the walk visits. */
  lemma {:induction false} FirstBad(mem: Memory, n: u32, k: nat) returns (f: nat)
    requires k < MAX_HOPS && Reaches(mem, n, k) && !Good(mem, Nth(mem, n, k))
    ensures Visits(mem, n, f) && !Good(mem, Nth(mem, n, f))
    decreases k
  {
    if j: nat :| j < k && !Good(mem, Nth(mem, n, j)) {
      f := FirstBad(mem, n, j);
    } else {
      f := k;
    }
  }

  lemma SameOnChainSymmetric(mem: Memory, mem': Memory, n: u32)
    requires SameOnChain(mem, mem', n)
    ensures SameOnChain(mem', mem, n)
  {
    forall a: u32 | ReadByChain(mem', n, a) ensures mem'(a) == mem(a) {
      var k: nat :| Visits(mem', n, k) && (a == EndAddr(Nth(mem', n, k)) || a == NextAddr(Nth(mem', n, k)));
      VisitsCarryBack(mem, mem', n, k);
      SameVisit(mem, mem', n, k);
      assert ReadByChain(mem, n, a);
    }
  }

  lemma {:induction false} VisitsCarryBack(mem: Memory, mem': Memory, n: u32, k: nat)
    requires SameOnChain(mem, mem', n) && Visits(mem', n, k)
    ensures Visits(mem, n, k)
    decreases k
  {
    hide Visits, Nth, SameOnChain, Good;
    VisitsUnfold(mem', n, k);
    VisitsUnfold(mem, n, k);
    if k > 0 {
      VisitsCarryBack(mem, mem', n, k - 1);
      SameVisit(mem, mem', n, k - 1);
      SameNth(mem, mem', n, k);
    } else {
      SameNth(mem, mem', n, 0);
    }
  }

  lemma VisitsUnfold(mem: Memory, n: u32, k: nat)
    ensures Visits(mem, n, k) <==>
            k < MAX_HOPS && Nth(mem, n, k) != 0
            && (k > 0 ==> Visits(mem, n, k - 1) && Good(mem, Nth(mem, n, k - 1)))
  {
    hide Good, Nth;
    assert Reaches(mem, n, k) ==> Nth(mem, n, k) != 0;
  }

  lemma ChainBadCarriesOver(mem: Memory, mem': Memory, n: u32)
    requires SameOnChain(mem, mem', n) && ChainBad(mem, n)
    ensures ChainBad(mem', n)
  {
    var k: nat :| k < MAX_HOPS && Reaches(mem, n, k) && !Good(mem, Nth(mem, n, k));
    var f := FirstBad(mem, n, k);
    SameVisit(mem, mem', n, f);
    VisitsCarryOver(mem, mem', n, f);
  }

  lemma BucketDependsOnReads(mem: Memory, mem': Memory, heap: u32, b: nat)
    requires b < BUCKETS
    requires forall a: u32 :: ReadByCheck(mem, heap, a) ==> mem(a) == mem'(a)
    ensures BucketBad(mem, heap, b) <==> BucketBad(mem', heap, b)
  {
    hide ChainBad;
    var head := mem(HeadAddr(heap, b));
    assert ReadByCheck(mem, heap, HeadAddr(heap, b));
    forall a: u32 | ReadByChain(mem, head, a) ensures mem(a) == mem'(a) {
      assert ReadByCheck(mem, heap, a);
    }
    SameOnChainSymmetric(mem, mem', head);
    if ChainBad(mem, head) {
      ChainBadCarriesOver(mem, mem', head);
    } else if ChainBad(mem', head) {
      ChainBadCarriesOver(mem', mem, head);
    }
  }

  /** The result is a function of exactly the words the walk reads. */
  lemma {:induction false} ResultDependsOnReads(mem: Memory, mem': Memory, heap: u32, n: nat)
    requires n <= BUCKETS
    requires forall a: u32 :: ReadByCheck(mem, heap, a) ==> mem(a) == mem'(a)
    ensures BadBuckets(mem, heap, n) == BadBuckets(mem', heap, n)
  {
    hide ReadByCheck, BucketBad;
    if n > 0 {
      ResultDependsOnReads(mem, mem', heap, n - 1);
      BucketDependsOnReads(mem, mem', heap, n - 1);
    }
  }

  /** If the count differs across a call, the call changed a word the first walk had read:
      a bucket head or the linkage of a node it visited. */
  lemma BracketingIsSound(before: Memory, after: Memory, heap: u32) returns (a: u32)
    requires BadBuckets(before, heap, BUCKETS) != BadBuckets(after, heap, BUCKETS)
    ensures ReadByCheck(before, heap, a) && before(a) != after(a)
  {
    if forall a: u32 :: ReadByCheck(before, heap, a) ==> before(a) == after(a) {
      ResultDependsOnReads(before, after, heap, BUCKETS);
      assert false;
    }
    a :| ReadByCheck(before, heap, a) && before(a) != after(a);
  }
}
