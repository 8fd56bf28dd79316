/** The block recorder at the end of `gt5p_alloc_note` in src/gt5p_allocwatch.cpp: every block
    the allocator hands out is checked against the ones recorded before it. */
module AllocWatch {
  import opened Bytes

  const MAX_BLOCKS: nat := 4096

  datatype Block = Block(addr: u32, size: u32, heap: u32, number: nat)

  /** The end of a range in the 32-bit arithmetic of the source. */
  function End32(addr: u32, size: u32): u32 {
    (addr + size) % 0x1_0000_0000
  }

  predicate Reported(b: Block, addr: u32, size: u32) {
    addr < End32(b.addr, b.size) && b.addr < End32(addr, size)
  }

  /** Reports for a new range against a list of blocks. */
  function Hits(blocks: seq<Block>, addr: u32, size: u32): nat {
    if blocks == [] then 0
    else Hits(blocks[..|blocks| - 1], addr, size) + if Reported(blocks[|blocks| - 1], addr, size) then 1 else 0
  }

  function Kept(history: seq<Block>): (r: seq<Block>)
    ensures |r| == if |history| < MAX_BLOCKS then |history| else MAX_BLOCKS
  {
    if |history| < MAX_BLOCKS then history else history[..MAX_BLOCKS]
  }

  /** All reports over a history of blocks: each against the recorded ones before it. */
  function Reports(history: seq<Block>): nat {
    if history == [] then 0
    else
      var before, b := history[..|history| - 1], history[|history| - 1];
      Reports(before) + Hits(Kept(before), b.addr, b.size)
  }

  /** The comparison as it stands in the source: the ends are 32-bit sums. */
  predicate Clash(b: Block, addr: u32, size: u32) {
    addr < (b.addr + b.size) % 0x1_0000_0000 && b.addr < (addr + size) % 0x1_0000_0000
  }

  /** Which of the first 4096 blocks a new range is reported against. */
  function Clashes(history: seq<Block>, addr: u32, size: u32): set<nat> {
    set i: nat | i < |history| && i < 4096 && Clash(history[i], addr, size)
  }

  lemma ReportedIsClash(b: Block, addr: u32, size: u32)
    ensures Reported(b, addr, size) <==> Clash(b, addr, size)
  {
  }

  lemma {:induction false} HitsAreCounted(blocks: seq<Block>, addr: u32, size: u32)
    requires |blocks| <= 4096
    ensures Hits(blocks, addr, size) == |Clashes(blocks, addr, size)|
  {
    hide Clash, Reported;
    if blocks == [] {
      assert Clashes(blocks, addr, size) == {};
    } else {
      var last := |blocks| - 1;
      HitsAreCounted(blocks[..last], addr, size);
      ReportedIsClash(blocks[last], addr, size);
      var before := Clashes(blocks[..last], addr, size);
      assert Clashes(blocks, addr, size) == if Clash(blocks[last], addr, size) then before + {last} else before;
    }
  }

  lemma HitsAreClashes(history: seq<Block>, addr: u32, size: u32)
    ensures Hits(Kept(history), addr, size) == |Clashes(history, addr, size)|
  {
    hide Clash, Hits;
    HitsAreCounted(Kept(history), addr, size);
    assert Clashes(Kept(history), addr, size) == Clashes(history, addr, size);
  }

  class Recorder {
    var blocks: array<Block>
    var count: nat
    var seqNo: nat
    var reported: nat
    ghost var history: seq<Block>

    ghost predicate Valid()
      reads this, blocks
    {
      && blocks.Length == MAX_BLOCKS
      && count == |Kept(history)| && blocks[..count] == Kept(history)
      && seqNo == |history|
      && reported == Reports(history)
    }

    constructor ()
      ensures Valid() && fresh(blocks) && history == []
    {
      blocks := new Block[MAX_BLOCKS](_ => Block(0, 0, 0, 0));
      count, seqNo, reported := 0, 0, 0;
      history := [];
    }

    /** The comparison of a new range with every recorded block. */
    method Compare(size: u32, ret: u32)
      requires count <= blocks.Length
      modifies this`reported
      ensures reported == old(reported) + Hits(blocks[..count], ret, size)
    {
      for i := 0 to count
        invariant reported == old(reported) + Hits(blocks[..i], ret, size)
      {
        assert blocks[..i + 1][..i] == blocks[..i];
        if ret < End32(blocks[i].addr, blocks[i].size) && blocks[i].addr < End32(ret, size) {
          reported := reported + 1;
        }
      }
      assert blocks[..count] == blocks[..][..count];
    }

    /** A failed or empty allocation is not noted. */
    method Note(heap: u32, size: u32, ret: u32)
      requires Valid()
      modifies this, blocks
      ensures Valid() && blocks == old(blocks)
      ensures history == if ret == 0 || size == 0 then old(history)
                         else old(history) + [Block(ret, size, heap, |old(history)| + 1)]
      ensures reported == old(reported) + if ret == 0 || size == 0 then 0 else |Clashes(old(history), ret, size)|
    {
      if ret == 0 || size == 0 {
        return;
      }
      hide Reports, Hits, Kept, Clash, Clashes, Reported, End32;
      seqNo := seqNo + 1;
      Compare(size, ret);
      ghost var b := Block(ret, size, heap, seqNo);
      ReportsGrow(history, b);
      HitsAreClashes(history, ret, size);
      Store(Block(ret, size, heap, seqNo));
      history := history + [b];
    }

    /** Recording a block while there is room. */
    method Store(b: Block)
      requires blocks.Length == MAX_BLOCKS && count == |Kept(history)| && blocks[..count] == Kept(history)
      modifies this`count, blocks
      ensures count == |Kept(history + [b])| && blocks[..count] == Kept(history + [b])
    {
      hide Kept;
      KeptGrows(history, b);
      if count < MAX_BLOCKS {
        blocks[count] := b;
        count := count + 1;
        assert blocks[..count] == blocks[..count - 1] + [b];
      }
    }
  }

  lemma ReportsGrow(history: seq<Block>, b: Block)
    ensures Reports(history + [b]) == Reports(history) + Hits(Kept(history), b.addr, b.size)
  {
    hide Hits, Kept;
    assert (history + [b])[..|history|] == history;
  }

  lemma KeptGrows(history: seq<Block>, b: Block)
    ensures Kept(history + [b]) == if |history| < MAX_BLOCKS then Kept(history) + [b] else Kept(history)
  {
  }

  // ---- What the number of reports says -------------------------------------------

  /** The ranges share an address. */
  predicate Overlap(a: Block, b: Block) {
    a.addr < b.addr + b.size && b.addr < a.addr + a.size
  }

  predicate NoWrap(b: Block) {
    b.addr + b.size < 0x1_0000_0000
  }

  lemma ReportedIffOverlap(b: Block, c: Block)
    requires NoWrap(b) && NoWrap(c)
    ensures Reported(b, c.addr, c.size) <==> Overlap(b, c)
  {
  }

  lemma {:induction false} NoHits(blocks: seq<Block>, b: Block)
    requires NoWrap(b) && forall c :: c in blocks ==> NoWrap(c)
    ensures Hits(blocks, b.addr, b.size) == 0 <==> forall i :: 0 <= i < |blocks| ==> !Overlap(blocks[i], b)
  {
    if blocks != [] {
      var last := |blocks| - 1;
      NoHits(blocks[..last], b);
      ReportedIffOverlap(blocks[last], b);
      assert forall i :: 0 <= i < last ==> blocks[..last][i] == blocks[i];
    }
  }

  /** No two ranges overlap, as far as the first of the two was recorded. */
  predicate Disjoint(history: seq<Block>) {
    forall i, j :: 0 <= i < j < |history| && i < MAX_BLOCKS ==> !Overlap(history[i], history[j])
  }

  lemma DisjointStep(history: seq<Block>)
    requires history != []
    ensures var last := |history| - 1;
            var kept := Kept(history[..last]);
            Disjoint(history) <==>
            Disjoint(history[..last]) && forall i :: 0 <= i < |kept| ==> !Overlap(kept[i], history[last])
  {
    hide Overlap;
    var last := |history| - 1;
    var before := history[..last];
    var kept := Kept(before);
    assert forall i :: 0 <= i < |kept| ==> kept[i] == history[i];
    assert forall i :: 0 <= i < last ==> before[i] == history[i];
    if Disjoint(before) && forall i :: 0 <= i < |kept| ==> !Overlap(kept[i], history[last]) {
      forall i, j | 0 <= i < j < |history| && i < MAX_BLOCKS ensures !Overlap(history[i], history[j]) {
        if j < last {
          assert !Overlap(before[i], before[j]);
        } else {
          assert !Overlap(kept[i], history[last]);
        }
      }
    }
  }

  /** For blocks that do not reach the top of the address space, silence is exactly
      disjointness. */
  lemma {:induction false} SilentIffDisjoint(history: seq<Block>)
    requires forall b :: b in history ==> NoWrap(b)
    ensures Reports(history) == 0 <==> Disjoint(history)
  {
    hide Disjoint, Overlap, NoWrap, Hits;
    if history != [] {
      var last := |history| - 1;
      SilentIffDisjoint(history[..last]);
      NoHits(Kept(history[..last]), history[last]);
      DisjointStep(history);
    } else {
      NothingOverlaps();
    }
  }

  lemma NothingOverlaps()
    ensures Disjoint([])
  {
  }

  /** The overlapping pairs of a history whose earlier block was recorded. */
  function Pairs(history: seq<Block>): set<(nat, nat)> {
    set i: nat, j: nat | i < j < |history| && i < MAX_BLOCKS && Overlap(history[i], history[j]) :: (i, j)
  }

  lemma {:induction false} HitsAreColumn(blocks: seq<Block>, b: Block, j: nat) returns (column: set<(nat, nat)>)
    requires NoWrap(b) && forall c :: c in blocks ==> NoWrap(c)
    ensures |column| == Hits(blocks, b.addr, b.size)
    ensures forall p :: p in column <==> p.1 == j && p.0 < |blocks| && Overlap(blocks[p.0], b)
  {
    hide Reported, Overlap, NoWrap;
    if blocks == [] {
      column := {};
    } else {
      var last := |blocks| - 1;
      column := HitsAreColumn(blocks[..last], b, j);
      ReportedIffOverlap(blocks[last], b);
      assert (last, j) !in column;
      if Overlap(blocks[last], b) {
        column := column + {(last, j)};
      }
    }
  }

  lemma PairsGrow(history: seq<Block>, column: set<(nat, nat)>)
    requires history != []
    requires var last := |history| - 1;
             forall p :: p in column <==>
                p.1 == last && p.0 < last && p.0 < MAX_BLOCKS && Overlap(history[p.0], history[last])
    ensures |Pairs(history)| == |Pairs(history[..|history| - 1])| + |column|
  {
    var last := |history| - 1;
    var before := history[..last];
    forall p | p in Pairs(history) ensures p in Pairs(before) + column {
      assert p.1 < last ==> before[p.0] == history[p.0] && before[p.1] == history[p.1];
    }
    forall p | p in Pairs(before) ensures p in Pairs(history) && p !in column {
      assert before[p.0] == history[p.0] && before[p.1] == history[p.1];
    }
    assert Pairs(history) == Pairs(before) + column;
  }

  /** Reports count the overlapping pairs ever handed out, as far as the earlier block of a pair
      was recorded; below MAX_BLOCKS blocks that is all of them. */
  lemma {:induction false} ReportsCountPairs(history: seq<Block>)
    requires forall b :: b in history ==> NoWrap(b)
    ensures Reports(history) == |Pairs(history)|
  {
    if history == [] {
      assert Pairs(history) == {};
    } else {
      var last := |history| - 1;
      var before := history[..last];
      ReportsCountPairs(before);
      var kept := Kept(before);
      assert forall i :: 0 <= i < |kept| ==> kept[i] == history[i];
      var column := HitsAreColumn(kept, history[last], last);
      PairsGrow(history, column);
    }
  }

  /** The 32-bit ends are where it fails: a block handed out twice is noticed exactly when its
      end does not wrap. */
  lemma ReissueNoticedIffNoWrap(b: Block)
    requires b.size > 0
    ensures Reports([b, b]) > 0 <==> NoWrap(b)
  {
    assert [b, b][..1] == [b] && [b][..0] == [];
    assert Hits(Kept([b]), b.addr, b.size) == if Reported(b, b.addr, b.size) then 1 else 0;
    assert Reports([b]) == 0;
  }
}
