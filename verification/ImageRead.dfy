/** The two image readers, `read` of scripts/dis.py and `Image.read` of scripts/rtti.py:
    bytes of the ELF file looked up by guest address. */
module ImageRead {
  import opened Bytes
  import opened ElfFile
  import opened ElfLoad

  /** A loadable header's address, file offset and file size. */
  datatype Seg = Seg(va: u64, off: u64, fsz: u64)

  datatype ReadResult = Mapped(bytes: seq<byte>) | NotMapped

  function SegsOf(t: seq<Phdr>): seq<Seg> {
    if t == [] then []
    else
      var ph := t[|t| - 1];
      SegsOf(t[..|t| - 1]) + if ph.kind == PT_LOAD then [Seg(ph.vaddr, ph.offset, ph.filesz)] else []
  }

  lemma SegsStep(t: seq<Phdr>, i: nat)
    requires i < |t|
    ensures SegsOf(t[..i + 1]) ==
            SegsOf(t[..i]) + if t[i].kind == PT_LOAD then [Seg(t[i].vaddr, t[i].offset, t[i].filesz)] else []
  {
    assert t[..i + 1][..i] == t[..i];
  }

  /** The segment list both scripts build from the program headers. */
  method BuildSegs(elf: seq<byte>) returns (segs: seq<Seg>)
    requires TableInside(elf)
    ensures segs == SegsOf(Table(elf))
  {
    hide U32At, U64At, PhPos;
    segs := [];
    ghost var t := Table(elf);
    for i := 0 to PhNum(elf)
      invariant segs == SegsOf(t[..i])
    {
      var o := PhPos(elf, i);
      SegsStep(t, i);
      assert t[i] == PhdrAt(elf, o);
      if U32At(elf, o) == PT_LOAD {
        segs := segs + [Seg(U64At(elf, o + 16), U64At(elf, o + 8), U64At(elf, o + 32))];
      }
    }
    assert t[..PhNum(elf)] == t;
  }

  predicate Holds(s: Seg, va: int) {
    s.va <= va < s.va + s.fsz
  }

  /** The first segment whose file image holds va, |segs| if none. */
  function FirstHolding(segs: seq<Seg>, va: int): (r: nat)
    ensures r <= |segs|
    ensures r < |segs| ==> Holds(segs[r], va)
    ensures forall j :: 0 <= j < r ==> !Holds(segs[j], va)
  {
    if segs == [] then 0
    else if Holds(segs[0], va) then 0
    else FirstHolding(segs[1..], va) + 1
  }

  /** d[o:o+n], clipped to the data. */
  function Clip(d: seq<byte>, o: nat, n: nat): seq<byte> {
    d[Min(o, |d|)..Min(o + n, |d|)]
  }

  /** dis.read: n bytes of the file from va's position on, wherever its segment ends. */
  function Read(elf: seq<byte>, segs: seq<Seg>, va: int, n: nat): ReadResult {
    var i := FirstHolding(segs, va);
    if i == |segs| then NotMapped else Mapped(Clip(elf, segs[i].off + (va - segs[i].va), n))
  }

  /** Image.read: the same, cut at the end of the segment's file image. */
  function ReadWithin(elf: seq<byte>, segs: seq<Seg>, va: int, n: nat): ReadResult {
    var i := FirstHolding(segs, va);
    if i == |segs| then NotMapped
    else Mapped(Clip(elf, segs[i].off + (va - segs[i].va), Min(n, segs[i].va + segs[i].fsz - va)))
  }

  method ReadLoop(elf: seq<byte>, segs: seq<Seg>, va: int, n: nat) returns (whole: ReadResult, within: ReadResult)
    ensures whole == Read(elf, segs, va, n) && within == ReadWithin(elf, segs, va, n)
  {
    for i := 0 to |segs|
      invariant FirstHolding(segs, va) == i + FirstHolding(segs[i..], va)
    {
      var s := segs[i];
      if s.va <= va < s.va + s.fsz {
        var o := s.off + (va - s.va);
        return Mapped(Clip(elf, o, n)), Mapped(Clip(elf, o, Min(n, s.va + s.fsz - va)));
      }
      assert segs[i..][1..] == segs[i + 1..];
    }
    return NotMapped, NotMapped;
  }

  // ---- The readers see guest memory --------------------------------------------

  lemma {:induction false} SegsAreLoads(t: seq<Phdr>, k: nat) returns (i: nat)
    requires k < |SegsOf(t)|
    ensures i < |t| && t[i].kind == PT_LOAD && SegsOf(t)[k] == Seg(t[i].vaddr, t[i].offset, t[i].filesz)
  {
    var last := |t| - 1;
    if k < |SegsOf(t[..last])| {
      i := SegsAreLoads(t[..last], k);
    } else {
      i := last;
    }
  }

  lemma {:induction false} LoadsAreSegs(t: seq<Phdr>, i: nat) returns (k: nat)
    requires i < |t| && t[i].kind == PT_LOAD
    ensures k < |SegsOf(t)| && SegsOf(t)[k] == Seg(t[i].vaddr, t[i].offset, t[i].filesz)
  {
    var last := |t| - 1;
    if i < last {
      k := LoadsAreSegs(t[..last], i);
    } else {
      k := |SegsOf(t[..last])|;
    }
  }

  /** Header i is of type 1 and its file image holds va. */
  predicate FileHolds(t: seq<Phdr>, i: nat, va: int)
    requires i < |t|
  {
    t[i].kind == 1 && t[i].vaddr <= va < t[i].vaddr + t[i].filesz
  }

  lemma FirstOfPrefix(a: seq<Seg>, b: seq<Seg>, va: int)
    requires FirstHolding(a, va) < |a|
    ensures FirstHolding(a + b, va) == FirstHolding(a, va)
  {
    hide FirstHolding;
    var k := FirstHolding(a, va);
    assert Holds((a + b)[k], va);
    assert forall j :: 0 <= j < k ==> (a + b)[j] == a[j];
  }

  lemma Holder(t: seq<Phdr>, r: nat, va: int) returns (i: nat)
    requires r < |SegsOf(t)| && Holds(SegsOf(t)[r], va)
    ensures i < |t| && FileHolds(t, i, va)
  {
    i := SegsAreLoads(t, r);
  }

  lemma NoneHolding(t: seq<Phdr>, va: int)
    requires forall i: nat :: i < |t| ==> !FileHolds(t, i, va)
    ensures FirstHolding(SegsOf(t), va) == |SegsOf(t)|
  {
    var r := FirstHolding(SegsOf(t), va);
    if r < |SegsOf(t)| {
      var i := Holder(t, r, va);
      assert false;
    }
  }

  lemma {:induction false} FirstOfSegs(t: seq<Phdr>, va: int, i: nat)
    requires i < |t| && FileHolds(t, i, va) && forall j: nat :: j < i ==> !FileHolds(t, j, va)
    ensures var k := FirstHolding(SegsOf(t), va);
            k < |SegsOf(t)| && SegsOf(t)[k] == Seg(t[i].vaddr, t[i].offset, t[i].filesz)
  {
    hide FirstHolding;
    var last := |t| - 1;
    var before := SegsOf(t[..last]);
    SegsStep(t, last);
    assert t[..last + 1] == t;
    if i < last {
      assert forall j: nat :: j <= i ==> FileHolds(t[..last], j, va) == FileHolds(t, j, va);
      FirstOfSegs(t[..last], va, i);
      FirstOfPrefix(before, SegsOf(t)[|before|..], va);
      assert SegsOf(t) == before + SegsOf(t)[|before|..];
    } else {
      assert forall j: nat :: j < last ==> FileHolds(t[..last], j, va) == FileHolds(t, j, va);
      NoneHolding(t[..last], va);
      var k := |before|;
      assert forall j :: 0 <= j < k ==> SegsOf(t)[j] == before[j];
      assert Holds(SegsOf(t)[k], va);
    }
  }

  /** Of the headers whose file image holds an address, the first in the file is read: one reader
      goes on to the end of the file if asked, the other stops where the image ends.  Without
      such a header neither reads anything. */
  lemma FirstHeaderIsRead(elf: seq<byte>, va: int, n: nat, i: nat)
    requires TableInside(elf) && i <= |Table(elf)|
    requires i < |Table(elf)| ==> FileHolds(Table(elf), i, va)
    requires forall j: nat :: j < i ==> !FileHolds(Table(elf), j, va)
    ensures var segs := SegsOf(Table(elf));
            var whole, within := Read(elf, segs, va, n), ReadWithin(elf, segs, va, n);
            if i == |Table(elf)| then whole == within == NotMapped
            else
              var ph := Table(elf)[i];
              var o, left := ph.offset + (va - ph.vaddr), ph.vaddr + ph.filesz - va;
              whole == Mapped(Sliced(elf, o, n)) && within == Mapped(Sliced(elf, o, if n < left then n else left))
  {
    hide Table, FirstHolding, SegsOf;
    if i < |Table(elf)| {
      FirstOfSegs(Table(elf), va, i);
    } else {
      NoneHolding(Table(elf), va);
    }
  }

  /** d[o:o + n] in Python. */
  function Sliced(d: seq<byte>, o: nat, n: nat): seq<byte> {
    if o >= |d| then [] else if o + n <= |d| then d[o..o + n] else d[o..]
  }

  /** The loader skips a header without memory; none such has bytes in the file. */
  predicate AllInMemory(t: seq<Phdr>) {
    forall i :: 0 <= i < |t| && t[i].kind == PT_LOAD && t[i].memsz == 0 ==> t[i].filesz == 0
  }

  /** With disjoint segments the first segment that holds an address is the only one. */
  lemma FirstIsOnly(elf: seq<byte>, i: nat, va: nat)
    requires TableInside(elf) && AllInMemory(Table(elf)) && DisjointLoads(Table(elf))
    requires i < PhNum(elf) && Loads(Table(elf)[i])
    requires Table(elf)[i].vaddr <= va < Table(elf)[i].vaddr + Table(elf)[i].filesz
    ensures var segs := SegsOf(Table(elf));
            var f, ph := FirstHolding(segs, va), Table(elf)[i];
            f < |segs| && segs[f] == Seg(ph.vaddr, ph.offset, ph.filesz)
  {
    hide Table;
    var t, segs := Table(elf), SegsOf(Table(elf));
    assert Covers(t[i], va);
    var f := FirstHolding(segs, va);
    var k := LoadsAreSegs(t, i);
    assert Holds(segs[k], va);
    var first := SegsAreLoads(t, f);
    assert Covers(t[first], va);
    DisjointCover(t, i, va);
  }

  /** The scripts take the first segment that holds an address and the loader lets the last
      one win; with disjoint segments every read inside one file image, by either reader, is
      what guest memory holds after loading. */
  lemma ReadersSeeMemory(elf: seq<byte>, mem: seq<byte>, i: nat, va: nat, n: nat)
    requires Loadable(elf) && |mem| == GUEST && AllRegular(elf) && DisjointLoads(Table(elf)) && AllInMemory(Table(elf))
    requires i < PhNum(elf) && Loads(Table(elf)[i])
    requires var ph := Table(elf)[i]; ph.vaddr <= va < ph.vaddr + ph.filesz && va + n <= ph.vaddr + ph.filesz
    ensures va + n <= GUEST
    ensures Read(elf, SegsOf(Table(elf)), va, n) == Mapped(LoadedMemory(elf, mem)[va..va + n])
    ensures ReadWithin(elf, SegsOf(Table(elf)), va, n) == Mapped(LoadedMemory(elf, mem)[va..va + n])
  {
    hide LoadedMemory, Table;
    var ph := Table(elf)[i];
    assert Regular(elf, ph);
    FirstIsOnly(elf, i, va);
    var o := ph.offset + (va - ph.vaddr);
    var loaded := LoadedMemory(elf, mem);
    forall a: nat | va <= a < va + n
      ensures loaded[a] == elf[o + (a - va)]
    {
      MemoryIsFileByte(elf, mem, i, a);
    }
    assert loaded[va..va + n] == Clip(elf, o, n);
  }

  /** A byte of a segment's file image is in memory at its address. */
  lemma MemoryIsFileByte(elf: seq<byte>, mem: seq<byte>, i: nat, a: nat)
    requires Loadable(elf) && |mem| == GUEST && AllRegular(elf) && DisjointLoads(Table(elf))
    requires i < PhNum(elf) && Loads(Table(elf)[i]) && Regular(elf, Table(elf)[i])
    requires Table(elf)[i].vaddr <= a < Table(elf)[i].vaddr + Table(elf)[i].filesz
    ensures LoadedMemory(elf, mem)[a] == elf[Table(elf)[i].offset + (a - Table(elf)[i].vaddr)]
  {
    WritesAlone(elf, i, a);
    LastCoverWins(elf, mem, PhNum(elf), i, a);
    RegularWrites(elf, Table(elf)[i], a);
  }
}
