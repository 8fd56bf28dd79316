/** The rebuilt file, given to the loader: each segment arrives at its address. */
module BuildThenLoad {
  import opened Bytes
  import opened ElfBuild
  import opened ElfFile
  import opened ElfLoad
  import opened ImageRead

  /** The rebuild always writes 0x38-byte entries but keeps the header's own entry size, which
      the loader multiplies by the index: it matters from the second entry on. */
  predicate StrideFits(entrySize: nat, n: nat) {
    n <= 1 || entrySize == PHDR_SIZE
  }

  /** The inner header matches the headers parsed from the SELF. */
  predicate HeaderMatches(self: Self)
    requires self.Valid()
  {
    && HasMagic(self.header) && PhNum(self.header) == |self.phdrs|
    && StrideFits(PhEntSize(self.header), |self.phdrs|)
  }

  /** Loadable segments lie in 32-bit space without overlap, and each one with file data is
      supplied at its file size. */
  predicate SegmentsSupplied(self: Self, segs: Segments) {
    && DisjointLoads(self.phdrs)
    && forall i :: 0 <= i < |self.phdrs| && Loads(self.phdrs[i]) ==>
         var ph := self.phdrs[i];
         && ph.vaddr + Extent(ph) <= GUEST && Extent(ph) < GUEST
         && (ph.filesz > 0 ==> i in segs && |segs[i]| == ph.filesz)
  }

  predicate EntryInGuest(self: Self)
    requires self.Valid()
  {
    Entry(self.header) + 8 <= GUEST || Entry(self.header) >= GUEST
  }

  /** A reader of the file sees exactly the rebuilt program headers. */
  predicate SeesTable(self: Self, segs: Segments, elf: seq<byte>)
    requires Inputs(self, segs) && OffsetsFit(self, segs)
  {
    && TableInside(elf) && |Table(elf)| == |self.phdrs|
    && forall i: nat :: i < |self.phdrs| ==> Table(elf)[i] == NewPhdr(self, segs, i)
  }

  lemma TableOfImage(self: Self, segs: Segments, elf: seq<byte>)
    requires Inputs(self, segs) && OffsetsFit(self, segs) && IsImage(self, segs, elf)
    requires PhNum(self.header) == |self.phdrs| && StrideFits(PhEntSize(self.header), |self.phdrs|)
    ensures SeesTable(self, segs, elf)
  {
    hide IsImage, NewHeader, OffsetsFit, NewPhdr, PhdrAt, PhPos, Entry, HasMagic;
    ImageHeader(self, segs, elf);
    forall i: nat | i < |self.phdrs|
      ensures PhPos(elf, i) + PHDR_SIZE <= |elf| && PhdrAt(elf, PhPos(elf, i)) == NewPhdr(self, segs, i)
    {
      ReparsedPhdr(self, segs, elf, i);
      PlaceInImage(elf, |self.phdrs|, i);
    }
  }

  lemma PlaceInImage(elf: seq<byte>, n: nat, i: nat)
    requires HasHeader(elf) && PhOff(elf) == EHDR_SIZE && StrideFits(PhEntSize(elf), n) && i < n
    ensures PhPos(elf, i) == PhdrPos(i)
  {
    hide U64At, U16At;
  }

  /** elf is rebuilt from a header that announces n entries of the given size. */
  predicate RebuiltFrom(self: Self, segs: Segments, elf: seq<byte>, entrySize: nat, n: nat) {
    && Inputs(self, segs) && OffsetsFit(self, segs) && IsImage(self, segs, elf)
    && PhNum(self.header) == |self.phdrs| == n && PhEntSize(self.header) == entrySize
  }

  /** A header announcing n entries of the given size. */
  function HeaderOf(entrySize: nat, n: nat): (h: seq<byte>)
    requires entrySize < 0x1_0000 && n < 0x1_0000
    ensures |h| == EHDR_SIZE && PhNum(h) == n && PhEntSize(h) == entrySize
  {
    var zeros: seq<byte> := seq(EHDR_SIZE, _ => 0);
    var h := Splice(Splice(zeros, 54, BeBytes(entrySize, 2)), 56, BeBytes(n, 2));
    assert h[54..56] == BeBytes(entrySize, 2) && h[56..58] == BeBytes(n, 2);
    Widths();
    BeNumOfBytes(entrySize, 2);
    BeNumOfBytes(n, 2);
    h
  }

  const BLANK := Phdr(0, 0, 0, 0, 0, 0, 0, 0)

  /** Blank headers but for the type of the second. */
  function OddOneOut(entrySize: nat, n: nat): (self: Self)
    requires entrySize < 0x1_0000 && 2 <= n < 0x1_0000
    ensures self.Valid() && |self.phdrs| == n
  {
    Self(HeaderOf(entrySize, n), seq(n, i => if i == 1 then BLANK.(kind := PT_LOAD) else BLANK))
  }

  lemma {:induction false} NothingPlaced(self: Self, n: nat, i: nat)
    requires i < n <= |self.phdrs|
    ensures LayoutOf(self, map[], n).offsets[i] == 0
  {
    if i < n - 1 {
      NothingPlaced(self, n - 1, i);
    }
  }

  lemma {:induction false} BeZeros(n: nat)
    ensures BeBytes(0, n) == Zeros(n)
  {
    if n > 0 {
      BeZeros(n - 1);
    }
  }

  lemma BlankBytes(ph: Phdr, k: nat)
    requires (ph == BLANK || ph == BLANK.(kind := PT_LOAD)) && k < PHDR_SIZE
    ensures PhdrBytes(ph)[k] == if ph.kind == PT_LOAD && k == 3 then 1 else 0
  {
    assert BeBytes(1, 4) == BeBytes(0, 3) + [1];
    hide BeBytes;
    BeZeros(3);
    BeZeros(4);
    BeZeros(8);
  }

  /** In the rebuilt odd-one-out file the only byte set past the header is the second entry's
      type. */
  lemma OnlyOneByteSet(entrySize: nat, n: nat, elf: seq<byte>, p: nat)
    requires entrySize < 0x1_0000 && 2 <= n < 0x1_0000 && OffsetsFit(OddOneOut(entrySize, n), map[])
    requires IsImage(OddOneOut(entrySize, n), map[], elf) && EHDR_SIZE <= p < |elf|
    ensures elf[p] != 0 ==> p == PhdrPos(1) + 3
  {
    hide NewHeader, PhdrBytes, TotalSize, HeaderOf;
    var self := OddOneOut(entrySize, n);
    var i := (p - EHDR_SIZE) / PHDR_SIZE;
    if i < n {
      var k := p - PhdrPos(i);
      var ph := NewPhdr(self, map[], i);
      NothingPlaced(self, n, i);
      assert SliceIs(elf, PhdrPos(i), PhdrBytes(ph));
      SliceAt(elf, PhdrPos(i), PhdrBytes(ph), k);
      BlankBytes(ph, k);
    } else {
      assert !InSegment(self, map[], n, p);
    }
  }

  lemma OddOneOutMisread(entrySize: nat, n: nat, elf: seq<byte>)
    requires entrySize < 0x1_0000 && 2 <= n < 0x1_0000 && OffsetsFit(OddOneOut(entrySize, n), map[])
    requires RebuiltFrom(OddOneOut(entrySize, n), map[], elf, entrySize, n)
    requires SeesTable(OddOneOut(entrySize, n), map[], elf)
    ensures entrySize == PHDR_SIZE
  {
    hide IsImage, NewHeader, HeaderOf, OffsetsFit;
    var self := OddOneOut(entrySize, n);
    ImageHeader(self, map[], elf);
    var o := PhPos(elf, 1);
    assert o == EHDR_SIZE + entrySize;
    assert Table(elf)[1].kind == PT_LOAD;
    assert PhdrAt(elf, o).kind == 1;
    var word := elf[o..o + 4];
    assert BeNum(word) % 256 == word[3];
    OnlyOneByteSet(entrySize, n, elf, o + 3);
  }

  /** The exact condition: every file rebuilt under a header is read back right exactly when
      the header announces at most one entry or the entry size that is written. */
  lemma TableRightIffStrideFits(entrySize: nat, n: nat)
    requires entrySize < 0x1_0000 && n < 0x1_0000
    ensures (forall self: Self, segs: Segments, elf: seq<byte> ::
               RebuiltFrom(self, segs, elf, entrySize, n) ==> SeesTable(self, segs, elf))
            <==> StrideFits(entrySize, n)
  {
    hide IsImage, SeesTable;
    if StrideFits(entrySize, n) {
      forall self: Self, segs: Segments, elf: seq<byte> | RebuiltFrom(self, segs, elf, entrySize, n)
        ensures SeesTable(self, segs, elf)
      {
        TableOfImage(self, segs, elf);
      }
    } else {
      var self := OddOneOut(entrySize, n);
      forall i | 0 <= i < n ensures Offsets(self, map[])[i] == 0 {
        NothingPlaced(self, n, i);
      }
      var elf := ImageExists(self, map[]);
      assert RebuiltFrom(self, map[], elf, entrySize, n);
      if SeesTable(self, map[], elf) {
        OddOneOutMisread(entrySize, n, elf);
      }
    }
  }

  /** A rebuilt file below 2 GB is one the loader accepts, with every segment in place. */
  lemma ImageIsLoadable(self: Self, segs: Segments, elf: seq<byte>)
    requires Inputs(self, segs) && OffsetsFit(self, segs) && IsImage(self, segs, elf)
    requires HeaderMatches(self) && SegmentsSupplied(self, segs) && EntryInGuest(self) && |elf| < 0x8000_0000
    ensures HasHeader(elf) && HasMagic(elf) && Loadable(elf) && AllRegular(elf)
    ensures PhNum(elf) == |self.phdrs| && DisjointLoads(Table(elf))
  {
    TableOfImage(self, segs, elf);
    ImageHeader(self, segs, elf);
    var t := Table(elf);
    forall i: nat | i < |t|
      ensures InGuest(elf, t[i]) && Regular(elf, t[i])
    {
      PhdrIsRegular(self, segs, elf, i);
    }
  }

  /** A header's file bytes lie in the rebuilt file; a header without any has offset 0. */
  lemma FileBytesInside(self: Self, segs: Segments, elf: seq<byte>, i: nat)
    requires Inputs(self, segs) && OffsetsFit(self, segs) && IsImage(self, segs, elf) && i < |self.phdrs|
    ensures var o := Offsets(self, segs)[i];
            if Placed(self, segs, i) then o + |segs[i]| <= |elf| else o == 0
  {
    hide NewHeader, PhdrBytes, LayoutOf, Offsets, OffsetsFit;
    UnplacedIsZero(self, segs, i);
    if Placed(self, segs, i) {
      assert SliceIs(elf, Offsets(self, segs)[i], segs[i]);
    }
  }

  lemma PhdrIsRegular(self: Self, segs: Segments, elf: seq<byte>, i: nat)
    requires Inputs(self, segs) && OffsetsFit(self, segs) && IsImage(self, segs, elf)
    requires SegmentsSupplied(self, segs) && |elf| < 0x8000_0000 && i < |self.phdrs|
    ensures InGuest(elf, NewPhdr(self, segs, i)) && Regular(elf, NewPhdr(self, segs, i))
  {
    hide IsImage, OffsetsFit, Offsets, LayoutOf, DisjointLoads;
    FileBytesInside(self, segs, elf, i);
    var ph := NewPhdr(self, segs, i);
    if Loads(ph) {
      assert Loads(self.phdrs[i]);
      InsideIsRegular(elf, ph);
    }
  }

  lemma InsideIsRegular(elf: seq<byte>, ph: Phdr)
    requires |elf| < 0x8000_0000 && ph.offset + ph.filesz <= |elf|
    requires ph.vaddr + Extent(ph) <= GUEST && 0 < Extent(ph) < GUEST
    ensures InGuest(elf, ph) && Regular(elf, ph)
  {
    hide Low32;
    Low32Small(ph.vaddr);
    Low32Small(ph.filesz);
    Low32Small(ph.memsz);
  }

  /** Building and then loading puts segment i's bytes at its address, all of them even when it
      has less memory, and zeros from its file size to its memory size. */
  lemma BuildThenLoadSegment(self: Self, segs: Segments, elf: seq<byte>, mem: seq<byte>, i: nat, k: nat)
    requires Inputs(self, segs) && OffsetsFit(self, segs) && IsImage(self, segs, elf) && |mem| == GUEST
    requires HeaderMatches(self) && SegmentsSupplied(self, segs) && EntryInGuest(self) && |elf| < 0x8000_0000
    requires i < |self.phdrs| && Loads(self.phdrs[i]) && k < Extent(self.phdrs[i])
    ensures Loadable(elf)
    ensures var ph := self.phdrs[i];
            LoadedMemory(elf, mem)[ph.vaddr + k] == if k < ph.filesz then segs[i][k] else 0
  {
    hide IsImage, OffsetsFit, Inputs, EntryInGuest, Table, MemAfter, DisjointLoads, Offsets;
    hide Writes, WrittenByte, InGuest, Regular;
    ImageIsLoadable(self, segs, elf);
    TableOfImage(self, segs, elf);
    var ph, a := Table(elf)[i], self.phdrs[i].vaddr + k;
    assert Covers(ph, a);
    WritesAlone(elf, i, a);
    LastCoverWins(elf, mem, PhNum(elf), i, a);
    if k < ph.filesz {
      assert Placed(self, segs, i);
      SegmentByteInImage(self, segs, elf, i, k);
    }
    ByteOfSegment(elf, ph, if i in segs then segs[i] else [], k);
  }

  /** What a segment in 32-bit space puts at its k-th address. */
  lemma ByteOfSegment(elf: seq<byte>, ph: Phdr, data: seq<byte>, k: nat)
    requires |elf| < 0x8000_0000 && InGuest(elf, ph) && Regular(elf, ph) && Loads(ph) && k < Extent(ph)
    requires k < ph.filesz ==> k < |data| && ph.offset + k < |elf| && elf[ph.offset + k] == data[k]
    ensures Writes(elf, ph, ph.vaddr + k)
    ensures WrittenByte(elf, ph, ph.vaddr + k) == if k < ph.filesz then data[k] else 0
  {
    hide Writes, WrittenByte, InGuest, Regular;
    RegularWrites(elf, ph, ph.vaddr + k);
  }

  lemma SegmentByteInImage(self: Self, segs: Segments, elf: seq<byte>, i: nat, k: nat)
    requires Inputs(self, segs) && OffsetsFit(self, segs) && IsImage(self, segs, elf)
    requires i < |self.phdrs| && Placed(self, segs, i) && k < |segs[i]|
    ensures Offsets(self, segs)[i] + k < |elf| && elf[Offsets(self, segs)[i] + k] == segs[i][k]
  {
    hide NewHeader, PhdrBytes;
    var o := Offsets(self, segs)[i];
    assert SliceIs(elf, o, segs[i]);
    assert elf[o..o + |segs[i]|][k] == elf[o + k];
  }

  /** And every address outside the loadable segments keeps its content. */
  lemma BuildThenLoadElsewhere(self: Self, segs: Segments, elf: seq<byte>, mem: seq<byte>, a: nat)
    requires Inputs(self, segs) && OffsetsFit(self, segs) && IsImage(self, segs, elf) && |mem| == GUEST
    requires HeaderMatches(self) && SegmentsSupplied(self, segs) && EntryInGuest(self) && |elf| < 0x8000_0000
    requires a < GUEST && forall j :: 0 <= j < |self.phdrs| ==> !Covers(self.phdrs[j], a)
    ensures Loadable(elf) && LoadedMemory(elf, mem)[a] == mem[a]
  {
    hide IsImage, OffsetsFit, Inputs, EntryInGuest, Table, MemAfter, DisjointLoads, Offsets, Writes;
    ImageIsLoadable(self, segs, elf);
    TableOfImage(self, segs, elf);
    forall j | 0 <= j < PhNum(elf) ensures !Writes(elf, Table(elf)[j], a) {
      RegularWrites(elf, Table(elf)[j], a);
      assert !Covers(self.phdrs[j], a);
    }
    UncoveredKept(elf, mem, PhNum(elf), a);
  }

  /** The analysis scripts, reading the rebuilt file by guest address, get the decrypted
      segment's own bytes. */
  lemma RebuiltFileIsRead(self: Self, segs: Segments, elf: seq<byte>, i: nat, k: nat, n: nat)
    requires Inputs(self, segs) && OffsetsFit(self, segs) && IsImage(self, segs, elf)
    requires HeaderMatches(self) && SegmentsSupplied(self, segs) && EntryInGuest(self) && |elf| < 0x8000_0000
    requires AllInMemory(self.phdrs)
    requires i < |self.phdrs| && Loads(self.phdrs[i]) && k < self.phdrs[i].filesz && k + n <= self.phdrs[i].filesz
    ensures TableInside(elf) && i in segs && k + n <= |segs[i]|
    ensures Read(elf, SegsOf(Table(elf)), self.phdrs[i].vaddr + k, n) == Mapped(segs[i][k..k + n])
    ensures ReadWithin(elf, SegsOf(Table(elf)), self.phdrs[i].vaddr + k, n) == Mapped(segs[i][k..k + n])
  {
    hide IsImage, OffsetsFit, Inputs, EntryInGuest, Offsets;
    hide Table, LoadedMemory, Read, ReadWithin, SegsOf;
    ImageIsLoadable(self, segs, elf);
    TableOfImage(self, segs, elf);
    var mem, va := Zeros(GUEST), self.phdrs[i].vaddr + k;
    ReadersSeeMemory(elf, mem, i, va, n);
    if n > 0 {
      SegmentArrives(self, segs, elf, mem, i, k, n);
    }
  }

  /** The last writable segment that is not executable. */
  predicate DataSegment(self: Self, i: nat) {
    i < |self.phdrs| && IsData(self.phdrs[i]) && forall j :: i < j < |self.phdrs| ==> !IsData(self.phdrs[j])
  }

  /** An entry point inside the data segment's file image, bytes 24 to 31 of the header, is
      resolved to the two words of its descriptor as they stand in the decrypted segment. */
  lemma EntryDescriptorResolved(self: Self, segs: Segments, elf: seq<byte>, mem: seq<byte>, i: nat, entry: u64)
    requires Inputs(self, segs) && OffsetsFit(self, segs) && IsImage(self, segs, elf) && |mem| == GUEST
    requires HeaderMatches(self) && SegmentsSupplied(self, segs) && EntryInGuest(self) && |elf| < 0x8000_0000
    requires DataSegment(self, i) && i in segs && self.header[24..32] == BeBytes(entry, 8)
    requires var ph := self.phdrs[i];
             && ph.vaddr <= entry < ph.vaddr + ph.memsz && entry + 8 <= ph.vaddr + ph.filesz
             && ph.filesz == |segs[i]| && ph.vaddr + ph.memsz < GUEST
    ensures Loadable(elf)
    ensures var r, o := ResultOf(elf, LoadedMemory(elf, mem)), entry - self.phdrs[i].vaddr;
            && r.success && r.entryPoint == entry && r.funcAddr < GUEST && r.toc < GUEST
            && segs[i][o..o + 4] == BeBytes(r.funcAddr, 4) && segs[i][o + 4..o + 8] == BeBytes(r.toc, 4)
  {
    hide IsImage, OffsetsFit, EntryInGuest, Table, LoadedMemory, U64At, TrackAfter, Offsets, BeBytes, NewHeader;
    hide ResultOf, InGuest, Regular, DisjointLoads, LayoutOf, EntryInData;
    FileHeaderIsBytes(self.header, entry, 0, 0, 0);
    ImageIsLoadable(self, segs, elf);
    TableOfImage(self, segs, elf);
    ImageHeader(self, segs, elf);
    FileHeaderIsBytes(elf, entry, 0, 0, 0);
    EntryIsInData(elf, i, entry);
    SegmentArrives(self, segs, elf, mem, i, entry - self.phdrs[i].vaddr, 4);
    SegmentArrives(self, segs, elf, mem, i, entry - self.phdrs[i].vaddr + 4, 4);
    DescriptorWords(elf, LoadedMemory(elf, mem), entry);
  }

  /** The same for a stretch of a segment's file image. */
  lemma SegmentArrives(self: Self, segs: Segments, elf: seq<byte>, mem: seq<byte>, i: nat, k: nat, n: nat)
    requires Inputs(self, segs) && OffsetsFit(self, segs) && IsImage(self, segs, elf) && |mem| == GUEST
    requires HeaderMatches(self) && SegmentsSupplied(self, segs) && EntryInGuest(self) && |elf| < 0x8000_0000
    requires i < |self.phdrs| && Loads(self.phdrs[i]) && n > 0 && k + n <= self.phdrs[i].filesz
    ensures Loadable(elf) && i in segs && k + n <= |segs[i]|
    ensures var a := self.phdrs[i].vaddr + k;
            a + n <= GUEST && LoadedMemory(elf, mem)[a..a + n] == segs[i][k..k + n]
  {
    hide IsImage, OffsetsFit, EntryInGuest, LoadedMemory, DisjointLoads, Loadable, HeaderMatches, Inputs;
    var vaddr := self.phdrs[i].vaddr;
    forall j: nat | k <= j < k + n ensures Loadable(elf) && LoadedMemory(elf, mem)[vaddr + j] == segs[i][j] {
      BuildThenLoadSegment(self, segs, elf, mem, i, j);
    }
    BuildThenLoadSegment(self, segs, elf, mem, i, k);
    var loaded := LoadedMemory(elf, mem);
    SameSlice(loaded, vaddr + k, segs[i], k, n);
  }

  lemma SameSlice(d: seq<byte>, o: nat, d': seq<byte>, o': nat, n: nat)
    requires o + n <= |d| && o' + n <= |d'| && forall k: nat :: o' <= k < o' + n ==> d[k - o' + o] == d'[k]
    ensures d[o..o + n] == d'[o'..o' + n]
  {
    var s, s' := d[o..o + n], d'[o'..o' + n];
    forall j: nat | j < n ensures s[j] == s'[j] {
      assert d[o' + j - o' + o] == d'[o' + j];
    }
  }

  lemma DescriptorWords(elf: seq<byte>, mem: seq<byte>, entry: u64)
    requires Loadable(elf) && |mem| == GUEST && elf[24..32] == BeBytes(entry, 8)
    requires EntryInData(entry, TrackAfter(elf, PhNum(elf)))
    ensures var r := ResultOf(elf, mem);
            && r.success && r.entryPoint == entry && r.funcAddr < GUEST && r.toc < GUEST && entry + 8 <= GUEST
            && mem[entry..entry + 4] == BeBytes(r.funcAddr, 4) && mem[entry + 4..entry + 8] == BeBytes(r.toc, 4)
  {
    hide Table, U32At, TrackAfter, BeBytes, U64At, InGuest;
    FileHeaderIsBytes(elf, entry, 0, 0, 0);
    ResultIsResolved(elf, mem, entry);
  }

  /** The loader recognises an entry point in the last data segment. */
  lemma EntryIsInData(elf: seq<byte>, i: nat, entry: u64)
    requires Loadable(elf) && i < PhNum(elf) && IsData(Table(elf)[i])
    requires forall j :: i < j < PhNum(elf) ==> !IsData(Table(elf)[j])
    requires var ph := Table(elf)[i];
             ph.vaddr <= entry < ph.vaddr + ph.memsz < GUEST && ph.filesz < GUEST
    ensures EntryInData(entry, TrackAfter(elf, PhNum(elf)))
  {
    hide Table, TrackAfter, Low32;
    var ph := Table(elf)[i];
    ReportedSegments(elf, PhNum(elf), i);
    Low32Small(ph.vaddr);
    Low32Small(ph.filesz);
    Low32Small(ph.memsz);
  }
}
