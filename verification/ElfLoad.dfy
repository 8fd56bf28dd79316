/** `load_elf_into_vm` of src/elf_loader.h: a decrypted ELF's loadable segments are written
    into the 4 GB guest address space in header order. */
module ElfLoad {
  import opened Bytes
  import opened ElfFile

  datatype LoadResult = LoadResult(
    entryPoint: u64, funcAddr: u64, toc: u64,
    codeBase: u32, codeSize: u32,
    dataBase: u32, dataSize: u32, bssSize: u32,
    tlsVaddr: u32, tlsFilesz: u32, tlsMemsz: u32,
    success: bool)

  const EMPTY_RESULT := LoadResult(0, 0, 0, 0, 0, 0, 0, 0, 0, 0, 0, false)

  function Low32(v: u64): u32 {
    v % 0x1_0000_0000
  }

  /** Segments the loader maps. */
  predicate Loads(ph: Phdr) {
    ph.kind == PT_LOAD && ph.memsz != 0
  }

  /** The loader's test for having all of a segment's bytes, in 64-bit arithmetic. */
  predicate Copies(elf: seq<byte>, ph: Phdr) {
    Low32(ph.filesz) > 0 && (ph.offset + Low32(ph.filesz)) % 0x1_0000_0000_0000_0000 <= |elf|
  }

  /** What it does not test, and without which it has undefined behaviour: bytes it copies are
      in the file although the sum may have wrapped, and what it writes is in guest memory. */
  predicate InGuest(elf: seq<byte>, ph: Phdr) {
    Loads(ph) ==>
      && (Copies(elf, ph) ==> ph.offset + Low32(ph.filesz) <= |elf| && Low32(ph.vaddr) + Low32(ph.filesz) <= GUEST)
      && (Low32(ph.memsz) > Low32(ph.filesz) ==> Low32(ph.vaddr) + Low32(ph.memsz) <= GUEST)
  }

  /** A file the loader can be given: complete, short enough for the host's 32-bit file
      offsets, its table inside, its segments and entry descriptor in guest memory. */
  predicate Loadable(elf: seq<byte>) {
    && TableInside(elf) && |elf| < 0x8000_0000
    && (forall i :: 0 <= i < |Table(elf)| ==> InGuest(elf, Table(elf)[i]))
    && (Entry(elf) + 8 <= GUEST || Entry(elf) >= GUEST)
  }

  function Zeros(n: nat): (s: seq<byte>)
    ensures |s| == n && forall k :: 0 <= k < n ==> s[k] == 0
  {
    seq(n, _ => 0)
  }

  /** Guest memory after one header's segment: the file bytes are copied when the file has
      all of them, and the rest of the segment is zeroed. */
  function LoadSegment(elf: seq<byte>, ph: Phdr, mem: seq<byte>): (r: seq<byte>)
    requires InGuest(elf, ph) && |mem| == GUEST
    ensures |r| == GUEST
  {
    if !Loads(ph) then mem
    else
      var vaddr, filesz, memsz := Low32(ph.vaddr), Low32(ph.filesz), Low32(ph.memsz);
      var copied := if Copies(elf, ph)
                    then Splice(mem, vaddr, elf[ph.offset..ph.offset + filesz]) else mem;
      if memsz > filesz then Splice(copied, vaddr + filesz, Zeros(memsz - filesz)) else copied
  }

  function MemAfter(elf: seq<byte>, mem: seq<byte>, n: nat): (r: seq<byte>)
    requires Loadable(elf) && |mem| == GUEST && n <= PhNum(elf)
    ensures |r| == GUEST
  {
    if n == 0 then mem else LoadSegment(elf, Table(elf)[n - 1], MemAfter(elf, mem, n - 1))
  }

  /** Guest memory after the whole file is loaded. */
  function LoadedMemory(elf: seq<byte>, mem: seq<byte>): (r: seq<byte>)
    requires Loadable(elf) && |mem| == GUEST
    ensures |r| == GUEST
  {
    MemAfter(elf, mem, PhNum(elf))
  }

  /** What the loader records about a header, the last of each sort winning. */
  function Track(r: LoadResult, ph: Phdr): LoadResult {
    if ph.kind == PT_TLS then
      r.(tlsVaddr := Low32(ph.vaddr), tlsFilesz := Low32(ph.filesz), tlsMemsz := Low32(ph.memsz))
    else if !Loads(ph) then r
    else if ph.flags % 2 == 1 then
      r.(codeBase := Low32(ph.vaddr), codeSize := Low32(ph.filesz))
    else if ph.flags / 2 % 2 == 1 then
      r.(dataBase := Low32(ph.vaddr), dataSize := Low32(ph.filesz),
         bssSize := (Low32(ph.memsz) - Low32(ph.filesz)) % 0x1_0000_0000)
    else r
  }

  function TrackAfter(elf: seq<byte>, n: nat): LoadResult
    requires Loadable(elf) && n <= PhNum(elf)
  {
    if n == 0 then EMPTY_RESULT.(entryPoint := Entry(elf))
    else Track(TrackAfter(elf, n - 1), Table(elf)[n - 1])
  }

  /** The entry point is a function descriptor when it lies in the data segment. */
  predicate EntryInData(entry: u64, r: LoadResult) {
    r.dataBase <= entry < (r.dataBase + r.dataSize + r.bssSize) % 0x1_0000_0000
  }

  function ResultOf(elf: seq<byte>, mem: seq<byte>): LoadResult
    requires Loadable(elf) && |mem| == GUEST
  {
    var r := TrackAfter(elf, PhNum(elf));
    var entry := Entry(elf);
    if EntryInData(entry, r) then
      r.(funcAddr := U32At(mem, entry), toc := U32At(mem, entry + 4), success := true)
    else r.(funcAddr := entry, toc := 0, success := true)
  }

  /** An entry point in the reported data segment is a descriptor, two words of memory; any other
      is the code address itself. */
  predicate Resolved(r: LoadResult, mem: seq<byte>, entry: u64) {
    && r.entryPoint == entry
    && if r.dataBase <= entry < (r.dataBase + r.dataSize + r.bssSize) % 0x1_0000_0000 then
         && entry + 8 <= |mem| && r.funcAddr < 0x1_0000_0000 && r.toc < 0x1_0000_0000
         && mem[entry..entry + 4] == BeBytes(r.funcAddr, 4) && mem[entry + 4..entry + 8] == BeBytes(r.toc, 4)
       else r.funcAddr == entry && r.toc == 0
  }

  lemma ResultIsResolved(elf: seq<byte>, mem: seq<byte>, entry: u64)
    requires Loadable(elf) && |mem| == GUEST && elf[24..32] == BeBytes(entry, 8)
    ensures Resolved(ResultOf(elf, mem), mem, entry)
  {
    hide BeBytes, U32At, U64At, Table, InGuest, Track;
    FileHeaderIsBytes(elf, entry, 0, 0, 0);
    KeepsEntryPoint(elf, PhNum(elf));
    if EntryInData(entry, TrackAfter(elf, PhNum(elf))) {
      U32Is(mem, entry, U32At(mem, entry));
      U32Is(mem, entry + 4, U32At(mem, entry + 4));
    }
  }

  lemma {:induction false} KeepsEntryPoint(elf: seq<byte>, n: nat)
    requires Loadable(elf) && n <= PhNum(elf)
    ensures TrackAfter(elf, n).entryPoint == Entry(elf)
  {
    hide Table, Low32, InGuest;
    if n > 0 {
      KeepsEntryPoint(elf, n - 1);
    }
  }

  /** One pass of the header loop for a segment that is mapped. */
  method MapSegment(elf: seq<byte>, ph: Phdr, vm: array<byte>)
    requires InGuest(elf, ph) && Loads(ph) && vm.Length == GUEST
    modifies vm
    ensures vm[..] == LoadSegment(elf, ph, old(vm[..]))
  {
    hide Low32, Copies;
    var vaddr, filesz, memsz := Low32(ph.vaddr), Low32(ph.filesz), Low32(ph.memsz);
    if Copies(elf, ph) {
      WriteAt(vm, vaddr, elf[ph.offset..ph.offset + filesz]);
    }
    if memsz > filesz {
      WriteAt(vm, vaddr + filesz, Zeros(memsz - filesz));
    }
  }

  method LoadElf(elf: seq<byte>, vm: array<byte>) returns (r: LoadResult)
    requires HasHeader(elf) && vm.Length == GUEST
    requires HasMagic(elf) ==> Loadable(elf)
    modifies vm
    ensures !HasMagic(elf) ==> r == EMPTY_RESULT && vm[..] == old(vm[..])
    ensures HasMagic(elf) ==> vm[..] == LoadedMemory(elf, old(vm[..]))
                              && r == ResultOf(elf, LoadedMemory(elf, old(vm[..])))
    ensures r.success <==> elf[..4] == [0x7f, 0x45, 0x4c, 0x46]
    ensures forall entry: u64 :: r.success && elf[24..32] == BeBytes(entry, 8) ==> Resolved(r, vm[..], entry)
  {
    hide LoadSegment;
    r := EMPTY_RESULT;
    if elf[..4] != [0x7f, 0x45, 0x4c, 0x46] {
      return;
    }
    var entry, phnum := Entry(elf), PhNum(elf);
    r := r.(entryPoint := entry);
    ghost var was := vm[..];
    for i := 0 to phnum
      invariant vm[..] == MemAfter(elf, was, i)
      invariant r == TrackAfter(elf, i)
    {
      var ph := PhdrAt(elf, PhPos(elf, i));
      assert ph == Table(elf)[i] && InGuest(elf, ph);
      if ph.kind == PT_TLS {
        r := r.(tlsVaddr := Low32(ph.vaddr), tlsFilesz := Low32(ph.filesz), tlsMemsz := Low32(ph.memsz));
        LoadsOnly(elf, ph, vm[..]);
        continue;
      }
      if ph.kind != PT_LOAD || ph.memsz == 0 {
        LoadsOnly(elf, ph, vm[..]);
        continue;
      }
      MapSegment(elf, ph, vm);
      r := Track(r, ph);
    }
    if EntryInData(entry, r) {
      r := r.(funcAddr := U32At(vm[..], entry), toc := U32At(vm[..], entry + 4));
    } else {
      r := r.(funcAddr := entry, toc := 0);
    }
    r := r.(success := true);
    forall v: u64 | elf[24..32] == BeBytes(v, 8) ensures Resolved(r, vm[..], v) {
      ResultIsResolved(elf, vm[..], v);
    }
  }

  lemma LoadsOnly(elf: seq<byte>, ph: Phdr, mem: seq<byte>)
    requires InGuest(elf, ph) && |mem| == GUEST && !Loads(ph)
    ensures LoadSegment(elf, ph, mem) == mem
  {
  }

  // ---- What loading leaves in memory -------------------------------------------

  /** The loader writes address a for this header: a byte of the file, when it copies them, or a
      zero past the file bytes. */
  predicate Writes(elf: seq<byte>, ph: Phdr, a: nat) {
    var vaddr, filesz, memsz := Low32(ph.vaddr), Low32(ph.filesz), Low32(ph.memsz);
    Loads(ph) && if a < vaddr + filesz then vaddr <= a && Copies(elf, ph) else a < vaddr + memsz
  }

  /** What it writes there. */
  function WrittenByte(elf: seq<byte>, ph: Phdr, a: nat): byte
    requires InGuest(elf, ph) && Writes(elf, ph, a)
  {
    if a < Low32(ph.vaddr) + Low32(ph.filesz) then elf[ph.offset + (a - Low32(ph.vaddr))] else 0
  }

  lemma SegmentPointwise(elf: seq<byte>, ph: Phdr, mem: seq<byte>, a: nat)
    requires InGuest(elf, ph) && |mem| == GUEST && a < GUEST
    ensures LoadSegment(elf, ph, mem)[a] == if Writes(elf, ph, a) then WrittenByte(elf, ph, a) else mem[a]
  {
    hide Low32, Copies;
  }

  /** Memory that no header writes keeps its content. */
  lemma {:induction false} UncoveredKept(elf: seq<byte>, mem: seq<byte>, n: nat, a: nat)
    requires Loadable(elf) && |mem| == GUEST && n <= PhNum(elf) && a < GUEST
    requires forall j :: 0 <= j < n ==> !Writes(elf, Table(elf)[j], a)
    ensures MemAfter(elf, mem, n)[a] == mem[a]
  {
    hide LoadSegment, Writes, WrittenByte, Table;
    if n > 0 {
      UncoveredKept(elf, mem, n - 1, a);
      SegmentPointwise(elf, Table(elf)[n - 1], MemAfter(elf, mem, n - 1), a);
    }
  }

  /** An address that is written holds the byte of the last header that writes it. */
  lemma {:induction false} LastCoverWins(elf: seq<byte>, mem: seq<byte>, n: nat, i: nat, a: nat)
    requires Loadable(elf) && |mem| == GUEST && i < n <= PhNum(elf) && a < GUEST
    requires Writes(elf, Table(elf)[i], a) && forall j :: i < j < n ==> !Writes(elf, Table(elf)[j], a)
    ensures MemAfter(elf, mem, n)[a] == WrittenByte(elf, Table(elf)[i], a)
  {
    hide LoadSegment, Writes, WrittenByte, Table;
    SegmentPointwise(elf, Table(elf)[n - 1], MemAfter(elf, mem, n - 1), a);
    if i < n - 1 {
      LastCoverWins(elf, mem, n - 1, i, a);
    }
  }

  // ---- One header, on the bytes of the file ---------------------------------------

  /** What a header does to the byte at a: only type 1 with a memory size does anything, sizes and
      address are cut to 32 bits, and the file bytes are copied when all of them are there. */
  predicate Stored(elf: seq<byte>, ph: Phdr, a: nat, was: byte, now: byte) {
    var lo, n, m := ph.vaddr % 0x1_0000_0000, ph.filesz % 0x1_0000_0000, ph.memsz % 0x1_0000_0000;
    if ph.kind != 1 || ph.memsz == 0 then now == was
    else if lo <= a < lo + n && (ph.offset + n) % 0x1_0000_0000_0000_0000 <= |elf| then
      ph.offset + (a - lo) < |elf| && now == elf[ph.offset + (a - lo)]
    else if lo + n <= a < lo + m then now == 0
    else now == was
  }

  lemma SegmentStores(elf: seq<byte>, ph: Phdr, mem: seq<byte>, a: nat)
    requires InGuest(elf, ph) && |mem| == GUEST && a < GUEST
    ensures Stored(elf, ph, a, mem[a], LoadSegment(elf, ph, mem)[a])
  {
    hide LoadSegment;
    SegmentPointwise(elf, ph, mem, a);
  }

  lemma TableInGuest(elf: seq<byte>, i: nat, ph: Phdr)
    requires Loadable(elf) && i < PhNum(elf) && Table(elf)[i] == ph
    ensures InGuest(elf, ph)
  {
  }

  /** Header i, spelled by the bytes at its place in the file, has this effect on memory. */
  lemma HeaderWrites(elf: seq<byte>, mem: seq<byte>, phoff: u64, entrySize: nat, i: nat, o: nat, ph: Phdr, a: nat)
    requires Loadable(elf) && |mem| == GUEST && entrySize < 0x1_0000 && i < PhNum(elf) && a < GUEST
    requires elf[32..40] == BeBytes(phoff, 8) && elf[54..56] == BeBytes(entrySize, 2)
    requires o == phoff + i * entrySize && HeaderBytes(elf, o, ph)
    ensures Stored(elf, ph, a, MemAfter(elf, mem, i)[a], MemAfter(elf, mem, i + 1)[a])
  {
    hide BeBytes, Table, HeaderBytes, LoadSegment, InGuest, Stored;
    TableIsBytes(elf, phoff, entrySize, i, o, ph);
    TableInGuest(elf, i, ph);
    SegmentStores(elf, ph, MemAfter(elf, mem, i), a);
  }

  /** What is recorded about a header, given what was recorded before. */
  predicate Recorded(was: LoadResult, ph: Phdr, now: LoadResult) {
    var lo, n, m := ph.vaddr % 0x1_0000_0000, ph.filesz % 0x1_0000_0000, ph.memsz % 0x1_0000_0000;
    if ph.kind == 7 then now == was.(tlsVaddr := lo, tlsFilesz := n, tlsMemsz := m)
    else if ph.kind != 1 || ph.memsz == 0 then now == was
    else if ph.flags % 2 == 1 then now == was.(codeBase := lo, codeSize := n)
    else if ph.flags / 2 % 2 == 1 then
      now == was.(dataBase := lo, dataSize := n, bssSize := now.bssSize) && (n + now.bssSize) % 0x1_0000_0000 == m
    else now == was
  }

  lemma TrackRecords(was: LoadResult, ph: Phdr)
    ensures Recorded(was, ph, Track(was, ph))
  {
  }

  /** And this one on the loader's record. */
  lemma HeaderRecorded(elf: seq<byte>, phoff: u64, entrySize: nat, i: nat, o: nat, ph: Phdr)
    requires Loadable(elf) && entrySize < 0x1_0000 && i < PhNum(elf)
    requires elf[32..40] == BeBytes(phoff, 8) && elf[54..56] == BeBytes(entrySize, 2)
    requires o == phoff + i * entrySize && HeaderBytes(elf, o, ph)
    ensures Recorded(TrackAfter(elf, i), ph, TrackAfter(elf, i + 1))
  {
    hide BeBytes, Table, HeaderBytes, Recorded, TrackAfter, InGuest;
    TableIsBytes(elf, phoff, entrySize, i, o, ph);
    TableRecorded(elf, i, ph);
  }

  lemma TableRecorded(elf: seq<byte>, i: nat, ph: Phdr)
    requires Loadable(elf) && i < PhNum(elf) && Table(elf)[i] == ph
    ensures Recorded(TrackAfter(elf, i), ph, TrackAfter(elf, i + 1))
  {
    hide Table, InGuest, Track, Recorded;
    TrackRecords(TrackAfter(elf, i), ph);
  }

  // ---- Segments in 32-bit space --------------------------------------------------

  /** File bytes are copied in full even when the header gives the segment less memory. */
  function Extent(ph: Phdr): u64 {
    Max(ph.filesz, ph.memsz)
  }

  /** A loadable segment in the 32-bit address space whose file image is in the file. */
  predicate Regular(elf: seq<byte>, ph: Phdr) {
    Loads(ph) ==>
      ph.vaddr + Extent(ph) <= GUEST && Extent(ph) < GUEST && ph.offset + ph.filesz <= |elf|
  }

  predicate AllRegular(elf: seq<byte>)
    requires TableInside(elf)
  {
    forall i :: 0 <= i < |Table(elf)| ==> Regular(elf, Table(elf)[i])
  }

  /** a lies in the segment's memory range. */
  predicate Covers(ph: Phdr, a: nat) {
    Loads(ph) && ph.vaddr <= a < ph.vaddr + Extent(ph)
  }

  /** Then the loader writes the whole range: the file bytes, and zeros up to the memory size. */
  lemma RegularWrites(elf: seq<byte>, ph: Phdr, a: nat)
    requires |elf| < 0x8000_0000 && InGuest(elf, ph) && Regular(elf, ph)
    ensures Writes(elf, ph, a) <==> Covers(ph, a)
    ensures Covers(ph, a) ==>
              WrittenByte(elf, ph, a) == if a < ph.vaddr + ph.filesz then elf[ph.offset + (a - ph.vaddr)] else 0
  {
    hide Low32;
    if Loads(ph) {
      Low32Small(ph.filesz);
      Low32Small(ph.memsz);
      Low32Small(ph.vaddr);
    }
  }

  lemma Low32Small(v: u64)
    requires v < GUEST
    ensures Low32(v) == v
  {
  }

  /** The memory ranges of the loadable segments do not overlap. */
  predicate DisjointLoads(t: seq<Phdr>) {
    forall i, j :: 0 <= i < j < |t| && Loads(t[i]) && Loads(t[j]) ==>
      t[i].vaddr + Extent(t[i]) <= t[j].vaddr || t[j].vaddr + Extent(t[j]) <= t[i].vaddr
  }

  lemma DisjointCover(t: seq<Phdr>, i: nat, a: nat)
    requires DisjointLoads(t) && i < |t| && Covers(t[i], a)
    ensures forall j :: 0 <= j < |t| && j != i ==> !Covers(t[j], a)
  {
  }

  /** With disjoint segments an address in one of them is written by that one alone. */
  lemma WritesAlone(elf: seq<byte>, i: nat, a: nat)
    requires Loadable(elf) && AllRegular(elf) && DisjointLoads(Table(elf))
    requires i < PhNum(elf) && Covers(Table(elf)[i], a)
    ensures Writes(elf, Table(elf)[i], a)
    ensures forall j :: 0 <= j < PhNum(elf) && j != i ==> !Writes(elf, Table(elf)[j], a)
  {
    hide Table, Writes, WrittenByte, Covers, Regular;
    DisjointCover(Table(elf), i, a);
    forall j | 0 <= j < PhNum(elf)
      ensures Writes(elf, Table(elf)[j], a) <==> Covers(Table(elf)[j], a)
    {
      RegularWrites(elf, Table(elf)[j], a);
    }
  }

  // ---- What the loader reports ---------------------------------------------------

  predicate IsCode(ph: Phdr) {
    Loads(ph) && ph.flags % 2 == 1
  }

  predicate IsData(ph: Phdr) {
    Loads(ph) && ph.flags % 2 == 0 && ph.flags / 2 % 2 == 1
  }

  /** The reported data segment is the last writable one that is not executable, the code
      segment the last executable one, the TLS image the last PT_TLS header. */
  lemma {:induction false} ReportedSegments(elf: seq<byte>, n: nat, i: nat)
    requires Loadable(elf) && i < n <= PhNum(elf)
    ensures var ph, r := Table(elf)[i], TrackAfter(elf, n);
            && (IsData(ph) && (forall j :: i < j < n ==> !IsData(Table(elf)[j])) ==>
                  r.dataBase == Low32(ph.vaddr) && r.dataSize == Low32(ph.filesz)
                  && (r.dataSize + r.bssSize) % 0x1_0000_0000 == Low32(ph.memsz))
            && (IsCode(ph) && (forall j :: i < j < n ==> !IsCode(Table(elf)[j])) ==>
                  r.codeBase == Low32(ph.vaddr) && r.codeSize == Low32(ph.filesz))
            && (ph.kind == PT_TLS && (forall j :: i < j < n ==> Table(elf)[j].kind != PT_TLS) ==>
                  r.tlsVaddr == Low32(ph.vaddr) && r.tlsFilesz == Low32(ph.filesz) && r.tlsMemsz == Low32(ph.memsz))
  {
    hide Table, Loadable, InGuest;
    if i < n - 1 {
      ReportedSegments(elf, n - 1, i);
    }
  }
}
