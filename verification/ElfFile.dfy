/** The big-endian ELF64 fields that the rebuilder writes and the loader and the image
    readers parse. */
module ElfFile {
  import opened Bytes

  const EHDR_SIZE: nat := 0x40

  const PHDR_SIZE: nat := 0x38

  const PT_LOAD: u32 := 1

  const PT_TLS: u32 := 7

  function U16At(d: seq<byte>, o: nat): (v: nat)
    requires o + 2 <= |d|
    ensures v < 0x1_0000
  {
    BeNumBound(d[o..o + 2]);
    Widths();
    BeNum(d[o..o + 2])
  }

  function U32At(d: seq<byte>, o: nat): u32
    requires o + 4 <= |d|
  {
    BeNumBound(d[o..o + 4]);
    Widths();
    BeNum(d[o..o + 4])
  }

  function U64At(d: seq<byte>, o: nat): u64
    requires o + 8 <= |d|
  {
    BeNumBound(d[o..o + 8]);
    Widths();
    BeNum(d[o..o + 8])
  }

  datatype Phdr = Phdr(kind: u32, flags: u32, offset: u64, vaddr: u64, paddr: u64, filesz: u64, memsz: u64, align: u64)

  function PhdrAt(d: seq<byte>, o: nat): Phdr
    requires o + PHDR_SIZE <= |d|
  {
    Phdr(U32At(d, o), U32At(d, o + 4), U64At(d, o + 8), U64At(d, o + 16),
         U64At(d, o + 24), U64At(d, o + 32), U64At(d, o + 40), U64At(d, o + 48))
  }

  function PhdrBytes(ph: Phdr): (s: seq<byte>)
    ensures |s| == PHDR_SIZE
  {
    BeBytes(ph.kind, 4) + BeBytes(ph.flags, 4) + BeBytes(ph.offset, 8) + BeBytes(ph.vaddr, 8)
    + BeBytes(ph.paddr, 8) + BeBytes(ph.filesz, 8) + BeBytes(ph.memsz, 8) + BeBytes(ph.align, 8)
  }

  lemma U32AtBytes(d: seq<byte>, o: nat, v: u32)
    requires o + 4 <= |d| && d[o..o + 4] == BeBytes(v, 4)
    ensures U32At(d, o) == v
  {
    Widths();
    BeNumOfBytes(v, 4);
  }

  lemma U64AtBytes(d: seq<byte>, o: nat, v: u64)
    requires o + 8 <= |d| && d[o..o + 8] == BeBytes(v, 8)
    ensures U64At(d, o) == v
  {
    Widths();
    BeNumOfBytes(v, 8);
  }

  lemma U16Is(d: seq<byte>, o: nat, v: nat)
    requires o + 2 <= |d| && v < 0x1_0000
    ensures U16At(d, o) == v <==> d[o..o + 2] == BeBytes(v, 2)
  {
    hide BeBytes, BeNum;
    Widths();
    BeNumOfBytes(v, 2);
    BeBytesOfNum(d[o..o + 2]);
  }

  lemma U32Is(d: seq<byte>, o: nat, v: u32)
    requires o + 4 <= |d|
    ensures U32At(d, o) == v <==> d[o..o + 4] == BeBytes(v, 4)
  {
    hide BeBytes, BeNum;
    Widths();
    BeNumOfBytes(v, 4);
    BeBytesOfNum(d[o..o + 4]);
  }

  lemma U64Is(d: seq<byte>, o: nat, v: u64)
    requires o + 8 <= |d|
    ensures U64At(d, o) == v <==> d[o..o + 8] == BeBytes(v, 8)
  {
    hide BeBytes, BeNum;
    Widths();
    BeNumOfBytes(v, 8);
    BeBytesOfNum(d[o..o + 8]);
  }

  lemma SubSlice(d: seq<byte>, o: nat, s: seq<byte>, a: nat, b: nat)
    requires o + |s| <= |d| && d[o..o + |s|] == s && a <= b <= |s|
    ensures d[o + a..o + b] == s[a..b]
  {
    forall k: nat | k < b - a
      ensures d[o + a..o + b][k] == s[a..b][k]
    {
      assert d[o..o + |s|][a + k] == d[o + a + k];
    }
  }

  /** Reading back a written program header gives every field. */
  lemma PhdrRoundTrip(d: seq<byte>, o: nat, ph: Phdr)
    requires o + PHDR_SIZE <= |d| && d[o..o + PHDR_SIZE] == PhdrBytes(ph)
    ensures PhdrAt(d, o) == ph
  {
    var s := PhdrBytes(ph);
    assert s[0..4] == BeBytes(ph.kind, 4) && s[4..8] == BeBytes(ph.flags, 4);
    assert s[8..16] == BeBytes(ph.offset, 8) && s[16..24] == BeBytes(ph.vaddr, 8);
    assert s[24..32] == BeBytes(ph.paddr, 8) && s[32..40] == BeBytes(ph.filesz, 8);
    assert s[40..48] == BeBytes(ph.memsz, 8) && s[48..56] == BeBytes(ph.align, 8);
    FieldsFromSlices(d, o, s, ph);
  }

  lemma FieldsFromSlices(d: seq<byte>, o: nat, s: seq<byte>, ph: Phdr)
    requires |s| == PHDR_SIZE && o + PHDR_SIZE <= |d| && d[o..o + PHDR_SIZE] == s
    requires s[0..4] == BeBytes(ph.kind, 4) && s[4..8] == BeBytes(ph.flags, 4)
    requires s[8..16] == BeBytes(ph.offset, 8) && s[16..24] == BeBytes(ph.vaddr, 8)
    requires s[24..32] == BeBytes(ph.paddr, 8) && s[32..40] == BeBytes(ph.filesz, 8)
    requires s[40..48] == BeBytes(ph.memsz, 8) && s[48..56] == BeBytes(ph.align, 8)
    ensures PhdrAt(d, o) == ph
  {
    hide U32At, U64At, BeBytes;
    SubSlice(d, o, s, 0, 4);
    U32AtBytes(d, o, ph.kind);
    SubSlice(d, o, s, 4, 8);
    U32AtBytes(d, o + 4, ph.flags);
    SubSlice(d, o, s, 8, 16);
    U64AtBytes(d, o + 8, ph.offset);
    SubSlice(d, o, s, 16, 24);
    U64AtBytes(d, o + 16, ph.vaddr);
    SubSlice(d, o, s, 24, 32);
    U64AtBytes(d, o + 24, ph.paddr);
    SubSlice(d, o, s, 32, 40);
    U64AtBytes(d, o + 32, ph.filesz);
    SubSlice(d, o, s, 40, 48);
    U64AtBytes(d, o + 40, ph.memsz);
    SubSlice(d, o, s, 48, 56);
    U64AtBytes(d, o + 48, ph.align);
  }

  /** The bytes of a program header at o (ELF-64 Object File Format, program header table). */
  predicate HeaderBytes(d: seq<byte>, o: nat, ph: Phdr) {
    && o + 56 <= |d|
    && d[o..o + 4] == BeBytes(ph.kind, 4) && d[o + 4..o + 8] == BeBytes(ph.flags, 4)
    && d[o + 8..o + 16] == BeBytes(ph.offset, 8) && d[o + 16..o + 24] == BeBytes(ph.vaddr, 8)
    && d[o + 24..o + 32] == BeBytes(ph.paddr, 8) && d[o + 32..o + 40] == BeBytes(ph.filesz, 8)
    && d[o + 40..o + 48] == BeBytes(ph.memsz, 8) && d[o + 48..o + 56] == BeBytes(ph.align, 8)
  }

  /** A header is read from exactly the bytes that spell it. */
  lemma PhdrIsBytes(d: seq<byte>, o: nat, ph: Phdr)
    requires o + PHDR_SIZE <= |d|
    ensures PhdrAt(d, o) == ph <==> HeaderBytes(d, o, ph)
  {
    hide U32At, U64At, BeBytes;
    U32Is(d, o, ph.kind);
    U32Is(d, o + 4, ph.flags);
    U64Is(d, o + 8, ph.offset);
    U64Is(d, o + 16, ph.vaddr);
    U64Is(d, o + 24, ph.paddr);
    U64Is(d, o + 32, ph.filesz);
    U64Is(d, o + 40, ph.memsz);
    U64Is(d, o + 48, ph.align);
  }

  // ---- Header fields, at their ELF64 offsets ---------------------------------------

  predicate HasHeader(elf: seq<byte>) {
    |elf| >= EHDR_SIZE
  }

  function Entry(elf: seq<byte>): u64
    requires HasHeader(elf)
  {
    U64At(elf, 24)
  }

  function PhOff(elf: seq<byte>): u64
    requires HasHeader(elf)
  {
    U64At(elf, 32)
  }

  function PhEntSize(elf: seq<byte>): nat
    requires HasHeader(elf)
  {
    U16At(elf, 54)
  }

  function PhNum(elf: seq<byte>): nat
    requires HasHeader(elf)
  {
    U16At(elf, 56)
  }

  predicate HasMagic(elf: seq<byte>)
    requires HasHeader(elf)
  {
    elf[..4] == [0x7f, 0x45, 0x4c, 0x46]
  }

  /** Every program header the file announces lies inside it. */
  predicate TableInside(elf: seq<byte>) {
    && HasHeader(elf)
    && forall i: nat :: i < PhNum(elf) ==> PhPos(elf, i) + PHDR_SIZE <= |elf|
  }

  function PhPos(elf: seq<byte>, i: nat): nat
    requires HasHeader(elf)
  {
    PhOff(elf) + i * PhEntSize(elf)
  }

  /** The program headers as a reader of the file sees them. */
  function Table(elf: seq<byte>): (t: seq<Phdr>)
    requires TableInside(elf)
    ensures |t| == PhNum(elf)
  {
    seq(PhNum(elf), i requires 0 <= i < PhNum(elf) => PhdrAt(elf, PhPos(elf, i)))
  }

  /** The file header's bytes: entry point, and where and how many program headers there are. */
  lemma FileHeaderIsBytes(elf: seq<byte>, entry: u64, phoff: u64, entrySize: nat, count: nat)
    requires |elf| >= 64 && entrySize < 0x1_0000 && count < 0x1_0000
    ensures HasHeader(elf)
    ensures Entry(elf) == entry <==> elf[24..32] == BeBytes(entry, 8)
    ensures PhOff(elf) == phoff <==> elf[32..40] == BeBytes(phoff, 8)
    ensures PhEntSize(elf) == entrySize <==> elf[54..56] == BeBytes(entrySize, 2)
    ensures PhNum(elf) == count <==> elf[56..58] == BeBytes(count, 2)
  {
    hide BeBytes, U16At, U64At;
    U64Is(elf, 24, entry);
    U64Is(elf, 32, phoff);
    U16Is(elf, 54, entrySize);
    U16Is(elf, 56, count);
  }

  /** Entry i of the table is the header spelled by the bytes at i times the entry size past the
      table's offset. */
  lemma TableIsBytes(elf: seq<byte>, phoff: u64, entrySize: nat, i: nat, o: nat, ph: Phdr)
    requires TableInside(elf) && entrySize < 0x1_0000 && i < |Table(elf)|
    requires elf[32..40] == BeBytes(phoff, 8) && elf[54..56] == BeBytes(entrySize, 2)
    requires o == phoff + i * entrySize
    ensures Table(elf)[i] == ph <==> HeaderBytes(elf, o, ph)
  {
    hide BeBytes, U16At, U64At, PhdrAt, HeaderBytes;
    FileHeaderIsBytes(elf, 0, phoff, entrySize, 0);
    assert PhPos(elf, i) == o;
    PhdrIsBytes(elf, o, ph);
  }
}
