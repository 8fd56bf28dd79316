/** `read_table` of scripts/jumptables.py: how many entries a switch table has, found from the
    entries alone. */
module JumpTable {
  import opened Bytes
  import opened ImageRead

  const TEXT_LO: nat := 0x0001_0000

  const TEXT_HI: nat := 0x00BE_0AF4

  const MAX_ENTRIES: nat := 512

  /** The ELF file and the segment list read from it. */
  datatype Image = Image(elf: seq<byte>, segs: seq<Seg>)

  /** ShortRead is the struct.error of unpacking a word cut off by the end of the file. */
  datatype Word = Value(w: nat) | ShortRead

  datatype Entry = Target(addr: u32) | Stop | Fault

  datatype ScanResult = Found(targets: seq<u32>) | Failed

  predicate IsMapped(img: Image, va: int) {
    exists i :: 0 <= i < |img.segs| && Holds(img.segs[i], va)
  }

  /** The big-endian word at a mapped address. */
  function WordAt(img: Image, va: int): Word
    requires IsMapped(img, va)
  {
    var r := Read(img.elf, img.segs, va, 4);
    if |r.bytes| == 4 then Value(BeNum(r.bytes)) else ShortRead
  }

  /** `plausible`: Stop when the address is no code, Fault when its word cannot be read. */
  function Plausible(img: Image, va: u32): Entry {
    if !(TEXT_LO <= va < TEXT_HI) || va % 4 != 0 || !IsMapped(img, va) then Stop
    else
      match WordAt(img, va)
      case ShortRead => Fault
      case Value(w) => if w == 0 || w == 0xFFFF_FFFF then Stop else Target(va)
  }

  function Signed(w: nat): int {
    if w < 0x8000_0000 then w else w - 0x1_0000_0000
  }

  /** Entry k of a table at tbase, were the scan to look at it. */
  function EntryAt(img: Image, tbase: nat, k: nat): Entry {
    var ea := tbase + k * 4;
    if !IsMapped(img, ea) then Stop
    else
      match WordAt(img, ea)
      case ShortRead => Fault
      case Value(w) => Plausible(img, (tbase + Signed(w)) % 0x1_0000_0000)
  }

  /** No earlier entry points forward to entry k's own address or below it. */
  predicate Clear(tbase: nat, targets: seq<u32>, k: nat) {
    forall j :: 0 <= j < |targets| && targets[j] > tbase ==> tbase + k * 4 < targets[j]
  }

  /** The entries read so far: each is a target, and none lies at or past an earlier forward
      target. */
  predicate Scanned(img: Image, tbase: nat, targets: seq<u32>) {
    && |targets| <= MAX_ENTRIES
    && forall k: nat :: k < |targets| ==>
         EntryAt(img, tbase, k) == Target(targets[k]) && Clear(tbase, targets[..k], k)
  }

  /** The next entry is not part of the table. */
  predicate Ends(img: Image, tbase: nat, targets: seq<u32>) {
    || |targets| == MAX_ENTRIES
    || !Clear(tbase, targets, |targets|)
    || EntryAt(img, tbase, |targets|) == Stop
  }

  predicate Breaks(img: Image, tbase: nat, targets: seq<u32>) {
    |targets| < MAX_ENTRIES && Clear(tbase, targets, |targets|) && EntryAt(img, tbase, |targets|) == Fault
  }

  /** The nearest forward target so far bounds the table. */
  predicate IsLimit(tbase: nat, targets: seq<u32>, limit: nat, some: bool) {
    && (some ==> limit in targets && limit > tbase)
    && forall j :: 0 <= j < |targets| && targets[j] > tbase ==> some && limit <= targets[j]
  }

  /** The body of the scan up to the plausibility test. */
  method ReadEntry(img: Image, tbase: nat, k: nat) returns (e: Entry)
    ensures e == EntryAt(img, tbase, k)
  {
    hide IsMapped, WordAt, Plausible;
    var ea := tbase + k * 4;
    if !IsMapped(img, ea) {
      return Stop;
    }
    var w := WordAt(img, ea);
    if w.ShortRead? {
      return Fault;
    }
    e := Plausible(img, (tbase + Signed(w.w)) % 0x1_0000_0000);
  }

  method ReadTable(img: Image, tbase: nat) returns (r: ScanResult)
    ensures match r
            case Found(targets) => |targets| <= 512 && Scanned(img, tbase, targets) && Ends(img, tbase, targets)
            case Failed => exists seen :: Scanned(img, tbase, seen) && Breaks(img, tbase, seen)
  {
    hide EntryAt;
    var targets: seq<u32> := [];
    var limit: nat, some := 0, false;
    for k := 0 to MAX_ENTRIES
      invariant |targets| == k && Scanned(img, tbase, targets)
      invariant IsLimit(tbase, targets, limit, some)
    {
      if some && tbase + k * 4 >= limit {
        return Found(targets);
      }
      assert Clear(tbase, targets, k);
      var e := ReadEntry(img, tbase, k);
      match e {
        case Stop => return Found(targets);
        case Fault =>
          assert Breaks(img, tbase, targets);
          return Failed;
        case Target(tgt) =>
          ScannedOneMore(img, tbase, targets, tgt);
          targets := targets + [tgt];
          if tgt > tbase && (!some || tgt < limit) {
            limit, some := tgt, true;
          }
      }
    }
    return Found(targets);
  }

  lemma ScannedOneMore(img: Image, tbase: nat, targets: seq<u32>, tgt: u32)
    requires Scanned(img, tbase, targets) && |targets| < MAX_ENTRIES && Clear(tbase, targets, |targets|)
    requires EntryAt(img, tbase, |targets|) == Target(tgt)
    ensures Scanned(img, tbase, targets + [tgt])
  {
    var more := targets + [tgt];
    forall k: nat | k < |more|
      ensures EntryAt(img, tbase, k) == Target(more[k]) && Clear(tbase, more[..k], k)
    {
      if k < |targets| {
        assert more[..k] == targets[..k];
      } else {
        assert more[..k] == targets;
      }
    }
  }

  /** Two scans of the same memory agree as far as the shorter one goes. */
  lemma ScansAgree(img: Image, tbase: nat, a: seq<u32>, b: seq<u32>)
    requires Scanned(img, tbase, a) && Scanned(img, tbase, b) && |a| <= |b|
    ensures a == b[..|a|]
    ensures |a| < |b| ==> EntryAt(img, tbase, |a|).Target? && Clear(tbase, a, |a|)
  {
    forall k: nat | k < |a| ensures a[k] == b[k] {
      assert EntryAt(img, tbase, k) == Target(a[k]);
      assert EntryAt(img, tbase, k) == Target(b[k]);
    }
  }

  /** A scan that can stop cannot also go on: the scan has one result, the longest one. */
  lemma ScanIsLongest(img: Image, tbase: nat, a: seq<u32>, b: seq<u32>)
    requires Scanned(img, tbase, a) && Scanned(img, tbase, b)
    requires Ends(img, tbase, a) || Breaks(img, tbase, a)
    ensures |b| <= |a| && b == a[..|b|]
  {
    if |a| < |b| {
      ScansAgree(img, tbase, a, b);
      assert false;
    }
    ScansAgree(img, tbase, b, a);
  }

  // ---- Entries on the bytes of the file -------------------------------------------

  /** The four bytes of entry k are the target's offset from the table base, modulo 2^32. */
  predicate Spells(img: Image, tbase: nat, k: nat, t: u32) {
    Read(img.elf, img.segs, tbase + k * 4, 4) == Mapped(BeBytes((t - tbase) % 0x1_0000_0000, 4))
  }

  predicate InText(t: u32) {
    0x1_0000 <= t < 0xBE_0AF4 && t % 4 == 0
  }

  predicate Padding(w: seq<byte>) {
    w == [0, 0, 0, 0] || w == [0xff, 0xff, 0xff, 0xff]
  }

  /** A word that is not padding lies at t. */
  predicate IsCode(img: Image, t: u32) {
    && InText(t)
    && var r := Read(img.elf, img.segs, t, 4);
       r.Mapped? && |r.bytes| == 4 && !Padding(r.bytes)
  }

  /** No code at t: outside the text, unaligned, unmapped or padding. */
  predicate IsNoCode(img: Image, t: u32) {
    var r := Read(img.elf, img.segs, t, 4);
    !InText(t) || r.NotMapped? || Padding(r.bytes)
  }

  /** The file ends inside the word at va. */
  predicate CutOff(img: Image, va: int) {
    var r := Read(img.elf, img.segs, va, 4);
    r.Mapped? && |r.bytes| < 4
  }

  lemma MappedIffRead(img: Image, va: int)
    ensures IsMapped(img, va) <==> Read(img.elf, img.segs, va, 4).Mapped?
    ensures IsMapped(img, va) ==> |Read(img.elf, img.segs, va, 4).bytes| <= 4
  {
  }

  lemma PaddingWords(w: seq<byte>)
    requires |w| == 4
    ensures BeNum(w) == 0 || BeNum(w) == 0xFFFF_FFFF <==> Padding(w)
  {
    BeBytesOfNum(w);
    BeNumOfFour(w);
  }

  lemma BeNumOfFour(w: seq<byte>)
    requires |w| == 4
    ensures var a: int, b: int, c: int := w[0], w[1], w[2];
            BeNum(w) == 0x100_0000 * a + 0x1_0000 * b + 0x100 * c + w[3]
  {
    var a, b, c := w[..3], w[..2], w[..1];
    assert a[..2] == b && b[..1] == c && c[..0] == [];
    assert BeNum(c) == w[0];
    assert BeNum(b) == 256 * BeNum(c) + w[1];
    assert BeNum(a) == 256 * BeNum(b) + w[2];
  }

  lemma PlausibleOnBytes(img: Image, t: u32)
    ensures Plausible(img, t) == Target(t) <==> IsCode(img, t)
    ensures Plausible(img, t) == Stop <==> IsNoCode(img, t)
    ensures Plausible(img, t) == Fault <==> InText(t) && CutOff(img, t)
    ensures Plausible(img, t).Target? ==> Plausible(img, t).addr == t
  {
    hide Read;
    MappedIffRead(img, t);
    if IsMapped(img, t) {
      var w := Read(img.elf, img.segs, t, 4).bytes;
      if |w| == 4 {
        PaddingWords(w);
      }
    }
  }

  /** The one address an entry's four bytes name. */
  lemma SpellsOne(img: Image, tbase: nat, k: nat, t: u32)
    requires IsMapped(img, tbase + k * 4) && WordAt(img, tbase + k * 4).Value?
    ensures Spells(img, tbase, k, t) <==> t == (tbase + Signed(WordAt(img, tbase + k * 4).w)) % 0x1_0000_0000
  {
    hide Signed, Read, WordAt, IsMapped, BeNum, BeBytes;
    WordIsRead(img, tbase + k * 4);
    SameWord(Read(img.elf, img.segs, tbase + k * 4, 4).bytes, (t - tbase) % 0x1_0000_0000);
    OffsetModulo(tbase, WordAt(img, tbase + k * 4).w, t);
  }

  lemma WordIsRead(img: Image, va: int)
    requires IsMapped(img, va) && WordAt(img, va).Value?
    ensures var r := Read(img.elf, img.segs, va, 4); r.Mapped? && |r.bytes| == 4 && WordAt(img, va).w == BeNum(r.bytes)
  {
    MappedIffRead(img, va);
  }

  lemma SpellsFour(img: Image, tbase: nat, k: nat, t: u32)
    ensures Spells(img, tbase, k, t) ==> IsMapped(img, tbase + k * 4) && WordAt(img, tbase + k * 4).Value?
  {
    MappedIffRead(img, tbase + k * 4);
  }

  lemma SameWord(r: seq<byte>, x: u32)
    requires |r| == 4
    ensures r == BeBytes(x, 4) <==> BeNum(r) == x
    ensures BeNum(r) < 0x1_0000_0000
  {
    hide BeNum, BeBytes;
    BeNumBound(r);
    Widths();
    BeBytesOfNum(r);
    BeNumOfBytes(x, 4);
  }

  lemma OffsetModulo(tbase: nat, w: nat, t: u32)
    requires w < 0x1_0000_0000
    ensures w == (t - tbase) % 0x1_0000_0000 <==> t == (tbase + Signed(w)) % 0x1_0000_0000
  {
  }

  /** Entry k is the target t exactly when its bytes spell t and t is code; the scan stops there
      exactly when the entry is unmapped or spells no code, and fails exactly when the file ends
      inside the entry or inside the word it spells. */
  lemma EntryOnBytes(img: Image, tbase: nat, k: nat, t: u32)
    ensures EntryAt(img, tbase, k) == Target(t) <==> Spells(img, tbase, k, t) && IsCode(img, t)
    ensures EntryAt(img, tbase, k) == Stop <==>
              Read(img.elf, img.segs, tbase + k * 4, 4) == NotMapped
              || exists u: u32 :: Spells(img, tbase, k, u) && IsNoCode(img, u)
    ensures EntryAt(img, tbase, k) == Fault <==>
              CutOff(img, tbase + k * 4)
              || exists u: u32 :: Spells(img, tbase, k, u) && InText(u) && CutOff(img, u)
  {
    var ea := tbase + k * 4;
    MappedIffRead(img, ea);
    hide Plausible, IsCode, IsNoCode, InText, Spells, Signed;
    if IsMapped(img, ea) && WordAt(img, ea).Value? {
      var named: u32 := (tbase + Signed(WordAt(img, ea).w)) % 0x1_0000_0000;
      forall u: u32 ensures Spells(img, tbase, k, u) <==> u == named {
        SpellsOne(img, tbase, k, u);
      }
      PlausibleOnBytes(img, named);
    } else {
      forall u: u32 ensures !Spells(img, tbase, k, u) {
        SpellsFour(img, tbase, k, u);
      }
    }
  }

  /** A table as the compiler lays it out: every entry spells code, no forward target is inside
      the table, and the first case's code is directly after it. */
  predicate RealTable(img: Image, tbase: nat, table: seq<u32>) {
    var end := tbase + |table| * 4;
    && 1 <= |table| <= 512
    && (forall k: nat :: k < |table| ==> Spells(img, tbase, k, table[k]) && IsCode(img, table[k]))
    && (forall k: nat :: k < |table| && table[k] > tbase ==> table[k] >= end)
    && end in table
  }

  lemma RealTableScanned(img: Image, tbase: nat, table: seq<u32>)
    requires RealTable(img, tbase, table)
    ensures Scanned(img, tbase, table) && !Clear(tbase, table, |table|)
  {
    hide EntryAt, Spells, IsCode;
    forall k: nat | k < |table| ensures EntryAt(img, tbase, k) == Target(table[k]) {
      EntryOnBytes(img, tbase, k, table[k]);
    }
    var j :| 0 <= j < |table| && table[j] == tbase + |table| * 4;
  }

  /** The scan of a real table returns exactly the table: any outcome that meets the scan's
      contract is this one. */
  lemma RealTableRecovered(img: Image, tbase: nat, table: seq<u32>, seen: seq<u32>)
    requires RealTable(img, tbase, table) && Scanned(img, tbase, seen)
    requires Ends(img, tbase, seen) || Breaks(img, tbase, seen)
    ensures seen == table && Ends(img, tbase, seen) && !Breaks(img, tbase, seen)
  {
    RealTableScanned(img, tbase, table);
    hide EntryAt, RealTable, Scanned, Clear;
    ScanIsLongest(img, tbase, seen, table);
    ScanIsLongest(img, tbase, table, seen);
  }

  method RecoverTable(img: Image, tbase: nat, ghost table: seq<u32>) returns (targets: seq<u32>)
    requires RealTable(img, tbase, table)
    ensures targets == table
  {
    var r := ReadTable(img, tbase);
    if r.Failed? {
      var seen :| Scanned(img, tbase, seen) && Breaks(img, tbase, seen);
      RealTableRecovered(img, tbase, table, seen);
      assert false;
    }
    RealTableRecovered(img, tbase, table, r.targets);
    targets := r.targets;
  }
}
