/** `build_elf` of scripts/decrypt_self.py: a plain ELF laid out from the program headers of
    a parsed SELF and the decrypted data of some of its segments. */
module ElfBuild {
  import opened Align
  import opened Bytes
  import opened ElfFile

  /** The parts of a parsed SELF that the rebuild reads: the 64 bytes of the inner ELF header
      and its program headers. */
  datatype Self = Self(header: seq<byte>, phdrs: seq<Phdr>) {
    predicate Valid() {
      |header| == EHDR_SIZE && |phdrs| < 0x1_0000
    }
  }

  type Segments = map<nat, seq<byte>>

  /** FieldOverflow: an offset does not fit its 64-bit field.  ShortSegment: the final check
      of the first loadable segment unpacks a word the segment does not have. */
  datatype BuildResult = Built(elf: seq<byte>) | FieldOverflow | ShortSegment

  predicate Inputs(self: Self, segs: Segments) {
    self.Valid() && forall i :: i in segs ==> i < |self.phdrs|
  }

  /** Headers whose data is laid out. */
  predicate Placed(self: Self, segs: Segments, i: nat)
    requires i < |self.phdrs|
  {
    i in segs && self.phdrs[i].filesz > 0
  }

  function TableEnd(self: Self): nat {
    EHDR_SIZE + |self.phdrs| * PHDR_SIZE
  }

  function DataStart(self: Self): (r: nat)
    ensures r >= TableEnd(self)
  {
    AlignUp(TableEnd(self), 0x1_0000)
  }

  datatype Layout = Layout(offsets: seq<nat>, next: nat)

  /** The offsets of the first n headers' data, 0 where there is none, and the next free one. */
  function LayoutOf(self: Self, segs: Segments, n: nat): (r: Layout)
    requires n <= |self.phdrs|
    ensures |r.offsets| == n && r.next >= DataStart(self)
  {
    if n == 0 then Layout([], DataStart(self))
    else
      var before := LayoutOf(self, segs, n - 1);
      if Placed(self, segs, n - 1) then
        var off := AlignUp(before.next, Max(self.phdrs[n - 1].align, 16));
        Layout(before.offsets + [off], off + |segs[n - 1]|)
      else Layout(before.offsets + [0], before.next)
  }

  function Offsets(self: Self, segs: Segments): (r: seq<nat>)
    ensures |r| == |self.phdrs|
  {
    LayoutOf(self, segs, |self.phdrs|).offsets
  }

  function TotalSize(self: Self, segs: Segments): nat {
    LayoutOf(self, segs, |self.phdrs|).next
  }

  /** The header as written: program headers right after it, no section headers. */
  function NewHeader(header: seq<byte>): (r: seq<byte>)
    requires |header| == EHDR_SIZE
    ensures |r| == EHDR_SIZE
  {
    var tables := Splice(Splice(header, 32, BeBytes(0x40, 8)), 40, BeBytes(0, 8));
    Splice(Splice(tables, 60, BeBytes(0, 2)), 62, BeBytes(0, 2))
  }

  predicate OffsetsFit(self: Self, segs: Segments) {
    forall i :: 0 <= i < |self.phdrs| ==> Offsets(self, segs)[i] < 0x1_0000_0000_0000_0000
  }

  /** The header as written into the output's table. */
  function NewPhdr(self: Self, segs: Segments, i: nat): Phdr
    requires i < |self.phdrs| && OffsetsFit(self, segs)
  {
    self.phdrs[i].(offset := Offsets(self, segs)[i])
  }

  /** The first header the final check looks at. */
  function FirstLoadable(self: Self, segs: Segments, i: nat): (r: nat)
    requires i <= |self.phdrs|
    ensures i <= r <= |self.phdrs|
    ensures r < |self.phdrs| ==> r in segs
    decreases |self.phdrs| - i
  {
    if i < |self.phdrs| && !(self.phdrs[i].kind == PT_LOAD && Placed(self, segs, i)) then
      FirstLoadable(self, segs, i + 1)
    else i
  }

  predicate FirstSegmentReadable(self: Self, segs: Segments) {
    var f := FirstLoadable(self, segs, 0);
    f < |self.phdrs| ==> |segs[f]| >= 4
  }

  // ---- What the output file is ------------------------------------------------

  /** p lies in the data of some placed segment among the first n. */
  predicate InSegment(self: Self, segs: Segments, n: nat, p: nat)
    requires n <= |self.phdrs|
  {
    exists i: nat ::
      i < n && Placed(self, segs, i) && Offsets(self, segs)[i] <= p < Offsets(self, segs)[i] + |segs[i]|
  }

  /** The whole content of the output: header, table, each segment's data at its offset, and
      zeros everywhere else. */
  predicate IsImage(self: Self, segs: Segments, elf: seq<byte>)
    requires Inputs(self, segs) && OffsetsFit(self, segs)
  {
    && |elf| == TotalSize(self, segs)
    && elf[..EHDR_SIZE] == NewHeader(self.header)
    && (forall i: nat :: i < |self.phdrs| ==> SliceIs(elf, PhdrPos(i), PhdrBytes(NewPhdr(self, segs, i))))
    && (forall i: nat :: i < |self.phdrs| && Placed(self, segs, i) ==>
          SliceIs(elf, Offsets(self, segs)[i], segs[i]))
    && (forall p: nat :: TableEnd(self) <= p < |elf| && !InSegment(self, segs, |self.phdrs|, p) ==> elf[p] == 0)
  }

  function PhdrPos(i: nat): nat {
    EHDR_SIZE + i * PHDR_SIZE
  }

  // ---- Layout facts ----------------------------------------------------------

  lemma {:induction false} LayoutPrefix(self: Self, segs: Segments, i: nat, n: nat)
    requires i < n <= |self.phdrs|
    ensures LayoutOf(self, segs, n).offsets[i] == LayoutOf(self, segs, i + 1).offsets[i]
    ensures LayoutOf(self, segs, n).next >= LayoutOf(self, segs, i + 1).next
  {
    if i + 1 < n {
      LayoutPrefix(self, segs, i, n - 1);
    }
  }

  /** Data lies past the header table, inside the file, each segment entirely before the
      next, whatever the alignments are. */
  lemma SegmentsOrdered(self: Self, segs: Segments, i: nat, j: nat)
    requires i <= j < |self.phdrs| && Placed(self, segs, i) && Placed(self, segs, j)
    ensures var o := Offsets(self, segs);
            && TableEnd(self) <= DataStart(self) <= o[i]
            && o[j] + |segs[j]| <= TotalSize(self, segs)
            && (i < j ==> o[i] + |segs[i]| <= o[j])
  {
    var n := |self.phdrs|;
    LayoutPrefix(self, segs, i, n);
    LayoutPrefix(self, segs, j, n);
    if i < j {
      LayoutPrefix(self, segs, i, j);
      assert LayoutOf(self, segs, j).next >= LayoutOf(self, segs, i + 1).next;
    }
  }

  /** A segment whose alignment is a power of two gets an offset that is a multiple of it, and
      of 16. */
  lemma SegmentAligned(self: Self, segs: Segments, i: nat, k: nat)
    requires i < |self.phdrs| && Placed(self, segs, i) && Max(self.phdrs[i].align, 16) == Pow2(k)
    ensures Multiple(Offsets(self, segs)[i], Max(self.phdrs[i].align, 16))
  {
    LayoutPrefix(self, segs, i, |self.phdrs|);
    AlignsToPowerOfTwo(LayoutOf(self, segs, i).next, Max(self.phdrs[i].align, 16), k);
  }

  /** The data written before header i ends at e: at the end of the last segment placed before
      it or, without one, at the first multiple of 64 KiB past the header table. */
  ghost predicate DataEndsAt(self: Self, segs: Segments, i: nat, e: nat)
    requires i <= |self.phdrs|
  {
    var table, o := 0x40 + 0x38 * |self.phdrs|, Offsets(self, segs);
    || ((forall j: nat :: j < i ==> !Placed(self, segs, j)) && table <= e < table + 0x1_0000 && e % 0x1_0000 == 0)
    || exists j: nat ::
         && j < i && Placed(self, segs, j) && e == o[j] + |segs[j]|
         && forall k: nat :: j < k < i ==> !Placed(self, segs, k)
  }

  lemma DataStartAligned(self: Self)
    ensures var table, e := 0x40 + 0x38 * |self.phdrs|, DataStart(self);
            table <= e < table + 0x1_0000 && e % 0x1_0000 == 0
  {
    var k := 16;
    assert Pow2(k) == 0x1_0000 by {
      assert Pow2(8) == 0x100;
    }
    AlignsToPowerOfTwo(TableEnd(self), 0x1_0000, k);
    MultipleMod(DataStart(self), 0x1_0000);
  }

  lemma {:induction false} NextIsDataEnd(self: Self, segs: Segments, i: nat)
    requires i <= |self.phdrs|
    ensures DataEndsAt(self, segs, i, LayoutOf(self, segs, i).next)
  {
    hide AlignUp;
    if i == 0 {
      DataStartAligned(self);
    } else {
      NextIsDataEnd(self, segs, i - 1);
      LayoutPrefix(self, segs, i - 1, |self.phdrs|);
      var e := LayoutOf(self, segs, i).next;
      if Placed(self, segs, i - 1) {
        assert e == Offsets(self, segs)[i - 1] + |segs[i - 1]|;
      } else {
        assert DataEndsAt(self, segs, i - 1, e);
        hide LayoutOf, Placed, Offsets;
      }
    }
  }

  /** No room is wasted: a segment starts where the data before it ends, rounded up to its
      alignment or to 16, which for powers of two is the least multiple that will do; a header
      without data has offset 0, and the file ends with its last segment. */
  lemma LayoutIsTight(self: Self, segs: Segments, i: nat) returns (e: nat)
    requires i < |self.phdrs|
    ensures DataEndsAt(self, segs, i, e)
    ensures var off, a := Offsets(self, segs)[i], Max(self.phdrs[i].align, 16);
            if i in segs && self.phdrs[i].filesz > 0 then
              && off == AlignUp(e, a)
              && forall k: nat, m: nat :: a == Pow2(k) && Multiple(m, a) && m >= e ==> off <= m
            else off == 0
    ensures DataEndsAt(self, segs, |self.phdrs|, TotalSize(self, segs))
  {
    e := LayoutOf(self, segs, i).next;
    NextIsDataEnd(self, segs, i);
    NextIsDataEnd(self, segs, |self.phdrs|);
    LayoutPrefix(self, segs, i, |self.phdrs|);
    var a := Max(self.phdrs[i].align, 16);
    forall k: nat, m: nat | a == Pow2(k) && Multiple(m, a) && m >= e ensures AlignUp(e, a) <= m {
      AlignUpIsLeast(e, a, k, m);
    }
  }

  // ---- Writing ---------------------------------------------------------------

  /** out after the first n program headers are written. */
  predicate TableWritten(self: Self, segs: Segments, out: seq<byte>, n: nat)
    requires Inputs(self, segs) && OffsetsFit(self, segs) && n <= |self.phdrs|
  {
    && |out| == TotalSize(self, segs)
    && out[..EHDR_SIZE] == NewHeader(self.header)
    && (forall i: nat :: i < n ==> SliceIs(out, PhdrPos(i), PhdrBytes(NewPhdr(self, segs, i))))
    && (forall p: nat :: PhdrPos(n) <= p < |out| ==> out[p] == 0)
  }

  /** out after the whole table and the data of the first n headers are written. */
  predicate DataWritten(self: Self, segs: Segments, out: seq<byte>, n: nat)
    requires Inputs(self, segs) && OffsetsFit(self, segs) && n <= |self.phdrs|
  {
    && |out| == TotalSize(self, segs)
    && out[..EHDR_SIZE] == NewHeader(self.header)
    && (forall i: nat :: i < |self.phdrs| ==> SliceIs(out, PhdrPos(i), PhdrBytes(NewPhdr(self, segs, i))))
    && (forall i: nat :: i < n && Placed(self, segs, i) ==> SliceIs(out, Offsets(self, segs)[i], segs[i]))
    && (forall p: nat :: TableEnd(self) <= p < |out| && !InSegment(self, segs, n, p) ==> out[p] == 0)
  }

  lemma WriteTableEntry(self: Self, segs: Segments, out: seq<byte>, n: nat)
    requires Inputs(self, segs) && OffsetsFit(self, segs) && n < |self.phdrs|
    requires TableWritten(self, segs, out, n)
    ensures PhdrPos(n) + PHDR_SIZE <= |out|
    ensures TableWritten(self, segs, Splice(out, PhdrPos(n), PhdrBytes(NewPhdr(self, segs, n))), n + 1)
  {
    hide PhdrBytes, NewPhdr, NewHeader, OffsetsFit;
    var data := PhdrBytes(NewPhdr(self, segs, n));
    var out' := Splice(out, PhdrPos(n), data);
    SpliceSlices(out, PhdrPos(n), data, 0, EHDR_SIZE);
    assert out'[0..EHDR_SIZE] == out'[..EHDR_SIZE] && out[0..EHDR_SIZE] == out[..EHDR_SIZE];
    forall i: nat | i < n + 1
      ensures SliceIs(out', PhdrPos(i), PhdrBytes(NewPhdr(self, segs, i)))
    {
      if i < n {
        SliceKept(out, PhdrPos(n), data, PhdrPos(i), PhdrBytes(NewPhdr(self, segs, i)));
      }
    }
  }

  lemma WriteSegment(self: Self, segs: Segments, out: seq<byte>, n: nat)
    requires Inputs(self, segs) && OffsetsFit(self, segs) && n < |self.phdrs| && Placed(self, segs, n)
    requires DataWritten(self, segs, out, n)
    ensures 0 < Offsets(self, segs)[n] && Offsets(self, segs)[n] + |segs[n]| <= |out|
    ensures DataWritten(self, segs, Splice(out, Offsets(self, segs)[n], segs[n]), n + 1)
  {
    hide PhdrBytes, NewPhdr, NewHeader, OffsetsFit, LayoutOf, Offsets, DataStart;
    SegmentsOrdered(self, segs, n, n);
    var at := Offsets(self, segs)[n];
    var out' := Splice(out, at, segs[n]);
    SpliceSlices(out, at, segs[n], 0, EHDR_SIZE);
    assert out'[0..EHDR_SIZE] == out'[..EHDR_SIZE] && out[0..EHDR_SIZE] == out[..EHDR_SIZE];
    forall i: nat | i < |self.phdrs|
      ensures SliceIs(out', PhdrPos(i), PhdrBytes(NewPhdr(self, segs, i)))
    {
      SliceKept(out, at, segs[n], PhdrPos(i), PhdrBytes(NewPhdr(self, segs, i)));
    }
    forall i: nat | i < n + 1 && Placed(self, segs, i)
      ensures SliceIs(out', Offsets(self, segs)[i], segs[i])
    {
      if i < n {
        SegmentsOrdered(self, segs, i, n);
        SliceKept(out, at, segs[n], Offsets(self, segs)[i], segs[i]);
      }
    }
    forall p: nat | TableEnd(self) <= p < |out'| && !InSegment(self, segs, n + 1, p)
      ensures out'[p] == 0
    {
      assert !(at <= p < at + |segs[n]|);
      assert !InSegment(self, segs, n, p);
    }
  }

  method LayOut(self: Self, segs: Segments) returns (offsets: seq<nat>, total: nat)
    requires Inputs(self, segs)
    ensures offsets == Offsets(self, segs) && total == TotalSize(self, segs)
  {
    var current: nat := AlignUp(EHDR_SIZE + |self.phdrs| * PHDR_SIZE, 0x1_0000);
    offsets := [];
    for i := 0 to |self.phdrs|
      invariant LayoutOf(self, segs, i) == Layout(offsets, current)
    {
      var ph := self.phdrs[i];
      if i in segs && ph.filesz > 0 {
        var align := Max(ph.align, 16);
        current := AlignUp(current, align);
        offsets := offsets + [current];
        current := current + |segs[i]|;
      } else {
        offsets := offsets + [0];
      }
    }
    total := current;
  }

  method WriteTable(self: Self, segs: Segments, offsets: seq<nat>, out: array<byte>)
    requires Inputs(self, segs) && OffsetsFit(self, segs) && offsets == Offsets(self, segs)
    requires TableWritten(self, segs, out[..], 0)
    modifies out
    ensures TableWritten(self, segs, out[..], |self.phdrs|)
  {
    hide PhdrBytes, TableWritten, LayoutOf, DataStart, NewHeader;
    for i := 0 to |self.phdrs|
      invariant TableWritten(self, segs, out[..], i)
    {
      WriteTableEntry(self, segs, out[..], i);
      WriteAt(out, EHDR_SIZE + i * PHDR_SIZE, PhdrBytes(self.phdrs[i].(offset := offsets[i])));
    }
  }

  method WriteData(self: Self, segs: Segments, offsets: seq<nat>, out: array<byte>)
    requires Inputs(self, segs) && OffsetsFit(self, segs) && offsets == Offsets(self, segs)
    requires DataWritten(self, segs, out[..], 0)
    modifies out
    ensures DataWritten(self, segs, out[..], |self.phdrs|)
  {
    for i := 0 to |self.phdrs|
      invariant DataWritten(self, segs, out[..], i)
    {
      if i in segs {
        UnplacedIsZero(self, segs, i);
        if offsets[i] > 0 {
          WriteSegment(self, segs, out[..], i);
          WriteAt(out, offsets[i], segs[i]);
        } else {
          SkipSegment(self, segs, out[..], i);
        }
      } else {
        SkipSegment(self, segs, out[..], i);
      }
    }
  }

  lemma UnplacedIsZero(self: Self, segs: Segments, i: nat)
    requires i < |self.phdrs|
    ensures Offsets(self, segs)[i] > 0 <==> i in segs && self.phdrs[i].filesz > 0
  {
    LayoutPrefix(self, segs, i, |self.phdrs|);
  }

  lemma SkipSegment(self: Self, segs: Segments, out: seq<byte>, n: nat)
    requires Inputs(self, segs) && OffsetsFit(self, segs) && n < |self.phdrs| && !Placed(self, segs, n)
    requires DataWritten(self, segs, out, n)
    ensures DataWritten(self, segs, out, n + 1)
  {
    hide PhdrBytes, NewPhdr, NewHeader, OffsetsFit, LayoutOf, Offsets, DataStart;
    forall p: nat | InSegment(self, segs, n, p) ensures InSegment(self, segs, n + 1, p) {
      var i: nat :| i < n && Placed(self, segs, i) && Offsets(self, segs)[i] <= p < Offsets(self, segs)[i] + |segs[i]|;
    }
  }

  method CheckFirst(self: Self, segs: Segments) returns (readable: bool)
    requires Inputs(self, segs)
    ensures readable == FirstSegmentReadable(self, segs)
  {
    var i := 0;
    while i < |self.phdrs|
      invariant i <= |self.phdrs|
      invariant FirstLoadable(self, segs, 0) == FirstLoadable(self, segs, i)
    {
      var ph := self.phdrs[i];
      if ph.kind == PT_LOAD && ph.filesz > 0 && i in segs {
        return |segs[i]| >= 4;
      }
      i := i + 1;
    }
    return true;
  }

  /** Header f is the first of type 1 with data, and its data is shorter than a word. */
  predicate ShortFirst(self: Self, segs: Segments, f: nat) {
    && f < |self.phdrs| && self.phdrs[f].kind == 1 && self.phdrs[f].filesz > 0
    && f in segs && |segs[f]| < 4
    && forall j: nat :: j < f && j in segs ==> self.phdrs[j].kind != 1 || self.phdrs[j].filesz == 0
  }

  lemma {:induction false} FirstLoadableIs(self: Self, segs: Segments, i: nat)
    requires i <= |self.phdrs|
    ensures var f := FirstLoadable(self, segs, i);
            && (f < |self.phdrs| ==> f in segs && self.phdrs[f].kind == 1 && self.phdrs[f].filesz > 0)
            && forall j: nat :: i <= j < f && j in segs ==> self.phdrs[j].kind != 1 || self.phdrs[j].filesz == 0
    decreases |self.phdrs| - i
  {
    if i < |self.phdrs| && !(self.phdrs[i].kind == PT_LOAD && Placed(self, segs, i)) {
      FirstLoadableIs(self, segs, i + 1);
    }
  }

  lemma FirstIsFirst(self: Self, segs: Segments)
    requires Inputs(self, segs)
    ensures !FirstSegmentReadable(self, segs) <==> exists f: nat :: ShortFirst(self, segs, f)
  {
    FirstLoadableIs(self, segs, 0);
    if !FirstSegmentReadable(self, segs) {
      assert ShortFirst(self, segs, FirstLoadable(self, segs, 0));
    }
  }

  method BuildElf(self: Self, segs: Segments) returns (r: BuildResult)
    requires Inputs(self, segs)
    ensures r.FieldOverflow? <==> !OffsetsFit(self, segs)
    ensures r.FieldOverflow? <==>
              exists i :: 0 <= i < |self.phdrs| && Offsets(self, segs)[i] >= 0x1_0000_0000_0000_0000
    ensures r.ShortSegment? <==> OffsetsFit(self, segs) && !FirstSegmentReadable(self, segs)
    ensures r.ShortSegment? <==> OffsetsFit(self, segs) && exists f: nat :: ShortFirst(self, segs, f)
    ensures r.Built? ==> IsImage(self, segs, r.elf)
  {
    var offsets, total := LayOut(self, segs);
    if i :| 0 <= i < |offsets| && offsets[i] >= 0x1_0000_0000_0000_0000 {
      return FieldOverflow;
    }
    var out := new byte[total](_ => 0);
    WriteAt(out, 0, NewHeader(self.header));
    assert TableWritten(self, segs, out[..], 0);
    WriteTable(self, segs, offsets, out);
    WriteData(self, segs, offsets, out);
    var readable := CheckFirst(self, segs);
    FirstIsFirst(self, segs);
    return if readable then Built(out[..]) else ShortSegment;
  }

  // ---- Reading the output back -----------------------------------------------

  /** The n headers at stride 0x38 from phdrOff on. */
  function PhdrsAt(d: seq<byte>, phdrOff: nat, n: nat): (t: seq<Phdr>)
    requires n == 0 || phdrOff + n * PHDR_SIZE <= |d|
  {
    seq(n, i requires 0 <= i < n => PhdrAt(d, phdrOff + i * PHDR_SIZE))
  }

  /** The program-header loop of `SELFFile._parse`; ok is false where a short read raises
      struct.error. */
  method ParsePhdrs(d: seq<byte>, phdrOff: nat, n: nat) returns (phdrs: seq<Phdr>, ok: bool)
    ensures ok <==> n == 0 || phdrOff + n * PHDR_SIZE <= |d|
    ensures ok ==> phdrs == PhdrsAt(d, phdrOff, n)
  {
    phdrs := [];
    for i := 0 to n
      invariant |phdrs| == i && (i > 0 ==> phdrOff + i * PHDR_SIZE <= |d|)
      invariant forall j: nat :: j < i ==> phdrs[j] == PhdrAt(d, phdrOff + j * PHDR_SIZE)
    {
      var o := phdrOff + i * PHDR_SIZE;
      if o + PHDR_SIZE > |d| {
        return [], false;
      }
      phdrs := phdrs + [PhdrAt(d, o)];
    }
    ok := true;
  }

  /** Parsing the output's table returns every original field except the offset. */
  lemma ReparsedPhdr(self: Self, segs: Segments, elf: seq<byte>, i: nat)
    requires Inputs(self, segs) && OffsetsFit(self, segs) && IsImage(self, segs, elf) && i < |self.phdrs|
    ensures PhdrPos(i) + PHDR_SIZE <= |elf| && PhdrAt(elf, PhdrPos(i)) == NewPhdr(self, segs, i)
  {
    assert SliceIs(elf, PhdrPos(i), PhdrBytes(NewPhdr(self, segs, i)));
    PhdrRoundTrip(elf, PhdrPos(i), NewPhdr(self, segs, i));
  }

  /** The output on its bytes: every program header at its place, every segment at its offset, and
      zeros in between. */
  lemma ImageOnBytes(self: Self, segs: Segments, elf: seq<byte>)
    requires Inputs(self, segs) && OffsetsFit(self, segs) && IsImage(self, segs, elf)
    ensures forall i: nat :: i < |self.phdrs| ==>
              HeaderBytes(elf, 0x40 + 0x38 * i, self.phdrs[i].(offset := Offsets(self, segs)[i]))
    ensures forall i: nat :: i < |self.phdrs| && i in segs && self.phdrs[i].filesz > 0 ==>
              SliceIs(elf, Offsets(self, segs)[i], segs[i])
    ensures forall p: nat ::
              0x40 + 0x38 * |self.phdrs| <= p < |elf|
              && (forall i: nat :: i < |self.phdrs| && i in segs && self.phdrs[i].filesz > 0 ==>
                    p < Offsets(self, segs)[i] || Offsets(self, segs)[i] + |segs[i]| <= p)
              ==> elf[p] == 0
  {
    hide PhdrAt, PhdrBytes, NewHeader, Offsets, HeaderBytes, SliceIs;
    forall i: nat | i < |self.phdrs|
      ensures HeaderBytes(elf, 0x40 + 0x38 * i, self.phdrs[i].(offset := Offsets(self, segs)[i]))
    {
      ReparsedPhdr(self, segs, elf, i);
      PhdrIsBytes(elf, PhdrPos(i), NewPhdr(self, segs, i));
    }
  }

  /** So the parse loop, given the output, succeeds and returns the rebuilt headers. */
  lemma ReparsedTable(self: Self, segs: Segments, elf: seq<byte>)
    requires Inputs(self, segs) && OffsetsFit(self, segs) && IsImage(self, segs, elf)
    ensures var n := |self.phdrs|;
            && EHDR_SIZE + n * PHDR_SIZE <= |elf|
            && PhdrsAt(elf, EHDR_SIZE, n) == seq(n, i requires 0 <= i < n => NewPhdr(self, segs, i))
  {
    hide IsImage, NewPhdr, OffsetsFit;
    forall i: nat | i < |self.phdrs|
      ensures PhdrPos(i) + PHDR_SIZE <= |elf| && PhdrAt(elf, PhdrPos(i)) == NewPhdr(self, segs, i)
    {
      ReparsedPhdr(self, segs, elf, i);
    }
    assert EHDR_SIZE + |self.phdrs| * PHDR_SIZE <= |elf| by {
      ImageHeader(self, segs, elf);
      if self.phdrs != [] {
        ReparsedPhdr(self, segs, elf, |self.phdrs| - 1);
      }
    }
  }

  /** The rewritten header announces the table where it was written, keeps entry point, entry
      size and count, and announces no sections. */
  lemma NewHeaderFields(header: seq<byte>)
    requires |header| == EHDR_SIZE
    ensures var h := NewHeader(header);
            && PhOff(h) == EHDR_SIZE && Entry(h) == Entry(header)
            && PhNum(h) == PhNum(header) && PhEntSize(h) == PhEntSize(header)
            && (HasMagic(h) <==> HasMagic(header))
            && U64At(h, 40) == 0 && U16At(h, 60) == 0 && U16At(h, 62) == 0
    ensures var h := NewHeader(header);
            && h[32..40] == BeBytes(0x40, 8) && h[40..48] == BeBytes(0, 8) && h[60..62] == h[62..64] == BeBytes(0, 2)
            && forall k: nat :: k < 32 || 48 <= k < 60 ==> h[k] == header[k]
  {
    hide BeBytes, BeNum;
    var h := NewHeader(header);
    assert h[32..40] == BeBytes(0x40, 8) && h[40..48] == BeBytes(0, 8);
    U64AtBytes(h, 32, 0x40);
    U64AtBytes(h, 40, 0);
    assert h[24..32] == header[24..32] && h[56..58] == header[56..58] && h[54..56] == header[54..56];
    assert h[..4] == header[..4];
    assert h[60..62] == BeBytes(0, 2) && h[62..64] == BeBytes(0, 2);
    Widths();
    BeNumOfBytes(0, 2);
  }

  /** The same fields read from the whole file. */
  lemma ImageHeader(self: Self, segs: Segments, elf: seq<byte>)
    requires Inputs(self, segs) && OffsetsFit(self, segs) && IsImage(self, segs, elf)
    ensures HasHeader(elf)
    ensures PhOff(elf) == EHDR_SIZE && Entry(elf) == Entry(self.header)
    ensures PhNum(elf) == PhNum(self.header) && PhEntSize(elf) == PhEntSize(self.header)
    ensures HasMagic(elf) <==> HasMagic(self.header)
  {
    hide NewHeader, BeNum, BeBytes, LayoutOf, PhdrBytes, NewPhdr, OffsetsFit;
    var h := NewHeader(self.header);
    NewHeaderFields(self.header);
    assert elf[0..0 + |h|] == elf[..EHDR_SIZE] == h;
    SubSlice(elf, 0, h, 24, 32);
    SubSlice(elf, 0, h, 32, 40);
    SubSlice(elf, 0, h, 54, 56);
    SubSlice(elf, 0, h, 56, 58);
    SubSlice(elf, 0, h, 0, 4);
    assert elf[0..4] == elf[..4] && h[0..4] == h[..4];
  }

  // ---- Every layout has its file --------------------------------------------------

  lemma {:induction false} TableImage(self: Self, segs: Segments, n: nat) returns (out: seq<byte>)
    requires Inputs(self, segs) && OffsetsFit(self, segs) && n <= |self.phdrs|
    ensures TableWritten(self, segs, out, n)
  {
    if n == 0 {
      var zeros: seq<byte> := seq(TotalSize(self, segs), _ => 0);
      out := Splice(zeros, 0, NewHeader(self.header));
      SliceWritten(zeros, 0, NewHeader(self.header));
      assert out[0..EHDR_SIZE] == out[..EHDR_SIZE];
    } else {
      out := TableImage(self, segs, n - 1);
      WriteTableEntry(self, segs, out, n - 1);
      out := Splice(out, PhdrPos(n - 1), PhdrBytes(NewPhdr(self, segs, n - 1)));
    }
  }

  lemma {:induction false} DataImage(self: Self, segs: Segments, n: nat) returns (out: seq<byte>)
    requires Inputs(self, segs) && OffsetsFit(self, segs) && n <= |self.phdrs|
    ensures DataWritten(self, segs, out, n)
  {
    if n == 0 {
      out := TableImage(self, segs, |self.phdrs|);
    } else {
      out := DataImage(self, segs, n - 1);
      if Placed(self, segs, n - 1) {
        WriteSegment(self, segs, out, n - 1);
        out := Splice(out, Offsets(self, segs)[n - 1], segs[n - 1]);
      } else {
        SkipSegment(self, segs, out, n - 1);
      }
    }
  }

  /** Whenever the offsets fit their fields there is a file that meets the description. */
  lemma ImageExists(self: Self, segs: Segments) returns (elf: seq<byte>)
    requires Inputs(self, segs) && OffsetsFit(self, segs)
    ensures IsImage(self, segs, elf)
  {
    elf := DataImage(self, segs, |self.phdrs|);
  }
}
