/** `check` of scripts/audit_cmp.py: a function's compare instructions against the lifted
    compare lines, walked in parallel, and what an accepted pair means for the operands. */
module AuditCmp {
  import opened Bytes
  import opened ParallelWalk
  import opened Wrappers

  /** A lifted compare: the C type both operands are cast to and the shift its three-bit result
      is stored at in the condition register. */
  datatype Lifted = Lifted(signed: bool, width: nat, shift: nat)

  const TWO31: nat := 0x8000_0000

  const TWO32: nat := 0x1_0000_0000

  const TWO63: nat := 0x8000_0000_0000_0000

  const TWO64: nat := 0x1_0000_0000_0000_0000

  // ---- The encodings ----------------------------------------------------------

  function Extended(w: u32): nat {
    w / 2 % 0x400
  }

  predicate RegisterForm(w: u32) {
    Opcode(w) == 31 && (Extended(w) == 0 || Extended(w) == 32)
  }

  predicate ImmediateForm(w: u32) {
    Opcode(w) == 10 || Opcode(w) == 11
  }

  /** cmp, cmpl, cmpi and cmpli. */
  predicate IsCompare(w: u32) {
    RegisterForm(w) || ImmediateForm(w)
  }

  predicate IsSigned(w: u32) {
    if RegisterForm(w) then Extended(w) == 0 else Opcode(w) == 11
  }

  /** The L bit. */
  predicate IsLong(w: u32) {
    w / 0x20_0000 % 2 == 1
  }

  function Field(w: u32): (crf: nat)
    ensures crf < 8
  {
    w / 0x80_0000 % 8
  }

  /** The line the script asks for. */
  function Expected(w: u32): Lifted {
    Lifted(IsSigned(w), if IsLong(w) then 64 else 32, 4 * (7 - Field(w)))
  }

  // ---- The parallel walk ------------------------------------------------------

  /** The line asked for at each word, if any. */
  function Wants(ws: seq<u32>): (wants: seq<Option<Lifted>>)
    ensures |wants| == |ws|
  {
    seq(|ws|, i requires 0 <= i < |ws| => if IsCompare(ws[i]) then Some(Expected(ws[i])) else None)
  }

  method Check(ws: seq<u32>, lifted: seq<Lifted>) returns (bad: nat)
    ensures bad == Mismatches(Wants(ws), lifted, |ws|)
  {
    var k := 0;
    bad := 0;
    for i := 0 to |ws|
      invariant k == Min(Rank(Wants(ws), i), |lifted|)
      invariant bad == Mismatches(Wants(ws), lifted, i)
    {
      var w := ws[i];
      var op, xo := w / 0x400_0000, w / 2 % 0x400;
      var signed;
      if op == 31 && (xo == 0 || xo == 32) {
        signed := xo == 0;
      } else if op == 10 || op == 11 {
        signed := op == 11;
      } else {
        continue;
      }
      var width := if w / 0x20_0000 % 2 == 1 then 64 else 32;
      var crf := w / 0x80_0000 % 8;
      if k >= |lifted| {
        bad := bad + 1;
        continue;
      }
      var line := lifted[k];
      k := k + 1;
      var okSign := line.signed == signed && line.width == width;
      var okCrf := line.shift == 4 * (7 - crf);
      if !(okSign && okCrf) {
        bad := bad + 1;
      }
    }
  }

  // ---- What the lines and the instructions do -------------------------------------

  /** The field written, counted from the most significant one, and LT, GT or EQ in it. */
  datatype Effect = Effect(field: int, code: nat)

  function Code(a: int, b: int): nat {
    if a < b then 8 else if a > b then 4 else 2
  }

  /** A register read through a C cast. */
  function Cast(signed: bool, width: nat, x: u64): int {
    if width == 32 then
      var low := x % TWO32;
      if signed && low >= TWO31 then low - TWO32 else low
    else if signed && x >= TWO63 then x - TWO64 else x
  }

  function LineEffect(line: Lifted, a: u64, b: u64): Effect {
    Effect(7 - line.shift / 4, Code(Cast(line.signed, line.width, a), Cast(line.signed, line.width, b)))
  }

  // ---- The instructions -----------------------------------------------------------

  /** The fixed-point compare instructions of Power ISA Book I by their fields: the field of the
      condition register, the L bit, register RA, and register RB or a 16-bit immediate. */
  datatype Compare =
    | Cmp(bf: nat, l: nat, ra: nat, rb: nat)
    | Cmpl(bf: nat, l: nat, ra: nat, rb: nat)
    | Cmpi(bf: nat, l: nat, ra: nat, si: nat)
    | Cmpli(bf: nat, l: nat, ra: nat, ui: nat)

  predicate InRange(c: Compare) {
    && c.bf < 8 && c.l < 2 && c.ra < 32
    && match c
       case Cmp(_, _, _, rb) => rb < 32
       case Cmpl(_, _, _, rb) => rb < 32
       case Cmpi(_, _, _, si) => si < 0x1_0000
       case Cmpli(_, _, _, ui) => ui < 0x1_0000
  }

  type Instr = c: Compare | InRange(c) witness Cmp(0, 0, 0, 0)

  /** The word of an instruction, its reserved bits clear. */
  function Encode(c: Instr): (w: u32) {
    var fields := c.bf * 0x80_0000 + c.l * 0x20_0000 + c.ra * 0x1_0000;
    match c
    case Cmp(_, _, _, rb) => 31 * 0x400_0000 + fields + rb * 0x800
    case Cmpl(_, _, _, rb) => 31 * 0x400_0000 + fields + rb * 0x800 + 32 * 2
    case Cmpi(_, _, _, si) => 11 * 0x400_0000 + fields + si
    case Cmpli(_, _, _, ui) => 10 * 0x400_0000 + fields + ui
  }

  /** w is the instruction, whatever its reserved bits are: bit 9, and bit 31 of a register form. */
  predicate IsWordOf(w: u32, c: Instr) {
    || w == Encode(c) || w == Encode(c) + 0x40_0000
    || ((c.Cmp? || c.Cmpl?) && (w == Encode(c) + 1 || w == Encode(c) + 0x40_0001))
  }

  /** Two's complement reading of the low n-bit half of the space. */
  function SignExtend(x: nat, half: nat): int {
    if x < half then x else x - 2 * half
  }

  /** The second operand, given the content of RB. */
  function Second(c: Instr, rb: u64): u64 {
    match c
    case Cmpi(_, _, _, si) => if si < 0x8000 then si else si - 0x1_0000 + TWO64
    case Cmpli(_, _, _, ui) => ui
    case _ => rb
  }

  /** What the instruction does, given the contents of RA and RB: LT is the field's first bit, GT
      its second, EQ its third. */
  function IsaEffect(c: Instr, ra: u64, rb: u64): Effect {
    var b := Second(c, rb);
    var x, y := if c.l == 1 then ra else ra % TWO32, if c.l == 1 then b else b % TWO32;
    var half := if c.l == 1 then TWO63 else TWO31;
    var less := if c.Cmp? || c.Cmpi? then SignExtend(x, half) < SignExtend(y, half) else x < y;
    Effect(c.bf, if x == y then 2 else if less then 8 else 4)
  }

  lemma WordFields(w: u32, op: nat, bf: nat, r: nat, l: nat, low: nat)
    requires op < 64 && bf < 8 && r < 2 && l < 2 && low < 0x20_0000
    requires w == op * 0x400_0000 + bf * 0x80_0000 + r * 0x40_0000 + l * 0x20_0000 + low
    ensures Opcode(w) == op && Field(w) == bf && (IsLong(w) <==> l == 1)
  {
    assert w / 0x20_0000 == op * 32 + bf * 4 + r * 2 + l;
    assert w / 0x80_0000 == op * 8 + bf;
  }

  lemma ExtendedField(w: u32, high: nat, xo: nat, rc: nat)
    requires w == high * 0x800 + xo * 2 + rc && xo < 0x400 && rc < 2
    ensures Extended(w) == xo
  {
  }

  lemma RegisterWord(w: u32, bf: nat, r: nat, l: nat, ra: nat, rb: nat, xo: nat, rc: nat)
    requires bf < 8 && r < 2 && l < 2 && ra < 32 && rb < 32 && xo < 0x400 && rc < 2
    requires w == 31 * 0x400_0000 + bf * 0x80_0000 + r * 0x40_0000 + l * 0x20_0000
                  + ra * 0x1_0000 + rb * 0x800 + xo * 2 + rc
    ensures Opcode(w) == 31 && Extended(w) == xo && Field(w) == bf && (IsLong(w) <==> l == 1)
  {
    hide Opcode, Field, IsLong, Extended;
    WordFields(w, 31, bf, r, l, ra * 0x1_0000 + rb * 0x800 + xo * 2 + rc);
    ExtendedField(w, 31 * 0x8000 + bf * 0x1000 + r * 0x800 + l * 0x400 + ra * 32 + rb, xo, rc);
  }

  /** Decoding an instruction's word gives its fields. */
  lemma DecodesAs(w: u32, c: Instr)
    requires IsWordOf(w, c)
    ensures IsCompare(w) && Field(w) == c.bf && (IsLong(w) <==> c.l == 1) && (IsSigned(w) <==> c.Cmp? || c.Cmpi?)
  {
    hide Opcode, Field, IsLong, Extended;
    var rest := w - Encode(c);
    var r, rc := if rest >= 0x40_0000 then 1 else 0, if rest == 1 || rest == 0x40_0001 then 1 else 0;
    match c
    case Cmp(_, _, _, _) => RegisterWord(w, c.bf, r, c.l, c.ra, c.rb, 0, rc);
    case Cmpl(_, _, _, _) => RegisterWord(w, c.bf, r, c.l, c.ra, c.rb, 32, rc);
    case Cmpi(_, _, _, _) => WordFields(w, 11, c.bf, r, c.l, c.ra * 0x1_0000 + c.si);
    case Cmpli(_, _, _, _) => WordFields(w, 10, c.bf, r, c.l, c.ra * 0x1_0000 + c.ui);
  }

  lemma HighParts(a: nat) returns (op: nat, bf: nat, r: nat, l: nat, ra: nat)
    ensures bf < 8 && r < 2 && l < 2 && ra < 32
    ensures a == op * 1024 + bf * 128 + r * 64 + l * 32 + ra
  {
    var b := a / 32;
    var c := b / 2;
    var d := c / 2;
    op, bf, r, l, ra := d / 8, d % 8, c % 2, b % 2, a % 32;
  }

  lemma WordParts(w: u32) returns (bf: nat, r: nat, l: nat, ra: nat, low: nat)
    ensures bf < 8 && r < 2 && l < 2 && ra < 32 && low < 0x1_0000
    ensures w == Opcode(w) * 0x400_0000 + bf * 0x80_0000 + r * 0x40_0000 + l * 0x20_0000 + ra * 0x1_0000 + low
    ensures low == low / 0x800 * 0x800 + Extended(w) * 2 + low % 2
  {
    var a := w / 0x1_0000;
    low := w % 0x1_0000;
    var op;
    op, bf, r, l, ra := HighParts(a);
    DivUnique(w, 0x400_0000, op, bf * 0x80_0000 + r * 0x40_0000 + l * 0x20_0000 + ra * 0x1_0000 + low);
    LowParts(w, a, low);
  }

  lemma LowParts(w: u32, a: nat, low: nat)
    requires w == a * 0x1_0000 + low && low < 0x1_0000
    ensures low == low / 0x800 * 0x800 + Extended(w) * 2 + low % 2
  {
    var rb, rest := low / 0x800, low % 0x800;
    assert low % 2 == rest % 2;
    ExtendedField(w, a * 32 + rb, rest / 2, rest % 2);
  }

  lemma SomeCompare(w: u32) returns (c: Instr)
    requires IsCompare(w)
    ensures IsWordOf(w, c)
  {
    hide Opcode, Extended;
    var bf, r, l, ra, low := WordParts(w);
    if RegisterForm(w) {
      c := if Extended(w) == 0 then Cmp(bf, l, ra, low / 0x800) else Cmpl(bf, l, ra, low / 0x800);
      assert w == Encode(c) + r * 0x40_0000 + low % 2;
    } else {
      c := if Opcode(w) == 11 then Cmpi(bf, l, ra, low) else Cmpli(bf, l, ra, low);
      assert w == Encode(c) + r * 0x40_0000;
    }
  }

  /** The words that are audited are those of the four instructions. */
  lemma CompareWords(w: u32)
    ensures IsCompare(w) <==> exists c: Instr :: IsWordOf(w, c)
  {
    hide IsWordOf, IsCompare;
    if c: Instr :| IsWordOf(w, c) {
      DecodesAs(w, c);
    }
    if IsCompare(w) {
      var c := SomeCompare(w);
    }
  }

  // ---- The lines against the instructions ------------------------------------------

  /** The shape the lifter emits. */
  predicate Shaped(line: Lifted, field: nat) {
    field < 8 && (line.width == 32 || line.width == 64) && line.shift == 4 * field
  }

  lemma ExpectedEffect(w: u32, c: Instr, ra: u64, rb: u64)
    requires IsWordOf(w, c)
    ensures LineEffect(Expected(w), ra, Second(c, rb)) == IsaEffect(c, ra, rb)
  {
    DecodesAs(w, c);
    hide IsWordOf, Second, Field, IsLong, IsSigned;
    assert 4 * (7 - Field(w)) / 4 == 7 - Field(w);
  }

  /** Two casts that compare every value with b alike are the same: a value equal to b in its
      low word only tells the widths apart, one across the middle from b the signedness. */
  lemma CastsDiffer(s: bool, n: nat, s': bool, n': nat, b: u64) returns (a: u64)
    requires (n == 32 || n == 64) && (n' == 32 || n' == 64)
    ensures Code(Cast(s, n, a), Cast(s, n, b)) == Code(Cast(s', n', a), Cast(s', n', b)) ==> s == s' && n == n'
  {
    if n != n' {
      a := (b + TWO32) % TWO64;
      LowWordKept(b);
      assert Cast(s, 32, a) == Cast(s, 32, b) && Cast(s', 32, a) == Cast(s', 32, b);
      assert Cast(s, 64, a) != Cast(s, 64, b) && Cast(s', 64, a) != Cast(s', 64, b);
    } else if n == 64 {
      a := (b + TWO63) % TWO64;
    } else {
      a := (b + TWO31) % TWO64;
      AcrossTheMiddle(b);
      SignednessShowsAcrossTheMiddle(a, b);
    }
  }

  lemma LowWordKept(b: u64)
    ensures (b + TWO32) % TWO64 % TWO32 == b % TWO32 && (b + TWO32) % TWO64 != b
  {
    if b + TWO32 >= TWO64 {
      assert (b + TWO32) % TWO64 == b + TWO32 - TWO64;
    }
  }

  lemma AcrossTheMiddle(b: u64)
    ensures ((b + TWO31) % TWO64 % TWO32 < TWO31) != (b % TWO32 < TWO31)
  {
    var low, high := b % TWO32, b / TWO32;
    assert b == high * TWO32 + low;
    if b + TWO31 >= TWO64 {
      assert (b + TWO31) % TWO64 == b + TWO31 - TWO64;
    }
  }

  lemma SameLine(line: Lifted, e: Lifted, field: nat, field': nat, a: u64, b: u64)
    requires Shaped(line, field) && Shaped(e, field') && LineEffect(line, a, b) == LineEffect(e, a, b)
    requires Code(Cast(line.signed, line.width, a), Cast(line.signed, line.width, b))
             == Code(Cast(e.signed, e.width, a), Cast(e.signed, e.width, b))
             ==> line.signed == e.signed && line.width == e.width
    ensures line == e
  {
    hide Cast;
  }

  /** A lifted compare of the emitted shape is the one the script asks for exactly when it sets
      the same field to the same result as the instruction for every first operand, whatever the
      second one is: any content of RB, or the encoded immediate. */
  lemma AcceptedIffSameCompare(w: u32, c: Instr, line: Lifted, field: nat, rb: u64)
    requires IsWordOf(w, c) && Shaped(line, field)
    ensures line == Expected(w) <==> forall ra: u64 :: LineEffect(line, ra, Second(c, rb)) == IsaEffect(c, ra, rb)
  {
    hide IsaEffect, LineEffect, Second, IsWordOf, Cast, Field;
    var e, b := Expected(w), Second(c, rb);
    forall ra: u64 ensures LineEffect(e, ra, b) == IsaEffect(c, ra, rb) {
      ExpectedEffect(w, c, ra, rb);
    }
    if forall ra: u64 :: LineEffect(line, ra, b) == IsaEffect(c, ra, rb) {
      var a := CastsDiffer(line.signed, line.width, e.signed, e.width, b);
      assert LineEffect(line, a, b) == IsaEffect(c, a, rb);
      assert LineEffect(e, a, b) == IsaEffect(c, a, rb);
      SameLine(line, e, field, 7 - Field(w), a, b);
    }
  }

  /** No mismatch reported: every compare has its own line, with the same effect. */
  lemma CleanAuditIsFaithful(ws: seq<u32>, lifted: seq<Lifted>, i: nat, c: Instr, ra: u64, rb: u64)
    requires Mismatches(Wants(ws), lifted, |ws|) == 0 && i < |ws| && IsWordOf(ws[i], c)
    ensures Rank(Wants(ws), i) < |lifted|
    ensures LineEffect(lifted[Rank(Wants(ws), i)], ra, Second(c, rb)) == IsaEffect(c, ra, rb)
  {
    NoMismatchMeansAllAgree(Wants(ws), lifted, |ws|);
    DecodesAs(ws[i], c);
    assert Agrees(Wants(ws), lifted, i);
    ExpectedEffect(ws[i], c, ra, rb);
  }

  /** The instruction at i has its own lifted line, which has its effect on every pair of
      registers. */
  ghost predicate SameEffect(ws: seq<u32>, lifted: seq<Lifted>, i: nat, c: Instr)
    requires i < |ws|
  {
    var k := Rank(Wants(ws), i);
    k < |lifted| && forall ra: u64, rb: u64 :: LineEffect(lifted[k], ra, Second(c, rb)) == IsaEffect(c, ra, rb)
  }

  ghost predicate AllShaped(lifted: seq<Lifted>) {
    forall k :: 0 <= k < |lifted| ==> exists field :: Shaped(lifted[k], field)
  }

  /** On lines of the emitted shape the audit decides that, no more and no less. */
  lemma CleanAuditIffFaithful(ws: seq<u32>, lifted: seq<Lifted>)
    requires AllShaped(lifted)
    ensures Mismatches(Wants(ws), lifted, |ws|) == 0 <==>
            forall i: nat, c: Instr :: i < |ws| && IsWordOf(ws[i], c) ==> SameEffect(ws, lifted, i, c)
  {
    hide LineEffect, IsaEffect, AllShaped, Expected, Mismatches, IsWordOf, Second, IsCompare;
    NoMismatchMeansAllAgree(Wants(ws), lifted, |ws|);
    forall i: nat | i < |ws| && IsCompare(ws[i])
      ensures exists c: Instr :: IsWordOf(ws[i], c) && (Agrees(Wants(ws), lifted, i) <==> SameEffect(ws, lifted, i, c))
    {
      CompareWords(ws[i]);
      var c: Instr :| IsWordOf(ws[i], c);
      AgreesIffSameEffect(ws, lifted, i, c);
    }
    forall i: nat, c: Instr | i < |ws| && IsWordOf(ws[i], c)
      ensures IsCompare(ws[i]) && (Agrees(Wants(ws), lifted, i) <==> SameEffect(ws, lifted, i, c))
    {
      CompareWords(ws[i]);
      AgreesIffSameEffect(ws, lifted, i, c);
    }
  }

  lemma AgreesIffSameEffect(ws: seq<u32>, lifted: seq<Lifted>, i: nat, c: Instr)
    requires i < |ws| && IsWordOf(ws[i], c)
    requires AllShaped(lifted)
    ensures Agrees(Wants(ws), lifted, i) <==> SameEffect(ws, lifted, i, c)
  {
    hide LineEffect, IsaEffect, Shaped, Expected, Second;
    DecodesAs(ws[i], c);
    var k := Rank(Wants(ws), i);
    if k < |lifted| {
      var field :| Shaped(lifted[k], field);
      AcceptedIffSameCompare(ws[i], c, lifted[k], field, 0);
      if lifted[k] == Expected(ws[i]) {
        forall ra: u64, rb: u64 ensures LineEffect(lifted[k], ra, Second(c, rb)) == IsaEffect(c, ra, rb) {
          ExpectedEffect(ws[i], c, ra, rb);
        }
      }
    }
  }

  /** Why a wrong signedness stays hidden: a signed and an unsigned word compare differ exactly
      when one operand, and only one, has crossed 0x80000000. */
  lemma SignednessShowsAcrossTheMiddle(a: u64, b: u64)
    ensures Code(Cast(true, 32, a), Cast(true, 32, b)) != Code(Cast(false, 32, a), Cast(false, 32, b))
            <==> (a % TWO32 < TWO31) != (b % TWO32 < TWO31)
  {
  }
}
