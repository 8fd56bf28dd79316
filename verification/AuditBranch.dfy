/** `check` of scripts/audit_branch.py: the conditional branches of a function's machine code
    against the lifted `if` lines, walked in parallel, and what an accepted pair means for
    the condition register. */
module AuditBranch {
  import opened Bytes
  import opened ParallelWalk
  import opened Wrappers

  /** A lifted line `if (((ctx->cr >> shift) & mask)) goto`, or its negation. */
  datatype Lifted = Lifted(shift: nat, mask: nat, negated: bool)

  // ---- Shifts and masks -------------------------------------------------------

  function Shr(x: nat, n: nat): nat
    decreases n
  {
    if n == 0 then x else Shr(x / 2, n - 1)
  }

  function And(x: nat, m: nat): nat {
    if x == 0 then 0 else (if x % 2 == 1 && m % 2 == 1 then 1 else 0) + 2 * And(x / 2, m / 2)
  }

  // ---- The encoding -----------------------------------------------------------

  function BO(w: u32): (bo: nat)
    ensures bo < 32
  {
    w / 0x20_0000 % 32
  }

  function BI(w: u32): (bi: nat)
    ensures bi < 32
  {
    w / 0x1_0000 % 32
  }

  /** The bits of BO, from 16 down to 1. */
  predicate BOSet(w: u32, bit: nat)
    requires bit > 0
  {
    BO(w) / bit % 2 == 1
  }

  /** A bc that does not decrement CTR. */
  predicate Audited(w: u32) {
    Opcode(w) == 16 && BOSet(w, 4)
  }

  /** BITS: the mask of a field's LT, GT, EQ and SO bit. */
  function BitMask(b: nat): nat
    requires b < 4
  {
    if b == 0 then 8 else if b == 1 then 4 else if b == 2 then 2 else 1
  }

  /** The line the script asks for. */
  function Expected(w: u32): Lifted {
    Lifted(4 * (7 - BI(w) / 4), BitMask(BI(w) % 4), !BOSet(w, 8))
  }

  // ---- The parallel walk ------------------------------------------------------

  /** The line asked for at each word, if any. */
  function Wants(ws: seq<u32>): (wants: seq<Option<Lifted>>)
    ensures |wants| == |ws|
  {
    seq(|ws|, i requires 0 <= i < |ws| => if Audited(ws[i]) then Some(Expected(ws[i])) else None)
  }

  method Check(ws: seq<u32>, lifted: seq<Lifted>) returns (bad: nat)
    ensures bad == Mismatches(Wants(ws), lifted, |ws|)
  {
    var k := 0;
    bad := 0;
    for i := 0 to |ws|
      invariant k == Min(Rank(Wants(ws), i), |lifted|)
      invariant bad == Mismatches(Wants(ws), lifted, i)
    {
      var w := ws[i];
      if w / 0x400_0000 != 16 {
        continue;
      }
      var bo, bi := w / 0x20_0000 % 32, w / 0x1_0000 % 32;
      if bo / 4 % 2 != 1 {
        continue;
      }
      var mask, crf := BitMask(bi % 4), bi / 4;
      var shift := 4 * (7 - crf);
      var takenWhenSet := bo / 8 % 2 == 1;
      if k >= |lifted| {
        bad := bad + 1;
        continue;
      }
      var line := lifted[k];
      k := k + 1;
      var ok := line.shift == shift && line.mask == mask && line.negated != takenWhenSet;
      if !ok {
        bad := bad + 1;
      }
    }
  }

  // ---- What the lines and the instructions do -------------------------------------

  predicate LineTaken(line: Lifted, cr: u32) {
    (And(Shr(cr, line.shift), line.mask) != 0) != line.negated
  }

  /** A bc by its fields: BO, BI, and the displacement with AA and LK. */
  datatype Branch = Bc(bo: nat, bi: nat, rest: nat)

  /** One that leaves CTR alone (Power ISA Book I, section 2.4). */
  type Instr = b: Branch | b.bo < 32 && b.bo / 4 % 2 == 1 && b.bi < 32 && b.rest < 0x1_0000 witness Bc(4, 0, 0)

  function Encode(b: Instr): (w: u32) {
    16 * 0x400_0000 + b.bo * 0x20_0000 + b.bi * 0x1_0000 + b.rest
  }

  /** BO's top bit set: the branch is taken whatever the condition register holds. */
  predicate Always(b: Instr) {
    b.bo / 16 == 1
  }

  /** Whether the instruction branches: condition register bit BI, counted from the most
      significant end (Power ISA Book I, section 2.3.1), against the 8-bit of BO. */
  predicate IsaTaken(b: Instr, cr: u32) {
    Always(b) || (cr / Pow2(31 - b.bi) % 2 == 1 <==> b.bo / 8 % 2 == 1)
  }

  lemma DecodesAs(b: Instr)
    ensures var w := Encode(b); Audited(w) && BO(w) == b.bo && BI(w) == b.bi
  {
    FieldsOf(Encode(b), b.bo, b.bi, b.rest);
    hide BO, BI, Opcode;
  }

  lemma FieldsOf(w: u32, bo: nat, bi: nat, rest: nat)
    requires w == 16 * 0x400_0000 + bo * 0x20_0000 + bi * 0x1_0000 + rest && bo < 32 && bi < 32 && rest < 0x1_0000
    ensures Opcode(w) == 16 && BO(w) == bo && BI(w) == bi
  {
    assert w / 0x20_0000 == 16 * 32 + bo;
    assert w / 0x1_0000 == 16 * 0x400 + bo * 32 + bi;
  }

  /** The words that are audited are those of these instructions. */
  lemma AuditedWords(w: u32)
    ensures Audited(w) <==> exists b: Instr :: w == Encode(b)
  {
    if b: Instr :| w == Encode(b) {
      DecodesAs(b);
    }
    if Audited(w) {
      var a, rest := w / 0x1_0000, w % 0x1_0000;
      assert BO(w) == a / 32 % 32 && a / 1024 == 16;
      assert a == 16 * 1024 + BO(w) * 32 + BI(w);
      assert w == Encode(Bc(BO(w), BI(w), rest));
    }
  }

  lemma {:induction false} ShrIsQuotient(x: nat, n: nat)
    ensures Shr(x, n) == x / Pow2(n)
    decreases n
  {
    if n > 0 {
      ShrIsQuotient(x / 2, n - 1);
      DivDiv(x, 2, Pow2(n - 1));
    }
  }

  lemma {:induction false} ShrShr(x: nat, m: nat, n: nat)
    ensures Shr(Shr(x, m), n) == Shr(x, m + n)
    decreases m
  {
    if m > 0 {
      ShrShr(x / 2, m - 1, n);
    }
  }

  lemma {:induction false} ShrZero(n: nat)
    ensures Shr(0, n) == 0
    decreases n
  {
    if n > 0 {
      ShrZero(n - 1);
    }
  }

  lemma {:induction false} ShrOne(n: nat)
    ensures Shr(1, n) == if n == 0 then 1 else 0
  {
    if n > 0 {
      ShrZero(n - 1);
    }
  }

  lemma {:induction false} AndZero(x: nat)
    ensures And(x, 0) == 0
  {
    if x > 0 {
      AndZero(x / 2);
    }
  }

  lemma {:induction false} AndPow2(x: nat, b: nat)
    ensures And(x, Pow2(b)) != 0 <==> Shr(x, b) % 2 == 1
    decreases b
  {
    if x == 0 {
      ShrZero(b);
    } else if b == 0 {
      AndZero(x / 2);
    } else {
      AndPow2(x / 2, b - 1);
    }
  }

  /** A power of two has one bit. */
  lemma {:induction false} BitOfPow2(p: nat, q: nat)
    ensures Shr(Pow2(p), q) % 2 == (if p == q then 1 else 0)
    decreases p
  {
    if p == 0 {
      ShrOne(q);
    } else if q > 0 {
      BitOfPow2(p - 1, q - 1);
    }
  }

  lemma {:induction false} Pow2Monotone(a: nat, b: nat)
    requires a <= b
    ensures Pow2(a) <= Pow2(b)
    decreases b - a
  {
    if a < b {
      Pow2Monotone(a + 1, b);
    }
  }

  /** The register value with only bit `pos` (from the low end) set. */
  function OneBit(pos: nat): (cr: u32)
    requires pos < 32
  {
    Pow2Monotone(pos, 31);
    assert Pow2(31) == 0x8000_0000 by {
      assert Pow2(8) == 0x100;
      assert Pow2(16) == 0x1_0000;
      assert Pow2(24) == 0x100_0000;
    }
    Pow2(pos)
  }

  /** The test of a line whose mask is bit b. */
  lemma LineTest(line: Lifted, b: nat, cr: u32)
    requires line.mask == Pow2(b)
    ensures LineTaken(line, cr) <==> (Shr(cr, line.shift + b) % 2 == 1) != line.negated
  {
    AndPow2(Shr(cr, line.shift), b);
    ShrShr(cr, line.shift, b);
  }

  /** The shape the lifter emits: a CR field's shift and one of its four bits. */
  predicate Shaped(line: Lifted, field: nat, b: nat) {
    field < 8 && b < 4 && line.shift == 4 * field && line.mask == Pow2(b)
  }

  lemma ExpectedShape(w: u32)
    ensures Shaped(Expected(w), 7 - BI(w) / 4, 3 - BI(w) % 4)
  {
    assert Pow2(3) == 8 && Pow2(2) == 4 && Pow2(1) == 2 && Pow2(0) == 1;
  }

  /** What the condition register must hold, in the terms of the line. */
  lemma TakenByShift(b: Instr, cr: u32)
    requires !Always(b)
    ensures IsaTaken(b, cr) <==> (Shr(cr, 31 - b.bi) % 2 == 1) == BOSet(Encode(b), 8)
  {
    DecodesAs(b);
    ShrIsQuotient(cr, 31 - b.bi);
  }

  lemma ExpectedTaken(b: Instr, cr: u32)
    requires !Always(b)
    ensures LineTaken(Expected(Encode(b)), cr) <==> IsaTaken(b, cr)
  {
    var w := Encode(b);
    DecodesAs(b);
    ExpectedShape(w);
    TakenByShift(b, cr);
    LineTest(Expected(w), 3 - BI(w) % 4, cr);
  }

  /** A lifted line of the emitted shape is the one the script asks for exactly when it
      branches as the instruction does for every value of the condition register. */
  lemma AcceptedIffSameBranch(b: Instr, line: Lifted, field: nat, bit: nat)
    requires !Always(b) && Shaped(line, field, bit)
    ensures line == Expected(Encode(b)) <==> forall cr: u32 :: LineTaken(line, cr) == IsaTaken(b, cr)
  {
    hide LineTaken, IsaTaken, Encode;
    var w, place := Encode(b), 31 - b.bi;
    DecodesAs(b);
    ExpectedShape(w);
    forall cr: u32 ensures LineTaken(Expected(w), cr) == IsaTaken(b, cr) {
      ExpectedTaken(b, cr);
    }
    if forall cr: u32 :: LineTaken(line, cr) == IsaTaken(b, cr) {
      var one := OneBit(place);
      assert LineTaken(line, 0) == IsaTaken(b, 0) && LineTaken(line, one) == IsaTaken(b, one);
      LineTest(line, bit, 0);
      LineTest(line, bit, one);
      TakenByShift(b, 0);
      TakenByShift(b, one);
      ShrZero(line.shift + bit);
      ShrZero(place);
      BitOfPow2(place, line.shift + bit);
      BitOfPow2(place, place);
      assert line.shift + bit == place;
      assert field == 7 - b.bi / 4 && bit == 3 - b.bi % 4;
    }
  }

  /** With BO's top bit set the instruction always branches, so the accepted line, a test, is
      wrong for some register value: the audit is exact only for the conditional forms. */
  lemma UnconditionalFormMisjudged(b: Instr)
    ensures (forall cr: u32 :: LineTaken(Expected(Encode(b)), cr) == IsaTaken(b, cr)) <==> !Always(b)
  {
    hide LineTaken, Encode;
    var line := Expected(Encode(b));
    ExpectedShape(Encode(b));
    if Always(b) {
      DecodesAs(b);
      var bit := 3 - b.bi % 4;
      LineTest(line, bit, 0);
      ShrZero(line.shift + bit);
      var one := OneBit(31 - b.bi);
      LineTest(line, bit, one);
      BitOfPow2(31 - b.bi, line.shift + bit);
      assert !LineTaken(line, 0) || !LineTaken(line, one);
    } else {
      forall cr: u32 ensures LineTaken(line, cr) == IsaTaken(b, cr) {
        ExpectedTaken(b, cr);
      }
    }
  }

  /** No mismatch reported: every audited conditional branch has its own lifted line, taken
      for exactly the register values the instruction branches on. */
  lemma CleanAuditIsFaithful(ws: seq<u32>, lifted: seq<Lifted>, i: nat, b: Instr, cr: u32)
    requires Mismatches(Wants(ws), lifted, |ws|) == 0
    requires i < |ws| && ws[i] == Encode(b) && !Always(b)
    ensures Rank(Wants(ws), i) < |lifted| && LineTaken(lifted[Rank(Wants(ws), i)], cr) == IsaTaken(b, cr)
  {
    NoMismatchMeansAllAgree(Wants(ws), lifted, |ws|);
    DecodesAs(b);
    assert Agrees(Wants(ws), lifted, i);
    ExpectedTaken(b, cr);
  }

  /** The instruction at i has its own lifted line, taken for the same register values. */
  ghost predicate SameBranch(ws: seq<u32>, lifted: seq<Lifted>, i: nat, b: Instr)
    requires i < |ws|
  {
    var k := Rank(Wants(ws), i);
    k < |lifted| && forall cr: u32 :: LineTaken(lifted[k], cr) == IsaTaken(b, cr)
  }

  ghost predicate AllShaped(lifted: seq<Lifted>) {
    forall k :: 0 <= k < |lifted| ==> exists field, bit :: Shaped(lifted[k], field, bit)
  }

  /** On lines of the emitted shape, and without a branch-always form, the audit decides that,
      no more and no less. */
  lemma CleanAuditIffFaithful(ws: seq<u32>, lifted: seq<Lifted>)
    requires AllShaped(lifted) && forall i: nat, b: Instr :: i < |ws| && ws[i] == Encode(b) ==> !Always(b)
    ensures Mismatches(Wants(ws), lifted, |ws|) == 0 <==>
            forall i: nat, b: Instr :: i < |ws| && ws[i] == Encode(b) ==> SameBranch(ws, lifted, i, b)
  {
    hide LineTaken, IsaTaken, AllShaped, Expected, Mismatches, Encode, Audited, Always;
    NoMismatchMeansAllAgree(Wants(ws), lifted, |ws|);
    forall i: nat | i < |ws| && Audited(ws[i])
      ensures exists b: Instr :: ws[i] == Encode(b) && (Agrees(Wants(ws), lifted, i) <==> SameBranch(ws, lifted, i, b))
    {
      AuditedWords(ws[i]);
      var b: Instr :| ws[i] == Encode(b);
      AgreesIffSameBranch(ws, lifted, i, b);
    }
    forall i: nat, b: Instr | i < |ws| && ws[i] == Encode(b)
      ensures Audited(ws[i]) && (Agrees(Wants(ws), lifted, i) <==> SameBranch(ws, lifted, i, b))
    {
      AuditedWords(ws[i]);
      AgreesIffSameBranch(ws, lifted, i, b);
    }
  }

  lemma AgreesIffSameBranch(ws: seq<u32>, lifted: seq<Lifted>, i: nat, b: Instr)
    requires i < |ws| && ws[i] == Encode(b) && !Always(b) && AllShaped(lifted)
    ensures Agrees(Wants(ws), lifted, i) <==> SameBranch(ws, lifted, i, b)
  {
    hide LineTaken, IsaTaken, Shaped, Expected, Encode;
    DecodesAs(b);
    var k := Rank(Wants(ws), i);
    if k < |lifted| {
      var field, bit :| Shaped(lifted[k], field, bit);
      AcceptedIffSameBranch(b, lifted[k], field, bit);
    }
  }
}
