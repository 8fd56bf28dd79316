/** The walk both translation auditors share: instruction words in order, lifted lines in
    order, and the k-th audited instruction paired with the k-th line. */
module ParallelWalk {
  import opened Bytes
  import opened Wrappers

  /** The major opcode of an instruction word. */
  function Opcode(w: u32): nat {
    w / 0x400_0000
  }

  /** How many of the first n instructions are audited; `wants` holds the line asked for, if
      any, of each instruction. */
  function Rank<L>(wants: seq<Option<L>>, n: nat): nat
    requires n <= |wants|
  {
    if n == 0 then 0 else Rank(wants, n - 1) + if wants[n - 1].Some? then 1 else 0
  }

  /** Instruction i is paired with a line, and with the right one. */
  predicate Agrees<L(==)>(wants: seq<Option<L>>, lifted: seq<L>, i: nat)
    requires i < |wants|
  {
    wants[i].Some? ==> Rank(wants, i) < |lifted| && lifted[Rank(wants, i)] == wants[i].value
  }

  function Mismatches<L(==)>(wants: seq<Option<L>>, lifted: seq<L>, n: nat): nat
    requires n <= |wants|
  {
    if n == 0 then 0 else Mismatches(wants, lifted, n - 1) + if Agrees(wants, lifted, n - 1) then 0 else 1
  }

  lemma {:induction false} NoMismatchMeansAllAgree<L>(wants: seq<Option<L>>, lifted: seq<L>, n: nat)
    requires n <= |wants|
    ensures Mismatches(wants, lifted, n) == 0 <==> forall i: nat :: i < n ==> Agrees(wants, lifted, i)
  {
    if n > 0 {
      NoMismatchMeansAllAgree(wants, lifted, n - 1);
    }
  }

  /** Each instruction whose line is missing or wrong counts once. */
  lemma {:induction false} MismatchesAreCounted<L>(wants: seq<Option<L>>, lifted: seq<L>, n: nat)
    requires n <= |wants|
    ensures Mismatches(wants, lifted, n) == |set i: nat | i < n && !Agrees(wants, lifted, i)|
  {
    hide Agrees;
    var now := set i: nat | i < n && !Agrees(wants, lifted, i);
    if n == 0 {
      assert now == {};
    } else {
      MismatchesAreCounted(wants, lifted, n - 1);
      var before := set i: nat | i < n - 1 && !Agrees(wants, lifted, i);
      assert now == if Agrees(wants, lifted, n - 1) then before else before + {n - 1};
    }
  }

  /** The lines asked for by the first n instructions, in order. */
  function Wanted<L>(wants: seq<Option<L>>, n: nat): (r: seq<L>)
    requires n <= |wants|
    ensures |r| == Rank(wants, n)
  {
    if n == 0 then []
    else Wanted(wants, n - 1) + if wants[n - 1].Some? then [wants[n - 1].value] else []
  }

  /** A clean audit says exactly that the lines asked for come first among the lifted ones. */
  lemma {:induction false} CleanIffPrefix<L>(wants: seq<Option<L>>, lifted: seq<L>, n: nat)
    requires n <= |wants|
    ensures Mismatches(wants, lifted, n) == 0 <==> Wanted(wants, n) <= lifted
  {
    if n > 0 {
      CleanIffPrefix(wants, lifted, n - 1);
      var before, all := Wanted(wants, n - 1), Wanted(wants, n);
      assert all[..|before|] == before;
      if wants[n - 1].Some? {
        assert all[|before|] == wants[n - 1].value;
        assert before <= lifted && Agrees(wants, lifted, n - 1) ==> all == lifted[..|all|];
      }
    }
  }

  /** Lines past the last one asked for are never looked at, so a surplus goes unreported. */
  lemma {:induction false} SurplusUnreported<L>(wants: seq<Option<L>>, lifted: seq<L>, surplus: seq<L>, n: nat)
    requires n <= |wants| && Rank(wants, n) <= |lifted|
    ensures Mismatches(wants, lifted + surplus, n) == Mismatches(wants, lifted, n)
  {
    if n > 0 {
      SurplusUnreported(wants, lifted, surplus, n - 1);
    }
  }
}
