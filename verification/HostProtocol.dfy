/** One host thread running patched code: the host call stack, and the armed-buffer stack
    that the call-site wrappers and guards of scripts/setjmp_patch.py keep beside it.

    `Ideal` is what the protocol is for: each live frame owns the buffers it armed, a
    return discards them, and a longjmp finds the most recently armed live one.  The
    theorems say when the array-plus-depth implementation is that machine. */
module HostProtocol {
  import opened Bytes
  import opened JmpStack
  import opened Wrappers

  /** A lifted function's activation.  `saved` is the depth on entry; when the function is
      guarded, its wrapper holds that value and unwinds to it on return. */
  datatype Frame = Frame(id: nat, guarded: bool, saved: nat)

  datatype Machine = Machine(frames: seq<Frame>, jmp: Stack, nextId: nat, nextArm: nat)

  datatype Event =
    | Call(guarded: bool)
    | Return
    | Arm(ea: u32)
    | Longjmp(ea: u32)

  /** Wild: control went to a frame that is no longer on the host stack. */
  datatype Outcome =
    | Next(m: Machine, landed: Option<Landing>)
    | Wild(into: Landing)

  function FrameIndex(frames: seq<Frame>, id: nat): (r: Option<nat>)
    ensures r.Some? ==> r.value < |frames| && frames[r.value].id == id
    ensures r.None? ==> forall f :: f in frames ==> f.id != id
  {
    if frames == [] then None
    else if frames[|frames| - 1].id == id then Some(|frames| - 1)
    else FrameIndex(frames[..|frames| - 1], id)
  }

  /** Everything but a call happens in the top frame. */
  predicate Enabled(m: Machine, e: Event) {
    e.Call? || m.frames != []
  }

  function Step(m: Machine, e: Event): (r: Outcome)
    requires m.jmp.Valid() && Enabled(m, e)
    ensures r.Next? ==> r.m.jmp.Valid()
  {
    match e
    case Call(guarded) =>
      Next(m.(frames := m.frames + [Frame(m.nextId, guarded, m.jmp.depth)], nextId := m.nextId + 1), None)
    case Return =>
      var top := m.frames[|m.frames| - 1];
      Next(m.(frames := m.frames[..|m.frames| - 1],
              jmp := if top.guarded then Unwind(m.jmp, top.saved) else m.jmp), None)
    case Arm(ea) =>
      var top := m.frames[|m.frames| - 1];
      var host := Landing(top.id, m.nextArm);
      Next(m.(jmp := SetHost(Push(m.jmp, ea), PushSlot(m.jmp), host), nextArm := m.nextArm + 1), None)
    case Longjmp(ea) =>
      match FireMatch(m.jmp, ea)
      case None => Next(m, None)
      case Some(i) =>
        var target := m.jmp.slots[i].host;
        match FrameIndex(m.frames, target.frame)
        case None => Wild(target)
        case Some(f) =>
          Next(m.(frames := m.frames[..f + 1], jmp := m.jmp.(depth := i)), Some(target))
  }

  /** The patched code itself, on the thread's own buffers: the guard's wrapper reads the depth
      before the call and unwinds after it, a call site pushes and stores its landing point, and
      the longjmp wrapper fires. */
  class HostThread {
    const buffers: Buffers
    var frames: seq<Frame>
    var nextId: nat
    var nextArm: nat

    ghost predicate Valid()
      reads this, buffers, buffers.slots
    {
      buffers.Valid()
    }

    ghost function View(): (m: Machine)
      requires Valid()
      reads this, buffers, buffers.slots
      ensures m.jmp.Valid()
    {
      Machine(frames, buffers.View(), nextId, nextArm)
    }

    constructor ()
      ensures Valid() && fresh(buffers) && fresh(buffers.slots)
      ensures frames == [] && buffers.View().depth == 0
    {
      buffers := new Buffers();
      frames, nextId, nextArm := [], 0, 0;
    }

    /** One event; when the host longjmp would enter a dead frame, nothing is said of the state. */
    method Do(e: Event) returns (wild: bool, landed: Option<Landing>)
      requires Valid() && Enabled(View(), e)
      modifies this, buffers, buffers.slots
      ensures Valid() && buffers.slots == old(buffers.slots)
      ensures match Step(old(View()), e)
              case Next(after, target) => !wild && View() == after && landed == target
              case Wild(into) => wild && landed == Some(into)
    {
      wild, landed := false, None;
      match e {
        case Call(guarded) =>
          var saved := buffers.JmpDepth();
          frames := frames + [Frame(nextId, guarded, saved)];
          nextId := nextId + 1;
        case Return =>
          var top := frames[|frames| - 1];
          frames := frames[..|frames| - 1];
          if top.guarded {
            buffers.JmpUnwind(top.saved);
          }
        case Arm(ea) =>
          var slot := buffers.JmpPush(ea);
          buffers.SetJmp(slot, Landing(frames[|frames| - 1].id, nextArm));
          nextArm := nextArm + 1;
        case Longjmp(ea) =>
          var target := buffers.JmpFire(ea);
          if target.Some? {
            var f := FrameIndex(frames, target.value.frame);
            if f.None? {
              return true, target;
            }
            frames := frames[..f.value + 1];
            landed := target;
          }
      }
    }
  }

  // ---- The ideal machine -----------------------------------------------------

  datatype Armed = Armed(arm: nat, key: u32)

  datatype Owner = Owner(id: nat, guarded: bool, armed: seq<Armed>)

  datatype Ideal = Ideal(owners: seq<Owner>, nextId: nat, nextArm: nat)

  predicate IdealEnabled(s: Ideal, e: Event) {
    e.Call? || s.owners != []
  }

  /** The most recent buffer of a frame with this key. */
  function Newest(armed: seq<Armed>, key: u32): (r: Option<nat>)
    ensures r.Some? ==> r.value < |armed| && armed[r.value].key == key
    ensures r.Some? ==> forall j :: r.value < j < |armed| ==> armed[j].key != key
    ensures r.None? ==> forall a :: a in armed ==> a.key != key
  {
    if armed == [] then None
    else if armed[|armed| - 1].key == key then Some(|armed| - 1)
    else Newest(armed[..|armed| - 1], key)
  }

  /** The owners left after a longjmp, and where it lands: frames above the target frame are
      gone, and the target buffer and those the frame armed after it are disarmed. */
  function Jump(owners: seq<Owner>, key: u32): (r: Option<(seq<Owner>, Landing)>)
  {
    if owners == [] then None
    else
      var top := owners[|owners| - 1];
      var below := owners[..|owners| - 1];
      match Newest(top.armed, key)
      case Some(i) =>
        Some((below + [top.(armed := top.armed[..i])], Landing(top.id, top.armed[i].arm)))
      case None => Jump(below, key)
  }

  function IdealStep(s: Ideal, e: Event): (Ideal, Option<Landing>)
    requires IdealEnabled(s, e)
  {
    match e
    case Call(guarded) =>
      (s.(owners := s.owners + [Owner(s.nextId, guarded, [])], nextId := s.nextId + 1), None)
    case Return =>
      (s.(owners := s.owners[..|s.owners| - 1]), None)
    case Arm(ea) =>
      var top := s.owners[|s.owners| - 1];
      (s.(owners := s.owners[|s.owners| - 1 := top.(armed := top.armed + [Armed(s.nextArm, Key(ea))])],
          nextArm := s.nextArm + 1), None)
    case Longjmp(ea) =>
      match Jump(s.owners, Key(ea))
      case None => (s, None)
      case Some(j) => (s.(owners := j.0), Some(j.1))
  }

  // ---- The abstraction relation ------------------------------------------------

  function Slots(o: Owner): (r: seq<Slot>)
    ensures |r| == |o.armed|
  {
    seq(|o.armed|, i requires 0 <= i < |o.armed| => Slot(Landing(o.id, o.armed[i].arm), o.armed[i].key))
  }

  /** Every armed buffer on the stack, oldest first. */
  function Flat(owners: seq<Owner>): seq<Slot> {
    if owners == [] then [] else Flat(owners[..|owners| - 1]) + Slots(owners[|owners| - 1])
  }

  function ArmedCount(s: Ideal): nat {
    |Flat(s.owners)|
  }

  /** Frame by frame: same activation, and the saved depth counts the buffers armed below the
      frame.  Ids grow upward, so an id names at most one live frame. */
  predicate FramesAgree(frames: seq<Frame>, owners: seq<Owner>, nextId: nat)
    decreases |frames|
  {
    |frames| == |owners| &&
    (frames != [] ==>
      var f, o := frames[|frames| - 1], owners[|owners| - 1];
      && f.id == o.id < nextId && f.guarded == o.guarded
      && f.saved == |Flat(owners[..|owners| - 1])|
      && FramesAgree(frames[..|frames| - 1], owners[..|owners| - 1], f.id))
  }

  /** The implementation state is the ideal state: the armed part of the array is exactly the
      live frames' buffers in order. */
  predicate Refines(m: Machine, s: Ideal) {
    && m.jmp.Valid()
    && FramesAgree(m.frames, s.owners, m.nextId)
    && m.nextId == s.nextId && m.nextArm == s.nextArm
    && m.jmp.slots[..m.jmp.depth] == Flat(s.owners)
  }

  lemma {:induction false} FramesAgreeWiden(frames: seq<Frame>, owners: seq<Owner>, n: nat, n': nat)
    requires FramesAgree(frames, owners, n) && n <= n'
    ensures FramesAgree(frames, owners, n')
  {
  }

  lemma {:induction false} FrameFound(frames: seq<Frame>, owners: seq<Owner>, nextId: nat, f: nat)
    requires FramesAgree(frames, owners, nextId) && f < |frames|
    ensures frames[f].id < nextId
    ensures FrameIndex(frames, frames[f].id) == Some(f)
  {
    var last := |frames| - 1;
    if f < last {
      FrameFound(frames[..last], owners[..last], frames[last].id, f);
    }
  }

  /** No slot from i on carries the key. */
  predicate NoneFrom(flat: seq<Slot>, i: nat, key: u32) {
    forall j :: i <= j < |flat| ==> flat[j].key != key
  }

  /** The jump r of the frames is what a scan of their flat stack from the top finds. */
  predicate Found(frames: seq<Frame>, owners: seq<Owner>, nextId: nat, key: u32, r: (seq<Owner>, Landing)) {
    var i, flat := |Flat(r.0)|, Flat(owners);
    && 0 < |r.0| <= |frames| && frames[|r.0| - 1].id == r.1.frame
    && FramesAgree(frames[..|r.0|], r.0, nextId)
    && i < |flat| && flat[..i] == Flat(r.0) && flat[i] == Slot(r.1, key)
    && NoneFrom(flat, i + 1, key)
  }

  lemma FoundInTop(frames: seq<Frame>, owners: seq<Owner>, nextId: nat, key: u32, i: nat)
    requires FramesAgree(frames, owners, nextId) && owners != []
    requires i < |owners[|owners| - 1].armed| && owners[|owners| - 1].armed[i].key == key
    requires NoneFrom(Slots(owners[|owners| - 1]), i + 1, key)
    ensures var top, below := owners[|owners| - 1], owners[..|owners| - 1];
            Found(frames, owners, nextId, key,
                  (below + [top.(armed := top.armed[..i])], Landing(top.id, top.armed[i].arm)))
  {
    var last := |owners| - 1;
    var top, below := owners[last], owners[..last];
    var kept := top.(armed := top.armed[..i]);
    var left := below + [kept];
    assert left[..last] == below && Slots(kept) == Slots(top)[..i];
    assert Flat(left) == Flat(below) + Slots(kept) && Flat(owners) == Flat(below) + Slots(top);
    assert FramesAgree(frames, left, nextId);
    hide Flat, Slots, FramesAgree;
    FlatSplit(Flat(below), Slots(top), i, key);
    assert frames[..|left|] == frames;
  }

  lemma FlatSplit(low: seq<Slot>, high: seq<Slot>, i: nat, key: u32)
    requires i < |high| && NoneFrom(high, i + 1, key)
    ensures (low + high)[..|low| + i] == low + high[..i] && (low + high)[|low| + i] == high[i]
    ensures NoneFrom(low + high, |low| + i + 1, key)
  {
  }

  lemma FoundBelow(frames: seq<Frame>, owners: seq<Owner>, nextId: nat, key: u32, r: (seq<Owner>, Landing))
    requires FramesAgree(frames, owners, nextId) && owners != []
    requires Newest(owners[|owners| - 1].armed, key) == None
    requires var last := |owners| - 1; Found(frames[..last], owners[..last], frames[last].id, key, r)
    ensures Found(frames, owners, nextId, key, r)
  {
    hide Newest;
    var last := |owners| - 1;
    assert frames[..last][..|r.0|] == frames[..|r.0|];
    FramesAgreeWiden(frames[..|r.0|], r.0, frames[last].id, nextId);
    assert Flat(owners)[..|Flat(r.0)|] == Flat(owners[..last])[..|Flat(r.0)|];
  }

  /** What the ideal jump finds is what a scan of the flat stack from the top finds. */
  lemma {:induction false} JumpAgrees(frames: seq<Frame>, owners: seq<Owner>, nextId: nat, key: u32)
    requires FramesAgree(frames, owners, nextId)
    ensures match Jump(owners, key)
            case None => NoneFrom(Flat(owners), 0, key)
            case Some(r) => Found(frames, owners, nextId, key, r)
  {
    hide Found, Newest;
    if owners != [] {
      var last := |owners| - 1;
      match Newest(owners[last].armed, key)
      case Some(i) =>
        FoundInTop(frames, owners, nextId, key, i);
      case None =>
        assert NoneFrom(Slots(owners[last]), 0, key);
        JumpAgrees(frames[..last], owners[..last], frames[last].id, key);
        if Jump(owners[..last], key).Some? {
          FoundBelow(frames, owners, nextId, key, Jump(owners, key).value);
        }
    }
  }

  lemma CallRefines(m: Machine, s: Ideal, guarded: bool)
    requires Refines(m, s)
    ensures Refines(Step(m, Call(guarded)).m, IdealStep(s, Call(guarded)).0)
  {
    var f, o := Frame(m.nextId, guarded, m.jmp.depth), Owner(s.nextId, guarded, []);
    assert (m.frames + [f])[..|m.frames|] == m.frames;
    assert (s.owners + [o])[..|s.owners|] == s.owners;
    assert Flat(s.owners + [o]) == Flat(s.owners) + Slots(o) && Slots(o) == [];
    assert |m.jmp.slots[..m.jmp.depth]| == m.jmp.depth;
  }

  /** A return no armed buffer survives: the frame is guarded or has armed nothing. */
  predicate CleanReturn(s: Ideal)
    requires s.owners != []
  {
    var top := s.owners[|s.owners| - 1];
    top.guarded || top.armed == []
  }

  lemma ReturnRefines(m: Machine, s: Ideal)
    requires Refines(m, s) && s.owners != [] && CleanReturn(s)
    ensures Refines(Step(m, Return).m, IdealStep(s, Return).0)
  {
    var last := |s.owners| - 1;
    var top := m.frames[last];
    FramesAgreeWiden(m.frames[..last], s.owners[..last], top.id, m.nextId);
    var below := Flat(s.owners[..last]);
    assert m.jmp.slots[..m.jmp.depth][..|below|] == below;
    assert m.jmp.slots[..m.jmp.depth][..|below|] == m.jmp.slots[..|below|];
  }

  lemma ArmRefines(m: Machine, s: Ideal, ea: u32)
    requires Refines(m, s) && IdealEnabled(s, Arm(ea)) && m.jmp.depth < JMP_MAX
    ensures Refines(Step(m, Arm(ea)).m, IdealStep(s, Arm(ea)).0)
  {
    var last := |s.owners| - 1;
    var top := s.owners[last];
    var armed := top.(armed := top.armed + [Armed(s.nextArm, Key(ea))]);
    var owners := s.owners[last := armed];
    var slot := Slot(Landing(top.id, s.nextArm), Key(ea));
    assert owners[..last] == s.owners[..last];
    assert Slots(armed) == Slots(top) + [slot];
    assert Flat(owners) == Flat(s.owners) + [slot];
    var st := Step(m, Arm(ea)).m.jmp;
    assert st.slots[..st.depth] == m.jmp.slots[..m.jmp.depth] + [slot];
  }

  lemma LongjmpRefines(m: Machine, s: Ideal, ea: u32)
    requires Refines(m, s) && s.owners != []
    ensures var r, i := Step(m, Longjmp(ea)), IdealStep(s, Longjmp(ea));
            r.Next? && r.landed == i.1 && Refines(r.m, i.0)
  {
    hide Flat, Jump, Newest, Key;
    var flat := Flat(s.owners);
    JumpAgrees(m.frames, s.owners, m.nextId, Key(ea));
    assert forall j :: 0 <= j < |flat| ==> flat[j] == m.jmp.slots[j];
    match Jump(s.owners, Key(ea)) {
      case None =>
      case Some(r) =>
        var i := |Flat(r.0)|;
        assert FireMatch(m.jmp, ea) == Some(i);
        FrameFound(m.frames, s.owners, m.nextId, |r.0| - 1);
        assert m.jmp.slots[..i] == flat[..i];
    }
  }

  // ---- Whole runs ------------------------------------------------------------

  const START := Machine([], Stack(seq(JMP_MAX, _ => Slot(Landing(0, 0), 0)), 0), 0, 0)

  const IDEAL_START := Ideal([], 0, 0)

  predicate Legal(s: Ideal, es: seq<Event>)
    decreases |es|
  {
    es != [] ==> IdealEnabled(s, es[0]) && Legal(IdealStep(s, es[0]).0, es[1..])
  }

  function IdealRun(s: Ideal, es: seq<Event>): Ideal
    requires Legal(s, es)
    decreases |es|
  {
    if es == [] then s else IdealRun(IdealStep(s, es[0]).0, es[1..])
  }

  /** What the implementation asks of a program: never more than JMP_MAX buffers armed at
      once, and no unguarded function returning with a buffer of its own still armed. */
  predicate Disciplined(s: Ideal, es: seq<Event>)
    requires Legal(s, es)
    decreases |es|
  {
    ArmedCount(s) <= JMP_MAX &&
    (es != [] ==> (es[0].Return? ==> CleanReturn(s)) && Disciplined(IdealStep(s, es[0]).0, es[1..]))
  }

  predicate CanRun(m: Machine, es: seq<Event>)
    requires m.jmp.Valid()
    decreases |es|
  {
    es != [] ==> Enabled(m, es[0]) && (Step(m, es[0]).Next? ==> CanRun(Step(m, es[0]).m, es[1..]))
  }

  function Run(m: Machine, es: seq<Event>): (r: Outcome)
    requires m.jmp.Valid() && CanRun(m, es)
    ensures r.Next? ==> r.m.jmp.Valid()
    decreases |es|
  {
    if es == [] then Next(m, None)
    else if Step(m, es[0]).Wild? then Step(m, es[0])
    else Run(Step(m, es[0]).m, es[1..])
  }

  /** Along the whole run the implementation is the ideal machine: no jump goes wild, every
      longjmp lands where the ideal one does, and the states correspond at every point. */
  predicate Faithful(m: Machine, s: Ideal, es: seq<Event>)
    requires m.jmp.Valid() && Legal(s, es)
    decreases |es|
  {
    Refines(m, s) &&
    (es != [] ==>
      && Enabled(m, es[0])
      && Step(m, es[0]).Next?
      && Step(m, es[0]).landed == IdealStep(s, es[0]).1
      && Faithful(Step(m, es[0]).m, IdealStep(s, es[0]).0, es[1..]))
  }

  lemma StartRefines()
    ensures Refines(START, IDEAL_START)
  {
  }

  lemma RefinesCount(m: Machine, s: Ideal)
    requires Refines(m, s)
    ensures ArmedCount(s) == m.jmp.depth
  {
    assert |m.jmp.slots[..m.jmp.depth]| == m.jmp.depth;
  }

  lemma StepRefines(m: Machine, s: Ideal, e: Event)
    requires Refines(m, s) && IdealEnabled(s, e)
    requires ArmedCount(IdealStep(s, e).0) <= JMP_MAX && (e.Return? ==> CleanReturn(s))
    ensures Enabled(m, e)
    ensures var r, i := Step(m, e), IdealStep(s, e); r.Next? && r.landed == i.1 && Refines(r.m, i.0)
  {
    RefinesCount(m, s);
    match e
    case Call(guarded) => CallRefines(m, s, guarded);
    case Return => ReturnRefines(m, s);
    case Arm(ea) =>
      ArmedGrows(s, ea);
      ArmRefines(m, s, ea);
    case Longjmp(ea) => LongjmpRefines(m, s, ea);
  }

  lemma ArmedGrows(s: Ideal, ea: u32)
    requires IdealEnabled(s, Arm(ea))
    ensures ArmedCount(IdealStep(s, Arm(ea)).0) == ArmedCount(s) + 1
  {
    var last := |s.owners| - 1;
    assert IdealStep(s, Arm(ea)).0.owners[..last] == s.owners[..last];
  }

  /** Returning unguarded with a buffer armed leaves the depth too high. */
  lemma UncleanReturnDiverges(m: Machine, s: Ideal)
    requires Refines(m, s) && s.owners != [] && !CleanReturn(s)
    ensures !Refines(Step(m, Return).m, IdealStep(s, Return).0)
  {
    RefinesCount(m, s);
    var m', s' := Step(m, Return).m, IdealStep(s, Return).0;
    if Refines(m', s') {
      RefinesCount(m', s');
      assert false;
    }
  }

  /** The conditions are exact: the implementation tracks the ideal machine through a run if
      and only if the program is disciplined. */
  lemma {:induction false} FaithfulIffDisciplined(m: Machine, s: Ideal, es: seq<Event>)
    requires Refines(m, s) && Legal(s, es)
    ensures Faithful(m, s, es) <==> Disciplined(s, es)
    decreases |es|
  {
    RefinesCount(m, s);
    if es != [] {
      var s' := IdealStep(s, es[0]).0;
      if es[0].Return? && !CleanReturn(s) {
        UncleanReturnDiverges(m, s);
      } else if ArmedCount(s') <= JMP_MAX {
        StepRefines(m, s, es[0]);
        FaithfulIffDisciplined(Step(m, es[0]).m, s', es[1..]);
      } else if Faithful(m, s, es) {
        assert Faithful(Step(m, es[0]).m, s', es[1..]);
        RefinesCount(Step(m, es[0]).m, s');
        assert false;
      }
    }
  }

  /** The claim at the top of src/gt5p_longjmp.cpp: no run of a disciplined program ever jumps
      into a frame that has returned. */
  lemma NeverWild(m: Machine, s: Ideal, es: seq<Event>)
    requires Refines(m, s) && Legal(s, es) && Disciplined(s, es)
    ensures CanRun(m, es) && Run(m, es).Next? && Refines(Run(m, es).m, IdealRun(s, es))
  {
    FaithfulIffDisciplined(m, s, es);
    FaithfulRuns(m, s, es);
  }

  lemma {:induction false} FaithfulRuns(m: Machine, s: Ideal, es: seq<Event>)
    requires m.jmp.Valid() && Legal(s, es) && Faithful(m, s, es)
    ensures CanRun(m, es) && Run(m, es).Next? && Refines(Run(m, es).m, IdealRun(s, es))
    decreases |es|
  {
    if es != [] {
      FaithfulRuns(Step(m, es[0]).m, IdealStep(s, es[0]).0, es[1..]);
    }
  }

  // ---- What a corresponding state says about the array ---------------------------

  /** Every armed slot belongs to a frame on the host stack, and slots are ordered by the
      height of their frames. */
  lemma {:induction false} ArmedSlotsAreLive(frames: seq<Frame>, owners: seq<Owner>, nextId: nat, j: nat, k: nat)
    requires FramesAgree(frames, owners, nextId)
    requires j <= k < |Flat(owners)|
    ensures var lo := FrameIndex(frames, Flat(owners)[j].host.frame);
            var hi := FrameIndex(frames, Flat(owners)[k].host.frame);
            lo.Some? && hi.Some? && lo.value <= hi.value
  {
    var last := |owners| - 1;
    var below := Flat(owners[..last]);
    if k < |below| {
      ArmedSlotsAreLive(frames[..last], owners[..last], frames[last].id, j, k);
      FrameFound(frames, owners, nextId, FrameIndex(frames[..last], below[j].host.frame).value);
      FrameFound(frames, owners, nextId, FrameIndex(frames[..last], below[k].host.frame).value);
    } else if j < |below| {
      ArmedSlotsAreLive(frames[..last], owners[..last], frames[last].id, j, j);
      FrameFound(frames, owners, nextId, FrameIndex(frames[..last], below[j].host.frame).value);
      FrameFound(frames, owners, nextId, last);
    } else {
      FrameFound(frames, owners, nextId, last);
    }
  }

  // ---- A guard restores the depth it found -------------------------------------

  /** A run of the implementation, whatever it does to the armed stack, in which more than h
      frames stay live and no jump goes wild. */
  predicate Contained(m: Machine, es: seq<Event>, h: nat)
    decreases |es|
  {
    && m.jmp.Valid() && |m.frames| > h
    && (es != [] ==>
          && Enabled(m, es[0])
          && Step(m, es[0]).Next?
          && Contained(Step(m, es[0]).m, es[1..], h))
  }

  lemma {:induction false} ContainedRuns(m: Machine, es: seq<Event>, h: nat)
    requires Contained(m, es, h)
    ensures CanRun(m, es) && Run(m, es).Next?
    decreases |es|
  {
    if es != [] {
      ContainedRuns(Step(m, es[0]).m, es[1..], h);
    }
  }

  /** Armed slots and live frames are older than the next activation. */
  predicate Older(m: Machine) {
    && m.jmp.Valid()
    && (forall j :: 0 <= j < m.jmp.depth ==> m.jmp.slots[j].host.frame < m.nextId)
    && (forall i :: 0 <= i < |m.frames| ==> m.frames[i].id < m.nextId)
  }

  /** Armed slots carry aligned keys. */
  predicate Keyed(m: Machine) {
    m.jmp.Valid() && forall j :: 0 <= j < m.jmp.depth ==> m.jmp.slots[j].key % 16 == 0
  }

  /** No event breaks either, disciplined or not. */
  lemma StepKeepsOlder(m: Machine, e: Event)
    requires Older(m) && Enabled(m, e) && Step(m, e).Next?
    ensures Older(Step(m, e).m) && (Keyed(m) ==> Keyed(Step(m, e).m))
  {
    var m' := Step(m, e).m;
    match e
    case Call(_) =>
    case Return =>
    case Arm(ea) =>
      assert Key(ea) % 16 == 0;
      assert forall j :: 0 <= j < m'.jmp.depth && j != PushSlot(m.jmp) ==> m'.jmp.slots[j] == m.jmp.slots[j];
    case Longjmp(ea) =>
      assert forall i :: 0 <= i < |m'.frames| ==> m'.frames[i] == m.frames[i];
  }

  lemma {:induction false} RunKeepsOlder(m: Machine, es: seq<Event>)
    requires Older(m) && Keyed(m) && CanRun(m, es) && Run(m, es).Next?
    ensures Older(Run(m, es).m) && Keyed(Run(m, es).m)
    decreases |es|
  {
    hide Step, Enabled;
    if es != [] {
      StepKeepsOlder(m, es[0]);
      RunKeepsOlder(Step(m, es[0]).m, es[1..]);
    }
  }

  /** Some run leads from start to m. */
  ghost predicate Reaches(start: Machine, m: Machine) {
    start.jmp.Valid() && exists es :: CanRun(start, es) && Run(start, es) == Next(m, None)
  }

  lemma ReachedOlder(m: Machine)
    requires Reaches(START, m)
    ensures Older(m) && Keyed(m)
  {
    var es :| CanRun(START, es) && Run(START, es) == Next(m, None);
    RunKeepsOlder(START, es);
  }

  lemma RefinesOlder(m: Machine, s: Ideal)
    requires Refines(m, s)
    ensures Older(m)
  {
    RefinesCount(m, s);
    forall j | 0 <= j < m.jmp.depth ensures m.jmp.slots[j].host.frame < m.nextId {
      ArmedSlotsAreLive(m.frames, s.owners, m.nextId, j, j);
      assert m.jmp.slots[j] == m.jmp.slots[..m.jmp.depth][j];
      FrameFound(m.frames, s.owners, m.nextId, FrameIndex(m.frames, m.jmp.slots[j].host.frame).value);
    }
    forall i | 0 <= i < |m.frames| ensures m.frames[i].id < m.nextId {
      FrameFound(m.frames, s.owners, m.nextId, i);
    }
  }

  /** m is inside a guarded call made from base: what base had armed is still there, and the
      guarded frame and those above it are newer and saved no smaller depth. */
  predicate Inside(base: Machine, m: Machine) {
    var d, h, id := base.jmp.depth, |base.frames|, base.nextId;
    && m.jmp.Valid() && base.jmp.Valid() && d <= m.jmp.depth
    && m.jmp.slots[..d] == base.jmp.slots[..d]
    && |m.frames| > h && m.frames[..h] == base.frames && m.frames[h] == Frame(id, true, d)
    && (forall i :: h <= i < |m.frames| ==> m.frames[i].id >= id && m.frames[i].saved >= d)
    && m.nextId > id
  }

  /** An arm past the bound reuses slot 15, which base left free. */
  lemma InsideArm(base: Machine, m: Machine, ea: u32)
    requires Older(base) && Inside(base, m) && base.jmp.depth < JMP_MAX && m.frames != []
    ensures Inside(base, Step(m, Arm(ea)).m)
  {
    var d := base.jmp.depth;
    assert PushSlot(m.jmp) >= d;
    assert Step(m, Arm(ea)).m.jmp.slots[..d] == m.jmp.slots[..d];
  }

  /** A slot armed before the guarded call belongs to a frame below it. */
  lemma OldLandsBelow(base: Machine, m: Machine, i: nat, f: nat)
    requires Older(base) && Inside(base, m) && i < base.jmp.depth
    requires FrameIndex(m.frames, m.jmp.slots[i].host.frame) == Some(f)
    ensures f < |base.frames|
  {
    assert m.jmp.slots[..base.jmp.depth][i] == base.jmp.slots[..base.jmp.depth][i];
  }

  lemma InsideLongjmp(base: Machine, m: Machine, ea: u32)
    requires Older(base) && Inside(base, m)
    requires var r := Step(m, Longjmp(ea)); r.Next? && |r.m.frames| > |base.frames|
    ensures Inside(base, Step(m, Longjmp(ea)).m)
  {
    var d, h := base.jmp.depth, |base.frames|;
    var r := Step(m, Longjmp(ea));
    if FireMatch(m.jmp, ea).Some? {
      var i := FireMatch(m.jmp, ea).value;
      var f := FrameIndex(m.frames, m.jmp.slots[i].host.frame).value;
      if i < d {
        OldLandsBelow(base, m, i, f);
        assert false;
      }
      assert r.m.frames == m.frames[..f + 1];
      assert m.frames[..f + 1][..h] == m.frames[..h];
    }
  }

  lemma InsideStep(base: Machine, m: Machine, e: Event)
    requires Older(base) && Inside(base, m) && Enabled(m, e) && base.jmp.depth < JMP_MAX
    requires Step(m, e).Next? && |Step(m, e).m.frames| > |base.frames|
    ensures Inside(base, Step(m, e).m)
  {
    var h := |base.frames|;
    match e
    case Call(_) =>
      assert Step(m, e).m.frames[..h] == m.frames[..h];
    case Return =>
      assert Step(m, e).m.frames[..h] == m.frames[..h];
    case Arm(ea) => InsideArm(base, m, ea);
    case Longjmp(ea) => InsideLongjmp(base, m, ea);
  }

  lemma {:induction false} InsideRun(base: Machine, m: Machine, es: seq<Event>)
    requires Older(base) && base.jmp.depth < JMP_MAX && Inside(base, m) && Contained(m, es, |base.frames|)
    ensures CanRun(m, es) && Run(m, es).Next? && Inside(base, Run(m, es).m)
    decreases |es|
  {
    hide Inside, Older, Step, Enabled;
    ContainedRuns(m, es, |base.frames|);
    if es != [] {
      InsideFrames(base, m);
      ContainedAbove(Step(m, es[0]).m, es[1..], |base.frames|);
      InsideStep(base, m, es[0]);
      InsideRun(base, Step(m, es[0]).m, es[1..]);
    }
  }

  lemma ContainedAbove(m: Machine, es: seq<Event>, h: nat)
    requires Contained(m, es, h)
    ensures |m.frames| > h
  {
  }

  lemma InsideFrames(base: Machine, m: Machine)
    requires Inside(base, m)
    ensures m.jmp.Valid()
  {
  }

  /** back has the frames, the depth and the armed slots of m. */
  predicate SameArmed(m: Machine, back: Machine) {
    && m.jmp.Valid() && back.jmp.Valid()
    && back.frames == m.frames && back.jmp.depth == m.jmp.depth
    && back.jmp.slots[..back.jmp.depth] == m.jmp.slots[..m.jmp.depth]
  }

  /** A guarded call in m that goes through es runs, and if it then returns, the frames and the
      armed stack are as it found them. */
  predicate GuardRestores(m: Machine, es: seq<Event>)
    requires m.jmp.Valid()
  {
    var m1 := Step(m, Call(true)).m;
    Contained(m1, es, |m.frames|) ==>
      && CanRun(m1, es) && Run(m1, es).Next?
      && (|Run(m1, es).m.frames| == |m.frames| + 1 ==> SameArmed(m, Step(Run(m1, es).m, Return).m))
  }

  /** A guarded function that returns leaves the armed stack exactly as it found it, whatever
      happened before the call or inside it: buffers armed, more of them than there are slots,
      frames jumped over, callees that returned unguarded with a buffer still armed.  All it
      needs is that a slot was free when it was called. */
  lemma GuardRestoresDepth(m: Machine, es: seq<Event>)
    requires Older(m) && m.jmp.depth < JMP_MAX
    ensures GuardRestores(m, es)
  {
    var m1 := Step(m, Call(true)).m;
    if Contained(m1, es, |m.frames|) {
      assert m1.frames[..|m.frames|] == m.frames;
      assert Inside(m, m1);
      InsideRun(m, m1, es);
    }
  }

  /** A guarded function called in a full state, whose callee arms, is jumped back into through
      slot 15 and returns: it returns one buffer short, although no jump goes wild. */
  lemma GuardNeedsFreeSlot(m: Machine, guarded: bool, ea: u32, old15: u32)
    requires m.jmp.Valid() && m.jmp.depth == JMP_MAX
    requires Key(old15) == m.jmp.slots[JMP_MAX - 1].key
    ensures var m1, es := Step(m, Call(true)).m, [Call(guarded), Arm(ea), Longjmp(old15), Return];
            && Contained(m1, es, |m.frames|) && CanRun(m1, es) && Run(m1, es).Next?
            && |Run(m1, es).m.frames| == |m.frames| + 1
            && var back := Step(Run(m1, es).m, Return).m;
               back.frames == m.frames && back.jmp.depth == JMP_MAX - 1
  {
    var es := [Call(guarded), Arm(ea), Longjmp(old15), Return];
    var m1 := Step(m, Call(true)).m;
    assert m1.jmp == m.jmp && m1.frames[..|m.frames|] == m.frames;
    var m2, m3, m4, m5 := ArmAndJumpBack(m1, guarded, ea, old15);
    assert Step(m5, Return).m.frames == m.frames && Step(m5, Return).m.jmp.depth == JMP_MAX - 1;
    hide Step, Enabled;
    RunFour(m1, m2, m3, m4, es);
    ContainedFour(m1, m2, m3, m4, m5, es, |m.frames|);
  }

  /** In a full state a callee arms, fires slot 15, which now leads to itself, and returns. */
  lemma ArmAndJumpBack(m1: Machine, guarded: bool, ea: u32, old15: u32)
    returns (m2: Machine, m3: Machine, m4: Machine, m5: Machine)
    requires m1.jmp.Valid() && m1.jmp.depth == JMP_MAX
    requires Key(old15) == m1.jmp.slots[JMP_MAX - 1].key
    ensures Step(m1, Call(guarded)) == Next(m2, None)
    ensures m2.jmp.Valid() && Enabled(m2, Arm(ea)) && Step(m2, Arm(ea)) == Next(m3, None)
    ensures m3.jmp.Valid() && Enabled(m3, Longjmp(old15))
            && Step(m3, Longjmp(old15)).Next? && Step(m3, Longjmp(old15)).m == m4
    ensures m4.jmp.Valid() && Enabled(m4, Return) && Step(m4, Return) == Next(m5, None)
    ensures |m2.frames| == |m3.frames| == |m4.frames| == |m1.frames| + 1
    ensures m5.frames == m1.frames && m5.jmp.depth == JMP_MAX - 1 && m5.jmp.Valid()
  {
    m2 := Step(m1, Call(guarded)).m;
    m3 := Step(m2, Arm(ea)).m;
    var host := Landing(m2.frames[|m2.frames| - 1].id, m2.nextArm);
    assert m3.jmp == SetHost(m1.jmp, JMP_MAX - 1, host) && m3.frames == m2.frames;
    assert FireMatch(m3.jmp, old15) == Some(JMP_MAX - 1);
    assert FrameIndex(m3.frames, host.frame) == Some(|m3.frames| - 1);
    assert m3.frames[..|m3.frames|] == m3.frames;
    m4 := Step(m3, Longjmp(old15)).m;
    assert m4.frames == m3.frames && m4.jmp.depth == JMP_MAX - 1;
    m5 := Step(m4, Return).m;
    assert m5.frames == m1.frames;
  }

  lemma ContainedFour(m: Machine, m1: Machine, m2: Machine, m3: Machine, m4: Machine, es: seq<Event>, h: nat)
    requires m.jmp.Valid() && |es| == 4
    requires Enabled(m, es[0]) && Step(m, es[0]) == Next(m1, None)
    requires Enabled(m1, es[1]) && Step(m1, es[1]) == Next(m2, None)
    requires Enabled(m2, es[2]) && Step(m2, es[2]).Next? && Step(m2, es[2]).m == m3
    requires Enabled(m3, es[3]) && Step(m3, es[3]) == Next(m4, None)
    requires |m.frames| > h && |m1.frames| > h && |m2.frames| > h && |m3.frames| > h && |m4.frames| > h
    ensures Contained(m, es, h)
  {
    hide Step, Enabled;
    assert Contained(m4, es[4..], h);
    assert es[3..][1..] == es[4..] && Contained(m3, es[3..], h);
    assert es[2..][1..] == es[3..] && Contained(m2, es[2..], h);
    assert es[1..][1..] == es[2..] && Contained(m1, es[1..], h);
  }

  /** So in every state that a run from thread start leads to, after any breach of the
      discipline too, the guard protects against all callees exactly when a slot is free. */
  lemma GuardRestoresIffFreeSlot(m: Machine)
    requires Reaches(START, m)
    ensures m.jmp.Valid()
    ensures (forall es :: GuardRestores(m, es)) <==> m.jmp.depth < JMP_MAX
  {
    ReachedOlder(m);
    hide GuardRestores, Reaches, Older;
    if m.jmp.depth < JMP_MAX {
      forall es ensures GuardRestores(m, es) {
        GuardRestoresDepth(m, es);
      }
    } else {
      FullSlotNotRestored(m);
    }
  }

  lemma FullSlotNotRestored(m: Machine)
    requires Keyed(m) && m.jmp.depth == JMP_MAX
    ensures exists es :: !GuardRestores(m, es)
  {
    hide Run, CanRun, Contained, Step, Enabled;
    var top := m.jmp.slots[JMP_MAX - 1].key;
    assert Key(top) == top;
    GuardNeedsFreeSlot(m, false, 0, top);
    assert !GuardRestores(m, [Call(false), Arm(0), Longjmp(top), Return]);
  }

  // ---- Without the discipline ---------------------------------------------------

  /** A longjmp goes wild exactly when its topmost match names no live frame. */
  lemma WildIffDead(m: Machine, ea: u32)
    requires m.jmp.Valid() && m.frames != []
    ensures Step(m, Longjmp(ea)).Wild? <==>
            var i := FireMatch(m.jmp, ea);
            i.Some? && FrameIndex(m.frames, m.jmp.slots[i.value].host.frame).None?
  {
  }

  lemma DeadId(frames: seq<Frame>, owners: seq<Owner>, nextId: nat, id: nat)
    requires FramesAgree(frames, owners, nextId) && id >= nextId
    ensures FrameIndex(frames, id) == None
  {
    if FrameIndex(frames, id).Some? {
      FrameFound(frames, owners, nextId, FrameIndex(frames, id).value);
      assert false;
    }
  }

  /** The scan of a stack whose top part belongs to one owner stops in that part exactly when
      the owner has a buffer with the key. */
  lemma MatchInTop(st: Stack, low: nat, top: Owner, key: u32)
    requires st.Valid() && st.depth == low + |top.armed| && st.slots[low..st.depth] == Slots(top)
    ensures (exists a :: a in top.armed && a.key == key) <==>
            TopMatch(st, key, st.depth).Some? && TopMatch(st, key, st.depth).value >= low
    ensures forall i :: low <= i < st.depth ==> st.slots[i].host.frame == top.id
  {
    hide TopMatch;
    forall i | low <= i < st.depth
      ensures st.slots[i] == Slot(Landing(top.id, top.armed[i - low].arm), top.armed[i - low].key)
    {
      assert st.slots[low..st.depth][i - low] == st.slots[i];
    }
    if a :| a in top.armed && a.key == key {
      var j :| 0 <= j < |top.armed| && top.armed[j] == a;
      assert st.slots[low + j].key == key;
    }
    var i := TopMatch(st, key, st.depth);
    if i.Some? && i.value >= low {
      assert top.armed[i.value - low].key == key;
    }
  }

  /** Every unclean return, from any state that still matches the ideal machine: the longjmps
      that then enter the dead frame are exactly those to a buffer it had armed. */
  lemma UncleanReturnWildIff(m: Machine, s: Ideal, ea: u32)
    requires Refines(m, s) && |s.owners| >= 2 && !CleanReturn(s)
    ensures var after, top := Step(m, Return).m, s.owners[|s.owners| - 1];
            && Enabled(after, Longjmp(ea))
            && (Step(after, Longjmp(ea)).Wild? <==> exists a :: a in top.armed && a.key == Key(ea))
  {
    var last := |s.owners| - 1;
    var top, below := s.owners[last], s.owners[..last];
    var after, low := Step(m, Return).m, |Flat(s.owners[..last])|;
    assert after.jmp == m.jmp && after.frames == m.frames[..last];
    RefinesCount(m, s);
    SplitStack(m.jmp, Flat(below), Slots(top));
    WildIffDead(after, ea);
    MatchInTop(m.jmp, low, top, Key(ea));
    DeadId(after.frames, below, top.id, top.id);
    MatchBelow(after, below, top.id, ea);
  }

  lemma SplitStack(st: Stack, low: seq<Slot>, high: seq<Slot>)
    requires st.Valid() && st.slots[..st.depth] == low + high
    ensures st.depth == |low| + |high| && st.slots[..|low|] == low && st.slots[|low|..st.depth] == high
  {
    assert |st.slots[..st.depth]| == st.depth;
    assert st.slots[..|low|] == st.slots[..st.depth][..|low|];
    assert st.slots[|low|..st.depth] == st.slots[..st.depth][|low|..];
  }

  /** A match below the top part belongs to a live frame. */
  lemma MatchBelow(m: Machine, owners: seq<Owner>, nextId: nat, ea: u32)
    requires m.jmp.Valid() && FramesAgree(m.frames, owners, nextId)
    requires |Flat(owners)| <= m.jmp.depth && m.jmp.slots[..|Flat(owners)|] == Flat(owners)
    ensures var i := FireMatch(m.jmp, ea);
            i.Some? && i.value < |Flat(owners)| ==> FrameIndex(m.frames, m.jmp.slots[i.value].host.frame).Some?
  {
    hide FireMatch, FramesAgree, Flat;
    var i := FireMatch(m.jmp, ea);
    if i.Some? && i.value < |Flat(owners)| {
      ArmedSlotsAreLive(m.frames, owners, nextId, i.value, i.value);
      assert m.jmp.slots[..|Flat(owners)|][i.value] == m.jmp.slots[i.value];
    }
  }

  /** Arming past the bound in whichever frame is on top of a full state, and returning from it:
      a frame that had armed nothing leaves slot 15 aimed at itself, a guarded one with buffers
      of its own leaves no trace, an unguarded one leaves all of them. */
  lemma ArmPastBoundWildIff(m: Machine, s: Ideal, ea: u32, target: u32)
    requires Refines(m, s) && m.jmp.depth == JMP_MAX && |s.owners| >= 2
    ensures var after, top := Step(Step(m, Arm(ea)).m, Return).m, s.owners[|s.owners| - 1];
            && after.jmp.Valid() && Enabled(after, Longjmp(target))
            && (Step(after, Longjmp(target)).Wild? <==>
                  if top.armed == [] then Key(target) == m.jmp.slots[JMP_MAX - 1].key
                  else !top.guarded && exists a :: a in top.armed && a.key == Key(target))
  {
    var last := |s.owners| - 1;
    var top, below := s.owners[last], s.owners[..last];
    var host := Landing(top.id, m.nextArm);
    var after, low := Step(Step(m, Arm(ea)).m, Return).m, Flat(s.owners[..last]);
    var full := SetHost(m.jmp, JMP_MAX - 1, host);
    RefinesCount(m, s);
    SplitStack(m.jmp, low, Slots(top));
    assert after.frames == m.frames[..last];
    assert after.jmp == if top.guarded then Unwind(full, |low|) else full;
    WildIffDead(after, target);
    DeadId(after.frames, below, top.id, top.id);
    if top.armed == [] {
      SlotFifteen(after, low, top.id, below, target);
    } else {
      assert full.slots[..|low|] == m.jmp.slots[..|low|];
      MatchBelow(after, below, top.id, target);
      if !top.guarded {
        var renamed := top.(armed := top.armed[|top.armed| - 1 := top.armed[|top.armed| - 1].(arm := m.nextArm)]);
        assert full.slots[|low|..full.depth] == Slots(renamed);
        MatchInTop(full, |low|, renamed, Key(target));
        SameKeys(top.armed, renamed.armed, Key(target));
      }
    }
  }

  lemma SameKeys(a: seq<Armed>, b: seq<Armed>, key: u32)
    requires |a| == |b| && forall i :: 0 <= i < |a| ==> a[i].key == b[i].key
    ensures (exists x :: x in a && x.key == key) <==> (exists x :: x in b && x.key == key)
  {
    if x :| x in a && x.key == key {
      var i :| 0 <= i < |a| && a[i] == x;
      assert b[i] in b && b[i].key == key;
    }
    if x :| x in b && x.key == key {
      var i :| 0 <= i < |b| && b[i] == x;
      assert a[i] in a && a[i].key == key;
    }
  }

  /** Slot 15 aimed at a dead frame, the rest at live ones. */
  lemma SlotFifteen(m: Machine, flat: seq<Slot>, dead: nat, owners: seq<Owner>, ea: u32)
    requires m.jmp.Valid() && m.jmp.depth == JMP_MAX && m.frames != []
    requires FramesAgree(m.frames, owners, dead) && flat == Flat(owners) && |flat| == JMP_MAX
    requires m.jmp.slots[..JMP_MAX - 1] == flat[..JMP_MAX - 1] && m.jmp.slots[JMP_MAX - 1].host.frame == dead
    ensures Step(m, Longjmp(ea)).Wild? <==> Key(ea) == m.jmp.slots[JMP_MAX - 1].key
  {
    hide Flat, FramesAgree, Key;
    WildIffDead(m, ea);
    DeadId(m.frames, owners, dead, dead);
    var i := FireMatch(m.jmp, ea);
    if i.Some? && i.value < JMP_MAX - 1 {
      assert m.jmp.slots[..JMP_MAX - 1][i.value] == flat[..JMP_MAX - 1][i.value];
      ArmedSlotsAreLive(m.frames, owners, dead, i.value, i.value);
    }
  }

  /** Arming past the bound, from every full state: once the arming callee has returned, the
      longjmps that enter its dead frame are exactly those to the buffer slot 15 was armed for. */
  lemma OverflowWildIff(m: Machine, s: Ideal, guarded: bool, ea: u32, target: u32)
    requires Refines(m, s) && m.jmp.depth == JMP_MAX
    ensures var es := [Call(guarded), Arm(ea), Return, Longjmp(target)];
            CanRun(m, es) && (Run(m, es).Wild? <==> Key(target) == m.jmp.slots[JMP_MAX - 1].key)
  {
    var es := [Call(guarded), Arm(ea), Return, Longjmp(target)];
    RefinesCount(m, s);
    var host := Landing(m.nextId, m.nextArm);
    var m1 := Step(m, es[0]).m;
    var m2 := Step(m1, es[1]).m;
    var m3 := Step(m2, es[2]).m;
    assert m1.frames[..|m.frames|] == m.frames == m3.frames;
    assert m3.jmp == SetHost(m.jmp, JMP_MAX - 1, host);
    RunFour(m, m1, m2, m3, es);
    assert m3.jmp.slots[..JMP_MAX - 1] == m.jmp.slots[..m.jmp.depth][..JMP_MAX - 1];
    SlotFifteen(m3, Flat(s.owners), m.nextId, s.owners, target);
  }

  lemma RunFour(m: Machine, m1: Machine, m2: Machine, m3: Machine, es: seq<Event>)
    requires m.jmp.Valid() && |es| == 4
    requires Enabled(m, es[0]) && Step(m, es[0]).Next? && Step(m, es[0]).m == m1
    requires Enabled(m1, es[1]) && Step(m1, es[1]).Next? && Step(m1, es[1]).m == m2
    requires Enabled(m2, es[2]) && Step(m2, es[2]).Next? && Step(m2, es[2]).m == m3
    requires Enabled(m3, es[3])
    ensures CanRun(m, es)
    ensures Run(m, es) == if Step(m3, es[3]).Wild? then Step(m3, es[3]) else Next(Step(m3, es[3]).m, None)
  {
    hide Step, Enabled;
    RunStep(m3, es[3], []);
    RunStep(m2, es[2], [es[3]]);
    RunStep(m1, es[1], [es[2], es[3]]);
    RunStep(m, es[0], [es[1], es[2], es[3]]);
    assert [es[3]] + [] == [es[3]] && [es[2]] + [es[3]] == [es[2], es[3]];
    assert [es[1]] + [es[2], es[3]] == [es[1], es[2], es[3]] && [es[0]] + [es[1], es[2], es[3]] == es;
  }

  lemma RunStep(m: Machine, e: Event, rest: seq<Event>)
    requires m.jmp.Valid() && Enabled(m, e)
    requires Step(m, e).Next? ==> CanRun(Step(m, e).m, rest)
    ensures CanRun(m, [e] + rest)
    ensures Run(m, [e] + rest) == if Step(m, e).Wild? then Step(m, e) else Run(Step(m, e).m, rest)
  {
    assert ([e] + rest)[1..] == rest;
  }

  /** n nested functions each arm a buffer, the last call arms one more and returns, and the
      program then fires the buffer the others armed. */
  function NestAndFire(n: nat): seq<Event> {
    if n == 0 then [Call(true), Arm(32), Return, Longjmp(16)]
    else [Call(true)] + ([Arm(16)] + NestAndFire(n - 1))
  }

  /** One level of the nest: a call and an arm in a state with room. */
  lemma NestOne(m: Machine, s: Ideal) returns (m1: Machine, m2: Machine, s2: Ideal)
    requires Refines(m, s) && m.jmp.depth < JMP_MAX
    ensures Step(m, Call(true)) == Next(m1, None)
    ensures Enabled(m1, Arm(16)) && Step(m1, Arm(16)) == Next(m2, None)
    ensures Refines(m2, s2) && m2.jmp.depth == m.jmp.depth + 1 && m2.frames != []
    ensures m2.jmp.slots[m.jmp.depth].key == 16
  {
    m1 := Step(m, Call(true)).m;
    var s1 := IdealStep(s, Call(true)).0;
    CallRefines(m, s, true);
    m2 := Step(m1, Arm(16)).m;
    s2 := IdealStep(s1, Arm(16)).0;
    ArmRefines(m1, s1, 16);
  }

  lemma {:induction false} NestGoesWild(m: Machine, s: Ideal, n: nat)
    requires Refines(m, s) && m.jmp.depth + n == JMP_MAX
    requires m.jmp.depth > 0 ==> m.jmp.slots[m.jmp.depth - 1].key == 16
    ensures CanRun(m, NestAndFire(n)) && Run(m, NestAndFire(n)).Wild?
    decreases n
  {
    hide Step, Enabled, FramesAgree, Flat;
    if n == 0 {
      assert Key(16) == 16;
      OverflowWildIff(m, s, true, 32, 16);
    } else {
      var m1, m2, s2 := NestOne(m, s);
      NestGoesWild(m2, s2, n - 1);
      RunStep(m1, Arm(16), NestAndFire(n - 1));
      RunStep(m, Call(true), [Arm(16)] + NestAndFire(n - 1));
    }
  }

  /** While there is room, the callee's buffer is disarmed again and the fired one is found. */
  lemma CalleeFits(m: Machine, s: Ideal)
    requires Refines(m, s) && m.jmp.depth < JMP_MAX && m.frames != []
    ensures CanRun(m, NestAndFire(0)) && Run(m, NestAndFire(0)).Next?
  {
    var es := NestAndFire(0);
    var m1, s1 := Step(m, es[0]).m, IdealStep(s, es[0]).0;
    CallRefines(m, s, true);
    var m2, s2 := Step(m1, es[1]).m, IdealStep(s1, es[1]).0;
    ArmRefines(m1, s1, 32);
    assert CleanReturn(s2);
    var m3, s3 := Step(m2, es[2]).m, IdealStep(s2, es[2]).0;
    ReturnRefines(m2, s2);
    assert m3.frames[..] == m.frames;
    LongjmpRefines(m3, s3, 16);
    hide Refines, Step, IdealStep;
    RunFour(m, m1, m2, m3, es);
  }

  lemma {:induction false} NestFits(m: Machine, s: Ideal, n: nat)
    requires Refines(m, s) && m.jmp.depth + n < JMP_MAX && (n == 0 ==> m.frames != [])
    ensures CanRun(m, NestAndFire(n)) && Run(m, NestAndFire(n)).Next?
    decreases n
  {
    hide Step, Enabled, FramesAgree, Flat;
    if n == 0 {
      CalleeFits(m, s);
    } else {
      var m1, m2, s2 := NestOne(m, s);
      NestFits(m2, s2, n - 1);
      RunStep(m1, Arm(16), NestAndFire(n - 1));
      RunStep(m, Call(true), [Arm(16)] + NestAndFire(n - 1));
    }
  }

  /** Fifteen nested arming calls and one more arm sixteen buffers at once, and the longjmp finds
      its buffer: sixteen is enough for sixteen. */
  lemma SixteenBuffersFit()
    ensures CanRun(START, NestAndFire(15)) && Run(START, NestAndFire(15)).Next?
  {
    hide NestAndFire, Refines, Run, CanRun;
    StartRefines();
    NestFits(START, IDEAL_START, 15);
  }

  /** So without the bound the claim fails: sixteen nested arming calls, a seventeenth, and one
      longjmp from thread start reach a dead frame. */
  lemma SeventeenBuffersGoWild()
    ensures CanRun(START, NestAndFire(16)) && Run(START, NestAndFire(16)).Wild?
  {
    hide NestAndFire, Refines, Run, CanRun;
    StartRefines();
    NestGoesWild(START, IDEAL_START, 16);
  }
}
