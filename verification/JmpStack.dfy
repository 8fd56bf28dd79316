/** The armed-buffer stack of src/gt5p_longjmp.cpp: a fixed array of slots and a depth,
    updated by push, unwind and fire. */
module JmpStack {
  import opened Bytes
  import opened Wrappers

  const JMP_MAX: nat := 16

  /** What a host jmp_buf holds, as far as control goes: the frame activation that ran
      setjmp, and which of its setjmp calls it was. */
  datatype Landing = Landing(frame: nat, arm: nat)

  datatype Slot = Slot(host: Landing, key: u32)

  /** The contents of the array and the depth. */
  datatype Stack = Stack(slots: seq<Slot>, depth: nat) {
    predicate Valid() {
      |slots| == JMP_MAX && depth <= JMP_MAX
    }
  }

  /** The guest aligns the buffer up to 16 in 32-bit arithmetic, wrapping at the top. */
  function Key(ea: u32): u32 {
    var x := (ea + 15) % 0x1_0000_0000;
    x - x % 16
  }

  /** The key is the one multiple of 16 less than 16 above the buffer, modulo 2^32. */
  lemma KeyIsAlignedUp(ea: u32, key: u32)
    ensures key == Key(ea) <==> key % 16 == 0 && (key - ea) % 0x1_0000_0000 < 16
  {
  }

  function PushSlot(st: Stack): (slot: nat)
    requires st.Valid()
    ensures slot < JMP_MAX
  {
    if st.depth >= JMP_MAX then JMP_MAX - 1 else st.depth
  }

  function Push(st: Stack, ea: u32): (r: Stack)
    requires st.Valid()
    ensures r.Valid()
  {
    if st.depth >= JMP_MAX then st
    else Stack(st.slots[st.depth := st.slots[st.depth].(key := Key(ea))], st.depth + 1)
  }

  /** setjmp storing its landing point into a slot. */
  function SetHost(st: Stack, slot: nat, host: Landing): (r: Stack)
    requires st.Valid() && slot < JMP_MAX
    ensures r.Valid()
  {
    st.(slots := st.slots[slot := st.slots[slot].(host := host)])
  }

  function Unwind(st: Stack, depth: nat): (r: Stack)
    requires st.Valid()
    ensures r.Valid()
  {
    if depth < st.depth then st.(depth := depth) else st
  }

  /** The topmost slot below `n` with this key. */
  function TopMatch(st: Stack, key: u32, n: nat): (r: Option<nat>)
    requires st.Valid() && n <= JMP_MAX
    ensures r.Some? ==> r.value < n && st.slots[r.value].key == key
    ensures r.Some? ==> forall j :: r.value < j < n ==> st.slots[j].key != key
    ensures r.None? ==> forall j :: 0 <= j < n ==> st.slots[j].key != key
  {
    if n == 0 then None
    else if st.slots[n - 1].key == key then Some(n - 1)
    else TopMatch(st, key, n - 1)
  }

  function FireMatch(st: Stack, ea: u32): Option<nat>
    requires st.Valid()
  {
    TopMatch(st, Key(ea), st.depth)
  }

  /** The thread-local array g_jmp and counter g_depth of one host thread. */
  class Buffers {
    var slots: array<Slot>
    var depth: nat

    ghost predicate Valid()
      reads this, slots
    {
      slots.Length == JMP_MAX && depth <= JMP_MAX
    }

    ghost function View(): (st: Stack)
      requires Valid()
      reads this, slots
      ensures st.Valid()
    {
      Stack(slots[..], depth)
    }

    constructor ()
      ensures Valid() && fresh(slots) && View().depth == 0
    {
      slots := new Slot[JMP_MAX](_ => Slot(Landing(0, 0), 0));
      depth := 0;
    }

    /** Hands out the slot whose host buffer the caller passes to setjmp. */
    method JmpPush(bufEa: u32) returns (slot: nat)
      requires Valid()
      modifies this`depth, slots
      ensures Valid() && slots == old(slots)
      ensures View() == Push(old(View()), bufEa)
      ensures slot == PushSlot(old(View()))
    {
      if depth >= JMP_MAX {
        return JMP_MAX - 1;
      }
      slot := depth;
      depth := depth + 1;
      slots[slot] := slots[slot].(key := Key(bufEa));
    }

    /** The call site's setjmp on the slot's host buffer. */
    method SetJmp(slot: nat, host: Landing)
      requires Valid() && slot < JMP_MAX
      modifies slots
      ensures Valid()
      ensures View() == SetHost(old(View()), slot, host)
    {
      slots[slot] := slots[slot].(host := host);
    }

    method JmpDepth() returns (d: nat)
      requires Valid()
      ensures d == View().depth
    {
      d := depth;
    }

    method JmpUnwind(d: nat)
      requires Valid()
      modifies this`depth
      ensures Valid()
      ensures View() == Unwind(old(View()), d)
    {
      if d < depth {
        depth := d;
      }
    }

    /** Where the host longjmp goes, if any armed slot carries the buffer's key. */
    method JmpFire(bufEa: u32) returns (target: Option<Landing>)
      requires Valid()
      modifies this`depth
      ensures Valid() && View().slots == old(View().slots)
      ensures target.None? ==> View() == old(View())
                               && forall j :: 0 <= j < depth ==> slots[j].key != Key(bufEa)
      ensures target.Some? ==> depth < old(depth) && target.value == slots[depth].host
                               && slots[depth].key == Key(bufEa)
                               && forall j :: depth < j < old(depth) ==> slots[j].key != Key(bufEa)
      ensures match FireMatch(old(View()), bufEa)
              case None => target.None?
              case Some(i) => depth == i && target == Some(slots[i].host)
    {
      var key := Key(bufEa);
      var i := depth;
      while i > 0
        invariant Valid() && 0 <= i <= depth == old(depth)
        invariant forall j :: i <= j < depth ==> slots[j].key != key
      {
        i := i - 1;
        if slots[i].key == key {
          depth := i;
          return Some(slots[i].host);
        }
      }
      return None;
    }
  }
}
