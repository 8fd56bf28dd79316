/** The tick pacing of `present_thread` in src/gt5p_present.cpp: vblank ticks are due every
    16 ms of real time, at most 240 are fired per pass, and a pass that fires that many
    resynchronises to the clock. */
module Ticker {

  const PERIOD: nat := 16

  const MAX_FIRED: nat := 240

  /** What one thread has done so far. */
  datatype Progress = Progress(next: int, total: nat, resyncs: nat)

  /** Ticks due at `now` when the next one is due at `next`. */
  function Due(next: int, now: int): nat {
    if now < next then 0 else (now - next) / PERIOD + 1
  }

  function Fired(next: int, now: int): nat {
    if Due(next, now) < MAX_FIRED then Due(next, now) else MAX_FIRED
  }

  function AfterPass(p: Progress, now: int): Progress {
    var fired := Fired(p.next, now);
    if fired >= MAX_FIRED then Progress(now, p.total + fired, p.resyncs + 1)
    else Progress(p.next + PERIOD * fired, p.total + fired, p.resyncs)
  }

  /** The thread started at t0, after passes that read these clock values. */
  function AfterPasses(t0: int, clock: seq<int>): Progress {
    if clock == [] then Progress(t0, 0, 0) else AfterPass(AfterPasses(t0, clock[..|clock| - 1]), clock[|clock| - 1])
  }

  class PresentThread {
    var nextTick: int
    ghost var progress: Progress

    ghost predicate Valid()
      reads this
    {
      nextTick == progress.next
    }

    constructor (t0: int)
      ensures Valid() && progress == AfterPasses(t0, [])
    {
      nextTick := t0;
      progress := Progress(t0, 0, 0);
    }

    /** One pass of the outer loop; `fired` is the number of vblank ticks sent. */
    method Pass(now: int) returns (fired: nat)
      requires Valid()
      modifies this
      ensures Valid() && progress == AfterPass(old(progress), now)
      ensures progress.total == old(progress.total) + fired && fired <= 240
      ensures progress.resyncs == old(progress.resyncs) + if fired == 240 then 1 else 0
      ensures nextTick == if fired == 240 then now else old(nextTick) + 16 * fired
      ensures fired > 0 ==> old(nextTick) + 16 * (fired - 1) <= now
      ensures fired < 240 ==> now < nextTick
    {
      fired := 0;
      ghost var first := nextTick;
      while now - nextTick >= 0 && fired < MAX_FIRED
        invariant fired <= MAX_FIRED && nextTick == first + PERIOD * fired
        invariant fired > 0 ==> now >= nextTick - PERIOD
        invariant progress == old(progress)
        decreases MAX_FIRED - fired
      {
        nextTick := nextTick + PERIOD;
        fired := fired + 1;
      }
      if fired >= MAX_FIRED {
        nextTick := now;
      }
      progress := AfterPass(progress, now);
    }
  }

  /** The last clock reading, t0 before the first. */
  function Latest(t0: int, clock: seq<int>): int {
    if clock == [] then t0 else clock[|clock| - 1]
  }

  predicate NonDecreasing(t0: int, clock: seq<int>) {
    clock != [] ==>
      var earlier := clock[..|clock| - 1];
      NonDecreasing(t0, earlier) && Latest(t0, earlier) <= clock[|clock| - 1]
  }

  /** Where the next tick stands relative to the last clock reading and the ticks sent. */
  lemma {:induction false} Pacing(t0: int, clock: seq<int>)
    requires NonDecreasing(t0, clock)
    ensures var p, now := AfterPasses(t0, clock), Latest(t0, clock);
            && p.next <= now + PERIOD && t0 <= now
            && PERIOD * p.total <= p.next - t0 + PERIOD * p.resyncs
            && (p.resyncs == 0 ==> p.next == t0 + PERIOD * p.total)
            && (p.resyncs == 0 && clock != [] ==> p.next > now)
  {
    if clock != [] {
      Pacing(t0, clock[..|clock| - 1]);
    }
  }

  /** On any clock that never runs backwards, the ticks sent after each pass are exactly those
      due since the start unless the thread had to resynchronise, and each resynchronisation
      adds at most one. */
  lemma TicksFollowClock(t0: int, clock: seq<int>)
    requires NonDecreasing(t0, clock) && clock != []
    ensures var p, due := AfterPasses(t0, clock), Due(t0, Latest(t0, clock));
            (p.resyncs == 0 ==> p.total == due) && p.total <= due + p.resyncs
  {
    Pacing(t0, clock);
  }

  /** Due counts the instants next, next + 16, ... up to now. */
  lemma DueCounts(next: int, now: int, n: nat)
    ensures Due(next, now) == n <==> (n > 0 ==> next + 16 * (n - 1) <= now) && now < next + 16 * n
  {
  }

  lemma Resyncs(t0: int, clock: seq<int>, now: int)
    ensures var p, q := AfterPasses(t0, clock), AfterPasses(t0, clock + [now]);
            && q == AfterPass(p, now) && p.resyncs <= q.resyncs <= p.resyncs + 1
            && (q.resyncs > p.resyncs ==> q.next == now && q.total == p.total + 240)
  {
    assert (clock + [now])[..|clock|] == clock;
  }

  lemma {:induction false} PassesResync(t0: int, clock: seq<int>, later: seq<int>)
    ensures AfterPasses(t0, clock).resyncs <= AfterPasses(t0, clock + later).resyncs
  {
    if later == [] {
      assert clock + later == clock;
    } else {
      var last := |later| - 1;
      PassesResync(t0, clock, later[..last]);
      Resyncs(t0, clock + later[..last], later[last]);
      assert clock + later == clock + later[..last] + [later[last]];
    }
  }

  /** After a pass that resynchronised at clock value c, and until the next one that does, the
      ticks sent are exactly those due from c on. */
  lemma {:induction false} TicksFollowResync(t0: int, clock: seq<int>, c: int, later: seq<int>)
    requires AfterPasses(t0, clock + [c]).resyncs > AfterPasses(t0, clock).resyncs
    requires AfterPasses(t0, clock + [c] + later).resyncs == AfterPasses(t0, clock + [c]).resyncs
    requires NonDecreasing(c, later)
    ensures var p, q, now := AfterPasses(t0, clock + [c]), AfterPasses(t0, clock + [c] + later), Latest(c, later);
            && c <= now && q.next == c + 16 * (q.total - p.total) && q.next <= now + 16
            && (later != [] ==> q.next > now && q.total - p.total == Due(c, now))
    decreases |later|
  {
    hide AfterPasses, AfterPass;
    Resyncs(t0, clock, c);
    if later == [] {
      assert clock + [c] + later == clock + [c];
    } else {
      var last := |later| - 1;
      var before := clock + [c] + later[..last];
      assert clock + [c] + later == before + [later[last]];
      PassesResync(t0, clock + [c], later[..last]);
      Resyncs(t0, before, later[last]);
      TicksFollowResync(t0, clock, c, later[..last]);
      LatePass(AfterPasses(t0, before), later[last]);
      var q := AfterPasses(t0, before + [later[last]]);
      DueCounts(c, later[last], q.total - AfterPasses(t0, clock + [c]).total);
    }
  }

  lemma LatePass(p: Progress, now: int)
    requires AfterPass(p, now).resyncs == p.resyncs && p.next <= now + 16
    ensures var q := AfterPass(p, now);
            && q.total >= p.total && q.next == p.next + 16 * (q.total - p.total) && now < q.next <= now + 16
  {
  }
}
