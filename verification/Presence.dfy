/**
 The someone-is-here decision of the RainMaker radar callback: one remembered time stands for the
 whole history of movement. Times are milliseconds; a timeout is in seconds.
 */
module Presence {
  datatype Tick = Tick(move: bool, now: int)

  /** The clock starts at 0 and never goes back. */
  predicate NotBefore(now: int, ticks: seq<Tick>) {
    0 <= now && forall k | 0 <= k < |ticks| :: ticks[k].now <= now
  }

  predicate MovedAt(ticks: seq<Tick>, k: int) { 0 <= k < |ticks| && ticks[k].move }

  /** `last` is the latest time of movement, or 0 if there was none. */
  ghost predicate Remembers(ticks: seq<Tick>, last: int) {
    && 0 <= last
    && (forall k :: MovedAt(ticks, k) ==> ticks[k].now <= last)
    && (last == 0 || exists k :: MovedAt(ticks, k) && ticks[k].now == last)
  }

  predicate Within(since: int, now: int, timeout: real) { (now - since) as real < timeout * 1000.0 }

  /** Someone counts as present if the device has been on for less than the timeout or some
      movement was seen less than the timeout ago. */
  ghost predicate Present(ticks: seq<Tick>, now: int, timeout: real) {
    || Within(0, now, timeout)
    || exists k :: MovedAt(ticks, k) && Within(ticks[k].now, now, timeout)
  }

  /** Overwriting the remembered time at every movement keeps it the latest one. */
  lemma RememberMore(ticks: seq<Tick>, last: int, t: Tick)
    requires NotBefore(t.now, ticks) && Remembers(ticks, last)
    ensures Remembers(ticks + [t], if t.move then t.now else last)
  {
    var all := ticks + [t];
    assert forall k :: MovedAt(all, k) <==> MovedAt(ticks, k) || (k == |ticks| && t.move);
    if t.move {
      assert MovedAt(all, |ticks|);
      assert forall k :: MovedAt(ticks, k) ==> ticks[k].now <= t.now;
    } else if last != 0 {
      var k :| MovedAt(ticks, k) && ticks[k].now == last;
      assert MovedAt(all, k) && all[k].now == last;
    }
  }

  // ---------- over whole runs ----------

  predicate Ordered(ticks: seq<Tick>) {
    ticks == [] || (Ordered(ticks[..|ticks| - 1]) && NotBefore(ticks[|ticks| - 1].now, ticks[..|ticks| - 1]))
  }

  /** `s_last_move_time` after `ticks`. */
  function LastMove(ticks: seq<Tick>): int {
    if ticks == [] then 0
    else if ticks[|ticks| - 1].move then ticks[|ticks| - 1].now
    else LastMove(ticks[..|ticks| - 1])
  }

  lemma {:induction false} LastMoveRemembers(ticks: seq<Tick>)
    requires Ordered(ticks)
    ensures Remembers(ticks, LastMove(ticks))
  {
    if ticks != [] {
      var before, t := ticks[..|ticks| - 1], ticks[|ticks| - 1];
      LastMoveRemembers(before);
      RememberMore(before, LastMove(before), t);
      assert ticks == before + [t];
    }
  }

  /** In every run with a clock that does not go back, and whatever the timeout is at the moment, the
      one remembered time decides presence exactly as the whole history does. */
  lemma {:induction false} PresenceIsHistory(ticks: seq<Tick>, now: int, timeout: real)
    requires Ordered(ticks)
    ensures Within(LastMove(ticks), now, timeout) <==> Present(ticks, now, timeout)
  {
    LastMoveRemembers(ticks);
    var last := LastMove(ticks);
    if last != 0 {
      var k :| MovedAt(ticks, k) && ticks[k].now == last;
      assert Within(last, now, timeout) ==> Within(ticks[k].now, now, timeout);
    }
  }

  lemma WithinMillis(since: int, now: int, seconds: int)
    ensures Within(since, now, seconds as real) <==> now < since + 1000 * seconds
  {
    assert (1000 * seconds) as real == seconds as real * 1000.0;
  }

  /** In milliseconds: with a timeout of whole seconds, someone is present for that many thousand
      milliseconds after the device was switched on and after each movement, and not a millisecond more. */
  lemma PresenceInMillis(ticks: seq<Tick>, now: int, seconds: int)
    requires Ordered(ticks)
    ensures Within(LastMove(ticks), now, seconds as real) <==>
              || now < 1000 * seconds
              || exists k :: 0 <= k < |ticks| && ticks[k].move && now < ticks[k].now + 1000 * seconds
  {
    PresenceIsHistory(ticks, now, seconds as real);
    WithinMillis(LastMove(ticks), now, seconds);
    WithinMillis(0, now, seconds);
    forall k | MovedAt(ticks, k)
      ensures Within(ticks[k].now, now, seconds as real) <==> now < ticks[k].now + 1000 * seconds
    {
      WithinMillis(ticks[k].now, now, seconds);
    }
    if k :| 0 <= k < |ticks| && ticks[k].move && now < ticks[k].now + 1000 * seconds {
      assert MovedAt(ticks, k);
    }
  }
}
