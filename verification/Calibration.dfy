/**
 The calibration countdown of the RainMaker radar, driven by a repeating five-second timer and by
 writes from the cloud.
 */
module Calibration {
  const INTERVAL := 5

  /** `g_auto_calibrate_timerleft`, the flag and the timeout of the detector configuration, and
      whether the timer runs. */
  datatype State = State(left: int, calibrate: bool, timeout: int, active: bool)

  /** A boot whose stored flag is false. */
  predicate Booted(s: State) { !s.calibrate && !s.active && s.left == 0 && 0 <= s.timeout < 256 }

  datatype Event = WriteCalibrate(on: bool) | WriteTimeout(value: int) | Elapse

  /** `auto_calibrate_timercb` */
  function TimerCallback(s: State): State {
    var left := s.left - INTERVAL;
    if left < INTERVAL then State(s.timeout, false, s.timeout, false) else s.(left := left)
  }

  /** Five seconds pass unnoticed while the timer is stopped. The timeout is kept in eight bits. */
  function Step(s: State, e: Event): State {
    match e
    case WriteCalibrate(true) => s.(left := s.timeout, calibrate := true, active := true)
    case WriteCalibrate(false) => TimerCallback(s.(left := 0, calibrate := false))
    case WriteTimeout(value) => s.(timeout := value % 256)
    case Elapse => if s.active then TimerCallback(s) else s
  }

  function Run(s: State, es: seq<Event>): State {
    if es == [] then s else Step(Run(s, es[..|es| - 1]), es[|es| - 1])
  }

  function Ticks(es: seq<Event>): nat {
    if es == [] then 0 else Ticks(es[..|es| - 1]) + if es[|es| - 1].Elapse? then 1 else 0
  }

  /** In every interleaving of writes and timer callbacks the timer runs exactly while the flag
      is set, and the timeout stays within eight bits. */
  lemma {:induction false} TimerRunsWhileCalibrating(s: State, es: seq<Event>)
    requires Booted(s)
    ensures var r := Run(s, es); r.active == r.calibrate && 0 <= r.timeout < 256
  {
    if es != [] {
      TimerRunsWhileCalibrating(s, es[..|es| - 1]);
    }
  }

  /** The assumption about the stored flag is needed. A flag that is stored while a calibration runs
      and loaded at the next boot calibrates without a timer, however much time passes and
      whatever timeouts are written: exactly until the flag itself is written again. */
  lemma {:induction false} StoredFlagSticks(s: State, es: seq<Event>)
    requires s.calibrate && !s.active && 0 <= s.timeout < 256
    ensures var r := Run(s, es);
            && 0 <= r.timeout < 256
            && (NoRestart(es) ==> r.calibrate && !r.active && r.left == s.left)
            && (!NoRestart(es) ==> r.active == r.calibrate)
  {
    if es != [] {
      var before, e := es[..|es| - 1], es[|es| - 1];
      StoredFlagSticks(s, before);
      assert NoRestart(es) <==> NoRestart(before) && !e.WriteCalibrate?;
    }
  }

  predicate NoRestart(es: seq<Event>) { forall k | 0 <= k < |es| :: !es[k].WriteCalibrate? }

  function Duration(timeout: nat): nat { if timeout < INTERVAL then 1 else timeout / INTERVAL }

  /** The write takes effect at once, and a write of "false" stops a calibration. */
  lemma TakesEffect(s: State, on: bool)
    ensures var r := Step(s, WriteCalibrate(on)); r.calibrate == r.active == on && r.left == s.timeout == r.timeout
  {
  }

  /** A calibration that nobody restarts or stops ends with callback number max(1, T div 5), where
      T was the timeout when it started: rewriting the timeout meanwhile changes nothing. Before that
      the time left counts down by five. */
  lemma {:induction false} LastsExactly(s: State, es: seq<Event>)
    requires 0 <= s.timeout && NoRestart(es)
    ensures var r := Run(Step(s, WriteCalibrate(true)), es);
            && r.active == r.calibrate == (Ticks(es) < if s.timeout < 5 then 1 else s.timeout / 5)
            && (r.active ==> r.left == s.timeout - 5 * Ticks(es))
  {
    if es != [] {
      LastsExactly(s, es[..|es| - 1]);
    }
  }

  /** At the end of a calibration the time shown is the timeout in force then. */
  lemma EndShowsTimeout(s: State)
    requires s.active && !Step(s, Elapse).active
    ensures Step(s, Elapse).left == s.timeout
  {
  }

  /** The eight bits matter, since the cloud may write up to 3600: a calibration lasts as long as
      the written value asks for if and only if that value is below 256. A value of 300 runs
      for 8 callbacks instead of 60. */
  lemma TimeoutTruncated(s: State, v: nat)
    ensures Duration(Step(s, WriteTimeout(v)).timeout) == Duration(v) <==> v < 256
    ensures Duration(Step(s, WriteTimeout(300)).timeout) == 8 && Duration(300) == 60
  {
    assert 300 % 256 == 44;
    assert v < 260 || Duration(v) >= 52;
  }
}
