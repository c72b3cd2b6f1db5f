/**
 The last part of the RainMaker radar callback: what is reported to the cloud, driven by four
 static variables. Times are milliseconds.
 */
module CloudReports {
  import opened Sequences

  const INTERVAL := 10 * 1000

  datatype Report =
    | SomeoneReport(someone: bool)
    | MoveReport(someone: bool, move: bool, count: nat, at: int)

  /** `s_report_someone_status`, `s_report_move_status`, `s_report_move_count` and
      `s_report_move_timestamp`. */
  datatype State = State(someone: bool, move: bool, count: nat, timestamp: int)

  const INITIAL := State(false, false, 0, 0)

  datatype Tick = Tick(move: bool, someone: bool, now: int)

  predicate MoveDue(s: State, t: Tick) {
    t.move != s.move || (t.move && t.now - s.timestamp > INTERVAL)
  }

  function Step(s: State, t: Tick): (State, seq<Report>) {
    var count := if t.move then s.count + 1 else s.count;
    var gone := if s.someone != t.someone && !t.someone then [SomeoneReport(false)] else [];
    var someone := if gone != [] then t.someone else s.someone;
    if MoveDue(s, t) then
      (State(someone, if !s.move || count == 0 then t.move else s.move, 0, t.now),
       gone + [MoveReport(t.someone, t.move || count > 0, count, t.now)])
    else
      (State(someone, s.move, count, s.timestamp), gone)
  }

  /** The state after `ticks` and everything reported on the way. */
  function Run(s: State, ticks: seq<Tick>): (State, seq<Report>) {
    if ticks == [] then (s, [])
    else
      var before := Run(s, ticks[..|ticks| - 1]);
      var last := Step(before.0, ticks[|ticks| - 1]);
      (last.0, before.1 + last.1)
  }

  // ---------- what the cloud sees ----------

  /** The movement status the cloud shows: the last one reported, at first the default `false`. */
  function CloudMove(log: seq<Report>): bool {
    if log == [] then false
    else
      var last := log[|log| - 1];
      if last.MoveReport? then last.move else CloudMove(log[..|log| - 1])
  }

  function Reported(log: seq<Report>): nat {
    if log == [] then 0
    else Reported(log[..|log| - 1]) + if log[|log| - 1].MoveReport? then log[|log| - 1].count else 0
  }

  function Moves(ticks: seq<Tick>): nat {
    if ticks == [] then 0
    else Moves(ticks[..|ticks| - 1]) + if ticks[|ticks| - 1].move then 1 else 0
  }

  lemma {:induction false} MovesIsNumber(ticks: seq<Tick>)
    ensures Moves(ticks) == |Where(ticks, (t: Tick) => t.move)|
  {
    if ticks == [] {
      assert Where(ticks, (t: Tick) => t.move) == {};
    } else {
      MovesIsNumber(ticks[..|ticks| - 1]);
      WhereSnoc(ticks, (t: Tick) => t.move);
    }
  }

  predicate OnlyMoveReports(log: seq<Report>) { forall k | 0 <= k < |log| :: log[k].MoveReport? }

  /** What holds between any two ticks. */
  predicate Mirrored(s: State, log: seq<Report>) {
    && s.move == CloudMove(log)
    && (!s.move ==> s.count == 0)
    && !s.someone && OnlyMoveReports(log)
  }

  lemma StepMirrors(s: State, log: seq<Report>, t: Tick)
    requires Mirrored(s, log)
    ensures var r := Step(s, t);
            && Mirrored(r.0, log + r.1)
            && Reported(log + r.1) + r.0.count == Reported(log) + s.count + if t.move then 1 else 0
  {
    var r := Step(s, t);
    var all := log + r.1;
    if r.1 == [] {
      assert all == log;
    } else {
      assert all[..|all| - 1] == log;
    }
  }

  /** In every run the cloud's movement status is `s_report_move_status`; a false status has no
      pending movements; the someone-has-left report is never sent, since nothing ever sets
      the flag it waits for; and no movement tick is lost or counted twice. */
  lemma {:induction false} RunMirrors(ticks: seq<Tick>)
    ensures var r := Run(INITIAL, ticks);
            Mirrored(r.0, r.1) && Reported(r.1) + r.0.count == Moves(ticks)
  {
    if ticks != [] {
      var before := Run(INITIAL, ticks[..|ticks| - 1]);
      RunMirrors(ticks[..|ticks| - 1]);
      StepMirrors(before.0, before.1, ticks[|ticks| - 1]);
    }
  }

  // ---------- what is reported, from the history alone ----------

  /** When the cloud last heard of movement; 0 if never. */
  function LastAt(log: seq<Report>): int {
    if log == [] || !log[|log| - 1].MoveReport? then 0 else log[|log| - 1].at
  }

  /** The movement ticks up to now that no report has counted. */
  function Pending(ticks: seq<Tick>, log: seq<Report>): int { Moves(ticks) - Reported(log) }

  lemma RunSnoc(s: State, ticks: seq<Tick>, t: Tick)
    ensures var before := Run(s, ticks);
            var last := Step(before.0, t);
            Run(s, ticks + [t]) == (last.0, before.1 + last.1)
    ensures Moves(ticks + [t]) == Moves(ticks) + if t.move then 1 else 0
  {
    assert (ticks + [t])[..|ticks|] == ticks;
  }

  lemma {:induction false} TimestampIsLast(ticks: seq<Tick>)
    ensures Run(INITIAL, ticks).0.timestamp == LastAt(Run(INITIAL, ticks).1)
  {
    if ticks != [] {
      var before, t := ticks[..|ticks| - 1], ticks[|ticks| - 1];
      TimestampIsLast(before);
      RunMirrors(before);
    }
  }

  /** In every run a tick sends at most one report, and sends it if and only if the cloud shows the wrong
      status or movement goes on more than 10000 ms after the last report. The report carries all
      pending movements, and says "movement" if there is or was any. */
  lemma ReportedExactly(ticks: seq<Tick>, t: Tick)
    ensures var log, all := Run(INITIAL, ticks).1, ticks + [t];
            var pending := Pending(all, log);
            && pending >= 0
            && Run(INITIAL, all).1 ==
               log + if t.move != CloudMove(log) || (t.move && t.now - LastAt(log) > 10000)
                     then [MoveReport(t.someone, pending > 0, pending, t.now)] else []
  {
    RunMirrors(ticks);
    RunSnoc(INITIAL, ticks, t);
    TimestampIsLast(ticks);
  }

  /** While something moves the cloud knows, and knows anew at least every ten seconds: after every
      movement tick of every run the last report says so and is at most 10000 ms old. */
  lemma MovementIsFresh(ticks: seq<Tick>, t: Tick)
    requires t.move
    ensures var log := Run(INITIAL, ticks + [t]).1;
            log != [] && log[|log| - 1].MoveReport? && log[|log| - 1].move && log[|log| - 1].at >= t.now - 10000
  {
    var log := Run(INITIAL, ticks).1;
    RunMirrors(ticks);
    RunMirrors(ticks + [t]);
    ReportedExactly(ticks, t);
    TimestampIsLast(ticks);
    assert Run(INITIAL, ticks + [t]).1 == log ==> CloudMove(log) && log != [];
  }

  /** For example, two movements and then none make two reports: one movement, and one more that has ended. */
  lemma ReportedForExample()
    ensures Run(INITIAL, [Tick(true, true, 0), Tick(true, true, 10000), Tick(false, false, 10001)]).1
            == [MoveReport(true, true, 1, 0), MoveReport(false, true, 1, 10001)]
  {
    var t0, t1, t2 := Tick(true, true, 0), Tick(true, true, 10000), Tick(false, false, 10001);
    RunSnoc(INITIAL, [], t0);
    RunSnoc(INITIAL, [t0], t1);
    RunSnoc(INITIAL, [t0, t1], t2);
    assert [] + [t0] == [t0] && [t0] + [t1] == [t0, t1] && [t0, t1] + [t2] == [t0, t1, t2];
  }

  // ---------- after movement stops ----------

  predicate Quiet(ticks: seq<Tick>) { forall k | 0 <= k < |ticks| :: !ticks[k].move }

  /** Quiet ticks needed until the cloud knows: none, one, or two when movements are pending. */
  function Backlog(s: State): nat { if !s.move then 0 else if s.count == 0 then 1 else 2 }

  /** From any state a run can reach, quiet ticks send exactly the backlog and then nothing;
      with the backlog sent, the movement status is false and stays false. */
  lemma {:induction false} QuietDrains(s: State, ticks: seq<Tick>)
    requires !s.someone && Quiet(ticks)
    requires !s.move ==> s.count == 0
    ensures var r := Run(s, ticks);
            && |r.1| == (if |ticks| < Backlog(s) then |ticks| else Backlog(s))
            && Backlog(r.0) == Backlog(s) - |r.1|
            && (r.0.move <==> |ticks| < Backlog(s))
            && !r.0.someone && (!r.0.move ==> r.0.count == 0)
  {
    if ticks != [] {
      QuietDrains(s, ticks[..|ticks| - 1]);
    }
  }

  /** After any run, two quiet ticks are enough: the cloud shows no movement, and further quiet
      ticks report nothing. */
  lemma QuietWithinTwo(ticks: seq<Tick>, quiet: seq<Tick>, more: seq<Tick>)
    requires Quiet(quiet) && Quiet(more) && |quiet| >= 2
    ensures !CloudMove(Run(INITIAL, ticks + quiet).1)
    ensures Run(INITIAL, ticks + quiet + more).1 == Run(INITIAL, ticks + quiet).1
  {
    RunMirrors(ticks);
    RunMirrors(ticks + quiet);
    RunConcat(INITIAL, ticks, quiet);
    QuietDrains(Run(INITIAL, ticks).0, quiet);
    RunConcat(INITIAL, ticks + quiet, more);
    QuietDrains(Run(INITIAL, ticks + quiet).0, more);
    var none := Run(Run(INITIAL, ticks + quiet).0, more).1;
    assert none == [];
  }

  lemma {:induction false} RunConcat(s: State, a: seq<Tick>, b: seq<Tick>)
    ensures Run(s, a + b).0 == Run(Run(s, a).0, b).0
    ensures Run(s, a + b).1 == Run(s, a).1 + Run(Run(s, a).0, b).1
  {
    if b == [] {
      assert a + b == a;
    } else {
      var b', t := b[..|b| - 1], b[|b| - 1];
      RunConcat(s, a, b');
      assert (a + b)[..|a + b| - 1] == a + b' && (a + b)[|a + b| - 1] == t;
      var mid := Run(s, a).0;
      Assoc(Run(s, a).1, Run(mid, b').1, Step(Run(mid, b').0, t).1);
    }
  }

  // ---------- while movement lasts ----------

  predicate Moving(ticks: seq<Tick>) { forall k | 0 <= k < |ticks| :: ticks[k].move }

  /** Movement reports, all of them true, each more than ten seconds after the one before. */
  predicate Spaced(log: seq<Report>) {
    && (forall k | 0 <= k < |log| :: log[k].MoveReport? && log[k].move)
    && (forall k | 0 < k < |log| :: log[k].at - log[k - 1].at > INTERVAL)
  }

  lemma SpacedSnoc(log: seq<Report>, r: Report)
    requires Spaced(log) && r.MoveReport? && r.move
    requires log != [] ==> r.at - log[|log| - 1].at > INTERVAL
    ensures Spaced(log + [r])
  {
  }

  /** Within an unbroken stretch of movement, whatever happened before it and whatever the clock
      does, successive reports are more than ten seconds apart and all say that something
      moves. A stretch that has lasted for a tick has been reported. */
  lemma {:induction false} MovingIsRateLimited(s: State, ticks: seq<Tick>)
    requires !s.someone && Moving(ticks)
    ensures var r := Run(s, ticks);
            && Spaced(r.1) && !r.0.someone && (ticks != [] ==> r.0.move)
            && (r.1 != [] ==> r.0.timestamp == r.1[|r.1| - 1].at)
  {
    if ticks != [] {
      hide Spaced;
      var before, t := Run(s, ticks[..|ticks| - 1]), ticks[|ticks| - 1];
      MovingIsRateLimited(s, ticks[..|ticks| - 1]);
      var due := Step(before.0, t).1;
      if due == [] {
        assert Run(s, ticks).1 == before.1;
      } else {
        assert t.move;
        assert before.1 != [] ==> ticks[..|ticks| - 1] != [];
        SpacedSnoc(before.1, due[0]);
        assert Run(s, ticks).1 == before.1 + [due[0]];
      }
    }
  }
}
