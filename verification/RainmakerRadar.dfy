/**
 The RainMaker radar application: the radar callback, the calibration timer callback and the
 handler for writes from the cloud, over the program's static variables.
 */
module RainmakerRadar {
  import W = SlidingWindow
  import P = Presence
  import C = CloudReports
  import A = Calibration

  const BUFF_MAX_SIZE := 16

  /** What one radar callback decided. */
  datatype Verdict = Filling | Calibrating(move: bool) | Judged(move: bool, someone: bool)

  /** A write from the cloud. */
  datatype Write =
    | SomeoneTimeout(seconds: int)
    | MoveThreshold(threshold: real)
    | FilterWindow(window: int)
    | FilterCount(needed: int)
    | ThresholdCalibrate(on: bool)
    | CalibrateTimeout(seconds: int)
    | Other

  /** The report section over its four variables: they are changed one after the other, and what is
      sent uses them as they are at that moment. */
  method UpdateReports(s0: C.State, move: bool, someone: bool, now: int) returns (s: C.State, sent: seq<C.Report>)
    ensures (s, sent) == C.Step(s0, C.Tick(move, someone, now))
  {
    s, sent := s0, [];
    if move {
      s := s.(count := s.count + 1);
    }
    if s.someone != someone && !someone {
      sent := sent + [C.SomeoneReport(someone)];
      s := s.(someone := someone);
    }
    assert sent == if s0.someone != someone && !someone then [C.SomeoneReport(false)] else [];
    if move != s.move || (move && now - s.timestamp > C.INTERVAL) {
      sent := sent + [C.MoveReport(someone, move || s.count > 0, s.count, now)];
      if !s.move || s.count == 0 {
        s := s.(move := move);
      }
      s := s.(count := 0, timestamp := now);
    }
  }

  class Device {
    // detector configuration
    var someoneTimeout: real
    var moveThreshold: real
    var filterWindow: nat
    var filterCount: nat
    var calibrate: bool
    var calibrateTimeout: int

    // calibration timer
    var timerLeft: int
    var timerActive: bool

    // static variables of the radar callback
    const buffJitter: array<real>
    var buffCount: nat
    var lastMoveTime: int
    var report: C.State

    // what was sent to the cloud
    var cloud: seq<C.Report>

    // history: the samples since the window size last changed, the ticks that reached the presence
    // decision, and those that reached the reports
    ghost var since: seq<real>
    ghost var ticks: seq<P.Tick>
    ghost var reportTicks: seq<C.Tick>

    ghost function Ring(): W.Ring<real>
      reads this`buffCount, this`filterWindow, buffJitter
    {
      W.Ring(buffJitter[..], buffCount, filterWindow)
    }

    ghost function Countdown(): A.State
      reads this`timerLeft, this`calibrate, this`calibrateTimeout, this`timerActive
    {
      A.State(timerLeft, calibrate, calibrateTimeout, timerActive)
    }

    /** The handler stores any window size, but the callback can only run with one that fits the buffer. */
    ghost predicate Usable()
      reads this`filterWindow
    {
      1 <= filterWindow <= BUFF_MAX_SIZE
    }

    ghost predicate WindowOk()
      reads this`buffCount, this`filterWindow, this`since, buffJitter
    {
      && buffJitter.Length == BUFF_MAX_SIZE && |since| <= buffCount
      && if Usable() then W.InSync(Ring(), since) else since == []
    }

    ghost predicate PresenceOk()
      reads this`ticks, this`lastMoveTime
    {
      P.Ordered(ticks) && lastMoveTime == P.LastMove(ticks)
    }

    ghost predicate ReportsOk()
      reads this`report, this`cloud, this`reportTicks
    {
      (report, cloud) == C.Run(C.INITIAL, reportTicks)
    }

    ghost predicate CountdownOk()
      reads this`timerActive, this`calibrate, this`calibrateTimeout
    {
      timerActive == calibrate && 0 <= calibrateTimeout < 256
    }

    ghost predicate Valid()
      reads this, buffJitter
    {
      WindowOk() && PresenceOk() && ReportsOk() && CountdownOk()
    }

    /** What the movement decision must be, once a window's worth of samples has come since the window
        size last changed: do enough of the last samples exceed the threshold? */
    ghost predicate MoveVerdict(move: bool)
      reads this`since, this`filterWindow, this`moveThreshold, this`filterCount
    {
      |since| >= filterWindow ==>
        move == (W.CountAbove(W.LastOf(since, filterWindow), moveThreshold) >= filterCount)
    }

    /** Boot with a stored flag of false. */
    constructor ()
      ensures Valid() && fresh(buffJitter)
      ensures A.Booted(Countdown()) && since == [] && ticks == [] && reportTicks == []
      ensures someoneTimeout == 180.0 && moveThreshold == 0.002 && filterWindow == 5 && filterCount == 2
      ensures calibrateTimeout == 60 && buffCount == 0 && forall k | 0 <= k < BUFF_MAX_SIZE :: buffJitter[k] == 0.0
    {
      someoneTimeout, moveThreshold, filterWindow, filterCount := 180.0, 0.002, 5, 2;
      calibrate, calibrateTimeout, timerLeft, timerActive := false, 60, 0, false;
      buffJitter := new real[BUFF_MAX_SIZE](_ => 0.0);
      buffCount, lastMoveTime, report, cloud := 0, 0, C.INITIAL, [];
      since, ticks, reportTicks := [], [], [];
    }

    /** Put a sample into the ring. */
    method StoreSample(jitter: real)
      requires WindowOk() && Usable()
      modifies this`buffCount, this`since, buffJitter
      ensures WindowOk() && Ring() == W.Store(old(Ring()), jitter) && since == old(since) + [jitter]
    {
      ghost var before := Ring();
      W.StoreInSync(before, since, jitter);
      buffJitter[buffCount % filterWindow] := jitter;
      buffCount := buffCount + 1;
      since := since + [jitter];
      assert Ring() == W.Store(before, jitter);
    }

    /** The movement decision, from the slots in use. */
    method FilterOutliers(jitter: real) returns (full: bool, move: bool)
      requires WindowOk() && Usable()
      modifies this`buffCount, this`since, buffJitter
      ensures WindowOk() && buffCount == old(buffCount) + 1 && since == old(since) + [jitter]
      ensures full == (buffCount >= filterWindow)
      ensures full ==> move == (W.CountAbove(buffJitter[..filterWindow], moveThreshold) >= filterCount)
      ensures (|since| >= filterWindow ==> full) && (full ==> MoveVerdict(move))
    {
      StoreSample(jitter);
      full, move := buffCount >= filterWindow, false;
      if full {
        move := W.DetectInLoop(buffJitter, filterWindow, moveThreshold, filterCount);
        if |since| >= filterWindow {
          W.FullRingCounts(Ring(), since, moveThreshold);
        }
      }
    }

    /** The presence decision, taken before the time of this movement is remembered. */
    method JudgePresence(move: bool, now: int) returns (someone: bool)
      requires PresenceOk() && P.NotBefore(now, ticks)
      modifies this`lastMoveTime, this`ticks
      ensures PresenceOk() && ticks == old(ticks) + [P.Tick(move, now)]
      ensures someone <==> P.Present(old(ticks), now, someoneTimeout)
    {
      someone := P.Within(lastMoveTime, now, someoneTimeout);
      P.PresenceIsHistory(ticks, now, someoneTimeout);
      ghost var all := ticks + [P.Tick(move, now)];
      assert all[..|all| - 1] == ticks;
      if move {
        lastMoveTime := now;
      }
      ticks := all;
    }

    /** The report section. */
    method ReportToCloud(move: bool, someone: bool, now: int)
      requires ReportsOk()
      modifies this`report, this`cloud, this`reportTicks
      ensures ReportsOk() && reportTicks == old(reportTicks) + [C.Tick(move, someone, now)]
      ensures var pending := C.Pending(reportTicks, old(cloud));
              && pending >= 0
              && cloud == old(cloud)
                          + if move != C.CloudMove(old(cloud)) || (move && now - C.LastAt(old(cloud)) > 10000)
                            then [C.MoveReport(someone, pending > 0, pending, now)] else []
      ensures C.Mirrored(report, cloud) && C.Reported(cloud) + report.count == C.Moves(reportTicks)
    {
      ghost var all := reportTicks + [C.Tick(move, someone, now)];
      var s, sent := UpdateReports(report, move, someone, now);
      report, cloud := s, cloud + sent;
      assert all[..|all| - 1] == reportTicks;
      C.ReportedExactly(reportTicks, C.Tick(move, someone, now));
      reportTicks := all;
      C.RunMirrors(reportTicks);
    }

    /** Everything after the calibration check. */
    method Judge(move: bool, now: int, timeSynced: bool) returns (someone: bool)
      requires PresenceOk() && ReportsOk() && P.NotBefore(now, ticks)
      modifies this`lastMoveTime, this`report, this`cloud, this`ticks, this`reportTicks
      ensures PresenceOk() && ReportsOk() && ticks == old(ticks) + [P.Tick(move, now)]
      ensures someone <==> P.Present(old(ticks), now, someoneTimeout)
      ensures reportTicks == old(reportTicks) + if timeSynced then [C.Tick(move, someone, now)] else []
    {
      hide P.Present, P.LastMove, P.Ordered, P.NotBefore, C.Run, C.Step, C.Mirrored, C.Reported, C.Moves;
      someone := JudgePresence(move, now);
      if timeSynced {
        ReportToCloud(move, someone, now);
      }
    }

    /** `radar_cb` */
    method RadarCallback(jitter: real, now: int, timeSynced: bool) returns (v: Verdict)
      requires Valid() && Usable() && P.NotBefore(now, ticks)
      modifies this`buffCount, this`lastMoveTime, this`report, this`cloud
      modifies this`since, this`ticks, this`reportTicks, buffJitter
      ensures Valid() && buffCount == old(buffCount) + 1 && since == old(since) + [jitter]
      ensures v.Filling? <==> buffCount < filterWindow
      ensures v.Judged? <==> buffCount >= filterWindow && !calibrate
      ensures (|since| >= filterWindow ==> !v.Filling?) && (!v.Filling? ==> MoveVerdict(v.move))
      ensures v.Judged? ==> (v.someone <==> P.Present(old(ticks), now, someoneTimeout))
      ensures ticks == old(ticks) + if v.Judged? then [P.Tick(v.move, now)] else []
      ensures reportTicks == old(reportTicks) + if v.Judged? && timeSynced then [C.Tick(v.move, v.someone, now)] else []
    {
      hide W.InSync, W.CountAbove, P.Present, P.LastMove, P.Ordered, P.NotBefore, C.Run;
      var full, move := FilterOutliers(jitter);
      if !full {
        return Filling;
      }
      if calibrate {
        return Calibrating(move);
      }
      var someone := Judge(move, now, timeSynced);
      v := Judged(move, someone);
    }

    /** `auto_calibrate_timercb`. Stopping the training yields a new movement threshold. */
    method CalibrateTimerCallback(trained: real)
      modifies this`timerLeft, this`calibrate, this`timerActive, this`moveThreshold
      ensures Countdown() == A.TimerCallback(old(Countdown()))
      ensures old(Valid()) ==> Valid()
      ensures moveThreshold == if old(timerLeft) - A.INTERVAL < A.INTERVAL then trained else old(moveThreshold)
    {
      timerLeft := timerLeft - A.INTERVAL;
      if timerLeft < A.INTERVAL {
        timerLeft := calibrateTimeout;
        calibrate := false;
        timerActive := false;
        moveThreshold := trained;
      }
    }

    /** The window size is kept in eight bits; buffer and counter stay. */
    method SetFilterWindow(window: int)
      requires WindowOk()
      modifies this`filterWindow, this`since
      ensures WindowOk()
      ensures (filterWindow, since) == old(W.Track((filterWindow, since), W.Resize(window % 256)))
    {
      if window % 256 != filterWindow {
        since := [];
      }
      filterWindow := window % 256;
    }

    /** `write_cb`. Changing the window size leaves buffer and counter as they are. */
    method WriteCallback(w: Write, trained: real)
      requires Valid()
      modifies this
      ensures Valid() && buffCount == old(buffCount) && unchanged(buffJitter)
      ensures unchanged(`lastMoveTime) && unchanged(`report) && unchanged(`cloud)
      ensures unchanged(`ticks) && unchanged(`reportTicks)
      ensures (filterWindow, since)
              == old(if w.FilterWindow? then W.Track((filterWindow, since), W.Resize(w.window % 256))
                     else (filterWindow, since))
      ensures Countdown()
              == old(match w
                     case ThresholdCalibrate(on) => A.Step(Countdown(), A.WriteCalibrate(on))
                     case CalibrateTimeout(seconds) => A.Step(Countdown(), A.WriteTimeout(seconds))
                     case _ => Countdown())
      ensures someoneTimeout == (if w.SomeoneTimeout? then w.seconds as real else old(someoneTimeout))
      ensures filterCount == (if w.FilterCount? then w.needed % 256 else old(filterCount))
      ensures moveThreshold
              == (if w.MoveThreshold? then w.threshold
                  else if w.ThresholdCalibrate? && !w.on then trained
                  else old(moveThreshold))
    {
      hide P.LastMove, P.Ordered, P.NotBefore, C.Run, W.InSync;
      match w
      case SomeoneTimeout(seconds) =>
        someoneTimeout := seconds as real;
      case MoveThreshold(threshold) =>
        moveThreshold := threshold;
      case FilterWindow(window) =>
        SetFilterWindow(window);
      case FilterCount(needed) =>
        filterCount := needed % 256;
      case ThresholdCalibrate(on) =>
        calibrate := on;
        if calibrate {
          timerLeft := calibrateTimeout;
          timerActive := true;
        } else {
          timerLeft := 0;
          CalibrateTimerCallback(trained);
        }
      case CalibrateTimeout(seconds) =>
        calibrateTimeout := seconds % 256;
      case Other =>
    }
  }
}
