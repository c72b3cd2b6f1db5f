/**
 The host's memory of radar samples: a table of the last 20 status changes that is shifted in place,
 a 2 x 2 histogram of statuses and the list of movements behind the bar charts.
 Times are milliseconds.
 */
module StatusHistory {
  import opened Options
  import opened Sequences

  const ROWS := 20
  const SAMPLES := 100

  datatype Sample = Sample(room: bool, human: bool, time: int)

  /** A table row; None stands for the empty text the table is filled with at first. */
  datatype Row = Row(room: Option<bool>, human: Option<bool>, spend: Option<int>, start: Option<int>, stop: Option<int>)

  const EMPTY := Row(None, None, None, None, None)

  // ---------- the changes of status, newest first ----------

  /** A stay in one status: when it began and when it was last seen. */
  datatype Stay = Stay(room: bool, human: bool, start: int, seen: int)

  /** The status before the next sample. */
  function Status(ss: seq<Sample>): (bool, bool) {
    if ss == [] then (false, false) else (ss[|ss| - 1].room, ss[|ss| - 1].human)
  }

  /** All stays since the first change away from the initial status. */
  function Stays(ss: seq<Sample>): seq<Stay> {
    if ss == [] then []
    else
      var before, s := Stays(ss[..|ss| - 1]), ss[|ss| - 1];
      if Status(ss[..|ss| - 1]) != (s.room, s.human) then [Stay(s.room, s.human, s.time, s.time)] + before
      else if before == [] then []
      else [before[0].(seen := s.time)] + before[1..]
  }

  /** The row that shows stay number `k`: it ended when the next newer one began. */
  function RowOf(ts: seq<Stay>, k: nat): Row
    requires k < |ts|
  {
    var t := ts[k];
    Row(Some(t.room), Some(t.human), Some(t.seen - t.start), Some(t.start),
        if k == 0 then None else Some(ts[k - 1].start))
  }

  /** The 20 newest stays. */
  function TableOf(ts: seq<Stay>): seq<Row> {
    seq(ROWS, k requires 0 <= k < ROWS => if k < |ts| then RowOf(ts, k) else EMPTY)
  }

  /** Neighbouring stays differ in status, the oldest differs from the initial status, the newest
      is the present one, and stays begin in the order of the samples. */
  lemma {:induction false} StaysAlternate(ss: seq<Sample>)
    ensures Alternating(Stays(ss), Status(ss))
  {
    if ss != [] {
      var before, s := ss[..|ss| - 1], ss[|ss| - 1];
      StaysAlternate(before);
      if Status(before) != (s.room, s.human) {
        AlternatingCons(Stays(before), Status(before), Stay(s.room, s.human, s.time, s.time));
      }
    }
  }

  predicate Alternating(ts: seq<Stay>, now: (bool, bool)) {
    && (forall k | 0 < k < |ts| :: ts[k].room != ts[k - 1].room || ts[k].human != ts[k - 1].human)
    && (ts != [] ==> ts[|ts| - 1].room || ts[|ts| - 1].human)
    && now == if ts == [] then (false, false) else (ts[0].room, ts[0].human)
  }

  lemma AlternatingCons(ts: seq<Stay>, now: (bool, bool), t: Stay)
    requires Alternating(ts, now) && now != (t.room, t.human)
    ensures Alternating([t] + ts, (t.room, t.human))
  {
  }

  predicate Ordered(ss: seq<Sample>) {
    forall j, k | 0 <= j < k < |ss| :: ss[j].time <= ss[k].time
  }

  /** With a clock that does not go back, times in the table do not either: a stay is seen last at or
      after its start and at or before the start of the next. */
  lemma {:induction false} StaysOrdered(ss: seq<Sample>)
    requires Ordered(ss)
    ensures var ts := Stays(ss);
            && (forall k | 0 <= k < |ts| :: ts[k].start <= ts[k].seen)
            && (forall k | 0 < k < |ts| :: ts[k].seen <= ts[k - 1].start)
            && (ts != [] ==> ss != [] && ts[0].seen == ss[|ss| - 1].time)
  {
    if ss != [] {
      StaysOrdered(ss[..|ss| - 1]);
    }
  }

  // ---------- the table in terms of the samples ----------

  /** Sample `k` brought a status that differs from the one before it, at first from (false, false). */
  predicate Changed(ss: seq<Sample>, k: int) {
    0 <= k < |ss| && if k == 0 then ss[k].room || ss[k].human
                     else ss[k].room != ss[k - 1].room || ss[k].human != ss[k - 1].human
  }

  /** The numbers of the samples that brought a change, newest first. */
  function Changes(ss: seq<Sample>): seq<nat> {
    if ss == [] then []
    else (if Changed(ss, |ss| - 1) then [|ss| - 1] else []) + Changes(ss[..|ss| - 1])
  }

  lemma {:induction false} ChangesAreAll(ss: seq<Sample>)
    ensures forall k: nat :: k in Changes(ss) <==> Changed(ss, k)
    ensures forall i | 0 <= i < |Changes(ss)| :: Changes(ss)[i] < |ss|
    ensures forall i | 0 < i < |Changes(ss)| :: Changes(ss)[i] < Changes(ss)[i - 1]
  {
    if ss != [] {
      var n := |ss| - 1;
      ChangesAreAll(ss[..n]);
      assert forall k: nat | k < n :: Changed(ss, k) <==> Changed(ss[..n], k);
    }
  }

  /** The sample last seen in the stay that began with change number `i`. */
  function SeenLast(ss: seq<Sample>, i: nat): int
    requires i < |Changes(ss)|
  {
    (if i == 0 then |ss| else Changes(ss)[i - 1]) - 1
  }

  predicate StayIs(ss: seq<Sample>, i: nat, t: Stay)
    requires i < |Changes(ss)|
  {
    var c, e := Changes(ss)[i], SeenLast(ss, i);
    0 <= c <= e < |ss| && t == Stay(ss[c].room, ss[c].human, ss[c].time, ss[e].time)
  }

  lemma {:induction false} StaysAreChanges(ss: seq<Sample>)
    ensures |Stays(ss)| == |Changes(ss)|
    ensures forall i: nat | i < |Stays(ss)| :: StayIs(ss, i, Stays(ss)[i])
  {
    if ss != [] {
      var n := |ss| - 1;
      var before := ss[..n];
      StaysAreChanges(before);
      if Changed(ss, n) {
        StaysBegun(ss);
      } else {
        StaysKept(ss);
      }
    }
  }

  lemma StaysBegun(ss: seq<Sample>)
    requires ss != [] && Changed(ss, |ss| - 1)
    requires var before := ss[..|ss| - 1];
             && |Stays(before)| == |Changes(before)|
             && forall i: nat | i < |Stays(before)| :: StayIs(before, i, Stays(before)[i])
    ensures |Stays(ss)| == |Changes(ss)|
    ensures forall i: nat | i < |Stays(ss)| :: StayIs(ss, i, Stays(ss)[i])
  {
    var n := |ss| - 1;
    var before := ss[..n];
    var was, now := Stays(before), Stays(ss);
    assert now == [Stay(ss[n].room, ss[n].human, ss[n].time, ss[n].time)] + was && Changes(ss) == [n] + Changes(before);
    hide Stays, Changes;
    forall i: nat | i < |now| ensures StayIs(ss, i, now[i]) {
      if i > 0 {
        assert StayIs(before, i - 1, was[i - 1]) && now[i] == was[i - 1];
      }
    }
  }

  lemma StaysKept(ss: seq<Sample>)
    requires ss != [] && !Changed(ss, |ss| - 1)
    requires var before := ss[..|ss| - 1];
             && |Stays(before)| == |Changes(before)|
             && forall i: nat | i < |Stays(before)| :: StayIs(before, i, Stays(before)[i])
    ensures |Stays(ss)| == |Changes(ss)|
    ensures forall i: nat | i < |Stays(ss)| :: StayIs(ss, i, Stays(ss)[i])
  {
    hide Stays, Changes, StayIs, Changed;
    var was, now := Stays(ss[..|ss| - 1]), Stays(ss);
    KeptFacts(ss);
    forall i: nat | i < |now| ensures StayIs(ss, i, now[i]) {
      assert StayIs(ss[..|ss| - 1], i, was[i]);
      StayKept(ss, i, was[i]);
    }
  }

  lemma KeptFacts(ss: seq<Sample>)
    requires ss != [] && !Changed(ss, |ss| - 1)
    ensures var n := |ss| - 1;
            var was, now := Stays(ss[..n]), Stays(ss);
            && |was| == |now| && Changes(ss) == Changes(ss[..n])
            && forall i | 0 <= i < |now| :: now[i] == if i == 0 then was[i].(seen := ss[n].time) else was[i]
  {
    hide Stays, Changes;
    var before, s := ss[..|ss| - 1], ss[|ss| - 1];
    assert ss == before + [s];
    assert Status(before) == (s.room, s.human);
    StaysSnoc(before, s);
    ChangesSnoc(ss);
    assert [] + Changes(before) == Changes(before);
  }

  lemma ChangesSnoc(ss: seq<Sample>)
    requires ss != []
    ensures Changes(ss) == (if Changed(ss, |ss| - 1) then [|ss| - 1] else []) + Changes(ss[..|ss| - 1])
  {
  }

  lemma StayKept(ss: seq<Sample>, i: nat, t: Stay)
    requires ss != [] && Changes(ss) == Changes(ss[..|ss| - 1]) && i < |Changes(ss)|
    requires StayIs(ss[..|ss| - 1], i, t)
    ensures StayIs(ss, i, if i == 0 then t.(seen := ss[|ss| - 1].time) else t)
  {
    hide Changes;
  }

  /** What the table shows, row by row, of the samples: the room and human status that the change brought,
      when it came, how long the status has been seen since, and when the next change came; only the
      newest change has no next. Rows for which there is no change are empty. */
  lemma TableShowsChanges(ss: seq<Sample>, i: nat)
    requires i < 20
    ensures var row, cs := TableOf(Stays(ss))[i], Changes(ss);
            if i < |cs| then
              && 0 <= SeenLast(ss, i) < |ss| && cs[i] < |ss| && (i > 0 ==> cs[i - 1] < |ss|)
              && row.room == Some(ss[cs[i]].room) && row.human == Some(ss[cs[i]].human)
              && row.start == Some(ss[cs[i]].time)
              && row.spend == Some(ss[SeenLast(ss, i)].time - ss[cs[i]].time)
              && row.stop == if i == 0 then None else Some(ss[cs[i - 1]].time)
            else row == EMPTY
  {
    StaysAreChanges(ss);
    if i < |Changes(ss)| {
      assert StayIs(ss, i, Stays(ss)[i]);
      if i > 0 {
        assert StayIs(ss, i - 1, Stays(ss)[i - 1]);
      }
    }
  }

  // ---------- the histogram ----------

  function Count(ss: seq<Sample>, room: bool, human: bool): nat {
    if ss == [] then 0
    else Count(ss[..|ss| - 1], room, human)
         + if ss[|ss| - 1].room == room && ss[|ss| - 1].human == human then 1 else 0
  }

  /** The samples of one cell. */
  function Cell(ss: seq<Sample>, room: bool, human: bool): set<int> {
    Where(ss, (s: Sample) => s.room == room && s.human == human)
  }

  lemma {:induction false} CountIsNumber(ss: seq<Sample>, room: bool, human: bool)
    ensures Count(ss, room, human) == |Cell(ss, room, human)|
  {
    if ss == [] {
      assert Cell(ss, room, human) == {};
    } else {
      var n := |ss| - 1;
      CountIsNumber(ss[..n], room, human);
      WhereSnoc(ss, (s: Sample) => s.room == room && s.human == human);
    }
  }

  function Index(b: bool): nat { if b then 1 else 0 }

  // ---------- movements by time ----------

  /** A row of the movement list: day number, hour, minute, second and a count of one. A reset writes
      zeros into the rows and keeps them; a zero in place of a date equals no date. */
  datatype Move = Move(date: Option<int>, hour: int, minute: int, second: int, count: nat)

  const BLANK := Move(None, 0, 0, 0, 0)

  function Blanks(n: nat): seq<Move> { seq(n, _ => BLANK) }

  function MoveAt(time: int): Move {
    Move(Some(time / 86400000), time / 3600000 % 24, time / 60000 % 60, time / 1000 % 60, 1)
  }

  predicate ValidMove(m: Move) { 0 <= m.hour < 24 && 0 <= m.minute < 60 && 0 <= m.second < 60 }

  predicate ValidMoves(ms: seq<Move>) { forall k | 0 <= k < |ms| :: ValidMove(ms[k]) }

  function MovesOf(ss: seq<Sample>): seq<Move> {
    if ss == [] then []
    else MovesOf(ss[..|ss| - 1]) + if ss[|ss| - 1].human then [MoveAt(ss[|ss| - 1].time)] else []
  }

  /** The movement records are the samples of the histogram's movement column. */
  lemma {:induction false} MovesAreColumn(ss: seq<Sample>)
    ensures |MovesOf(ss)| == Count(ss, false, true) + Count(ss, true, true)
    ensures ValidMoves(MovesOf(ss)) && forall k | 0 <= k < |MovesOf(ss)| :: MovesOf(ss)[k].count == 1
  {
    if ss != [] {
      MovesAreColumn(ss[..|ss| - 1]);
    }
  }

  /** Every sample is in one cell of the histogram. */
  lemma {:induction false} CountsSum(ss: seq<Sample>)
    ensures Count(ss, false, false) + Count(ss, false, true) + Count(ss, true, false) + Count(ss, true, true) == |ss|
  {
    if ss != [] {
      CountsSum(ss[..|ss| - 1]);
    }
  }

  /** A span of time that a bar stands for. */
  datatype Bin =
    | Day(d: int)
    | Hour(d: int, h: int)
    | Minute(d: int, h: int, m: int)
    | Second(d: int, h: int, m: int, s: int)

  predicate In(m: Move, b: Bin) {
    match b
    case Day(d) => m.date == Some(d)
    case Hour(d, h) => m.date == Some(d) && m.hour == h
    case Minute(d, h, n) => m.date == Some(d) && m.hour == h && m.minute == n
    case Second(d, h, n, s) => m.date == Some(d) && m.hour == h && m.minute == n && m.second == s
  }

  /** A view shows a bin that can be divided, as `Width` bars. */
  predicate Viewable(b: Bin) { !b.Second? }

  function Width(b: Bin): nat
    requires Viewable(b)
  {
    if b.Day? then 24 else 60
  }

  function Bar(b: Bin, i: int): Bin
    requires Viewable(b)
  {
    match b
    case Day(d) => Hour(d, i)
    case Hour(d, h) => Minute(d, h, i)
    case Minute(d, h, m) => Second(d, h, m, i)
  }

  /** The bar of the view of `b` that a movement in `b` belongs to. */
  function BarIndex(m: Move, b: Bin): int
    requires Viewable(b)
  {
    match b
    case Day(_) => m.hour
    case Hour(_, _) => m.minute
    case Minute(_, _, _) => m.second
  }

  function Height(ms: seq<Move>, b: Bin): nat {
    if ms == [] then 0
    else Height(ms[..|ms| - 1], b) + if In(ms[|ms| - 1], b) then ms[|ms| - 1].count else 0
  }

  /** The sum of the first `n` bars in the view of `b`. */
  function SumBars(ms: seq<Move>, b: Bin, n: nat): nat
    requires Viewable(b)
  {
    if n == 0 then 0 else SumBars(ms, b, n - 1) + Height(ms, Bar(b, n - 1))
  }

  lemma {:induction false} SumBarsSnoc(ms: seq<Move>, m: Move, b: Bin, n: nat)
    requires Viewable(b)
    ensures SumBars(ms + [m], b, n) == SumBars(ms, b, n) + if In(m, b) && 0 <= BarIndex(m, b) < n then m.count else 0
  {
    if n > 0 {
      SumBarsSnoc(ms, m, b, n - 1);
      assert (ms + [m])[..|ms|] == ms;
      assert In(m, Bar(b, n - 1)) <==> In(m, b) && BarIndex(m, b) == n - 1;
    }
  }

  lemma {:induction false} SumOfNone(b: Bin, n: nat)
    requires Viewable(b)
    ensures SumBars([], b, n) == 0
  {
    if n > 0 {
      SumOfNone(b, n - 1);
    }
  }

  /** Each bar of the day view is the sum of that hour's minute bars, each of those the sum of its
      second bars, and the day's bars add up to the day. */
  lemma {:induction false} BarIsSumOfBars(ms: seq<Move>, b: Bin)
    requires Viewable(b) && ValidMoves(ms)
    ensures Height(ms, b) == SumBars(ms, b, Width(b))
  {
    if ms == [] {
      SumOfNone(b, Width(b));
    } else {
      var before, m := ms[..|ms| - 1], ms[|ms| - 1];
      BarIsSumOfBars(before, b);
      SumBarsSnoc(before, m, b, Width(b));
      assert ms == before + [m];
      assert ValidMove(m);
    }
  }

  // ---------- bars in terms of the samples ----------

  predicate ValidBin(b: Bin) {
    && (!b.Day? ==> 0 <= b.h < 24)
    && (b.Minute? || b.Second? ==> 0 <= b.m < 60)
    && (b.Second? ==> 0 <= b.s < 60)
  }

  /** The millisecond with which the span of a bin begins. */
  function SpanStart(b: Bin): int {
    86400000 * b.d + (if b.Day? then 0 else 3600000 * b.h)
    + (if b.Minute? || b.Second? then 60000 * b.m else 0) + if b.Second? then 1000 * b.s else 0
  }

  function SpanLength(b: Bin): int {
    match b
    case Day(_) => 86400000
    case Hour(_, _) => 3600000
    case Minute(_, _, _) => 60000
    case Second(_, _, _, _) => 1000
  }

  predicate InSpan(time: int, b: Bin) { SpanStart(b) <= time < SpanStart(b) + SpanLength(b) }

  /** Hour, minute and second of a record are those of a clock. */
  lemma MoveAtIsClock(time: int)
    ensures var m := MoveAt(time);
            && ValidMove(m) && m.count == 1 && m.date.Some?
            && 0 <= time - (86400000 * m.date.value + 3600000 * m.hour + 60000 * m.minute + 1000 * m.second) < 1000
  {
    var s := time / 1000;
    assert time / 60000 == s / 60 && time / 3600000 == s / 3600 && time / 86400000 == s / 86400;
    assert s / 3600 == (s / 60) / 60 && s / 86400 == (s / 3600) / 24;
  }

  lemma MoveInDay(time: int, d: int)
    ensures MoveAt(time).date == Some(d) <==> InSpan(time, Day(d))
  {
    hide MoveAt;
    MoveAtIsClock(time);
  }

  lemma MoveInHour(time: int, d: int, h: int)
    requires 0 <= h < 24 && MoveAt(time).date == Some(d)
    ensures MoveAt(time).hour == h <==> InSpan(time, Hour(d, h))
  {
    hide MoveAt;
    MoveAtIsClock(time);
  }

  lemma MoveInMinute(time: int, d: int, h: int, n: int)
    requires 0 <= n < 60 && MoveAt(time).date == Some(d) && MoveAt(time).hour == h
    ensures MoveAt(time).minute == n <==> InSpan(time, Minute(d, h, n))
  {
    hide MoveAt;
    MoveAtIsClock(time);
  }

  lemma MoveInSecond(time: int, d: int, h: int, n: int, s: int)
    requires 0 <= s < 60 && MoveAt(time).date == Some(d) && MoveAt(time).hour == h && MoveAt(time).minute == n
    ensures MoveAt(time).second == s <==> InSpan(time, Second(d, h, n, s))
  {
    hide MoveAt;
    MoveAtIsClock(time);
  }

  /** A record falls into the bin of the moment at which it was made. */
  lemma MoveInSpan(time: int, b: Bin)
    requires ValidBin(b)
    ensures In(MoveAt(time), b) <==> InSpan(time, b)
  {
    hide MoveAt;
    var m := MoveAt(time);
    assert InSpan(time, b) ==> InSpan(time, Day(b.d));
    MoveInDay(time, b.d);
    if m.date == Some(b.d) && !b.Day? {
      assert InSpan(time, b) ==> InSpan(time, Hour(b.d, b.h));
      MoveInHour(time, b.d, b.h);
      if m.hour == b.h && !b.Hour? {
        assert InSpan(time, b) ==> InSpan(time, Minute(b.d, b.h, b.m));
        MoveInMinute(time, b.d, b.h, b.m);
        if m.minute == b.m && b.Second? {
          MoveInSecond(time, b.d, b.h, b.m, b.s);
        }
      }
    }
  }

  /** The samples with movement in the span of a bin. */
  function Movements(ss: seq<Sample>, b: Bin): set<int> {
    Where(ss, (s: Sample) => s.human && InSpan(s.time, b))
  }

  /** The height of a bar is the number of samples with movement in its span. */
  lemma {:induction false} HeightIsNumber(ss: seq<Sample>, b: Bin)
    requires ValidBin(b)
    ensures Height(MovesOf(ss), b) == |Movements(ss, b)|
  {
    if ss == [] {
      assert Movements(ss, b) == {};
    } else {
      var n := |ss| - 1;
      var before, s := ss[..n], ss[n];
      HeightIsNumber(before, b);
      WhereSnoc(ss, (s: Sample) => s.human && InSpan(s.time, b));
      MoveInSpan(s.time, b);
      assert ss == before + [s];
      MovesSnoc(before, s);
      hide MovesOf, In, InSpan, MoveAt, Movements;
      if s.human {
        HeightSnoc(MovesOf(before), MoveAt(s.time), b);
        assert MoveAt(s.time).count == 1 by { MoveAtIsClock(s.time); }
      }
    }
  }

  lemma HeightSnoc(ms: seq<Move>, m: Move, b: Bin)
    ensures Height(ms + [m], b) == Height(ms, b) + if In(m, b) then m.count else 0
  {
    assert (ms + [m])[..|ms|] == ms;
  }

  /** Rows blanked by resets count for nothing. */
  lemma {:induction false} BlanksAreFlat(n: nat, ms: seq<Move>, b: Bin)
    ensures Height(Blanks(n) + ms, b) == Height(ms, b)
  {
    var all := Blanks(n) + ms;
    if ms != [] {
      BlanksAreFlat(n, ms[..|ms| - 1], b);
      assert all[..|all| - 1] == Blanks(n) + ms[..|ms| - 1];
    } else if n > 0 {
      BlanksAreFlat(n - 1, ms, b);
      assert all[..|all| - 1] == Blanks(n - 1) + ms;
    }
  }

  /** The sum of the listed counts. */
  function TotalCount(ms: seq<Move>): nat {
    if ms == [] then 0 else TotalCount(ms[..|ms| - 1]) + ms[|ms| - 1].count
  }

  /** With the rows that resets have blanked still in the list, the listed counts sum to the movement
      column of the histogram. */
  lemma {:induction false} ListedIsColumn(n: nat, ss: seq<Sample>)
    ensures TotalCount(Blanks(n) + MovesOf(ss)) == Count(ss, false, true) + Count(ss, true, true)
  {
    var all := Blanks(n) + MovesOf(ss);
    if ss != [] {
      var before := ss[..|ss| - 1];
      ListedIsColumn(n, before);
      if ss[|ss| - 1].human {
        assert all[..|all| - 1] == Blanks(n) + MovesOf(before);
      } else {
        assert all == Blanks(n) + MovesOf(before);
      }
    } else if n > 0 {
      ListedIsColumn(n - 1, ss);
      assert all[..|all| - 1] == Blanks(n - 1) + MovesOf(ss);
    }
  }

  // ---------- the program ----------

  class History {
    const statusArray: array<(bool, bool)>
    const record: array<Row>
    const statistics: array2<nat>
    var moves: seq<Move>

    // the samples since the last reset (or the start), and the number of rows it left in the list
    ghost var samples: seq<Sample>
    ghost var blanks: nat

    ghost predicate TableOk()
      reads this`samples, record, statusArray
    {
      && record.Length == ROWS && statusArray.Length == SAMPLES
      && statusArray[SAMPLES - 1] == Status(samples)
      && record[..] == TableOf(Stays(samples))
    }

    ghost predicate MovesOk()
      reads this`moves, this`samples, this`blanks
    {
      moves == Blanks(blanks) + MovesOf(samples)
    }

    ghost predicate CountsOk()
      reads this`samples, statistics
    {
      && statistics.Length0 == 2 == statistics.Length1
      && statistics[0, 0] == Count(samples, false, false) && statistics[0, 1] == Count(samples, false, true)
      && statistics[1, 0] == Count(samples, true, false) && statistics[1, 1] == Count(samples, true, true)
    }

    constructor ()
      ensures TableOk() && MovesOk() && CountsOk() && fresh(record) && fresh(statusArray) && fresh(statistics)
      ensures samples == [] && blanks == 0
    {
      statusArray := new (bool, bool)[SAMPLES](_ => (false, false));
      record := new Row[ROWS](_ => EMPTY);
      statistics := new nat[2, 2]((_, _) => 0);
      moves, samples, blanks := [], [], 0;
    }

    /** Scroll the status array and put the new status at its end. */
    method PushStatus(room: bool, human: bool)
      requires statusArray.Length == SAMPLES
      modifies statusArray
      ensures statusArray[SAMPLES - 1] == (room, human)
      ensures statusArray[..SAMPLES - 1] == old(statusArray[1..])
      ensures statusArray[SAMPLES - 2] == old(statusArray[SAMPLES - 1])
    {
      forall k | 0 <= k < SAMPLES - 1 {
        statusArray[k] := statusArray[k + 1];
      }
      statusArray[SAMPLES - 1] := (room, human);
    }

    /** Shift the table down and begin a new row at the top. The top row is not cleared first: it
        keeps the old top row's contents until each cell is overwritten, except its stop
        time, which no top row ever has. */
    method BeginRow(s: Sample)
      requires record.Length == ROWS
      modifies record
      ensures record[..] == ShiftedIn(old(record[..]), s)
    {
      forall k | 1 <= k < ROWS {
        record[k] := record[k - 1];
      }
      record[0] := record[0].(start := Some(s.time));
      record[0] := record[0].(room := Some(s.room));
      record[0] := record[0].(human := Some(s.human));
      if record[1].start.Some? {
        record[1] := record[1].(stop := Some(s.time));
      }
      assert forall k | 0 <= k < ROWS :: record[..][k] == ShiftedIn(old(record[..]), s)[k];
    }

    /** The rows after a sample that did or did not change the status. */
    method UpdateRows(s: Sample, changed: bool)
      requires record.Length == ROWS
      modifies record
      ensures record[..] == Spent(if changed then ShiftedIn(old(record[..]), s) else old(record[..]), s)
    {
      if changed {
        BeginRow(s);
      }
      if record[0].start.Some? {
        record[0] := record[0].(spend := Some(s.time - record[0].start.value));
      }
    }

    /** The table part of `radar_data_handle`. */
    method RecordStatus(s: Sample)
      requires TableOk()
      modifies record, statusArray
      ensures record.Length == ROWS && statusArray.Length == SAMPLES
      ensures statusArray[SAMPLES - 1] == Status(samples + [s])
      ensures record[..] == TableOf(Stays(samples + [s]))
    {
      StaysSnoc(samples, s);
      TableStep(Stays(samples), s, Status(samples));
      PushStatus(s.room, s.human);
      UpdateRows(s, statusArray[SAMPLES - 1] != statusArray[SAMPLES - 2]);
    }

    /** The evaluation part. */
    method CountStatus(s: Sample)
      requires CountsOk()
      modifies statistics
      ensures statistics[0, 0] == Count(samples + [s], false, false)
      ensures statistics[0, 1] == Count(samples + [s], false, true)
      ensures statistics[1, 0] == Count(samples + [s], true, false)
      ensures statistics[1, 1] == Count(samples + [s], true, true)
    {
      CountSnoc(samples, s);
      statistics[Index(s.room), Index(s.human)] := statistics[Index(s.room), Index(s.human)] + 1;
    }

    /** `radar_data_handle`: after any stream of samples and resets the table shows the 20 newest stays
        since the last reset, the histogram counts the samples since then, and the movements since
        then are listed after the blank rows. */
    method RadarDataHandle(s: Sample)
      requires TableOk() && MovesOk() && CountsOk()
      modifies record, statusArray, statistics, this`samples, this`moves
      ensures TableOk() && MovesOk() && CountsOk()
      ensures samples == old(samples) + [s]
    {
      MovesSnoc(samples, s);
      RecordStatus(s);
      if s.human {
        moves := moves + [MoveAt(s.time)];
      }
      CountStatus(s);
      samples := samples + [s];
    }

    /** The start of an evaluation sets everything back, in place: table, statuses and histogram are as
        at the start, and every row of the movement list is overwritten with zeros. */
    method ResetEvaluation()
      requires TableOk() && MovesOk() && CountsOk()
      modifies record, statusArray, statistics, this`samples, this`moves, this`blanks
      ensures TableOk() && MovesOk() && CountsOk()
      ensures samples == [] && |moves| == blanks == |old(moves)|
    {
      moves := seq(|moves|, _ => BLANK);
      forall k | 0 <= k < ROWS {
        record[k] := EMPTY;
      }
      forall k | 0 <= k < SAMPLES {
        statusArray[k] := (false, false);
      }
      forall i, j | 0 <= i < 2 && 0 <= j < 2 {
        statistics[i, j] := 0;
      }
      samples, blanks := [], |moves|;
      assert moves == Blanks(blanks) + MovesOf([]);
    }

    /** The bar chart of a day, an hour or a minute: bar `i` is what fell into it since the last reset,
        and the sum of its own finer bars. */
    method StatisticsView(b: Bin) returns (heights: array<nat>)
      requires MovesOk() && Viewable(b)
      ensures heights.Length == Width(b)
      ensures forall i | 0 <= i < heights.Length :: heights[i] == Height(MovesOf(samples), Bar(b, i))
      ensures ValidBin(b) ==> forall i | 0 <= i < heights.Length :: heights[i] == |Movements(samples, Bar(b, i))|
      ensures forall i | 0 <= i < heights.Length :: Viewable(Bar(b, i)) ==>
                heights[i] == SumBars(MovesOf(samples), Bar(b, i), Width(Bar(b, i)))
    {
      heights := CountBars(b);
      forall i | 0 <= i < heights.Length
        ensures heights[i] == Height(MovesOf(samples), Bar(b, i))
        ensures ValidBin(b) ==> heights[i] == |Movements(samples, Bar(b, i))|
        ensures Viewable(Bar(b, i)) ==>
                  heights[i] == SumBars(MovesOf(samples), Bar(b, i), Width(Bar(b, i)))
      {
        if ValidBin(b) {
          HeightIsNumber(samples, Bar(b, i));
        }
        BlanksAreFlat(blanks, MovesOf(samples), Bar(b, i));
        if Viewable(Bar(b, i)) {
          MovesAreColumn(samples);
          BarIsSumOfBars(MovesOf(samples), Bar(b, i));
        }
      }
    }

    /** The loop over the rows of the span, grouped by the next finer unit. */
    method CountBars(b: Bin) returns (heights: array<nat>)
      requires MovesOk() && Viewable(b)
      ensures fresh(heights) && heights.Length == Width(b)
      ensures forall i | 0 <= i < heights.Length :: heights[i] == Height(moves, Bar(b, i))
    {
      MovesAreColumn(samples);
      heights := new nat[Width(b)](_ => 0);
      for n := 0 to |moves|
        invariant forall i | 0 <= i < heights.Length :: heights[i] == Height(moves[..n], Bar(b, i))
      {
        assert moves[..n + 1][..n] == moves[..n];
        var m := moves[n];
        assert ValidMove(m);
        if In(m, b) {
          heights[BarIndex(m, b)] := heights[BarIndex(m, b)] + m.count;
        }
        assert forall i | 0 <= i < heights.Length :: In(m, Bar(b, i)) <==> In(m, b) && BarIndex(m, b) == i;
      }
      assert moves[..|moves|] == moves;
    }
  }

  lemma StaysSnoc(ss: seq<Sample>, s: Sample)
    ensures Stays(ss + [s])
            == if Status(ss) != (s.room, s.human) then [Stay(s.room, s.human, s.time, s.time)] + Stays(ss)
               else if Stays(ss) == [] then [] else [Stays(ss)[0].(seen := s.time)] + Stays(ss)[1..]
  {
    assert (ss + [s])[..|ss|] == ss;
  }

  lemma MovesSnoc(ss: seq<Sample>, s: Sample)
    ensures MovesOf(ss + [s]) == if s.human then MovesOf(ss) + [MoveAt(s.time)] else MovesOf(ss)
  {
    assert (ss + [s])[..|ss|] == ss;
  }

  lemma CountSnoc(ss: seq<Sample>, s: Sample)
    ensures forall r, h :: Count(ss + [s], r, h) == Count(ss, r, h) + if s.room == r && s.human == h then 1 else 0
  {
    assert (ss + [s])[..|ss|] == ss;
  }

  /** What shifting does to the rows. */
  function ShiftedIn(rows: seq<Row>, s: Sample): seq<Row>
    requires |rows| == ROWS
  {
    [rows[0].(start := Some(s.time), room := Some(s.room), human := Some(s.human)),
     if rows[0].start.Some? then rows[0].(stop := Some(s.time)) else rows[0]]
    + rows[1..ROWS - 1]
  }

  /** What updating the time spent does to the rows. */
  function Spent(rows: seq<Row>, s: Sample): seq<Row>
    requires |rows| == ROWS
  {
    if rows[0].start.None? then rows else rows[0 := rows[0].(spend := Some(s.time - rows[0].start.value))]
  }

  /** Shifting and updating the table of the stays gives the table of the next stays. */
  lemma TableStep(ts: seq<Stay>, s: Sample, status: (bool, bool))
    ensures if status != (s.room, s.human)
            then Spent(ShiftedIn(TableOf(ts), s), s) == TableOf([Stay(s.room, s.human, s.time, s.time)] + ts)
            else Spent(TableOf(ts), s) == TableOf(if ts == [] then [] else [ts[0].(seen := s.time)] + ts[1..])
  {
    if status != (s.room, s.human) {
      ShiftStep(ts, s);
    } else if ts != [] {
      var ts' := [ts[0].(seen := s.time)] + ts[1..];
      assert forall k | 0 < k < |ts| :: RowOf(ts', k) == RowOf(ts, k);
    }
  }

  lemma ShiftStep(ts: seq<Stay>, s: Sample)
    ensures Spent(ShiftedIn(TableOf(ts), s), s) == TableOf([Stay(s.room, s.human, s.time, s.time)] + ts)
  {
    var ts' := [Stay(s.room, s.human, s.time, s.time)] + ts;
    var a, b := Spent(ShiftedIn(TableOf(ts), s), s), TableOf(ts');
    forall k | 0 <= k < ROWS ensures a[k] == b[k] {
      if 1 <= k < |ts'| {
        assert ts'[k] == ts[k - 1];
      }
    }
  }
}
