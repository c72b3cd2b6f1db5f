/**
 Labelled collection: a console command starts a countdown on the device, every printed CSI record
 carries the tag and the number in force, and the host cuts the records into files.
 */
module Collection {
  import opened Options
  import opened Segmentation
  import Base64

  const WRAP := 0x1_0000_0000

  /** `collect_number`, `collect_taget` and whether the periodic timer exists. */
  datatype State = State(number: nat, target: string, timer: bool)

  const IDLE := State(0, UNKNOWN, false)

  /** What happens on the device: a period of the timer passes, or a record is printed. */
  datatype Event = Elapse | Print(data: seq<int>)

  /** The command stores its argument in 32 bits. */
  function Start(number: int, target: string): State { State(number % WRAP, target, true) }

  /** `collect_timercb`; the counter wraps below zero. */
  function TimerCallback(s: State): State {
    var n := (s.number - 1) % WRAP;
    if n == 0 then IDLE else s.(number := n)
  }

  function Pass(s: State): State { if s.timer then TimerCallback(s) else s }

  // ---------- how long a collection lasts ----------

  function Run(s: State, es: seq<Event>): State {
    if es == [] then s
    else
      var before := Run(s, es[..|es| - 1]);
      if es[|es| - 1].Elapse? then Pass(before) else before
  }

  function Ticks(es: seq<Event>): nat {
    if es == [] then 0 else Ticks(es[..|es| - 1]) + if es[|es| - 1].Elapse? then 1 else 0
  }

  /** How often the timer fires: as often as asked for, except that 0 is a full turn of the counter. */
  function Periods(number: int): nat { if number % WRAP == 0 then WRAP else number % WRAP }

  /** The timer lives for exactly `Periods(number)` periods, which count down to 1; the label is in
      force exactly as long (so it differs from "unknown" exactly while the timer lives, for
      every label but "unknown" itself). */
  lemma {:induction false} CountsDown(number: int, tag: string, es: seq<Event>)
    ensures var s, p := Run(Start(number, tag), es), Periods(number);
            if Ticks(es) < p
            then s == State((p - Ticks(es)) % WRAP, tag, true)
            else s == IDLE
  {
    if es != [] {
      CountsDown(number, tag, es[..|es| - 1]);
    }
  }

  // ---------- what is printed ----------

  /** The records printed during `es`, with the label and number in force at the time. */
  function Emitted(s: State, es: seq<Event>): seq<Rec>
    decreases |es|
  {
    if es == [] then []
    else match es[0]
      case Elapse => Emitted(Pass(s), es[1..])
      case Print(data) => [Rec(s.target, s.number, data)] + Emitted(s, es[1..])
  }

  /** The samples printed in each period: before the first elapse, between the first and the
      second, and so on. */
  function PeriodsOf(es: seq<Event>): (ps: seq<seq<seq<int>>>)
    ensures ps != []
  {
    if es == [] then [[]]
    else
      var ps := PeriodsOf(es[1..]);
      match es[0]
      case Elapse => [[]] + ps
      case Print(data) => [[data] + ps[0]] + ps[1..]
  }

  function RowsOf(tag: string, n: nat, datas: seq<seq<int>>): seq<Rec> {
    seq(|datas|, k requires 0 <= k < |datas| => Rec(tag, n, datas[k]))
  }

  /** One file per period that has records, numbered `n`, `n - 1`, ..., 1; nothing after that. */
  function PeriodFiles(tag: string, n: nat, ps: seq<seq<seq<int>>>): seq<File> {
    if n == 0 || ps == [] then []
    else PeriodFile(tag, n, ps[0]) + PeriodFiles(tag, n - 1, ps[1..])
  }

  function PeriodFile(tag: string, n: nat, datas: seq<seq<int>>): seq<File> {
    if datas == [] then [] else [File(tag, n, RowsOf(tag, n, datas))]
  }

  /** A state of a collection with `n` periods to go. */
  function Going(n: nat, tag: string): State { if n == 0 then IDLE else State(n, tag, true) }

  lemma {:induction false} PassGoing(n: nat, tag: string)
    requires n < WRAP
    ensures Pass(Going(n, tag)) == if n == 0 then IDLE else Going(n - 1, tag)
  {
  }

  /** Records still to come are unlabelled or have at most the present number. */
  predicate AtMost(rs: seq<Rec>, n: nat) {
    forall k | 0 <= k < |rs| :: rs[k].target == UNKNOWN || 0 < rs[k].seqNo <= n
  }

  lemma {:induction false} EmittedAtMost(n: nat, tag: string, es: seq<Event>)
    requires n < WRAP
    ensures AtMost(Emitted(Going(n, tag), es), n)
    decreases |es|
  {
    if es != [] {
      if es[0].Elapse? {
        PassGoing(n, tag);
        EmittedAtMost(if n == 0 then 0 else n - 1, tag, es[1..]);
      } else {
        EmittedAtMost(n, tag, es[1..]);
      }
    }
  }

  /** One more record at the front joins the file it belongs to, or opens one. */
  lemma {:induction false} SegmentsCons(r: Rec, rs: seq<Rec>)
    ensures Segments([r] + rs)
            == if r.target == UNKNOWN then Segments(rs)
               else if rs != [] && SameKey(rs[0], r) && Segments(rs) != []
               then [File(r.target, r.seqNo, [r] + Segments(rs)[0].rows)] + Segments(rs)[1..]
               else [File(r.target, r.seqNo, [r])] + Segments(rs)
  {
    var all := [r] + rs;
    assert all[1..] == rs;
    if r.target != UNKNOWN {
      if rs != [] && SameKey(rs[0], r) {
        RunLengthLike(rs, rs[0], r);
        var n := RunLength(rs, r);
        assert all[..n + 1] == [r] + rs[..n] && all[n + 1..] == rs[n..];
      } else {
        assert RunLength(all, r) == 1;
        assert all[..1] == [r];
      }
    }
  }

  lemma {:induction false} RunLengthLike(rs: seq<Rec>, a: Rec, b: Rec)
    requires SameKey(a, b)
    ensures RunLength(rs, a) == RunLength(rs, b)
  {
    if rs != [] {
      RunLengthLike(rs[1..], a, b);
    }
  }

  /** A period without records has no file. */
  lemma {:induction false} NextPeriod(tag: string, n: nat, ps: seq<seq<seq<int>>>)
    ensures PeriodFiles(tag, n, [[]] + ps) == PeriodFiles(tag, if n == 0 then 0 else n - 1, ps)
  {
    assert ([[]] + ps)[1..] == ps;
  }

  /** From a state with `n` periods to go, the host writes the files of the periods. If the present
      period has records, the first of what is printed carries its label and number. */
  lemma {:induction false} CollectionFiles(n: nat, tag: string, es: seq<Event>)
    requires n < WRAP && tag != UNKNOWN
    ensures var rs, ps := Emitted(Going(n, tag), es), PeriodsOf(es);
            && Segments(rs) == PeriodFiles(tag, n, ps)
            && (n > 0 && ps[0] != [] ==> rs != [] && rs[0].target == tag && rs[0].seqNo == n)
            && (n > 0 && ps[0] == [] && rs != [] ==> rs[0].target == UNKNOWN || rs[0].seqNo < n)
    decreases |es|
  {
    if es != [] {
      hide Segments, PeriodFiles;
      var more := es[1..];
      var ps := PeriodsOf(more);
      match es[0] {
        case Elapse =>
          var m := if n == 0 then 0 else n - 1;
          PassGoing(n, tag);
          CollectionFiles(m, tag, more);
          EmittedAtMost(m, tag, more);
          NextPeriod(tag, n, ps);
        case Print(data) =>
          CollectionFiles(n, tag, more);
          PrintOne(n, tag, data, Emitted(Going(n, tag), more), ps);
      }
    }
  }

  lemma {:induction false} PrintOne(n: nat, tag: string, data: seq<int>, rs: seq<Rec>, ps: seq<seq<seq<int>>>)
    requires tag != UNKNOWN && ps != [] && Segments(rs) == PeriodFiles(tag, n, ps)
    requires n > 0 && ps[0] != [] ==> rs != [] && rs[0].target == tag && rs[0].seqNo == n
    requires n > 0 && ps[0] == [] && rs != [] ==> rs[0].target == UNKNOWN || rs[0].seqNo < n
    ensures var s := Going(n, tag);
            Segments([Rec(s.target, s.number, data)] + rs) == PeriodFiles(tag, n, [[data] + ps[0]] + ps[1..])
  {
    var s := Going(n, tag);
    var r := Rec(s.target, s.number, data);
    SegmentsCons(r, rs);
    if n > 0 {
      PrintIntoPeriod(n, tag, data, ps);
      var more := PeriodFiles(tag, n - 1, ps[1..]);
      if ps[0] == [] {
        assert Segments(rs) == more;
        assert [r] + [] == [r];
      } else {
        assert Segments(rs) == [File(tag, n, RowsOf(tag, n, ps[0]))] + more;
      }
    }
  }

  lemma {:induction false} PrintIntoPeriod(n: nat, tag: string, data: seq<int>, ps: seq<seq<seq<int>>>)
    requires n > 0 && ps != []
    ensures PeriodFiles(tag, n, [[data] + ps[0]] + ps[1..])
            == [File(tag, n, [Rec(tag, n, data)] + RowsOf(tag, n, ps[0]))] + PeriodFiles(tag, n - 1, ps[1..])
    ensures RowsOf(tag, n, []) == []
  {
    var qs := [[data] + ps[0]] + ps[1..];
    assert qs[1..] == ps[1..];
    assert RowsOf(tag, n, [data] + ps[0]) == [Rec(tag, n, data)] + RowsOf(tag, n, ps[0]);
  }

  // ---------- the whole path ----------

  /** What the device prints in the base64 format. */
  function LineOf(r: Rec): Line { Line(r.target, r.seqNo, |r.data|, Base64.EncodeBin(r.data)) }

  function LinesOf(rs: seq<Rec>): seq<Line> {
    seq(|rs|, k requires 0 <= k < |rs| => LineOf(rs[k]))
  }

  lemma AcceptPrinted(r: Rec)
    requires Base64.AllInt8(r.data)
    ensures Accept(LineOf(r)) == Some(r)
  {
    Base64.SignedRoundTrip(r.data);
  }

  lemma LinesOfSnoc(rs: seq<Rec>, r: Rec)
    ensures LinesOf(rs + [r]) == LinesOf(rs) + [LineOf(r)]
  {
  }

  predicate Int8Recs(rs: seq<Rec>) { forall k | 0 <= k < |rs| :: Base64.AllInt8(rs[k].data) }

  /** Records with 8-bit samples are all accepted, unchanged. */
  lemma {:induction false} PrintedIsAccepted(rs: seq<Rec>)
    requires Int8Recs(rs)
    ensures Accepted(LinesOf(rs)) == rs
  {
    if rs != [] {
      var before, r := rs[..|rs| - 1], rs[|rs| - 1];
      assert rs == before + [r];
      PrintedIsAccepted(before);
      AcceptPrinted(r);
      AcceptedEnd(LinesOf(before), LineOf(r));
      LinesOfSnoc(before, r);
    }
  }

  predicate AllPrintInt8(es: seq<Event>) {
    forall k | 0 <= k < |es| && es[k].Print? :: Base64.AllInt8(es[k].data)
  }

  lemma {:induction false} EmittedInt8(s: State, es: seq<Event>)
    requires AllPrintInt8(es)
    ensures Int8Recs(Emitted(s, es))
    decreases |es|
  {
    if es != [] {
      var more := es[1..];
      assert forall k | 0 <= k < |more| :: more[k] == es[k + 1];
      match es[0] {
        case Elapse =>
          EmittedInt8(Pass(s), more);
        case Print(data) =>
          EmittedInt8(s, more);
          var r := Rec(s.target, s.number, data);
          assert Int8Recs([r] + Emitted(s, more));
      }
    }
  }

  /** A collection of `n` periods started from idle, whatever is printed when: the host ends up with
      exactly one file for each period that has a record, holding the records of that period
      and no others, in the order of the periods. */
  lemma CollectionEndToEnd(n: int, tag: string, es: seq<Event>)
    requires 1 <= n < WRAP && tag != UNKNOWN && AllPrintInt8(es)
    ensures Segments(Accepted(LinesOf(Emitted(Start(n, tag), es)))) == PeriodFiles(tag, n, PeriodsOf(es))
  {
    var s := Going(n, tag);
    assert Start(n, tag) == s;
    EmittedInt8(s, es);
    PrintedIsAccepted(Emitted(s, es));
    CollectionFiles(n, tag, es);
  }

  predicate Descending(fs: seq<File>, tag: string, n: nat) {
    && (forall k | 0 <= k < |fs| :: fs[k].target == tag && 1 <= fs[k].seqNo <= n && fs[k].rows != [])
    && (forall j, k | 0 <= j < k < |fs| :: fs[j].seqNo > fs[k].seqNo)
  }

  lemma DescendingCons(f: File, fs: seq<File>, tag: string, n: nat)
    requires 0 < n && f.target == tag && f.seqNo == n && f.rows != [] && Descending(fs, tag, n - 1)
    ensures Descending([f] + fs, tag, n)
  {
  }

  lemma DescendingMore(datas: seq<seq<int>>, fs: seq<File>, tag: string, n: nat)
    requires 0 < n && Descending(fs, tag, n - 1)
    ensures Descending(PeriodFile(tag, n, datas) + fs, tag, n)
  {
    if datas == [] {
      assert PeriodFile(tag, n, datas) + fs == fs;
    } else {
      var f := File(tag, n, RowsOf(tag, n, datas));
      assert PeriodFile(tag, n, datas) == [f] && |f.rows| > 0;
      hide Descending;
      DescendingCons(f, fs, tag, n);
    }
  }

  /** The files' numbers strictly decrease from at most `n`, down to at least 1. */
  lemma {:induction false} PeriodFilesDescend(tag: string, n: nat, ps: seq<seq<seq<int>>>)
    ensures Descending(PeriodFiles(tag, n, ps), tag, n)
  {
    if n > 0 && ps != [] {
      PeriodFilesDescend(tag, n - 1, ps[1..]);
      DescendingMore(ps[0], PeriodFiles(tag, n - 1, ps[1..]), tag, n);
    }
  }

  /** A collection after another, whether the first has ended or is replaced: each keeps its own files if
      and only if the last record of the first and the first record of the second differ in label or
      number (or one printed nothing, or they meet in an unlabelled record). */
  lemma TwoCollections(n: int, tag: string, es: seq<Event>, n': int, tag': string, es': seq<Event>)
    requires 1 <= n < WRAP && tag != UNKNOWN && AllPrintInt8(es)
    requires 1 <= n' < WRAP && tag' != UNKNOWN && AllPrintInt8(es')
    ensures var first, second := Emitted(Start(n, tag), es), Emitted(Start(n', tag'), es');
            Segments(Accepted(LinesOf(first + second)))
            == PeriodFiles(tag, n, PeriodsOf(es)) + PeriodFiles(tag', n', PeriodsOf(es'))
            <==> !Joined(first, second)
  {
    hide Segments, PeriodFiles, Emitted, Accepted;
    var first, second := Emitted(Start(n, tag), es), Emitted(Start(n', tag'), es');
    EmittedInt8(Start(n, tag), es);
    EmittedInt8(Start(n', tag'), es');
    PrintedIsAccepted(first + second);
    PrintedIsAccepted(first);
    PrintedIsAccepted(second);
    CollectionEndToEnd(n, tag, es);
    CollectionEndToEnd(n', tag', es');
    SegmentsConcat(first, second);
  }

  lemma OnePrinted(tag: string, data: seq<int>)
    ensures Emitted(Start(1, tag), [Print(data), Elapse]) == [Rec(tag, 1, data)]
  {
    assert [Print(data), Elapse][1..] == [Elapse] && [Event.Elapse][1..] == [];
    assert Emitted(Start(1, tag), [Elapse]) == [];
  }

  /** They can meet: two one-period collections with the same label and no record in between make one
      file. */
  lemma BackToBackMerges(tag: string, a: seq<int>, b: seq<int>)
    requires tag != UNKNOWN
    ensures var first := Emitted(Start(1, tag), [Print(a), Elapse]);
            var second := Emitted(Start(1, tag), [Print(b), Elapse]);
            && Joined(first, second)
            && |Segments(first)| == |Segments(second)| == |Segments(first + second)| == 1
  {
    var x, y := Rec(tag, 1, a), Rec(tag, 1, b);
    OnePrinted(tag, a);
    OnePrinted(tag, b);
    SegmentsOne(x);
    SegmentsOne(y);
    SegmentsConcat([x], [y]);
  }

  // ---------- the device ----------

  /** An event of the device, as the state goes through it. */
  function After(s: State, e: Event): State { if e.Elapse? then Pass(s) else s }

  lemma {:induction false} RunCons(s: State, e: Event, es: seq<Event>)
    ensures Run(s, [e] + es) == Run(After(s, e), es)
  {
    var all := [e] + es;
    if es == [] {
      assert all[..0] == [] && all == [e];
      assert Run(s, [e][..0]) == s;
    } else {
      RunCons(s, e, es[..|es| - 1]);
      assert all[..|all| - 1] == [e] + es[..|es| - 1];
    }
  }

  /** A record is printed with what the variables hold at that moment. */
  lemma {:induction false} EmittedSnoc(s: State, es: seq<Event>, e: Event)
    ensures Emitted(s, es + [e])
            == Emitted(s, es)
               + match e case Elapse => [] case Print(data) => [Rec(Run(s, es).target, Run(s, es).number, data)]
    decreases |es|
  {
    if es == [] {
      assert [] + [e] == [e] && [e][1..] == [];
    } else {
      EmittedSnoc(After(s, es[0]), es[1..], e);
      RunCons(s, es[0], es[1..]);
      assert [es[0]] + es[1..] == es;
      assert (es + [e])[1..] == es[1..] + [e];
    }
  }

  /** The device's variables. A collection is known by what was asked for and what happened since. */
  class Collector {
    var number: nat
    var target: string
    var timer: bool

    // the argument, the label and the events of the last collection
    ghost var asked: int
    ghost var tag: string
    ghost var events: seq<Event>

    ghost predicate Valid()
      reads this
    {
      State(number, target, timer) == Run(Start(asked, tag), events)
    }

    /** The label is "unknown" and there is no timer until a command comes. */
    constructor ()
      ensures number == 0 && target == UNKNOWN && !timer
    {
      number, target, timer := 0, UNKNOWN, false;
    }

    /** The collect part of `wifi_cmd_radar`: a running timer is replaced. */
    method Command(count: int, name: string)
      requires |name| <= 15
      modifies this
      ensures Valid() && asked == count && tag == name && events == []
      ensures timer && target == name
    {
      number := count % WRAP;
      target := name;
      if timer {
        timer := false;
      }
      timer := true;
      asked, tag, events := count, name, [];
    }

    /** `collect_timercb`, if there is a timer to call it: the collection goes on for exactly as many
        periods as were asked for, numbered down to 1, under its label. */
    method PeriodElapses()
      requires Valid()
      modifies this
      ensures Valid() && asked == old(asked) && tag == old(tag) && events == old(events) + [Elapse]
      ensures timer <==> Ticks(events) < Periods(asked)
      ensures timer ==> target == tag && number == (Periods(asked) - Ticks(events)) % WRAP
      ensures !timer ==> target == UNKNOWN && number == 0
    {
      ghost var all := events + [Elapse];
      assert all[..|all| - 1] == events;
      CountsDown(asked, tag, events);
      CountsDown(asked, tag, all);
      events := all;
      if timer {
        number := (number - 1) % WRAP;
        if number == 0 {
          timer := false;
          target := UNKNOWN;
        }
      }
    }

    /** A record is printed in the base64 format. */
    method PrintRecord(data: seq<int>) returns (line: Line)
      requires Valid()
      modifies this`events
      ensures Valid() && events == old(events) + [Print(data)]
      ensures line == LineOf(Rec(target, number, data))
      ensures LinesOf(Emitted(Start(asked, tag), events))
              == LinesOf(Emitted(Start(asked, tag), old(events))) + [line]
    {
      ghost var all := events + [Print(data)];
      assert all[..|all| - 1] == events;
      EmittedSnoc(Start(asked, tag), events, Print(data));
      LinesOfSnoc(Emitted(Start(asked, tag), events), Rec(target, number, data));
      events := all;
      line := Line(target, number, |data|, Base64.EncodeBin(data));
    }
  }

  /** Device and host together: whatever happens during a collection of `count` periods, the files the
      host opens are those of the periods. */
  method Collect(count: int, tag: string, es: seq<Event>) returns (files: seq<File>)
    requires 1 <= count < WRAP && tag != UNKNOWN && |tag| <= 15 && AllPrintInt8(es)
    ensures files == PeriodFiles(tag, count, PeriodsOf(es))
  {
    hide Emitted, Run, LinesOf, LineOf, Accepted, Segments, PeriodFiles;
    var device := new Collector();
    device.Command(count, tag);
    ghost var s := Start(count, tag);
    var lines := [];
    EmittedNothing(s);
    for i := 0 to |es|
      invariant device.Valid() && device.asked == count && device.tag == tag && device.events == es[..i]
      invariant lines == LinesOf(Emitted(s, es[..i]))
    {
      assert es[..i + 1] == es[..i] + [es[i]];
      match es[i] {
        case Elapse =>
          EmittedSnoc(s, es[..i], Elapse);
          assert Emitted(s, es[..i]) + [] == Emitted(s, es[..i]);
          device.PeriodElapses();
        case Print(data) =>
          var line := device.PrintRecord(data);
          lines := lines + [line];
      }
    }
    assert es[..|es|] == es;
    files := SerialHandle(lines);
    CollectionEndToEnd(count, tag, es);
  }

  lemma EmittedNothing(s: State)
    ensures LinesOf(Emitted(s, [])) == []
  {
  }
}
