/**
 The filters and scrolling histories of the plotting tools: each frame of samples is smoothed column by
 column, in two stages in the 3d tool, and the sum of a frame is appended to a plot of 200
 points. Values are real numbers; rounding is not modelled.
 */
module Smoothing {
  const HISTORY := 200
  const WIDTH := 300

  type Row = seq<real>

  // ---------- one column ----------

  function Smooth(x: real, value: real): real { x + (value - x) / 2.0 }

  predicate Between(lo: real, x: real, hi: real) { lo <= x <= hi }

  /** A smoothed value lies between the old one and the input. */
  lemma SmoothBetween(lo: real, x: real, v: real, hi: real)
    requires Between(lo, x, hi) && Between(lo, v, hi)
    ensures Between(lo, Smooth(x, v), hi)
  {
  }

  function Power2(n: nat): real { if n == 0 then 1.0 else 2.0 * Power2(n - 1) }

  /** `e` divided by 2 to the power `n`. */
  function Halved(e: real, n: nat): real { if n == 0 then e else Halved(e, n - 1) / 2.0 }

  lemma {:induction false} HalvedIsQuotient(e: real, n: nat)
    ensures Halved(e, n) * Power2(n) == e
  {
    if n > 0 {
      HalvedIsQuotient(e, n - 1);
      HalfTimesDouble(Halved(e, n - 1), Power2(n - 1));
    }
  }

  lemma HalfTimesDouble(h: real, p: real)
    ensures (h / 2.0) * (2.0 * p) == h * p
  {
  }

  // ---------- frames ----------

  predicate SignedBytes(raw: seq<int>) { forall k | 0 <= k < |raw| :: -128 <= raw[k] <= 127 }

  /** The lengths that the reader lets through. */
  predicate ValidLength(n: nat) { n == 128 || n == 256 || n == 384 }

  predicate ValidFrame(raw: seq<int>) { ValidLength(|raw|) && SignedBytes(raw) }

  /** How many columns a frame fills: a short frame has 88 valid values. */
  function Columns(n: nat): nat { (if n == 128 then 88 else n) / 2 }

  /** The element before an even index; index -1 is the last element. */
  function Before(raw: seq<int>, i: nat): int
    requires |raw| > 0 && 2 * i <= |raw|
  {
    if i == 0 then raw[|raw| - 1] else raw[2 * i - 1]
  }

  /** The inputs of the first filter and of the second history of the 3d tool. */
  function Sums(raw: seq<int>): Row
    requires ValidLength(|raw|)
  {
    seq(Columns(|raw|), i requires 0 <= i < Columns(|raw|) => (raw[2 * i] + Before(raw, i)) as real)
  }

  function Odds(raw: seq<int>): Row
    requires ValidLength(|raw|)
  {
    seq(Columns(|raw|), i requires 0 <= i < Columns(|raw|) => Before(raw, i) as real)
  }

  /** The inputs of the low-pass tool's filter. */
  function Differences(raw: seq<int>): Row
    requires ValidLength(|raw|)
  {
    seq(Columns(|raw|), i requires 0 <= i < Columns(|raw|) => (raw[2 * i] - raw[2 * i + 1]) as real)
  }

  /** The column that a sample is added to: the one of the next even sample, the last sample wrapping round
      to the first column. */
  function Target(raw: seq<int>, j: nat): nat
    requires |raw| >= 2
  {
    (j + 1) / 2 % (|raw| / 2)
  }

  /** How the inputs depend on each of the samples: with sample `j` greater by `d`, the sum in one column is
      greater by `d`, and so is the second history's input if `j` is odd; the difference in column `j / 2`
      is greater or smaller by `d`. */
  lemma InputsReact(raw: seq<int>, j: nat, d: int, i: nat)
    requires ValidLength(|raw|) && j < |raw| && i < Columns(|raw|)
    ensures var raw' := raw[j := raw[j] + d];
            && Sums(raw')[i] - Sums(raw)[i] == (if i == Target(raw, j) then d as real else 0.0)
            && Odds(raw')[i] - Odds(raw)[i] == (if i == Target(raw, j) && j % 2 == 1 then d as real else 0.0)
            && Differences(raw')[i] - Differences(raw)[i]
               == if i != j / 2 then 0.0 else if j % 2 == 0 then d as real else -(d as real)
  {
    var raw' := raw[j := raw[j] + d];
    InputsAt(raw, i);
    InputsAt(raw', i);
    BeforeReacts(raw, j, d, i);
    hide Sums, Odds, Differences, Target, Before, ValidLength;
    assert raw'[2 * i] - raw[2 * i] == if j == 2 * i then d else 0;
    assert raw'[2 * i + 1] - raw[2 * i + 1] == if j == 2 * i + 1 then d else 0;
  }

  lemma BeforeReacts(raw: seq<int>, j: nat, d: int, i: nat)
    requires ValidLength(|raw|) && j < |raw| && 2 * i < |raw|
    ensures Before(raw[j := raw[j] + d], i) - Before(raw, i) == if i == Target(raw, j) && j % 2 == 1 then d else 0
    ensures j % 2 == 0 ==> Target(raw, j) == j / 2
  {
    TargetIs(raw, j);
    hide Target;
  }

  lemma TargetIs(raw: seq<int>, j: nat)
    requires ValidLength(|raw|) && j < |raw|
    ensures Target(raw, j) == if j == |raw| - 1 then 0 else (j + 1) / 2
  {
    if |raw| == 128 {
      assert Target(raw, j) == (j + 1) / 2 % 64;
    } else if |raw| == 256 {
      assert Target(raw, j) == (j + 1) / 2 % 128;
    } else {
      assert Target(raw, j) == (j + 1) / 2 % 192;
    }
  }

  lemma InputsAt(raw: seq<int>, i: nat)
    requires ValidLength(|raw|) && i < Columns(|raw|)
    ensures Sums(raw)[i] == (raw[2 * i] + Before(raw, i)) as real
    ensures Odds(raw)[i] == Before(raw, i) as real
    ensures Differences(raw)[i] == (raw[2 * i] - raw[2 * i + 1]) as real
  {
  }

  /** Where all samples are zero, so are the inputs; and this is how many columns there are. */
  lemma InputsOfZeros(raw: seq<int>, i: nat)
    requires ValidLength(|raw|) && (forall k | 0 <= k < |raw| :: raw[k] == 0) && i < Columns(|raw|)
    ensures Sums(raw)[i] == Odds(raw)[i] == Differences(raw)[i] == 0.0
    ensures Columns(128) == 44 && Columns(256) == 128 && Columns(384) == 192
  {
  }

  function SmoothRow(row: Row, values: Row): Row
    requires |values| <= |row|
  {
    seq(|row|, i requires 0 <= i < |row| => if i < |values| then Smooth(row[i], values[i]) else row[i])
  }

  function ZeroRow(): Row { seq(WIDTH, _ => 0.0) }

  predicate AllBetween(lo: real, row: Row, hi: real) { forall i | 0 <= i < |row| :: Between(lo, row[i], hi) }

  predicate Inputs(vs: seq<Row>) { forall k | 0 <= k < |vs| :: |vs[k]| <= WIDTH }

  /** The filter state after a list of input rows. */
  function Filtered(vs: seq<Row>): (row: Row)
    requires Inputs(vs)
    ensures |row| == WIDTH
  {
    if vs == [] then ZeroRow() else SmoothRow(Filtered(vs[..|vs| - 1]), vs[|vs| - 1])
  }

  /** The second stage smooths the columns that the first stage has just written. */
  function Cascaded(vs: seq<Row>): (row: Row)
    requires Inputs(vs)
    ensures |row| == WIDTH
  {
    if vs == [] then ZeroRow()
    else SmoothRow(Cascaded(vs[..|vs| - 1]), Filtered(vs)[..|vs[|vs| - 1]|])
  }

  lemma SmoothRowBetween(lo: real, row: Row, values: Row, hi: real)
    requires |values| <= |row| && AllBetween(lo, row, hi) && AllBetween(lo, values, hi)
    ensures AllBetween(lo, SmoothRow(row, values), hi)
  {
    forall i | 0 <= i < |row| ensures Between(lo, SmoothRow(row, values)[i], hi) {
      if i < |values| {
        SmoothBetween(lo, row[i], values[i], hi);
      }
    }
  }

  /** Both stages stay inside any range that contains 0 and the inputs. */
  lemma {:induction false} StagesStayInRange(lo: real, vs: seq<Row>, hi: real)
    requires Inputs(vs) && lo <= 0.0 <= hi && forall k | 0 <= k < |vs| :: AllBetween(lo, vs[k], hi)
    ensures AllBetween(lo, Filtered(vs), hi) && AllBetween(lo, Cascaded(vs), hi)
  {
    if vs != [] {
      var before, v := vs[..|vs| - 1], vs[|vs| - 1];
      StagesStayInRange(lo, before, hi);
      SmoothRowBetween(lo, Filtered(before), v, hi);
      SmoothRowBetween(lo, Cascaded(before), Filtered(vs)[..|v|], hi);
    }
  }

  predicate ValidFrames(raws: seq<seq<int>>) { forall k | 0 <= k < |raws| :: ValidFrame(raws[k]) }

  function SumsOf(raws: seq<seq<int>>): (vs: seq<Row>)
    requires ValidFrames(raws)
    ensures Inputs(vs) && |vs| == |raws|
  {
    seq(|raws|, k requires 0 <= k < |raws| => Sums(raws[k]))
  }

  function OddsOf(raws: seq<seq<int>>): (vs: seq<Row>)
    requires ValidFrames(raws)
    ensures Inputs(vs) && |vs| == |raws|
  {
    seq(|raws|, k requires 0 <= k < |raws| => Odds(raws[k]))
  }

  /** With signed bytes as input, everything the 3d tool keeps stays within the range of its inputs. */
  lemma SignedBytesStayInRange(raws: seq<seq<int>>)
    requires ValidFrames(raws)
    ensures AllBetween(-256.0, Filtered(SumsOf(raws)), 254.0)
    ensures AllBetween(-256.0, Cascaded(SumsOf(raws)), 254.0)
    ensures AllBetween(-128.0, Filtered(OddsOf(raws)), 127.0)
  {
    forall k | 0 <= k < |raws|
      ensures AllBetween(-256.0, Sums(raws[k]), 254.0) && AllBetween(-128.0, Odds(raws[k]), 127.0)
    {
      assert ValidFrame(raws[k]);
    }
    StagesStayInRange(-256.0, SumsOf(raws), 254.0);
    StagesStayInRange(-128.0, OddsOf(raws), 127.0);
  }

  lemma SumsOfSnoc(raws: seq<seq<int>>, raw: seq<int>)
    requires ValidFrames(raws) && ValidFrame(raw)
    ensures ValidFrames(raws + [raw])
    ensures SumsOf(raws + [raw]) == SumsOf(raws) + [Sums(raw)]
    ensures OddsOf(raws + [raw]) == OddsOf(raws) + [Odds(raw)]
  {
  }

  lemma FilteredSnoc(vs: seq<Row>, v: Row)
    requires Inputs(vs) && |v| <= WIDTH
    ensures Filtered(vs + [v]) == SmoothRow(Filtered(vs), v)
    ensures Cascaded(vs + [v]) == SmoothRow(Cascaded(vs), Filtered(vs + [v])[..|v|])
  {
    assert (vs + [v])[..|vs|] == vs;
  }

  function Copies(v: Row, n: nat): seq<Row> { seq(n, _ => v) }

  lemma FilteredColumn(vs: seq<Row>, v: Row, i: nat)
    requires Inputs(vs) && i < |v| <= WIDTH
    ensures Inputs(vs + [v])
    ensures Filtered(vs + [v])[i] == Smooth(Filtered(vs)[i], v[i])
  {
    FilteredSnoc(vs, v);
  }

  /** From any filter state, a constant input shrinks the error of each of its columns by exactly
      2 to the power n in n frames. */
  lemma {:induction false} ErrorHalves(vs: seq<Row>, v: Row, n: nat, i: nat)
    requires Inputs(vs) && i < |v| <= WIDTH
    ensures Inputs(vs + Copies(v, n))
    ensures v[i] - Filtered(vs + Copies(v, n))[i] == Halved(v[i] - Filtered(vs)[i], n)
  {
    if n == 0 {
      assert vs + Copies(v, n) == vs;
    } else {
      var before := vs + Copies(v, n - 1);
      ErrorHalves(vs, v, n - 1, i);
      assert vs + Copies(v, n) == before + [v];
      FilteredColumn(before, v, i);
    }
  }

  /** Columns that a frame does not fill stay as they are, and all begin with 0. */
  lemma OtherColumnsStay(vs: seq<Row>, v: Row, i: nat)
    requires Inputs(vs) && |v| <= i < WIDTH
    ensures Inputs(vs + [v]) && Inputs([])
    ensures Filtered(vs + [v])[i] == Filtered(vs)[i] && Cascaded(vs + [v])[i] == Cascaded(vs)[i]
    ensures Filtered([])[i] == Cascaded([])[i] == 0.0
  {
    FilteredSnoc(vs, v);
  }

  lemma {:induction false} HalvedSum(a: real, b: real, n: nat)
    ensures Halved(a, n) + Halved(b, n) == Halved(a + b, n)
    ensures Halved(b / 2.0, n) == Halved(b, n) / 2.0
  {
    if n > 0 {
      HalvedSum(a, b, n - 1);
    }
  }

  lemma CascadedColumn(vs: seq<Row>, v: Row, i: nat)
    requires Inputs(vs) && i < |v| <= WIDTH
    ensures Inputs(vs + [v])
    ensures Cascaded(vs + [v])[i] == Smooth(Cascaded(vs)[i], Filtered(vs + [v])[i])
  {
    FilteredSnoc(vs, v);
  }

  function Times(n: nat, h: real): real { n as real * h }

  lemma TimesNext(n: nat, h: real)
    ensures Times(0, h) == 0.0 && Times(n + 1, h) == Times(n, h) + h
  {
    assert (n + 1) as real == n as real + 1.0;
  }

  /** The second stage follows the first with a lag: under a constant input its error is exactly the
      sum of its own and of `n` halves of the first stage's, divided by 2 to the power `n`. */
  lemma {:induction false} CascadedErrorHalves(vs: seq<Row>, v: Row, n: nat, i: nat)
    requires Inputs(vs) && i < |v| <= WIDTH
    ensures Inputs(vs + Copies(v, n))
    ensures v[i] - Cascaded(vs + Copies(v, n))[i]
            == Halved(v[i] - Cascaded(vs)[i] + Times(n, (v[i] - Filtered(vs)[i]) / 2.0), n)
  {
    hide Times, Filtered, Cascaded;
    var first, second := v[i] - Filtered(vs)[i], v[i] - Cascaded(vs)[i];
    if n == 0 {
      TimesNext(0, first / 2.0);
      assert vs + Copies(v, n) == vs;
    } else {
      var before := vs + Copies(v, n - 1);
      CascadedErrorHalves(vs, v, n - 1, i);
      ErrorHalves(vs, v, n, i);
      assert vs + Copies(v, n) == before + [v];
      CascadedColumn(before, v, i);
      TimesNext(n - 1, first / 2.0);
      HalvedSum(second + Times(n - 1, first / 2.0), first / 2.0, n - 1);
      HalvedSum(0.0, first, n - 1);
    }
  }

  function Total(row: Row, n: nat): real
    requires n <= |row|
  {
    if n == 0 then 0.0 else Total(row, n - 1) + row[n - 1]
  }

  /** The total grows by what one of its columns grows by, from 0 for zeros. */
  lemma {:induction false} TotalReacts(row: Row, i: nat, d: real, n: nat)
    requires i < |row| && n <= |row|
    ensures Total(row[i := row[i] + d], n) == Total(row, n) + if i < n then d else 0.0
    ensures (forall k | 0 <= k < n :: row[k] == 0.0) ==> Total(row, n) == 0.0
  {
    if n > 0 {
      TotalReacts(row, i, d, n - 1);
    }
  }

  /** Move everything one place to the left; the last element stays as well. */
  method ScrollLeft<T>(a: array<T>)
    requires a.Length > 0
    modifies a
    ensures a[..] == old(a[1..]) + [old(a[a.Length - 1])]
  {
    forall k | 0 <= k < a.Length - 1 {
      a[k] := a[k + 1];
    }
  }

  // ---------- the plot ----------

  /** `outdata4` and `prog`: the newest point is at index `prog`, older ones before it. */
  class Plot {
    const points: array<real>
    var prog: nat

    ghost var all: seq<real>

    ghost predicate Valid()
      reads this, points
    {
      points.Length == HISTORY && Shows(points[..], prog, all)
    }

    constructor ()
      ensures Valid() && fresh(points) && all == []
    {
      points := new real[HISTORY](_ => 0.0);
      prog, all := 0, [];
    }

    /** Append a point, scrolling once the end is reached. */
    method Push(z: real)
      requires Valid()
      modifies this, points
      ensures Valid() && all == old(all) + [z] && points[prog] == z
    {
      ghost var was := points[..];
      if prog >= HISTORY - 1 {
        ScrollShows(was, prog, all, z);
        ScrollLeft(points);
        points[prog] := z;
        assert points[..] == was[1..] + [z];
      } else {
        AdvanceShows(was, prog, all, z);
        prog := prog + 1;
        points[prog] := z;
        assert points[..] == was[prog := z];
      }
      all := all + [z];
    }
  }

  /** The plot shows exactly the last 200 points, or all of them while there are fewer. */
  predicate Shows(points: seq<real>, prog: nat, all: seq<real>) {
    var n := if |all| < HISTORY then |all| else HISTORY;
    && |points| == HISTORY
    && prog == (if |all| < HISTORY - 1 then |all| else HISTORY - 1)
    && points[prog + 1 - n..prog + 1] == all[|all| - n..]
  }

  lemma ScrollShows(points: seq<real>, prog: nat, all: seq<real>, z: real)
    requires Shows(points, prog, all) && prog == HISTORY - 1
    ensures Shows(points[1..] + [z], prog, all + [z])
  {
    var more := points[1..] + [z];
    assert more[0..HISTORY] == more;
    assert points[1..] == all[|all| - (HISTORY - 1)..] by {
      if |all| >= HISTORY {
        assert points[0..HISTORY] == points;
      }
    }
    assert (all + [z])[|all| + 1 - HISTORY..] == all[|all| - (HISTORY - 1)..] + [z];
  }

  lemma AdvanceShows(points: seq<real>, prog: nat, all: seq<real>, z: real)
    requires Shows(points, prog, all) && prog < HISTORY - 1
    ensures Shows(points[prog + 1 := z], prog + 1, all + [z])
  {
    var n := |all|;
    assert prog == n && all[0..] == all;
    assert points[prog + 1 := z][1..prog + 2] == points[1..prog + 1] + [z];
    assert (all + [z])[0..] == all + [z];
  }

  // ---------- the 3d tool ----------

  /** `fill` of the 3d tool over its two scrolling histories, whose last rows are the filter states,
      and the second stage. */
  class Histories {
    const outdata: array<Row>
    const outdata2: array<Row>
    var currsum: Row
    const plot: Plot

    ghost var raws: seq<seq<int>>

    ghost predicate Valid()
      reads this, outdata, outdata2, plot, plot.points
    {
      && outdata != outdata2 && ValidFrames(raws)
      && Scrolled(outdata[..], SumsOf(raws)) && Scrolled(outdata2[..], OddsOf(raws))
      && currsum == Cascaded(SumsOf(raws))
      && plot.Valid() && plot.all == PlottedSums(raws)
    }

    constructor ()
      ensures Valid() && raws == []
      ensures fresh(outdata) && fresh(outdata2) && fresh(plot) && fresh(plot.points)
    {
      outdata := new Row[HISTORY](_ => ZeroRow());
      outdata2 := new Row[HISTORY](_ => ZeroRow());
      currsum, raws := ZeroRow(), [];
      plot := new Plot();
    }

    /** Scroll up; the last row stays, to be smoothed towards the new values. */
    method Scroll(a: array<Row>, values: Row, ghost vs: seq<Row>)
      requires Scrolled(a[..], vs) && |values| <= WIDTH
      modifies a
      ensures Scrolled(a[..], vs + [values])
    {
      ghost var was := a[..];
      ScrollLeft(a);
      assert was[HISTORY - 1] == Filtered(vs) by { RowOf(was, vs, 0); }
      ghost var row := a[HISTORY - 1];
      assert SmoothRow(row, values[..0]) == row;
      for i := 0 to |values|
        invariant a[..] == was[1..] + [SmoothRow(row, values[..i])]
      {
        SmoothNext(row, values, i);
        a[HISTORY - 1] := a[HISTORY - 1][i := Smooth(a[HISTORY - 1][i], values[i])];
      }
      assert values[..|values|] == values;
      ScrolledNext(was, vs, values);
    }

    method Fill(raw: seq<int>)
      requires Valid() && ValidFrame(raw)
      modifies this`currsum, this`raws, outdata, outdata2, plot, plot.points
      ensures Valid() && raws == old(raws) + [raw]
      ensures plot.all == old(plot.all) + [Total(currsum, Columns(|raw|))]
    {
      hide PlottedSums, Cascaded, Filtered, SmoothRow, Scrolled, Shows;
      ghost var vs, ws := SumsOf(raws), OddsOf(raws);
      SumsOfSnoc(raws, raw);
      FilteredSnoc(vs, Sums(raw));
      PlottedSumsSnoc(raws, raw);
      Scroll(outdata, Sums(raw), vs);
      Scroll(outdata2, Odds(raw), ws);
      RowOf(outdata[..], vs + [Sums(raw)], 0);
      currsum := SmoothRow(currsum, outdata[HISTORY - 1][..Columns(|raw|)]);
      raws := raws + [raw];
      var zsum := 0.0;
      for i := 0 to Columns(|raw|)
        invariant zsum == Total(currsum, i)
      {
        zsum := zsum + currsum[i];
      }
      plot.Push(zsum);
    }
  }

  /** What is plotted for each of the frames: the sum of the second stage over the frame's columns. */
  function PlottedSums(raws: seq<seq<int>>): seq<real>
    requires ValidFrames(raws)
  {
    if raws == [] then []
    else
      var last := raws[|raws| - 1];
      assert ValidFrame(last);
      PlottedSums(raws[..|raws| - 1]) + [Total(Cascaded(SumsOf(raws)), Columns(|last|))]
  }

  lemma PlottedSumsSnoc(raws: seq<seq<int>>, raw: seq<int>)
    requires ValidFrames(raws) && ValidFrame(raw)
    ensures ValidFrames(raws + [raw])
    ensures PlottedSums(raws + [raw]) == PlottedSums(raws) + [Total(Cascaded(SumsOf(raws + [raw])), Columns(|raw|))]
  {
    assert (raws + [raw])[..|raws|] == raws;
  }

  /** Row `k` from the end is the filter state `k` frames ago; before the first frame that was zero. */
  ghost predicate Scrolled(rows: seq<Row>, vs: seq<Row>) {
    && |rows| == HISTORY && Inputs(vs)
    && forall j | 0 <= j < HISTORY :: rows[j] == StateAgo(vs, HISTORY - 1 - j)
  }

  function StateAgo(vs: seq<Row>, k: nat): Row
    requires Inputs(vs)
  {
    if k <= |vs| then Filtered(vs[..|vs| - k]) else ZeroRow()
  }

  lemma RowOf(rows: seq<Row>, vs: seq<Row>, k: nat)
    requires Scrolled(rows, vs) && k < HISTORY
    ensures rows[HISTORY - 1 - k] == StateAgo(vs, k)
    ensures StateAgo(vs, 0) == Filtered(vs)
  {
    assert vs[..|vs|] == vs;
  }

  lemma ScrolledNext(rows: seq<Row>, vs: seq<Row>, v: Row)
    requires Scrolled(rows, vs) && |v| <= WIDTH
    ensures Scrolled(rows[1..] + [SmoothRow(Filtered(vs), v)], vs + [v])
  {
    var rows' := rows[1..] + [SmoothRow(Filtered(vs), v)];
    forall j | 0 <= j < HISTORY ensures rows'[j] == StateAgo(vs + [v], HISTORY - 1 - j) {
      StateNext(vs, v, HISTORY - 1 - j);
      if j < HISTORY - 1 {
        RowOf(rows, vs, HISTORY - 1 - (j + 1));
      }
    }
  }

  lemma StateNext(vs: seq<Row>, v: Row, k: nat)
    requires Inputs(vs) && |v| <= WIDTH
    ensures Inputs(vs + [v])
    ensures StateAgo(vs + [v], k) == if k == 0 then SmoothRow(Filtered(vs), v) else StateAgo(vs, k - 1)
  {
    var vs' := vs + [v];
    if k == 0 {
      FilteredSnoc(vs, v);
      assert vs'[..|vs'|] == vs';
    } else if k <= |vs'| {
      assert vs'[..|vs'| - k] == vs[..|vs| - (k - 1)];
    }
  }

  lemma SmoothNext(row: Row, values: Row, i: nat)
    requires i < |values| <= |row|
    ensures var r := SmoothRow(row, values[..i]);
            r[i := Smooth(r[i], values[i])] == SmoothRow(row, values[..i + 1])
  {
  }

  // ---------- the low-pass tool ----------

  /** `fill` of the low-pass tool: one filter, no history; the plotted sum is that of the raw even
      samples. */
  class LowPass {
    const outdata: array<real>
    const plot: Plot

    ghost predicate Valid()
      reads this, outdata, plot, plot.points
    {
      && outdata.Length == HISTORY && outdata != plot.points && plot.Valid()
      && AllBetween(-255.0, outdata[..], 255.0)
    }

    constructor ()
      ensures Valid() && fresh(outdata) && fresh(plot) && fresh(plot.points)
    {
      outdata := new real[HISTORY](_ => 0.0);
      plot := new Plot();
    }

    method Fill(raw: seq<int>)
      requires Valid() && ValidFrame(raw)
      modifies outdata, plot, plot.points
      ensures Valid()
      ensures outdata[..] == SmoothRow(old(outdata[..]), Differences(raw))
      ensures plot.all == old(plot.all) + [EvenSum(raw, Columns(|raw|)) as real]
    {
      var values := Differences(raw);
      ghost var row := outdata[..];
      assert SmoothRow(row, values[..0]) == row;
      for i := 0 to Columns(|raw|)
        invariant outdata[..] == SmoothRow(row, values[..i])
        modifies outdata
      {
        SmoothNext(row, values, i);
        outdata[i] := Smooth(outdata[i], values[i]);
      }
      assert values[..|values|] == values;
      SmoothRowBetween(-255.0, row, values, 255.0);
      var zsum := 0;
      for i := 0 to Columns(|raw|)
        invariant zsum == EvenSum(raw, i)
      {
        zsum := zsum + raw[2 * i];
      }
      plot.Push(zsum as real);
    }
  }

  function EvenSum(raw: seq<int>, n: nat): int
    requires 2 * n <= |raw|
  {
    if n == 0 then 0 else EvenSum(raw, n - 1) + raw[2 * (n - 1)]
  }

  /** The plotted sum depends on the even samples alone. */
  lemma {:induction false} EvenSumReacts(raw: seq<int>, j: nat, d: int, n: nat)
    requires j < |raw| && 2 * n <= |raw|
    ensures EvenSum(raw[j := raw[j] + d], n) == EvenSum(raw, n) + if j % 2 == 0 && j < 2 * n then d else 0
    ensures (forall k | 0 <= k < |raw| :: raw[k] == 0) ==> EvenSum(raw, n) == 0
  {
    if n > 0 {
      EvenSumReacts(raw, j, d, n - 1);
    }
  }
}
