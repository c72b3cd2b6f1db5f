/**
 Template recognition: stored templates of `n` rows are compared, row by row, with a ring of the
 last `n` frames. The 3d program keeps five frames, the low-pass program one.
 */
module Recogniser {
  import opened Options

  const COLUMNS := 384
  const CAP := 4294967295.0

  type Row = seq<real>

  datatype Template = Template(name: string, rows: seq<Row>)

  // ---------- distances ----------

  function Mul(a: real, b: real): (r: real)
    ensures a > 0.0 && b > 0.0 ==> r > 0.0
    ensures a < 0.0 && b < 0.0 ==> r > 0.0
    ensures a == 0.0 ==> r == 0.0
  {
    a * b
  }

  function Sqr(v: real): (r: real)
    ensures r >= 0.0 && (r == 0.0 <==> v == 0.0)
  {
    Mul(v, v)
  }

  function SumSquares(x: Row, y: Row, n: nat): (r: real)
    requires n <= |x| == |y|
    ensures r >= 0.0
    ensures r == 0.0 <==> x[..n] == y[..n]
  {
    if n == 0 then 0.0
    else
      assert x[..n] == x[..n - 1] + [x[n - 1]] && y[..n] == y[..n - 1] + [y[n - 1]];
      SumSquares(x, y, n - 1) + Sqr(x[n - 1] - y[n - 1])
  }

  function MeanSquare(x: Row, y: Row): real
    requires |x| == |y| > 0
  {
    SumSquares(x, y, |x|) / |x| as real
  }

  /** The distance is never negative, and zero exactly between equal rows. */
  lemma MeanSquareZero(x: Row, y: Row)
    requires |x| == |y| > 0
    ensures MeanSquare(x, y) >= 0.0
    ensures MeanSquare(x, y) == 0.0 <==> x == y
  {
    assert x[..|x|] == x && y[..|y|] == y;
    var s, n := SumSquares(x, y, |x|), |x| as real;
    assert (s / n) * n == s;
  }

  /** The sum of squared differences, one column after another. */
  lemma {:induction false} SumChanged(x: Row, y: Row, i: nat, d: real, n: nat)
    requires i < |x| == |y| && n <= |x|
    ensures SumSquares(x, y[i := x[i] + d], n)
            == SumSquares(x, y[i := x[i]], n) + if i < n then d * d else 0.0
  {
    if n > 0 {
      SumChanged(x, y, i, d, n - 1);
      if i == n - 1 {
        SquareOf(x[i], d);
      }
    }
  }

  lemma SquareOf(v: real, d: real)
    ensures Sqr(v - (v + d)) == d * d && Sqr(v - v) == 0.0
  {
    var e := v - (v + d);
    assert e == -d;
    assert Sqr(e) == (-d) * (-d) == d * d;
  }

  /** What the distance measures: a difference of `d` in one column adds `d` squared over the number of
      columns, whatever the other columns are. */
  lemma MeanSquareAdds(x: Row, y: Row, i: nat, d: real)
    requires i < |x| == |y|
    ensures MeanSquare(x, y[i := x[i] + d]) * |x| as real == MeanSquare(x, y[i := x[i]]) * |x| as real + d * d
    ensures MeanSquare(x, x[i := x[i] + d]) * |x| as real == d * d
  {
    hide MeanSquare, SumSquares;
    SumChanged(x, y, i, d, |x|);
    SumChanged(x, x, i, d, |x|);
    assert x[i := x[i]] == x;
    MeanSquareZero(x, x);
    MeanTimes(x, y[i := x[i] + d]);
    MeanTimes(x, y[i := x[i]]);
    MeanTimes(x, x[i := x[i] + d]);
    MeanTimes(x, x);
  }

  lemma MeanTimes(x: Row, y: Row)
    requires |x| == |y| > 0
    ensures MeanSquare(x, y) * |x| as real == SumSquares(x, y, |x|)
  {
    hide SumSquares;
    QuotientTimes(SumSquares(x, y, |x|), |x| as real);
  }

  lemma QuotientTimes(s: real, n: real)
    requires n != 0.0
    ensures (s / n) * n == s
  {
  }

  predicate Shaped(rows: seq<Row>, n: nat) { |rows| == n && forall k | 0 <= k < n :: |rows[k]| == COLUMNS }

  predicate ShapedAll(ts: seq<Template>, n: nat) { forall k | 0 <= k < |ts| :: Shaped(ts[k].rows, n) }

  /** Row `b` of a template is compared with ring slot `(incnt + b) mod n`. */
  function Distance(ring: seq<Row>, incnt: nat, t: Template, b: nat): real
    requires b < |ring| && Shaped(ring, |ring|) && Shaped(t.rows, |ring|)
  {
    MeanSquare(ring[(incnt + b) % |ring|], t.rows[b])
  }

  function ZeroRow(): Row { seq(COLUMNS, _ => 0.0) }

  // ---------- what the search must answer ----------

  /** No row of template `i` is nearer than `d`. */
  ghost predicate AllAtLeast(ring: seq<Row>, incnt: nat, t: Template, d: real)
    requires Shaped(ring, |ring|) && Shaped(t.rows, |ring|)
  {
    forall b: nat | b < |ring| :: Distance(ring, incnt, t, b) >= d
  }

  /** Some row of the template is at distance `d`. */
  ghost predicate Attains(ring: seq<Row>, incnt: nat, t: Template, d: real)
    requires Shaped(ring, |ring|) && Shaped(t.rows, |ring|)
  {
    exists b: nat :: b < |ring| && Distance(ring, incnt, t, b) == d
  }

  /** `d` is the least row distance of the template, or the cap if that is not below it. */
  ghost predicate LeastOf(ring: seq<Row>, incnt: nat, t: Template, d: real)
    requires Shaped(ring, |ring|) && Shaped(t.rows, |ring|)
  {
    d <= CAP && AllAtLeast(ring, incnt, t, d) && (d < CAP ==> Attains(ring, incnt, t, d))
  }

  /** The answer: the first template that attains the least distance over all rows of all
      templates, or none (-1) if nothing is below the cap. */
  ghost predicate Answer(ring: seq<Row>, incnt: nat, ts: seq<Template>, hit: int, best: real)
    requires Shaped(ring, |ring|) && ShapedAll(ts, |ring|)
  {
    && -1 <= hit < |ts| && best <= CAP
    && (hit < 0 <==> best == CAP)
    && (forall k | 0 <= k < |ts| :: AllAtLeast(ring, incnt, ts[k], best))
    && (hit >= 0 ==> Attains(ring, incnt, ts[hit], best))
    && (forall k | 0 <= k < hit :: !Attains(ring, incnt, ts[k], best))
  }

  /** There is only one such answer. */
  lemma AnswerUnique(ring: seq<Row>, incnt: nat, ts: seq<Template>, h1: int, b1: real, h2: int, b2: real)
    requires Shaped(ring, |ring|) && ShapedAll(ts, |ring|)
    requires Answer(ring, incnt, ts, h1, b1) && Answer(ring, incnt, ts, h2, b2)
    ensures h1 == h2 && b1 == b2
  {
    if h1 >= 0 {
      assert AllAtLeast(ring, incnt, ts[h1], b2);
    }
    if h2 >= 0 {
      assert AllAtLeast(ring, incnt, ts[h2], b1);
    }
    assert b1 == b2;
  }

  /** Two differences of 2 are nearer than one of 3. */
  lemma NearestForExample(hit: int, best: real)
    requires var a, b := ZeroRow()[0 := 3.0], ZeroRow()[0 := 2.0][1 := 2.0];
             Answer([ZeroRow()], 0, [Template("a", [a]), Template("b", [b])], hit, best)
    ensures hit == 1 && best == 8.0 / 384.0
  {
    var z := ZeroRow();
    var a, b := z[0 := 3.0], z[0 := 2.0][1 := 2.0];
    var ts := [Template("a", [a]), Template("b", [b])];
    MeanSquareAdds(z, z, 0, 3.0);
    MeanSquareAdds(z, z, 0, 2.0);
    MeanSquareAdds(z, z[0 := 2.0], 1, 2.0);
    assert z[0 := 2.0][1 := z[1]] == z[0 := 2.0];
    assert Distance([z], 0, ts[0], 0) == 9.0 / 384.0 && Distance([z], 0, ts[1], 0) == 8.0 / 384.0;
    assert AllAtLeast([z], 0, ts[1], best);
  }

  // ---------- the ring of frames ----------

  /** A frame overwrites the columns it has values for. */
  function Overlay(row: Row, frame: Row): Row
    requires |frame| <= |row|
  {
    frame + row[|frame|..]
  }

  predicate FramesFit(frames: seq<Row>) { forall k | 0 <= k < |frames| :: |frames[k]| <= COLUMNS }

  function Zeros(n: nat): seq<Row> { seq(n, _ => ZeroRow()) }

  function RingAfter(n: nat, frames: seq<Row>): (ring: seq<Row>)
    requires n > 0 && FramesFit(frames)
    ensures Shaped(ring, n)
  {
    if frames == [] then Zeros(n)
    else
      var before, i := RingAfter(n, frames[..|frames| - 1]), (|frames| - 1) % n;
      before[i := Overlay(before[i], frames[|frames| - 1])]
  }

  lemma SlotsDiffer(j: nat, i: nat, n: nat)
    requires j < i < j + n
    ensures j % n != i % n
  {
    var d := i / n - j / n;
    assert i - j == d * n + (i % n - j % n) by {
      assert i == (i / n) * n + i % n && j == (j / n) * n + j % n;
      assert (i / n) * n - (j / n) * n == d * n;
    }
    assert d >= 1 ==> d * n >= n;
    assert d <= 0 ==> d * n <= 0;
  }

  /** The slot of each of the last `n` frames still starts with that frame. */
  lemma {:induction false} RingKeepsFrames(n: nat, frames: seq<Row>, j: nat)
    requires n > 0 && FramesFit(frames) && j < |frames| <= j + n
    ensures frames[j] <= RingAfter(n, frames)[j % n]
  {
    var last := |frames| - 1;
    if j < last {
      RingKeepsFrames(n, frames[..last], j);
      SlotsDiffer(j, last, n);
    }
  }

  /** What the frames have put into column `c` of slot `i` of `n`, the latest that was long enough. */
  function LastWritten(n: nat, frames: seq<Row>, i: nat, c: nat): real
    requires n > 0
  {
    if frames == [] then 0.0
    else
      var last := |frames| - 1;
      if last % n == i && c < |frames[last]| then frames[last][c] else LastWritten(n, frames[..last], i, c)
  }

  /** Column by column, a slot holds what the last of its frames that was long enough put there, and 0 if
      none was: frames of different lengths mix. */
  lemma {:induction false} SlotColumn(n: nat, frames: seq<Row>, i: nat, c: nat)
    requires i < n && FramesFit(frames) && c < COLUMNS
    ensures RingAfter(n, frames)[i][c] == LastWritten(n, frames, i, c)
  {
    if frames != [] {
      SlotColumn(n, frames[..|frames| - 1], i, c);
    }
  }

  lemma AddModulus(j: nat, n: nat)
    requires n > 0
    ensures (j + n) % n == j % n
  {
    var q, r := j / n, j % n;
    assert j + n == (q + 1) * n + r;
    var q', r' := (j + n) / n, (j + n) % n;
    var d := q' - (q + 1);
    assert d * n == r - r' by {
      assert q' * n + r' == j + n;
      assert q' * n - (q + 1) * n == d * n;
    }
    assert d >= 1 ==> d * n >= n as int;
    assert d <= -1 ==> d * n <= -(n as int);
  }

  /** What the rows of a template meet: row 0 the newest frame, row `b` the frame `n - b` before it. */
  lemma RowsMeetFrames(n: nat, frames: seq<Row>, b: nat)
    requires n > 0 && FramesFit(frames) && frames != [] && b < n
    requires b > 0 ==> n <= |frames| - 1 + b
    ensures var incnt := |frames| - 1;
            frames[if b == 0 then incnt else incnt - n + b] <= RingAfter(n, frames)[(incnt + b) % n]
  {
    var incnt := |frames| - 1;
    var j: nat := if b == 0 then incnt else incnt - n + b;
    RingKeepsFrames(n, frames, j);
    if b > 0 {
      AddModulus(j, n);
    }
  }

  /** The distance of row `b` is the distance to that frame, over whatever older frames left in the columns
      that it does not fill. */
  lemma DistanceIsToFrame(n: nat, frames: seq<Row>, t: Template, b: nat) returns (row: Row)
    requires n > 0 && FramesFit(frames) && frames != [] && b < n && Shaped(t.rows, n)
    requires b > 0 ==> n <= |frames| - 1 + b
    ensures |row| == COLUMNS && frames[|frames| - 1 - if b == 0 then 0 else n - b] <= row
    ensures Distance(RingAfter(n, frames), |frames| - 1, t, b) == MeanSquare(row, t.rows[b])
  {
    RowsMeetFrames(n, frames, b);
    row := RingAfter(n, frames)[(|frames| - 1 + b) % n];
  }

  /** Row `b` of a template meets the frame that came `b` after the oldest one kept. */
  ghost predicate MeetsInOrder(n: nat, frames: seq<Row>, b: nat)
    requires 0 < n <= |frames| && FramesFit(frames) && b < n
  {
    frames[|frames| - n + b] <= RingAfter(n, frames)[(|frames| - 1 + b) % n]
  }

  /** The rows of a template meet the frames in the order in which both were stored if and only if there
      is one row: with more, the first trained row is compared with the newest frame. */
  lemma AlignedExactly(n: nat, count: nat)
    requires 0 < n <= count
    ensures n == 1 <==> forall frames: seq<Row>, b: nat | FramesFit(frames) && |frames| == count && b < n ::
                          MeetsInOrder(n, frames, b)
  {
    if n == 1 {
      forall frames: seq<Row>, b: nat | FramesFit(frames) && |frames| == count && b < n
        ensures MeetsInOrder(n, frames, b)
      {
        RowsMeetFrames(n, frames, b);
      }
    } else {
      var frames: seq<Row> := seq(count, k => [k as real]);
      RowsMeetFrames(n, frames, 0);
      var slot := RingAfter(n, frames)[(count - 1) % n];
      assert frames[count - 1] <= slot && slot[0] == (count - 1) as real;
      assert !(frames[count - n] <= slot);
      assert !MeetsInOrder(n, frames, 0);
    }
  }

  /** In the low-pass program, where one row is trained and recognised, a signal that has been
      trained is met at distance 0, by the first template with exactly its row. */
  lemma TrainedIsRecognised(ring: seq<Row>, incnt: nat, ts: seq<Template>, i: nat, hit: int, best: real)
    requires Shaped(ring, 1) && ShapedAll(ts, 1) && i < |ts| && ts[i].rows[0] == ring[0]
    requires Answer(ring, incnt, ts, hit, best)
    ensures best == 0.0 && 0 <= hit <= i && ts[hit].rows[0] == ring[0]
    ensures forall k | 0 <= k < hit :: ts[k].rows[0] != ring[0]
  {
    forall k | 0 <= k < |ts|
      ensures Distance(ring, incnt, ts[k], 0) >= 0.0
      ensures Distance(ring, incnt, ts[k], 0) == 0.0 <==> ts[k].rows[0] == ring[0]
    {
      MeanSquareZero(ring[0], ts[k].rows[0]);
    }
    assert AllAtLeast(ring, incnt, ts[i], best);
    if hit >= 0 {
      assert Attains(ring, incnt, ts[hit], best);
    }
    forall k | 0 <= k < hit ensures ts[k].rows[0] != ring[0] {
      if ts[k].rows[0] == ring[0] {
        assert Attains(ring, incnt, ts[k], best);
      }
    }
  }

  /** With one row and frames of one length, what is stored is the newest frame over zeros, just as
      training stores it. */
  lemma {:induction false} OneRowRing(frames: seq<Row>, n: nat)
    requires FramesFit(frames) && frames != [] && forall k | 0 <= k < |frames| :: |frames[k]| == n
    ensures RingAfter(1, frames) == [Overlay(ZeroRow(), frames[|frames| - 1])]
  {
    var last := |frames| - 1;
    assert last % 1 == 0;
    if last > 0 {
      OneRowRing(frames[..last], n);
    }
  }

  /** In the low-pass program, recognising the very signal that some template was trained with gives
      distance 0 and the first template that was trained with it. */
  lemma LowPassRecognises(frames: seq<Row>, n: nat, ts: seq<Template>, i: nat, hit: int, best: real)
    requires FramesFit(frames) && frames != [] && forall k | 0 <= k < |frames| :: |frames[k]| == n
    requires ShapedAll(ts, 1) && i < |ts| && ts[i].rows[0] == Overlay(ZeroRow(), frames[|frames| - 1])
    requires Answer(RingAfter(1, frames), |frames| - 1, ts, hit, best)
    ensures best == 0.0 && 0 <= hit <= i && ts[hit].rows[0] == ts[i].rows[0]
    ensures forall k | 0 <= k < hit :: ts[k].rows[0] != ts[i].rows[0]
  {
    OneRowRing(frames, n);
    TrainedIsRecognised(RingAfter(1, frames), |frames| - 1, ts, i, hit, best);
  }

  // ---------- the programs ----------

  /** One more template at the end of the dictionary. */
  lemma AnswerSnoc(ring: seq<Row>, incnt: nat, ts: seq<Template>, hit: int, best: real, t: Template, least: real)
    requires Shaped(ring, |ring|) && ShapedAll(ts, |ring|) && Shaped(t.rows, |ring|)
    requires Answer(ring, incnt, ts, hit, best) && LeastOf(ring, incnt, t, least)
    ensures ShapedAll(ts + [t], |ring|)
    ensures if best > least then Answer(ring, incnt, ts + [t], |ts|, least)
            else Answer(ring, incnt, ts + [t], hit, best)
  {
    var all := ts + [t];
    assert forall k | 0 <= k < |ts| :: all[k] == ts[k];
    var b := if best > least then least else best;
    forall k | 0 <= k < |all| ensures AllAtLeast(ring, incnt, all[k], b) {
      assert k < |ts| ==> AllAtLeast(ring, incnt, ts[k], best);
    }
    if best > least {
      forall k | 0 <= k < |ts| ensures !Attains(ring, incnt, ts[k], least) {
        assert AllAtLeast(ring, incnt, ts[k], best);
      }
    }
  }

  /** The rows of a template of `n` rows after a training has seen `fs`. */
  function Trained(n: nat, fs: seq<Row>): seq<Row>
    requires FramesFit(fs)
  {
    seq(n, b requires 0 <= b < n => if b < |fs| then Overlay(ZeroRow(), fs[b]) else ZeroRow())
  }

  class Machine {
    const currsig: array<Row>
    var incnt: nat
    var templates: seq<Template>
    var training: Option<nat>
    var datacnt: nat
    var recog: bool
    var trainEnabled: bool

    // all frames stored for recognition, and those seen by the present training
    ghost var frames: seq<Row>
    ghost var trained: seq<Row>

    ghost function N(): nat { currsig.Length }

    ghost predicate RingOk()
      reads this`incnt, this`frames, currsig
    {
      N() > 0 && FramesFit(frames) && incnt == |frames| && currsig[..] == RingAfter(N(), frames)
    }

    ghost predicate TrainingOk()
      reads this`templates, this`training, this`datacnt, this`recog, this`trainEnabled, this`trained
    {
      && ShapedAll(templates, N()) && datacnt < N() && FramesFit(trained)
      && (trainEnabled ==> training.None? && datacnt == 0)
      && (training.Some? ==>
            && training.value < |templates| && !recog && |trained| == datacnt
            && templates[training.value].rows == Trained(N(), trained))
    }

    ghost predicate Valid()
      reads this, currsig
    {
      RingOk() && TrainingOk()
    }

    /** No training is under way and none can be started. */
    ghost predicate Locked()
      reads this`training, this`trainEnabled
    {
      training.None? && !trainEnabled
    }

    constructor (n: nat)
      requires n > 0
      ensures Valid() && fresh(currsig) && N() == n && templates == [] && frames == []
      ensures trainEnabled && !recog
    {
      currsig := new Row[n](_ => ZeroRow());
      incnt, templates, training, datacnt, recog, trainEnabled := 0, [], None, 0, false, true;
      frames, trained := [], [];
      new;
      assert currsig[..] == Zeros(n);
    }

    /** The train button: a template of zeros under this name, in its old place if the name exists. */
    method StartTraining(name: string)
      requires TrainingOk() && trainEnabled
      modifies this`templates, this`training, this`recog, this`trainEnabled, this`trained
      ensures TrainingOk() && training.Some? && training.value <= |old(templates)| && trained == []
      ensures forall k | 0 <= k < training.value :: old(templates)[k].name != name
      ensures templates == if training.value < |old(templates)|
                           then old(templates)[training.value := Template(name, Zeros(N()))]
                           else old(templates) + [Template(name, Zeros(N()))]
      ensures training.value < |old(templates)| ==> old(templates)[training.value].name == name
    {
      var t := Template(name, Zeros(currsig.Length));
      var i := 0;
      while i < |templates| && templates[i].name != name
        invariant 0 <= i <= |templates|
        invariant forall k | 0 <= k < i :: templates[k].name != name
      {
        i := i + 1;
      }
      templates := if i < |templates| then templates[i := t] else templates + [t];
      training, recog, trainEnabled := Some(i), false, false;
      trained := [];
      assert t.rows == Zeros(N()) == Trained(N(), []);
    }

    /** `trainx`: one frame into the next row of the template in training. The last row ends the training,
        and since every training starts at row 0, each row then holds its own frame over zeros. */
    method Train(frame: Row)
      requires TrainingOk() && training.Some? && |frame| <= COLUMNS
      modifies this`templates, this`training, this`datacnt, this`trainEnabled, this`trained
      ensures TrainingOk() && trained == old(trained) + [frame]
      ensures var i := old(training).value;
              var t := old(templates)[i];
              templates == old(templates)[i := t.(rows := Trained(N(), trained))]
      ensures if |trained| < N() then training == old(training) else training == None && trainEnabled
    {
      var i := training.value;
      var t := templates[i];
      templates := templates[i := t.(rows := t.rows[datacnt := Overlay(t.rows[datacnt], frame)])];
      trained := trained + [frame];
      assert templates[i].rows == Trained(N(), trained);
      datacnt := datacnt + 1;
      if datacnt >= currsig.Length {
        training := None;
        trainEnabled := true;
        datacnt := 0;
      }
    }

    /** The recognition button. It also stops a training, but neither resets the row counter nor enables
        the train button again: after that there is no training any more. */
    method ToggleRecognition()
      requires TrainingOk()
      modifies this`training, this`recog
      ensures TrainingOk() && training.None? && recog == !old(recog)
      ensures old(training).Some? || old(Locked()) <==> Locked()
    {
      training := None;
      recog := !recog;
    }

    /** The first loop of `recogx`. */
    method StoreFrame(frame: Row)
      requires RingOk() && |frame| <= COLUMNS
      modifies currsig
      ensures currsig[..] == RingAfter(N(), frames + [frame])
    {
      ghost var all := frames + [frame];
      assert all[..|all| - 1] == frames;
      var slot := incnt % currsig.Length;
      ghost var ring := currsig[..];
      assert frame[..0] == [] && [] + ring[slot][0..] == ring[slot];
      assert ring == ring[slot := ring[slot]];
      for c := 0 to |frame|
        invariant currsig[..] == ring[slot := Overlay(ring[slot], frame[..c])]
      {
        OverlaySnoc(ring[slot], frame, c);
        currsig[slot] := currsig[slot][c := frame[c]];
      }
      assert frame[..|frame|] == frame;
    }

    /** The inner loops: squares first, then their sum and mean. */
    method RowDistance(x: Row, row: Row) returns (mean: real)
      requires |x| == COLUMNS == |row|
      ensures mean == MeanSquare(x, row)
    {
      var squares := [];
      for c := 0 to COLUMNS
        invariant |squares| == c && forall d | 0 <= d < c :: squares[d] == Sqr(x[d] - row[d])
      {
        squares := squares + [Sqr(x[c] - row[c])];
      }
      var sum := 0.0;
      for c := 0 to COLUMNS
        invariant sum == SumSquares(x, row, c)
      {
        sum := sum + squares[c];
      }
      mean := sum / COLUMNS as real;
    }

    /** The loop over the rows of one template. */
    method TemplateDistance(t: Template) returns (least: real)
      requires N() > 0 && Shaped(currsig[..], N()) && Shaped(t.rows, N())
      ensures LeastOf(currsig[..], incnt, t, least)
    {
      ghost var ring := currsig[..];
      least := CAP;
      for b := 0 to |t.rows|
        invariant least <= CAP
        invariant forall d: nat | d < b :: Distance(ring, incnt, t, d) >= least
        invariant least < CAP ==> Attains(ring, incnt, t, least)
      {
        var mean := RowDistance(currsig[(incnt + b) % currsig.Length], t.rows[b]);
        assert mean == Distance(ring, incnt, t, b);
        if least > mean {
          least := mean;
        }
      }
    }

    /** The loop over the templates. */
    method Search() returns (hit: int, best: real)
      requires N() > 0 && Shaped(currsig[..], N()) && ShapedAll(templates, N())
      ensures Answer(currsig[..], incnt, templates, hit, best)
    {
      ghost var ring := currsig[..];
      hit, best := -1, CAP;
      for k := 0 to |templates|
        invariant ShapedAll(templates[..k], |ring|)
        invariant Answer(ring, incnt, templates[..k], hit, best)
      {
        var least := TemplateDistance(templates[k]);
        AnswerSnoc(ring, incnt, templates[..k], hit, best, templates[k], least);
        assert templates[..k + 1] == templates[..k] + [templates[k]];
        if best > least {
          best, hit := least, k;
        }
      }
      assert templates[..|templates|] == templates;
    }

    /** `recogx`: store the frame, then find the first nearest template. */
    method Recognise(frame: Row) returns (hit: int, best: real)
      requires Valid() && |frame| <= COLUMNS
      modifies this`incnt, this`frames, currsig
      ensures Valid() && frames == old(frames) + [frame]
      ensures Answer(RingAfter(N(), frames), |frames| - 1, templates, hit, best)
    {
      StoreFrame(frame);
      hit, best := Search();
      incnt := incnt + 1;
      frames := frames + [frame];
    }

    /** In the low-pass program, where training and recognition see the same signal and one row is kept: a
        signal trained under `name` and then recognised is met at distance 0, by the first template
        with exactly its row, at the latest by the one just trained, which is number `own`. */
    method TrainAndRecognise(name: string, frame: Row) returns (hit: int, best: real, ghost own: nat)
      requires Valid() && N() == 1 && trainEnabled && !recog
      requires |frame| <= COLUMNS && forall k | 0 <= k < |frames| :: |frames[k]| == |frame|
      modifies this, currsig
      ensures Valid() && trainEnabled && recog && best == 0.0
      ensures own < |templates| && templates[own].name == name
      ensures 0 <= hit <= own && templates[hit].rows == templates[own].rows == Trained(1, [frame])
      ensures forall k | 0 <= k < hit :: templates[k].rows[0] != templates[hit].rows[0]
    {
      hide Answer, RingAfter;
      StartTraining(name);
      own := training.value;
      Train(frame);
      ToggleRecognition();
      hit, best := Recognise(frame);
      LowPassRecognises(frames, |frame|, templates, own, hit, best);
      assert templates[hit].rows == [templates[hit].rows[0]];
    }
  }

  lemma OverlaySnoc(row: Row, frame: Row, c: nat)
    requires c < |frame| <= |row|
    ensures Overlay(row, frame[..c])[c := frame[c]] == Overlay(row, frame[..c + 1])
  {
  }
}
