/**
 Replay end to end: the host turns recorded rows into lines, the network cuts the bytes into
 chunks, the device finds the frames, splits and decodes them.
 */
module ReplaySession {
  import opened Options
  import opened Sequences
  import opened ReplayWire
  import opened ReplayChunks
  import Base64
  import R = ReplayReceiver

  /** A recorded row: 21 text fields, the local timestamp, 5 more text fields and the samples. */
  datatype Row = Row(head: seq<string>, localTimestamp: nat, mid: seq<string>, payload: seq<int>)

  predicate CleanText(s: string) { Without(s, ',') && Without(s, '\n') && Without(s, NUL) }

  predicate CleanField(s: string) { s != "" && CleanText(s) }

  predicate ValidRow(r: Row) {
    && |r.head| == 21 && |r.mid| == 5 && r.head[0] == MARKER
    && (forall k | 0 <= k < |r.head| :: CleanField(r.head[k]))
    && (forall k | 0 <= k < |r.mid| :: CleanField(r.mid[k]))
    && Base64.AllInt8(r.payload)
  }

  predicate ValidRows(rows: seq<Row>) { forall k | 0 <= k < |rows| :: ValidRow(rows[k]) }

  function TextFields(r: Row): seq<string> { r.head + [Decimal(r.localTimestamp)] + r.mid }

  function LineOf(r: Row): string { Join(TextFields(r) + [Base64.EncodeBin(r.payload)]) }

  function LinesOf(rows: seq<Row>): seq<string> {
    if rows == [] then [] else [LineOf(rows[0])] + LinesOf(rows[1..])
  }

  function Stream(rows: seq<Row>): string { Unlines(LinesOf(rows)) }

  // ---------- what the device must end up with ----------

  /** A row whose line has at most 250 bytes is dropped, a row without samples loses its last
      field, more than 104 samples do not decode; every other row arrives unchanged. */
  function ExpectedOf(r: Row): seq<Outcome>
    requires ValidRow(r)
  {
    if |LineOf(r)| <= MIN_FRAME then []
    else if r.payload == [] || |r.head[2]| > 31 then [Undefined]
    else [Pushed(Message(r.head[2], r.localTimestamp, if |r.payload| <= MAX_PAYLOAD then Some(r.payload) else None))]
  }

  function Expected(rows: seq<Row>): seq<Outcome>
    requires ValidRows(rows)
  {
    if rows == [] then [] else ExpectedOf(rows[0]) + Expected(rows[1..])
  }

  // ---------- one row ----------

  lemma {:induction false} JoinClean(fs: seq<string>, c: char)
    requires c != ',' && forall k | 0 <= k < |fs| :: Without(fs[k], c)
    ensures Without(Join(fs), c)
  {
    if |fs| > 1 {
      JoinClean(fs[1..], c);
    }
  }

  lemma {:induction false} JoinStarts(fs: seq<string>)
    requires fs != []
    ensures |fs[0]| <= |Join(fs)| && Join(fs)[..|fs[0]|] == fs[0]
  {
  }

  lemma DecimalClean(n: nat)
    ensures CleanField(Decimal(n))
  {
    var s := Decimal(n);
    assert forall k | 0 <= k < |s| :: IsDigit(s[k]);
  }

  lemma PayloadText(p: seq<int>)
    requires Base64.AllInt8(p)
    ensures CleanText(Base64.EncodeBin(p))
    ensures Base64.EncodeBin(p) == "" <==> p == []
    ensures Base64.DecodeBin(Base64.EncodeBin(p)) == Some(p)
  {
    var u := Base64.AllUnsigned(p);
    assert Base64.AllBytes(u);
    Base64.EncodePlain(u);
    Base64.SignedRoundTrip(p);
  }

  lemma RowFields(r: Row)
    requires ValidRow(r)
    ensures forall k | 0 <= k < 27 :: CleanField(TextFields(r)[k])
    ensures TextFields(r)[0] == MARKER && TextFields(r)[2] == r.head[2]
    ensures |TextFields(r)| == 27 && TextFields(r)[21] == Decimal(r.localTimestamp)
  {
    DecimalClean(r.localTimestamp);
  }

  lemma LineIsClean(r: Row)
    requires ValidRow(r)
    ensures OneLine(LineOf(r)) && Without(LineOf(r), NUL)
    ensures OccursAt(LineOf(r), MARKER, 0)
  {
    RowFields(r);
    PayloadText(r.payload);
    var fs := TextFields(r) + [Base64.EncodeBin(r.payload)];
    JoinClean(fs, '\n');
    JoinClean(fs, NUL);
    JoinStarts(fs);
  }

  lemma LineTokens(r: Row)
    requires ValidRow(r)
    ensures Tokens(LineOf(r))
            == if r.payload == [] then TextFields(r) else TextFields(r) + [Base64.EncodeBin(r.payload)]
  {
    RowFields(r);
    PayloadText(r.payload);
    TokensOfJoin(TextFields(r), Base64.EncodeBin(r.payload));
  }

  lemma RowArrives(r: Row)
    requires ValidRow(r)
    ensures AnalyseAll(Frame(LineOf(r))) == ExpectedOf(r)
  {
    var line := LineOf(r);
    LineIsClean(r);
    assert FindText(line, MARKER) == 0;
    assert line[0..] == line;
    if |line| > MIN_FRAME {
      assert Frame(line) == [line];
      LineTokens(r);
      RowFields(r);
      PayloadText(r.payload);
      AtoiOfDecimal(r.localTimestamp);
      assert AnalyseAll([line]) == [Analyse(line)];
    }
  }

  // ---------- all rows ----------

  lemma {:induction false} LinesOfClean(rows: seq<Row>)
    requires ValidRows(rows)
    ensures |LinesOf(rows)| == |rows| && AllOneLine(LinesOf(rows))
    ensures forall k | 0 <= k < |rows| :: LinesOf(rows)[k] == LineOf(rows[k])
    ensures Without(Stream(rows), NUL)
  {
    if rows != [] {
      LinesOfClean(rows[1..]);
      LineIsClean(rows[0]);
      UnlinesCons(LineOf(rows[0]), LinesOf(rows[1..]));
    }
  }

  lemma {:induction false} RowsArrive(rows: seq<Row>)
    requires ValidRows(rows)
    ensures AnalyseAll(FramesOf(LinesOf(rows))) == Expected(rows)
  {
    if rows != [] {
      RowsArrive(rows[1..]);
      RowArrives(rows[0]);
      FramesCons(LineOf(rows[0]), LinesOf(rows[1..]));
      AnalyseAllConcat(Frame(LineOf(rows[0])), FramesOf(LinesOf(rows[1..])));
    }
  }

  lemma LinesOfStream(rows: seq<Row>)
    requires ValidRows(rows)
    ensures Lines(Stream(rows)) == LinesOf(rows) && Tail(Stream(rows)) == ""
  {
    var ls := LinesOf(rows);
    LinesOfClean(rows);
    LinesOfUnlines(ls, "");
    assert Unlines(ls) + "" == Unlines(ls);
  }

  /** The stream the host sends meets every assumption of the receive loop except that lines may
      be too long, and its frames mean exactly the rows. */
  lemma StreamMeansRows(rows: seq<Row>)
    requires ValidRows(rows)
    ensures AnalyseAll(Frames(Stream(rows))) == Expected(rows)
    ensures Without(Stream(rows), NUL) && EarlySigns(Stream(rows))
    ensures Fits(Stream(rows)) <==> forall k | 0 <= k < |rows| :: |LineOf(rows[k])| < CAPACITY
  {
    var ls := LinesOf(rows);
    LinesOfClean(rows);
    RowsArrive(rows);
    LinesOfStream(rows);
    forall k | 0 <= k < |ls| ensures SignsEarly(ls[k]) {
      LineIsClean(rows[k]);
      MarkerShowsEarly(ls[k]);
    }
    assert forall k | 0 <= k < |rows| :: ls[k] == LineOf(rows[k]);
  }

  lemma MarkerShowsEarly(l: string)
    requires OccursAt(l, MARKER, 0)
    ensures SignsEarly(l)
  {
    if |l| > MIN_FRAME {
      var t := l[..MIN_FRAME + 1];
      assert t[0..|MARKER|] == l[0..|MARKER|];
      assert OccursAt(t, MARKER, 0);
    }
  }

  // ---------- what part of a replay arrives ----------

  /** How many rows come before the first whose line does not fit the receive buffer. */
  function Fitting(rows: seq<Row>): (n: nat)
    ensures n <= |rows|
  {
    if rows == [] || |LineOf(rows[0])| >= CAPACITY then 0 else 1 + Fitting(rows[1..])
  }

  lemma {:induction false} FittingIs(rows: seq<Row>, k: nat)
    requires k <= |rows| && (k < |rows| ==> |LineOf(rows[k])| >= CAPACITY)
    requires forall j | 0 <= j < k :: |LineOf(rows[j])| < CAPACITY
    ensures Fitting(rows) == k
  {
    hide LineOf;
    if k > 0 {
      FittingIs(rows[1..], k - 1);
    }
  }

  lemma {:induction false} ExpectedConcat(a: seq<Row>, b: seq<Row>)
    requires ValidRows(a) && ValidRows(b)
    ensures ValidRows(a + b) && Expected(a + b) == Expected(a) + Expected(b)
  {
    hide ExpectedOf, ValidRow;
    if a == [] {
      assert a + b == b;
    } else {
      ExpectedConcat(a[1..], b);
      assert (a + b)[1..] == a[1..] + b;
      Assoc(ExpectedOf(a[0]), Expected(a[1..]), Expected(b));
    }
  }

  /** The frames of the first `n` bytes mean the first `k` rows. */
  lemma PrefixMeansRows(rows: seq<Row>, n: nat) returns (k: nat)
    requires ValidRows(rows) && n <= |Stream(rows)|
    ensures k == |Lines(Stream(rows)[..n])| <= |rows|
    ensures Lines(Stream(rows)[..n]) == LinesOf(rows[..k])
    ensures AnalyseAll(Frames(Stream(rows)[..n])) == Expected(rows[..k])
    ensures Tail(Stream(rows)[..n]) <= if k < |rows| then LineOf(rows[k]) else ""
  {
    hide Lines, Tail, Expected, AnalyseAll, FramesOf;
    var s := Stream(rows);
    k := |Lines(s[..n])|;
    LinesOfStream(rows);
    LinesOfClean(rows);
    LinesOfPrefix(s, n);
    LinesOfClean(rows[..k]);
    assert Lines(s[..n]) == LinesOf(rows)[..k] == LinesOf(rows[..k]);
    RowsArrive(rows[..k]);
  }

  lemma FirstRowsExpected(rows: seq<Row>, k: nat)
    requires ValidRows(rows) && k <= |rows|
    ensures ValidRows(rows[..k]) && Expected(rows[..k]) <= Expected(rows)
  {
    hide Expected, ValidRow;
    ExpectedConcat(rows[..k], rows[k..]);
    assert rows == rows[..k] + rows[k..];
  }

  /** What has been received when the connection ends: some first rows, and if reception ended because
      the buffer was full, exactly those before the first row that does not fit. */
  lemma ReceivedRows(rows: seq<Row>, n: nat)
    requires ValidRows(rows) && n <= |Stream(rows)| && Fits(Stream(rows)[..n])
    ensures var k := |Lines(Stream(rows)[..n])|;
            k <= |rows| && AnalyseAll(Frames(Stream(rows)[..n])) == Expected(rows[..k])
    ensures AnalyseAll(Frames(Stream(rows)[..n])) <= Expected(rows)
    ensures n == |Stream(rows)| || |Tail(Stream(rows)[..n])| == CAPACITY
            ==> AnalyseAll(Frames(Stream(rows)[..n])) == Expected(rows[..Fitting(rows)])
    ensures n == |Stream(rows)| ==> Fitting(rows) == |rows|
  {
    hide Lines, Tail, Expected, AnalyseAll, FramesOf, ValidRow, LineOf, Fitting;
    var s := Stream(rows);
    var k := PrefixMeansRows(rows, n);
    FirstRowsExpected(rows, k);
    FirstRowsFit(rows, k, Lines(s[..n]));
    if n == |s| {
      assert s[..n] == s;
      LinesOfStream(rows);
      LinesOfClean(rows);
    }
    if n == |s| || |Tail(s[..n])| == CAPACITY {
      FittingIs(rows, k);
    }
  }

  lemma FirstRowsFit(rows: seq<Row>, k: nat, ls: seq<string>)
    requires ValidRows(rows) && k <= |rows| && ls == LinesOf(rows[..k])
    requires forall j | 0 <= j < |ls| :: |ls[j]| < CAPACITY
    ensures forall j | 0 <= j < k :: |LineOf(rows[j])| < CAPACITY
  {
    LinesOfClean(rows[..k]);
    forall j | 0 <= j < k ensures |LineOf(rows[j])| < CAPACITY {
      assert ls[j] == LineOf(rows[..k][j]) == LineOf(rows[j]);
    }
  }

  // ---------- rows that arrive unchanged ----------

  /** A row that is neither dropped nor damaged on the way. */
  predicate GoodRow(r: Row) {
    && ValidRow(r) && MIN_FRAME < |LineOf(r)| < CAPACITY
    && 1 <= |r.payload| <= MAX_PAYLOAD && |r.head[2]| <= 31
  }

  /** The row as the device should see it. */
  function Unchanged(r: Row): Outcome
    requires ValidRow(r)
  {
    Pushed(Message(r.head[2], r.localTimestamp, Some(r.payload)))
  }

  /** A line of a row is handed over unchanged if and only if it has more than 250 bytes and the row has 1
      to 104 samples and a timestamp of at most 31 bytes. To be good it must also fit the buffer. */
  lemma GoodRowExactly(r: Row)
    requires ValidRow(r)
    ensures AnalyseAll(Frame(LineOf(r))) == [Unchanged(r)]
            <==> |LineOf(r)| > 250 && 1 <= |r.payload| <= 104 && |r.head[2]| <= 31
    ensures GoodRow(r) <==> AnalyseAll(Frame(LineOf(r))) == [Unchanged(r)] && |LineOf(r)| < 1459
  {
    hide LineOf, AnalyseAll, Frame;
    RowArrives(r);
  }

  lemma {:induction false} GoodRowsArrive(rows: seq<Row>)
    requires forall k | 0 <= k < |rows| :: GoodRow(rows[k])
    ensures ValidRows(rows) && Expected(rows) == seq(|rows|, k requires 0 <= k < |rows| => Unchanged(rows[k]))
    ensures Certain(Expected(rows)) == Expected(rows)
  {
    hide LineOf, ValidRow;
    if rows != [] {
      GoodRowsArrive(rows[1..]);
      assert ExpectedOf(rows[0]) == [Unchanged(rows[0])];
      var all := seq(|rows|, k requires 0 <= k < |rows| => Unchanged(rows[k]));
      assert Expected(rows) == [Unchanged(rows[0])] + Expected(rows[1..]) == all;
      assert Expected(rows)[1..] == Expected(rows[1..]);
    }
  }

  lemma GoodRowsFit(rows: seq<Row>)
    requires forall k | 0 <= k < |rows| :: GoodRow(rows[k])
    ensures ValidRows(rows) && Fitting(rows) == |rows|
    ensures forall k | 0 <= k < |rows| :: |LineOf(rows[k])| < CAPACITY
  {
    hide ValidRow, LineOf;
    FittingIs(rows, |rows|);
  }

  /** What is certain: after the first frame that makes the device read or write where it must not,
      nothing is. */
  function Certain(os: seq<Outcome>): seq<Outcome> {
    if os == [] || os[0].Undefined? then [] else [os[0]] + Certain(os[1..])
  }

  lemma {:induction false} CertainPrefix(os: seq<Outcome>, more: seq<Outcome>)
    requires os <= more
    ensures Certain(os) <= Certain(more)
  {
    if os != [] && !os[0].Undefined? {
      CertainPrefix(os[1..], more[1..]);
    }
  }

  // ---------- the programs ----------

  /** `evaluate_data_send`: encode the samples of each row in place, join, send. */
  method EvaluateDataSend(rows: seq<Row>) returns (sent: string)
    ensures sent == Stream(rows)
  {
    sent := "";
    for i := 0 to |rows|
      invariant sent == Stream(rows[..i])
    {
      var raw := new int[|rows[i].payload|](k requires 0 <= k < |rows[i].payload| => rows[i].payload[k]);
      assert raw[..] == rows[i].payload;
      var data := Base64.EncodeBinInPlace(raw);
      StreamSnoc(rows, i);
      sent := sent + Join(TextFields(rows[i]) + [data]) + "\n";
    }
    assert rows[..|rows|] == rows;
  }

  lemma StreamSnoc(rows: seq<Row>, i: nat)
    requires i < |rows|
    ensures Stream(rows[..i + 1]) == Stream(rows[..i]) + LineOf(rows[i]) + "\n"
  {
    LinesOfSnoc(rows[..i], rows[i]);
    assert rows[..i + 1] == rows[..i] + [rows[i]];
    UnlinesConcat(LinesOf(rows[..i]), [LineOf(rows[i])]);
    UnlinesCons(LineOf(rows[i]), []);
    assert [LineOf(rows[i])] + [] == [LineOf(rows[i])];
  }

  lemma {:induction false} LinesOfSnoc(rows: seq<Row>, r: Row)
    ensures LinesOf(rows + [r]) == LinesOf(rows) + [LineOf(r)]
  {
    if rows != [] {
      LinesOfSnoc(rows[1..], r);
      assert (rows + [r])[1..] == rows[1..] + [r];
    }
  }

  /** However the network cuts the bytes, and wherever the connection fails, what arrives is what must
      come of the rows whose lines have been received whole, once each and in order, up to a row that
      makes the device's behaviour undefined. Reception goes on until the connection fails, all bytes are
      in or the buffer is full; the latter means exactly the rows before the first that does not fit.
      And good rows all arrive unchanged: same samples, same timestamps. */
  method Replay(rows: seq<Row>, cuts: seq<nat>) returns (outcomes: seq<Outcome>, ghost chunks: seq<string>)
    requires ValidRows(rows) && forall i | 0 <= i < |cuts| :: cuts[i] > 0
    ensures Legal(chunks) && CutAs(chunks, Stream(rows), cuts)
    ensures |chunks| == |cuts| || Concat(chunks) == Stream(rows) || |After(chunks)| == CAPACITY
    ensures var k := |Lines(Concat(chunks))|; k <= |rows| && outcomes == Certain(Expected(rows[..k]))
    ensures outcomes <= Certain(Expected(rows))
    ensures Concat(chunks) == Stream(rows) || |After(chunks)| == CAPACITY
            ==> outcomes == Certain(Expected(rows[..Fitting(rows)]))
    ensures Concat(chunks) == Stream(rows) ==> Fitting(rows) == |rows|
    ensures |cuts| > |Stream(rows)| ==> |chunks| < |cuts|
    ensures (forall k | 0 <= k < |rows| :: GoodRow(rows[k])) && (|chunks| < |cuts| || Concat(chunks) == Stream(rows))
            ==> outcomes == seq(|rows|, k requires 0 <= k < |rows| => Unchanged(rows[k]))
  {
    hide Expected, AnalyseAll, Frames, Fits, Tail, Lines, EarlySigns, Certain;
    hide Legal, CutAs, Concat, After, Stream, ValidRow, GoodRow;
    var sent := EvaluateDataSend(rows);
    StreamMeansRows(rows);
    EarlyThroughout(sent);
    var device := new R.Connection();
    var received;
    received, chunks := device.Serve(sent, cuts);
    assert Concat(chunks) == Stream(rows) <==> received == |sent|;
    ReceivedRows(rows, received);
    CertainPrefix(device.pushed, Expected(rows));
    if forall k | 0 <= k < |rows| :: GoodRow(rows[k]) {
      GoodRowsFit(rows);
      assert rows[..|rows|] == rows;
      GoodRowsArrive(rows);
    }
    outcomes := Certain(device.pushed);
  }
}
