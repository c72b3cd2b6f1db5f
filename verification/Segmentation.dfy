/**
 How the host cuts the stream of accepted CSI records into data files: one file per unbroken run of
 records with the same label and sequence number, none for unlabelled records.
 */
module Segmentation {
  import opened Options
  import opened Sequences
  import Base64

  const UNKNOWN := "unknown"

  datatype Rec = Rec(target: string, seqNo: nat, data: seq<int>)

  datatype File = File(target: string, seqNo: nat, rows: seq<Rec>)

  predicate SameKey(a: Rec, b: Rec) { a.target == b.target && a.seqNo == b.seqNo }

  predicate AllKey(rs: seq<Rec>, a: Rec) { forall k | 0 <= k < |rs| :: SameKey(rs[k], a) }

  // ---------- the partition into files ----------

  /** The length of the run of records like `a` at the start of `rs`. */
  function RunLength(rs: seq<Rec>, a: Rec): (n: nat)
    ensures n <= |rs| && AllKey(rs[..n], a)
    ensures n < |rs| ==> !SameKey(rs[n], a)
  {
    if rs == [] || !SameKey(rs[0], a) then 0
    else
      var n := RunLength(rs[1..], a);
      assert rs[..n + 1] == [rs[0]] + rs[1..][..n];
      n + 1
  }

  /** The files that the records belong in: the maximal runs of labelled records. */
  function Segments(rs: seq<Rec>): seq<File>
    decreases |rs|
  {
    if rs == [] then []
    else if rs[0].target == UNKNOWN then Segments(rs[1..])
    else
      var n := RunLength(rs, rs[0]);
      [File(rs[0].target, rs[0].seqNo, rs[..n])] + Segments(rs[n..])
  }

  function Labelled(rs: seq<Rec>): seq<Rec> {
    if rs == [] then []
    else (if rs[0].target == UNKNOWN then [] else [rs[0]]) + Labelled(rs[1..])
  }

  function Flatten(fs: seq<File>): seq<Rec> {
    if fs == [] then [] else fs[0].rows + Flatten(fs[1..])
  }

  predicate GoodFile(f: File) {
    && f.target != UNKNOWN && f.rows != []
    && AllKey(f.rows, Rec(f.target, f.seqNo, []))
  }

  lemma {:induction false} LabelledConcat(a: seq<Rec>, b: seq<Rec>)
    ensures Labelled(a + b) == Labelled(a) + Labelled(b)
  {
    if a == [] {
      assert a + b == b;
    } else {
      assert (a + b)[1..] == a[1..] + b;
      LabelledConcat(a[1..], b);
    }
  }

  lemma {:induction false} LabelledRun(rs: seq<Rec>, a: Rec)
    requires AllKey(rs, a) && a.target != UNKNOWN
    ensures Labelled(rs) == rs
  {
    if rs != [] {
      LabelledRun(rs[1..], a);
    }
  }

  /** Nothing is lost, repeated or reordered, and every file has a single label and number. */
  lemma {:induction false} SegmentsPartition(rs: seq<Rec>)
    ensures Flatten(Segments(rs)) == Labelled(rs)
    ensures forall k | 0 <= k < |Segments(rs)| :: GoodFile(Segments(rs)[k])
    decreases |rs|
  {
    if rs != [] {
      if rs[0].target == UNKNOWN {
        SegmentsPartition(rs[1..]);
      } else {
        var n := RunLength(rs, rs[0]);
        SegmentsPartition(rs[n..]);
        assert rs == rs[..n] + rs[n..];
        LabelledConcat(rs[..n], rs[n..]);
        LabelledRun(rs[..n], rs[0]);
        var f := File(rs[0].target, rs[0].seqNo, rs[..n]);
        assert GoodFile(f);
        assert Segments(rs)[1..] == Segments(rs[n..]);
      }
    }
  }

  /** An unlabelled record that comes after exactly the rows of the first `i + 1` files. */
  predicate Separates(rs: seq<Rec>, j: int, i: nat) {
    && 0 <= j < |rs| && i < |Segments(rs)|
    && rs[j].target == UNKNOWN && Labelled(rs[..j]) == Flatten(Segments(rs)[..i + 1])
  }

  lemma {:induction false} FirstFile(rs: seq<Rec>)
    requires rs != []
    ensures rs[0].target != UNKNOWN ==>
              Segments(rs) != [] && Segments(rs)[0].target == rs[0].target && Segments(rs)[0].seqNo == rs[0].seqNo
  {
  }

  lemma FirstRun(rs: seq<Rec>)
    requires rs != [] && rs[0].target != UNKNOWN
    ensures var n := RunLength(rs, rs[0]);
            && Segments(rs) == [File(rs[0].target, rs[0].seqNo, rs[..n])] + Segments(rs[n..])
            && Labelled(rs[..n]) == rs[..n]
  {
    LabelledRun(rs[..RunLength(rs, rs[0])], rs[0]);
  }

  lemma FirstUnlabelled(rs: seq<Rec>)
    requires rs != [] && rs[0].target == UNKNOWN
    ensures Segments(rs) == Segments(rs[1..]) && Labelled(rs[..1]) == []
  {
  }

  /** Consecutive files differ in label or number, or an unlabelled record came between them. */
  lemma {:induction false} NeighboursDiffer(rs: seq<Rec>, i: nat)
    requires i + 1 < |Segments(rs)|
    ensures var f, g := Segments(rs)[i], Segments(rs)[i + 1];
            f.target != g.target || f.seqNo != g.seqNo || exists j :: Separates(rs, j, i)
    decreases |rs|
  {
    var fs := Segments(rs);
    if rs[0].target == UNKNOWN {
      NeighboursDiffer(rs[1..], i);
      if j :| Separates(rs[1..], j, i) {
        SeparatesLater(rs, 1, j, i, i);
      }
    } else {
      var n := RunLength(rs, rs[0]);
      var rest := rs[n..];
      assert fs[1..] == Segments(rest);
      if i > 0 {
        var h: nat := i - 1;
        NeighboursDiffer(rest, h);
        if j :| Separates(rest, j, h) {
          SeparatesLater(rs, n, j, h, i);
        }
      } else if rest[0].target == UNKNOWN {
        LabelledRun(rs[..n], rs[0]);
        assert fs[..1] == [fs[0]] && Flatten([fs[0]]) == rs[..n];
        assert Separates(rs, n, 0);
      } else {
        FirstFile(rest);
      }
    }
  }

  /** A separator found in the rest of the records separates in the whole as well. */
  lemma {:induction false} SeparatesLater(rs: seq<Rec>, n: nat, j: int, i: nat, i': nat)
    requires rs != [] && n == (if rs[0].target == UNKNOWN then 1 else RunLength(rs, rs[0]))
    requires i' == (if rs[0].target == UNKNOWN then i else i + 1)
    requires Separates(rs[n..], j, i)
    ensures Separates(rs, n + j, i')
  {
    hide Segments, RunLength, Labelled, AllKey;
    var rest := rs[n..];
    assert rs[n + j] == rest[j] && rs[..n + j] == rs[..n] + rest[..j];
    LabelledConcat(rs[..n], rest[..j]);
    if rs[0].target == UNKNOWN {
      FirstUnlabelled(rs);
    } else {
      FirstRun(rs);
      assert Segments(rs)[..i' + 1] == [Segments(rs)[0]] + Segments(rest)[..i + 1];
      assert Segments(rs)[..i' + 1][1..] == Segments(rest)[..i + 1];
    }
  }

  // ---------- building the files record by record ----------

  /** What one more record does to the files. */
  function Extend(fs: seq<File>, last: Option<Rec>, r: Rec): seq<File>
    requires last.Some? && last.value.target != UNKNOWN ==> fs != []
  {
    if r.target == UNKNOWN then fs
    else if last.Some? && SameKey(last.value, r) then
      var f := fs[|fs| - 1];
      fs[..|fs| - 1] + [f.(rows := f.rows + [r])]
    else fs + [File(r.target, r.seqNo, [r])]
  }

  function LastOf(rs: seq<Rec>): Option<Rec> { if rs == [] then None else Some(rs[|rs| - 1]) }

  lemma {:induction false} LastHasFile(rs: seq<Rec>)
    requires rs != [] && rs[|rs| - 1].target != UNKNOWN
    ensures Segments(rs) != []
    decreases |rs|
  {
    if rs[0].target == UNKNOWN {
      LastHasFile(rs[1..]);
    }
  }

  lemma {:induction false} RunLengthSnoc(rs: seq<Rec>, r: Rec, a: Rec)
    ensures RunLength(rs + [r], a) == if RunLength(rs, a) == |rs| && SameKey(r, a) then |rs| + 1 else RunLength(rs, a)
  {
    if rs != [] && SameKey(rs[0], a) {
      RunLengthSnoc(rs[1..], r, a);
      assert (rs + [r])[1..] == rs[1..] + [r];
    } else if rs == [] {
      assert (rs + [r])[1..] == [];
    }
  }

  lemma {:induction false} SegmentsSnoc(rs: seq<Rec>, r: Rec)
    ensures rs != [] && rs[|rs| - 1].target != UNKNOWN ==> Segments(rs) != []
    ensures Segments(rs + [r]) == Extend(Segments(rs), LastOf(rs), r)
    decreases |rs|
  {
    if rs != [] && rs[|rs| - 1].target != UNKNOWN {
      LastHasFile(rs);
    }
    if rs == [] {
      assert rs + [r] == [r];
      SegmentsOne(r);
    } else if rs[0].target == UNKNOWN {
      SegmentsSnoc(rs[1..], r);
      assert (rs + [r])[1..] == rs[1..] + [r];
    } else if RunLength(rs, rs[0]) == |rs| {
      WholeRun(rs, r);
    } else {
      var n := RunLength(rs, rs[0]);
      SegmentsSnoc(rs[n..], r);
      LaterRun(rs, r, n);
    }
  }

  /** The case of a first run that has ended before. */
  lemma {:induction false} LaterRun(rs: seq<Rec>, r: Rec, n: nat)
    requires rs != [] && rs[0].target != UNKNOWN && n == RunLength(rs, rs[0]) < |rs|
    requires rs[|rs| - 1].target != UNKNOWN ==> Segments(rs) != [] && Segments(rs[n..]) != []
    requires Segments(rs[n..] + [r]) == Extend(Segments(rs[n..]), LastOf(rs[n..]), r)
    ensures Segments(rs + [r]) == Extend(Segments(rs), LastOf(rs), r)
  {
    hide Segments, Extend, RunLength;
    var all, f := rs + [r], File(rs[0].target, rs[0].seqNo, rs[..n]);
    RunLengthSnoc(rs, r, rs[0]);
    assert all[..n] == rs[..n] && all[n..] == rs[n..] + [r];
    FirstRun(rs);
    FirstRun(all);
    ExtendTail(f, Segments(rs[n..]), LastOf(rs[n..]), r);
  }

  lemma {:induction false} ExtendTail(f: File, fs: seq<File>, last: Option<Rec>, r: Rec)
    requires last.Some? && (last.value.target != UNKNOWN ==> fs != [])
    ensures Extend([f] + fs, last, r) == [f] + Extend(fs, last, r)
  {
    if fs != [] {
      assert ([f] + fs)[..|fs|] == [f] + fs[..|fs| - 1];
    }
  }

  lemma {:induction false} SegmentsOne(r: Rec)
    ensures Segments([r]) == if r.target == UNKNOWN then [] else [File(r.target, r.seqNo, [r])]
  {
    assert [r][1..] == [];
    assert r.target != UNKNOWN ==> RunLength([r], r) == 1 && [r][..1] == [r];
  }

  /** The case of a single run so far. */
  lemma {:induction false} WholeRun(rs: seq<Rec>, r: Rec)
    requires rs != [] && rs[0].target != UNKNOWN && RunLength(rs, rs[0]) == |rs|
    ensures Segments(rs) == [File(rs[0].target, rs[0].seqNo, rs)]
    ensures Segments(rs + [r]) == Extend(Segments(rs), LastOf(rs), r)
  {
    var all, f := rs + [r], File(rs[0].target, rs[0].seqNo, rs);
    assert rs[..|rs|] == rs && rs[|rs|..] == [];
    assert SameKey(rs[..|rs|][|rs| - 1], rs[0]);
    RunLengthSnoc(rs, r, rs[0]);
    if SameKey(r, rs[0]) {
      assert all[..|all|] == all && all[|all|..] == [];
    } else {
      assert all[..|rs|] == rs && all[|rs|..] == [r];
      SegmentsOne(r);
    }
  }

  // ---------- one stream after another ----------

  /** The records of `b` go on in the last file of `a`. */
  predicate Joined(a: seq<Rec>, b: seq<Rec>) {
    a != [] && b != [] && b[0].target != UNKNOWN && SameKey(a[|a| - 1], b[0])
  }

  /** The files of both, the last of `fs` and the first of `gs` being one. */
  function Glue(fs: seq<File>, gs: seq<File>): seq<File>
    requires fs != [] && gs != []
  {
    var f := fs[|fs| - 1];
    fs[..|fs| - 1] + [f.(rows := f.rows + gs[0].rows)] + gs[1..]
  }

  lemma ExtendLast(fs: seq<File>, gs: seq<File>, last: Option<Rec>, r: Rec)
    requires last.Some? && (last.value.target != UNKNOWN ==> gs != [])
    ensures Extend(fs + gs, last, r) == fs + Extend(gs, last, r)
    ensures fs != [] && gs != [] ==>
              Extend(gs, last, r) != [] && Extend(Glue(fs, gs), last, r) == Glue(fs, Extend(gs, last, r))
  {
    var gs' := Extend(gs, last, r);
    if r.target != UNKNOWN {
      if SameKey(last.value, r) {
        var n := |gs| - 1;
        assert (fs + gs)[..|fs| + n] == fs + gs[..n];
        if fs != [] {
          GlueExtended(fs, gs, r);
        }
      } else {
        var g := File(r.target, r.seqNo, [r]);
        assert fs != [] && gs != [] ==> (gs + [g])[1..] == gs[1..] + [g];
      }
    }
  }

  lemma GlueExtended(fs: seq<File>, gs: seq<File>, r: Rec)
    requires fs != [] && gs != []
    ensures var n, h := |gs| - 1, Glue(fs, gs);
            h[..|h| - 1] + [h[|h| - 1].(rows := h[|h| - 1].rows + [r])]
            == Glue(fs, gs[..n] + [gs[n].(rows := gs[n].rows + [r])])
  {
    var n, h := |gs| - 1, Glue(fs, gs);
    var gs' := gs[..n] + [gs[n].(rows := gs[n].rows + [r])];
    if n == 0 {
      var rows := fs[|fs| - 1].rows;
      assert rows + gs[0].rows + [r] == rows + (gs[0].rows + [r]);
      assert gs'[1..] == [] == gs[1..];
    } else {
      assert gs'[1..] == gs[1..][..n - 1] + [gs'[n]];
      assert h[..|h| - 1] == fs[..|fs| - 1] + [h[|fs| - 1]] + gs[1..][..n - 1];
    }
  }

  /** Streams one after the other have the files of both, except that a file of the first goes on in the
      second if and only if they meet in the same label and number. */
  lemma {:induction false} SegmentsConcat(a: seq<Rec>, b: seq<Rec>)
    ensures Joined(a, b) ==> Segments(a) != [] && Segments(b) != []
    ensures Segments(a + b) == if Joined(a, b) then Glue(Segments(a), Segments(b)) else Segments(a) + Segments(b)
  {
    hide Segments, Extend, Glue;
    if b == [] {
      AcceptedStart();
      assert a + b == a;
    } else {
      var b', r := b[..|b| - 1], b[|b| - 1];
      assert b == b' + [r] && a + b == a + b' + [r];
      SegmentsSnoc(a + b', r);
      SegmentsSnoc(b', r);
      SegmentsConcat(a, b');
      if b' == [] {
        AcceptedStart();
        assert a + b' == a;
        JoinOne(a, r);
      } else {
        assert LastOf(a + b') == LastOf(b');
        ExtendLast(Segments(a), Segments(b'), LastOf(b'), r);
      }
    }
  }

  lemma JoinOne(a: seq<Rec>, r: Rec)
    ensures Joined(a, [r]) ==> Segments(a) != [] && Segments([r]) != []
    ensures a != [] && a[|a| - 1].target != UNKNOWN ==> Segments(a) != []
    ensures Extend(Segments(a), LastOf(a), r)
            == if Joined(a, [r]) then Glue(Segments(a), Segments([r])) else Segments(a) + Segments([r])
  {
    hide Segments;
    SegmentsOne(r);
    if a != [] && a[|a| - 1].target != UNKNOWN {
      LastHasFile(a);
    }
  }

  // ---------- acceptance ----------

  /** A line from the serial port: the samples are still base64 text, `len` is their claimed number. */
  datatype Line = Line(target: string, seqNo: nat, len: int, text: string)

  function Accept(l: Line): Option<Rec> {
    match Base64.DecodeBin(l.text)
    case None => None
    case Some(data) => if |data| == l.len then Some(Rec(l.target, l.seqNo, data)) else None
  }

  function AsSeq(r: Option<Rec>): seq<Rec> { if r.Some? then [r.value] else [] }

  function Accepted(ls: seq<Line>): seq<Rec> {
    if ls == [] then [] else Accepted(ls[..|ls| - 1]) + AsSeq(Accept(ls[|ls| - 1]))
  }

  lemma AcceptedStart()
    ensures Accepted([]) == [] && Segments([]) == []
  {
  }

  lemma AcceptedNext(ls: seq<Line>, i: nat)
    requires i < |ls|
    ensures Accepted(ls[..i + 1]) == Accepted(ls[..i]) + AsSeq(Accept(ls[i]))
  {
    assert ls[..i + 1][..i] == ls[..i];
  }

  lemma {:induction false} AcceptedConcat(a: seq<Line>, b: seq<Line>)
    ensures Accepted(a + b) == Accepted(a) + Accepted(b)
  {
    hide Accepted, AsSeq;
    if b == [] {
      AcceptedStart();
      assert a + b == a;
    } else {
      var n := |b| - 1;
      AcceptedConcat(a, b[..n]);
      AcceptedLast(b);
      assert a + b == (a + b[..n]) + [b[n]];
      AcceptedEnd(a + b[..n], b[n]);
      Assoc(Accepted(a), Accepted(b[..n]), AsSeq(Accept(b[n])));
    }
  }

  lemma AcceptedEnd(ls: seq<Line>, l: Line)
    ensures Accepted(ls + [l]) == Accepted(ls) + AsSeq(Accept(l))
  {
    assert (ls + [l])[..|ls|] == ls;
  }

  lemma AcceptedLast(ls: seq<Line>)
    requires ls != []
    ensures Accepted(ls) == Accepted(ls[..|ls| - 1]) + AsSeq(Accept(ls[|ls| - 1]))
  {
  }

  /** The line is not base64 text, or not of as many samples as it claims. */
  predicate Damaged(l: Line) {
    var decoded := Base64.DecodeBin(l.text);
    decoded.None? || |decoded.value| != l.len
  }

  /** A damaged line, wherever it comes, changes nothing in the files: it neither appears in one nor
      separates two. */
  lemma DamagedLeavesNoTrace(a: seq<Line>, l: Line, b: seq<Line>)
    requires Damaged(l)
    ensures Segments(Accepted(a + [l] + b)) == Segments(Accepted(a + b))
  {
    hide Base64.DecodeBin, Segments;
    AcceptedConcat(a + [l], b);
    AcceptedConcat(a, b);
    AcceptedEnd(a, l);
    assert Accepted(a) + [] == Accepted(a);
  }

  /** A line that decodes to as many samples as it claims is kept, with these samples, in its place. */
  lemma UndamagedIsKept(a: seq<Line>, l: Line, b: seq<Line>, data: seq<int>)
    requires Base64.DecodeBin(l.text) == Some(data) && |data| == l.len
    ensures Accepted(a + [l] + b) == Accepted(a) + [Rec(l.target, l.seqNo, data)] + Accepted(b)
  {
    hide Base64.DecodeBin;
    AcceptedConcat(a + [l], b);
    AcceptedEnd(a, l);
  }

  /** Record `r` is what line `l` says. */
  predicate Says(l: Line, r: Rec) {
    l.target == r.target && l.seqNo == r.seqNo && |r.data| == l.len && Base64.DecodeBin(l.text) == Some(r.data)
  }

  lemma {:induction false} AcceptedSaid(ls: seq<Line>, i: nat)
    requires i < |Accepted(ls)|
    ensures exists l :: l in ls && Says(l, Accepted(ls)[i])
  {
    hide Base64.DecodeBin;
    var n := |ls| - 1;
    if i < |Accepted(ls[..n])| {
      AcceptedSaid(ls[..n], i);
      var l :| l in ls[..n] && Says(l, Accepted(ls)[i]);
      assert l in ls;
    } else {
      assert ls[n] in ls && Says(ls[n], Accepted(ls)[i]);
    }
  }

  /** What is written to a file came as an undamaged line. */
  lemma {:induction false} WrittenWasSaid(ls: seq<Line>, k: nat, m: nat)
    requires k < |Segments(Accepted(ls))| && m < |Segments(Accepted(ls))[k].rows|
    ensures exists l :: l in ls && Says(l, Segments(Accepted(ls))[k].rows[m])
  {
    hide Segments, Accepted, Says;
    var i := RowIsRecord(Accepted(ls), k, m);
    AcceptedSaid(ls, i);
  }

  lemma {:induction false} RowIsRecord(rs: seq<Rec>, k: nat, m: nat) returns (i: nat)
    requires k < |Segments(rs)| && m < |Segments(rs)[k].rows|
    ensures i < |rs| && rs[i] == Segments(rs)[k].rows[m]
    decreases |rs|
  {
    if rs[0].target == UNKNOWN {
      i := RowIsRecord(rs[1..], k, m);
      i := i + 1;
    } else {
      var n := RunLength(rs, rs[0]);
      if k == 0 {
        i := m;
      } else {
        i := RowIsRecord(rs[n..], k - 1, m);
        i := i + n;
      }
    }
  }

  /** Write one record: open a new file when label or number changed, then append. */
  method WriteRecord(files: seq<File>, targetLast: string, seqLast: nat, r: Rec, ghost last: Option<Rec>)
    returns (files': seq<File>)
    requires if last.None? then targetLast == UNKNOWN
             else targetLast == last.value.target && seqLast == last.value.seqNo
    requires last.Some? && last.value.target != UNKNOWN ==> files != []
    ensures files' == Extend(files, last, r)
  {
    files' := files;
    if r.target != UNKNOWN {
      if r.target != targetLast || r.seqNo != seqLast {
        files' := files' + [File(r.target, r.seqNo, [])];
        assert files'[..|files|] == files;
      }
      var f := files'[|files'| - 1];
      assert [] + [r] == [r];
      files' := files'[..|files'| - 1] + [f.(rows := f.rows + [r])];
    }
  }

  /** The CSI branch of `serial_handle`: files in the order they are opened. A line that does not
      decode to the claimed number of samples is skipped and leaves no trace. */
  method SerialHandle(lines: seq<Line>) returns (files: seq<File>)
    ensures files == Segments(Accepted(lines))
  {
    hide Accepted, Extend, Segments, Base64.DecodeBin;
    AcceptedStart();
    files := [];
    var targetLast, seqLast := UNKNOWN, 0;
    ghost var rs := [];
    for i := 0 to |lines|
      invariant rs == Accepted(lines[..i]) && files == Segments(rs)
      invariant if rs == [] then targetLast == UNKNOWN
                else targetLast == rs[|rs| - 1].target && seqLast == rs[|rs| - 1].seqNo
    {
      AcceptedNext(lines, i);
      var data := Base64.DecodeBinInPlace(lines[i].text);
      if data.None? || |data.value| != lines[i].len {
        continue;
      }
      var r := Rec(lines[i].target, lines[i].seqNo, data.value);
      SegmentsSnoc(rs, r);
      files := WriteRecord(files, targetLast, seqLast, r, LastOf(rs));
      targetLast, seqLast := r.target, r.seqNo;
      rs := rs + [r];
    }
    assert lines[..|lines|] == lines;
  }
}
