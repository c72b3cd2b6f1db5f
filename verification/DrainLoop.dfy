/**
 What the device's drain loop makes of buffered text: the lines it consumes, the text it leaves,
 what it hands over, and when it can no longer move.
 */
module DrainLoop {
  import opened ReplayWire
  import opened Sequences

  /** The lines that draining consumes: it works only while more than 250 bytes are buffered. */
  function Drained(c: string): seq<string>
    decreases |c|
  {
    var e := FindChar(c, '\n');
    if |c| <= MIN_FRAME || e < 0 then [] else [c[..e]] + Drained(c[e + 1..])
  }

  /** The text that draining leaves in the buffer. */
  function Rest(c: string): string
    decreases |c|
  {
    var e := FindChar(c, '\n');
    if |c| <= MIN_FRAME || e < 0 then c else Rest(c[e + 1..])
  }

  /** The drain loop can neither consume this text nor leave it. */
  predicate Stuck(c: string) { |c| > MIN_FRAME && !HasSign(c) }

  predicate HasSign(c: string) { FindText(c, MARKER) >= 0 || FindChar(c, '\n') >= 0 }

  /** What draining `c` hands over. */
  function Yield(c: string): seq<Outcome> { AnalyseAll(FramesOf(Drained(c))) }

  /** What the loop's body hands over when it finds the marker at `b` and a newline at `e`. */
  function FirstYield(c: string, b: int, e: int): seq<Outcome>
    requires e < |c|
  {
    if b >= 0 && e - b > MIN_FRAME then [Analyse(c[b..e])] else []
  }

  lemma DrainEnds(c: string)
    requires |c| <= MIN_FRAME || FindChar(c, '\n') < 0
    ensures Rest(c) == c && Yield(c) == []
  {
  }

  /** Draining takes the first line off the front. */
  lemma DrainOne(c: string, e: int)
    requires |c| > MIN_FRAME && e == FindChar(c, '\n') >= 0
    ensures Rest(c) == Rest(c[e + 1..])
    ensures FramesOf(Drained(c)) == Frame(c[..e]) + FramesOf(Drained(c[e + 1..]))
  {
    DrainedCons(c, e);
    FramesCons(c[..e], Drained(c[e + 1..]));
  }

  lemma DrainedCons(c: string, e: int)
    requires |c| > MIN_FRAME && e == FindChar(c, '\n') >= 0
    ensures Drained(c) == [c[..e]] + Drained(c[e + 1..])
    ensures Rest(c) == Rest(c[e + 1..])
  {
  }

  /** The loop's body pushes exactly the outcome of the first line's frame, if it has one. */
  lemma PushOne(c: string, b: int, e: int)
    requires |c| > MIN_FRAME && b == FindText(c, MARKER) && e == FindChar(c, '\n') >= 0
    ensures Yield(c)
            == FirstYield(c, b, e) + Yield(c[e + 1..])
  {
    hide Drained, Rest;
    DrainOne(c, e);
    AnalyseAllConcat(Frame(c[..e]), FramesOf(Drained(c[e + 1..])));
    FirstFrame(c, b, e);
  }

  lemma FirstFrame(c: string, b: int, e: int)
    requires b == FindText(c, MARKER) && e == FindChar(c, '\n') >= 0
    ensures AnalyseAll(Frame(c[..e])) == FirstYield(c, b, e)
  {
    MarkerInFirstLine(c);
  }

  /** One turn of the loop on text with a first line keeps what draining will leave and hand over;
      on text without, it cannot be stuck only because the marker is there. */
  lemma TurnFacts(c: string, b: int, e: int, pushed: seq<Outcome>)
    requires |c| > MIN_FRAME && b == FindText(c, MARKER) && e == FindChar(c, '\n') && !Stuck(Rest(c))
    ensures e < 0 ==> b >= 0
    ensures e >= 0 ==> Rest(c) == Rest(c[e + 1..])
    ensures e >= 0 ==> pushed + FirstYield(c, b, e) + Yield(c[e + 1..]) == pushed + Yield(c)
  {
    hide Yield, Drained;
    if e >= 0 {
      DrainOne(c, e);
      PushOne(c, b, e);
      Assoc(pushed, FirstYield(c, b, e), Yield(c[e + 1..]));
    } else {
      assert Rest(c) == c;
    }
  }

  // ---------- consumed and kept text ----------

  /** Draining only cuts: consumed lines and kept text together are the buffered text, and the
      kept text is short or a line without its end. */
  lemma {:induction false} DrainPartition(c: string)
    ensures c == Unlines(Drained(c)) + Rest(c) && AllOneLine(Drained(c))
    ensures |Rest(c)| <= MIN_FRAME || OneLine(Rest(c))
    decreases |c|
  {
    if |c| > MIN_FRAME && FindChar(c, '\n') >= 0 {
      var l, rest := CutFirst(c);
      DrainPartition(rest);
      UnlinesCons(l, Drained(rest));
      Regroup(l, Unlines(Drained(rest)), Rest(rest));
      AllOneLineCons(l, Drained(rest));
    } else {
      assert Unlines(Drained(c)) + Rest(c) == c;
    }
  }

  /** Draining stops in time: before its last line was consumed, more than 250 bytes were there. */
  lemma {:induction false} DrainStops(c: string)
    requires Drained(c) != []
    ensures var ls := Drained(c); |ls[|ls| - 1]| + 1 + |Rest(c)| > 250
    decreases |c|
  {
    var l, rest := CutFirst(c);
    assert Drained(c) == [l] + Drained(rest);
    if Drained(rest) != [] {
      DrainStops(rest);
    } else {
      assert Rest(c) == Rest(rest) == rest;
    }
  }

  /** No frame is left behind in the buffer. */
  lemma RestHoldsNoFrame(c: string)
    ensures Frames(Rest(c)) == []
  {
    DrainPartition(c);
    if |Rest(c)| <= MIN_FRAME {
      ShortTextHasNoFrame(Rest(c));
    }
  }

  /** Draining complete lines and a long unfinished one keeps exactly the unfinished one. */
  lemma {:induction false} RestSkipsLines(ls: seq<string>, b: string)
    requires AllOneLine(ls) && |b| > MIN_FRAME && OneLine(b)
    ensures Rest(Unlines(ls) + b) == b
  {
    if ls == [] {
      assert Unlines(ls) + b == b;
      DrainEnds(b);
    } else {
      RestSkipsLines(ls[1..], b);
      RestSkipsLine(ls[0], Unlines(ls[1..]), b);
    }
  }

  lemma RestSkipsLine(l: string, rest: string, b: string)
    requires OneLine(l) && |b| > MIN_FRAME && Rest(rest + b) == b
    ensures Rest(l + "\n" + rest + b) == b
  {
    Regroup(l, rest, b);
    RestStep(l, rest + b);
  }

  lemma RestStep(l: string, t: string)
    requires OneLine(l) && |t| > MIN_FRAME
    ensures Rest(l + "\n" + t) == Rest(t)
  {
    var s := l + "\n" + t;
    FirstLine(l, t);
    assert s[|l| + 1..] == t;
    DrainedCons(s, |l|);
  }
}
