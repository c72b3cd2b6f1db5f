/**
 How a byte stream may be cut into receive chunks, and what the cutting can and cannot change:
 when every cut gets through, and when some cut leaves the device in its drain loop for ever.
 */
module ReplayChunks {
  import opened ReplayWire
  import opened Sequences
  import opened DrainLoop

  /** `recv` may fill the buffer up to the terminating NUL. */
  const CAPACITY := RX_BUFFER_SIZE - 1

  /** Every line fits the buffer together with its newline. */
  predicate Fits(s: string) {
    && (forall k | 0 <= k < |Lines(s)| :: |Lines(s)[k]| < CAPACITY)
    && |Tail(s)| <= CAPACITY
  }

  /** A line shows the marker or its newline within its first 251 bytes. */
  predicate SignsEarly(l: string) {
    |l| <= MIN_FRAME || FindText(l[..MIN_FRAME + 1], MARKER) >= 0
  }

  predicate EarlySigns(s: string) {
    && (forall k | 0 <= k < |Lines(s)| :: SignsEarly(Lines(s)[k]))
    && SignsEarly(Tail(s))
  }

  // ---------- properties of the unconsumed part ----------

  /** The line that starts `s`, finished or not. */
  function Head(s: string): string {
    if FindChar(s, '\n') >= 0 then s[..FindChar(s, '\n')] else s
  }

  /** Consumed lines can be left out of sight. */
  lemma HeadOf(done: seq<string>, s: string)
    requires AllOneLine(done)
    ensures Fits(Unlines(done) + s) ==> Fits(s)
    ensures EarlySigns(Unlines(done) + s) ==> EarlySigns(s)
    ensures Fits(s) ==> |Head(s)| <= if FindChar(s, '\n') >= 0 then CAPACITY - 1 else CAPACITY
    ensures EarlySigns(s) ==> SignsEarly(Head(s))
  {
    LinesOfUnlines(done, s);
    var all := done + Lines(s);
    assert forall k | 0 <= k < |Lines(s)| :: Lines(s)[k] == all[|done| + k];
    if FindChar(s, '\n') >= 0 {
      assert Lines(s)[0] == Head(s);
    } else {
      assert Tail(s) == s;
    }
  }

  /** An unfinished line in the buffer starts the line it will become. */
  lemma PrefixOfHead(t: string, p: string)
    requires OneLine(t)
    ensures |t| <= |Head(t + p)| && Head(t + p)[..|t|] == t
  {
    var s := t + p;
    assert forall k | 0 <= k < |t| :: s[k] == t[k];
    assert s[..|t|] == t;
  }

  /** The complete lines of what has been received are the first lines of the stream, and the
      unfinished one starts the next. */
  lemma LinesOfPrefix(s: string, n: nat)
    requires n <= |s|
    ensures var p, k := s[..n], |Lines(s[..n])|;
            && Lines(p) <= Lines(s)
            && (k < |Lines(s)| ==> Tail(p) <= Lines(s)[k])
            && (k == |Lines(s)| ==> Tail(p) <= Tail(s))
  {
    hide Lines, Tail, Unlines, FindChar;
    var p, q := s[..n], s[n..];
    var t := Tail(p);
    LinesAreLines(p);
    LinesPartition(p);
    assert s == Unlines(Lines(p)) + (t + q);
    LinesOfUnlines(Lines(p), t + q);
    PrefixOfHead(t, q);
    HeadIsFirst(t + q);
  }

  lemma HeadIsFirst(s: string)
    ensures if Lines(s) == [] then Tail(s) == s == Head(s) else Lines(s)[0] == Head(s)
  {
  }

  /** With early signs in the stream, the drain loop always ends, whatever is buffered. */
  lemma NeverStuck(done: seq<string>, c: string, p: string)
    requires AllOneLine(done) && EarlySigns(Unlines(done) + c + p)
    ensures !Stuck(Rest(c))
  {
    var t := Rest(c);
    var lines := DrainMore(done, c);
    if |t| > MIN_FRAME {
      assert Unlines(done) + c + p == Unlines(lines) + (t + p);
      HeadOf(lines, t + p);
      PrefixOfHead(t, p);
      SignInPrefix(t, Head(t + p));
    }
  }

  lemma SignInPrefix(t: string, l: string)
    requires MIN_FRAME < |t| <= |l| && l[..|t|] == t && SignsEarly(l)
    ensures HasSign(t)
  {
    var m := MIN_FRAME + 1;
    assert l[..m] == t[..m];
    var k := FindText(t[..m], MARKER);
    assert t[..m][k..k + |MARKER|] == t[k..k + |MARKER|];
    assert OccursAt(t, MARKER, k);
  }

  /** Draining moves lines from the buffered to the consumed part of the stream. */
  lemma DrainMore(done: seq<string>, c: string) returns (lines: seq<string>)
    requires AllOneLine(done)
    ensures AllOneLine(lines) && Unlines(done) + c == Unlines(lines) + Rest(c)
    ensures |Rest(c)| <= MIN_FRAME || OneLine(Rest(c))
    ensures lines == done + Drained(c)
  {
    DrainPartition(c);
    lines := done + Drained(c);
    UnlinesConcat(done, Drained(c));
    Assoc(Unlines(done), Unlines(Drained(c)), Rest(c));
  }

  /** While the stream fits and is not all received, there is room for another byte. */
  lemma RoomLeft(done: seq<string>, c: string, p: string)
    requires AllOneLine(done) && Fits(Unlines(done) + c + p) && p != ""
    requires |c| <= MIN_FRAME || OneLine(c)
    ensures |c| < CAPACITY
  {
    if |c| > MIN_FRAME {
      assert Unlines(done) + c + p == Unlines(done) + (c + p);
      HeadOf(done, c + p);
      PrefixOfHead(c, p);
      var e := FindChar(c + p, '\n');
      assert e < 0 ==> |Head(c + p)| == |c| + |p|;
    }
  }

  /** Lines that came out of a buffer fit it together with their newlines. */
  predicate AllFit(ls: seq<string>) { forall k | 0 <= k < |ls| :: |ls[k]| < CAPACITY }

  lemma {:induction false} PiecesFit(c: string)
    requires |c| <= CAPACITY
    ensures AllFit(Lines(c)) && AllFit(Drained(c))
    decreases |c|
  {
    if FindChar(c, '\n') >= 0 {
      var l, rest := CutFirst(c);
      PiecesFit(rest);
      AllFitCons(l, Lines(rest));
      AllFitCons(l, Drained(rest));
    }
  }

  lemma AllFitCons(l: string, ls: seq<string>)
    requires |l| < CAPACITY && AllFit(ls)
    ensures AllFit([l] + ls)
  {
  }

  lemma LinesAndTextFit(done: seq<string>, c: string)
    requires AllOneLine(done) && AllFit(done) && |c| <= CAPACITY
    ensures Fits(Unlines(done) + c)
  {
    LinesOfUnlines(done, c);
    PiecesFit(c);
    LinesPartition(c);
  }

  // ---------- how far reception gets ----------

  /** What can be received of a stream: all of it if it fits, otherwise the part up to the first line that
      does not, and of that line what fills the buffer. */
  function Reach(s: string): (r: string)
    ensures r <= s
    decreases |s|
  {
    var e := FindChar(s, '\n');
    if 0 <= e < CAPACITY then
      assert s == s[..e + 1] + s[e + 1..];
      s[..e + 1] + Reach(s[e + 1..])
    else if |s| <= CAPACITY then s
    else s[..CAPACITY]
  }

  lemma ReachLine(l: string, s: string)
    requires OneLine(l) && |l| < CAPACITY
    ensures Reach(l + "\n" + s) == l + "\n" + Reach(s)
  {
    FirstLine(l, s);
    var all := l + "\n" + s;
    assert all[..|l| + 1] == l + "\n" && all[|l| + 1..] == s;
  }

  lemma {:induction false} ReachFits(s: string)
    ensures Fits(Reach(s))
    ensures Fits(s) ==> Reach(s) == s
    decreases |s|
  {
    hide Reach, Lines, Tail, FindChar;
    var e := FindChar(s, '\n');
    if 0 <= e < CAPACITY {
      var l, rest := CutFirst(s);
      ReachLine(l, rest);
      ReachFits(rest);
      FitsLine(l, rest);
      FitsLine(l, Reach(rest));
    } else {
      ReachEnd(s);
    }
  }

  lemma FitsLine(l: string, s: string)
    requires OneLine(l)
    ensures Fits(l + "\n" + s) <==> |l| < CAPACITY && Fits(s)
  {
    FirstLine(l, s);
    var all := Lines(l + "\n" + s);
    assert all[0] == l && forall k | 0 <= k < |Lines(s)| :: Lines(s)[k] == all[k + 1];
  }

  lemma ReachEnd(s: string)
    requires !(0 <= FindChar(s, '\n') < CAPACITY)
    ensures Fits(Reach(s)) && (Fits(s) ==> Reach(s) == s)
  {
    var r := Reach(s);
    assert forall k | 0 <= k < |r| :: r[k] == s[k] != '\n';
    assert FindChar(r, '\n') < 0;
    if FindChar(s, '\n') >= 0 {
      assert |Lines(s)[0]| >= CAPACITY;
    }
  }

  /** Whatever of the stream fits the buffer line by line is within reach. */
  lemma {:induction false} FitsWithinReach(p: string, s: string)
    requires p <= s && Fits(p)
    ensures p <= Reach(s)
    decreases |s|
  {
    hide Lines, Tail, FindChar, Fits, Reach;
    if FindChar(p, '\n') >= 0 {
      var l, p' := CutFirst(p);
      var s' := s[|l| + 1..];
      assert s == l + "\n" + s' && p' <= s';
      FitsLine(l, p');
      FitsWithinReach(p', s');
      ReachLine(l, s');
    } else {
      WithinFirstLine(p, s);
    }
  }

  lemma WithinFirstLine(p: string, s: string)
    requires p <= s && Fits(p) && FindChar(p, '\n') < 0
    ensures p <= Reach(s)
  {
    hide Lines, FindChar, Reach;
    NoNewline(p);
    var e := FindChar(s, '\n');
    if 0 <= e < CAPACITY {
      var l, rest := CutFirst(s);
      ReachLine(l, rest);
      assert |p| <= e;
      assert p == s[..|p|] == (l + "\n" + Reach(rest))[..|p|];
    } else {
      ReachPart(s);
    }
  }

  lemma ReachPart(s: string)
    requires !(0 <= FindChar(s, '\n') < CAPACITY)
    ensures Reach(s) == if |s| <= CAPACITY then s else s[..CAPACITY]
  {
  }

  /** Early signs are needed only as far as reception gets. */
  lemma EarlyInReach(s: string, done: seq<string>, c: string)
    requires AllOneLine(done) && AllFit(done) && |c| <= CAPACITY
    requires Unlines(done) + c <= s && EarlySigns(Reach(s))
    ensures !Stuck(Rest(c))
  {
    LinesAndTextFit(done, c);
    FitsWithinReach(Unlines(done) + c, s);
    var p := Reach(s)[|Unlines(done) + c|..];
    assert Reach(s) == Unlines(done) + c + p;
    NeverStuck(done, c, p);
  }

  // ---------- runs over chunks ----------

  function Concat(chunks: seq<string>): string {
    if chunks == [] then "" else Concat(chunks[..|chunks| - 1]) + chunks[|chunks| - 1]
  }

  /** The text buffered after receiving and draining chunk by chunk. */
  function After(chunks: seq<string>): string {
    if chunks == [] then "" else Rest(After(chunks[..|chunks| - 1]) + chunks[|chunks| - 1])
  }

  /** Chunks that `recv` can return one after the other. */
  predicate Legal(chunks: seq<string>) {
    forall k | 0 <= k < |chunks| :: 0 < |chunks[k]| <= CAPACITY - |After(chunks[..k])|
  }

  lemma OneMore(chunks: seq<string>, b: string)
    ensures Concat(chunks + [b]) == Concat(chunks) + b
    ensures After(chunks + [b]) == Rest(After(chunks) + b)
    ensures Legal(chunks) && 0 < |b| <= CAPACITY - |After(chunks)| ==> Legal(chunks + [b])
  {
    var all := chunks + [b];
    assert all[..|all| - 1] == chunks;
    assert forall k | 0 <= k < |chunks| :: all[..k] == chunks[..k] && all[k] == chunks[k];
  }

  function Min(a: int, b: int): int { if a < b then a else b }

  /** How many bytes one `recv` returns after `before`, when the network would return at most `cut`: that
      many, but no more than there is room for after draining, and no more than there is left. */
  function Round(before: seq<string>, stream: string, cut: nat): int {
    Min(cut, Min(CAPACITY - |After(before)|, |stream| - |Concat(before)|))
  }

  /** `chunks` is what the receive loop gets of `stream` in as many rounds. */
  ghost predicate CutAs(chunks: seq<string>, stream: string, cuts: seq<nat>) {
    && |chunks| <= |cuts| && Concat(chunks) <= stream
    && forall k | 0 <= k < |chunks| :: RoundIs(chunks, k, stream, cuts[k])
  }

  predicate RoundIs(chunks: seq<string>, k: nat, stream: string, cut: nat)
    requires k < |chunks|
  {
    |chunks[k]| == Round(chunks[..k], stream, cut)
  }

  lemma RoundStays(chunks: seq<string>, b: string, k: nat, stream: string, cut: nat)
    requires k < |chunks|
    ensures RoundIs(chunks + [b], k, stream, cut) <==> RoundIs(chunks, k, stream, cut)
  {
    assert (chunks + [b])[..k] == chunks[..k];
  }

  lemma CutOneMore(chunks: seq<string>, b: string, stream: string, cuts: seq<nat>)
    requires CutAs(chunks, stream, cuts) && |chunks| < |cuts| && Concat(chunks) + b <= stream
    requires |b| == Round(chunks, stream, cuts[|chunks|])
    ensures CutAs(chunks + [b], stream, cuts)
  {
    hide Round, Concat, After, Legal;
    OneMore(chunks, b);
    var all := chunks + [b];
    assert RoundIs(all, |chunks|, stream, cuts[|chunks|]) by {
      assert all[..|chunks|] == chunks;
    }
    hide RoundIs;
    forall k | 0 <= k < |chunks| ensures RoundIs(all, k, stream, cuts[k]) {
      RoundStays(chunks, b, k, stream, cuts[k]);
    }
  }

  /** One more round of the receive loop. */
  lemma RoundDone(chunks: seq<string>, b: string, stream: string, cuts: seq<nat>)
    requires CutAs(chunks, stream, cuts) && Legal(chunks) && |chunks| < |cuts| && Concat(chunks) + b <= stream
    requires 0 < |b| == Round(chunks, stream, cuts[|chunks|])
    ensures CutAs(chunks + [b], stream, cuts) && Legal(chunks + [b])
    ensures Concat(chunks + [b]) == Concat(chunks) + b && After(chunks + [b]) == Rest(After(chunks) + b)
  {
    hide After, Concat, Legal, CutAs;
    CutOneMore(chunks, b, stream, cuts);
    OneMore(chunks, b);
  }

  /** At any time the buffer holds what follows the last consumed newline. */
  lemma {:induction false} AfterIsSuffix(chunks: seq<string>) returns (done: seq<string>)
    ensures AllOneLine(done) && Concat(chunks) == Unlines(done) + After(chunks)
    ensures |After(chunks)| <= MIN_FRAME || OneLine(After(chunks))
  {
    if chunks == [] {
      done := [];
    } else {
      var before, last := chunks[..|chunks| - 1], chunks[|chunks| - 1];
      var early := AfterIsSuffix(before);
      Assoc(Unlines(early), After(before), last);
      done := DrainMore(early, After(before) + last);
    }
  }

  /** The buffer never overflows, and the lines consumed came out of it. */
  lemma {:induction false} LegalFits(chunks: seq<string>) returns (done: seq<string>)
    requires Legal(chunks)
    ensures AllOneLine(done) && AllFit(done) && Concat(chunks) == Unlines(done) + After(chunks)
    ensures |After(chunks)| <= CAPACITY
  {
    if chunks == [] {
      done := [];
    } else {
      var before, last := chunks[..|chunks| - 1], chunks[|chunks| - 1];
      assert forall k | 0 <= k < |before| :: before[k] == chunks[k] && before[..k] == chunks[..k];
      var early := LegalFits(before);
      var c := After(before) + last;
      Assoc(Unlines(early), After(before), last);
      done := DrainMore(early, c);
      PiecesFit(c);
      DrainPartition(c);
    }
  }

  lemma EarlySignsNeverStuck(s: string, chunks: seq<string>)
    requires Legal(chunks) && Concat(chunks) <= s && EarlySigns(Reach(s))
    ensures !Stuck(After(chunks))
  {
    if chunks != [] {
      var before, last := chunks[..|chunks| - 1], chunks[|chunks| - 1];
      assert forall k | 0 <= k < |before| :: before[k] == chunks[k] && before[..k] == chunks[..k];
      var done := LegalFits(before);
      assert last == chunks[|chunks| - 1] && chunks[..|chunks| - 1] == before;
      var c := After(before) + last;
      Assoc(Unlines(done), After(before), last);
      EarlyInReach(s, done, c);
    }
  }

  // ---------- the converse: a cut that gets stuck ----------

  function Bytes(s: string): seq<string> { seq(|s|, k requires 0 <= k < |s| => [s[k]]) }

  lemma BytesSnoc(s: string)
    requires s != ""
    ensures Bytes(s) == Bytes(s[..|s| - 1]) + [[s[|s| - 1]]]
  {
  }

  lemma {:induction false} ConcatBytes(s: string)
    ensures Concat(Bytes(s)) == s
  {
    if s != "" {
      var i := s[..|s| - 1];
      ConcatBytes(i);
      BytesSnoc(s);
      assert Bytes(s)[..|s| - 1] == Bytes(i);
      assert s == i + [s[|s| - 1]];
    }
  }

  /** Byte by byte, complete lines that fit are received whole. */
  lemma BytesLegal(p: string, s: string)
    requires p <= s && Fits(s) && Tail(p) == ""
    ensures Legal(Bytes(p))
  {
    forall k | 0 <= k < |Bytes(p)| ensures |After(Bytes(p)[..k])| < CAPACITY {
      assert Bytes(p)[..k] == Bytes(p[..k]);
      ConcatBytes(p[..k]);
      var done := AfterIsSuffix(Bytes(p[..k]));
      var c := After(Bytes(p[..k]));
      assert s == p[..k] + s[k..] == Unlines(done) + c + s[k..];
      RoomLeft(done, c, s[k..]);
    }
  }

  /** A buffer that ends with a newline has been drained down to 250 bytes. */
  lemma ShortAfterLines(p: string)
    requires Tail(p) == ""
    ensures |After(Bytes(p))| <= MIN_FRAME && Tail(After(Bytes(p))) == ""
  {
    ConcatBytes(p);
    var done := AfterIsSuffix(Bytes(p));
    var c := After(Bytes(p));
    LinesOfUnlines(done, c);
    assert Tail(c) == "";
    if OneLine(c) {
      assert FindChar(c, '\n') < 0;
    }
  }

  /** Cutting complete lines byte by byte and then 251 signless bytes in one chunk gets stuck. */
  lemma SignlessChunkSticks(p: string, b: string, s: string)
    requires p + b <= s && Fits(s) && Tail(p) == ""
    requires |b| == MIN_FRAME + 1 && OneLine(b) && FindText(b, MARKER) < 0
    ensures var chunks := Bytes(p) + [b];
            Legal(chunks) && Concat(chunks) == p + b && Stuck(After(chunks))
  {
    hide Lines, Tail, Unlines, Bytes, Concat, After, Legal, Rest, FindChar, FindText, Fits;
    assert p <= s;
    BytesLegal(p, s);
    ShortAfterLines(p);
    ConcatBytes(p);
    var c := After(Bytes(p));
    LinesPartition(c);
    LinesAreLines(c);
    assert c == Unlines(Lines(c));
    RestSkipsLines(Lines(c), b);
    OneMore(Bytes(p), b);
  }

  lemma NoTail(ls: seq<string>)
    requires AllOneLine(ls)
    ensures Tail(Unlines(ls)) == ""
  {
    LinesOfUnlines(ls, "");
    assert Unlines(ls) + "" == Unlines(ls);
  }

  /** A stream without early signs contains complete lines and then 251 signless bytes. */
  lemma FindSignless(s: string) returns (p: string, b: string)
    requires !EarlySigns(s)
    ensures p + b <= s && Tail(p) == ""
    ensures |b| == MIN_FRAME + 1 && OneLine(b) && FindText(b, MARKER) < 0
  {
    hide FindText, Lines, Tail;
    var ls := Lines(s);
    LinesAreLines(s);
    LinesPartition(s);
    var m := MIN_FRAME + 1;
    if k :| 0 <= k < |ls| && !SignsEarly(ls[k]) {
      p, b := Unlines(ls[..k]), ls[k][..m];
      assert ls == ls[..k] + ls[k..];
      UnlinesConcat(ls[..k], ls[k..]);
      UnlinesCons(ls[k], ls[k + 1..]);
      assert ls[k..] == [ls[k]] + ls[k + 1..];
      assert b <= ls[k];
      NoTail(ls[..k]);
    } else {
      p, b := Unlines(ls), Tail(s)[..m];
      NoTail(ls);
    }
  }

  /** Early signs all through a stream are more than enough. */
  lemma EarlyThroughout(s: string)
    requires EarlySigns(s)
    ensures EarlySigns(Reach(s))
  {
    hide EarlySigns, Lines, Tail, FindText, Reach, Unlines;
    if !EarlySigns(Reach(s)) {
      var p, b := FindSignless(Reach(s));
      var rest := s[|p + b|..];
      LinesPartition(p);
      LinesAreLines(p);
      assert s == Unlines(Lines(p)) + (b + rest);
      HeadOf(Lines(p), b + rest);
      PrefixOfHead(b, rest);
      SignInPrefix(b, Head(b + rest));
    }
  }

  /** For every stream: some chunking leaves the device in its drain loop for ever, if and only if some
      line, as far as reception gets, fails to show the marker or its newline within its first 251
      bytes. If all lines fit the buffer that is the whole stream. */
  lemma StuckExactly(s: string)
    ensures (exists chunks :: Legal(chunks) && Concat(chunks) <= s && Stuck(After(chunks)))
            <==> !EarlySigns(Reach(s))
    ensures Fits(s) ==> Reach(s) == s
  {
    hide Legal, Concat, After, Stuck, EarlySigns, Reach, Fits, Tail, Lines;
    ReachFits(s);
    if EarlySigns(Reach(s)) {
      forall chunks | Legal(chunks) && Concat(chunks) <= s ensures !Stuck(After(chunks)) {
        EarlySignsNeverStuck(s, chunks);
      }
    } else {
      var p, b := FindSignless(Reach(s));
      SignlessChunkSticks(p, b, Reach(s));
      var chunks := Bytes(p) + [b];
      assert Legal(chunks) && Concat(chunks) <= s && Stuck(After(chunks));
    }
  }
}
