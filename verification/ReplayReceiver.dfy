/**
 The device side of the replay: the receive buffer and the loops over it, proved against the
 line protocol of ReplayWire.dfy.
 */
module ReplayReceiver {
  import opened ReplayWire
  import opened Sequences
  import opened FieldSplit
  import opened DrainLoop
  import opened ReplayChunks

  /** `strstr` and friends see the text before the first NUL. */
  function CString(m: string): string { ReadString(m, 0) }

  lemma CStringIs(m: string, n: nat)
    requires n < |m| && m[n] == NUL && Without(m[..n], NUL)
    ensures CString(m) == m[..n]
  {
    assert forall k | 0 <= k < n :: m[k] == m[..n][k];
    assert StringAt(m, 0, m[..n]);
    ReadStringAt(m, 0, m[..n]);
  }

  /** The received part of the stream: consumed lines, all handed over, and the buffered text. */
  ghost predicate Progress(received: string, done: seq<string>, text: string, pushed: seq<Outcome>) {
    && AllOneLine(done) && AllFit(done) && received == Unlines(done) + text
    && pushed == AnalyseAll(FramesOf(done))
    && (|text| <= MIN_FRAME || OneLine(text))
  }

  lemma ProgressStart()
    ensures Progress("", [], "", [])
  {
  }

  /** Receiving and draining the next `len` bytes of the stream makes progress. */
  lemma ProgressStep(stream: string, received: nat, len: nat, done: seq<string>, text: string, pushed: seq<Outcome>)
    returns (lines: seq<string>)
    requires received + len <= |stream| && EarlySigns(Reach(stream)) && |text| + len <= CAPACITY
    requires Progress(stream[..received], done, text, pushed)
    ensures var c := text + stream[received..received + len];
            !Stuck(Rest(c)) && Progress(stream[..received + len], lines, Rest(c), pushed + Yield(c))
  {
    var chunk := stream[received..received + len];
    var c := text + chunk;
    assert stream[..received + len] == stream[..received] + chunk;
    Assoc(Unlines(done), text, chunk);
    EarlyInReach(stream, done, c);
    lines := DrainMore(done, c);
    PiecesFit(c);
    FramesConcat(done, Drained(c));
    AnalyseAllConcat(FramesOf(done), FramesOf(Drained(c)));
  }

  lemma ProgressFrames(received: string, done: seq<string>, text: string, pushed: seq<Outcome>)
    requires Progress(received, done, text, pushed)
    ensures pushed == AnalyseAll(Frames(received))
  {
    LinesOfUnlines(done, text);
    FramesConcat(done, Lines(text));
    assert Frames(text) == [] by {
      if |text| <= MIN_FRAME {
        ShortTextHasNoFrame(text);
      }
    }
  }

  /** The frames handed over are exactly those of the complete lines received; and the loop that
      got everything, or that filled the buffer first, tells whether the stream fits. */
  lemma ProgressEnds(stream: string, received: nat, done: seq<string>, text: string, pushed: seq<Outcome>)
    requires received <= |stream| && Progress(stream[..received], done, text, pushed) && |text| <= CAPACITY
    ensures pushed == AnalyseAll(Frames(stream[..received]))
    ensures received == |stream| ==> Fits(stream)
    ensures received < |stream| && |text| == CAPACITY ==> !Fits(stream)
    ensures Fits(stream[..received])
    ensures |text| == CAPACITY ==> Tail(stream[..received]) == text
  {
    ProgressFrames(stream[..received], done, text, pushed);
    LinesAndTextFit(done, text);
    if |text| == CAPACITY {
      LinesOfUnlines(done, text);
      NoNewline(text);
    }
    if received == |stream| {
      assert stream[..received] == stream;
    } else if |text| == CAPACITY && Fits(stream) {
      assert stream == Unlines(done) + text + stream[received..];
      RoomLeft(done, text, stream[received..]);
    }
  }

  /** One accepted connection. */
  class Connection {
    const rxBuffer: array<char>
    var bufSize: nat
    var pushed: seq<Outcome>

    ghost predicate Valid()
      reads this, rxBuffer
    {
      && rxBuffer.Length == RX_BUFFER_SIZE && bufSize < RX_BUFFER_SIZE
      && Without(rxBuffer[..bufSize], NUL)
    }

    /** The buffered bytes; zero-terminated after every receive. */
    ghost function Text(): string
      requires Valid()
      reads this, rxBuffer
    {
      rxBuffer[..bufSize]
    }

    ghost predicate Terminated()
      requires Valid()
      reads this, rxBuffer
    {
      rxBuffer[bufSize] == NUL
    }

    constructor ()
      ensures Valid() && fresh(rxBuffer) && Text() == "" && pushed == []
    {
      rxBuffer := new char[RX_BUFFER_SIZE];
      bufSize, pushed := 0, [];
    }

    /** Hand the frame between `begin` and `end` over. Cutting it into fields spoils the buffer
        up to `end`, which is about to be dropped. */
    method Deliver(begin: nat, end: nat)
      requires Valid() && Terminated() && begin < end < bufSize
      modifies this`pushed, rxBuffer
      ensures rxBuffer[bufSize] == NUL
      ensures rxBuffer[end + 1..bufSize] == old(rxBuffer[end + 1..bufSize])
      ensures pushed == old(pushed) + [Analyse(old(Text())[begin..end])]
    {
      hide Analyse;
      ghost var frame, later := Text()[begin..end], rxBuffer[end + 1..bufSize + 1];
      rxBuffer[end] := NUL;
      assert rxBuffer[begin..end] == frame;
      var outcome := CsiInfoAnalysis(rxBuffer, begin, end - begin);
      assert rxBuffer[end + 1..bufSize + 1] == later;
      assert later[..bufSize - end - 1] == rxBuffer[end + 1..bufSize] && later[bufSize - end - 1] == rxBuffer[bufSize];
      pushed := pushed + [outcome];
    }

    /** Move what follows the newline at `end` to the front and clear the freed bytes. */
    method Shift(end: nat)
      requires rxBuffer.Length == RX_BUFFER_SIZE && end < bufSize < RX_BUFFER_SIZE
      requires Without(rxBuffer[end + 1..bufSize], NUL) && rxBuffer[bufSize] == NUL
      modifies this`bufSize, rxBuffer
      ensures Valid() && Terminated() && bufSize == old(bufSize) - (end + 1)
      ensures Text() == old(rxBuffer[end + 1..bufSize])
    {
      ghost var more := rxBuffer[end + 1..bufSize];
      bufSize := bufSize - (end + 1);
      forall k | 0 <= k < bufSize {
        rxBuffer[k] := rxBuffer[end + 1 + k];
      }
      assert rxBuffer[..bufSize] == more;
      forall k | bufSize <= k < bufSize + end + 1 {
        rxBuffer[k] := NUL;
      }
      assert rxBuffer[..bufSize] == more;
    }

    /** A turn of the loop that has found the newline at `end`. */
    method TakeLine(begin: int, end: int)
      requires Valid() && Terminated() && bufSize > MIN_FRAME
      requires begin == FindText(Text(), MARKER) && end == FindChar(Text(), '\n') >= 0
      modifies this`bufSize, this`pushed, rxBuffer
      ensures Valid() && Terminated() && bufSize < old(bufSize)
      ensures Text() == old(Text())[end + 1..]
      ensures pushed == old(pushed) + FirstYield(old(Text()), begin, end)
    {
      hide Analyse;
      ghost var t := Text();
      assert rxBuffer[end + 1..bufSize] == t[end + 1..];
      if begin >= 0 && end - begin > MIN_FRAME {
        Deliver(begin, end);
      }
      Shift(end);
    }

    /** One turn of the loop; it breaks when the marker has come but not the end of its line. */
    method Turn() returns (again: bool)
      requires Valid() && Terminated() && bufSize > MIN_FRAME && !Stuck(Rest(Text()))
      modifies this`bufSize, this`pushed, rxBuffer
      ensures Valid() && Terminated() && Rest(Text()) == Rest(old(Text()))
      ensures pushed + Yield(Text()) == old(pushed) + Yield(old(Text()))
      ensures again ==> bufSize < old(bufSize)
      ensures !again ==> FindChar(Text(), '\n') < 0
    {
      hide Rest, Yield, Stuck, FirstYield;
      ghost var t := Text();
      CStringIs(rxBuffer[..], bufSize);
      assert rxBuffer[..][..bufSize] == t;
      var text := CString(rxBuffer[..]);
      var begin := FindText(text, MARKER);
      var end := FindChar(text, '\n');
      again := true;
      TurnFacts(t, begin, end, pushed);
      if end >= 0 {
        TakeLine(begin, end);
      }
      if begin >= 0 && end < 0 {
        again := false;
      }
    }

    method Drain()
      requires Valid() && Terminated() && !Stuck(Rest(Text()))
      modifies this`bufSize, this`pushed, rxBuffer
      ensures Valid() && Terminated()
      ensures Text() == Rest(old(Text()))
      ensures pushed == old(pushed) + Yield(old(Text()))
    {
      hide Rest, Yield, Stuck;
      ghost var c := Text();
      var again := true;
      while again && bufSize > MIN_FRAME
        invariant Valid() && Terminated()
        invariant Rest(Text()) == Rest(c)
        invariant pushed + Yield(Text()) == old(pushed) + Yield(c)
        invariant !again ==> FindChar(Text(), '\n') < 0
        decreases again, bufSize
      {
        again := Turn();
      }
      DrainEnds(Text());
      assert pushed + [] == pushed;
    }

    /** One successful `recv` of `chunk`, and the drain that follows. */
    method Receive(chunk: string)
      requires Valid() && 0 < |chunk| <= RX_BUFFER_SIZE - bufSize - 1 && Without(chunk, NUL)
      requires !Stuck(Rest(Text() + chunk))
      modifies this`bufSize, this`pushed, rxBuffer
      ensures Valid() && Terminated()
      ensures Text() == Rest(old(Text()) + chunk)
      ensures pushed == old(pushed) + Yield(old(Text()) + chunk)
    {
      ghost var c := Text() + chunk;
      forall k | 0 <= k < |chunk| {
        rxBuffer[bufSize + k] := chunk[k];
      }
      bufSize := bufSize + |chunk|;
      rxBuffer[bufSize] := NUL;
      assert rxBuffer[..bufSize] == c;
      Drain();
    }

    /** The receive loop over what the peer sends. The network decides how many bytes a `recv`
        returns: at most `cuts[i]` in round `i`, at most what is free in the buffer, and at
        least one unless nothing is left or nothing is free. When `cuts` runs out the
        connection fails. `chunks` is what the rounds return. */
    method Serve(stream: string, cuts: seq<nat>) returns (received: nat, ghost chunks: seq<string>)
      requires Valid() && Text() == "" && pushed == []
      requires Without(stream, NUL) && EarlySigns(Reach(stream)) && forall i | 0 <= i < |cuts| :: cuts[i] > 0
      modifies this`bufSize, this`pushed, rxBuffer
      ensures Valid() && Text() == After(chunks)
      ensures Legal(chunks) && CutAs(chunks, stream, cuts)
      ensures |chunks| == |cuts| || received == |stream| || |After(chunks)| == CAPACITY
      ensures received <= |stream| && Concat(chunks) == stream[..received] && |chunks| <= received
      ensures pushed == AnalyseAll(Frames(stream[..received]))
      ensures |chunks| < |cuts| ==> (received == |stream| <==> Fits(stream))
      ensures Fits(stream[..received])
      ensures received < |stream| && |After(chunks)| == CAPACITY ==> |Tail(stream[..received])| == CAPACITY
    {
      hide EarlySigns, Fits, Reach, Rest, Stuck, Yield, AnalyseAll, Frames, Progress, Legal, CutAs, Concat, After;
      var i, len := 0, 1;
      received := 0;
      ghost var done := [];
      chunks := [];
      assert stream[..0] == "";
      ProgressStart();
      NothingCut(stream, cuts);
      while len > 0
        invariant Valid() && i == |chunks| <= |cuts| && i <= received <= |stream|
        invariant Progress(stream[..received], done, Text(), pushed)
        invariant Text() == After(chunks) && Concat(chunks) == stream[..received]
        invariant Legal(chunks) && CutAs(chunks, stream, cuts)
        invariant len < 0 ==> i == |cuts|
        invariant len == 0 ==> received == |stream| || bufSize == CAPACITY
        decreases |stream| - received, len
      {
        if i == |cuts| {
          len := -1;
        } else {
          len := Min(cuts[i], Min(RX_BUFFER_SIZE - bufSize - 1, |stream| - received));
        }
        if len > 0 {
          assert len == Round(chunks, stream, cuts[i]);
          hide Round, Without, Min;
          var chunk := stream[received..received + len];
          SliceOf(stream, received, len);
          done := ProgressStep(stream, received, len, done, Text(), pushed);
          RoundDone(chunks, chunk, stream, cuts);
          Receive(chunk);
          chunks := chunks + [chunk];
          received := received + len;
          i := i + 1;
        }
      }
      ProgressEnds(stream, received, done, Text(), pushed);
    }
  }

  lemma SliceOf(s: string, n: nat, len: nat)
    requires n + len <= |s|
    ensures s[..n] + s[n..n + len] == s[..n + len]
    ensures Without(s, NUL) ==> Without(s[n..n + len], NUL)
  {
  }

  lemma NothingCut(stream: string, cuts: seq<nat>)
    ensures Legal([]) && CutAs([], stream, cuts) && Concat([]) == "" == After([])
  {
  }
}
