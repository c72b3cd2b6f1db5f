/**
 The radar callback of the console application: two signals share one window, one counter and one
 count of outliers. The window size is a console parameter and may change at any time.
 */
module ConsoleRadar {
  import opened Options
  import W = SlidingWindow

  const BUFFER_SIZE := 100
  const WRAP := 0x1_0000_0000

  datatype Status = Status(room: bool, human: bool)

  class Radar {
    var someoneThreshold: real
    var moveThreshold: real
    var buffSize: nat
    var outliersNumber: nat

    const buffWander: array<real>
    const buffJitter: array<real>
    var buffCount: nat

    // the samples since the window size last changed
    ghost var wanders: seq<real>
    ghost var jitters: seq<real>

    ghost predicate Valid()
      reads this, buffWander, buffJitter
    {
      && buffWander != buffJitter
      && buffWander.Length == BUFFER_SIZE == buffJitter.Length
      && |wanders| == |jitters| <= buffCount
      && if Usable() then
           && W.InSync(W.Ring(buffWander[..], buffCount, buffSize), wanders)
           && W.InSync(W.Ring(buffJitter[..], buffCount, buffSize), jitters)
         else wanders == []
    }

    /** The console stores any window size, but the callback can only run with one that fits the buffers. */
    ghost predicate Usable()
      reads this`buffSize
    {
      1 <= buffSize <= BUFFER_SIZE
    }

    constructor ()
      ensures Valid() && wanders == [] && jitters == []
      ensures someoneThreshold == moveThreshold == 0.002 && buffSize == 5 && outliersNumber == 2 && buffCount == 0
      ensures forall k | 0 <= k < BUFFER_SIZE :: buffWander[k] == buffJitter[k] == 0.0
    {
      someoneThreshold, moveThreshold, buffSize, outliersNumber := 0.002, 0.002, 5, 2;
      buffWander := new real[BUFFER_SIZE](_ => 0.0);
      buffJitter := new real[BUFFER_SIZE](_ => 0.0);
      buffCount, wanders, jitters := 0, [], [];
    }

    /** Put one sample of each signal into its ring. */
    method Push(wander: real, jitter: real)
      requires Valid() && Usable()
      modifies this`buffCount, this`wanders, this`jitters, buffWander, buffJitter
      ensures Valid() && buffCount == old(buffCount) + 1
      ensures wanders == old(wanders) + [wander] && jitters == old(jitters) + [jitter]
    {
      ghost var rw := W.Ring(buffWander[..], buffCount, buffSize);
      ghost var rj := W.Ring(buffJitter[..], buffCount, buffSize);
      W.StoreInSync(rw, wanders, wander);
      W.StoreInSync(rj, jitters, jitter);
      buffWander[buffCount % buffSize] := wander;
      buffJitter[buffCount % buffSize] := jitter;
      buffCount := buffCount + 1;
      wanders, jitters := wanders + [wander], jitters + [jitter];
      assert W.Ring(buffWander[..], buffCount, buffSize) == W.Store(rw, wander);
      assert W.Ring(buffJitter[..], buffCount, buffSize) == W.Store(rj, jitter);
    }

    /** `wifi_radar_cb`: no status until the counter reaches the window size; once a window's worth of
        samples has come since the size last changed, both statuses speak of the last samples. */
    method RadarCallback(wander: real, jitter: real) returns (status: Option<Status>)
      requires Valid() && Usable()
      modifies this`buffCount, this`wanders, this`jitters, buffWander, buffJitter
      ensures Valid() && buffCount == old(buffCount) + 1
      ensures wanders == old(wanders) + [wander] && jitters == old(jitters) + [jitter]
      ensures status.None? <==> buffCount < buffSize
      ensures status.Some? ==>
                status == Some(Status(
                  W.CountAbove(buffWander[..buffSize], someoneThreshold) >= outliersNumber,
                  W.CountAbove(buffJitter[..buffSize], moveThreshold) >= outliersNumber))
      ensures |wanders| >= buffSize ==>
                status == Some(Status(
                  W.CountAbove(W.LastOf(wanders, buffSize), someoneThreshold) >= outliersNumber,
                  W.CountAbove(W.LastOf(jitters, buffSize), moveThreshold) >= outliersNumber))
    {
      Push(wander, jitter);
      if buffCount < buffSize {
        return None;
      }
      var someoneCount := W.CountInLoop(buffWander, buffSize, someoneThreshold);
      var moveCount := W.CountInLoop(buffJitter, buffSize, moveThreshold);
      status := Some(Status(someoneCount >= outliersNumber, moveCount >= outliersNumber));
      if |wanders| >= buffSize {
        W.FullRingCounts(W.Ring(buffWander[..], buffCount, buffSize), wanders, someoneThreshold);
        W.FullRingCounts(W.Ring(buffJitter[..], buffCount, buffSize), jitters, moveThreshold);
      }
    }

    /** The console sets the window size, an unsigned 32-bit field, to its argument; buffers and counter stay. */
    method SetBuffSize(argument: int)
      requires Valid()
      modifies this`buffSize, this`wanders, this`jitters
      ensures Valid() && buffSize == argument % WRAP
      ensures wanders == (if buffSize == old(buffSize) then old(wanders) else [])
      ensures jitters == (if buffSize == old(buffSize) then old(jitters) else [])
    {
      if argument % WRAP != buffSize {
        wanders, jitters := [], [];
      }
      buffSize := argument % WRAP;
    }
  }
}
