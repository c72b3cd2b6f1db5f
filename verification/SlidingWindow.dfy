/**
 The ring buffer with which both radar programs filter outliers. The window size can be changed at
 any time without clearing the ring or its counter; these lemmas say what the ring then means.
 */
module SlidingWindow {
  import opened Sequences

  /** How many of `s` exceed the threshold. */
  function CountAbove(s: seq<real>, threshold: real): nat {
    if s == [] then 0 else (if s[0] > threshold then 1 else 0) + CountAbove(s[1..], threshold)
  }

  lemma {:induction false} CountConcat(a: seq<real>, b: seq<real>, t: real)
    ensures CountAbove(a + b, t) == CountAbove(a, t) + CountAbove(b, t)
  {
    if a == [] {
      assert a + b == b;
    } else {
      CountConcat(a[1..], b, t);
      assert (a + b)[1..] == a[1..] + b;
    }
  }

  lemma CountSnoc(s: seq<real>, i: nat, t: real)
    requires i < |s|
    ensures CountAbove(s[..i + 1], t) == CountAbove(s[..i], t) + if s[i] > t then 1 else 0
  {
    assert s[..i + 1] == s[..i] + [s[i]];
    assert [s[i]][1..] == [];
    CountConcat(s[..i], [s[i]], t);
  }

  /** The places at which `s` exceeds the threshold. */
  function Above(s: seq<real>, threshold: real): set<int> { Where(s, x => x > threshold) }

  lemma {:induction false} CountIsNumber(s: seq<real>, t: real)
    ensures CountAbove(s, t) == |Above(s, t)|
  {
    if s == [] {
      assert Above(s, t) == {};
    } else {
      var n := |s| - 1;
      CountIsNumber(s[..n], t);
      CountSnoc(s, n, t);
      assert s[..n + 1] == s;
      WhereSnoc(s, x => x > t);
    }
  }

  // ---------- the ring ----------

  /** `slots` is the whole buffer, of which the first `window` are in use. */
  datatype Ring<T> = Ring(slots: seq<T>, count: nat, window: nat)

  predicate ValidRing<T>(r: Ring<T>) { 1 <= r.window <= |r.slots| }

  function Empty<T>(capacity: nat, w: nat, filler: T): Ring<T> { Ring(seq(capacity, _ => filler), 0, w) }

  function Store<T>(r: Ring<T>, x: T): Ring<T>
    requires ValidRing(r)
  {
    r.(slots := r.slots[r.count % r.window := x], count := r.count + 1)
  }

  datatype Event<T> = Sample(x: T) | Resize(w: nat)

  predicate ValidEvent<T>(e: Event<T>, capacity: nat) { e.Resize? ==> 1 <= e.w <= capacity }

  predicate ValidEvents<T>(es: seq<Event<T>>, capacity: nat) {
    forall k | 0 <= k < |es| :: ValidEvent(es[k], capacity)
  }

  function Apply<T>(r: Ring<T>, e: Event<T>): Ring<T>
    requires ValidRing(r) && ValidEvent(e, |r.slots|)
  {
    match e
    case Sample(x) => Store(r, x)
    case Resize(w) => r.(window := w)
  }

  function Run<T>(r: Ring<T>, es: seq<Event<T>>): (r': Ring<T>)
    requires ValidRing(r) && ValidEvents(es, |r.slots|)
    ensures ValidRing(r') && |r'.slots| == |r.slots|
  {
    if es == [] then r else Apply(Run(r, es[..|es| - 1]), es[|es| - 1])
  }

  /** The window in force after `es` and the samples seen since it last changed. */
  function Since<T>(w: nat, es: seq<Event<T>>): (nat, seq<T>) {
    if es == [] then (w, [])
    else Track(Since(w, es[..|es| - 1]), es[|es| - 1])
  }

  function Track<T>(h: (nat, seq<T>), e: Event<T>): (nat, seq<T>) {
    match e
    case Sample(x) => (h.0, h.1 + [x])
    case Resize(w) => if w == h.0 then h else (w, [])
  }

  // ---------- the ring against the history ----------

  /** The slot of the `k`-th newest sample. */
  function Slot<T>(r: Ring<T>, k: nat): int
    requires ValidRing(r)
  {
    var p := r.count % r.window;
    if k < p then p - 1 - k else r.window + p - 1 - k
  }

  /** The ring still holds the newest samples of `since`, up to a window's worth. */
  ghost predicate InSync<T>(r: Ring<T>, since: seq<T>) {
    && ValidRing(r) && |since| <= r.count
    && forall k | 0 <= k < |since| && k < r.window :: r.slots[Slot(r, k)] == since[|since| - 1 - k]
  }

  lemma NextSlot(n: nat, w: nat)
    requires w > 0
    ensures (n + 1) % w == if n % w + 1 == w then 0 else n % w + 1
  {
    var q, p := n / w, n % w;
    assert n == q * w + p;
    if p + 1 == w {
      assert n + 1 == (q + 1) * w;
      Residue(n + 1, q + 1, 0, w);
    } else {
      Residue(n + 1, q, p + 1, w);
    }
  }

  lemma Residue(n: nat, q: nat, p: nat, w: nat)
    requires p < w && n == q * w + p
    ensures n % w == p
  {
    var d := n / w - q;
    assert n == (n / w) * w + n % w;
    assert d * w == p - n % w by {
      assert (n / w) * w - q * w == d * w;
    }
    assert d >= 1 ==> d * w >= w as int;
    assert d <= -1 ==> d * w <= -(w as int);
  }

  lemma StoreInSync<T>(r: Ring<T>, since: seq<T>, x: T)
    requires InSync(r, since)
    ensures InSync(Store(r, x), since + [x])
  {
    var r', s' := Store(r, x), since + [x];
    NextSlot(r.count, r.window);
    forall k | 0 <= k < |s'| && k < r.window
      ensures r'.slots[Slot(r', k)] == s'[|s'| - 1 - k]
    {
      if k > 0 {
        assert Slot(r', k) == Slot(r, k - 1) != r.count % r.window;
      }
    }
  }

  /** Through any run of samples and window changes the ring keeps up with the history. */
  lemma {:induction false} RunInSync<T>(r: Ring<T>, es: seq<Event<T>>)
    requires ValidRing(r) && ValidEvents(es, |r.slots|)
    ensures Since(r.window, es).0 == Run(r, es).window
    ensures InSync(Run(r, es), Since(r.window, es).1)
  {
    if es != [] {
      var before, e := es[..|es| - 1], es[|es| - 1];
      RunInSync(r, before);
      if e.Sample? {
        StoreInSync(Run(r, before), Since(r.window, before).1, e.x);
      }
    }
  }

  function LastOf<T>(since: seq<T>, w: nat): seq<T>
    requires w <= |since|
  {
    since[|since| - w..]
  }

  /** A window's worth of samples after a change, the slots in use are the last samples, rotated. */
  lemma FullRingIsRotation<T>(r: Ring<T>, since: seq<T>)
    requires InSync(r, since) && |since| >= r.window
    ensures var p := r.count % r.window;
            r.slots[p..r.window] + r.slots[..p] == LastOf(since, r.window)
  {
    var w, p := r.window, r.count % r.window;
    var a, b := r.slots[p..w] + r.slots[..p], LastOf(since, w);
    forall i | 0 <= i < w ensures a[i] == b[i] {
      var k := w - 1 - i;
      assert Slot(r, k) == if p + i < w then p + i else p + i - w;
      assert r.slots[Slot(r, k)] == since[|since| - 1 - k];
    }
  }

  /** So they are a permutation of the last `window` samples, */
  lemma FullRingPermutes<T>(r: Ring<T>, since: seq<T>)
    requires InSync(r, since) && |since| >= r.window
    ensures multiset(r.slots[..r.window]) == multiset(LastOf(since, r.window))
  {
    var w, p := r.window, r.count % r.window;
    FullRingIsRotation(r, since);
    assert r.slots[..w] == r.slots[..p] + r.slots[p..w];
  }

  /** and as many of them exceed the threshold. */
  lemma FullRingCounts(r: Ring<real>, since: seq<real>, t: real)
    requires InSync(r, since) && |since| >= r.window
    ensures CountAbove(r.slots[..r.window], t) == CountAbove(LastOf(since, r.window), t)
  {
    var w, p := r.window, r.count % r.window;
    var a, b := r.slots[..p], r.slots[p..w];
    FullRingIsRotation(r, since);
    assert r.slots[..w] == a + b;
    CountConcat(a, b, t);
    CountConcat(b, a, t);
  }

  /** Over every run from an empty ring and every threshold: once the window in force is full again,
      the slots in use hold exactly its samples. */
  lemma WindowRefines(capacity: nat, w: nat, es: seq<Event<real>>, t: real)
    requires 1 <= w <= capacity && ValidEvents(es, capacity)
    ensures var r, since := Run(Empty(capacity, w, 0.0), es), Since(w, es).1;
            |since| >= r.window ==>
              && multiset(r.slots[..r.window]) == multiset(LastOf(since, r.window))
              && CountAbove(r.slots[..r.window], t) == CountAbove(LastOf(since, r.window), t)
  {
    var e := Empty(capacity, w, 0.0);
    RunInSync(e, es);
    if |Since(w, es).1| >= Run(e, es).window {
      FullRingPermutes(Run(e, es), Since(w, es).1);
      FullRingCounts(Run(e, es), Since(w, es).1, t);
    }
  }

  // ---------- exactly when the count is that of the last samples ----------

  /** A run without its values: when samples came and when the window changed. */
  type Shape = seq<Event<()>>

  function Samples(shape: Shape): nat {
    if shape == [] then 0
    else Samples(shape[..|shape| - 1]) + if shape[|shape| - 1].Sample? then 1 else 0
  }

  /** The run of this shape with these samples. */
  function With<T>(shape: Shape, xs: seq<T>): seq<Event<T>>
    requires |xs| == Samples(shape)
  {
    if shape == [] then []
    else
      var before := shape[..|shape| - 1];
      match shape[|shape| - 1]
      case Sample(_) => With(before, xs[..|xs| - 1]) + [Sample(xs[|xs| - 1])]
      case Resize(w) => With(before, xs) + [Resize(w)]
  }

  function UpTo(n: nat): seq<int> { seq(n, k => k) }

  lemma {:induction false} WithValid<T>(shape: Shape, xs: seq<T>, capacity: nat)
    requires |xs| == Samples(shape) && ValidEvents(shape, capacity)
    ensures ValidEvents(With(shape, xs), capacity)
  {
    if shape != [] {
      var before := shape[..|shape| - 1];
      assert ValidEvent(shape[|shape| - 1], capacity);
      WithValid(before, if shape[|shape| - 1].Sample? then xs[..|xs| - 1] else xs, capacity);
    }
  }

  /** The slots in use after a run of this shape. */
  function InUse<T>(capacity: nat, w: nat, filler: T, shape: Shape, xs: seq<T>): seq<T>
    requires 1 <= w <= capacity && ValidEvents(shape, capacity) && |xs| == Samples(shape)
  {
    WithValid(shape, xs, capacity);
    var r := Run(Empty(capacity, w, filler), With(shape, xs));
    r.slots[..r.window]
  }

  /** Which samples the slots in use hold, by their numbers; -1 is a slot never written. No sample is
      needed to work this out. */
  function SlotIndices(capacity: nat, w: nat, shape: Shape): (js: seq<int>)
    requires 1 <= w <= capacity && ValidEvents(shape, capacity)
    ensures |js| >= 1
  {
    InUse(capacity, w, -1, shape, UpTo(Samples(shape)))
  }

  /** The sample with a number, and the initial 0.0 for slots that hold none. */
  function Value(xs: seq<real>, i: int): real { if 0 <= i < |xs| then xs[i] else 0.0 }

  function Values(xs: seq<real>, js: seq<int>): seq<real> { seq(|js|, k requires 0 <= k < |js| => Value(xs, js[k])) }

  function LookUp(xs: seq<real>, r: Ring<int>): Ring<real> { Ring(Values(xs, r.slots), r.count, r.window) }

  /** Running on numbers and looking the samples up afterwards is running on samples. Further samples
      at the end of `all` do not matter. */
  lemma {:induction false} RunOnIndices(r: Ring<int>, shape: Shape, all: seq<real>)
    requires ValidRing(r) && ValidEvents(shape, |r.slots|) && Samples(shape) <= |all|
    ensures var n := Samples(shape);
            var rv := LookUp(all, r);
            && ValidEvents(With(shape, UpTo(n)), |r.slots|) && ValidEvents(With(shape, all[..n]), |r.slots|)
            && var ri := Run(r, With(shape, UpTo(n)));
               Run(rv, With(shape, all[..n])) == LookUp(all, ri)
  {
    var n := Samples(shape);
    WithValid(shape, UpTo(n), |r.slots|);
    WithValid(shape, all[..n], |r.slots|);
    if shape != [] {
      var before, e := shape[..|shape| - 1], shape[|shape| - 1];
      var m := Samples(before);
      var rv := LookUp(all, r);
      RunOnIndices(r, before, all);
      var ri := Run(r, With(before, UpTo(m)));
      match e {
        case Sample(_) =>
          assert UpTo(n)[..m] == UpTo(m) && all[..n][..m] == all[..m];
          RunSnoc(r, With(before, UpTo(m)), Sample(m));
          RunSnoc(rv, With(before, all[..m]), Sample(all[m]));
          StoreValue(ri, m, all);
        case Resize(w) =>
          assert ValidEvent(e, |r.slots|);
          RunSnoc(r, With(before, UpTo(m)), Resize(w));
          RunSnoc(rv, With(before, all[..m]), Resize(w));
      }
    }
  }

  lemma StoreValue(ri: Ring<int>, m: nat, all: seq<real>)
    requires ValidRing(ri) && m < |all|
    ensures Store(LookUp(all, ri), all[m]) == LookUp(all, Store(ri, m))
  {
    var i := ri.count % ri.window;
    assert Values(all, ri.slots)[i := all[m]] == Values(all, ri.slots[i := m]);
  }

  lemma RunSnoc<T>(r: Ring<T>, es: seq<Event<T>>, e: Event<T>)
    requires ValidRing(r) && ValidEvents(es, |r.slots|) && ValidEvent(e, |r.slots|)
    ensures ValidEvents(es + [e], |r.slots|) && Run(r, es + [e]) == Apply(Run(r, es), e)
  {
    assert (es + [e])[..|es|] == es;
  }

  lemma InUseIsValues(capacity: nat, w: nat, shape: Shape, xs: seq<real>)
    requires 1 <= w <= capacity && ValidEvents(shape, capacity) && |xs| == Samples(shape)
    ensures InUse(capacity, w, 0.0, shape, xs) == Values(xs, SlotIndices(capacity, w, shape))
  {
    var e := Empty(capacity, w, -1);
    assert Values(xs, e.slots) == Empty(capacity, w, 0.0).slots;
    RunOnIndices(e, shape, xs);
    assert xs[..|xs|] == xs;
  }

  lemma LastIsValues(xs: seq<real>, w: nat)
    requires w <= |xs|
    ensures LastOf(xs, w) == Values(xs, LastOf(UpTo(|xs|), w))
  {
  }

  /** How many of the numbers stand for samples above the threshold depends on them as a multiset. */
  lemma {:induction false} CountPermuted(xs: seq<real>, a: seq<int>, b: seq<int>, t: real)
    requires multiset(a) == multiset(b)
    ensures CountAbove(Values(xs, a), t) == CountAbove(Values(xs, b), t)
  {
    if a == [] {
      assert |multiset(b)| == 0;
    } else {
      hide CountAbove, Values;
      var c, rest := a[0], a[1..];
      assert a == [] + [c] + rest && [] + rest == rest;
      var b1, b2 := TakeOut(b, c, rest);
      CountPermuted(xs, rest, b1 + b2, t);
      CountSplit(xs, [], c, rest, t);
      CountSplit(xs, b1, c, b2, t);
    }
  }

  lemma TakeOut(b: seq<int>, c: int, rest: seq<int>) returns (b1: seq<int>, b2: seq<int>)
    requires multiset(b) == multiset([] + [c] + rest)
    ensures b == b1 + [c] + b2 && multiset(b1 + b2) == multiset(rest)
  {
    assert c in multiset(b);
    var k :| 0 <= k < |b| && b[k] == c;
    b1, b2 := b[..k], b[k + 1..];
    assert b == b1 + [c] + b2;
    assert multiset(b1 + b2) == multiset(b) - multiset{c};
  }

  lemma CountSplit(xs: seq<real>, a: seq<int>, c: int, b: seq<int>, t: real)
    ensures CountAbove(Values(xs, a + [c] + b), t)
            == CountAbove(Values(xs, a + b), t) + if Value(xs, c) > t then 1 else 0
  {
    var va, v, vb := Values(xs, a), Value(xs, c), Values(xs, b);
    assert Values(xs, a + [c] + b) == va + ([v] + vb) && Values(xs, a + b) == va + vb;
    CountConcat(va, [v] + vb, t);
    CountConcat(va, vb, t);
    assert ([v] + vb)[1..] == vb;
  }

  /** 1.0 for sample `i` alone, */
  function Only(n: nat, i: int): seq<real> { seq(n, k => if k == i then 1.0 else 0.0) }

  /** which tells how often `i` occurs. */
  lemma {:induction false} CountOnly(n: nat, i: int, js: seq<int>)
    requires 0 <= i < n
    ensures CountAbove(Values(Only(n, i), js), 0.5) == multiset(js)[i]
  {
    if js != [] {
      CountOnly(n, i, js[1..]);
      assert js == [js[0]] + js[1..];
      assert Values(Only(n, i), js)[1..] == Values(Only(n, i), js[1..]);
    }
  }

  /** If everything is counted when every sample is 1.0, every slot holds a sample. */
  lemma {:induction false} CountAll(n: nat, js: seq<int>)
    ensures var c := CountAbove(Values(seq(n, _ => 1.0), js), 0.5);
            c <= |js| && (c == |js| <==> forall k | 0 <= k < |js| :: 0 <= js[k] < n)
  {
    if js != [] {
      CountAll(n, js[1..]);
      var ones := seq(n, _ => 1.0);
      assert Values(ones, js)[1..] == Values(ones, js[1..]);
      assert forall k | 0 <= k < |js| :: k == 0 || js[k] == js[1..][k - 1];
      assert forall k | 0 <= k < |js| - 1 :: js[1..][k] == js[k + 1];
    }
  }

  /** Whatever the samples and the threshold, as many slots in use exceed it as of the last samples. */
  ghost predicate CountsLast(capacity: nat, w: nat, shape: Shape)
    requires 1 <= w <= capacity && ValidEvents(shape, capacity)
    requires |SlotIndices(capacity, w, shape)| <= Samples(shape)
  {
    forall xs: seq<real>, t: real | |xs| == Samples(shape) ::
      CountAbove(InUse(capacity, w, 0.0, shape, xs), t)
      == CountAbove(LastOf(xs, |SlotIndices(capacity, w, shape)|), t)
  }

  /** The main statement, for every run with any changes of the window, as soon as there are decisions
      at all: the decision speaks of the last samples, whatever they are, if and only if the slots in
      use hold the last samples' numbers, once each. */
  lemma WindowExactly(capacity: nat, w: nat, shape: Shape)
    requires 1 <= w <= capacity && ValidEvents(shape, capacity)
    requires |SlotIndices(capacity, w, shape)| <= Samples(shape)
    ensures var js, n := SlotIndices(capacity, w, shape), Samples(shape);
            CountsLast(capacity, w, shape) <==> multiset(js) == multiset(LastOf(UpTo(n), |js|))
  {
    hide CountAbove, SlotIndices, InUse;
    var js, n := SlotIndices(capacity, w, shape), Samples(shape);
    var last := LastOf(UpTo(n), |js|);
    forall xs: seq<real>, t: real | |xs| == n
      ensures CountAbove(InUse(capacity, w, 0.0, shape, xs), t) == CountAbove(Values(xs, js), t)
      ensures CountAbove(LastOf(xs, |js|), t) == CountAbove(Values(xs, last), t)
    {
      InUseIsValues(capacity, w, shape, xs);
      LastIsValues(xs, |js|);
    }
    if multiset(js) == multiset(last) {
      forall xs: seq<real>, t: real | |xs| == n
        ensures CountAbove(Values(xs, js), t) == CountAbove(Values(xs, last), t)
      {
        CountPermuted(xs, js, last, t);
      }
    }
    if CountsLast(capacity, w, shape) {
      assert forall xs: seq<real>, t: real | |xs| == n ::
          CountAbove(Values(xs, js), t) == CountAbove(Values(xs, last), t);
      SameCountsPermute(n, js, last);
    }
  }

  lemma SameCountsPermute(n: nat, js: seq<int>, last: seq<int>)
    requires |js| == |last| && forall k | 0 <= k < |last| :: 0 <= last[k] < n
    requires forall xs: seq<real>, t: real | |xs| == n ::
               CountAbove(Values(xs, js), t) == CountAbove(Values(xs, last), t)
    ensures multiset(js) == multiset(last)
  {
    hide CountAbove, Values;
    CountAll(n, js);
    CountAll(n, last);
    assert |seq(n, _ => 1.0)| == n;
    assert forall k | 0 <= k < |js| :: 0 <= js[k] < n;
    forall i: int ensures multiset(js)[i] == multiset(last)[i] {
      if 0 <= i < n {
        CountOnly(n, i, js);
        CountOnly(n, i, last);
        assert |Only(n, i)| == n;
      } else {
        assert i !in js && i !in last;
      }
    }
  }

  /** The condition can fail: the ring is not cleared when the window changes, so the count may include
      samples that are long gone. Here the last two samples are zero, but a two-slot window still
      counts the outlier three samples before them. */
  lemma StaleSlots()
    ensures var es := [Sample(9.0), Sample(0.0), Sample(0.0), Resize(2), Sample(0.0)];
            ValidEvents(es, 16)
            && var slots := Run(Empty(16, 3, 0.0), es).slots[..2];
               slots == [9.0, 0.0] && CountAbove(slots, 1.0) == 1
  {
    var r: Ring<real> := Empty(16, 3, 0.0);
    var e0, e1, e2: Event<real>, e3: Event<real> := Sample(9.0), Sample(0.0), Sample(0.0), Resize(2);
    RunSnoc(r, [], e0);
    RunSnoc(r, [e0], e1);
    RunSnoc(r, [e0, e1], e1);
    RunSnoc(r, [e0, e1, e1], e3);
    RunSnoc(r, [e0, e1, e1, e3], e1);
    assert [] + [e0] == [e0] && [e0] + [e1] == [e0, e1] && [e0, e1] + [e1] == [e0, e1, e1];
    assert [e0, e1, e1] + [e3] == [e0, e1, e1, e3] && [e0, e1, e1, e3] + [e1] == [e0, e1, e1, e3, e1];
    var slots := Run(r, [e0, e1, e1, e3, e1]).slots;
    assert slots[..2] == [9.0] + [0.0] && [9.0][1..] == [] && [0.0][1..] == [];
    CountConcat([9.0], [0.0], 1.0);
  }

  // ---------- the two ways the programs count ----------

  /** The test inside the loop: it can only turn true, and does so as soon as the count is reached. */
  method DetectInLoop(slots: array<real>, window: nat, threshold: real, needed: nat) returns (hit: bool)
    requires 1 <= window <= slots.Length
    ensures hit == (CountAbove(slots[..window], threshold) >= needed)
  {
    hit := false;
    var count := 0;
    for i := 0 to window
      invariant count == CountAbove(slots[..i], threshold)
      invariant hit == (i > 0 && count >= needed)
    {
      assert slots[..window][..i] == slots[..i] && slots[..window][..i + 1] == slots[..i + 1];
      CountSnoc(slots[..window], i, threshold);
      if slots[i] > threshold {
        count := count + 1;
      }
      if count >= needed {
        hit := true;
      }
    }
  }

  /** The count over the whole window, tested by the caller afterwards. */
  method CountInLoop(slots: array<real>, window: nat, threshold: real) returns (count: nat)
    requires window <= slots.Length
    ensures count == CountAbove(slots[..window], threshold)
  {
    count := 0;
    for i := 0 to window
      invariant count == CountAbove(slots[..i], threshold)
    {
      assert slots[..window][..i] == slots[..i] && slots[..window][..i + 1] == slots[..i + 1];
      CountSnoc(slots[..window], i, threshold);
      if slots[i] > threshold {
        count := count + 1;
      }
    }
  }
}
