/**
 A producer callback and a consumer task that share a bounded queue of pointers to heap records, as
 a state machine whose steps are the single operations: look for space, allocate and copy,
 send, receive, process, free. Two programs use it: the capture example looks for space
 first and would leak on a full queue; the console example sends blindly and frees then.
 */
module CaptureQueue {
  type Item = int
  type Pointer = nat

  datatype Config = Config(capacity: nat, looksFirst: bool, freesOnFull: bool)

  const CAPTURE := Config(3, true, false)
  const CONSOLE := Config(64, false, true)

  datatype Producer = Idle | Copying(item: Item) | Sending(p: Pointer)

  datatype Consumer = Waiting | Received(p: Pointer) | Processed(p: Pointer)

  /** `accepted`, `processed` and `freed` are histories; `issued` counts allocations and names
      the next one; `failed` counts sends that found the queue full. */
  datatype State = State(
    queue: seq<Pointer>, heap: map<Pointer, Item>, producer: Producer, consumer: Consumer,
    issued: nat, accepted: seq<Item>, processed: seq<Item>, freed: seq<Pointer>, failed: nat)

  const INITIAL := State([], map[], Idle, Waiting, 0, [], [], [], 0)

  /** A record arrives; memory is or is not found for it; it is sent; the consumer moves on. */
  datatype Action = Arrive(item: Item) | Allocate(found: bool) | Send | Receive | Process | Free

  /** One step; an action that is not enabled changes nothing. */
  function Step(c: Config, s: State, a: Action): State {
    match a
    case Arrive(item) =>
      if s.producer.Idle? && (!c.looksFirst || |s.queue| < c.capacity) then s.(producer := Copying(item)) else s
    case Allocate(found) =>
      if !s.producer.Copying? then s
      else if !found then s.(producer := Idle)
      else
        var heap := s.heap[s.issued := s.producer.item];
        s.(producer := Sending(s.issued), heap := heap, issued := s.issued + 1)
    case Send =>
      if !s.producer.Sending? || s.producer.p !in s.heap then s
      else
        var p := s.producer.p;
        if |s.queue| < c.capacity then
          s.(producer := Idle, queue := s.queue + [p], accepted := s.accepted + [s.heap[p]])
        else
          var failed := s.(producer := Idle, failed := s.failed + 1);
          if c.freesOnFull then failed.(heap := s.heap - {p}, freed := s.freed + [p]) else failed
    case Receive =>
      if s.consumer.Waiting? && s.queue != [] then s.(consumer := Received(s.queue[0]), queue := s.queue[1..]) else s
    case Process =>
      if s.consumer.Received? && s.consumer.p in s.heap
      then s.(consumer := Processed(s.consumer.p), processed := s.processed + [s.heap[s.consumer.p]])
      else s
    case Free =>
      if s.consumer.Processed?
      then s.(consumer := Waiting, heap := s.heap - {s.consumer.p}, freed := s.freed + [s.consumer.p])
      else s
  }

  function Run(c: Config, acts: seq<Action>): State {
    if acts == [] then INITIAL else Step(c, Run(c, acts[..|acts| - 1]), acts[|acts| - 1])
  }

  // ---------- who owns what ----------

  function ProducerOwns(s: State): seq<Pointer> { if s.producer.Sending? then [s.producer.p] else [] }

  function ConsumerOwns(s: State): seq<Pointer> { if s.consumer.Waiting? then [] else [s.consumer.p] }

  /** The live allocations, in the order in which they will be freed. */
  function Owned(s: State): seq<Pointer> { ConsumerOwns(s) + s.queue + ProducerOwns(s) }

  predicate Distinct(ps: seq<Pointer>) { forall j, k | 0 <= j < k < |ps| :: ps[j] != ps[k] }

  function Contents(heap: map<Pointer, Item>, ps: seq<Pointer>): seq<Item>
    requires forall k | 0 <= k < |ps| :: ps[k] in heap
  {
    seq(|ps|, k requires 0 <= k < |ps| => heap[ps[k]])
  }

  /** Received but not yet processed, then still queued. */
  function Unprocessed(s: State): seq<Pointer> { (if s.consumer.Received? then [s.consumer.p] else []) + s.queue }

  /** Freed and live allocations are all allocations, each once. */
  ghost predicate Ownership(s: State) {
    && Distinct(s.freed + Owned(s))
    && (forall p: Pointer :: p in s.heap <==> p in Owned(s))
    && (forall p: Pointer :: p in s.freed + Owned(s) <==> p < s.issued)
  }

  /** No send may fail without its record being freed. */
  predicate Careful(c: Config) { c.looksFirst || c.freesOnFull }

  predicate Bounded(c: Config, s: State) {
    && |s.queue| <= c.capacity
    && (c.looksFirst && !s.producer.Idle? ==> |s.queue| < c.capacity)
    && (c.looksFirst ==> s.failed == 0)
  }

  ghost predicate InOrder(s: State)
    requires Ownership(s)
  {
    s.accepted == s.processed + Contents(s.heap, Unprocessed(s))
  }

  ghost predicate Inv(c: Config, s: State) { Bounded(c, s) && Ownership(s) && InOrder(s) }

  // ---------- every step keeps it ----------

  /** Ownership depends on which pointers are freed or owned, and in which order. */
  lemma SameOwnership(s: State, s': State)
    requires Ownership(s) && s'.issued == s.issued && s'.freed + Owned(s') == s.freed + Owned(s)
    requires forall p: Pointer :: p in s'.heap <==> p in Owned(s')
    ensures Ownership(s')
  {
  }

  lemma ContentsMove(heap: map<Pointer, Item>, done: seq<Item>, p: Pointer, ps: seq<Pointer>)
    requires p in heap && forall k | 0 <= k < |ps| :: ps[k] in heap
    ensures done + Contents(heap, [p] + ps) == done + [heap[p]] + Contents(heap, ps)
  {
    assert Contents(heap, [p] + ps) == [heap[p]] + Contents(heap, ps);
  }

  lemma ContentsSnoc(heap: map<Pointer, Item>, done: seq<Item>, ps: seq<Pointer>, p: Pointer)
    requires p in heap && forall k | 0 <= k < |ps| :: ps[k] in heap
    ensures done + Contents(heap, ps) + [heap[p]] == done + Contents(heap, ps + [p])
  {
    assert Contents(heap, ps + [p]) == Contents(heap, ps) + [heap[p]];
  }

  lemma ArriveKeeps(c: Config, s: State, item: Item)
    requires Inv(c, s)
    ensures Inv(c, Step(c, s, Arrive(item)))
  {
    assert Owned(Step(c, s, Arrive(item))) == Owned(s);
  }

  lemma SameContents(heap: map<Pointer, Item>, heap': map<Pointer, Item>, ps: seq<Pointer>)
    requires forall k | 0 <= k < |ps| :: ps[k] in heap && ps[k] in heap' && heap[ps[k]] == heap'[ps[k]]
    ensures Contents(heap, ps) == Contents(heap', ps)
  {
  }

  lemma OwnershipAfterAllocate(s: State, s': State, p: Pointer)
    requires Ownership(s) && p == s.issued && s'.issued == p + 1
    requires s'.freed == s.freed && Owned(s') == Owned(s) + [p]
    requires forall q: Pointer :: q in s'.heap <==> q in s.heap || q == p
    ensures Ownership(s') && p !in s.heap
  {
    assert p !in s.freed + Owned(s);
    assert s'.freed + Owned(s') == (s.freed + Owned(s)) + [p];
  }

  lemma AllocateKeeps(c: Config, s: State, a: Action)
    requires Inv(c, s) && a.Allocate?
    ensures Inv(c, Step(c, s, a))
  {
    var s' := Step(c, s, a);
    if s.producer.Copying? && a.found {
      var p := s.issued;
      OwnershipAfterAllocate(s, s', p);
      assert Unprocessed(s') == Unprocessed(s);
      SameContents(s.heap, s'.heap, Unprocessed(s));
    } else {
      assert Owned(s') == Owned(s);
    }
  }

  lemma SendKeeps(c: Config, s: State)
    requires Inv(c, s) && Careful(c)
    ensures Inv(c, Step(c, s, Send))
  {
    if s.producer.Sending? && s.producer.p in s.heap {
      if |s.queue| < c.capacity {
        SendSucceeds(c, s);
      } else {
        SendFails(c, s);
      }
    }
  }

  lemma SendInOrderOfAcceptance(c: Config, s: State)
    requires Ownership(s) && InOrder(s)
    requires s.producer.Sending? && s.producer.p in s.heap && |s.queue| < c.capacity
    ensures var s' := Step(c, s, Send); Ownership(s') ==> InOrder(s')
  {
    var s', p := Step(c, s, Send), s.producer.p;
    assert Unprocessed(s') == Unprocessed(s) + [p];
    ContentsSnoc(s.heap, s.processed, Unprocessed(s), p);
  }

  lemma SendSucceeds(c: Config, s: State)
    requires Inv(c, s) && s.producer.Sending? && s.producer.p in s.heap && |s.queue| < c.capacity
    ensures Inv(c, Step(c, s, Send))
  {
    var s', p := Step(c, s, Send), s.producer.p;
    assert Owned(s') == Owned(s);
    SameOwnership(s, s');
    SendInOrderOfAcceptance(c, s);
  }

  /** The console's producer frees what it could not send. */
  lemma SendFails(c: Config, s: State)
    requires Inv(c, s) && Careful(c) && s.producer.Sending? && s.producer.p in s.heap && |s.queue| >= c.capacity
    ensures Inv(c, Step(c, s, Send))
  {
    var s', p, rest := Step(c, s, Send), s.producer.p, ConsumerOwns(s) + s.queue;
    assert c.freesOnFull;
    assert Owned(s) == rest + [p] + [] && Owned(s') == rest + [];
    OwnershipAfterFree(s, s', rest, [], p);
    assert Contents(s'.heap, Unprocessed(s')) == Contents(s.heap, Unprocessed(s));
  }

  /** Moving an owned pointer to the end of the freed ones keeps everything distinct. */
  lemma MoveToFreed(freed: seq<Pointer>, a: seq<Pointer>, b: seq<Pointer>, p: Pointer)
    requires Distinct(freed + (a + [p] + b))
    ensures Distinct(freed + [p] + (a + b))
    ensures forall q: Pointer :: q in freed + [p] + (a + b) <==> q in freed + (a + [p] + b)
  {
    var x, y := freed + (a + [p] + b), freed + [p] + (a + b);
    var n, m := |freed|, |a|;
    assert x[n + m] == p;
    assert forall k | 0 <= k < |x| ::
        y[if k < n then k else if k < n + m then k + 1 else if k == n + m then n else k] == x[k];
    forall j, k | 0 <= j < k < |y| ensures y[j] != y[k] {
      var i := if j < n then j else if j == n then n + m else if j <= n + m then j - 1 else j;
      var l := if k < n then k else if k == n then n + m else if k <= n + m then k - 1 else k;
      assert x[i] == y[j] && x[l] == y[k] && i != l;
    }
  }

  lemma OwnershipAfterFree(s: State, s': State, a: seq<Pointer>, b: seq<Pointer>, p: Pointer)
    requires Ownership(s) && Owned(s) == a + [p] + b && Owned(s') == a + b
    requires s'.freed == s.freed + [p] && s'.issued == s.issued && s'.heap == s.heap - {p}
    ensures Ownership(s')
  {
    MoveToFreed(s.freed, a, b, p);
    var all, n := s.freed + Owned(s), |s.freed|;
    assert Owned(s)[|a|] == all[n + |a|] == p;
    forall k | 0 <= k < |a + b| ensures (a + b)[k] != p {
      var i := if k < |a| then k else k + 1;
      assert (a + b)[k] == Owned(s)[i] == all[n + i];
      assert all[n + i] != all[n + |a|];
    }
  }

  lemma ReceiveKeeps(c: Config, s: State)
    requires Inv(c, s)
    ensures Inv(c, Step(c, s, Receive))
  {
    var s' := Step(c, s, Receive);
    assert Owned(s') == Owned(s);
    assert Unprocessed(s') == Unprocessed(s);
  }

  lemma ProcessKeeps(c: Config, s: State)
    requires Inv(c, s)
    ensures Inv(c, Step(c, s, Process))
  {
    var s' := Step(c, s, Process);
    assert Owned(s') == Owned(s);
    SameOwnership(s, s');
    ProcessInOrder(c, s);
  }

  lemma ProcessInOrder(c: Config, s: State)
    requires Ownership(s) && InOrder(s)
    ensures var s' := Step(c, s, Process); Ownership(s') ==> InOrder(s')
  {
    if s.consumer.Received? && s.consumer.p in s.heap {
      var s' := Step(c, s, Process);
      assert Unprocessed(s) == [s.consumer.p] + s.queue && Unprocessed(s') == [] + s.queue;
      assert [] + s.queue == s.queue;
      ContentsMove(s.heap, s.processed, s.consumer.p, s.queue);
    }
  }

  lemma FreeKeeps(c: Config, s: State)
    requires Inv(c, s)
    ensures Inv(c, Step(c, s, Free))
  {
    if s.consumer.Processed? {
      var s', p, rest := Step(c, s, Free), s.consumer.p, s.queue + ProducerOwns(s);
      assert Owned(s) == [] + [p] + rest && Owned(s') == [] + rest;
      OwnershipAfterFree(s, s', [], rest, p);
      assert Contents(s'.heap, Unprocessed(s')) == Contents(s.heap, Unprocessed(s));
    }
  }

  lemma StepKeeps(c: Config, s: State, a: Action)
    requires Inv(c, s) && Careful(c)
    ensures Inv(c, Step(c, s, a))
  {
    match a {
      case Arrive(item) => ArriveKeeps(c, s, item);
      case Allocate(found) => AllocateKeeps(c, s, a);
      case Send => SendKeeps(c, s);
      case Receive => ReceiveKeeps(c, s);
      case Process => ProcessKeeps(c, s);
      case Free => FreeKeeps(c, s);
    }
  }

  lemma {:induction false} RunKeeps(c: Config, acts: seq<Action>)
    requires Careful(c)
    ensures Inv(c, Run(c, acts))
  {
    if acts != [] {
      RunKeeps(c, acts[..|acts| - 1]);
      StepKeeps(c, Run(c, acts[..|acts| - 1]), acts[|acts| - 1]);
    }
  }

  // ---------- what that means ----------

  lemma {:induction false} DistinctCount(ps: seq<Pointer>, s: set<Pointer>)
    requires Distinct(ps) && forall p :: p in s <==> p in ps
    ensures |s| == |ps|
  {
    if ps == [] {
      assert s == {};
    } else {
      var p := ps[0];
      assert forall q :: q in s - {p} <==> q in ps[1..] by {
        assert ps == [p] + ps[1..];
        forall q | q in ps[1..] ensures q != p {
          var k :| 0 <= k < |ps[1..]| && ps[1..][k] == q;
          assert ps[k + 1] == q;
        }
      }
      DistinctCount(ps[1..], s - {p});
      assert p in s;
    }
  }

  lemma LiveCount(c: Config, s: State)
    requires Inv(c, s)
    ensures |s.heap| == |Owned(s)|
  {
    var all, n := s.freed + Owned(s), |s.freed|;
    assert forall k | 0 <= k < |Owned(s)| :: all[n + k] == Owned(s)[k];
    DistinctCount(Owned(s), s.heap.Keys);
  }

  /** In every interleaving of the capture example no send fails, the queue and the record on its way
      into it never exceed 3, and at most 4 records are allocated. */
  lemma CaptureIsSafe(acts: seq<Action>)
    ensures var s := Run(CAPTURE, acts);
            && s.failed == 0
            && |s.queue| + (if s.producer.Idle? then 0 else 1) <= 3
            && |s.heap| <= 4
  {
    RunKeeps(CAPTURE, acts);
    LiveCount(CAPTURE, Run(CAPTURE, acts));
  }

  function UpTo(n: nat): seq<Pointer> { seq(n, k => k) }

  lemma SendInOrder(s: State)
    requires Inv(CAPTURE, s)
    ensures var s' := Step(CAPTURE, s, Send); s'.freed + Owned(s') == s.freed + Owned(s) && s'.issued == s.issued
  {
    assert Owned(Step(CAPTURE, s, Send)) == Owned(s);
  }

  lemma AllocateInOrder(s: State, found: bool)
    requires s.freed + Owned(s) == UpTo(s.issued)
    ensures var s' := Step(CAPTURE, s, Allocate(found)); s'.freed + Owned(s') == UpTo(s'.issued)
  {
    var s' := Step(CAPTURE, s, Allocate(found));
    if s.producer.Copying? && found {
      assert s'.freed + Owned(s') == (s.freed + Owned(s)) + [s.issued];
    } else {
      assert Owned(s') == Owned(s);
    }
  }

  lemma ConsumerInOrder(s: State, a: Action)
    requires a.Receive? || a.Process? || a.Free?
    ensures var s' := Step(CAPTURE, s, a); s'.freed + Owned(s') == s.freed + Owned(s) && s'.issued == s.issued
  {
    var s' := Step(CAPTURE, s, a);
    if a.Free? && s.consumer.Processed? {
      assert Owned(s) == [s.consumer.p] + Owned(s');
      assert s.freed + ([s.consumer.p] + Owned(s')) == s'.freed + Owned(s');
    } else {
      assert Owned(s') == Owned(s);
    }
  }

  /** In the capture example records are freed in the very order in which they were allocated: freed
      and live pointers together are always all allocations in order. */
  lemma {:induction false} CaptureFreesInOrder(acts: seq<Action>)
    ensures var s := Run(CAPTURE, acts); s.freed + Owned(s) == UpTo(s.issued)
  {
    if acts != [] {
      hide Ownership, InOrder;
      var s, a := Run(CAPTURE, acts[..|acts| - 1]), acts[|acts| - 1];
      var s' := Step(CAPTURE, s, a);
      CaptureFreesInOrder(acts[..|acts| - 1]);
      RunKeeps(CAPTURE, acts[..|acts| - 1]);
      match a {
        case Arrive(item) => assert Owned(s') == Owned(s);
        case Allocate(found) => AllocateInOrder(s, found);
        case Send => SendInOrder(s);
        case _ => ConsumerInOrder(s, a);
      }
    }
  }

  /** In the console example sends may fail, but at most 66 records are allocated. */
  lemma ConsoleIsSafe(acts: seq<Action>)
    ensures var s := Run(CONSOLE, acts); |s.queue| <= 64 && |s.heap| <= 66
  {
    RunKeeps(CONSOLE, acts);
    LiveCount(CONSOLE, Run(CONSOLE, acts));
  }

  /** In both, accepted records are processed once each in the order of acceptance; no pointer is
      freed twice or used after being freed; and when nothing is in flight every accepted
      record has been processed and every allocation freed. */
  lemma NothingLostOrLeaked(c: Config, acts: seq<Action>)
    requires Careful(c)
    ensures var s := Run(c, acts);
            && s.processed <= s.accepted
            && Distinct(s.freed) && (forall k | 0 <= k < |s.freed| :: s.freed[k] !in s.heap)
            && |s.freed| + |s.heap| == s.issued
            && (s.producer.Idle? && s.consumer.Waiting? && s.queue == [] ==>
                  s.processed == s.accepted && s.heap == map[] && |s.freed| == s.issued)
  {
    var s := Run(c, acts);
    RunKeeps(c, acts);
    LiveCount(c, s);
    var all := s.freed + Owned(s);
    assert forall k | 0 <= k < |s.freed| :: all[k] == s.freed[k];
    DistinctCount(all, Below(s.issued));
    forall k, j | 0 <= k < |s.freed| && 0 <= j < |Owned(s)| ensures s.freed[k] != Owned(s)[j] {
      assert all[k] != all[|s.freed| + j];
    }
  }

  function Below(n: nat): (s: set<Pointer>)
    ensures |s| == n && forall p: Pointer :: p in s <==> p < n
  {
    if n == 0 then {} else Below(n - 1) + {n - 1}
  }

  // ---------- that records get through ----------

  lemma RunSnoc(c: Config, acts: seq<Action>, a: Action)
    ensures Run(c, acts + [a]) == Step(c, Run(c, acts), a)
  {
    assert (acts + [a])[..|acts|] == acts;
  }

  /** A waiting consumer takes the head of the queue, and processes and frees exactly that record. */
  lemma TakesHead(c: Config, s: State)
    requires Ownership(s) && s.consumer.Waiting? && s.queue != []
    ensures var p := s.queue[0];
            p in s.heap
            && Step(c, Step(c, Step(c, s, Receive), Process), Free)
               == s.(queue := s.queue[1..], heap := s.heap - {p},
                     processed := s.processed + [s.heap[p]], freed := s.freed + [p])
  {
    assert Owned(s)[0] == s.queue[0];
  }

  /** A record that arrives while the producer is idle and the queue has room is accepted at its end. */
  lemma OffersRecord(c: Config, s: State, x: Item)
    requires Ownership(s) && s.producer.Idle? && |s.queue| < c.capacity
    ensures Step(c, Step(c, Step(c, s, Arrive(x)), Allocate(true)), Send)
            == s.(queue := s.queue + [s.issued], heap := s.heap[s.issued := x],
                  issued := s.issued + 1, accepted := s.accepted + [x])
  {
  }

  /** One for which there is no memory, or for which a producer that looks first sees no room, leaves no
      trace; one that is sent in vain by a producer that frees costs an allocation and is counted. */
  lemma DropsRecord(c: Config, s: State, x: Item)
    requires Ownership(s) && s.producer.Idle?
    ensures Step(c, Step(c, s, Arrive(x)), Allocate(false)) == s
    ensures c.looksFirst && |s.queue| >= c.capacity ==> Step(c, s, Arrive(x)) == s
    ensures !c.looksFirst && c.freesOnFull && |s.queue| >= c.capacity ==>
              Step(c, Step(c, Step(c, s, Arrive(x)), Allocate(true)), Send)
              == s.(issued := s.issued + 1, freed := s.freed + [s.issued], failed := s.failed + 1)
  {
    assert s.issued !in s.freed + Owned(s);
    assert s.heap[s.issued := x] - {s.issued} == s.heap;
  }

  /** Nothing more arrives. */
  predicate NoArrivals(acts: seq<Action>) { forall k | 0 <= k < |acts| :: !acts[k].Arrive? }

  lemma ProducerHolds(s: State)
    requires Ownership(s) && s.producer.Sending?
    ensures s.producer.p in s.heap
  {
    assert Owned(s)[|Owned(s)| - 1] == s.producer.p;
  }

  lemma FinishProducer(c: Config, acts: seq<Action>) returns (more: seq<Action>)
    requires Careful(c)
    ensures NoArrivals(more) && Run(c, acts + more).producer.Idle?
  {
    hide Run, Owned, Distinct, InOrder;
    more := [];
    assert acts + more == acts;
    if Run(c, acts).producer.Copying? {
      RunSnoc(c, acts, Allocate(true));
      more := [Allocate(true)];
    }
    if Run(c, acts + more).producer.Sending? {
      RunKeeps(c, acts + more);
      ProducerHolds(Run(c, acts + more));
      RunSnoc(c, acts + more, Send);
      assert acts + more + [Send] == acts + (more + [Send]);
      more := more + [Send];
    }
  }

  lemma ConsumerHolds(s: State)
    requires Ownership(s) && s.consumer.Received?
    ensures s.consumer.p in s.heap
  {
    assert Owned(s)[0] == s.consumer.p;
  }

  lemma FinishConsumer(c: Config, acts: seq<Action>) returns (more: seq<Action>)
    requires Careful(c) && Run(c, acts).producer.Idle?
    ensures NoArrivals(more)
    ensures var s := Run(c, acts + more); s.producer.Idle? && s.consumer.Waiting? && s.queue == Run(c, acts).queue
  {
    hide Run;
    more := [];
    assert acts + more == acts;
    if Run(c, acts).consumer.Received? {
      RunKeeps(c, acts);
      ConsumerHolds(Run(c, acts));
      RunSnoc(c, acts, Process);
      more := [Process];
    }
    if Run(c, acts + more).consumer.Processed? {
      RunSnoc(c, acts + more, Free);
      assert acts + more + [Free] == acts + (more + [Free]);
      more := more + [Free];
    }
  }

  lemma {:induction false} FinishQueue(c: Config, acts: seq<Action>) returns (more: seq<Action>)
    requires Careful(c) && Run(c, acts).producer.Idle? && Run(c, acts).consumer.Waiting?
    ensures NoArrivals(more)
    ensures var s := Run(c, acts + more); s.producer.Idle? && s.consumer.Waiting? && s.queue == []
    decreases |Run(c, acts).queue|
  {
    hide Run, Owned, Distinct;
    if Run(c, acts).queue == [] {
      more := [];
      assert acts + more == acts;
    } else {
      RunKeeps(c, acts);
      TakesHead(c, Run(c, acts));
      var one := [Receive, Process, Free];
      RunSnoc(c, acts, Receive);
      RunSnoc(c, acts + [Receive], Process);
      RunSnoc(c, acts + [Receive] + [Process], Free);
      assert acts + [Receive] + [Process] + [Free] == acts + one;
      more := FinishQueue(c, acts + one);
      assert acts + one + more == acts + (one + more);
      more := one + more;
    }
  }

  /** From wherever a run has got to, producer and consumer can finish: without further arrivals they reach
      rest, with every accepted record processed, in order, and every allocation freed. */
  lemma RestIsReachable(c: Config, acts: seq<Action>) returns (more: seq<Action>)
    requires Careful(c)
    ensures NoArrivals(more)
    ensures var s := Run(c, acts + more);
            && s.producer.Idle? && s.consumer.Waiting? && s.queue == []
            && s.processed == s.accepted && s.heap == map[] && |s.freed| == s.issued
    ensures Run(c, acts).accepted <= Run(c, acts + more).accepted
  {
    hide Run, Inv;
    var m1 := FinishProducer(c, acts);
    var m2 := FinishConsumer(c, acts + m1);
    var m3 := FinishQueue(c, acts + m1 + m2);
    more := m1 + m2 + m3;
    assert acts + m1 + m2 + m3 == acts + more;
    NothingLostOrLeaked(c, acts + more);
    AcceptedGrows(c, acts, more);
  }

  lemma {:induction false} AcceptedGrows(c: Config, acts: seq<Action>, more: seq<Action>)
    ensures Run(c, acts).accepted <= Run(c, acts + more).accepted
  {
    if more == [] {
      assert acts + more == acts;
    } else {
      var before, a := more[..|more| - 1], more[|more| - 1];
      AcceptedGrows(c, acts, before);
      assert acts + more == (acts + before) + [a];
      RunSnoc(c, acts + before, a);
    }
  }

  // ---------- producers that leak ----------

  /** Why a failed send must free: in a producer that neither looks first nor frees, the record of a
      failed send stays allocated with nobody left to free it. */
  lemma CarelessSendLeaks(c: Config, s: State)
    requires !Careful(c) && Inv(c, s) && s.producer.Sending? && |s.queue| >= c.capacity
    ensures Leaked(Step(c, s, Send), s.producer.p)
  {
    var all, n, m := s.freed + Owned(s), |s.freed|, |ConsumerOwns(s) + s.queue|;
    assert Owned(s)[m] == all[n + m] == s.producer.p;
    assert s.producer.p in s.heap && s.producer.p in all;
    forall k | 0 <= k < m ensures (ConsumerOwns(s) + s.queue)[k] != s.producer.p {
      assert all[n + k] != all[n + m];
    }
  }

  predicate Leaked(s: State, p: Pointer) { p in s.heap && p < s.issued && p !in Owned(s) }

  lemma StillLeaked(c: Config, s: State, p: Pointer, a: Action)
    requires Leaked(s, p)
    ensures Leaked(Step(c, s, a), p)
  {
  }

  /** A leaked record stays leaked whatever happens afterwards. */
  lemma {:induction false} LeakIsForEver(c: Config, acts: seq<Action>, p: Pointer, more: seq<Action>)
    requires Leaked(Run(c, acts), p)
    ensures Leaked(Run(c, acts + more), p)
  {
    if more == [] {
      assert acts + more == acts;
    } else {
      var before, a := more[..|more| - 1], more[|more| - 1];
      LeakIsForEver(c, acts, p, before);
      assert acts + more == (acts + before) + [a];
      RunSnoc(c, acts + before, a);
      StillLeaked(c, Run(c, acts + before), p, a);
    }
  }

  /** A producer that does not free a record it could not send and does not look first can fill the queue
      and then have a send fail. */
  lemma {:induction false} CarelessFills(c: Config, n: nat) returns (acts: seq<Action>)
    requires !Careful(c) && n <= c.capacity
    ensures var s := Run(c, acts); Inv(c, s) && s.producer.Idle? && |s.queue| == n
  {
    if n == 0 {
      acts := [];
    } else {
      var before := CarelessFills(c, n - 1);
      acts := CarelessOffers(c, before);
      SendSucceeds(c, Run(c, acts));
      RunSnoc(c, acts, Send);
      acts := acts + [Send];
    }
  }

  lemma CarelessOffers(c: Config, before: seq<Action>) returns (acts: seq<Action>)
    requires !Careful(c) && Inv(c, Run(c, before)) && Run(c, before).producer.Idle?
    ensures var s := Run(c, acts);
            Inv(c, s) && s.producer.Sending? && s.producer.p in s.heap && s.queue == Run(c, before).queue
  {
    hide Inv, Run;
    RunSnoc(c, before, Arrive(0));
    ArriveKeeps(c, Run(c, before), 0);
    acts := before + [Arrive(0)];
    RunSnoc(c, acts, Allocate(true));
    AllocateKeeps(c, Run(c, acts), Allocate(true));
    acts := acts + [Allocate(true)];
  }

  /** No run leaks a record if and only if the producer looks first or frees on a full queue; and where
      one can be leaked, it can be leaked for ever. */
  lemma NoLeakExactly(c: Config)
    ensures Careful(c) <==> forall acts :: NoLeak(Run(c, acts))
    ensures Careful(c) || exists acts, p :: LeakedForEver(c, acts, p)
  {
    if Careful(c) {
      forall acts ensures NoLeak(Run(c, acts)) {
        RunKeeps(c, acts);
      }
    } else {
      var acts := CarelessFills(c, c.capacity);
      acts := CarelessOffers(c, acts);
      var p := Run(c, acts).producer.p;
      CarelessSendLeaks(c, Run(c, acts));
      RunSnoc(c, acts, Send);
      acts := acts + [Send];
      forall more ensures Leaked(Run(c, acts + more), p) {
        LeakIsForEver(c, acts, p, more);
      }
      assert LeakedForEver(c, acts, p) && !NoLeak(Run(c, acts));
    }
  }

  ghost predicate NoLeak(s: State) { forall p :: p in s.heap ==> p in Owned(s) }

  ghost predicate LeakedForEver(c: Config, acts: seq<Action>, p: Pointer) {
    forall more :: Leaked(Run(c, acts + more), p)
  }
}
