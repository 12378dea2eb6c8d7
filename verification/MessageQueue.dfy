/** The script message queue (`script/message_queue.c`): a ring under a lock plus a counting semaphore that is
    signalled and awaited outside the lock. Any number of senders and receivers interleave between those steps. */
module MessageQueue {
  import opened Bytes
  import Ring

  const CAPACITY := 256

  /** `script_msg_t`: a type tag and its data bytes. */
  datatype Msg = Msg(kind: nat, data: seq<byte>)

  /** The shared object. `count` is a `uint32_t` that wraps, and the semaphore ignores a release beyond its maximum. */
  datatype Queue = Queue(items: seq<Msg>, head: nat, tail: nat, count: u32, sem: nat)

  function Empty(blank: Msg): Queue {
    Queue(seq(CAPACITY, _ => blank), 0, 0, 0, 0)
  }

  /** The indices stay inside the ring. */
  predicate InRing(q: Queue) {
    |q.items| == CAPACITY && q.head < CAPACITY && q.tail < CAPACITY
  }

  // The atomic pieces

  /** `script_msg_queue_send` inside the lock. */
  function Store(q: Queue, m: Msg): Queue
    requires InRing(q)
  {
    if q.count >= CAPACITY then q
    else q.(items := q.items[q.tail := m], tail := (q.tail + 1) % CAPACITY, count := q.count + 1)
  }

  /** `ReleaseSemaphore`. */
  function Signal(q: Queue): Queue {
    if q.sem < CAPACITY then q.(sem := q.sem + 1) else q
  }

  /** A successful `WaitForSingleObject`. */
  function Take(q: Queue): Queue
    requires q.sem > 0
  {
    q.(sem := q.sem - 1)
  }

  /** `script_msg_queue_recv` inside the lock: it does not look at `count` first. */
  function Fetch(q: Queue): Queue
    requires InRing(q)
  {
    q.(head := (q.head + 1) % CAPACITY, count := (q.count as int + U32_BASE - 1) % U32_BASE)
  }

  /** The stored messages, oldest first. */
  function Contents(q: Queue): seq<Msg>
    requires InRing(q) && q.count <= CAPACITY
  {
    Ring.Contents(q.items, q.head, q.count)
  }

  // Interleavings

  type Thread = nat

  /** `signalling`: senders between unlock and `ReleaseSemaphore`; `granted`: receivers between the wait and the
      lock; `accepted` and `received` log the messages stored and fetched. */
  datatype State = State(q: Queue, signalling: set<Thread>, granted: set<Thread>, accepted: seq<Msg>,
    received: seq<Msg>)

  datatype Step =
    | SendLock(t: Thread, m: Msg)
    | SendSignal(t: Thread)
    | RecvWait(t: Thread)
    | RecvLock(t: Thread)

  function Start(blank: Msg): State {
    State(Empty(blank), {}, {}, [], [])
  }

  predicate Enabled(s: State, step: Step) {
    InRing(s.q) &&
    match step
    case SendLock(t, m) => t !in s.signalling && t !in s.granted
    case SendSignal(t) => t in s.signalling
    case RecvWait(t) => t !in s.signalling && t !in s.granted && s.q.sem > 0
    case RecvLock(t) => t in s.granted
  }

  function Next(s: State, step: Step): State
    requires Enabled(s, step)
  {
    match step
    case SendLock(t, m) =>
      if s.q.count >= CAPACITY then s.(q := Store(s.q, m))
      else s.(q := Store(s.q, m), signalling := s.signalling + {t}, accepted := s.accepted + [m])
    case SendSignal(t) => s.(q := Signal(s.q), signalling := s.signalling - {t})
    case RecvWait(t) => s.(q := Take(s.q), granted := s.granted + {t})
    case RecvLock(t) => s.(q := Fetch(s.q), granted := s.granted - {t}, received := s.received + [s.q.items[s.q.head]])
  }

  /** The state after a run, or None if some step could not happen. */
  function Run(s: State, steps: seq<Step>): Option<State> {
    if steps == [] then Some(s)
    else
      var before := Run(s, steps[..|steps| - 1]);
      if before.Some? && Enabled(before.value, steps[|steps| - 1])
      then Some(Next(before.value, steps[|steps| - 1])) else None
  }

  /** The ring holds what was accepted and not yet received. */
  ghost predicate Stored(s: State)
    requires InRing(s.q)
  {
    s.q.count <= CAPACITY && s.q.tail == (s.q.head + s.q.count) % CAPACITY && s.accepted == s.received + Contents(s.q)
  }

  ghost predicate Inv(s: State) {
    && InRing(s.q)
    && s.signalling !! s.granted
    && s.q.count == s.q.sem + |s.signalling| + |s.granted|
    && Stored(s)
  }

  lemma StoreContents(q: Queue, m: Msg)
    requires InRing(q) && q.count < CAPACITY && q.tail == (q.head + q.count) % CAPACITY
    ensures var q' := Store(q, m);
            InRing(q') && q'.tail == (q'.head + q'.count) % CAPACITY && Contents(q') == Contents(q) + [m]
  {
    Ring.ModIsWrap(q.head + q.count, CAPACITY);
    Ring.Push(q.items, q.head, q.count, m);
  }

  lemma FetchContents(q: Queue)
    requires InRing(q) && 0 < q.count <= CAPACITY && q.tail == (q.head + q.count) % CAPACITY
    ensures var q' := Fetch(q);
            && InRing(q') && q'.count == q.count - 1 && q'.tail == (q'.head + q'.count) % CAPACITY
            && Contents(q) == [q.items[q.head]] + Contents(q')
  {
    Ring.ModIsWrap(q.head + 1, CAPACITY);
    Ring.Pop(q.items, q.head, q.count);
  }

  lemma StepKeepsInv(s: State, step: Step)
    requires Inv(s) && Enabled(s, step)
    ensures Inv(Next(s, step))
  {
    match step {
      case SendLock(t, m) =>
        if s.q.count < CAPACITY {
          StoreKeepsLog(s, m);
        }
      case SendSignal(t) =>
        assert |s.signalling| > 0;
      case RecvWait(t) =>
      case RecvLock(t) =>
        assert |s.granted| > 0;
        FetchKeepsLog(s);
    }
  }

  lemma StoreKeepsLog(s: State, m: Msg)
    requires InRing(s.q) && Stored(s) && s.q.count < CAPACITY
    ensures var q' := Store(s.q, m);
            InRing(q') && q'.tail == (q'.head + q'.count) % CAPACITY && s.accepted + [m] == s.received + Contents(q')
  {
    StoreContents(s.q, m);
    Associative(s.received, Contents(s.q), [m]);
  }

  lemma FetchKeepsLog(s: State)
    requires InRing(s.q) && Stored(s) && s.q.count > 0
    ensures var q' := Fetch(s.q);
            && InRing(q') && q'.count == s.q.count - 1 && q'.tail == (q'.head + q'.count) % CAPACITY
            && s.accepted == s.received + [s.q.items[s.q.head]] + Contents(q')
  {
    FetchContents(s.q);
    Associative(s.received, [s.q.items[s.q.head]], Contents(Fetch(s.q)));
  }

  lemma {:induction false} RunKeepsInv(s: State, steps: seq<Step>)
    requires Inv(s) && Run(s, steps).Some?
    ensures Inv(Run(s, steps).value)
  {
    if steps != [] {
      RunKeepsInv(s, steps[..|steps| - 1]);
      StepKeepsInv(Run(s, steps[..|steps| - 1]).value, steps[|steps| - 1]);
    }
  }

  ghost predicate Reachable(blank: Msg, s: State) {
    exists steps: seq<Step> :: Run(Start(blank), steps) == Some(s)
  }

  lemma ReachableInv(blank: Msg, s: State)
    requires Reachable(blank, s)
    ensures Inv(s)
  {
    var steps: seq<Step> :| Run(Start(blank), steps) == Some(s);
    StartInv(blank);
    RunKeepsInv(Start(blank), steps);
  }

  lemma StartInv(blank: Msg)
    ensures Inv(Start(blank))
  {
    assert Contents(Start(blank).q) == [];
  }

  /** A receiver past its wait always finds a message, the oldest one not yet received, though `recv` never checks. */
  lemma GrantedFindsOldest(blank: Msg, s: State, t: Thread)
    requires Reachable(blank, s) && t in s.granted
    ensures 0 < s.q.count && Next(s, RecvLock(t)).q.count == s.q.count - 1
    ensures |s.received| < |s.accepted|
    ensures Next(s, RecvLock(t)).received == s.accepted[..|s.received| + 1]
  {
    ReachableInv(blank, s);
    assert |s.granted| > 0;
    FetchKeepsLog(s);
    PrefixOfSum(s.received, s.q.items[s.q.head], Contents(Fetch(s.q)));
  }

  lemma PrefixOfSum<T>(a: seq<T>, x: T, b: seq<T>)
    ensures (a + [x] + b)[..|a| + 1] == a + [x]
  {
  }

  /** A sender's release never hits the semaphore's maximum, so no wake-up is lost. */
  lemma ReleaseNeverSaturates(blank: Msg, s: State, t: Thread)
    requires Reachable(blank, s) && t in s.signalling
    ensures s.q.sem < 256 && Next(s, SendSignal(t)).q.sem == s.q.sem + 1
  {
    ReachableInv(blank, s);
    assert |s.signalling| > 0;
  }

  /** At all times the received messages are the oldest accepted ones, each once and in order; a send is refused
      exactly when 256 accepted messages have not been received. */
  lemma BoundedFifo(blank: Msg, s: State, t: Thread, m: Msg)
    requires Reachable(blank, s)
    ensures s.received <= s.accepted && |s.accepted| - |s.received| <= 256
    ensures Enabled(s, SendLock(t, m)) ==>
              (Next(s, SendLock(t, m)) == s <==> |s.accepted| - |s.received| == 256)
  {
    ReachableInv(blank, s);
  }

  /** An unbounded list that is told of the same steps: it takes every message sent while fewer than 256 are waiting,
      and forgets one with every fetch. */
  datatype Told = Told(taken: seq<Msg>, gone: nat)

  function Tell(steps: seq<Step>): Told {
    if steps == [] then Told([], 0)
    else
      var t := Tell(steps[..|steps| - 1]);
      match steps[|steps| - 1]
      case SendLock(_, m) => if |t.taken| - t.gone < 256 then t.(taken := t.taken + [m]) else t
      case RecvLock(_) => t.(gone := t.gone + 1)
      case _ => t
  }

  /** After every run the queue has accepted exactly the messages that list took, and the receivers have got the
      first of them, in order. */
  lemma {:induction false} RunIsTold(blank: Msg, steps: seq<Step>)
    requires Run(Start(blank), steps).Some?
    ensures var s, t := Run(Start(blank), steps).value, Tell(steps);
            s.accepted == t.taken && t.gone <= |t.taken| && s.received == t.taken[..t.gone]
  {
    if steps != [] {
      var front, step := steps[..|steps| - 1], steps[|steps| - 1];
      RunIsTold(blank, front);
      var s := Run(Start(blank), front).value;
      StepIsTold(blank, s, step);
    }
  }

  lemma StepIsTold(blank: Msg, s: State, step: Step)
    requires Reachable(blank, s) && Enabled(s, step)
    ensures var s' := Next(s, step);
            match step
            case SendLock(_, m) =>
              s'.received == s.received
              && s'.accepted == if |s.accepted| - |s.received| < 256 then s.accepted + [m] else s.accepted
            case RecvLock(_) =>
              |s.received| < |s.accepted| && s'.accepted == s.accepted
              && s'.received == s.accepted[..|s.received| + 1]
            case _ => s'.accepted == s.accepted && s'.received == s.received
  {
    ReachableInv(blank, s);
    if step.RecvLock? {
      GrantedFindsOldest(blank, s, step.t);
    }
  }

  /** When no call is in progress a wait succeeds exactly when a message is stored. */
  lemma QuietWaitIffStored(blank: Msg, s: State, t: Thread)
    requires Reachable(blank, s) && s.signalling == {} && s.granted == {}
    ensures Enabled(s, RecvWait(t)) <==> s.received != s.accepted
  {
    ReachableInv(blank, s);
  }

  // Drain

  /** A drain in progress: `discarded` messages were in the ring when it was reset, and `gone` tokens have left the
      semaphore without a receive since: taken by the drain's loop, or lost by a release at the maximum. */
  datatype Drain = Drain(s: State, discarded: nat, gone: nat)

  /** While the loop runs, other threads go on. */
  datatype DrainStep =
    | TakeToken        // one successful wait of the drain's loop
    | Other(step: Step)

  /** The critical section of `script_msg_queue_drain`. */
  function Reset(q: Queue): Queue {
    q.(head := 0, tail := 0, count := 0)
  }

  function DrainLock(s: State): Drain {
    Drain(s.(q := Reset(s.q), accepted := s.received), s.q.count, 0)
  }

  predicate DrainEnabled(d: Drain, step: DrainStep) {
    match step
    case TakeToken => d.s.q.sem > 0
    case Other(other) => Enabled(d.s, other)
  }

  function DrainNext(d: Drain, step: DrainStep): Drain
    requires DrainEnabled(d, step)
  {
    match step
    case TakeToken => d.(s := d.s.(q := Take(d.s.q)), gone := d.gone + 1)
    case Other(other) =>
      Drain(Next(d.s, other), d.discarded, if other.SendSignal? && d.s.q.sem >= CAPACITY then d.gone + 1 else d.gone)
  }

  function DrainRun(d: Drain, steps: seq<DrainStep>): Option<Drain> {
    if steps == [] then Some(d)
    else
      var before := DrainRun(d, steps[..|steps| - 1]);
      if before.Some? && DrainEnabled(before.value, steps[|steps| - 1])
      then Some(DrainNext(before.value, steps[|steps| - 1])) else None
  }

  /** Messages stored less messages fetched since the reset; below 0 once a receiver has found the ring empty. */
  function Net(d: Drain): int {
    d.s.q.sem + |d.s.signalling| + |d.s.granted| + d.gone - d.discarded
  }

  /** What a drain keeps at every moment: the count is the net number, wrapped around below 0, and as long as it is
      not negative the ring holds what was accepted since and not received. */
  ghost predicate DrainInv(d: Drain) {
    && InRing(d.s.q) && d.s.signalling !! d.s.granted
    && d.discarded <= CAPACITY && Net(d) <= CAPACITY
    && d.s.q.count == (if Net(d) < 0 then U32_BASE + Net(d) else Net(d))
    && (Net(d) >= 0 ==> Stored(d.s))
  }

  lemma DrainStarts(s: State)
    requires Inv(s)
    ensures DrainInv(DrainLock(s)) && Net(DrainLock(s)) == 0
  {
    assert Contents(DrainLock(s).s.q) == [];
  }

  lemma DrainStepKeepsInv(d: Drain, step: DrainStep)
    requires DrainInv(d) && DrainEnabled(d, step)
    ensures DrainInv(DrainNext(d, step)) && DrainNext(d, step).discarded == d.discarded
  {
    match step {
      case TakeToken =>
      case Other(SendLock(t, m)) => DrainSendKeepsInv(d, t, m);
      case Other(SendSignal(t)) => DrainSignalKeepsInv(d, t);
      case Other(RecvWait(t)) => DrainWaitKeepsInv(d, t);
      case Other(RecvLock(t)) => DrainFetchKeepsInv(d, t);
    }
  }

  lemma DrainSendKeepsInv(d: Drain, t: Thread, m: Msg)
    requires DrainInv(d) && Enabled(d.s, SendLock(t, m))
    ensures DrainInv(DrainNext(d, Other(SendLock(t, m))))
  {
    if d.s.q.count < CAPACITY {
      StoreKeepsLog(d.s, m);
    }
  }

  lemma DrainSignalKeepsInv(d: Drain, t: Thread)
    requires DrainInv(d) && Enabled(d.s, SendSignal(t))
    ensures DrainInv(DrainNext(d, Other(SendSignal(t))))
  {
  }

  lemma DrainWaitKeepsInv(d: Drain, t: Thread)
    requires DrainInv(d) && Enabled(d.s, RecvWait(t))
    ensures DrainInv(DrainNext(d, Other(RecvWait(t))))
  {
  }

  lemma DrainFetchKeepsInv(d: Drain, t: Thread)
    requires DrainInv(d) && Enabled(d.s, RecvLock(t))
    ensures DrainInv(DrainNext(d, Other(RecvLock(t))))
  {
    if Net(d) > 0 {
      FetchKeepsLog(d.s);
    }
  }

  lemma {:induction false} DrainRunKeepsInv(d: Drain, steps: seq<DrainStep>)
    requires DrainInv(d) && DrainRun(d, steps).Some?
    ensures DrainInv(DrainRun(d, steps).value) && DrainRun(d, steps).value.discarded == d.discarded
  {
    if steps != [] {
      DrainRunKeepsInv(d, steps[..|steps| - 1]);
      DrainStepKeepsInv(DrainRun(d, steps[..|steps| - 1]).value, steps[|steps| - 1]);
    }
  }

  /** At every moment of a drain, and so when its loop ends, the queue's invariant holds if and only if as many tokens
      have gone as messages were discarded. */
  lemma DrainRestoresIff(s: State, steps: seq<DrainStep>)
    requires Inv(s) && DrainRun(DrainLock(s), steps).Some?
    ensures var d := DrainRun(DrainLock(s), steps).value;
            d.discarded == s.q.count && (Inv(d.s) <==> d.gone == d.discarded)
  {
    DrainStarts(s);
    DrainRunKeepsInv(DrainLock(s), steps);
  }

  ghost predicate CountStaysSane(s: State) {
    forall steps: seq<Step> :: Run(s, steps).Some? ==> Run(s, steps).value.q.count <= 256
  }

  ghost predicate DrainCountStaysSane(d: Drain) {
    forall steps: seq<DrainStep> :: DrainRun(d, steps).Some? ==> DrainRun(d, steps).value.s.q.count <= 256
  }

  /** With other threads free to act during the drain, the count stays in range in every run if and only if there was
      nothing to drain: no message stored, and so no call between its lock and its semaphore step. */
  lemma DrainSafeIffEmpty(s: State)
    requires Inv(s)
    ensures DrainCountStaysSane(DrainLock(s)) <==> s.q.count == 0
    ensures s.q.count == 0 <==> s.q.sem == 0 && s.signalling == {} && s.granted == {}
  {
    var d := DrainLock(s);
    DrainStarts(s);
    if s.q.count == 0 {
      forall steps: seq<DrainStep> | DrainRun(d, steps).Some?
        ensures DrainRun(d, steps).value.s.q.count <= 256
      {
        DrainRunKeepsInv(d, steps);
      }
    } else {
      StaleTokenFetch(s);
    }
  }

  /** The failing run: someone takes a token of a discarded message and fetches from the empty ring. */
  lemma StaleTokenFetch(s: State)
    requires Inv(s) && s.q.count > 0
    ensures !DrainCountStaysSane(DrainLock(s))
  {
    var d := DrainLock(s);
    if s.granted != {} {
      var t :| t in s.granted;
      DrainUnderflow(d, [], d, t);
    } else if s.q.sem > 0 {
      var t := FreshThread(s.signalling);
      DrainSnoc(d, [], d, Other(RecvWait(t)));
      DrainUnderflow(d, [] + [Other(RecvWait(t))], DrainNext(d, Other(RecvWait(t))), t);
    } else {
      assert |s.signalling| > 0;
      var t :| t in s.signalling;
      var d1 := DrainNext(d, Other(SendSignal(t)));
      DrainSnoc(d, [], d, Other(SendSignal(t)));
      DrainSnoc(d, [] + [Other(SendSignal(t))], d1, Other(RecvWait(t)));
      DrainUnderflow(d, [] + [Other(SendSignal(t))] + [Other(RecvWait(t))], DrainNext(d1, Other(RecvWait(t))), t);
    }
  }

  lemma {:induction false} FreshThread(used: set<Thread>) returns (t: Thread)
    ensures forall u :: u in used ==> u < t
    decreases |used|
  {
    t := 0;
    if used != {} {
      var u :| u in used;
      var rest := FreshThread(used - {u});
      t := rest + u + 1;
      assert forall v :: v in used ==> v == u || v in used - {u};
    }
  }

  lemma DrainSnoc(d: Drain, steps: seq<DrainStep>, e: Drain, step: DrainStep)
    requires DrainRun(d, steps) == Some(e) && DrainEnabled(e, step)
    ensures DrainRun(d, steps + [step]) == Some(DrainNext(e, step))
  {
    assert (steps + [step])[..|steps|] == steps;
  }

  lemma DrainUnderflow(d: Drain, steps: seq<DrainStep>, e: Drain, t: Thread)
    requires DrainRun(d, steps) == Some(e) && InRing(e.s.q) && e.s.q.count == 0 && t in e.s.granted
    ensures !DrainCountStaysSane(d)
  {
    DrainSnoc(d, steps, e, Other(RecvLock(t)));
    assert DrainRun(d, steps + [Other(RecvLock(t))]).value.s.q.count == U32_BASE - 1;
  }

  /** The other way to fail: a send in the gap has its token taken by the loop. The drain ends with no call in progress
      and a message stored that no wait will find. */
  lemma DrainStrandsMessage(s: State, m: Msg)
    requires Inv(s) && s.signalling == {} && s.granted == {}
    ensures exists steps: seq<DrainStep> ::
              && DrainRun(DrainLock(s), steps).Some?
              && var e := DrainRun(DrainLock(s), steps).value.s;
                 e.q.sem == 0 && e.signalling == {} && e.granted == {} && e.q.count == 1
                   && e.accepted == s.received + [m]
  {
    var d := DrainLock(s);
    SentInGap(s, m);
    var d1 := DrainNext(d, Other(SendLock(0, m)));
    var first: seq<DrainStep> := [] + [Other(SendLock(0, m))];
    DrainSnoc(d, [], d, Other(SendLock(0, m)));
    var d2 := DrainNext(d1, Other(SendSignal(0)));
    DrainSnoc(d, first, d1, Other(SendSignal(0)));
    TakeAll(d, first + [Other(SendSignal(0))], d2, d2.s.q.sem);
    var steps := first + [Other(SendSignal(0))] + Takes(d2.s.q.sem);
    assert DrainRun(d, steps).Some?;
  }

  lemma SentInGap(s: State, m: Msg)
    requires Inv(s) && s.signalling == {} && s.granted == {}
    ensures DrainEnabled(DrainLock(s), Other(SendLock(0, m)))
    ensures var d1 := DrainNext(DrainLock(s), Other(SendLock(0, m)));
            && DrainEnabled(d1, Other(SendSignal(0)))
            && var e := DrainNext(d1, Other(SendSignal(0))).s;
               e.signalling == {} && e.granted == {} && e.q.count == 1 && e.accepted == s.received + [m]
  {
  }

  function Takes(n: nat): (steps: seq<DrainStep>)
    ensures |steps| == n && forall i :: 0 <= i < n ==> steps[i] == TakeToken
  {
    seq(n, _ => TakeToken)
  }

  function WithTaken(e: Drain, n: nat): Drain
    requires n <= e.s.q.sem
  {
    e.(s := e.s.(q := e.s.q.(sem := e.s.q.sem - n)), gone := e.gone + n)
  }

  lemma {:induction false} TakeAll(d: Drain, steps: seq<DrainStep>, e: Drain, n: nat)
    requires DrainRun(d, steps) == Some(e) && n <= e.s.q.sem
    ensures DrainRun(d, steps + Takes(n)) == Some(WithTaken(e, n))
  {
    if n == 0 {
      assert steps + Takes(0) == steps;
    } else {
      TakeAll(d, steps, e, n - 1);
      assert steps + Takes(n) == steps + Takes(n - 1) + [TakeToken];
      DrainSnoc(d, steps + Takes(n - 1), WithTaken(e, n - 1), TakeToken);
    }
  }

  /** The state a drain leaves when nobody else acts until its loop ends. */
  function Drained(s: State): State {
    s.(q := Reset(s.q).(sem := 0), accepted := s.received)
  }

  lemma {:induction false} UndisturbedDrain(s: State, steps: seq<DrainStep>)
    requires forall i :: 0 <= i < |steps| ==> steps[i] == TakeToken
    requires DrainRun(DrainLock(s), steps).Some? && DrainRun(DrainLock(s), steps).value.s.q.sem == 0
    ensures DrainRun(DrainLock(s), steps).value.s == Drained(s)
  {
    OnlyTakes(DrainLock(s), steps);
  }

  lemma {:induction false} OnlyTakes(d: Drain, steps: seq<DrainStep>)
    requires DrainRun(d, steps).Some? && forall i :: 0 <= i < |steps| ==> steps[i] == TakeToken
    ensures DrainRun(d, steps).value.s == d.s.(q := d.s.q.(sem := DrainRun(d, steps).value.s.q.sem))
  {
    if steps != [] {
      OnlyTakes(d, steps[..|steps| - 1]);
      assert steps[|steps| - 1] == TakeToken;
    }
  }

  /** What a caller can check: with no call until its loop ends, a drain restores the invariant, and every later run
      keeps the count in range, if and only if nobody was between its lock and its semaphore step. */
  lemma UndisturbedDrainSafeIffQuiet(s: State)
    requires Inv(s)
    ensures CountStaysSane(Drained(s)) <==> s.signalling == {} && s.granted == {}
    ensures Inv(Drained(s)) <==> s.signalling == {} && s.granted == {}
  {
    var d := Drained(s);
    if s.granted != {} {
      var t :| t in s.granted;
      StrayFetch(d, d, [], t);
    } else if s.signalling != {} {
      var t :| t in s.signalling;
      var d1 := Next(d, SendSignal(t));
      RunSnoc(d, [], d, SendSignal(t));
      RunSnoc(d, [] + [SendSignal(t)], d1, RecvWait(t));
      StrayFetch(d, Next(d1, RecvWait(t)), [] + [SendSignal(t)] + [RecvWait(t)], t);
    } else {
      assert Contents(d.q) == [];
      forall steps: seq<Step> | Run(d, steps).Some?
        ensures Run(d, steps).value.q.count <= 256
      {
        RunKeepsInv(d, steps);
      }
    }
  }

  lemma RunSnoc(d: State, steps: seq<Step>, s: State, step: Step)
    requires Run(d, steps) == Some(s) && Enabled(s, step)
    ensures Run(d, steps + [step]) == Some(Next(s, step))
  {
    assert (steps + [step])[..|steps|] == steps;
  }

  /** Fetching with a count of 0 wraps it around. */
  lemma StrayFetch(d: State, s: State, steps: seq<Step>, t: Thread)
    requires Run(d, steps) == Some(s) && InRing(s.q) && s.q.count == 0 && t in s.granted
    ensures !CountStaysSane(d)
  {
    RunSnoc(d, steps, s, RecvLock(t));
    assert Run(d, steps + [RecvLock(t)]).value.q.count == U32_BASE - 1;
  }

  // The queue object

  class ScriptQueue {
    const items: array<Msg>
    var head: nat
    var tail: nat
    var count: u32
    var semaphore: nat

    ghost predicate Valid()
      reads this, items
    {
      items.Length == CAPACITY && head < CAPACITY && tail < CAPACITY
    }

    ghost function Value(): (q: Queue)
      requires Valid()
      reads this, items
      ensures InRing(q)
    {
      Queue(items[..], head, tail, count, semaphore)
    }

    constructor (blank: Msg)
      ensures Valid() && fresh(items) && Value() == Empty(blank)
    {
      items := new Msg[CAPACITY](_ => blank);
      head, tail, count, semaphore := 0, 0, 0, 0;
    }

    method LockAndStore(m: Msg) returns (ok: bool)
      requires Valid()
      modifies this, items
      ensures Valid() && Value() == Store(old(Value()), m) && ok == (old(count) < 256)
    {
      if count >= CAPACITY {
        return false;
      }
      items[tail] := m;
      tail := (tail + 1) % CAPACITY;
      count := count + 1;
      return true;
    }

    method ReleaseSemaphore()
      requires Valid()
      modifies this`semaphore
      ensures Valid() && Value() == Signal(old(Value()))
    {
      if semaphore < CAPACITY {
        semaphore := semaphore + 1;
      }
    }

    method WaitForSemaphore() returns (ok: bool)
      requires Valid()
      modifies this`semaphore
      ensures Valid() && ok == (old(semaphore) > 0)
      ensures Value() == if ok then Take(old(Value())) else old(Value())
    {
      ok := semaphore > 0;
      if ok {
        semaphore := semaphore - 1;
      }
    }

    method LockAndFetch() returns (m: Msg)
      requires Valid()
      modifies this`head, this`count
      ensures Valid() && Value() == Fetch(old(Value())) && m == old(items[head])
    {
      m := items[head];
      head := (head + 1) % CAPACITY;
      count := (count as int + U32_BASE - 1) % U32_BASE;
    }

    /** No call in progress, and the ring is consistent. */
    ghost predicate Quiet()
      reads this, items
    {
      Valid() && count == semaphore <= CAPACITY && tail == (head + count) % CAPACITY
    }

    /** `script_msg_queue_send`, uninterrupted. */
    method Send(m: Msg) returns (ok: bool)
      requires Quiet()
      modifies this, items
      ensures Quiet() && ok == (|old(Contents(Value()))| < 256)
      ensures Contents(Value()) == if ok then old(Contents(Value())) + [m] else old(Contents(Value()))
    {
      ghost var q := Value();
      ok := LockAndStore(m);
      if ok {
        StoreContents(q, m);
        ReleaseSemaphore();
        assert Contents(Value()) == Contents(Store(q, m));
      }
    }

    /** `script_msg_queue_recv` and, with a zero timeout, `script_msg_queue_try_recv`, uninterrupted. */
    method Recv(blank: Msg) returns (ok: bool, m: Msg)
      requires Quiet()
      modifies this
      ensures Quiet() && ok == (old(Contents(Value())) != [])
      ensures if ok then old(Contents(Value())) == [m] + Contents(Value())
              else Contents(Value()) == old(Contents(Value()))
    {
      ghost var q := Value();
      m := blank;
      ok := WaitForSemaphore();
      if ok {
        ghost var q' := Value();
        assert Contents(q') == Contents(q);
        FetchContents(q');
        m := LockAndFetch();
        assert Value() == Fetch(q');
      }
    }

    /** The critical section of the drain. */
    method LockAndReset()
      requires Valid()
      modifies this`head, this`tail, this`count
      ensures Valid() && Value() == Reset(old(Value()))
    {
      head, tail, count := 0, 0, 0;
    }

    /** `script_msg_queue_drain`, undisturbed. */
    method Drain()
      requires Valid()
      modifies this
      ensures Valid() && Value() == Reset(old(Value())).(sem := 0)
      ensures Quiet() && Contents(Value()) == []
    {
      LockAndReset();
      ghost var q := Value();
      var ok := WaitForSemaphore();
      while ok
        invariant Valid() && Value() == q.(sem := semaphore) && (!ok ==> semaphore == 0)
        decreases semaphore, ok
      {
        ok := WaitForSemaphore();
      }
    }
  }
}
