/** The bounded packet queue (`decode/packet_queue.c`): a monitor whose producer and consumer share one condition
    variable. One producer, one consumer and a thread that finishes the queue interleave at every lock and wait. */
module PacketQueue {
  import opened Bytes
  import Ring

  /** A stored packet; `buffer` says which `malloc` its data came from. */
  datatype Packet = Packet(buffer: nat, pts: int, data: seq<byte>)

  /** The guarded fields; the length of `packets` is the capacity. */
  datatype Queue = Queue(packets: seq<Packet>, head: nat, tail: nat, count: nat, finished: bool)

  predicate Fits(q: Queue) {
    && q.count <= |q.packets|
    && (|q.packets| > 0 ==> q.head < |q.packets| && q.tail == Ring.Wrap(q.head + q.count, |q.packets|))
    && (|q.packets| == 0 ==> q.head == 0)
  }

  function Contents(q: Queue): seq<Packet>
    requires Fits(q)
  {
    Ring.Contents(q.packets, q.head, q.count)
  }

  function Store(q: Queue, p: Packet): Queue
    requires Fits(q) && q.count < |q.packets|
  {
    q.(packets := q.packets[q.tail := p], tail := (q.tail + 1) % |q.packets|, count := q.count + 1)
  }

  function Fetch(q: Queue): Queue
    requires Fits(q) && q.count > 0
  {
    q.(head := (q.head + 1) % |q.packets|, count := q.count - 1)
  }

  // Interleavings

  /** `Out`: not in a call. `Awake`: wants the lock, having just called or been woken. `Asleep`: in `cond_wait`. */
  datatype Pc = Out | Awake | Asleep

  datatype State = State(
    q: Queue, producer: Pc, consumer: Pc, offer: (int, seq<byte>),
    mallocs: nat, pushed: seq<Packet>, popped: seq<Packet>)

  datatype Step =
    | CallPush(pts: int, data: seq<byte>)
    | CallPop
    | LockPush(mallocOk: bool)  // the producer holds the lock until it waits or returns
    | LockPop                   // the same for the consumer
    | Finish
    | SpuriousPush
    | SpuriousPop

  function Start(capacity: nat): State {
    State(Queue(seq(capacity, _ => Packet(0, 0, [])), 0, 0, 0, false), Out, Out, (0, []), 0, [], [])
  }

  predicate Enabled(s: State, step: Step) {
    Fits(s.q) &&
    match step
    case CallPush(_, _) => s.producer.Out?
    case CallPop => s.consumer.Out?
    case LockPush(_) => s.producer.Awake?
    case LockPop => s.consumer.Awake?
    case Finish => true
    case SpuriousPush => s.producer.Asleep?
    case SpuriousPop => s.consumer.Asleep?
  }

  /** A thread waiting on the condition variable is woken. */
  function Woken(pc: Pc): Pc {
    if pc.Asleep? then Awake else pc
  }

  function Next(s: State, step: Step): State
    requires Enabled(s, step)
  {
    match step
    case CallPush(pts, data) => s.(producer := Awake, offer := (pts, data))
    case CallPop => s.(consumer := Awake)
    case LockPush(mallocOk) =>
      if s.q.count >= |s.q.packets| && !s.q.finished then s.(producer := Asleep)
      else if s.q.finished || !mallocOk then s.(producer := Out)
      else
        var p := Packet(s.mallocs, s.offer.0, s.offer.1);
        s.(q := Store(s.q, p), producer := Out, consumer := Woken(s.consumer),
           mallocs := s.mallocs + 1, pushed := s.pushed + [p])
    case LockPop =>
      if s.q.count == 0 && !s.q.finished then s.(consumer := Asleep)
      else if s.q.count == 0 then s.(consumer := Out)
      else
        s.(q := Fetch(s.q), consumer := Out, producer := Woken(s.producer),
           popped := s.popped + [s.q.packets[s.q.head]])
    case Finish => s.(q := s.q.(finished := true), producer := Woken(s.producer), consumer := Woken(s.consumer))
    case SpuriousPush => s.(producer := Awake)
    case SpuriousPop => s.(consumer := Awake)
  }

  function Run(s: State, steps: seq<Step>): Option<State> {
    if steps == [] then Some(s)
    else
      var before := Run(s, steps[..|steps| - 1]);
      if before.Some? && Enabled(before.value, steps[|steps| - 1])
      then Some(Next(before.value, steps[|steps| - 1])) else None
  }

  ghost predicate Inv(s: State) {
    && Fits(s.q)
    && s.pushed == s.popped + Contents(s.q)
    && s.mallocs == |s.pushed| && (forall i :: 0 <= i < |s.pushed| ==> s.pushed[i].buffer == i)
    && (s.producer.Asleep? ==> s.q.count == |s.q.packets| && !s.q.finished)
    && (s.consumer.Asleep? ==> s.q.count == 0 && !s.q.finished)
  }

  lemma StoreShape(q: Queue, p: Packet)
    requires Fits(q) && q.count < |q.packets|
    ensures Fits(Store(q, p)) && Contents(Store(q, p)) == Contents(q) + [p]
  {
    Ring.Push(q.packets, q.head, q.count, p);
    Ring.ModIsWrap(q.tail + 1, |q.packets|);
  }

  lemma FetchShape(q: Queue)
    requires Fits(q) && q.count > 0
    ensures Fits(Fetch(q)) && Contents(q) == [q.packets[q.head]] + Contents(Fetch(q))
  {
    Ring.Pop(q.packets, q.head, q.count);
    Ring.ModIsWrap(q.head + 1, |q.packets|);
  }

  lemma StepKeepsInv(s: State, step: Step)
    requires Inv(s) && Enabled(s, step)
    ensures Inv(Next(s, step)) && |Next(s, step).q.packets| == |s.q.packets|
  {
    match step {
      case LockPush(ok) =>
        if s.q.count < |s.q.packets| && !s.q.finished && ok {
          StoreKeepsLog(s, Packet(s.mallocs, s.offer.0, s.offer.1));
        }
      case LockPop =>
        if s.q.count > 0 {
          FetchKeepsLog(s);
        }
      case _ =>
    }
  }

  lemma StoreKeepsLog(s: State, p: Packet)
    requires Fits(s.q) && s.q.count < |s.q.packets| && s.pushed == s.popped + Contents(s.q)
    ensures Fits(Store(s.q, p)) && s.pushed + [p] == s.popped + Contents(Store(s.q, p))
  {
    StoreShape(s.q, p);
  }

  lemma FetchKeepsLog(s: State)
    requires Fits(s.q) && s.q.count > 0 && s.pushed == s.popped + Contents(s.q)
    ensures Fits(Fetch(s.q)) && s.pushed == s.popped + [s.q.packets[s.q.head]] + Contents(Fetch(s.q))
  {
    FetchShape(s.q);
  }

  lemma {:induction false} RunKeepsInv(s: State, steps: seq<Step>)
    requires Inv(s) && Run(s, steps).Some?
    ensures Inv(Run(s, steps).value) && |Run(s, steps).value.q.packets| == |s.q.packets|
  {
    if steps != [] {
      RunKeepsInv(s, steps[..|steps| - 1]);
      StepKeepsInv(Run(s, steps[..|steps| - 1]).value, steps[|steps| - 1]);
    }
  }

  lemma RunInv(capacity: nat, steps: seq<Step>)
    requires Run(Start(capacity), steps).Some?
    ensures Inv(Run(Start(capacity), steps).value) && |Run(Start(capacity), steps).value.q.packets| == capacity
  {
    assert Contents(Start(capacity).q) == [];
    RunKeepsInv(Start(capacity), steps);
  }

  /** No wake-up is lost: a thread left waiting still has its reason to wait, and the queue is not finished. With
      room for a packet the two threads never both wait. */
  lemma NoLostWakeup(capacity: nat, steps: seq<Step>)
    requires Run(Start(capacity), steps).Some?
    ensures var s := Run(Start(capacity), steps).value;
            && (s.producer.Asleep? ==> s.q.count == capacity && !s.q.finished)
            && (s.consumer.Asleep? ==> s.q.count == 0 && !s.q.finished)
            && (capacity > 0 ==> !(s.producer.Asleep? && s.consumer.Asleep?))
  {
    RunInv(capacity, steps);
  }

  /** The packets popped are the oldest pushed, in order, and at most a capacity's worth are stored; the next
      successful pop takes the oldest one stored. */
  lemma Fifo(capacity: nat, steps: seq<Step>)
    requires Run(Start(capacity), steps).Some?
    ensures var s := Run(Start(capacity), steps).value;
            && s.popped <= s.pushed && |s.pushed| - |s.popped| == s.q.count <= capacity
            && (Enabled(s, LockPop) && s.q.count > 0 ==> Next(s, LockPop).popped == s.pushed[..|s.popped| + 1])
  {
    RunInv(capacity, steps);
    var s := Run(Start(capacity), steps).value;
    if s.q.count > 0 {
      Ring.Pop(s.q.packets, s.q.head, s.q.count);
      assert s.pushed[|s.popped|] == Contents(s.q)[0];
    }
  }

  /** An unbounded list that is told of the same steps: it takes the arguments of the last push call whenever the
      producer has the lock, has memory and finds fewer than `capacity` packets waiting in an unfinished queue, and
      forgets one whenever the consumer has the lock and finds any. */
  datatype Told = Told(call: (int, seq<byte>), taken: seq<(int, seq<byte>)>, gone: nat, finished: bool)

  function Tell(capacity: nat, steps: seq<Step>): Told {
    if steps == [] then Told((0, []), [], 0, false)
    else TellOne(capacity, Tell(capacity, steps[..|steps| - 1]), steps[|steps| - 1])
  }

  function TellOne(capacity: nat, t: Told, step: Step): Told {
    match step
    case CallPush(pts, data) => t.(call := (pts, data))
    case LockPush(mallocOk) =>
      if mallocOk && !t.finished && |t.taken| - t.gone < capacity then t.(taken := t.taken + [t.call]) else t
    case LockPop => if t.gone < |t.taken| then t.(gone := t.gone + 1) else t
    case Finish => t.(finished := true)
    case _ => t
  }

  /** What the caller handed over. */
  function Given(p: Packet): (int, seq<byte>) {
    (p.pts, p.data)
  }

  ghost predicate AsTold(s: State, t: Told) {
    && s.offer == t.call && s.q.finished == t.finished
    && |s.pushed| == |t.taken| && (forall i :: 0 <= i < |s.pushed| ==> Given(s.pushed[i]) == t.taken[i])
    && |s.popped| == t.gone && s.popped <= s.pushed
  }

  /** After every run the packets pushed carry the timestamps and data of exactly the calls that list took, in order,
      and those popped are the first of them. */
  lemma {:induction false} RunIsTold(capacity: nat, steps: seq<Step>)
    requires Run(Start(capacity), steps).Some?
    ensures AsTold(Run(Start(capacity), steps).value, Tell(capacity, steps))
  {
    if steps != [] {
      var front := steps[..|steps| - 1];
      RunIsTold(capacity, front);
      RunInv(capacity, front);
      StepIsTold(capacity, Run(Start(capacity), front).value, Tell(capacity, front), steps[|steps| - 1]);
    }
  }

  lemma StepIsTold(capacity: nat, s: State, t: Told, step: Step)
    requires Inv(s) && |s.q.packets| == capacity && AsTold(s, t) && Enabled(s, step)
    ensures AsTold(Next(s, step), TellOne(capacity, t, step))
  {
    StoredIsRest(s);
    if step.LockPop? && s.q.count > 0 {
      FetchShape(s.q);
      assert s.pushed[|s.popped|] == Contents(s.q)[0];
    }
  }

  /** Once finished, always finished: no step stores another packet and nobody is left waiting. */
  lemma FinishedRefuses(capacity: nat, steps: seq<Step>, step: Step)
    requires Run(Start(capacity), steps).Some? && Run(Start(capacity), steps).value.q.finished
    requires Enabled(Run(Start(capacity), steps).value, step)
    ensures var s := Run(Start(capacity), steps).value;
            && Next(s, step).q.finished && Next(s, step).pushed == s.pushed
            && !s.producer.Asleep? && !s.consumer.Asleep?
  {
    RunInv(capacity, steps);
  }

  /** How often the consumer gets to run its critical section. */
  function Pops(steps: seq<Step>): nat {
    if steps == [] then 0 else Pops(steps[..|steps| - 1]) + if steps[|steps| - 1].LockPop? then 1 else 0
  }

  /** Once finished, whatever happens next, each turn of the consumer takes the next packet until none is left, and
      none is added: as many turns as packets stored drain the queue completely. */
  lemma {:induction false} FinishedDrains(capacity: nat, steps: seq<Step>, s: State, more: seq<Step>, t: State)
    requires Run(Start(capacity), steps) == Some(s) && s.q.finished && Run(s, more) == Some(t)
    ensures t.q.finished && t.pushed == s.pushed && t.popped <= t.pushed
    ensures |t.popped| == Min(|s.popped| + Pops(more), |s.pushed|)
    ensures Pops(more) >= s.q.count ==> t.popped == s.pushed && t.q.count == 0
  {
    RunInv(capacity, steps);
    DrainsCompletely(s, more, t);
  }

  lemma {:induction false} DrainsCompletely(s: State, more: seq<Step>, t: State)
    requires Inv(s) && s.q.finished && Run(s, more) == Some(t)
    ensures t.q.finished && t.pushed == s.pushed && t.popped <= t.pushed
    ensures |t.popped| == Min(|s.popped| + Pops(more), |s.pushed|)
    ensures Pops(more) >= s.q.count ==> t.popped == s.pushed && t.q.count == 0
  {
    DrainsFrom(s, more, t);
    RunKeepsInv(s, more);
    StoredIsRest(s);
    StoredIsRest(t);
    assert t.popped == t.pushed[..|t.popped|];
  }

  lemma StoredIsRest(s: State)
    requires Inv(s)
    ensures s.popped <= s.pushed && |s.pushed| - |s.popped| == s.q.count && (s.q.count == 0 ==> s.popped == s.pushed)
  {
  }

  ghost predicate Counted(s: State) {
    Fits(s.q) && |s.popped| + s.q.count == |s.pushed|
  }

  /** After `pops` turns of the consumer. */
  ghost predicate Drained(s: State, pops: nat, t: State) {
    Counted(t) && t.q.finished && t.pushed == s.pushed && |t.popped| == Min(|s.popped| + pops, |s.pushed|)
  }

  lemma {:induction false} DrainsFrom(s: State, more: seq<Step>, t: State)
    requires Counted(s) && s.q.finished && Run(s, more) == Some(t)
    ensures Drained(s, Pops(more), t)
  {
    if more != [] {
      var front, last := more[..|more| - 1], more[|more| - 1];
      var before := Run(s, front).value;
      DrainsFrom(s, front, before);
      DrainsOnce(s, Pops(front), before, last, Pops(more));
    }
  }

  lemma DrainsOnce(s: State, pops: nat, t: State, step: Step, pops': nat)
    requires Drained(s, pops, t) && Enabled(t, step) && pops' == pops + if step.LockPop? then 1 else 0
    ensures Drained(s, pops', Next(t, step))
  {
    FinishedStep(t, step);
  }

  lemma FinishedStep(s: State, step: Step)
    requires Counted(s) && s.q.finished && Enabled(s, step)
    ensures var t := Next(s, step);
            Counted(t) && t.q.finished && t.pushed == s.pushed
            && |t.popped| == |s.popped| + if step.LockPop? && |s.popped| < |s.pushed| then 1 else 0
  {
    if step.LockPop? && s.q.count > 0 {
      FetchShape(s.q);
    }
  }

  function PopCalls(n: nat): seq<Step> {
    if n == 0 then [] else PopCalls(n - 1) + [CallPop, LockPop]
  }

  /** Such a continuation always exists: one pop call per stored packet. */
  lemma FinishedCanDrain(capacity: nat, steps: seq<Step>)
    requires Run(Start(capacity), steps).Some?
    requires Run(Start(capacity), steps).value.q.finished && Run(Start(capacity), steps).value.consumer.Out?
    ensures var s := Run(Start(capacity), steps).value;
            var t := Run(s, PopCalls(s.q.count));
            t.Some? && t.value.q.count == 0 && t.value.popped == s.pushed == t.value.pushed
  {
    RunInv(capacity, steps);
    var s := Run(Start(capacity), steps).value;
    DrainFrom(s, s.q.count);
    StoredIsRest(Run(s, PopCalls(s.q.count)).value);
  }

  ghost predicate DrainedBy(s: State, t: State, n: nat) {
    Inv(t) && t.q.finished && t.consumer.Out? && t.q.count == s.q.count - n && t.pushed == s.pushed
  }

  lemma {:induction false} DrainFrom(s: State, n: nat)
    requires Inv(s) && s.q.finished && s.consumer.Out? && n <= s.q.count
    ensures Run(s, PopCalls(n)).Some? && DrainedBy(s, Run(s, PopCalls(n)).value, n)
  {
    if n > 0 {
      DrainFrom(s, n - 1);
      var before := PopCalls(n - 1);
      var t := Run(s, before).value;
      PopOnce(t);
      RunSnoc(s, before, t, CallPop);
      RunSnoc(s, before + [CallPop], Next(t, CallPop), LockPop);
      assert PopCalls(n) == before + [CallPop] + [LockPop];
    }
  }

  lemma PopOnce(s: State)
    requires Inv(s) && s.q.finished && s.consumer.Out? && s.q.count > 0
    ensures Enabled(s, CallPop) && Enabled(Next(s, CallPop), LockPop)
    ensures DrainedBy(s, Next(Next(s, CallPop), LockPop), 1)
  {
    StepKeepsInv(s, CallPop);
    StepKeepsInv(Next(s, CallPop), LockPop);
  }

  lemma RunSnoc(d: State, steps: seq<Step>, s: State, step: Step)
    requires Run(d, steps) == Some(s) && Enabled(s, step)
    ensures Run(d, steps + [step]) == Some(Next(s, step))
  {
    assert (steps + [step])[..|steps|] == steps;
  }

  // Buffers

  function Buffers(ps: seq<Packet>): seq<nat> {
    seq(|ps|, i requires 0 <= i < |ps| => ps[i].buffer)
  }

  /** Destroying the queue after any run frees exactly the buffers still stored: with those handed to the
      consumer they are all that were ever allocated, each once. */
  lemma {:induction false} EveryBufferOnce(capacity: nat, steps: seq<Step>)
    requires Run(Start(capacity), steps).Some?
    ensures var s := Run(Start(capacity), steps).value;
            Fits(s.q) && Buffers(s.popped) + Buffers(Contents(s.q)) == seq(s.mallocs, i => i)
  {
    RunInv(capacity, steps);
    BuffersInOrder(Run(Start(capacity), steps).value);
  }

  lemma BuffersInOrder(s: State)
    requires Inv(s)
    ensures Buffers(s.popped) + Buffers(Contents(s.q)) == seq(s.mallocs, i => i)
  {
    var all := Buffers(s.popped) + Buffers(Contents(s.q));
    forall i | 0 <= i < |all|
      ensures all[i] == i
    {
      assert s.pushed[i].buffer == i;
    }
  }

  // The queue object

  datatype Outcome = MustWait | Refused | Done(p: Packet)

  class PacketRing {
    const packets: array<Packet>
    var head: nat
    var tail: nat
    var count: nat
    var finished: bool

    ghost function Value(): Queue
      reads this, packets
    {
      Queue(packets[..], head, tail, count, finished)
    }

    ghost predicate Valid()
      reads this, packets
    {
      Fits(Value())
    }

    constructor (capacity: nat)
      ensures Valid() && fresh(packets) && Value() == Start(capacity).q
    {
      packets := new Packet[capacity](_ => Packet(0, 0, []));
      head, tail, count, finished := 0, 0, 0, false;
      new;
      assert packets[..] == Start(capacity).q.packets;
    }

    /** `packet_queue_push` holding the lock: one pass from the loop test to the wait or the return. */
    method PushLocked(pts: int, data: seq<byte>, mallocOk: bool, buffer: nat) returns (r: Outcome)
      requires Valid()
      modifies this, packets
      ensures Valid()
      ensures r.MustWait? <==> old(count) == packets.Length && !old(finished)
      ensures r.Done? <==> old(count) < packets.Length && !old(finished) && mallocOk
      ensures if r.Done? then r.p == Packet(buffer, pts, data) && Value() == Store(old(Value()), r.p)
                              && Contents(Value()) == old(Contents(Value())) + [r.p]
              else Value() == old(Value())
    {
      if count >= packets.Length && !finished {
        return MustWait;
      }
      if finished || !mallocOk {
        return Refused;
      }
      ghost var q := Value();
      r := Done(Packet(buffer, pts, data));
      StoreShape(q, r.p);
      packets[tail] := r.p;
      tail := (tail + 1) % packets.Length;
      count := count + 1;
      assert Value() == Store(q, r.p);
    }

    /** `packet_queue_pop` holding the lock. */
    method PopLocked() returns (r: Outcome)
      requires Valid()
      modifies this
      ensures Valid()
      ensures r.MustWait? <==> old(count) == 0 && !old(finished)
      ensures r.Done? <==> old(count) > 0
      ensures if r.Done? then Value() == Fetch(old(Value())) && old(Contents(Value())) == [r.p] + Contents(Value())
              else Value() == old(Value())
    {
      if count == 0 && !finished {
        return MustWait;
      }
      if count == 0 {
        return Refused;
      }
      ghost var q := Value();
      FetchShape(q);
      r := Done(packets[head]);
      head := (head + 1) % packets.Length;
      count := count - 1;
      assert Value() == Fetch(q);
    }

    method FinishLocked()
      requires Valid()
      modifies this`finished
      ensures Valid() && Value() == old(Value()).(finished := true)
    {
      finished := true;
    }

    /** The freeing loop of `packet_queue_destroy`: the buffers it frees, in order. */
    method Destroy() returns (freed: seq<nat>)
      requires Valid()
      ensures freed == Buffers(Contents(Value()))
    {
      freed := [];
      ghost var stored := Contents(Value());
      for i := 0 to count
        invariant freed == Buffers(stored)[..i]
      {
        var idx := (head + i) % packets.Length;
        Ring.ModIsWrap(head + i, packets.Length);
        Ring.ContentsAt(packets[..], head, count, i);
        assert packets[idx] == stored[i] && Buffers(stored)[..i + 1] == Buffers(stored)[..i] + [stored[i].buffer];
        freed := freed + [packets[idx].buffer];
      }
    }
  }
}
