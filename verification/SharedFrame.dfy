/** The latest-frame slot between the decoder and the renderer (`pipeline/pipeline.h`): a pointer and a ready
    word, each changed by its own Interlocked operation, with one producer and one consumer interleaving. */
module SharedFrame {
  import opened Bytes

  /** A frame, numbered in submission order. */
  type Frame = nat

  datatype Slot = Slot(current: Option<Frame>, ready: nat)

  /** `Swapped`: between the pointer swap and setting ready. `Freeing`: ready is set, the old frame is still to be
      freed. */
  datatype Producer = Idle | Swapped(prior: Option<Frame>) | Freeing(frame: Frame)

  /** `Claimed`: between the successful compare-exchange and the pointer swap. */
  datatype Consumer = Waiting | Claimed

  /** `submitted` frames so far; `seen`: what acquire has returned; `held`: the consumer's frames not yet freed;
      `dropped` and `released`: frames freed by the producer and by the consumer. */
  datatype State = State(
    slot: Slot, producer: Producer, consumer: Consumer, submitted: nat,
    seen: seq<Frame>, held: set<Frame>, dropped: seq<Frame>, released: seq<Frame>)

  datatype Step = Swap | SetReady | FreeOld | Claim | TakeFrame | FreeHeld(f: Frame)

  const START := State(Slot(None, 0), Idle, Waiting, 0, [], {}, [], [])

  predicate Enabled(s: State, step: Step) {
    match step
    case Swap => s.producer.Idle?
    case SetReady => s.producer.Swapped?
    case FreeOld => s.producer.Freeing?
    case Claim => s.consumer.Waiting? && s.slot.ready == 1
    case TakeFrame => s.consumer.Claimed?
    case FreeHeld(f) => f in s.held
  }

  function Next(s: State, step: Step): State
    requires Enabled(s, step)
  {
    match step
    case Swap =>
      s.(slot := s.slot.(current := Some(s.submitted)), producer := Swapped(s.slot.current),
         submitted := s.submitted + 1)
    case SetReady =>
      s.(slot := s.slot.(ready := 1),
         producer := if s.producer.prior.Some? then Freeing(s.producer.prior.value) else Idle)
    case FreeOld => s.(producer := Idle, dropped := s.dropped + [s.producer.frame])
    case Claim => s.(slot := s.slot.(ready := 0), consumer := Claimed)
    case TakeFrame =>
      var s' := s.(slot := s.slot.(current := None), consumer := Waiting);
      if s.slot.current.None? then s'
      else s'.(seen := s.seen + [s.slot.current.value], held := s.held + {s.slot.current.value})
    case FreeHeld(f) => s.(held := s.held - {f}, released := s.released + [f])
  }

  function Run(steps: seq<Step>): Option<State> {
    if steps == [] then Some(START)
    else
      var before := Run(steps[..|steps| - 1]);
      if before.Some? && Enabled(before.value, steps[|steps| - 1])
      then Some(Next(before.value, steps[|steps| - 1])) else None
  }

  // Ownership

  function One(b: bool): nat {
    if b then 1 else 0
  }

  /** How many places hold a frame: the slot, the producer's `prior`, the consumer, and the frees of either side. */
  function Places(s: State, f: Frame): nat {
    One(s.slot.current == Some(f))
    + One(s.producer == Swapped(Some(f)) || s.producer == Freeing(f))
    + One(f in s.held)
    + multiset(s.dropped)[f] + multiset(s.released)[f]
  }

  ghost predicate Inv(s: State) {
    && s.slot.ready <= 1
    && (forall f: Frame {:trigger Places(s, f)} :: Places(s, f) == One(f < s.submitted))
    && (s.slot.current.Some? ==> s.slot.current.value == s.submitted - 1)
    && (forall i :: 0 <= i < |s.seen| ==> s.seen[i] < s.submitted && s.slot.current != Some(s.seen[i]))
    && (forall i, j :: 0 <= i < j < |s.seen| ==> s.seen[i] < s.seen[j])
    && (forall f: Frame :: f in s.seen <==> f in s.held || f in s.released)
    && (s.slot.current.Some? ==> s.slot.ready == 1 || s.producer.Swapped? || s.consumer.Claimed?)
  }

  lemma StepKeepsInv(s: State, step: Step)
    requires Inv(s) && Enabled(s, step)
    ensures Inv(Next(s, step))
  {
    var s' := Next(s, step);
    forall f: Frame
      ensures Places(s', f) == One(f < s'.submitted)
    {
      assert Places(s, f) == One(f < s.submitted);
    }
    if step.TakeFrame? && s.slot.current.Some? {
      var c := s.slot.current.value;
      assert forall i :: 0 <= i < |s.seen| ==> s.seen[i] < c;
    }
  }

  lemma {:induction false} RunInv(steps: seq<Step>)
    requires Run(steps).Some?
    ensures Inv(Run(steps).value)
  {
    if steps != [] {
      RunInv(steps[..|steps| - 1]);
      StepKeepsInv(Run(steps[..|steps| - 1]).value, steps[|steps| - 1]);
    }
  }

  /** After every run each submitted frame is in exactly one place: the slot, the producer, the consumer, or freed
      once. */
  lemma {:induction false} OneOwner(steps: seq<Step>, f: Frame)
    requires Run(steps).Some?
    ensures var s := Run(steps).value; Places(s, f) == if f < s.submitted then 1 else 0
  {
    RunInv(steps);
  }

  /** No step frees a frame a second time, and no step hands out a frame that has been freed. */
  lemma NoDoubleFree(steps: seq<Step>, step: Step)
    requires Run(steps).Some? && Enabled(Run(steps).value, step)
    ensures var s := Run(steps).value;
            && (step.FreeOld? ==>
                  var f := s.producer.frame; f !in s.dropped && f !in s.released && f !in s.held)
            && (step.FreeHeld? ==> step.f !in s.dropped && step.f !in s.released)
            && (step.TakeFrame? && s.slot.current.Some? ==>
                  var f := s.slot.current.value; f !in s.dropped && f !in s.released && f !in s.held && f !in s.seen)
  {
    RunInv(steps);
    var s := Run(steps).value;
    match step {
      case FreeOld => assert Places(s, s.producer.frame) <= 1;
      case FreeHeld(f) => assert Places(s, f) <= 1;
      case TakeFrame =>
        if s.slot.current.Some? {
          assert Places(s, s.slot.current.value) <= 1;
        }
      case _ =>
    }
  }

  /** The consumer sees frames in strictly increasing submission order, each the newest swapped in when taken. */
  lemma SeenInOrder(steps: seq<Step>)
    requires Run(steps).Some?
    ensures var s := Run(steps).value;
            && (forall i, j :: 0 <= i < j < |s.seen| ==> s.seen[i] < s.seen[j])
            && (Enabled(s, TakeFrame) ==>
                  var seen := Next(s, TakeFrame).seen;
                  seen == s.seen || seen == s.seen + [s.submitted - 1])
  {
    RunInv(steps);
  }

  /** Every frame is seen by the consumer or freed by the producer, never both: none is lost and none leaks
      once the two sides are at rest and the consumer has freed what it holds. */
  lemma SeenOrDropped(steps: seq<Step>, f: Frame)
    requires Run(steps).Some? && Run(steps).value.producer.Idle? && f < Run(steps).value.submitted
    ensures var s := Run(steps).value;
            && (s.slot.current == Some(f) || f in s.seen || f in s.dropped)
            && !(f in s.seen && f in s.dropped)
            && (s.held == {} && s.slot.current != Some(f) ==> multiset(s.dropped)[f] + multiset(s.released)[f] == 1)
  {
    RunInv(steps);
    var s := Run(steps).value;
    assert Places(s, f) == 1;
    assert f in s.seen <==> f in s.held || f in s.released;
  }

  /** A frame in the slot is never stranded: the ready word is set, or a side is between its two steps. */
  lemma {:induction false} NeverStranded(steps: seq<Step>)
    requires Run(steps).Some?
    ensures var s := Run(steps).value;
            s.slot.current.Some? ==> s.slot.ready == 1 || s.producer.Swapped? || s.consumer.Claimed?
  {
    RunInv(steps);
  }

  /** With both sides between calls, an acquire returns the newest frame exactly when the slot is not empty; with
      an empty slot it returns nothing and, whether or not the ready word was set, leaves the slot ready for the next
      frame. */
  lemma AcquireFindsNewest(steps: seq<Step>)
    requires Run(steps).Some?
    requires !Run(steps).value.producer.Swapped? && Run(steps).value.consumer.Waiting?
    ensures var s := Run(steps).value;
            && (s.slot.current.Some? ==>
                  Enabled(s, Claim) && Next(Next(s, Claim), TakeFrame).seen == s.seen + [s.submitted - 1])
            && (s.slot.current.None? && Enabled(s, Claim) ==>
                  var t := Next(Next(s, Claim), TakeFrame); t == s.(slot := Slot(None, 0)))
  {
    RunInv(steps);
  }

  // The slot object

  class SharedSlot {
    var current: Option<Frame>
    var ready: nat

    ghost function Value(): Slot
      reads this
    {
      Slot(current, ready)
    }

    constructor ()
      ensures Value() == START.slot
    {
      current, ready := None, 0;
    }

    method ExchangeCurrent(frame: Option<Frame>) returns (prior: Option<Frame>)
      modifies this`current
      ensures prior == old(current) && current == frame
    {
      prior := current;
      current := frame;
    }

    method CompareExchangeReady(value: nat, comparand: nat) returns (was: nat)
      modifies this`ready
      ensures was == old(ready) && ready == if old(ready) == comparand then value else old(ready)
    {
      was := ready;
      if ready == comparand {
        ready := value;
      }
    }

    /** `shared_frame_submit`, uninterrupted: the two producer steps, and the frame to free, if any. */
    method Submit(frame: Frame, ghost s: State) returns (toFree: Option<Frame>)
      requires s.slot == Value() && s.producer.Idle? && frame == s.submitted
      modifies this
      ensures var s' := Next(Next(s, Swap), SetReady);
              Value() == s'.slot && s'.producer == (if toFree.Some? then Freeing(toFree.value) else Idle)
    {
      toFree := ExchangeCurrent(Some(frame));
      ready := 1;
    }

    /** `shared_frame_acquire`, uninterrupted: nothing without the ready word, otherwise the two consumer steps. */
    method Acquire(ghost s: State) returns (frame: Option<Frame>)
      requires s.slot == Value() && s.consumer.Waiting? && ready <= 1
      modifies this
      ensures if !Enabled(s, Claim) then frame.None? && Value() == s.slot
              else
                var s' := Next(Next(s, Claim), TakeFrame);
                Value() == s'.slot && s'.seen == s.seen + (if frame.Some? then [frame.value] else [])
    {
      var was := CompareExchangeReady(0, 1);
      if was == 0 {
        return None;
      }
      frame := ExchangeCurrent(None);
    }
  }
}
