/** The two threads that write to the ADB connection under one lock (`device/server.c`): the reader thread
    acknowledges, the control sender forwards input. Sends move arbitrary pieces and may give up early. */
module Outbound {
  import opened Bytes
  import opened Framing
  import opened Transport

  datatype Thread = Reader | Control

  /** A finished turn with the lock: how many bytes of the message went out before the send returned. */
  datatype Turn = Turn(who: Thread, m: Message, emitted: nat)

  datatype State = State(
    wire: seq<byte>,
    holder: Option<Thread>,
    emitted: nat,
    todo: map<Thread, seq<Message>>,
    turns: seq<Turn>)

  datatype Step =
    | Acquire(t: Thread)   // EnterCriticalSection
    | Emit(n: nat)         // one send call that takes n bytes
    | Release              // the send returned, with or without success; LeaveCriticalSection

  function Start(program: map<Thread, seq<Message>>): State {
    State([], None, 0, program, [])
  }

  ghost predicate WellFormed(s: State) {
    && (forall t: Thread :: t in s.todo)
    && (s.holder.Some? ==> s.todo[s.holder.value] != [] && s.emitted <= FrameLength(Current(s)))
  }

  function Current(s: State): Message
    requires s.holder.Some? && s.holder.value in s.todo && s.todo[s.holder.value] != []
  {
    s.todo[s.holder.value][0]
  }

  /** What the lock holder has put on the wire of its current message. */
  ghost function InFlight(s: State): seq<byte>
    requires WellFormed(s)
  {
    if s.holder.Some? then Encode(Current(s))[..s.emitted] else []
  }

  ghost predicate Enabled(s: State, step: Step)
    requires WellFormed(s)
  {
    match step
    case Acquire(t) => s.holder.None? && s.todo[t] != []
    case Emit(n) => s.holder.Some? && 0 < n <= FrameLength(Current(s)) - s.emitted
    case Release => s.holder.Some?
  }

  ghost function Next(s: State, step: Step): State
    requires WellFormed(s) && Enabled(s, step)
  {
    match step
    case Acquire(t) => s.(holder := Some(t), emitted := 0)
    case Emit(n) => s.(wire := s.wire + Encode(Current(s))[s.emitted..s.emitted + n], emitted := s.emitted + n)
    case Release =>
      var t := s.holder.value;
      s.(holder := None, emitted := 0, todo := s.todo[t := s.todo[t][1..]],
         turns := s.turns + [Turn(t, Current(s), s.emitted)])
  }

  /** A run from `Start(program)` that ends in `s`. */
  ghost predicate Reaches(program: map<Thread, seq<Message>>, steps: seq<Step>, s: State)
    decreases |steps|
  {
    if steps == [] then (forall t: Thread :: t in program) && s == Start(program)
    else
      var last := steps[|steps| - 1];
      exists before: State {:trigger Reaches(program, steps[..|steps| - 1], before)} ::
        && Reaches(program, steps[..|steps| - 1], before)
        && WellFormed(before) && Enabled(before, last) && s == Next(before, last)
  }

  // What the turns say

  function Piece(u: Turn): seq<byte> {
    Encode(u.m)[..Min(u.emitted, FrameLength(u.m))]
  }

  function Pieces(turns: seq<Turn>): seq<byte> {
    if turns == [] then [] else Pieces(turns[..|turns| - 1]) + Piece(turns[|turns| - 1])
  }

  /** The messages of which anything went out, in lock order. */
  function Sent(turns: seq<Turn>): seq<Message> {
    if turns == [] then []
    else Sent(turns[..|turns| - 1]) + if turns[|turns| - 1].emitted > 0 then [turns[|turns| - 1].m] else []
  }

  /** The messages of one thread, in lock order. */
  function Of(turns: seq<Turn>, t: Thread): seq<Message> {
    if turns == [] then []
    else Of(turns[..|turns| - 1], t) + if turns[|turns| - 1].who == t then [turns[|turns| - 1].m] else []
  }

  /** Every send that gave up did so before its first byte. */
  ghost predicate NothingCut(turns: seq<Turn>) {
    forall i :: 0 <= i < |turns| ==> turns[i].emitted == 0 || turns[i].emitted >= FrameLength(turns[i].m)
  }

  ghost predicate Inv(program: map<Thread, seq<Message>>, s: State) {
    && WellFormed(s)
    && (forall t: Thread :: t in program && Of(s.turns, t) + s.todo[t] == program[t])
    && s.wire == Pieces(s.turns) + InFlight(s)
    && (forall i :: 0 <= i < |s.turns| ==> s.turns[i].emitted <= FrameLength(s.turns[i].m))
  }

  lemma StepKeepsInv(program: map<Thread, seq<Message>>, s: State, step: Step)
    requires Inv(program, s) && Enabled(s, step)
    ensures Inv(program, Next(s, step))
  {
    match step {
      case Acquire(t) =>
        assert Encode(Current(Next(s, step)))[..0] == [];
      case Emit(n) => EmitKeepsInv(program, s, n);
      case Release => ReleaseKeepsInv(program, s);
    }
  }

  lemma EmitKeepsInv(program: map<Thread, seq<Message>>, s: State, n: nat)
    requires Inv(program, s) && Enabled(s, Emit(n))
    ensures Inv(program, Next(s, Emit(n)))
  {
    var frame := Encode(Current(s));
    assert Encode(Current(Next(s, Emit(n)))) == frame;
    assert frame[..s.emitted] + frame[s.emitted..s.emitted + n] == frame[..s.emitted + n];
    Associative(Pieces(s.turns), frame[..s.emitted], frame[s.emitted..s.emitted + n]);
  }

  lemma ReleaseKeepsInv(program: map<Thread, seq<Message>>, s: State)
    requires Inv(program, s) && s.holder.Some?
    ensures Inv(program, Next(s, Release))
  {
    var s' := Next(s, Release);
    ReleaseKeepsWire(s);
    forall r: Thread
      ensures Of(s'.turns, r) + s'.todo[r] == program[r]
    {
      ReleaseKeepsOrder(s, r);
      assert Of(s.turns, r) + s.todo[r] == program[r];
    }
  }

  lemma ReleaseKeepsWire(s: State)
    requires WellFormed(s) && s.holder.Some? && s.wire == Pieces(s.turns) + InFlight(s)
    ensures var s' := Next(s, Release); WellFormed(s') && s'.wire == Pieces(s'.turns) + InFlight(s')
  {
    TurnsSnoc(s.turns, Turn(s.holder.value, Current(s), s.emitted));
  }

  /** A finished message moves from what a thread has to do to what it has done. */
  lemma ReleaseKeepsOrder(s: State, r: Thread)
    requires WellFormed(s) && s.holder.Some?
    ensures var s' := Next(s, Release);
            r in s'.todo && Of(s'.turns, r) + s'.todo[r] == Of(s.turns, r) + s.todo[r]
  {
    TurnsSnoc(s.turns, Turn(s.holder.value, Current(s), s.emitted));
    MoveFirst(Of(s.turns, s.holder.value), s.todo[s.holder.value]);
  }

  lemma MoveFirst<T>(a: seq<T>, b: seq<T>)
    requires b != []
    ensures a + b == a + [b[0]] + b[1..]
  {
  }

  lemma TurnsSnoc(turns: seq<Turn>, u: Turn)
    ensures Pieces(turns + [u]) == Pieces(turns) + Piece(u)
    ensures Sent(turns + [u]) == Sent(turns) + if u.emitted > 0 then [u.m] else []
    ensures forall t: Thread :: Of(turns + [u], t) == if u.who == t then Of(turns, t) + [u.m] else Of(turns, t)
  {
    assert (turns + [u])[..|turns|] == turns;
    assert forall t: Thread :: Of(turns, t) + [] == Of(turns, t);
  }

  lemma {:induction false} ReachesInv(program: map<Thread, seq<Message>>, steps: seq<Step>, s: State)
    requires Reaches(program, steps, s)
    ensures Inv(program, s)
    decreases |steps|
  {
    if steps != [] {
      var before: State :| Reaches(program, steps[..|steps| - 1], before) && WellFormed(before)
        && Enabled(before, steps[|steps| - 1]) && s == Next(before, steps[|steps| - 1]);
      ReachesInv(program, steps[..|steps| - 1], before);
      StepKeepsInv(program, before, steps[|steps| - 1]);
    }
  }

  lemma SentStep(front: seq<Turn>, u: Turn)
    ensures EncodeAll(Sent(front + [u])) == EncodeAll(Sent(front)) + if u.emitted > 0 then Encode(u.m) else []
  {
    TurnsSnoc(front, u);
    EncodeAllSnoc(Sent(front), u.m);
    assert Sent(front) + [] == Sent(front);
  }

  lemma {:induction false} PiecesLength(turns: seq<Turn>)
    requires forall i :: 0 <= i < |turns| ==> turns[i].emitted <= FrameLength(turns[i].m)
    ensures |Pieces(turns)| <= |EncodeAll(Sent(turns))|
    ensures |Pieces(turns)| == |EncodeAll(Sent(turns))| ==> NothingCut(turns)
  {
    if turns != [] {
      var front, u := turns[..|turns| - 1], turns[|turns| - 1];
      PiecesLength(front);
      SentStep(front, u);
      assert turns == front + [u];
      assert |Pieces(turns)| == |Pieces(front)| + u.emitted;
    }
  }

  lemma {:induction false} PiecesWhole(turns: seq<Turn>)
    requires NothingCut(turns)
    ensures Pieces(turns) == EncodeAll(Sent(turns))
  {
    if turns != [] {
      var front, u := turns[..|turns| - 1], turns[|turns| - 1];
      PiecesWhole(front);
      SentStep(front, u);
      assert turns == front + [u];
      assert Piece(u) == if u.emitted > 0 then Encode(u.m) else [];
    }
  }

  /** Whenever the lock is free, the wire parses to exactly the messages sent, in lock order, if and only if
      no send gave up in the middle of a message. */
  lemma WireParsesIffNothingCut(program: map<Thread, seq<Message>>, steps: seq<Step>, s: State, maxPayload: nat)
    requires Reaches(program, steps, s) && s.holder.None?
    requires forall i :: 0 <= i < |s.turns| ==> |s.turns[i].m.payload| <= maxPayload
    ensures ParseAll(s.wire, maxPayload, true) == Some(Sent(s.turns)) <==> NothingCut(s.turns)
  {
    ReachesInv(program, steps, s);
    assert s.wire == Pieces(s.turns);
    PiecesLength(s.turns);
    if NothingCut(s.turns) {
      PiecesWhole(s.turns);
    }
    SentPayloads(s.turns, maxPayload);
    ParseAllIffEncodeAll(s.wire, Sent(s.turns), maxPayload, true);
  }

  /** The messages of all turns. */
  function Offered(turns: seq<Turn>): (ms: seq<Message>)
    ensures |ms| == |turns|
  {
    if turns == [] then [] else Offered(turns[..|turns| - 1]) + [turns[|turns| - 1].m]
  }

  ghost predicate AllWhole(turns: seq<Turn>) {
    forall i :: 0 <= i < |turns| ==> turns[i].emitted >= FrameLength(turns[i].m)
  }

  lemma {:induction false} OfferedLength(turns: seq<Turn>)
    ensures |Pieces(turns)| <= |EncodeAll(Offered(turns))|
    ensures |Pieces(turns)| == |EncodeAll(Offered(turns))| <==> AllWhole(turns)
    ensures AllWhole(turns) ==> Pieces(turns) == EncodeAll(Offered(turns))
  {
    if turns != [] {
      var front, u := turns[..|turns| - 1], turns[|turns| - 1];
      OfferedLength(front);
      EncodeAllSnoc(Offered(front), u.m);
      assert AllWhole(turns) <==> AllWhole(front) && u.emitted >= FrameLength(u.m);
      assert |Piece(u)| == Min(u.emitted, FrameLength(u.m));
    }
  }

  /** The wire parses to every message offered if and only if every send went through. */
  lemma OfferedIffWhole(turns: seq<Turn>, maxPayload: nat)
    requires AllAcceptable(Offered(turns), maxPayload, true)
    ensures ParseAll(Pieces(turns), maxPayload, true) == Some(Offered(turns)) <==> AllWhole(turns)
  {
    OfferedLength(turns);
    ParseAllIffEncodeAll(Pieces(turns), Offered(turns), maxPayload, true);
  }

  lemma {:induction false} SentPayloads(turns: seq<Turn>, maxPayload: nat)
    requires forall i :: 0 <= i < |turns| ==> |turns[i].m.payload| <= maxPayload
    ensures forall i :: 0 <= i < |Sent(turns)| ==> |Sent(turns)[i].payload| <= maxPayload
  {
    if turns != [] {
      SentPayloads(turns[..|turns| - 1], maxPayload);
    }
  }

  /** At every moment of a run in which nothing was cut, the wire is whole messages followed by a prefix of
      the lock holder's message. */
  lemma WholeMessagesThenPrefix(program: map<Thread, seq<Message>>, steps: seq<Step>, s: State)
    requires Reaches(program, steps, s) && NothingCut(s.turns)
    ensures WellFormed(s)
    ensures s.wire == EncodeAll(Sent(s.turns)) + InFlight(s)
  {
    ReachesInv(program, steps, s);
    PiecesWhole(s.turns);
  }

  /** The lock order interleaves the two programs: each thread's messages appear in its own order, none is
      invented, and what is missing is still to do. */
  lemma {:induction false} ThreadOrderKept(program: map<Thread, seq<Message>>, steps: seq<Step>, s: State, t: Thread)
    requires Reaches(program, steps, s)
    ensures t in program && t in s.todo && Of(s.turns, t) + s.todo[t] == program[t]
  {
    ReachesInv(program, steps, s);
  }

  /** The code inside the lock: one send of one message, its result ignored. Its effect on the wire is one turn. */
  method LockedSend(fd: Sink, who: Thread, m: Message) returns (u: Turn)
    requires m.check == 0
    modifies fd
    ensures u.who == who && u.m == m && u.emitted <= FrameLength(m)
    ensures fd.wire == old(fd.wire) + Piece(u)
  {
    var before := |fd.wire|;
    var data := if m.payload == [] then None else Some(m.payload);
    var rc, sent := SendMsg(fd, m.command, m.arg0, m.arg1, data, |m.payload|, true);
    assert PlainFrame(m.command, m.arg0, m.arg1, data, |m.payload|, true) == Encode(m);
    u := Turn(who, m, |fd.wire| - before);
  }
}
