/** Synchronous queries from the script thread to the main thread (`script/bindings.c`, `script/event_dispatch.c`):
    a request queue, a response queue and a timeout, with nothing in a response that names its query.

    Both queues are the bounded FIFOs of module `MessageQueue`; here each one is its contents. */
module ScriptQuery {
  import opened Bytes
  import MessageQueue

  const CAPACITY := MessageQueue.CAPACITY

  datatype Kind = DeviceInfo | VideoSize | WindowSize | Clipboard | FrameCapture

  /** A query or its response. `call` numbers the queries in sending order; the program carries only the kind. */
  datatype Item = Item(kind: Kind, call: nat)

  datatype Request = Query(item: Item) | Command

  /** A completed call: its own number, what it asked, what it got, and how many calls had timed out before. */
  datatype Answer = Answer(call: nat, asked: Kind, got: Item, timeoutsBefore: nat)

  datatype State = State(
    toMain: seq<Request>, responses: seq<Item>, waiting: Option<Item>,
    asked: seq<Kind>, answers: seq<Answer>, timeouts: nat, dropped: nat)

  datatype Step =
    | Fire              // a control command
    | Ask(kind: Kind)   // query_sync up to its wait
    | Process           // the main thread handles one request
    | GetResponse       // the wait of query_sync succeeds
    | TimeOut           // or does not

  const START := State([], [], None, [], [], 0, 0)

  predicate Enabled(s: State, step: Step) {
    match step
    case Fire => s.waiting.None?
    case Ask(_) => s.waiting.None?
    case Process => s.toMain != []
    case GetResponse => s.waiting.Some? && s.responses != []
    case TimeOut => s.waiting.Some?
  }

  function Next(s: State, step: Step): State
    requires Enabled(s, step)
  {
    match step
    case Fire => if |s.toMain| >= CAPACITY then s else s.(toMain := s.toMain + [Command])
    case Ask(kind) =>
      if |s.toMain| >= CAPACITY then s
      else
        var item := Item(kind, |s.asked|);
        s.(toMain := s.toMain + [Query(item)], asked := s.asked + [kind], waiting := Some(item))
    case Process =>
      var rest := s.(toMain := s.toMain[1..]);
      if s.toMain[0].Command? then rest
      else if |s.responses| >= CAPACITY then rest.(dropped := s.dropped + 1)
      else rest.(responses := s.responses + [s.toMain[0].item])
    case GetResponse =>
      s.(responses := s.responses[1..], waiting := None,
         answers := s.answers + [Answer(s.waiting.value.call, s.waiting.value.kind, s.responses[0], s.timeouts)])
    case TimeOut => s.(waiting := None, timeouts := s.timeouts + 1)
  }

  function Run(steps: seq<Step>): Option<State> {
    if steps == [] then Some(START)
    else
      var before := Run(steps[..|steps| - 1]);
      if before.Some? && Enabled(before.value, steps[|steps| - 1])
      then Some(Next(before.value, steps[|steps| - 1])) else None
  }

  /** The queries among the requests. */
  function Queries(requests: seq<Request>): seq<Item> {
    if requests == [] then []
    else QueryOf(requests[0]) + Queries(requests[1..])
  }

  function QueryOf(r: Request): seq<Item> {
    if r.Query? then [r.item] else []
  }

  /** The queries of a log from number `from` on. */
  function From(asked: seq<Kind>, from: nat): seq<Item>
    requires from <= |asked|
  {
    seq(|asked| - from, i requires 0 <= i < |asked| - from => Item(asked[from + i], from + i))
  }

  ghost predicate Inv(s: State) {
    && |s.asked| == |s.answers| + s.timeouts + (if s.waiting.Some? then 1 else 0)
    && (s.waiting.Some? ==> s.asked != [] && s.waiting.value == Item(s.asked[|s.asked| - 1], |s.asked| - 1))
    && |s.responses| + |Queries(s.toMain)| + s.dropped == |s.asked| - |s.answers|
    && |s.responses| <= CAPACITY
    && (s.dropped > 0 ==> s.timeouts >= CAPACITY)
    && (s.dropped == 0 ==> s.responses + Queries(s.toMain) == From(s.asked, |s.answers|))
    && (s.dropped == 0 ==> forall j :: 0 <= j < |s.answers| ==> AnswerInOrder(s, j))
  }

  /** The j-th answer is that of the j-th query, and lags its own call by the timeouts before it. */
  ghost predicate AnswerInOrder(s: State, j: nat)
    requires j < |s.answers|
  {
    var a := s.answers[j];
    && a.call == j + a.timeoutsBefore && a.call < |s.asked| && a.asked == s.asked[a.call]
    && a.got == Item(s.asked[j], j)
  }

  lemma {:induction false} QueriesSnoc(requests: seq<Request>, r: Request)
    ensures Queries(requests + [r]) == Queries(requests) + QueryOf(r)
  {
    if requests == [] {
      assert (requests + [r])[1..] == [];
    } else {
      assert (requests + [r])[1..] == requests[1..] + [r];
      QueriesSnoc(requests[1..], r);
    }
  }

  lemma StepKeepsInv(s: State, step: Step)
    requires Inv(s) && Enabled(s, step)
    ensures Inv(Next(s, step))
  {
    match step {
      case Fire =>
        QueriesSnoc(s.toMain, Command);
        forall j | 0 <= j < |s.answers| && s.dropped == 0
          ensures AnswerInOrder(Next(s, Fire), j)
        {
          assert AnswerInOrder(s, j);
        }
      case Ask(kind) => AskKeepsInv(s, kind);
      case Process => ProcessKeepsInv(s);
      case GetResponse => GetKeepsInv(s);
      case TimeOut =>
        forall j | 0 <= j < |s.answers| && s.dropped == 0
          ensures AnswerInOrder(Next(s, TimeOut), j)
        {
          assert AnswerInOrder(s, j);
        }
    }
  }

  lemma AskKeepsInv(s: State, kind: Kind)
    requires Inv(s) && Enabled(s, Ask(kind))
    ensures Inv(Next(s, Ask(kind)))
  {
    var item := Item(kind, |s.asked|);
    QueriesSnoc(s.toMain, Query(item));
    if s.dropped == 0 {
      assert From(s.asked + [kind], |s.answers|) == From(s.asked, |s.answers|) + [item];
      assert s.responses + (Queries(s.toMain) + [item]) == s.responses + Queries(s.toMain) + [item];
      var s' := Next(s, Ask(kind));
      forall j | 0 <= j < |s'.answers|
        ensures AnswerInOrder(s', j)
      {
        assert AnswerInOrder(s, j);
      }
    }
  }

  lemma ProcessKeepsInv(s: State)
    requires Inv(s) && s.toMain != []
    ensures Inv(Next(s, Process))
  {
    var s' := Next(s, Process);
    if s.toMain[0].Query? {
      var item := s.toMain[0].item;
      assert s.responses + ([item] + Queries(s.toMain[1..])) == s.responses + [item] + Queries(s.toMain[1..]);
    }
    if s'.dropped == 0 {
      forall j | 0 <= j < |s'.answers|
        ensures AnswerInOrder(s', j)
      {
        assert AnswerInOrder(s, j);
      }
    }
  }

  lemma GetKeepsInv(s: State)
    requires Inv(s) && Enabled(s, GetResponse)
    ensures Inv(Next(s, GetResponse))
  {
    var s' := Next(s, GetResponse);
    if s.dropped == 0 {
      var pending := s.responses + Queries(s.toMain);
      assert pending[0] == s.responses[0] && pending[1..] == s.responses[1..] + Queries(s.toMain);
      assert From(s.asked, |s.answers|)[1..] == From(s.asked, |s.answers| + 1);
      forall j | 0 <= j < |s'.answers|
        ensures AnswerInOrder(s', j)
      {
        assert j < |s.answers| ==> AnswerInOrder(s, j);
      }
    }
  }

  lemma {:induction false} RunInv(steps: seq<Step>)
    requires Run(steps).Some?
    ensures Inv(Run(steps).value)
  {
    if steps == [] {
      assert From([], 0) == [];
    } else {
      RunInv(steps[..|steps| - 1]);
      StepKeepsInv(Run(steps[..|steps| - 1]).value, steps[|steps| - 1]);
    }
  }

  /** Queries sent are calls answered, calls timed out, and the one waiting. */
  lemma {:induction false} CallsBalance(steps: seq<Step>)
    requires Run(steps).Some?
    ensures var s := Run(steps).value;
            |s.asked| == |s.answers| + s.timeouts + if s.waiting.Some? then 1 else 0
  {
    RunInv(steps);
  }

  /** No response is ever dropped while fewer than 256 calls have timed out. */
  lemma NoDropBeforeManyTimeouts(steps: seq<Step>)
    requires Run(steps).Some? && Run(steps).value.timeouts < 256
    ensures Run(steps).value.dropped == 0
  {
    RunInv(steps);
  }

  /** While no response has been dropped, the j-th response received answers the j-th query sent. */
  lemma ResponsesInOrder(steps: seq<Step>, j: nat)
    requires Run(steps).Some? && Run(steps).value.dropped == 0 && j < |Run(steps).value.answers|
    ensures Run(steps).value.answers[j].got.call == j
  {
    RunInv(steps);
    assert AnswerInOrder(Run(steps).value, j);
  }

  /** A call gets its own answer exactly when no earlier call timed out; otherwise the answer of the call that
      many places before it. */
  lemma OwnAnswerIffNoTimeout(steps: seq<Step>, j: nat)
    requires Run(steps).Some? && Run(steps).value.dropped == 0 && j < |Run(steps).value.answers|
    ensures var a := Run(steps).value.answers[j];
            && (a.got.call == a.call <==> a.timeoutsBefore == 0)
            && a.got.call == a.call - a.timeoutsBefore
  {
    RunInv(steps);
    assert AnswerInOrder(Run(steps).value, j);
  }

  /** The callers' check of the response type lets an answer through exactly when the query it belongs to was of
      the same kind: it stops a stale answer of another kind and no other. */
  lemma TypeCheckPassesIff(steps: seq<Step>, j: nat)
    requires Run(steps).Some? && Run(steps).value.dropped == 0 && j < |Run(steps).value.answers|
    ensures var s := Run(steps).value;
            var a := s.answers[j];
            && a.timeoutsBefore <= a.call < |s.asked|
            && (a.got.kind == a.asked <==> s.asked[a.call - a.timeoutsBefore] == s.asked[a.call])
  {
    RunInv(steps);
    assert AnswerInOrder(Run(steps).value, j);
  }

  const MAX_DATA := 256
  const FRAME_HEADER := 12

  /** The `data_size` a response is filled with; `carried` is the length of its text or frame. */
  function DataSize(kind: Kind, carried: nat): nat {
    match kind
    case DeviceInfo => 76
    case VideoSize => 8
    case WindowSize => 8
    case Clipboard => Min(carried, MAX_DATA - 1) + 1
    case FrameCapture => FRAME_HEADER + FrameField(carried)
  }

  /** The frame length in a frame capture response: 0 for one that is missing or does not fit. */
  function FrameField(carried: nat): nat {
    if 0 < carried <= MAX_DATA - FRAME_HEADER then carried else 0
  }

  /** The smallest `data_size` the callers accept. */
  function LeastSize(kind: Kind): nat {
    match kind
    case DeviceInfo => 76
    case VideoSize => 8
    case WindowSize => 8
    case Clipboard => 0
    case FrameCapture => FRAME_HEADER
  }

  /** All checks of the callers: the type, the size, and for a frame its length. */
  predicate Passes(asked: Kind, got: Kind, carried: nat) {
    && got == asked && DataSize(got, carried) >= LeastSize(asked)
    && (asked.FrameCapture? ==>
          FrameField(carried) != 0 && DataSize(got, carried) >= FRAME_HEADER + FrameField(carried))
  }

  /** Beside the type check the others stop only a frame capture whose frame is missing or does not fit. */
  lemma PassesIff(asked: Kind, got: Kind, carried: nat)
    ensures Passes(asked, got, carried) <==>
            got == asked && (asked.FrameCapture? ==> 0 < carried <= 244)
  {
  }

  /** A response fits the 256 data bytes of a message, and its size says what it carries: a text cut to 255 characters
      with its terminator, a whole frame behind its 12-byte header or the header alone. */
  lemma ResponseSizes(kind: Kind, carried: nat)
    ensures DataSize(kind, carried) <= 256
    ensures kind.Clipboard? ==> DataSize(kind, carried) == if carried <= 255 then carried + 1 else 256
    ensures kind.FrameCapture? ==> DataSize(kind, carried) == if carried <= 244 then 12 + carried else 12
    ensures kind.DeviceInfo? ==> DataSize(kind, carried) == 76
    ensures kind.VideoSize? || kind.WindowSize? ==> DataSize(kind, carried) == 8
  {
  }

  /** A response queue after offering it some responses: it keeps as many as fit. */
  function Accepted(responses: seq<Item>, offered: seq<Item>): (r: seq<Item>)
    requires |responses| <= CAPACITY
    ensures |r| <= CAPACITY
  {
    responses + offered[..Min(CAPACITY - |responses|, |offered|)]
  }

  lemma AcceptOne(responses: seq<Item>, offered: seq<Item>, item: Item)
    requires |responses| <= CAPACITY
    ensures var before := Accepted(responses, offered);
            Accepted(responses, offered + [item]) == if |before| < CAPACITY then before + [item] else before
  {
  }

  lemma MoveOne(done: seq<Item>, item: Item, rest: seq<Item>)
    ensures done + ([item] + rest) == done + [item] + rest
  {
  }

  // The engine object

  class ScriptEngine {
    var toMain: seq<Request>
    var responses: seq<Item>

    constructor ()
      ensures toMain == [] && responses == []
    {
      toMain, responses := [], [];
    }

    ghost predicate Holds(s: State)
      reads this
    {
      toMain == s.toMain && responses == s.responses
    }

    /** `query_sync` up to its wait. */
    method SendQuery(item: Item, ghost s: State) returns (ok: bool)
      requires Holds(s) && s.waiting.None? && item.call == |s.asked|
      modifies this`toMain
      ensures Holds(Next(s, Ask(item.kind))) && ok == Next(s, Ask(item.kind)).waiting.Some?
    {
      if |toMain| >= CAPACITY {
        return false;
      }
      toMain := toMain + [Query(item)];
      return true;
    }

    /** The wait of `query_sync`, and the caller's checks; `late` is whether the timeout strikes, and `carried` the
        length of the text or frame in the response received. */
    method AwaitResponse(asked: Kind, late: bool, carried: nat, ghost s: State) returns (r: Option<Item>)
      requires Holds(s) && s.waiting.Some? && asked == s.waiting.value.kind
      modifies this`responses
      ensures if late || s.responses == [] then r.None? && Holds(Next(s, TimeOut))
              else
                var a := Next(s, GetResponse).answers[|s.answers|];
                Holds(Next(s, GetResponse))
                && (r.Some? <==>
                      a.got.kind == a.asked && (asked.FrameCapture? ==> 0 < carried <= MAX_DATA - FRAME_HEADER))
                && (r.Some? ==> r.value == a.got)
    {
      if late || responses == [] {
        return None;
      }
      var got := responses[0];
      responses := responses[1..];
      if got.kind != asked || DataSize(got.kind, carried) < LeastSize(asked) {
        return None;
      }
      var field := FrameField(carried);
      if asked == FrameCapture && (field == 0 || DataSize(got.kind, carried) < FRAME_HEADER + field) {
        return None;
      }
      return Some(got);
    }

    /** `script_process_messages`: handle requests until none is left. Every query is answered in order until the
        response queue is full. */
    method ProcessMessages() returns (count: nat)
      requires |responses| <= CAPACITY
      modifies this
      ensures count == |old(toMain)| && toMain == []
      ensures responses == Accepted(old(responses), Queries(old(toMain)))
    {
      count := 0;
      ghost var done: seq<Item> := [];
      while toMain != []
        invariant count + |toMain| == |old(toMain)|
        invariant done + Queries(toMain) == Queries(old(toMain))
        invariant |responses| <= CAPACITY
        invariant responses == Accepted(old(responses), done)
        decreases |toMain|
      {
        var r := toMain[0];
        toMain := toMain[1..];
        count := count + 1;
        if r.Query? {
          AcceptOne(old(responses), done, r.item);
          MoveOne(done, r.item, Queries(toMain));
          if |responses| < CAPACITY {
            responses := responses + [r.item];
          }
          done := done + [r.item];
        }
      }
    }
  }
}
