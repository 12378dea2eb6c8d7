/** The audio regulator (`audio/regulator.c`): a ring of whole frames that drops the oldest on overflow and fills
    with silence on underflow. */
module Regulator {
  import opened Bytes
  import Ring

  const BUFFER_DURATION_MS := 50

  // What the regulator does to the buffered bytes

  /** The longest suffix of a stream that fits. */
  function LastFit(s: seq<byte>, n: nat): seq<byte> {
    if |s| <= n then s else s[|s| - n..]
  }

  /** It fits, it is a suffix, and no suffix that fits is longer. */
  lemma LongestThatFits(s: seq<byte>, n: nat, k: nat)
    requires k <= |s| && |s[k..]| <= n
    ensures |LastFit(s, n)| <= n && |s[k..]| <= |LastFit(s, n)| <= |s|
    ensures LastFit(s, n) == s[|s| - |LastFit(s, n)|..]
  {
  }

  function Silence(n: nat): seq<byte> {
    seq(n, _ => 0)
  }

  /** What a pull returns: the next bytes, then silence. */
  function Pulled(contents: seq<byte>, n: nat): seq<byte> {
    if n <= |contents| then contents[..n] else contents + Silence(n - |contents|)
  }

  function AfterPull(contents: seq<byte>, n: nat): seq<byte> {
    if n <= |contents| then contents[n..] else []
  }

  // Whole frames

  /** A size made of whole frames. */
  ghost predicate Whole(n: nat, frame: nat)
    requires frame > 0
  {
    n == 0 || (n >= frame && Whole(n - frame, frame))
  }

  lemma {:induction false} WholeSum(a: nat, b: nat, frame: nat)
    requires frame > 0 && Whole(a, frame) && Whole(b, frame)
    ensures Whole(a + b, frame)
    decreases a
  {
    if a > 0 {
      WholeSum(a - frame, b, frame);
    }
  }

  lemma {:induction false} WholeDifference(a: nat, b: nat, frame: nat)
    requires frame > 0 && Whole(a, frame) && Whole(b, frame) && b <= a
    ensures Whole(a - b, frame)
    decreases b
  {
    if b > 0 {
      WholeDifference(a - frame, b - frame, frame);
    }
  }

  lemma {:induction false} WholeMultiple(k: nat, frame: nat)
    requires frame > 0
    ensures Whole(k * frame, frame)
    decreases k
  {
    if k > 0 {
      WholeMultiple(k - 1, frame);
      assert k * frame == (k - 1) * frame + frame;
    }
  }

  lemma {:induction false} WholeDivides(n: nat, frame: nat)
    requires frame > 0 && Whole(n, frame)
    ensures n / frame * frame == n
    decreases n
  {
    if n > 0 {
      WholeDivides(n - frame, frame);
      QuotientOfMultiple((n - frame) / frame + 1, frame, n);
    }
  }

  lemma QuotientBounds(n: nat, frame: nat)
    requires frame > 0
    ensures n / frame * frame <= n < n / frame * frame + frame
  {
  }

  lemma QuotientOfMultiple(k: int, frame: nat, n: int)
    requires frame > 0 && n == k * frame
    ensures n / frame == k
  {
    var d: int := k - n / frame;
    assert d * frame == n % frame;
    assert d >= 1 ==> d * frame >= frame;
    assert d <= -1 ==> d * frame < 0;
  }

  // The drop loop

  /** The least number of bytes in whole frames that is at least the excess. */
  function Dropped(excess: int, frame: nat): nat
    requires frame > 0
    decreases if excess < 0 then 0 else excess
  {
    if excess <= 0 then 0 else frame + Dropped(excess - frame, frame)
  }

  lemma {:induction false} DroppedLeast(excess: int, frame: nat)
    requires frame > 0
    ensures Whole(Dropped(excess, frame), frame) && Dropped(excess, frame) >= excess
    ensures Dropped(excess, frame) < (if excess <= 0 then 1 else excess + frame)
    decreases if excess < 0 then 0 else excess
  {
    if excess > 0 {
      DroppedLeast(excess - frame, frame);
    }
  }

  /** What is left when that many bytes leave from the front. A frame is no larger than the buffer, unless nothing
      has to leave. */
  function KeptBy(all: seq<byte>, capacity: nat, frame: nat): (kept: seq<byte>)
    requires frame > 0 && (|all| > capacity ==> frame <= capacity)
    ensures |kept| <= capacity
  {
    DroppedLeast(|all| - capacity, frame);
    all[Dropped(|all| - capacity, frame)..]
  }

  lemma KeptIsEnd(all: seq<byte>, capacity: nat, frame: nat)
    requires frame > 0 && (|all| > capacity ==> frame <= capacity)
    ensures var kept := KeptBy(all, capacity, frame);
            |kept| <= |all| && all == all[..|all| - |kept|] + kept && (kept == all <==> |all| <= capacity)
  {
    DroppedLeast(|all| - capacity, frame);
    assert KeptBy(all, capacity, frame) == all[Dropped(|all| - capacity, frame)..];
    assert all == all[..Dropped(|all| - capacity, frame)] + all[Dropped(|all| - capacity, frame)..];
  }

  /** Of whole frames it is the longest suffix that fits, and whole frames again. */
  lemma WholePush(all: seq<byte>, capacity: nat, frame: nat)
    requires 0 < frame <= capacity && Whole(|all|, frame) && Whole(capacity, frame)
    ensures KeptBy(all, capacity, frame) == LastFit(all, capacity) && Whole(|KeptBy(all, capacity, frame)|, frame)
  {
    if |all| > capacity {
      WholeDifference(|all|, capacity, frame);
      DroppedWhole(|all| - capacity, frame);
    }
  }

  lemma {:induction false} DroppedWhole(excess: nat, frame: nat)
    requires frame > 0 && Whole(excess, frame)
    ensures Dropped(excess, frame) == excess
  {
    if excess > 0 {
      DroppedWhole(excess - frame, frame);
    }
  }

  /** The loop takes a frame from less than a frame: its unsigned counter wraps around for a while. */
  predicate Wraps(buffered: nat, size: nat, capacity: nat, frame: nat)
    requires frame > 0
    decreases buffered
  {
    buffered + size > capacity && (buffered < frame || Wraps(buffered - frame, size, capacity, frame))
  }

  /** It does if and only if the frames needed, rounded up, are more than what is buffered. */
  lemma {:induction false} WrapsIff(buffered: nat, size: nat, capacity: nat, frame: nat)
    requires frame > 0
    ensures Wraps(buffered, size, capacity, frame) <==> Dropped(buffered + size - capacity, frame) > buffered
    decreases buffered
  {
    if buffered + size > capacity && buffered >= frame {
      WrapsIff(buffered - frame, size, capacity, frame);
    }
  }

  /** With whole frames throughout, exactly the excess is dropped, and the counter wraps if and only if the push is
      larger than the whole buffer. */
  lemma WholeFramesDrop(buffered: nat, size: nat, capacity: nat, frame: nat)
    requires frame > 0 && Whole(buffered, frame) && Whole(size, frame) && Whole(capacity, frame)
    ensures Wraps(buffered, size, capacity, frame) <==> size > capacity
    ensures Dropped(buffered + size - capacity, frame) == if buffered + size <= capacity then 0
            else buffered + size - capacity
  {
    WrapsIff(buffered, size, capacity, frame);
    WholeExcess(buffered + size, buffered, size, capacity, frame);
  }

  lemma WholeExcess(total: nat, buffered: nat, size: nat, capacity: nat, frame: nat)
    requires frame > 0 && Whole(buffered, frame) && Whole(size, frame) && Whole(capacity, frame)
             && total == buffered + size
    ensures Dropped(total - capacity, frame) == if total <= capacity then 0 else total - capacity
  {
    WholeSum(buffered, size, frame);
    if total > capacity {
      WholeDifference(total, capacity, frame);
      DroppedWhole(total - capacity, frame);
    }
  }

  /** A push for which it wraps and no harm is done: 12 bytes into an empty ring of 8 with frames of 4. */
  lemma HarmlessWrap(data: seq<byte>)
    requires |data| == 12
    ensures Wraps(0, |data|, 8, 4) && Ring.PiecesFit(0, |data|, 8)
            && KeptBy(data, 8, 4) == LastFit(data, 8) == data[4..]
  {
  }

  /** The longest push whose two pieces stay in the buffer; one byte more and the second runs over its end. */
  lemma LongestPush(at: nat, capacity: nat)
    requires at < capacity
    ensures Ring.PiecesFit(at, 2 * capacity - at, capacity) && !Ring.PiecesFit(at, 2 * capacity - at + 1, capacity)
  {
  }

  // Runs

  datatype Op = Push(data: seq<byte>) | Pull(n: nat)

  /** A byte that has left the buffer, and whether a pull delivered it. */
  datatype Gone = Gone(b: byte, delivered: bool)

  /** For a buffer of one capacity with frames of one size: the buffered bytes, every byte gone so far in order, and
      what the pulls returned. */
  datatype Flow = Flow(contents: seq<byte>, gone: seq<Gone>, output: seq<byte>)

  function Leave(s: seq<byte>, delivered: bool): seq<Gone> {
    seq(|s|, i requires 0 <= i < |s| => Gone(s[i], delivered))
  }

  function Apply(f: Flow, op: Op, capacity: nat, frame: nat): Flow
    requires 0 < frame <= capacity
  {
    match op
    case Push(data) =>
      var all := f.contents + data;
      var kept := KeptBy(all, capacity, frame);
      Flow(kept, f.gone + Leave(all[..|all| - |kept|], false), f.output)
    case Pull(n) =>
      Flow(AfterPull(f.contents, n), f.gone + Leave(f.contents[..Min(n, |f.contents|)], true),
           f.output + Pulled(f.contents, n))
  }

  function Run(ops: seq<Op>, capacity: nat, frame: nat): Flow
    requires 0 < frame <= capacity
  {
    if ops == [] then Flow([], [], [])
    else Apply(Run(ops[..|ops| - 1], capacity, frame), ops[|ops| - 1], capacity, frame)
  }

  /** Everything pushed in a run. */
  function PushedBy(ops: seq<Op>): seq<byte> {
    if ops == [] then []
    else PushedBy(ops[..|ops| - 1]) + if ops[|ops| - 1].Push? then ops[|ops| - 1].data else []
  }

  function Requested(ops: seq<Op>): nat {
    if ops == [] then 0 else Requested(ops[..|ops| - 1]) + if ops[|ops| - 1].Pull? then ops[|ops| - 1].n else 0
  }

  function BytesOf(g: seq<Gone>): seq<byte> {
    seq(|g|, i requires 0 <= i < |g| => g[i].b)
  }

  /** How many bytes left with this fate. */
  function Count(g: seq<Gone>, delivered: bool): nat {
    if g == [] then 0 else Count(g[..|g| - 1], delivered) + if g[|g| - 1].delivered == delivered then 1 else 0
  }

  /** Over any run no byte is lost, repeated or reordered: what was pushed is what has gone, in order, followed
      by what is buffered; and the pulls return exactly as many bytes as they asked for. */
  lemma {:induction false} StreamConserved(ops: seq<Op>, capacity: nat, frame: nat)
    requires 0 < frame <= capacity
    ensures var f := Run(ops, capacity, frame);
            && PushedBy(ops) == BytesOf(f.gone) + f.contents
            && |f.contents| <= capacity && |f.output| == Requested(ops)
  {
    if ops != [] {
      var front, op := ops[..|ops| - 1], ops[|ops| - 1];
      StreamConserved(front, capacity, frame);
      ApplyConserves(Run(front, capacity, frame), op, capacity, frame, PushedBy(front));
    }
  }

  lemma ApplyConserves(f: Flow, op: Op, capacity: nat, frame: nat, pushed: seq<byte>)
    requires 0 < frame <= capacity && pushed == BytesOf(f.gone) + f.contents && |f.contents| <= capacity
    ensures var f' := Apply(f, op, capacity, frame);
            && pushed + (if op.Push? then op.data else []) == BytesOf(f'.gone) + f'.contents
            && |f'.contents| <= capacity && |f'.output| == |f.output| + if op.Pull? then op.n else 0
  {
    match op {
      case Push(data) => PushConserves(f, data, capacity, frame, pushed);
      case Pull(n) => PullConserves(f, n, capacity, frame, pushed);
    }
  }

  lemma PushConserves(f: Flow, data: seq<byte>, capacity: nat, frame: nat, pushed: seq<byte>)
    requires 0 < frame <= capacity && pushed == BytesOf(f.gone) + f.contents
    ensures var f' := Apply(f, Push(data), capacity, frame);
            pushed + data == BytesOf(f'.gone) + f'.contents && |f'.contents| <= capacity
  {
    var all := f.contents + data;
    var kept := KeptBy(all, capacity, frame);
    LeaveKeepsStream(f.gone, all[..|all| - |kept|], kept, false);
    KeptIsEnd(all, capacity, frame);
    Associative(BytesOf(f.gone), f.contents, data);
  }

  lemma PullConserves(f: Flow, n: nat, capacity: nat, frame: nat, pushed: seq<byte>)
    requires 0 < frame <= capacity && pushed == BytesOf(f.gone) + f.contents && |f.contents| <= capacity
    ensures var f' := Apply(f, Pull(n), capacity, frame);
            pushed + [] == BytesOf(f'.gone) + f'.contents && |f'.contents| <= capacity && |f'.output| == |f.output| + n
  {
    var k := Min(n, |f.contents|);
    LeaveKeepsStream(f.gone, f.contents[..k], f.contents[k..], true);
    assert f.contents == f.contents[..k] + f.contents[k..];
    assert pushed + [] == pushed;
  }

  lemma LeaveKeepsStream(gone: seq<Gone>, left: seq<byte>, rest: seq<byte>, delivered: bool)
    ensures BytesOf(gone + Leave(left, delivered)) + rest == BytesOf(gone) + (left + rest)
  {
  }

  /** Bytes pushed = bytes delivered + bytes dropped + bytes buffered; the rest of the output is silence. */
  lemma PushedIsDeliveredDroppedBuffered(ops: seq<Op>, capacity: nat, frame: nat)
    requires 0 < frame <= capacity
    ensures var f := Run(ops, capacity, frame);
            |PushedBy(ops)| == Count(f.gone, true) + Count(f.gone, false) + |f.contents|
  {
    StreamConserved(ops, capacity, frame);
    EveryFate(Run(ops, capacity, frame).gone);
  }

  lemma {:induction false} EveryFate(g: seq<Gone>)
    ensures Count(g, true) + Count(g, false) == |g|
  {
    if g != [] {
      EveryFate(g[..|g| - 1]);
    }
  }

  /** No push of a run met too little room. */
  predicate NeverOverflows(ops: seq<Op>, capacity: nat, frame: nat)
    requires 0 < frame <= capacity
  {
    ops == [] ||
    (NeverOverflows(ops[..|ops| - 1], capacity, frame) &&
     (ops[|ops| - 1].Push? ==> |Run(ops[..|ops| - 1], capacity, frame).contents| + |ops[|ops| - 1].data| <= capacity))
  }

  lemma {:induction false} CountLeave(g: seq<Gone>, s: seq<byte>, delivered: bool, fate: bool)
    ensures Count(g + Leave(s, delivered), fate) == Count(g, fate) + if delivered == fate then |s| else 0
  {
    if s == [] {
      assert g + Leave(s, delivered) == g;
    } else {
      var all := g + Leave(s, delivered);
      assert all[..|all| - 1] == g + Leave(s[..|s| - 1], delivered);
      CountLeave(g, s[..|s| - 1], delivered, fate);
    }
  }

  /** A run drops nothing if and only if no push overflows. */
  lemma {:induction false} NothingDroppedIff(ops: seq<Op>, capacity: nat, frame: nat)
    requires 0 < frame <= capacity
    ensures Count(Run(ops, capacity, frame).gone, false) == 0 <==> NeverOverflows(ops, capacity, frame)
  {
    if ops != [] {
      var front, op := ops[..|ops| - 1], ops[|ops| - 1];
      NothingDroppedIff(front, capacity, frame);
      var f := Run(front, capacity, frame);
      match op {
        case Push(data) =>
          var all := f.contents + data;
          DroppedLeast(|all| - capacity, frame);
          CountLeave(f.gone, all[..|all| - |KeptBy(all, capacity, frame)|], false, false);
        case Pull(n) =>
          CountLeave(f.gone, f.contents[..Min(n, |f.contents|)], true, false);
      }
    }
  }

  /** The output without the silence. */
  function Heard(ops: seq<Op>, capacity: nat, frame: nat): seq<byte>
    requires 0 < frame <= capacity
  {
    if ops == [] then []
    else
      var f := Run(ops[..|ops| - 1], capacity, frame);
      var op := ops[|ops| - 1];
      Heard(ops[..|ops| - 1], capacity, frame) + if op.Pull? then Pulled(f.contents, op.n)[..Min(op.n, |f.contents|)]
        else []
  }

  function Delivered(g: seq<Gone>): seq<byte> {
    if g == [] then [] else Delivered(g[..|g| - 1]) + if g[|g| - 1].delivered then [g[|g| - 1].b] else []
  }

  lemma DeliveredLeave(a: seq<Gone>, s: seq<byte>, delivered: bool)
    ensures Delivered(a + Leave(s, delivered)) == if delivered then Delivered(a) + s else Delivered(a)
  {
    DeliveredSum(a, Leave(s, delivered));
    DeliveredOf(s, delivered);
    assert Delivered(a) + [] == Delivered(a);
  }

  lemma {:induction false} DeliveredSum(a: seq<Gone>, b: seq<Gone>)
    ensures Delivered(a + b) == Delivered(a) + Delivered(b)
  {
    if b == [] {
      assert a + b == a;
    } else {
      var front, g := b[..|b| - 1], b[|b| - 1];
      DeliveredSum(a, front);
      assert b == front + [g];
      DeliveredSumOne(a, front, g, Delivered(front));
    }
  }

  lemma DeliveredSumOne(a: seq<Gone>, b: seq<Gone>, g: Gone, d: seq<byte>)
    requires d == Delivered(b) && Delivered(a + b) == Delivered(a) + d
    ensures Delivered(a + (b + [g])) == Delivered(a) + Delivered(b + [g])
  {
    Associative(a, b, [g]);
    DeliveredSnoc(a + b, g);
    DeliveredSnoc(b, g);
    Associative(Delivered(a), d, [g.b]);
  }

  lemma {:induction false} DeliveredOf(s: seq<byte>, delivered: bool)
    ensures Delivered(Leave(s, delivered)) == if delivered then s else []
  {
    if s != [] {
      var front, last := s[..|s| - 1], s[|s| - 1];
      DeliveredOf(front, delivered);
      LeaveSnoc(front, last, delivered);
      DeliveredSnoc(Leave(front, delivered), Gone(last, delivered));
      assert s == front + [last];
    }
  }

  lemma LeaveSnoc(s: seq<byte>, b: byte, delivered: bool)
    ensures Leave(s + [b], delivered) == Leave(s, delivered) + [Gone(b, delivered)]
  {
  }

  lemma DeliveredSnoc(a: seq<Gone>, g: Gone)
    ensures Delivered(a + [g]) == if g.delivered then Delivered(a) + [g.b] else Delivered(a)
  {
    assert (a + [g])[..|a|] == a;
    assert Delivered(a) + [] == Delivered(a);
  }

  /** Without the silence, the output is exactly the bytes that left as delivered, in order. */
  lemma {:induction false} HeardIsDelivered(ops: seq<Op>, capacity: nat, frame: nat)
    requires 0 < frame <= capacity
    ensures Heard(ops, capacity, frame) == Delivered(Run(ops, capacity, frame).gone)
  {
    if ops != [] {
      var front, op := ops[..|ops| - 1], ops[|ops| - 1];
      HeardIsDelivered(front, capacity, frame);
      var f := Run(front, capacity, frame);
      match op {
        case Push(data) =>
          PushDelivers(f, data, capacity, frame);
          assert Heard(front, capacity, frame) + [] == Heard(front, capacity, frame);
        case Pull(n) => PullDelivers(f, n, capacity, frame);
      }
    }
  }

  lemma PushDelivers(f: Flow, data: seq<byte>, capacity: nat, frame: nat)
    requires 0 < frame <= capacity
    ensures Delivered(Apply(f, Push(data), capacity, frame).gone) == Delivered(f.gone)
  {
    var all := f.contents + data;
    DeliveredLeave(f.gone, all[..|all| - |KeptBy(all, capacity, frame)|], false);
  }

  lemma PullDelivers(f: Flow, n: nat, capacity: nat, frame: nat)
    requires 0 < frame <= capacity
    ensures Delivered(Apply(f, Pull(n), capacity, frame).gone) ==
            Delivered(f.gone) + Pulled(f.contents, n)[..Min(n, |f.contents|)]
  {
    DeliveredLeave(f.gone, f.contents[..Min(n, |f.contents|)], true);
    assert Pulled(f.contents, n)[..Min(n, |f.contents|)] == f.contents[..Min(n, |f.contents|)];
  }

  /** A difference as the unsigned counter holds it. */
  function Reduced(d: int): u32
    requires -U32_BASE < d < U32_BASE
  {
    if d < 0 then d + U32_BASE else d
  }

  /** Unsigned 32-bit addition and subtraction. */
  function Add32(a: u32, b: u32): u32 {
    if a + b < U32_BASE then a + b else a + b - U32_BASE
  }

  function Sub32(a: u32, b: u32): u32 {
    if b <= a then a - b else a + U32_BASE - b
  }

  lemma Arithmetic32(a: u32, b: u32)
    ensures Add32(a, b) == (a + b) % 0x1_0000_0000 && Sub32(a, b) == (a - b) % 0x1_0000_0000
  {
    Ring.ModIsWrap(a + b, U32_BASE);
    Ring.ModIsWrap(a - b + U32_BASE, U32_BASE);
    assert (a - b + U32_BASE) % U32_BASE == (a - b) % U32_BASE;
  }

  /** Adding the size to the counter gives the true sum, whether the counter has wrapped around or not. */
  lemma Sum32(d: int, size: u32)
    requires -U32_BASE < d < U32_BASE && 0 <= d + size < U32_BASE
    ensures Add32(Reduced(d), size) == d + size
  {
  }

  lemma Difference32(d: int, frame: u32, size: u32)
    requires -U32_BASE < d < U32_BASE && 0 < frame && 0 <= d + size - frame && d + size < U32_BASE
    ensures -U32_BASE < d - frame && Sub32(Reduced(d), frame) == Reduced(d - frame)
    ensures Add32(Reduced(d - frame), size) == d - frame + size
  {
  }

  /** The drop loop after `gone` bytes. */
  ghost predicate DropState(start: nat, fill: nat, size: u32, gone: nat, readPos: nat, buffered: u32, capacity: nat,
                            frame: nat)
    requires 0 < frame && 0 < capacity
  {
    && fill + size < U32_BASE && gone <= fill + size && (fill + size > capacity ==> frame <= capacity)
    && readPos == Ring.Turn(start + gone, capacity) && buffered == Reduced(fill - gone)
    && gone + Dropped(fill + size - gone - capacity, frame) == Dropped(fill + size - capacity, frame)
  }

  /** What the loop test computes. */
  lemma DropTest(start: nat, fill: nat, size: u32, gone: nat, readPos: nat, buffered: u32, capacity: nat, frame: nat)
    requires 0 < frame && 0 < capacity && DropState(start, fill, size, gone, readPos, buffered, capacity, frame)
    ensures Add32(buffered, size) == fill + size - gone
  {
    Sum32(fill - gone, size);
  }

  lemma DropBegins(start: nat, fill: nat, size: u32, capacity: nat, frame: nat)
    requires 0 < frame && start < capacity && fill + size < U32_BASE && (fill + size > capacity ==> frame <= capacity)
    ensures DropState(start, fill, size, 0, start, fill, capacity, frame)
  {
  }

  lemma DropEnds(start: nat, fill: nat, size: u32, gone: nat, readPos: nat, buffered: u32, capacity: nat, frame: nat)
    requires 0 < frame && 0 < capacity && DropState(start, fill, size, gone, readPos, buffered, capacity, frame)
    requires Add32(buffered, size) <= capacity
    ensures gone == Dropped(fill + size - capacity, frame) <= fill + size
    ensures readPos == Ring.Turn(start + gone, capacity) && buffered == Reduced(fill - gone)
  {
    DropTest(start, fill, size, gone, readPos, buffered, capacity, frame);
  }


  lemma TurnOnce(x: nat, a: nat, n: nat)
    requires x < n && a <= n
    ensures Ring.Turn(x + a, n) == Ring.Wrap(x + a, n)
  {
  }

  lemma DropStep(start: nat, fill: nat, size: u32, gone: nat, readPos: nat, buffered: u32, capacity: nat, frame: nat)
    requires 0 < frame && 0 < capacity < U32_BASE
             && DropState(start, fill, size, gone, readPos, buffered, capacity, frame)
    requires Add32(buffered, size) > capacity
    ensures frame <= capacity && fill + size - gone > capacity
    ensures DropState(start, fill, size, gone + frame, Ring.Turn(readPos + frame, capacity), Sub32(buffered, frame),
                      capacity, frame)
  {
    DropTest(start, fill, size, gone, readPos, buffered, capacity, frame);
    Ring.TurnStep(start + gone, frame, capacity);
    TurnOnce(readPos, frame, capacity);
    Difference32(fill - gone, frame, size);
  }

  /** Where dropping and writing leave the positions. */
  lemma PushEnds(start: nat, fill: nat, at: nat, size: u32, capacity: nat, frame: nat, gone: nat,
                 readPos: nat, buffered: u32, writePos: nat)
    requires 0 < frame && start < capacity && fill <= capacity && at == Ring.Wrap(start + fill, capacity)
    requires size <= 2 * capacity - at && fill + size < U32_BASE && (fill + size > capacity ==> frame <= capacity)
    requires gone == Dropped(fill + size - capacity, frame) <= fill + size
    requires readPos == Ring.Turn(start + gone, capacity) && buffered == Add32(Reduced(fill - gone), size)
    requires writePos == Ring.Turn(at + size, capacity)
    ensures buffered == fill + size - gone <= capacity && writePos == Ring.Wrap(readPos + buffered, capacity)
  {
    PushLeaves(fill, size, capacity, frame);
    Ring.KeepEnd(start, fill, size, gone, capacity);
  }

  /** What they leave in the ring. */
  lemma PushKeeps(ring: seq<byte>, start: nat, fill: nat, at: nat, data: seq<byte>, frame: nat, gone: nat,
                  after: seq<byte>, readPos: nat, buffered: nat)
    requires 0 < frame && start < |ring| && fill <= |ring| && at == Ring.Wrap(start + fill, |ring|)
    requires |data| <= 2 * |ring| - at && (fill + |data| > |ring| ==> frame <= |ring|)
    requires gone == Dropped(fill + |data| - |ring|, frame) && buffered == fill + |data| - gone <= |ring|
    requires after == Ring.Overwrite(ring, at, data) && readPos == Ring.Turn(start + gone, |ring|)
    ensures Ring.Contents(after, readPos, buffered) == KeptBy(Ring.Contents(ring, start, fill) + data, |ring|, frame)
  {
    Ring.Keep(ring, start, fill, data, gone);
    var all := Ring.Contents(ring, start, fill) + data;
    assert |all| == fill + |data|;
    KeptByIs(all, |ring|, frame, gone, Ring.Contents(after, readPos, buffered));
  }

  /** What the two halves of a push do to the ring and the positions. */
  ghost predicate DroppedAndWritten(ring: seq<byte>, start: nat, fill: nat, at: nat, data: seq<byte>, frame: nat,
                                    gone: nat, after: seq<byte>, readPos: nat, buffered: u32, writePos: nat)
    requires 0 < frame && start < |ring| && at < |ring| && fill + |data| < U32_BASE
  {
    && gone == Dropped(fill + |data| - |ring|, frame) <= fill + |data|
    && readPos == Ring.Turn(start + gone, |ring|) && buffered == Add32(Reduced(fill - gone), |data|)
    && |data| <= 2 * |ring| - at && after == Ring.Overwrite(ring, at, data)
    && writePos == Ring.Turn(at + |data|, |ring|)
  }

  /** Both together. */
  lemma PushDone(ring: seq<byte>, start: nat, fill: nat, at: nat, data: seq<byte>, frame: nat, gone: nat,
                 after: seq<byte>, readPos: nat, buffered: u32, writePos: nat)
    requires 0 < frame && start < |ring| && fill <= |ring| && at == Ring.Wrap(start + fill, |ring|)
    requires |data| <= 2 * |ring| - at && fill + |data| < U32_BASE && (fill + |data| > |ring| ==> frame <= |ring|)
    requires DroppedAndWritten(ring, start, fill, at, data, frame, gone, after, readPos, buffered, writePos)
    ensures |after| == |ring| && readPos < |ring| && buffered <= |ring|
    ensures writePos == Ring.Wrap(readPos + buffered, |ring|)
    ensures Ring.Contents(after, readPos, buffered) == KeptBy(Ring.Contents(ring, start, fill) + data, |ring|, frame)
  {
    PushEnds(start, fill, at, |data|, |ring|, frame, gone, readPos, buffered, writePos);
    PushKeeps(ring, start, fill, at, data, frame, gone, after, readPos, buffered);
  }

  lemma KeptByIs(all: seq<byte>, capacity: nat, frame: nat, gone: nat, kept: seq<byte>)
    requires frame > 0 && (|all| > capacity ==> frame <= capacity)
    requires gone == Dropped(|all| - capacity, frame) <= |all| && kept == all[gone..]
    ensures KeptBy(all, capacity, frame) == kept
  {
  }

  /** How much is left after dropping and writing. */
  lemma PushLeaves(fill: nat, size: u32, capacity: nat, frame: nat)
    requires 0 < frame && fill <= capacity && fill + size < U32_BASE && (fill + size > capacity ==> frame <= capacity)
    ensures var gone := Dropped(fill + size - capacity, frame);
            gone <= fill + size <= capacity + gone && Add32(Reduced(fill - gone), size) == fill + size - gone
  {
    var gone := Dropped(fill + size - capacity, frame);
    DroppedLeast(fill + size - capacity, frame);
    Sum32(fill - gone, size);
  }

  lemma AllWhole(fill: nat, size: nat, capacity: nat, frame: nat)
    requires frame > 0 && 0 < capacity && Whole(fill, frame) && Whole(size, frame) && Whole(capacity, frame)
    ensures Whole(fill + size, frame) && frame <= capacity
  {
    WholeSum(fill, size, frame);
  }

  // The object

  /** `bytes_per_frame` and `buf_size` of `audio_regulator_init`, in 32-bit arithmetic. */
  function FrameSize(channels: u32, bytesPerSample: u32): u32 {
    channels * bytesPerSample % U32_BASE
  }

  function BufferSize(sampleRate: u32, channels: u32, bytesPerSample: u32): u32 {
    sampleRate * BUFFER_DURATION_MS % U32_BASE / 1000 * FrameSize(channels, bytesPerSample) % U32_BASE
  }

  /** A format for which none of this overflows and the buffer is not empty. */
  predicate Ordinary(sampleRate: u32, channels: u32, bytesPerSample: u32) {
    && sampleRate * BUFFER_DURATION_MS < U32_BASE && 0 < channels * bytesPerSample < U32_BASE
    && 0 < sampleRate * BUFFER_DURATION_MS / 1000 * (channels * bytesPerSample) < U32_BASE / 2
  }

  /** For such a format the buffer is 50 ms of whole frames. */
  lemma OrdinaryBuffer(sampleRate: u32, channels: u32, bytesPerSample: u32)
    requires Ordinary(sampleRate, channels, bytesPerSample)
    ensures var size := BufferSize(sampleRate, channels, bytesPerSample);
            && size == sampleRate * BUFFER_DURATION_MS / 1000 * (channels * bytesPerSample)
            && 0 < size < U32_BASE / 2 && Whole(size, channels * bytesPerSample)
  {
    var frames, frame := sampleRate * BUFFER_DURATION_MS / 1000, channels * bytesPerSample;
    Fits32(frame);
    Fits32(sampleRate * BUFFER_DURATION_MS);
    Fits32(frames * frame);
    WholeMultiple(frames, frame);
  }

  /** 50 ms of 16-bit stereo at 48 kHz are 9600 bytes. */
  lemma UsualBuffer()
    ensures BufferSize(48_000, 2, 2) == 9_600 && FrameSize(2, 2) == 4
  {
  }

  lemma Fits32(v: int)
    requires 0 <= v < U32_BASE
    ensures v % U32_BASE == v
  {
  }

  /** The two `memcpy` calls of a push: from `at` to the end of the ring, and the rest from its beginning. */
  method CopyAround(buf: array<byte>, at: nat, data: seq<byte>)
    requires at < buf.Length && Ring.PiecesFit(at, |data|, buf.Length)
    modifies buf
    ensures |data| <= 2 * buf.Length - at && buf[..] == Ring.Overwrite(old(buf[..]), at, data)
  {
    var firstChunk := buf.Length - at;
    if firstChunk > |data| {
      firstChunk := |data|;
    }
    ghost var before := buf[..];
    Ring.OverwritePieces(before, at, data);
    CopyInto(buf, at, data[..firstChunk]);
    if firstChunk < |data| {
      assert buf[..] == before[..at] + data[..firstChunk];
      CopyInto(buf, 0, data[firstChunk..]);
    } else {
      assert data[..firstChunk] == data;
    }
  }

  /** The two `memcpy` calls of a pull: from `at` to the end of the ring, and the rest from its beginning. */
  method CopyFromRing(buf: array<byte>, at: nat, out: array<byte>, n: nat)
    requires out != buf && at < buf.Length && n <= buf.Length && n <= out.Length
    modifies out
    ensures out[..n] == Ring.Contents(buf[..], at, n) && out[n..] == old(out[n..])
  {
    var firstChunk := buf.Length - at;
    if firstChunk > n {
      firstChunk := n;
    }
    ghost var ring := buf[..];
    RingPieces(ring, at, n, firstChunk);
    CopyNext(out, 0, buf[at..at + firstChunk]);
    assert out[..firstChunk] == ring[at..at + firstChunk];
    assert out[n..] == out[firstChunk..][n - firstChunk..] && old(out[n..]) == old(out[firstChunk..])[n - firstChunk..];
    if firstChunk < n {
      CopyNext(out, firstChunk, buf[..n - firstChunk]);
      assert out[..n] == ring[at..at + firstChunk] + ring[..n - firstChunk];
    }
  }

  lemma RingPieces(ring: seq<byte>, at: nat, n: nat, first: nat)
    requires at < |ring| && n <= |ring| && first == Min(|ring| - at, n)
    ensures Ring.Contents(ring, at, n) == ring[at..at + first] + ring[..n - first]
    ensures first == n ==> Ring.Contents(ring, at, n) == ring[at..at + n]
  {
  }

  /** A copy that continues what has been written to the output so far. */
  method CopyNext(out: array<byte>, from: nat, data: seq<byte>)
    requires from + |data| <= out.Length
    modifies out
    ensures out[..from + |data|] == old(out[..from]) + data && out[from + |data|..] == old(out[from + |data|..])
  {
    CopyInto(out, from, data);
  }

  class AudioRegulator {
    const buf: array<byte>
    const channels: u32
    const bytesPerSample: u32
    var writePos: nat
    var readPos: nat
    var buffered: u32
    var underflowCount: u32

    ghost function Frame(): nat {
      channels * bytesPerSample
    }

    /** The ring invariant. The buffer is small enough that no sum of two positions wraps. */
    ghost predicate InRing()
      reads this
    {
      && 0 < buf.Length && 2 * buf.Length < U32_BASE
      && readPos < buf.Length && buffered <= buf.Length
      && writePos == Ring.Wrap(readPos + buffered, buf.Length)
    }

    ghost predicate Valid()
      reads this
    {
      InRing() && 0 < Frame() < U32_BASE
    }

    /** The buffer and its contents are whole frames. */
    ghost predicate WholeFrames()
      requires Valid()
      reads this
    {
      Whole(buf.Length, Frame()) && Whole(buffered, Frame())
    }

    /** The buffered bytes, oldest first. */
    ghost function Contents(): seq<byte>
      requires InRing()
      reads this, buf
    {
      Ring.Contents(buf[..], readPos, buffered)
    }

    /** `audio_regulator_init`. The result is usable if the buffer is not empty and its size fits; it holds 50 ms of
        whole frames if nothing overflows. */
    constructor (sampleRate: u32, channels: u32, bytesPerSample: u32)
      ensures fresh(buf) && buf.Length == BufferSize(sampleRate, channels, bytesPerSample)
      ensures this.channels == channels && this.bytesPerSample == bytesPerSample && underflowCount == 0
      ensures 0 < buf.Length && 2 * buf.Length < U32_BASE ==> InRing() && Contents() == []
      ensures Ordinary(sampleRate, channels, bytesPerSample) ==> Valid() && WholeFrames()
    {
      var bytesPerFrame := FrameSize(channels, bytesPerSample);
      var framesPerBuffer := sampleRate * BUFFER_DURATION_MS % U32_BASE / 1000;
      if Ordinary(sampleRate, channels, bytesPerSample) {
        OrdinaryBuffer(sampleRate, channels, bytesPerSample);
      }
      this.channels, this.bytesPerSample := channels, bytesPerSample;
      buf := new byte[framesPerBuffer * bytesPerFrame % U32_BASE](_ => 0);
      writePos, readPos, buffered, underflowCount := 0, 0, 0, 0;
    }

    /** The drop loop, in 32-bit arithmetic: whole frames leave from the front until `size` more bytes fit, of them and
        of what is about to be pushed. */
    method DropOldest(size: u32, frame: u32) returns (ghost gone: nat)
      requires 0 < frame && readPos < buf.Length < U32_BASE
      requires buffered + size < U32_BASE && (buffered + size > buf.Length ==> frame <= buf.Length)
      modifies this`readPos, this`buffered
      ensures gone == Dropped(old(buffered) + size - buf.Length, frame) <= old(buffered) + size
      ensures readPos == Ring.Turn(old(readPos) + gone, buf.Length)
      ensures buffered == Reduced(old(buffered) - gone)
    {
      gone := 0;
      ghost var start, fill := readPos, buffered;
      DropBegins(start, fill, size, buf.Length, frame);
      while Add32(buffered, size) > buf.Length
        invariant DropState(start, fill, size, gone, readPos, buffered, buf.Length, frame)
        decreases fill + size - gone
      {
        DropStep(start, fill, size, gone, readPos, buffered, buf.Length, frame);
        TakeFrame(frame);
        gone := gone + frame;
      }
      DropEnds(start, fill, size, gone, readPos, buffered, buf.Length, frame);
    }

    /** The loop body. */
    method TakeFrame(frame: u32)
      requires 0 < buf.Length
      modifies this`readPos, this`buffered
      ensures readPos == Ring.Turn(old(readPos) + frame, buf.Length) && buffered == Sub32(old(buffered), frame)
    {
      Ring.ModIsTurn(readPos + frame, buf.Length);
      readPos := (readPos + frame) % buf.Length;
      buffered := Sub32(buffered, frame);
    }

    /** The oldest `k` bytes leave. */
    method DropFront(k: nat)
      requires InRing() && k <= buffered
      modifies this`readPos, this`buffered
      ensures InRing() && buffered == old(buffered) - k && Contents() == old(Contents())[k..]
    {
      Ring.Drop(buf[..], readPos, buffered, k);
      Ring.ModIsWrap(readPos + k, buf.Length);
      readPos := (readPos + k) % buf.Length;
      buffered := buffered - k;
    }

    /** `audio_regulator_push`, for any push that stays in the buffer. That the counter may wrap around in the drop loop
        makes no difference. The product that the loop computes in every turn is computed once. */
    method Push(data: seq<byte>)
      requires Valid() && Ring.PiecesFit(writePos, |data|, buf.Length)
      requires buffered + |data| < U32_BASE && (buffered + |data| > buf.Length ==> Frame() <= buf.Length)
      modifies this, buf
      ensures Valid() && underflowCount == old(underflowCount)
      ensures Contents() == KeptBy(old(Contents()) + data, buf.Length, Frame())
      ensures old(WholeFrames()) && Whole(|data|, Frame()) ==>
                WholeFrames() && Contents() == LastFit(old(Contents()) + data, buf.Length)
    {
      ghost var all := Contents() + data;
      if WholeFrames() && Whole(|data|, Frame()) {
        AllWhole(buffered, |data|, buf.Length, Frame());
        WholePush(all, buf.Length, Frame());
      }
      PushBytes(data, channels * bytesPerSample);
    }

    method PushBytes(data: seq<byte>, frame: u32)
      requires InRing() && Ring.PiecesFit(writePos, |data|, buf.Length) && 0 < frame
      requires buffered + |data| < U32_BASE && (buffered + |data| > buf.Length ==> frame <= buf.Length)
      modifies this`readPos, this`writePos, this`buffered, buf
      ensures InRing() && Contents() == KeptBy(old(Contents()) + data, buf.Length, frame)
    {
      ghost var ring, start, fill, at := buf[..], readPos, buffered, writePos;
      ghost var gone := DropAndWrite(data, frame);
      PushDone(ring, start, fill, at, data, frame, gone, buf[..], readPos, buffered, writePos);
    }

    method DropAndWrite(data: seq<byte>, frame: u32) returns (ghost gone: nat)
      requires 0 < frame && readPos < buf.Length && writePos < buf.Length
               && 2 * buf.Length < U32_BASE
      requires buffered + |data| < U32_BASE && (buffered + |data| > buf.Length ==> frame <= buf.Length)
      requires Ring.PiecesFit(writePos, |data|, buf.Length)
      modifies this`readPos, this`writePos, this`buffered, buf
      ensures DroppedAndWritten(old(buf[..]), old(readPos), old(buffered), old(writePos), data, frame, gone, buf[..],
                                readPos, buffered, writePos)
    {
      gone := DropOldest(|data|, frame);
      WriteData(data);
    }

    /** The copying half of a push. */
    method WriteData(data: seq<byte>)
      requires 2 * buf.Length < U32_BASE && writePos < buf.Length && Ring.PiecesFit(writePos, |data|, buf.Length)
      modifies this`writePos, this`buffered, buf
      ensures |data| <= 2 * buf.Length - old(writePos) && buf[..] == Ring.Overwrite(old(buf[..]), old(writePos), data)
      ensures writePos == Ring.Turn(old(writePos) + |data|, buf.Length)
      ensures buffered == Add32(old(buffered), |data|)
    {
      CopyAround(buf, writePos, data);
      Ring.ModIsTurn(writePos + |data|, buf.Length);
      writePos := (writePos + |data|) % buf.Length;
      buffered := Add32(buffered, |data|);
    }

    /** `audio_regulator_pull` */
    method Pull(out: array<byte>, samples: nat)
      requires Valid() && out != buf && samples * Frame() <= out.Length < U32_BASE
      modifies this, out
      ensures Valid() && (old(WholeFrames()) ==> WholeFrames())
      ensures var n := samples * Frame();
              && out[..n] == Pulled(old(Contents()), n) && out[n..] == old(out[n..])
              && Contents() == AfterPull(old(Contents()), n)
              && (forall i :: 0 <= i < n ==> out[i] == if i < |old(Contents())| then old(Contents())[i] else 0)
              && Contents() == (if n <= |old(Contents())| then old(Contents())[n..] else [])
              && underflowCount == (if n <= |old(Contents())| then old(underflowCount)
                 else (old(underflowCount) + 1) as int % U32_BASE)
    {
      var bytesNeeded := samples * (channels * bytesPerSample);
      WholeMultiple(samples, Frame());
      if buffered >= bytesNeeded {
        CopyOut(out, bytesNeeded);
        if WholeFrames() {
          WholeDifference(buffered, bytesNeeded, Frame());
        }
        DropFront(bytesNeeded);
      } else {
        Underflow(out, bytesNeeded);
      }
      forall i | 0 <= i < bytesNeeded
        ensures out[i] == out[..bytesNeeded][i]
      {
      }
    }

    /** The underflow branch of a pull: what there is, then silence, and the ring starts again. */
    method Underflow(out: array<byte>, n: nat)
      requires InRing() && out != buf && buffered < n <= out.Length
      modifies this, out
      ensures InRing() && Contents() == [] && underflowCount == (old(underflowCount) + 1) as int % U32_BASE
      ensures out[..n] == old(Contents()) + Silence(n - |old(Contents())|) && out[n..] == old(out[n..])
    {
      CopyAllThenSilence(out, n);
      readPos, writePos, buffered := 0, 0, 0;
      underflowCount := (underflowCount + 1) as int % U32_BASE;
    }

    /** Everything buffered, then zeros. */
    method CopyAllThenSilence(out: array<byte>, n: nat)
      requires InRing() && out != buf && buffered < n <= out.Length
      modifies out
      ensures out[..n] == Contents() + Silence(n - buffered) && out[n..] == old(out[n..])
    {
      if buffered > 0 {
        CopyFromRing(buf, readPos, out, buffered);
      }
      assert out[..buffered] == Contents() && out[buffered..] == old(out[buffered..]);
      assert out[n..] == out[buffered..][n - buffered..] && old(out[n..]) == old(out[buffered..])[n - buffered..];
      CopyNext(out, buffered, Silence(n - buffered));
    }

    /** The oldest `n` bytes, still kept. */
    method CopyOut(out: array<byte>, n: nat)
      requires InRing() && out != buf && n <= buffered && n <= out.Length
      modifies out
      ensures out[..n] == Contents()[..n] && out[n..] == old(out[n..])
    {
      Ring.Split(buf[..], readPos, n, buffered - n);
      CopyFromRing(buf, readPos, out, n);
    }

    /** `audio_regulator_buffered_samples`: the whole frames buffered. */
    method BufferedSamples() returns (samples: nat)
      requires Valid()
      ensures samples * Frame() <= |Contents()| < samples * Frame() + Frame()
      ensures WholeFrames() ==> samples * Frame() == |Contents()|
    {
      samples := buffered / (channels * bytesPerSample);
      QuotientBounds(buffered, Frame());
      if WholeFrames() {
        WholeDivides(buffered, Frame());
      }
    }
  }
}
