/** The channel table of one ADB connection (`adb/session.c`). */
module Session {
  import opened Bytes
  import opened Framing
  import opened Transport

  const MAX_CHANNELS := 64
  const BANNER_MAX := 512
  const ADB_VERSION: u32 := 0x01000001
  const ADB_VERSION_SKIP_CHECKSUM: u32 := 0x01000001
  const ADB_STLS_VERSION: u32 := 0x01000000
  const ADB_CNXN: u32 := 0x4e584e43
  const ADB_AUTH: u32 := 0x48545541
  const ADB_STLS: u32 := 0x534c5453
  const AUTH_TOKEN := 1
  const AUTH_RSAKEY := 2
  const EXCHANGE_TRIES := 50

  datatype ChanState = Opening | Open | Closing | Closed

  datatype Channel = Channel(localId: u32, remoteId: u32, state: ChanState)

  datatype Phase = Disconnected | Connecting | AuthSent | AuthRsapubSent | Connected | TlsNegotiating

  /** What the handshake messages change. */
  datatype Link = Link(phase: Phase, banner: seq<byte>, version: u32, maxPayload: u32, tls: bool, stlsSent: bool)

  /** The connection: the table, the next local id, every message handed to the sender, the shell output delivered,
      and the state of the handshake. */
  datatype Conn = Conn(channels: seq<Channel>, nextLocalId: u32, sent: seq<Message>, shell: seq<seq<byte>>, link: Link)

  /** A cleared buffer. */
  function Zeros(n: nat): (b: seq<byte>)
    ensures |b| == n && forall i :: 0 <= i < n ==> b[i] == 0
  {
    seq(n, _ => 0)
  }

  /** A payload buffer. */
  type Buffer = b: seq<byte> | |b| == MAX_PAYLOAD witness Zeros(MAX_PAYLOAD)

  /** A new TLS connection: what the peer will send over it, how its reads will go, and what the freshly allocated
      payload buffer for them holds. */
  datatype Tunnel = Tunnel(incoming: seq<byte>, script: seq<Io>, scratch: Buffer)

  /** What the code depends on from outside: whether a shell callback is installed, the signature of a token, and
      the outcome of a TLS handshake, which may differ with everything sent before. */
  datatype Env = Env(shellCb: bool, sign: seq<byte> -> Option<Payload>, upgrade: seq<Message> -> Option<Tunnel>)

  function Control(command: u32, arg0: u32, arg1: u32): Message {
    Message(command, arg0, arg1, 0, [])
  }

  /** What the search loops look for. */
  datatype Key = Local(localId: u32) | Both(localId: u32, remoteId: u32)

  predicate Hits(c: Channel, k: Key) {
    c.localId == k.localId && (k.Both? ==> c.remoteId == k.remoteId)
  }

  /** The first channel a search loop stops at, or the length of the table. */
  function Find(channels: seq<Channel>, k: Key): (i: nat)
    ensures i <= |channels| && (i < |channels| ==> Hits(channels[i], k))
    ensures forall j :: 0 <= j < i ==> !Hits(channels[j], k)
  {
    if channels == [] || Hits(channels[0], k) then 0
    else
      var i := Find(channels[1..], k);
      assert forall j :: 1 <= j < i + 1 ==> channels[j] == channels[1..][j - 1];
      i + 1
  }

  // Operations on values

  /** `session_open_channel`; `sendOk` is the outcome of sending the OPEN message. */
  function OpenChannel(c: Conn, service: Payload, sendOk: bool): Conn {
    if |c.channels| >= MAX_CHANNELS then c
    else
      c.(channels := if sendOk then c.channels + [Channel(c.nextLocalId, 0, Opening)] else c.channels,
         nextLocalId := (c.nextLocalId + 1) as int % U32_BASE,
         sent := c.sent + [Message(ADB_OPEN, c.nextLocalId, 0, 0, service)])
  }

  /** `session_close_channel`. */
  function CloseChannel(c: Conn, i: nat): Conn
    requires i < |c.channels|
  {
    var ch := c.channels[i];
    if ch.state.Closed? then c
    else
      c.(channels := c.channels[i := ch.(state := Closed)],
         sent := if ch.remoteId != 0 then c.sent + [Control(ADB_CLSE, ch.localId, ch.remoteId)] else c.sent)
  }

  function SetRemote(channels: seq<Channel>, localId: u32, remoteId: u32): (r: seq<Channel>)
    ensures |r| == |channels|
  {
    var i := Find(channels, Local(localId));
    if i < |channels| then channels[i := channels[i].(remoteId := remoteId, state := Open)] else channels
  }

  /** The CNXN branch: the smaller version and payload bound win. */
  function Greeted(link: Link, m: Message): Link {
    link.(phase := Connected,
          banner := if m.payload == [] then link.banner else m.payload[..Min(|m.payload|, BANNER_MAX - 1)],
          version := Min(m.arg0, ADB_VERSION), maxPayload := Min(m.arg1, MAX_PAYLOAD))
  }

  /** The reply to an AUTH message: a signature of its token, if it holds one and signing succeeds. */
  function AuthReply(m: Message, env: Env): seq<Message> {
    var sig := env.sign(m.payload);
    if m.arg0 == AUTH_TOKEN && sig.Some? then [Message(ADB_AUTH, AUTH_RSAKEY, 0, 0, sig.value)] else []
  }

  const STLS_REPLY := Message(ADB_STLS, ADB_STLS_VERSION, 0, 0, [])

  /** What was sent and how it left the link. */
  datatype Exchanged = Exchanged(sent: seq<Message>, link: Link)

  /** What the exchange over a new TLS connection sends for a message handed on, and the link after it. */
  function React(m: Message, link: Link, env: Env): Exchanged {
    if m.command == ADB_AUTH && m.arg0 == AUTH_TOKEN then Exchanged(AuthReply(m, env), link)
    else if m.command == ADB_STLS then Exchanged([STLS_REPLY], link)
    else if m.command == ADB_CNXN then Exchanged([], Greeted(link, m))
    else Exchanged([], link)
  }

  /** One receive of that exchange: into a cleared header and the buffer. */
  function Reading(t: Tunnel): (r: Reception)
    ensures |r.hdr| == HEADER_SIZE && |r.pay| == MAX_PAYLOAD
  {
    Receive(t.incoming, t.script, Zeros(HEADER_SIZE), t.scratch, MAX_PAYLOAD, true, true)
  }

  /** The messages handed on by up to `tries` receives. One that fails hands on nothing; nothing is said of what
      follows an overrun. */
  function Readings(t: Tunnel, tries: nat): seq<Message>
    decreases tries
  {
    if tries == 0 then []
    else
      var r := Reading(t);
      var rest := Tunnel(r.rest, r.script, r.pay);
      if r.rc == OVERRUN then []
      else if r.rc < 0 then Readings(rest, tries - 1)
      else [HandedOn(r.hdr, r.pay)] + Readings(rest, tries - 1)
  }

  /** How a list of messages is acted on, up to the one that connects. */
  function Reactions(ms: seq<Message>, link: Link, env: Env): Exchanged
    decreases |ms|
  {
    if ms == [] || link.phase == Connected then Exchanged([], link)
    else
      var now := React(ms[0], link, env);
      var later := Reactions(ms[1..], now.link, env);
      Exchanged(now.sent + later.sent, later.link)
  }

  /** That exchange: up to `tries` receives, each message handed on acted on, until connected. */
  function Exchange(t: Tunnel, tries: nat, link: Link, env: Env): Exchanged {
    Reactions(Readings(t, tries), link, env)
  }

  /** The STLS branch: reply, then the handshake and the exchange over TLS; ignored once TLS is up. */
  function StartTls(c: Conn, env: Env): Conn {
    if c.link.tls then c
    else
      var asked := c.(sent := c.sent + [STLS_REPLY], link := c.link.(phase := TlsNegotiating, stlsSent := true));
      match env.upgrade(asked.sent)
      case None => asked
      case Some(t) =>
        var done := Exchange(t, EXCHANGE_TRIES, asked.link.(tls := true), env);
        asked.(sent := asked.sent + done.sent, link := done.link)
  }

  /** `session_handle_message`. */
  function Handle(c: Conn, m: Message, env: Env): Conn {
    if m.command == ADB_OPEN then
      c.(channels := SetRemote(c.channels, m.arg1, m.arg0), sent := c.sent + [Control(ADB_OKAY, m.arg1, m.arg0)])
    else if m.command == ADB_OKAY then
      c.(channels := SetRemote(c.channels, m.arg1, m.arg0))
    else if m.command == ADB_WRTE then
      if Find(c.channels, Both(m.arg1, m.arg0)) < |c.channels| then
        c.(shell := if env.shellCb then c.shell + [m.payload] else c.shell,
           sent := c.sent + [Control(ADB_OKAY, m.arg1, m.arg0)])
      else c
    else if m.command == ADB_CLSE then
      var i := Find(c.channels, Local(m.arg0));
      if i < |c.channels| then c.(channels := c.channels[i := c.channels[i].(state := Closed)]) else c
    else if m.command == ADB_CNXN then c.(link := Greeted(c.link, m))
    else if m.command == ADB_STLS then StartTls(c, env)
    else if m.command == ADB_AUTH then
      var reply := AuthReply(m, env);
      if reply == [] then c else c.(sent := c.sent + reply, link := c.link.(phase := AuthSent))
    else c
  }

  /** The channel part of `session_disconnect`: close channels `i` and up. */
  function DisconnectFrom(c: Conn, i: nat): Conn
    requires i <= |c.channels|
    decreases |c.channels| - i
  {
    if i == |c.channels| then c else DisconnectFrom(CloseChannel(c, i), i + 1)
  }

  /** `session_disconnect`, but for closing the socket. */
  function Hangup(c: Conn): Conn {
    var d := DisconnectFrom(c, 0);
    d.(link := d.link.(phase := Disconnected))
  }

  // Runs

  datatype Op =
    | DoOpen(service: Payload, sendOk: bool)
    | DoHandle(m: Message)
    | DoClose(i: nat)

  function Apply(c: Conn, op: Op, env: Env): Conn {
    match op
    case DoOpen(service, ok) => OpenChannel(c, service, ok)
    case DoHandle(m) => Handle(c, m, env)
    case DoClose(i) => if i < |c.channels| then CloseChannel(c, i) else c
  }

  function Run(c: Conn, ops: seq<Op>, env: Env): Conn
    decreases |ops|
  {
    if ops == [] then c else Run(Apply(c, ops[0], env), ops[1..], env)
  }

  /** A connection before its first channel. */
  function Fresh(link: Link): Conn {
    Conn([], 1, [], [], link)
  }

  /** Local ids in the table strictly increase and stay below the next one to be given out. */
  ghost predicate Inv(c: Conn) {
    && |c.channels| <= MAX_CHANNELS
    && (forall i, j :: 0 <= i < j < |c.channels| ==> c.channels[i].localId < c.channels[j].localId)
    && (forall i :: 0 <= i < |c.channels| ==> 0 < c.channels[i].localId < c.nextLocalId)
    && c.nextLocalId > 0
  }

  function Opens(ops: seq<Op>): nat {
    if ops == [] then 0 else (if ops[0].DoOpen? then 1 else 0) + Opens(ops[1..])
  }

  lemma ApplyKeepsInv(c: Conn, op: Op, env: Env)
    requires Inv(c) && (op.DoOpen? ==> c.nextLocalId + 1 < U32_BASE)
    ensures Inv(Apply(c, op, env))
    ensures c.nextLocalId <= Apply(c, op, env).nextLocalId <= c.nextLocalId + if op.DoOpen? then 1 else 0
  {
    match op {
      case DoOpen(service, ok) =>
      case DoHandle(m) =>
        HandleKeepsIds(c, m, env);
        SameIdsKeepInv(c, Handle(c, m, env));
      case DoClose(i) => SameIdsKeepInv(c, Apply(c, op, env));
    }
  }

  lemma HandleKeepsIds(c: Conn, m: Message, env: Env)
    ensures var c' := Handle(c, m, env);
            && |c'.channels| == |c.channels| && c'.nextLocalId == c.nextLocalId
            && forall i :: 0 <= i < |c.channels| ==> c'.channels[i].localId == c.channels[i].localId
  {
  }

  lemma SameIdsKeepInv(c: Conn, c': Conn)
    requires Inv(c) && |c'.channels| == |c.channels| && c'.nextLocalId == c.nextLocalId
    requires forall i :: 0 <= i < |c.channels| ==> c'.channels[i].localId == c.channels[i].localId
    ensures Inv(c')
  {
  }

  lemma {:induction false} RunKeepsInv(c: Conn, ops: seq<Op>, env: Env)
    requires Inv(c) && c.nextLocalId + Opens(ops) < U32_BASE
    ensures Inv(Run(c, ops, env))
    decreases |ops|
  {
    if ops != [] {
      ApplyKeepsInv(c, ops[0], env);
      RunKeepsInv(Apply(c, ops[0], env), ops[1..], env);
    }
  }

  /** The local ids the OPEN messages carried, in sending order. */
  function Announced(sent: seq<Message>): seq<u32> {
    if sent == [] then []
    else Announced(sent[..|sent| - 1]) + if sent[|sent| - 1].command == ADB_OPEN then [sent[|sent| - 1].arg0] else []
  }

  /** Every id so far was announced once, in order, starting with 1. */
  ghost predicate AnnouncedInOrder(c: Conn) {
    UpTo(Announced(c.sent), c.nextLocalId)
  }

  ghost predicate UpTo(ids: seq<u32>, next: u32) {
    |ids| == next - 1 && forall i :: 0 <= i < |ids| ==> ids[i] == i + 1
  }

  lemma AnnouncedSnoc(sent: seq<Message>, m: Message)
    ensures Announced(sent + [m]) == Announced(sent) + if m.command == ADB_OPEN then [m.arg0] else []
  {
    assert (sent + [m])[..|sent|] == sent;
  }

  lemma ApplyAnnounces(c: Conn, op: Op, env: Env)
    requires AnnouncedInOrder(c) && (op.DoOpen? ==> c.nextLocalId + 1 < U32_BASE)
    ensures AnnouncedInOrder(Apply(c, op, env))
  {
    match op {
      case DoOpen(service, ok) => OpenAnnounces(c, service, ok);
      case DoHandle(m) =>
        HandleReplies(c, m, env);
        HandleKeepsIds(c, m, env);
        SameAnnounced(c, Handle(c, m, env));
      case DoClose(i) =>
        if i < |c.channels| {
          CloseReplies(c, i);
          SameAnnounced(c, CloseChannel(c, i));
        }
    }
  }

  lemma OpenAnnounces(c: Conn, service: Payload, ok: bool)
    requires AnnouncedInOrder(c) && c.nextLocalId + 1 < U32_BASE
    ensures AnnouncedInOrder(OpenChannel(c, service, ok))
  {
    var m := Message(ADB_OPEN, c.nextLocalId, 0, 0, service);
    AnnouncedSnoc(c.sent, m);
    UpToSnoc(Announced(c.sent), c.nextLocalId, Announced(c.sent + [m]));
  }

  lemma UpToSnoc(ids: seq<u32>, next: u32, ids': seq<u32>)
    requires UpTo(ids, next) && next + 1 < U32_BASE && ids' == ids + [next]
    ensures UpTo(ids', next + 1)
  {
  }

  lemma SameAnnounced(c: Conn, c': Conn)
    requires AnnouncedInOrder(c) && Announced(c'.sent) == Announced(c.sent) && c'.nextLocalId == c.nextLocalId
    ensures AnnouncedInOrder(c')
  {
  }

  lemma HandleReplies(c: Conn, m: Message, env: Env)
    ensures Announced(Handle(c, m, env).sent) == Announced(c.sent)
  {
    AnnouncedSnoc(c.sent, Control(ADB_OKAY, m.arg1, m.arg0));
    assert Announced(c.sent) + [] == Announced(c.sent);
    if m.command == ADB_AUTH {
      AnnouncedNone(c.sent, AuthReply(m, env));
    } else if m.command == ADB_STLS {
      StartTlsReplies(c, env);
    }
  }

  lemma StartTlsReplies(c: Conn, env: Env)
    ensures Announced(StartTls(c, env).sent) == Announced(c.sent)
  {
    var asked := c.sent + [STLS_REPLY];
    AnnouncedNone(c.sent, [STLS_REPLY]);
    var t := env.upgrade(asked);
    if t.Some? {
      var link := c.link.(phase := TlsNegotiating, stlsSent := true, tls := true);
      ExchangeSends(t.value, EXCHANGE_TRIES, link, env);
      AnnouncedNone(asked, Exchange(t.value, EXCHANGE_TRIES, link, env).sent);
    }
  }

  /** The exchange answers STLS and AUTH messages, sends nothing else, and leaves TLS up. */
  lemma ExchangeSends(t: Tunnel, tries: nat, link: Link, env: Env)
    ensures var Exchanged(sent, after) := Exchange(t, tries, link, env);
            && (forall i :: 0 <= i < |sent| ==> sent[i].command in {ADB_AUTH, ADB_STLS})
            && after.tls == link.tls && after.stlsSent == link.stlsSent
  {
    ReactionsSend(Readings(t, tries), link, env);
  }

  lemma {:induction false} ReactionsSend(ms: seq<Message>, link: Link, env: Env)
    ensures var Exchanged(sent, after) := Reactions(ms, link, env);
            && (forall i :: 0 <= i < |sent| ==> sent[i].command in {ADB_AUTH, ADB_STLS})
            && after.tls == link.tls && after.stlsSent == link.stlsSent
    decreases |ms|
  {
    if ms != [] && link.phase != Connected {
      ReactSends(ms[0], link, env);
      ReactionsSend(ms[1..], React(ms[0], link, env).link, env);
    }
  }

  lemma ReactSends(m: Message, link: Link, env: Env)
    ensures var Exchanged(sent, after) := React(m, link, env);
            && (forall i :: 0 <= i < |sent| ==> sent[i].command in {ADB_AUTH, ADB_STLS})
            && after.tls == link.tls && after.stlsSent == link.stlsSent
  {
  }

  /** An STLS message of which a would-block leaves the first `k` bytes is not received, but it is answered if and only
      if they hold the whole command word. */
  lemma SplitStlsAnsweredIff(m: Message, k: nat, rest: seq<byte>, later: seq<Io>, scratch: Buffer, link: Link, env: Env)
    requires m.command == ADB_STLS && 0 < k < HEADER_SIZE
    ensures var b, script := Encode(m) + rest, [Chunk(k), WouldBlock] + later;
            var r := Receive(b, script, Zeros(HEADER_SIZE), scratch, MAX_PAYLOAD, true, true);
            && r.rc == 0 && r.rest == b[k..]
            && React(HandedOn(r.hdr, r.pay), link, env) == Exchanged(if k >= 4 then [STLS_REPLY] else [], link)
  {
    var b := Encode(m) + rest;
    StopsAfter(k, |b|, HEADER_SIZE, later);
    SplitCommand(m, k, rest);
  }

  /** The command word of a cleared header after the first `k` bytes of an STLS message. */
  lemma SplitCommand(m: Message, k: nat, rest: seq<byte>)
    requires m.command == ADB_STLS && 0 < k < HEADER_SIZE
    ensures var hdr := (Encode(m) + rest)[..k] + Zeros(HEADER_SIZE)[k..];
            && |hdr| == HEADER_SIZE
            && BytesToWords(hdr)[0] ==
               if k >= 4 then ADB_STLS else if k == 3 then 0x4c5453 else if k == 2 then 0x5453 else 0x53
  {
    var hdr := (Encode(m) + rest)[..k] + Zeros(HEADER_SIZE)[k..];
    HeaderLayout(m);
    assert Le32(ADB_STLS) == [0x53, 0x54, 0x4c, 0x53];
    assert Encode(m)[..4] == [0x53, 0x54, 0x4c, 0x53];
    assert forall i :: 0 <= i < 4 ==> hdr[i] == if i < k then Encode(m)[..4][i] else 0;
    assert BytesToWords(hdr)[0] == ReadLe32(hdr);
  }

  lemma {:induction false} AnnouncedNone(sent: seq<Message>, replies: seq<Message>)
    requires forall i :: 0 <= i < |replies| ==> replies[i].command != ADB_OPEN
    ensures Announced(sent + replies) == Announced(sent)
  {
    if replies == [] {
      assert sent + replies == sent;
    } else {
      var front := replies[..|replies| - 1];
      assert sent + replies == sent + front + [replies[|front|]];
      AnnouncedSnoc(sent + front, replies[|front|]);
      AnnouncedNone(sent, front);
    }
  }

  lemma CloseReplies(c: Conn, i: nat)
    requires i < |c.channels|
    ensures Announced(CloseChannel(c, i).sent) == Announced(c.sent)
  {
    AnnouncedSnoc(c.sent, Control(ADB_CLSE, c.channels[i].localId, c.channels[i].remoteId));
    assert Announced(c.sent) + [] == Announced(c.sent);
  }

  lemma {:induction false} RunAnnounces(c: Conn, ops: seq<Op>, env: Env)
    requires Inv(c) && AnnouncedInOrder(c) && c.nextLocalId + Opens(ops) < U32_BASE
    ensures AnnouncedInOrder(Run(c, ops, env))
    decreases |ops|
  {
    if ops != [] {
      ApplyKeepsInv(c, ops[0], env);
      ApplyAnnounces(c, ops[0], env);
      RunAnnounces(Apply(c, ops[0], env), ops[1..], env);
    }
  }

  /** Failed sends included, no id is ever offered to the peer twice, and each channel in the table has the id of
      exactly one OPEN. */
  lemma IdsOfferedOnce(link: Link, ops: seq<Op>, env: Env)
    requires Opens(ops) < U32_BASE - 1
    ensures var c := Run(Fresh(link), ops, env);
            var a := Announced(c.sent);
            && (forall i, j :: 0 <= i < j < |a| ==> a[i] != a[j])
            && (forall k :: 0 <= k < |c.channels| ==> c.channels[k].localId in a)
  {
    RunKeepsInv(Fresh(link), ops, env);
    RunAnnounces(Fresh(link), ops, env);
    var c := Run(Fresh(link), ops, env);
    forall k | 0 <= k < |c.channels|
      ensures c.channels[k].localId in Announced(c.sent)
    {
      assert Announced(c.sent)[c.channels[k].localId - 1] == c.channels[k].localId;
    }
  }

  // What a message does in any state a run can reach

  ghost predicate Reachable(c: Conn, env: Env) {
    exists link: Link, ops: seq<Op> :: Opens(ops) < U32_BASE - 1 && c == Run(Fresh(link), ops, env)
  }

  lemma ReachableInv(c: Conn, env: Env)
    requires Reachable(c, env)
    ensures Inv(c)
  {
    var link: Link, ops: seq<Op> :| Opens(ops) < U32_BASE - 1 && c == Run(Fresh(link), ops, env);
    RunKeepsInv(Fresh(link), ops, env);
  }

  /** OPEN and OKAY rewrite exactly the channels they address by local id, CLSE exactly those it addresses by
      its first argument, and nothing else touches the table. */
  lemma HandleTable(c: Conn, m: Message, env: Env)
    requires Reachable(c, env)
    ensures var c' := Handle(c, m, env);
            && |c'.channels| == |c.channels| && c'.nextLocalId == c.nextLocalId
            && forall i :: 0 <= i < |c.channels| ==>
                 c'.channels[i] ==
                 if m.command in {ADB_OPEN, ADB_OKAY} && c.channels[i].localId == m.arg1
                 then Channel(m.arg1, m.arg0, Open)
                 else if m.command == ADB_CLSE && c.channels[i].localId == m.arg0
                 then c.channels[i].(state := Closed)
                 else c.channels[i]
  {
    ReachableInv(c, env);
  }

  /** A message changes at most one channel. */
  lemma OneChannelChanges(c: Conn, m: Message, env: Env, i: nat, j: nat)
    requires Reachable(c, env) && i < |c.channels| && j < |c.channels|
    requires Handle(c, m, env).channels[i] != c.channels[i] && Handle(c, m, env).channels[j] != c.channels[j]
    ensures i == j
  {
    ReachableInv(c, env);
    HandleTable(c, m, env);
  }

  /** A WRITE is delivered and acknowledged once, with the ids swapped, if some channel has both its ids;
      otherwise nothing happens at all. */
  lemma WriteDeliveredOnce(c: Conn, m: Message, env: Env)
    requires m.command == ADB_WRTE
    ensures var c' := Handle(c, m, env);
            if exists i :: 0 <= i < |c.channels| && c.channels[i].localId == m.arg1 && c.channels[i].remoteId == m.arg0
            then c'.sent == c.sent + [Control(ADB_OKAY, m.arg1, m.arg0)]
                 && c'.shell == (if env.shellCb then c.shell + [m.payload] else c.shell) && c'.channels == c.channels
            else c' == c
  {
    if exists i :: 0 <= i < |c.channels| && c.channels[i].localId == m.arg1 && c.channels[i].remoteId == m.arg0 {
      var i :| 0 <= i < |c.channels| && c.channels[i].localId == m.arg1 && c.channels[i].remoteId == m.arg0;
      assert Hits(c.channels[i], Both(m.arg1, m.arg0));
    }
  }

  /** "Closed stays closed" is not a law of this code: it holds for a message exactly when that message is not
      an OPEN or OKAY naming the channel. */
  lemma ClosedStaysClosedIff(c: Conn, m: Message, env: Env, i: nat)
    requires Reachable(c, env) && i < |c.channels| && c.channels[i].state == Closed
    ensures Handle(c, m, env).channels[i].state == Closed
            <==> !(m.command in {ADB_OPEN, ADB_OKAY} && m.arg1 == c.channels[i].localId)
  {
    HandleTable(c, m, env);
  }

  // What each message does, by command word; `Framing.CommandNames` and `Framing.HandshakeNames` spell the words out

  /** OPEN opens the channel its second argument names under the remote id in its first, and is answered with OKAY,
      the ids swapped. */
  lemma OpenEffect(c: Conn, arg0: u32, arg1: u32, check: u32, payload: Payload, env: Env)
    requires Reachable(c, env)
    ensures var c' := Handle(c, Message(0x4e45_504f, arg0, arg1, check, payload), env);
            && c' == c.(channels := c'.channels, sent := c.sent + [Message(0x5941_4b4f, arg1, arg0, 0, [])])
            && |c'.channels| == |c.channels|
            && forall i :: 0 <= i < |c.channels| ==>
                 c'.channels[i] == if c.channels[i].localId == arg1 then Channel(arg1, arg0, Open) else c.channels[i]
  {
    HandleTable(c, Message(ADB_OPEN, arg0, arg1, check, payload), env);
  }

  /** OKAY only opens it. */
  lemma OkayEffect(c: Conn, arg0: u32, arg1: u32, check: u32, payload: Payload, env: Env)
    requires Reachable(c, env)
    ensures var c' := Handle(c, Message(0x5941_4b4f, arg0, arg1, check, payload), env);
            && c' == c.(channels := c'.channels) && |c'.channels| == |c.channels|
            && forall i :: 0 <= i < |c.channels| ==>
                 c'.channels[i] == if c.channels[i].localId == arg1 then Channel(arg1, arg0, Open) else c.channels[i]
  {
    HandleTable(c, Message(ADB_OKAY, arg0, arg1, check, payload), env);
  }

  /** WRTE is answered with OKAY, the ids swapped, and its payload handed to the shell callback, if some channel has
      both ids; otherwise nothing happens. */
  lemma WrteEffect(c: Conn, arg0: u32, arg1: u32, check: u32, payload: Payload, env: Env)
    ensures var c' := Handle(c, Message(0x4554_5257, arg0, arg1, check, payload), env);
            if exists i :: 0 <= i < |c.channels| && c.channels[i].localId == arg1 && c.channels[i].remoteId == arg0 then
              c' == c.(sent := c.sent + [Message(0x5941_4b4f, arg1, arg0, 0, [])],
                       shell := if env.shellCb then c.shell + [payload] else c.shell)
            else c' == c
  {
    WriteDeliveredOnce(c, Message(ADB_WRTE, arg0, arg1, check, payload), env);
  }

  /** CLSE closes the channel its first argument names as a local id. */
  lemma ClseEffect(c: Conn, arg0: u32, arg1: u32, check: u32, payload: Payload, env: Env)
    requires Reachable(c, env)
    ensures var c' := Handle(c, Message(0x4553_4c43, arg0, arg1, check, payload), env);
            && c' == c.(channels := c'.channels) && |c'.channels| == |c.channels|
            && forall i :: 0 <= i < |c.channels| ==>
                 var ch := c.channels[i];
                 c'.channels[i] == if ch.localId == arg0 then Channel(ch.localId, ch.remoteId, Closed) else ch
  {
    HandleTable(c, Message(ADB_CLSE, arg0, arg1, check, payload), env);
  }

  /** CNXN connects: the smaller of its version and 0x01000001, the smaller of its payload bound and 1 MiB, and the
      first 511 bytes of its payload for the banner, unless it is empty. */
  lemma CnxnEffect(c: Conn, arg0: u32, arg1: u32, check: u32, payload: Payload, env: Env)
    ensures var c' := Handle(c, Message(0x4e58_4e43, arg0, arg1, check, payload), env);
            var v, n := c'.link.version, c'.link.maxPayload;
            && c' == c.(link := Link(Connected, c'.link.banner, v, n, c.link.tls, c.link.stlsSent))
            && v <= arg0 && v <= 0x0100_0001 && (v == arg0 || v == 0x0100_0001)
            && n <= arg1 && n <= 1_048_576 && (n == arg1 || n == 1_048_576)
            && c'.link.banner ==
               if |payload| == 0 then c.link.banner else if |payload| < 512 then payload else payload[..511]
  {
    assert |payload| < 512 ==> payload[..|payload|] == payload;
  }

  /** In the exchange over TLS it does the same and nothing is sent. */
  lemma CnxnInExchange(link: Link, arg0: u32, arg1: u32, check: u32, payload: Payload, env: Env)
    ensures var Exchanged(sent, after) := React(Message(0x4e58_4e43, arg0, arg1, check, payload), link, env);
            var v, n := after.version, after.maxPayload;
            && sent == [] && after == Link(Connected, after.banner, v, n, link.tls, link.stlsSent)
            && v <= arg0 && v <= 0x0100_0001 && (v == arg0 || v == 0x0100_0001)
            && n <= arg1 && n <= 1_048_576 && (n == arg1 || n == 1_048_576)
            && after.banner ==
               if |payload| == 0 then link.banner else if |payload| < 512 then payload else payload[..511]
  {
    assert |payload| < 512 ==> payload[..|payload|] == payload;
  }

  /** AUTH with a token (first argument 1) is answered with its signature (2), if signing succeeds; any other is
      ignored. In the exchange the same is sent. */
  lemma AuthEffect(c: Conn, arg0: u32, arg1: u32, check: u32, payload: Payload, env: Env)
    ensures var m := Message(0x4854_5541, arg0, arg1, check, payload);
            var sig := env.sign(payload);
            if arg0 == 1 && sig.Some? then
              var reply := Message(0x4854_5541, 2, 0, 0, sig.value);
              && Handle(c, m, env) == c.(sent := c.sent + [reply], link := c.link.(phase := AuthSent))
              && React(m, c.link, env) == Exchanged([reply], c.link)
            else Handle(c, m, env) == c && React(m, c.link, env) == Exchanged([], c.link)
  {
  }

  /** STLS is ignored under TLS. Otherwise it is answered with STLS, version 0x01000000, and if the handshake succeeds
      the exchange of up to 50 receives follows. In the exchange it is only answered. */
  lemma StlsEffect(c: Conn, arg0: u32, arg1: u32, check: u32, payload: Payload, env: Env)
    ensures var m := Message(0x534c_5453, arg0, arg1, check, payload);
            var sent := c.sent + [Message(0x534c_5453, 0x0100_0000, 0, 0, [])];
            var link := c.link.(phase := TlsNegotiating, stlsSent := true);
            && React(m, c.link, env) == Exchanged([Message(0x534c_5453, 0x0100_0000, 0, 0, [])], c.link)
            && Handle(c, m, env) ==
               if c.link.tls then c
               else match env.upgrade(sent)
                    case None => c.(sent := sent, link := link)
                    case Some(t) =>
                      var Exchanged(more, after) := Exchange(t, 50, link.(tls := true), env);
                      c.(sent := sent + more, link := after)
  {
  }

  /** Any other message is ignored. */
  lemma OthersIgnored(c: Conn, m: Message, env: Env)
    requires m.command !in {0x4e45_504f, 0x5941_4b4f, 0x4554_5257, 0x4553_4c43, 0x4e58_4e43, 0x4854_5541, 0x534c_5453}
    ensures Handle(c, m, env) == c && React(m, c.link, env) == Exchanged([], c.link)
  {
  }

  /** Opening a channel sends OPEN with the new local id and the service, adds the channel in its first state if the
      send succeeds, and uses up the id; a table of 64 channels is full. */
  lemma OpenChannelSends(c: Conn, service: Payload, sendOk: bool)
    ensures var c' := OpenChannel(c, service, sendOk);
            if |c.channels| >= 64 then c' == c
            else
              && c'.sent == c.sent + [Message(0x4e45_504f, c.nextLocalId, 0, 0, service)]
              && c'.channels == (if sendOk then c.channels + [Channel(c.nextLocalId, 0, Opening)] else c.channels)
              && c'.nextLocalId == (if c.nextLocalId == 0xffff_ffff then 0 else c.nextLocalId + 1)
              && c' == c.(channels := c'.channels, nextLocalId := c'.nextLocalId, sent := c'.sent)
  {
  }

  /** Closing a channel sends CLSE with its local and remote ids, unless it is closed or has no remote id. */
  lemma CloseChannelSends(c: Conn, i: nat)
    requires i < |c.channels|
    ensures var ch, c' := c.channels[i], CloseChannel(c, i);
            && c'.channels == c.channels[i := ch.(state := Closed)]
            && c' == c.(channels := c'.channels, sent := c'.sent)
            && if ch.state != Closed && ch.remoteId != 0
               then c'.sent == c.sent + [Message(0x4553_4c43, ch.localId, ch.remoteId, 0, [])]
               else c'.sent == c.sent
  {
  }

  // The exchange over TLS

  /** A peer whose messages all arrive, in whatever pieces, and of which one connects within the number of receives has
      each acted on in order up to that one. */
  lemma ExchangeServes(ms: seq<Message>, rest: seq<byte>, script: seq<Io>, scratch: Buffer, tries: nat, link: Link,
                       env: Env)
    requires ServesAll(script, ms) && AllAcceptable(ms, MAX_PAYLOAD, true) && |ms| <= tries
    requires Reactions(ms, link, env).link.phase == Connected
    ensures Exchange(Tunnel(EncodeAll(ms) + rest, script, scratch), tries, link, env) == Reactions(ms, link, env)
  {
    var more := ReadingsServed(ms, rest, Tunnel(EncodeAll(ms) + rest, script, scratch), tries);
    ReactionsStop(ms, more, link, env);
  }

  lemma {:induction false} ReadingsServed(ms: seq<Message>, rest: seq<byte>, t: Tunnel, tries: nat)
    returns (more: seq<Message>)
    requires t.incoming == EncodeAll(ms) + rest && ServesAll(t.script, ms)
    requires AllAcceptable(ms, MAX_PAYLOAD, true) && |ms| <= tries
    ensures Readings(t, tries) == ms + more
    decreases |ms|
  {
    if ms == [] {
      more := Readings(t, tries);
    } else {
      var later := ReadingsFirst(ms, rest, t, tries);
      more := ReadingsServed(ms[1..], rest, later, tries - 1);
      Associative([ms[0]], ms[1..], more);
      FirstAndRest(ms);
    }
  }

  lemma FirstAndRest<T>(s: seq<T>)
    requires s != []
    ensures [s[0]] + s[1..] == s
  {
  }

  lemma ReadingsFirst(ms: seq<Message>, rest: seq<byte>, t: Tunnel, tries: nat) returns (later: Tunnel)
    requires ms != [] && t.incoming == EncodeAll(ms) + rest && ServesAll(t.script, ms)
    requires AllAcceptable(ms, MAX_PAYLOAD, true) && tries > 0
    ensures later.incoming == EncodeAll(ms[1..]) + rest && ServesAll(later.script, ms[1..])
    ensures AllAcceptable(ms[1..], MAX_PAYLOAD, true)
    ensures Readings(t, tries) == [ms[0]] + Readings(later, tries - 1)
  {
    var r := Reading(t);
    FirstServed(ms, rest, t.script, t.scratch);
    later := Tunnel(r.rest, r.script, r.pay);
    ReadingsStep(t, tries);
  }

  lemma ExchangeEnds(t: Tunnel, tries: nat, link: Link, env: Env)
    requires tries == 0 || link.phase == Connected
    ensures Exchange(t, tries, link, env) == Exchanged([], link)
  {
  }

  lemma ReadingsStep(t: Tunnel, tries: nat)
    requires tries > 0 && Reading(t).rc >= 0
    ensures var r := Reading(t);
            Readings(t, tries) == [HandedOn(r.hdr, r.pay)] + Readings(Tunnel(r.rest, r.script, r.pay), tries - 1)
  {
  }

  lemma {:induction false} ReactionsStop(ms: seq<Message>, more: seq<Message>, link: Link, env: Env)
    requires Reactions(ms, link, env).link.phase == Connected
    ensures Reactions(ms + more, link, env) == Reactions(ms, link, env)
    decreases |ms|
  {
    if ms != [] && link.phase != Connected {
      assert (ms + more)[1..] == ms[1..] + more;
      ReactionsStop(ms[1..], more, React(ms[0], link, env).link, env);
    }
  }

  lemma FirstServed(ms: seq<Message>, rest: seq<byte>, script: seq<Io>, scratch: Buffer)
    requires ms != [] && ServesAll(script, ms) && AllAcceptable(ms, MAX_PAYLOAD, true)
    ensures var r := Reading(Tunnel(EncodeAll(ms) + rest, script, scratch));
            && r.rc == 1 && HandedOn(r.hdr, r.pay) == ms[0] && r.rest == EncodeAll(ms[1..]) + rest
            && ServesAll(r.script, ms[1..]) && AllAcceptable(ms[1..], MAX_PAYLOAD, true)
  {
    var b, m, more := EncodeAll(ms) + rest, ms[0], EncodeAll(ms[1..]) + rest;
    assert b == Encode(m) + more;
    ParseEncoded(m, more, MAX_PAYLOAD, true);
    PassesOnIncompleteIff(b, script, Zeros(HEADER_SIZE), scratch, MAX_PAYLOAD, true, true);
    ReceiveIff(b, script, Zeros(HEADER_SIZE), scratch, MAX_PAYLOAD, true, true);
  }

  /** A receive that fails before its first byte only costs one try. */
  lemma ExchangeRetries(t: Tunnel, later: seq<Io>, tries: nat, link: Link, env: Env)
    requires t.script == [Fail] + later && link.phase != Connected
    ensures Exchange(t, tries + 1, link, env) == Exchange(t.(script := later), tries, link, env)
    ensures Exchange(t, 0, link, env) == Exchanged([], link)
  {
    assert t.script[0] == Fail && t.script[1..] == later;
    assert Filled(t.script, |t.incoming|, HEADER_SIZE) == Fill(0, Some(Fail), later);
    assert t.incoming[0..] == t.incoming;
  }

  // Disconnect

  /** A farewell is CLSE with the channel's ids; a disconnect leaves every channel closed and the link disconnected. */
  lemma HangupEnds(c: Conn, ch: Channel)
    ensures Farewell(ch) == Message(0x4553_4c43, ch.localId, ch.remoteId, 0, [])
    ensures var h := Hangup(c);
            && h.link == c.link.(phase := Disconnected) && h.nextLocalId == c.nextLocalId && h.shell == c.shell
            && |h.channels| == |c.channels|
            && forall k :: 0 <= k < |c.channels| ==> h.channels[k] == c.channels[k].(state := Closed)
  {
    DisconnectSends(c, 0);
  }

  /** A channel the peer has to be told about: not closed, and its remote id is known. */
  predicate Owed(ch: Channel) {
    !ch.state.Closed? && ch.remoteId != 0
  }

  function Farewell(ch: Channel): Message {
    Control(ADB_CLSE, ch.localId, ch.remoteId)
  }

  /** The CLSE messages of a disconnect. */
  function Farewells(channels: seq<Channel>): seq<Message> {
    if channels == [] then []
    else (if Owed(channels[0]) then [Farewell(channels[0])] else []) + Farewells(channels[1..])
  }

  /** Each channel owed a CLSE gets exactly one and no other is sent: the farewells are those of the channels
      owed one, and their ids strictly increase. */
  lemma FarewellsOnce(c: Conn, env: Env)
    requires Reachable(c, env)
    ensures forall m :: m in Farewells(c.channels) <==>
              exists i :: 0 <= i < |c.channels| && Owed(c.channels[i]) && m == Farewell(c.channels[i])
    ensures var f := Farewells(c.channels); forall i, j :: 0 <= i < j < |f| ==> f[i].arg0 < f[j].arg0
  {
    ReachableInv(c, env);
    FarewellsIncrease(c.channels);
    forall m
      ensures m in Farewells(c.channels) <==>
              exists i :: 0 <= i < |c.channels| && Owed(c.channels[i]) && m == Farewell(c.channels[i])
    {
      FarewellMember(c.channels, m);
    }
  }

  lemma {:induction false} FarewellMember(channels: seq<Channel>, m: Message)
    ensures m in Farewells(channels) <==>
            exists i :: 0 <= i < |channels| && Owed(channels[i]) && m == Farewell(channels[i])
  {
    if channels != [] {
      var rest := channels[1..];
      FarewellMember(rest, m);
      assert forall i :: 0 < i < |channels| ==> channels[i] == rest[i - 1];
      if i :| 0 <= i < |rest| && Owed(rest[i]) && m == Farewell(rest[i]) {
        assert Owed(channels[i + 1]);
      }
    }
  }

  lemma {:induction false} FarewellsIncrease(channels: seq<Channel>)
    requires forall i, j :: 0 <= i < j < |channels| ==> channels[i].localId < channels[j].localId
    ensures var f := Farewells(channels); forall i, j :: 0 <= i < j < |f| ==> f[i].arg0 < f[j].arg0
  {
    if channels != [] {
      var tail := Farewells(channels[1..]);
      FarewellsIncrease(channels[1..]);
      forall k | 0 <= k < |tail|
        ensures channels[0].localId < tail[k].arg0
      {
        FarewellMember(channels[1..], tail[k]);
      }
    }
  }

  /** Disconnecting closes everything and sends exactly the farewells. */
  lemma {:induction false} DisconnectSends(c: Conn, i: nat)
    requires i <= |c.channels|
    ensures var d := DisconnectFrom(c, i);
            && |d.channels| == |c.channels| && d.nextLocalId == c.nextLocalId && d.shell == c.shell && d.link == c.link
            && d.sent == c.sent + Farewells(c.channels[i..])
            && (forall k :: 0 <= k < i ==> d.channels[k] == c.channels[k])
            && (forall k :: i <= k < |c.channels| ==> d.channels[k] == c.channels[k].(state := Closed))
    decreases |c.channels| - i
  {
    if i < |c.channels| {
      var c' := CloseChannel(c, i);
      DisconnectSends(c', i + 1);
      FarewellStep(c, i);
    }
  }

  lemma FarewellStep(c: Conn, i: nat)
    requires i < |c.channels|
    ensures var c' := CloseChannel(c, i);
            && |c'.channels| == |c.channels|
            && c'.sent + Farewells(c'.channels[i + 1..]) == c.sent + Farewells(c.channels[i..])
  {
    var c' := CloseChannel(c, i);
    assert c'.channels[i + 1..] == c.channels[i..][1..] && c.channels[i..][0] == c.channels[i];
  }

  /** A second disconnect sends nothing and changes nothing. */
  lemma DisconnectTwice(c: Conn)
    ensures Hangup(Hangup(c)) == Hangup(c)
  {
    var h := Hangup(c);
    DisconnectSends(c, 0);
    DisconnectSends(h, 0);
    AllClosedSilent(h.channels);
    assert h.channels[0..] == h.channels && DisconnectFrom(h, 0).channels == h.channels;
  }

  lemma {:induction false} AllClosedSilent(channels: seq<Channel>)
    requires forall k :: 0 <= k < |channels| ==> channels[k].state == Closed
    ensures Farewells(channels) == []
  {
    if channels != [] {
      AllClosedSilent(channels[1..]);
    }
  }

  // The connection object

  class AdbConnection {
    const table: array<Channel>
    var channelCount: nat
    var nextLocalId: u32
    var sent: seq<Message>
    var shell: seq<seq<byte>>
    var link: Link
    const env: Env

    ghost predicate Valid()
      reads this, table
    {
      table.Length == MAX_CHANNELS && channelCount <= MAX_CHANNELS
    }

    ghost function Value(): Conn
      requires Valid()
      reads this, table
    {
      Conn(table[..channelCount], nextLocalId, sent, shell, link)
    }

    constructor (link: Link, env: Env)
      ensures Valid() && fresh(table) && Value() == Fresh(link) && this.env == env
    {
      table := new Channel[MAX_CHANNELS](_ => Channel(0, 0, Opening));
      channelCount, nextLocalId, sent, shell, this.link := 0, 1, [], [], link;
      this.env := env;
    }

    /** `session_open_channel`; `sendOk` is what the sender will report. The result is an index into the table. */
    method Open(service: Payload, sendOk: bool) returns (chan: Option<nat>)
      requires Valid()
      modifies this, table
      ensures Valid() && Value() == OpenChannel(old(Value()), service, sendOk)
      ensures chan == if old(channelCount) < MAX_CHANNELS && sendOk then Some(old(channelCount)) else None
    {
      if channelCount >= MAX_CHANNELS {
        return None;
      }
      var i := channelCount;
      channelCount := channelCount + 1;
      table[i] := Channel(nextLocalId, 0, Opening);
      nextLocalId := (nextLocalId + 1) as int % U32_BASE;
      sent := sent + [Message(ADB_OPEN, table[i].localId, 0, 0, service)];
      if !sendOk {
        channelCount := channelCount - 1;
        return None;
      }
      return Some(i);
    }

    /** `session_close_channel`. */
    method Close(i: nat)
      requires Valid() && i < channelCount
      modifies this`sent, table
      ensures Valid() && Value() == CloseChannel(old(Value()), i)
    {
      if table[i].state.Closed? {
        return;
      }
      if table[i].remoteId != 0 {
        sent := sent + [Control(ADB_CLSE, table[i].localId, table[i].remoteId)];
      }
      table[i] := table[i].(state := Closed);
    }

    /** The search loop shared by the message branches. */
    method Search(k: Key) returns (i: nat)
      requires Valid()
      ensures i == Find(table[..channelCount], k)
    {
      i := 0;
      while i < channelCount && !Hits(table[i], k)
        invariant i <= channelCount
        invariant forall j :: 0 <= j < i ==> !Hits(table[..channelCount][j], k)
      {
        i := i + 1;
      }
      FindUnique(table[..channelCount], k, i);
    }

    method SetRemoteId(localId: u32, remoteId: u32)
      requires Valid()
      modifies table
      ensures Valid() && table[..channelCount] == SetRemote(old(table[..channelCount]), localId, remoteId)
    {
      var i := Search(Local(localId));
      if i < channelCount {
        table[i] := table[i].(remoteId := remoteId, state := ChanState.Open);
      }
    }

    /** The CNXN branch. */
    method Greet(m: Message)
      modifies this`link
      ensures link == Greeted(old(link), m)
    {
      if |m.payload| > 0 {
        var length := |m.payload|;
        if length >= BANNER_MAX {
          length := BANNER_MAX - 1;
        }
        link := link.(banner := m.payload[..length]);
      }
      link := link.(version := if m.arg0 < ADB_VERSION then m.arg0 else ADB_VERSION,
                    maxPayload := if m.arg1 < MAX_PAYLOAD then m.arg1 else MAX_PAYLOAD,
                    phase := Connected);
    }

    /** The STLS branch. */
    method UpgradeToTls()
      requires Valid()
      modifies this`sent, this`link
      ensures Valid() && Value() == StartTls(old(Value()), env)
    {
      if link.tls {
        return;
      }
      link := link.(phase := TlsNegotiating);
      sent := sent + [STLS_REPLY];
      link := link.(stlsSent := true);
      var t := env.upgrade(sent);
      if t.Some? {
        link := link.(tls := true);
        ExchangeOverTls(t.value, EXCHANGE_TRIES);
      }
    }

    /** Its loop over the new connection, of up to `tries` receives. */
    method ExchangeOverTls(tunnel: Tunnel, tries: nat)
      modifies this`sent, this`link
      ensures var done := Exchange(tunnel, tries, old(link), env);
              sent == old(sent) + done.sent && link == done.link
    {
      var fd := new Source(tunnel.incoming, tunnel.script);
      var hdr, pay := new byte[HEADER_SIZE], new byte[MAX_PAYLOAD];
      SetTo(pay, tunnel.scratch);
      ghost var done := Exchange(tunnel, tries, link, env);
      var t, overrun := 0, false;
      while t < tries && link.phase != Connected && !overrun
        invariant 0 <= t <= tries
        invariant if overrun then old(sent) + done.sent == sent && done.link == link
                  else ExchangeLeft(old(sent), done, sent, Tunnel(fd.incoming, fd.script, pay[..]), tries - t,
                    link, env)
        decreases tries - t
      {
        overrun := ExchangeOnce(fd, hdr, pay, tries - t, old(sent), done);
        t := t + 1;
      }
      if !overrun {
        ExchangeEnds(Tunnel(fd.incoming, fd.script, pay[..]), tries - t, link, env);
        assert sent + [] == sent;
      }
    }

    /** One turn of it. */
    method ExchangeOnce(fd: Source, hdr: array<byte>, pay: array<byte>, ghost tries: nat, ghost before: seq<Message>,
                        ghost done: Exchanged)
      returns (overrun: bool)
      requires hdr.Length == HEADER_SIZE && pay.Length == MAX_PAYLOAD && hdr != pay
      requires tries > 0 && link.phase != Connected
      requires ExchangeLeft(before, done, sent, Tunnel(fd.incoming, fd.script, pay[..]), tries, link, env)
      modifies this`sent, this`link, fd, hdr, pay
      ensures if overrun then before + done.sent == sent && done.link == link
              else ExchangeLeft(before, done, sent, Tunnel(fd.incoming, fd.script, pay[..]), tries - 1, link, env)
    {
      SetTo(hdr, Zeros(HEADER_SIZE));
      var rc := RecvInto(fd, hdr, pay, MAX_PAYLOAD, true, true);
      overrun := rc == OVERRUN;
      if rc >= 0 {
        ghost var so := sent;
        ReactTo(HandedOn(hdr[..], pay[..]));
        Associative(so, sent[|so|..], Exchange(Tunnel(fd.incoming, fd.script, pay[..]), tries - 1, link, env).sent);
      }
    }

    /** What one turn of it does with a message. */
    method ReactTo(m: Message)
      modifies this`sent, this`link
      ensures var now := React(m, old(link), env); sent == old(sent) + now.sent && link == now.link
    {
      if m.command == ADB_AUTH && m.arg0 == AUTH_TOKEN {
        var sig := env.sign(m.payload);
        if sig.Some? {
          sent := sent + [Message(ADB_AUTH, AUTH_RSAKEY, 0, 0, sig.value)];
        }
      } else if m.command == ADB_STLS {
        sent := sent + [STLS_REPLY];
      } else if m.command == ADB_CNXN {
        Greet(m);
      }
    }

    /** `session_poll`; `ready` is what `select` returns, `hdr` and `pay` are the buffers as allocated. */
    method Poll(ready: int, fd: Source, hdr: array<byte>, pay: array<byte>) returns (rc: int)
      requires Valid() && hdr.Length == HEADER_SIZE && pay.Length == MAX_PAYLOAD && hdr != pay
      modifies this`sent, this`shell, this`link, table, fd, hdr, pay
      ensures Valid()
      ensures if ready <= 0 then rc == ready && Value() == old(Value())
              else
                var r := Receive(old(fd.incoming), old(fd.script), old(hdr[..]), old(pay[..]), MAX_PAYLOAD,
                                 old(link).version >= 0x0100_0001, old(link).tls);
                if r.rc < 0 then rc == -1 && Value() == old(Value())
                else rc == 1 && Value() == Handle(old(Value()), HandedOn(r.hdr, r.pay), env)
    {
      if ready <= 0 {
        return ready;
      }
      var skip := link.version >= ADB_VERSION_SKIP_CHECKSUM;
      var n := RecvInto(fd, hdr, pay, MAX_PAYLOAD, skip, link.tls);
      if n < 0 {
        return -1;
      }
      HandleMessage(HandedOn(hdr[..], pay[..]));
      return 1;
    }

    /** `session_handle_message`. */
    method HandleMessage(m: Message)
      requires Valid()
      modifies this`sent, this`shell, this`link, table
      ensures Valid() && Value() == Handle(old(Value()), m, env)
    {
      if m.command == ADB_OPEN {
        SetRemoteId(m.arg1, m.arg0);
        sent := sent + [Control(ADB_OKAY, m.arg1, m.arg0)];
      } else if m.command == ADB_OKAY {
        SetRemoteId(m.arg1, m.arg0);
      } else if m.command == ADB_WRTE {
        var i := Search(Both(m.arg1, m.arg0));
        if i < channelCount {
          if env.shellCb {
            shell := shell + [m.payload];
          }
          sent := sent + [Control(ADB_OKAY, m.arg1, m.arg0)];
        }
      } else if m.command == ADB_CLSE {
        var i := Search(Local(m.arg0));
        if i < channelCount {
          table[i] := table[i].(state := Closed);
        }
      } else if m.command == ADB_CNXN {
        Greet(m);
      } else if m.command == ADB_STLS {
        UpgradeToTls();
      } else if m.command == ADB_AUTH && m.arg0 == AUTH_TOKEN {
        var sig := env.sign(m.payload);
        if sig.Some? {
          sent := sent + [Message(ADB_AUTH, AUTH_RSAKEY, 0, 0, sig.value)];
          link := link.(phase := AuthSent);
        }
      }
    }

    /** `session_disconnect`. */
    method Disconnect()
      requires Valid()
      modifies this`sent, this`link, table
      ensures Valid() && Value() == Hangup(old(Value()))
    {
      for i := 0 to channelCount
        invariant Valid() && DisconnectFrom(Value(), i) == DisconnectFrom(old(Value()), 0)
      {
        Close(i);
      }
      link := link.(phase := Disconnected);
    }
  }

  /** An array given its contents. */
  method SetTo(a: array<byte>, s: seq<byte>)
    requires a.Length == |s|
    modifies a
    ensures a[..] == s
  {
    CopyInto(a, 0, s);
  }

  /** What was sent before an exchange, with what the whole exchange sends, is what has been sent so far with what
      the rest of it sends. */
  ghost predicate ExchangeLeft(before: seq<Message>, done: Exchanged, sent: seq<Message>, t: Tunnel,
                               tries: nat,
                               link: Link, env: Env) {
    var left := Exchange(t, tries, link, env);
    before + done.sent == sent + left.sent && done.link == left.link
  }

  lemma FindUnique(channels: seq<Channel>, k: Key, i: nat)
    requires i <= |channels| && (i < |channels| ==> Hits(channels[i], k))
    requires forall j :: 0 <= j < i ==> !Hits(channels[j], k)
    ensures i == Find(channels, k)
  {
  }
}
