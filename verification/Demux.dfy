/** The reader thread's demultiplexer (`device/server.c`, `adb_reader_thread`): one ADB stream is split into
    the video, audio and control socketpairs by the peer's channel ids. */
module Demux {
  import opened Bytes
  import opened Framing
  import opened Transport
  import opened Session

  datatype Role = Video | Audio | Ctrl

  /** Which table entries are the three channels; audio and control may be absent. */
  datatype Roles = Roles(video: nat, audio: Option<nat>, ctrl: Option<nat>)

  function Slot(roles: Roles, r: Role): Option<nat> {
    match r
    case Video => Some(roles.video)
    case Audio => roles.audio
    case Ctrl => roles.ctrl
  }

  /** The connection and what has been written into each socketpair. */
  datatype State = State(conn: Conn, video: seq<byte>, audio: seq<byte>, ctrl: seq<byte>)

  ghost predicate RolesFit(roles: Roles, channels: seq<Channel>) {
    && roles.video < |channels|
    && (roles.audio.Some? ==> roles.audio.value < |channels| && roles.audio.value != roles.video)
    && (roles.ctrl.Some? ==> roles.ctrl.value < |channels| && roles.ctrl.value != roles.video)
    && (roles.audio.Some? && roles.ctrl.Some? ==> roles.audio.value != roles.ctrl.value)
  }

  function Remote(roles: Roles, channels: seq<Channel>, r: Role): u32 {
    var i := Slot(roles, r);
    if i.Some? && i.value < |channels| then channels[i.value].remoteId else 0
  }

  /** A channel without a remote id takes the sender's. */
  function Adopt(channels: seq<Channel>, i: Option<nat>, id: u32): (r: seq<Channel>)
    ensures |r| == |channels|
  {
    if i.Some? && i.value < |channels| && channels[i.value].remoteId == 0
    then channels[i.value := channels[i.value].(remoteId := id)] else channels
  }

  /** The if-chain that picks the socketpair. */
  function Route(roles: Roles, channels: seq<Channel>, id: u32): Option<Role> {
    if id == Remote(roles, channels, Video) then Some(Video)
    else if roles.audio.Some? && id == Remote(roles, channels, Audio) then Some(Audio)
    else if roles.ctrl.Some? && id == Remote(roles, channels, Ctrl) then Some(Ctrl)
    else None
  }

  function Deliver(s: State, to: Option<Role>, payload: seq<byte>): State {
    match to
    case Some(Video) => s.(video := s.video + payload)
    case Some(Audio) => s.(audio := s.audio + payload)
    case Some(Ctrl) => s.(ctrl := s.ctrl + payload)
    case None => s
  }

  function Adopted(roles: Roles, channels: seq<Channel>, id: u32): seq<Channel> {
    Adopt(Adopt(channels, Some(roles.video), id), roles.audio, id)
  }

  /** One message through the reader thread. */
  function Step(roles: Roles, s: State, m: Message, env: Env): State {
    if m.command == ADB_WRTE then
      var channels := Adopted(roles, s.conn.channels, m.arg0);
      var acked := s.conn.(channels := channels, sent := s.conn.sent + [Session.Control(ADB_OKAY, m.arg1, m.arg0)]);
      Deliver(s.(conn := acked), Route(roles, channels, m.arg0), m.payload)
    else if m.command == ADB_OKAY then
      s.(conn := s.conn.(channels := SetRemote(s.conn.channels, m.arg1, m.arg0)))
    else
      s.(conn := Session.Handle(s.conn, m, env))
  }

  function Run(roles: Roles, s: State, trace: seq<Message>, env: Env): State {
    if trace == [] then s
    else Step(roles, Run(roles, s, trace[..|trace| - 1], env), trace[|trace| - 1], env)
  }

  // The peer

  /** The peer's own id for each channel. */
  type PeerIds = Role -> u32

  /** The three channels are distinct entries with distinct local ids and no remote id yet; the peer's ids are
      distinct and not 0, its OKAYs name the right pair of ids, and it opens nothing itself. */
  ghost predicate Setting(roles: Roles, s: State, ids: PeerIds, trace: seq<Message>) {
    && RolesFit(roles, s.conn.channels)
    && (forall i, j :: 0 <= i < j < |s.conn.channels| ==> s.conn.channels[i].localId < s.conn.channels[j].localId)
    && (forall r :: Remote(roles, s.conn.channels, r) == 0)
    && (forall r :: ids(r) != 0)
    && (forall r, q :: r != q ==> ids(r) != ids(q))
    && (forall i :: 0 <= i < |trace| ==> trace[i].command != ADB_OPEN)
    && (forall i :: 0 <= i < |trace| && trace[i].command == ADB_STLS ==> s.conn.link.tls)
    && (forall i :: 0 <= i < |trace| && trace[i].command == ADB_WRTE ==> trace[i].arg0 != 0)
    && (forall i, r :: 0 <= i < |trace| && IsOkay(roles, s, trace[i], r) ==> trace[i].arg0 == ids(r))
  }

  function LocalOf(roles: Roles, s: State, r: Role): u32 {
    var i := Slot(roles, r);
    if i.Some? && i.value < |s.conn.channels| then s.conn.channels[i.value].localId else 0
  }

  /** An OKAY for a channel that exists. */
  predicate IsOkay(roles: Roles, s: State, m: Message, r: Role) {
    m.command == ADB_OKAY && Slot(roles, r).Some? && m.arg1 == LocalOf(roles, s, r)
  }

  /** The channel a WRITE belongs to, by the peer's ids. */
  function Owner(roles: Roles, ids: PeerIds, id: u32): Option<Role> {
    if id == ids(Video) then Some(Video)
    else if roles.audio.Some? && id == ids(Audio) then Some(Audio)
    else if roles.ctrl.Some? && id == ids(Ctrl) then Some(Ctrl)
    else None
  }

  /** The concatenation of a channel's own payloads. */
  function Payloads(roles: Roles, ids: PeerIds, trace: seq<Message>, r: Role): seq<byte> {
    if trace == [] then []
    else Payloads(roles, ids, trace[..|trace| - 1], r) + Share(roles, ids, trace[|trace| - 1], r)
  }

  function Share(roles: Roles, ids: PeerIds, m: Message, r: Role): seq<byte> {
    if m.command == ADB_WRTE && Owner(roles, ids, m.arg0) == Some(r) then m.payload else []
  }

  /** What a message is answered with: a WRITE with one OKAY, ids swapped, an AUTH token with its signature. */
  function Answers(m: Message, env: Env): seq<Message> {
    if m.command == ADB_WRTE then [Session.Control(ADB_OKAY, m.arg1, m.arg0)]
    else if m.command == ADB_AUTH then AuthReply(m, env)
    else []
  }

  function AllAnswers(trace: seq<Message>, env: Env): seq<Message> {
    if trace == [] then [] else AllAnswers(trace[..|trace| - 1], env) + Answers(trace[|trace| - 1], env)
  }

  function Okays(ms: seq<Message>): seq<Message> {
    if ms == [] then []
    else Okays(ms[..|ms| - 1]) + if ms[|ms| - 1].command == ADB_OKAY then [ms[|ms| - 1]] else []
  }

  /** The acknowledgements owed: one per WRITE, ids swapped. */
  function Acks(trace: seq<Message>): seq<Message> {
    if trace == [] then []
    else
      var m := trace[|trace| - 1];
      Acks(trace[..|trace| - 1]) + if m.command == ADB_WRTE then [Session.Control(ADB_OKAY, m.arg1, m.arg0)] else []
  }

  ghost predicate Okayed(roles: Roles, s: State, trace: seq<Message>, r: Role) {
    exists j :: 0 <= j < |trace| && IsOkay(roles, s, trace[j], r)
  }

  /** The sender of the first WRITE, or 0. */
  function FirstWriter(trace: seq<Message>): u32 {
    if trace == [] then 0
    else
      var before := FirstWriter(trace[..|trace| - 1]);
      if before != 0 || trace[|trace| - 1].command != ADB_WRTE then before else trace[|trace| - 1].arg0
  }

  /** The remote id a channel has after a trace, told by its messages alone. */
  ghost function Expected(roles: Roles, s: State, ids: PeerIds, trace: seq<Message>, r: Role): u32 {
    if Slot(roles, r).None? then 0
    else if Okayed(roles, s, trace, r) then ids(r)
    else if r == Ctrl then 0
    else FirstWriter(trace)
  }

  // Runs

  /** The table after a run: same channels, the remote ids the trace accounts for; and the answers it owes. */
  lemma {:induction false} RunShape(roles: Roles, s: State, ids: PeerIds, trace: seq<Message>, env: Env)
    requires Setting(roles, s, ids, trace)
    ensures var t := Run(roles, s, trace, env).conn;
            && SameLocals(t.channels, s.conn.channels)
            && t.sent == s.conn.sent + AllAnswers(trace, env) && t.link.tls == s.conn.link.tls
            && forall r :: Remote(roles, t.channels, r) == Expected(roles, s, ids, trace, r)
  {
    if trace != [] {
      var front, m := trace[..|trace| - 1], trace[|trace| - 1];
      SettingPrefix(roles, s, ids, trace, |trace| - 1);
      RunShape(roles, s, ids, front, env);
      assert trace == front + [m];
      var before := Run(roles, s, front, env);
      StepTable(roles, before, m, env);
      Associative(s.conn.sent, AllAnswers(front, env), Answers(m, env));
      forall r
        ensures Remote(roles, Step(roles, before, m, env).conn.channels, r) == Expected(roles, s, ids, trace, r)
      {
        StepRemote(roles, s, ids, before, front, m, env, r);
      }
    }
  }

  ghost predicate SameLocals(a: seq<Channel>, b: seq<Channel>) {
    |a| == |b| && forall i :: 0 <= i < |a| ==> a[i].localId == b[i].localId
  }

  lemma StepTable(roles: Roles, s: State, m: Message, env: Env)
    requires m.command != ADB_OPEN && (m.command == ADB_STLS ==> s.conn.link.tls)
    ensures var t := Step(roles, s, m, env).conn;
            && SameLocals(t.channels, s.conn.channels)
            && t.sent == s.conn.sent + Answers(m, env) && t.link.tls == s.conn.link.tls
  {
  }

  lemma SettingPrefix(roles: Roles, s: State, ids: PeerIds, trace: seq<Message>, n: nat)
    requires Setting(roles, s, ids, trace) && n <= |trace|
    ensures Setting(roles, s, ids, trace[..n])
  {
  }

  lemma OkayedStep(roles: Roles, s: State, front: seq<Message>, m: Message, r: Role)
    ensures Okayed(roles, s, front + [m], r) <==> Okayed(roles, s, front, r) || IsOkay(roles, s, m, r)
  {
    var trace := front + [m];
    if j :| 0 <= j < |front| && IsOkay(roles, s, front[j], r) {
      assert IsOkay(roles, s, trace[j], r);
    }
    if IsOkay(roles, s, m, r) {
      assert IsOkay(roles, s, trace[|front|], r);
    }
  }

  lemma StepRemote(roles: Roles, s: State, ids: PeerIds, before: State, front: seq<Message>, m: Message, env: Env,
                   r: Role)
    requires Setting(roles, s, ids, front + [m]) && SameLocals(before.conn.channels, s.conn.channels)
    requires Remote(roles, before.conn.channels, r) == Expected(roles, s, ids, front, r)
    ensures Remote(roles, Step(roles, before, m, env).conn.channels, r) == Expected(roles, s, ids, front + [m], r)
  {
    var trace := front + [m];
    assert trace[..|front|] == front && trace[|front|] == m;
    OkayedStep(roles, s, front, m, r);
    if Slot(roles, r).None? {
    } else if m.command == ADB_OKAY {
      assert IsOkay(roles, s, trace[|front|], r) ==> m.arg0 == ids(r);
      SetRemoteExact(before.conn.channels, m.arg1, m.arg0);
    } else if m.command == ADB_WRTE {
      AdoptExact(roles, before.conn.channels, m.arg0, r);
    }
  }

  lemma SetRemoteExact(channels: seq<Channel>, localId: u32, remoteId: u32)
    requires forall i, j :: 0 <= i < j < |channels| ==> channels[i].localId < channels[j].localId
    ensures forall i :: 0 <= i < |channels| ==>
              SetRemote(channels, localId, remoteId)[i] ==
              if channels[i].localId == localId then Channel(localId, remoteId, Open) else channels[i]
  {
    var f := Find(channels, Local(localId));
    assert forall i :: 0 <= i < f ==> !Hits(channels[i], Local(localId));
  }

  lemma AdoptExact(roles: Roles, channels: seq<Channel>, id: u32, r: Role)
    requires RolesFit(roles, channels)
    ensures Remote(roles, Adopted(roles, channels, id), r) ==
            if Slot(roles, r).Some? && r != Ctrl && Remote(roles, channels, r) == 0 then id
            else Remote(roles, channels, r)
  {
    assert Slot(roles, Video) == Some(roles.video) && Slot(roles, Audio) == roles.audio
      && Slot(roles, Ctrl) == roles.ctrl;
  }

  // Routing

  /** Where the reader sends the i-th message of a trace. */
  ghost function Destination(roles: Roles, s: State, trace: seq<Message>, env: Env, i: nat): Option<Role>
    requires i < |trace|
  {
    var channels := Run(roles, s, trace[..i], env).conn.channels;
    Route(roles, Adopted(roles, channels, trace[i].arg0), trace[i].arg0)
  }

  ghost predicate AllRoutedRight(roles: Roles, s: State, ids: PeerIds, trace: seq<Message>, env: Env) {
    forall i :: 0 <= i < |trace| && trace[i].command == ADB_WRTE ==>
      Destination(roles, s, trace, env, i) == Owner(roles, ids, trace[i].arg0)
  }

  /** What the reader needs of the peer's timing at a WRITE: video has its OKAY or the first WRITE was video's;
      audio, if it exists, has its OKAY, or the first WRITE was audio's, or it was video's and this one is not
      audio's; and a control WRITE comes after control's OKAY. */
  ghost predicate TimelyAt(roles: Roles, s: State, ids: PeerIds, trace: seq<Message>, i: nat)
    requires i < |trace|
  {
    var first := FirstWriter(trace[..i + 1]);
    && (Okayed(roles, s, trace[..i], Video) || first == ids(Video))
    && (roles.audio.Some? ==>
          || Okayed(roles, s, trace[..i], Audio) || first == ids(Audio)
          || (first == ids(Video) && trace[i].arg0 != ids(Audio)))
    && (roles.ctrl.Some? && trace[i].arg0 == ids(Ctrl) ==> Okayed(roles, s, trace[..i], Ctrl))
  }

  ghost predicate Timely(roles: Roles, s: State, ids: PeerIds, trace: seq<Message>) {
    forall i :: 0 <= i < |trace| && trace[i].command == ADB_WRTE ==> TimelyAt(roles, s, ids, trace, i)
  }

  /** The destination of a WRITE, told by the trace alone. */
  lemma DestinationIs(roles: Roles, s: State, ids: PeerIds, trace: seq<Message>, env: Env, i: nat)
    requires Setting(roles, s, ids, trace) && i < |trace| && trace[i].command == ADB_WRTE
    ensures var id := trace[i].arg0;
            var first := FirstWriter(trace[..i + 1]);
            var v := if Okayed(roles, s, trace[..i], Video) then ids(Video) else first;
            var a := if Okayed(roles, s, trace[..i], Audio) then ids(Audio) else first;
            first != 0 &&
            Destination(roles, s, trace, env, i) ==
            if id == v then Some(Video)
            else if roles.audio.Some? && id == a then Some(Audio)
            else if roles.ctrl.Some? && Okayed(roles, s, trace[..i], Ctrl) && id == ids(Ctrl) then Some(Ctrl)
            else None
  {
    SettingPrefix(roles, s, ids, trace, i);
    RunShape(roles, s, ids, trace[..i], env);
    var channels := Run(roles, s, trace[..i], env).conn.channels;
    assert trace[..i + 1][..i] == trace[..i] && trace[..i + 1][i] == trace[i];
    AdoptExact(roles, channels, trace[i].arg0, Video);
    AdoptExact(roles, channels, trace[i].arg0, Audio);
    AdoptExact(roles, channels, trace[i].arg0, Ctrl);
  }

  /** Every WRITE of a run reaches its own channel if and only if the peer's timing is right. */
  lemma RoutedRightIffTimely(roles: Roles, s: State, ids: PeerIds, trace: seq<Message>, env: Env)
    requires Setting(roles, s, ids, trace)
    ensures AllRoutedRight(roles, s, ids, trace, env) <==> Timely(roles, s, ids, trace)
  {
    if Timely(roles, s, ids, trace) {
      forall i | 0 <= i < |trace| && trace[i].command == ADB_WRTE
        ensures Destination(roles, s, trace, env, i) == Owner(roles, ids, trace[i].arg0)
      {
        DestinationIs(roles, s, ids, trace, env, i);
      }
    }
    if AllRoutedRight(roles, s, ids, trace, env) {
      forall i | 0 <= i < |trace| && trace[i].command == ADB_WRTE
        ensures TimelyAt(roles, s, ids, trace, i)
      {
        RoutedRightTimely(roles, s, ids, trace, env, i);
      }
    }
  }

  /** The first WRITE at or before a WRITE. */
  lemma {:induction false} FirstIndex(trace: seq<Message>, i: nat) returns (f: nat)
    requires i < |trace| && trace[i].command == ADB_WRTE
    requires forall k :: 0 <= k < |trace| && trace[k].command == ADB_WRTE ==> trace[k].arg0 != 0
    ensures f <= i && trace[f].command == ADB_WRTE
    ensures FirstWriter(trace[..i + 1]) == FirstWriter(trace[..f + 1]) == trace[f].arg0
  {
    assert trace[..i + 1][..i] == trace[..i];
    if FirstWriter(trace[..i]) == 0 {
      f := i;
    } else {
      f := FirstBefore(trace, i);
    }
  }

  lemma {:induction false} FirstBefore(trace: seq<Message>, n: nat) returns (f: nat)
    requires n <= |trace| && FirstWriter(trace[..n]) != 0
    ensures f < n && trace[f].command == ADB_WRTE
    ensures FirstWriter(trace[..n]) == FirstWriter(trace[..f + 1]) == trace[f].arg0
  {
    assert trace[..n][..n - 1] == trace[..n - 1];
    if FirstWriter(trace[..n - 1]) == 0 {
      f := n - 1;
    } else {
      f := FirstBefore(trace, n - 1);
    }
  }

  lemma RoutedRightTimely(roles: Roles, s: State, ids: PeerIds, trace: seq<Message>, env: Env, i: nat)
    requires Setting(roles, s, ids, trace) && i < |trace| && trace[i].command == ADB_WRTE
    requires AllRoutedRight(roles, s, ids, trace, env)
    ensures TimelyAt(roles, s, ids, trace, i)
  {
    DestinationIs(roles, s, ids, trace, env, i);
    var f := FirstIndex(trace, i);
    DestinationIs(roles, s, ids, trace, env, f);
    OkayedMonotone(roles, s, trace, f, i, Video);
    OkayedMonotone(roles, s, trace, f, i, Audio);
    assert Destination(roles, s, trace, env, f) == Owner(roles, ids, trace[f].arg0);
    assert Destination(roles, s, trace, env, i) == Owner(roles, ids, trace[i].arg0);
  }

  lemma OkayedMonotone(roles: Roles, s: State, trace: seq<Message>, f: nat, i: nat, r: Role)
    requires f <= i <= |trace|
    ensures Okayed(roles, s, trace[..f], r) ==> Okayed(roles, s, trace[..i], r)
  {
    if j :| 0 <= j < f && IsOkay(roles, s, trace[..f][j], r) {
      assert IsOkay(roles, s, trace[..i][j], r);
    }
  }

  /** The plain discipline that suffices: a channel's OKAY comes before its first WRITE, video's before every
      WRITE, and audio's before every WRITE that is not video's. */
  lemma PoliteIsTimely(roles: Roles, s: State, ids: PeerIds, trace: seq<Message>)
    requires Setting(roles, s, ids, trace)
    requires forall i, r ::
               0 <= i < |trace| && trace[i].command == ADB_WRTE && trace[i].arg0 == ids(r) && Slot(roles, r).Some? ==>
                 Okayed(roles, s, trace[..i], r)
    requires forall i :: 0 <= i < |trace| && trace[i].command == ADB_WRTE ==> Okayed(roles, s, trace[..i], Video)
    requires forall i ::
               0 <= i < |trace| && trace[i].command == ADB_WRTE && trace[i].arg0 != ids(Video) && roles.audio.Some? ==>
                 Okayed(roles, s, trace[..i], Audio)
    ensures Timely(roles, s, ids, trace)
  {
    forall i | 0 <= i < |trace| && trace[i].command == ADB_WRTE
      ensures TimelyAt(roles, s, ids, trace, i)
    {
      var f := FirstIndex(trace, i);
      OkayedMonotone(roles, s, trace, f, i, Audio);
      assert Slot(roles, Video).Some? && Slot(roles, Audio) == roles.audio && Slot(roles, Ctrl) == roles.ctrl;
    }
  }

  /** In a timely run each socketpair receives exactly its own channel's payloads in order. */
  lemma {:induction false} StreamsSeparate(roles: Roles, s: State, ids: PeerIds, trace: seq<Message>, env: Env)
    requires Setting(roles, s, ids, trace) && Timely(roles, s, ids, trace)
    ensures var t := Run(roles, s, trace, env);
            && t.video == s.video + Payloads(roles, ids, trace, Video)
            && (roles.audio.Some? ==> t.audio == s.audio + Payloads(roles, ids, trace, Audio))
            && (roles.ctrl.Some? ==> t.ctrl == s.ctrl + Payloads(roles, ids, trace, Ctrl))
  {
    if trace != [] {
      var n := |trace| - 1;
      var front, m := trace[..n], trace[n];
      SettingPrefix(roles, s, ids, trace, n);
      TimelyPrefix(roles, s, ids, trace, n);
      StreamsSeparate(roles, s, ids, front, env);
      if m.command == ADB_WRTE {
        RoutedRightIffTimely(roles, s, ids, trace, env);
        assert Destination(roles, s, trace, env, n) == Owner(roles, ids, m.arg0);
      }
      StepStreams(roles, ids, Run(roles, s, front, env), trace, env);
      Associative(s.video, Payloads(roles, ids, front, Video), Share(roles, ids, m, Video));
      Associative(s.audio, Payloads(roles, ids, front, Audio), Share(roles, ids, m, Audio));
      Associative(s.ctrl, Payloads(roles, ids, front, Ctrl), Share(roles, ids, m, Ctrl));
    }
  }

  /** One message adds to each stream what that stream's channel is due. */
  lemma StepStreams(roles: Roles, ids: PeerIds, s: State, trace: seq<Message>, env: Env)
    requires trace != []
    requires var m := trace[|trace| - 1];
             m.command == ADB_WRTE ==>
               Route(roles, Adopted(roles, s.conn.channels, m.arg0), m.arg0) == Owner(roles, ids, m.arg0)
    ensures var m := trace[|trace| - 1];
            var t := Step(roles, s, m, env);
            && t.video == s.video + Share(roles, ids, m, Video)
            && t.audio == s.audio + Share(roles, ids, m, Audio)
            && t.ctrl == s.ctrl + Share(roles, ids, m, Ctrl)
  {
  }

  lemma TimelyPrefix(roles: Roles, s: State, ids: PeerIds, trace: seq<Message>, n: nat)
    requires Timely(roles, s, ids, trace) && n <= |trace|
    ensures Timely(roles, s, ids, trace[..n])
  {
    forall i | 0 <= i < n && trace[i].command == ADB_WRTE
      ensures TimelyAt(roles, s, ids, trace[..n], i)
    {
      assert TimelyAt(roles, s, ids, trace, i);
      assert trace[..n][..i] == trace[..i] && trace[..n][..i + 1] == trace[..i + 1];
    }
  }

  /** Every WRITE is acknowledged once with its ids swapped, whatever its timing; besides the acknowledgements only
      signatures of AUTH tokens are sent. */
  lemma {:induction false} EveryWriteAcked(roles: Roles, s: State, ids: PeerIds, trace: seq<Message>, env: Env)
    requires Setting(roles, s, ids, trace)
    ensures var answers := AllAnswers(trace, env);
            && Run(roles, s, trace, env).conn.sent == s.conn.sent + answers
            && Okays(answers) == Acks(trace)
            && forall i :: 0 <= i < |answers| ==> answers[i].command in {ADB_OKAY, ADB_AUTH}
  {
    RunShape(roles, s, ids, trace, env);
    OkaysAmongAnswers(trace, env);
  }

  lemma {:induction false} OkaysAmongAnswers(trace: seq<Message>, env: Env)
    ensures Okays(AllAnswers(trace, env)) == Acks(trace)
    ensures forall i :: 0 <= i < |AllAnswers(trace, env)| ==> AllAnswers(trace, env)[i].command in {ADB_OKAY, ADB_AUTH}
  {
    if trace != [] {
      var front, m := trace[..|trace| - 1], trace[|trace| - 1];
      OkaysAmongAnswers(front, env);
      var before, reply := AllAnswers(front, env), Answers(m, env);
      if reply == [] {
        assert before + reply == before;
      } else {
        assert (before + reply)[..|before|] == before;
      }
    }
  }

  /** What goes wrong otherwise: video and control have their OKAYs, audio does not yet, and the first WRITE is
      control's. The reader takes control's id for audio's and control's bytes go to the audio socketpair. */
  lemma ControlBytesReachAudio(roles: Roles, s: State, ids: PeerIds, payload: Payload, env: Env)
    requires roles.audio.Some? && roles.ctrl.Some?
    requires Setting(roles, s, ids, [])
    ensures var trace := [Session.Control(ADB_OKAY, ids(Video), LocalOf(roles, s, Video)),
                          Session.Control(ADB_OKAY, ids(Ctrl), LocalOf(roles, s, Ctrl)),
                          Message(ADB_WRTE, ids(Ctrl), LocalOf(roles, s, Ctrl), 0, payload)];
            && Setting(roles, s, ids, trace)
            && Destination(roles, s, trace, env, 2) == Some(Audio)
  {
    var trace := [Session.Control(ADB_OKAY, ids(Video), LocalOf(roles, s, Video)),
                  Session.Control(ADB_OKAY, ids(Ctrl), LocalOf(roles, s, Ctrl)),
                  Message(ADB_WRTE, ids(Ctrl), LocalOf(roles, s, Ctrl), 0, payload)];
    assert Setting(roles, s, ids, trace);
    DestinationIs(roles, s, ids, trace, env, 2);
    assert IsOkay(roles, s, trace[..2][0], Video);
    var f := FirstIndex(trace, 2);
  }

  // On the wire

  /** A data frame from the device, once every channel before its own has another sender: its payload is appended to
      the stream of the channel with the sender's id, and to no other, and it is answered by one acknowledgement with
      the ids swapped. */
  lemma DataFrameDelivered(roles: Roles, s: State, id: u32, local: u32, check: u32, payload: Payload, rest: seq<byte>,
                           env: Env)
    requires RolesFit(roles, s.conn.channels) && |payload| <= 1_048_576 && id != 0
    ensures Parse(DataFrame(id, local, check, payload) + rest, 1_048_576, true).Some?
    ensures var (m, after) := Parse(DataFrame(id, local, check, payload) + rest, 1_048_576, true).value;
            var t := Step(roles, s, m, env);
            var chans := s.conn.channels;
            var video := chans[roles.video].remoteId;
            && after == rest
            && |t.conn.sent| == |s.conn.sent| + 1 && t.conn.sent[..|s.conn.sent|] == s.conn.sent
            && Encode(t.conn.sent[|s.conn.sent|]) == AckFrame(local, id)
            && (video == id ==> t.video == s.video + payload && t.audio == s.audio && t.ctrl == s.ctrl)
            && (video != id && video != 0 && roles.audio.Some? && chans[roles.audio.value].remoteId == id ==>
                  t.audio == s.audio + payload && t.video == s.video && t.ctrl == s.ctrl)
            && (video != id && video != 0 && roles.ctrl.Some? && chans[roles.ctrl.value].remoteId == id
                && (roles.audio.Some? ==> chans[roles.audio.value].remoteId !in {0, id}) ==>
                  t.ctrl == s.ctrl + payload && t.video == s.video && t.audio == s.audio)
  {
    DataFrameIsReceived(id, local, check, payload, rest);
    AckFrameIsSent(local, id);
  }

  /** An acknowledgement from the device records the sender's id in the channel it names and opens it. */
  lemma AckFrameRecorded(roles: Roles, s: State, id: u32, local: u32, env: Env)
    requires forall i, j :: 0 <= i < j < |s.conn.channels| ==> s.conn.channels[i].localId < s.conn.channels[j].localId
    ensures Parse(AckFrame(id, local), 1_048_576, true) == Some((Message(0x5941_4b4f, id, local, 0, []), []))
    ensures var t := Step(roles, s, Message(0x5941_4b4f, id, local, 0, []), env);
            && t == s.(conn := s.conn.(channels := t.conn.channels)) && |t.conn.channels| == |s.conn.channels|
            && forall i :: 0 <= i < |s.conn.channels| ==>
                 t.conn.channels[i] ==
                 if s.conn.channels[i].localId == local then Channel(local, id, Open) else s.conn.channels[i]
  {
    var m := Message(0x5941_4b4f, id, local, 0, []);
    AckFrameIsSent(id, local);
    ParseEncoded(m, [], 1_048_576, true);
    assert Encode(m) + [] == Encode(m);
    SetRemoteExact(s.conn.channels, local, id);
  }

  /** Every other message goes to the session. */
  lemma OthersGoToSession(roles: Roles, s: State, m: Message, env: Env)
    requires m.command !in {0x4554_5257, 0x5941_4b4f}
    ensures Step(roles, s, m, env) == s.(conn := Session.Handle(s.conn, m, env))
  {
  }

  // The reader object

  class AdbReader {
    const conn: AdbConnection
    const roles: Roles
    var video: seq<byte>
    var audio: seq<byte>
    var ctrl: seq<byte>

    ghost predicate Valid()
      reads this, conn, conn.table
    {
      conn.Valid() && RolesFit(roles, conn.table[..conn.channelCount])
    }

    ghost function Value(): State
      requires Valid()
      reads this, conn, conn.table
    {
      State(conn.Value(), video, audio, ctrl)
    }

    constructor (conn: AdbConnection, roles: Roles)
      requires conn.Valid() && RolesFit(roles, conn.table[..conn.channelCount])
      ensures Valid() && this.conn == conn && this.roles == roles && Value() == State(conn.Value(), [], [], [])
    {
      this.conn, this.roles := conn, roles;
      video, audio, ctrl := [], [], [];
    }

    method AdoptRemote(i: nat, id: u32)
      requires conn.Valid() && i < conn.channelCount
      modifies conn.table
      ensures conn.Valid()
      ensures conn.table[..conn.channelCount] == Adopt(old(conn.table[..conn.channelCount]), Some(i), id)
    {
      if conn.table[i].remoteId == 0 {
        conn.table[i] := conn.table[i].(remoteId := id);
      }
    }

    method AdoptBoth(id: u32)
      requires Valid()
      modifies conn.table
      ensures Valid() && conn.table[..conn.channelCount] == Adopted(roles, old(conn.table[..conn.channelCount]), id)
    {
      AdoptRemote(roles.video, id);
      if roles.audio.Some? {
        AdoptRemote(roles.audio.value, id);
      }
    }

    method Dispatch(m: Message)
      requires Valid()
      modifies this`video, this`audio, this`ctrl
      ensures Valid()
      ensures Value() == Deliver(old(Value()), Route(roles, conn.table[..conn.channelCount], m.arg0), m.payload)
    {
      if m.arg0 == conn.table[roles.video].remoteId && |m.payload| > 0 {
        video := video + m.payload;
      } else if roles.audio.Some? && m.arg0 == conn.table[roles.audio.value].remoteId && |m.payload| > 0 {
        audio := audio + m.payload;
      } else if roles.ctrl.Some? && m.arg0 == conn.table[roles.ctrl.value].remoteId && |m.payload| > 0 {
        ctrl := ctrl + m.payload;
      }
    }

    /** The loop body of `adb_reader_thread` for one received message. */
    method OnMessage(m: Message)
      requires Valid()
      modifies this, conn, conn.table
      ensures Valid() && Value() == Step(roles, old(Value()), m, conn.env)
    {
      if m.command == ADB_WRTE {
        AdoptBoth(m.arg0);
        conn.sent := conn.sent + [Session.Control(ADB_OKAY, m.arg1, m.arg0)];
        Dispatch(m);
      } else if m.command == ADB_OKAY {
        conn.SetRemoteId(m.arg1, m.arg0);
      } else {
        conn.HandleMessage(m);
      }
    }
  }

  /** The loop of `adb_reader_thread`: the reader acts as the state machine does on the messages it receives, which
      are those of the stream as long as the calls they take move data, in whatever pieces. Once TLS is up an STLS
      is ignored; before that it would hand the connection to the handshake, so there is none. */
  method ReaderLoop(reader: AdbReader, fd: Source, tls: bool)
    requires reader.Valid()
    requires UpgradeFree(reader.Value(), Served(fd.incoming, fd.script, MAX_PAYLOAD, true))
    modifies reader, reader.conn, reader.conn.table, fd
    ensures reader.Valid()
    ensures var trace := Served(old(fd.incoming), old(fd.script), MAX_PAYLOAD, true);
            reader.Value() == Run(reader.roles, old(reader.Value()), trace, reader.conn.env)
  {
    ghost var trace := [];
    ghost var start, all := reader.Value(), Served(fd.incoming, fd.script, MAX_PAYLOAD, true);
    while true
      invariant reader.Valid() && reader.Value() == Run(reader.roles, start, trace, reader.conn.env)
      invariant all == trace + Served(fd.incoming, fd.script, MAX_PAYLOAD, true)
      invariant UpgradeFree(reader.Value(), Served(fd.incoming, fd.script, MAX_PAYLOAD, true))
      decreases |fd.incoming|
    {
      ghost var stream, script := fd.incoming, fd.script;
      var rc, m := RecvMsg(fd, MAX_PAYLOAD, true, tls);
      if rc <= 0 {
        assert trace + [] == trace;
        return;
      }
      ghost var before, left := reader.Value(), Served(fd.incoming, fd.script, MAX_PAYLOAD, true);
      ReceivedOne(trace, stream, script, m, fd.incoming, MAX_PAYLOAD, true);
      reader.OnMessage(m);
      StillUpgradeFree(reader.roles, before, m, left, reader.conn.env);
      RunSnoc(reader.roles, start, trace, m, reader.conn.env);
      trace := trace + [m];
    }
  }

  /** No message of the list starts a TLS handshake. */
  ghost predicate UpgradeFree(s: State, ms: seq<Message>) {
    s.conn.link.tls || forall i :: 0 <= i < |ms| ==> ms[i].command != ADB_STLS
  }

  lemma StillUpgradeFree(roles: Roles, s: State, m: Message, left: seq<Message>, env: Env)
    requires UpgradeFree(s, [m] + left)
    ensures UpgradeFree(Step(roles, s, m, env), left)
  {
    assert forall i :: 0 <= i < |left| ==> ([m] + left)[i + 1] == left[i];
  }

  lemma RunSnoc(roles: Roles, s: State, trace: seq<Message>, m: Message, env: Env)
    ensures Run(roles, s, trace + [m], env) == Step(roles, Run(roles, s, trace, env), m, env)
  {
    assert (trace + [m])[..|trace|] == trace;
  }
}
