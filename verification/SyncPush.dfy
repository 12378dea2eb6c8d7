/** Pushing a file over an ADB sync channel (`adb/adb.c`, `device/server.c`): the stream of SEND, DATA and DONE
    commands, one WRITE payload each, built in one reused buffer from reads of any size. */
module SyncPush {
  import opened Bytes
  import opened Framing
  import opened Transport
  import Outbound

  const CHUNK: nat := 64 * 1024
  const MAX_PATH := 512

  const SEND: seq<byte> := [0x53, 0x45, 0x4e, 0x44]
  const DATA: seq<byte> := [0x44, 0x41, 0x54, 0x41]
  const DONE: seq<byte> := [0x44, 0x4f, 0x4e, 0x45]

  /** The ids of the commands as text, and the sizes. */
  lemma CommandWords()
    ensures SEND == Ascii("SEND") && DATA == Ascii("DATA") && DONE == Ascii("DONE")
    ensures CHUNK == 65_536 && MAX_PATH == 512
  {
  }

  type Bounded = b: seq<byte> | |b| < U32_BASE

  /** A command: its id, a length word, and that many bytes. */
  function Command(id: seq<byte>, body: Bounded): seq<byte> {
    id + Le32(|body|) + body
  }

  function Flatten(parts: seq<seq<byte>>): seq<byte> {
    if parts == [] then [] else Flatten(parts[..|parts| - 1]) + parts[|parts| - 1]
  }

  predicate GoodChunk(c: seq<byte>) {
    0 < |c| <= CHUNK
  }

  predicate GoodChunks(chunks: seq<seq<byte>>) {
    forall i :: 0 <= i < |chunks| ==> GoodChunk(chunks[i])
  }

  // The receiving side, from the protocol description

  /** The chunks of a run of DATA commands that ends with DONE and nothing after it. */
  function DecodeChunks(b: seq<byte>): Option<seq<seq<byte>>>
    decreases |b|
  {
    if |b| < 8 then None
    else
      var id, size, rest := b[..4], ReadLe32(b[4..]), b[8..];
      if id == DONE then (if rest == [] then Some([]) else None)
      else if id != DATA || size == 0 || size > CHUNK || |rest| < size then None
      else
        match DecodeChunks(rest[size..])
        case None => None
        case Some(more) => Some([rest[..size]] + more)
  }

  /** The path and the chunks of a whole push. */
  function Decode(b: seq<byte>): Option<(seq<byte>, seq<seq<byte>>)> {
    if |b| < 8 || b[..4] != SEND || |b[8..]| < ReadLe32(b[4..]) then None
    else
      var size := ReadLe32(b[4..]);
      match DecodeChunks(b[8..][size..])
      case None => None
      case Some(chunks) => Some((b[8..][..size], chunks))
  }

  // The stream

  function DataCommands(chunks: seq<seq<byte>>): seq<seq<byte>>
    requires GoodChunks(chunks)
  {
    seq(|chunks|, i requires 0 <= i < |chunks| => Command(DATA, chunks[i]))
  }

  function Stream(path: Bounded, chunks: seq<seq<byte>>): seq<seq<byte>>
    requires GoodChunks(chunks)
  {
    [Command(SEND, path)] + DataCommands(chunks) + [Command(DONE, [])]
  }

  lemma CommandParts(id: seq<byte>, body: Bounded, rest: seq<byte>)
    requires |id| == 4
    ensures var b := Command(id, body) + rest;
            |b| >= 8 && b[..4] == id && ReadLe32(b[4..]) == |body| && b[8..] == body + rest
            && b[8..][..|body|] == body && b[8..][|body|..] == rest
  {
    var b := Command(id, body) + rest;
    Le32RoundTrip(|body|, b);
    assert b[4..][..4] == Le32(|body|);
    assert forall i :: 0 <= i < 4 ==> b[4..][i] == Le32(|body|)[i];
    assert b[8..] == body + rest;
  }

  lemma {:induction false} FlattenCons(first: seq<byte>, parts: seq<seq<byte>>)
    ensures Flatten([first] + parts) == first + Flatten(parts)
  {
    if parts == [] {
      assert [first] + parts == [first] && [first][..0] == [];
      assert Flatten([first]) == Flatten([]) + first;
    } else {
      var n := |parts| - 1;
      assert ([first] + parts)[..n + 1] == [first] + parts[..n];
      FlattenCons(first, parts[..n]);
      Associative(first, Flatten(parts[..n]), parts[n]);
    }
  }

  lemma DecodeDataCommands(chunks: seq<seq<byte>>)
    requires GoodChunks(chunks)
    ensures DecodeChunks(Flatten(DataCommands(chunks) + [Command(DONE, [])])) == Some(chunks)
  {
    DecodeEnd();
    DecodeBefore(chunks, Command(DONE, []));
  }

  lemma {:induction false} DecodeBefore(chunks: seq<seq<byte>>, last: seq<byte>)
    requires GoodChunks(chunks) && DecodeChunks(Flatten([last])) == Some([])
    ensures DecodeChunks(Flatten(DataCommands(chunks) + [last])) == Some(chunks)
  {
    if chunks == [] {
      assert DataCommands(chunks) + [last] == [last];
    } else {
      DecodeBefore(chunks[1..], last);
      FirstBytes(chunks, last);
      assert chunks == [chunks[0]] + chunks[1..];
      DecodeOne(chunks[0], Flatten(DataCommands(chunks[1..]) + [last]), chunks[1..], chunks);
    }
  }

  lemma FirstBytes(chunks: seq<seq<byte>>, last: seq<byte>)
    requires GoodChunks(chunks) && chunks != []
    ensures Flatten(DataCommands(chunks) + [last]) ==
            Command(DATA, chunks[0]) + Flatten(DataCommands(chunks[1..]) + [last])
  {
    FirstCommand(chunks, last);
    FlattenCons(Command(DATA, chunks[0]), DataCommands(chunks[1..]) + [last]);
  }

  lemma DecodeEnd()
    ensures DecodeChunks(Flatten([Command(DONE, [])])) == Some([])
  {
    CommandParts(DONE, [], []);
    FlattenCons(Command(DONE, []), []);
    assert [Command(DONE, [])] + [] == [Command(DONE, [])];
    assert Command(DONE, []) + [] == Command(DONE, []);
  }

  lemma FirstCommand(chunks: seq<seq<byte>>, last: seq<byte>)
    requires GoodChunks(chunks) && chunks != []
    ensures DataCommands(chunks) + [last] == [Command(DATA, chunks[0])] + (DataCommands(chunks[1..]) + [last])
  {
    assert DataCommands(chunks) == [Command(DATA, chunks[0])] + DataCommands(chunks[1..]);
  }

  lemma DecodeOne(c: seq<byte>, rest: seq<byte>, more: seq<seq<byte>>, all: seq<seq<byte>>)
    requires GoodChunk(c) && DecodeChunks(rest) == Some(more) && all == [c] + more
    ensures DecodeChunks(Command(DATA, c) + rest) == Some(all)
  {
    CommandParts(DATA, c, rest);
  }

  /** Decoding the concatenated payloads of a push gives back the path and the chunks. */
  lemma StreamDecodes(path: Bounded, chunks: seq<seq<byte>>)
    requires GoodChunks(chunks)
    ensures Decode(Flatten(Stream(path, chunks))) == Some((path, chunks))
  {
    var tail := DataCommands(chunks) + [Command(DONE, [])];
    assert Stream(path, chunks) == [Command(SEND, path)] + tail;
    FlattenCons(Command(SEND, path), tail);
    DecodeDataCommands(chunks);
    CommandParts(SEND, path, Flatten(tail));
  }

  // The sender

  /** Fill a command buffer: the id, the length word, and the body. */
  method Fill(buf: array<byte>, id: seq<byte>, body: Bounded) returns (payload: seq<byte>)
    requires |id| == 4 && 8 + |body| <= buf.Length
    modifies buf
    ensures payload == Command(id, body)
  {
    CopyInto(buf, 8, body);
    ghost var filled := buf[..];
    assert filled[8..8 + |body|] == body;
    CopyInto(buf, 0, id);
    ghost var named := buf[..];
    assert named[..4] == id && named[8..] == filled[8..];
    Write32le(buf, 4, |body|);
    assert buf[..][..4] == named[..4] && buf[..][8..] == named[8..];
    payload := buf[..8 + |body|];
    CommandFilled(buf[..], filled, named, id, body);
  }

  lemma CommandFilled(b: seq<byte>, filled: seq<byte>, named: seq<byte>, id: seq<byte>, body: Bounded)
    requires |id| == 4 && 8 + |body| <= |b| == |filled| == |named|
    requires filled[8..8 + |body|] == body && named[..4] == id && named[8..] == filled[8..]
    requires b[..4] == named[..4] && b[4..8] == Le32(|body|) && b[8..] == named[8..]
    ensures b[..8 + |body|] == Command(id, body)
  {
    assert b[8..][..|body|] == filled[8..][..|body|] == body;
    assert b[..8 + |body|] == b[..4] + b[4..8] + b[8..][..|body|];
  }

  /** What the first `k` reads of an endless file would give. */
  function ReadBy(readSize: nat -> nat, k: nat): nat {
    if k == 0 then 0 else ReadBy(readSize, k - 1) + Min(readSize(k - 1), CHUNK)
  }

  lemma {:induction false} ReadByGrows(readSize: nat -> nat, j: nat, k: nat)
    requires j <= k
    ensures ReadBy(readSize, j) <= ReadBy(readSize, k)
    decreases k
  {
    if j < k {
      ReadByGrows(readSize, j, k - 1);
    }
  }

  /** Every read made while bytes are left gives some. */
  ghost predicate ReadsThrough(readSize: nat -> nat, length: nat) {
    forall k: nat :: ReadBy(readSize, k) < length ==> readSize(k) > 0
  }

  /** After `k` reads that all gave some, `done` bytes of the file have been read. */
  ghost predicate Progress(readSize: nat -> nat, k: nat, done: nat, length: nat) {
    done == Min(ReadBy(readSize, k), length) && forall j: nat :: j < k ==> readSize(j) > 0
  }

  /** The next read gives as much as the source, the buffer and the file allow. */
  function NextRead(readSize: nat -> nat, k: nat, left: nat): nat {
    Min(readSize(k), Min(CHUNK, left))
  }

  lemma ProgressStep(readSize: nat -> nat, k: nat, done: nat, length: nat)
    requires Progress(readSize, k, done, length) && NextRead(readSize, k, length - done) > 0
    ensures Progress(readSize, k + 1, done + NextRead(readSize, k, length - done), length)
  {
  }

  lemma ReadsThroughIff(readSize: nat -> nat, k: nat, done: nat, length: nat)
    requires Progress(readSize, k, done, length) && (done == length || NextRead(readSize, k, length - done) == 0)
    ensures done == length <==> ReadsThrough(readSize, length)
  {
    if done == length {
      forall j: nat | ReadBy(readSize, j) < length
        ensures readSize(j) > 0
      {
        if j >= k {
          ReadByGrows(readSize, k, j);
        }
      }
    } else {
      assert ReadBy(readSize, k) < length && readSize(k) == 0;
    }
  }

  lemma ChunkSent(chunks: seq<seq<byte>>, file: seq<byte>, done: nat, n: nat)
    requires GoodChunks(chunks) && done + n <= |file| && 0 < n <= CHUNK && Flatten(chunks) == file[..done]
    ensures var chunk := file[done..done + n];
            && GoodChunks(chunks + [chunk]) && Flatten(chunks + [chunk]) == file[..done + n]
            && DataCommands(chunks + [chunk]) == DataCommands(chunks) + [Command(DATA, chunk)]
  {
    var chunk := file[done..done + n];
    assert (chunks + [chunk])[..|chunks|] == chunks;
    assert file[..done + n] == file[..done] + chunk;
  }

  /** `adb_sync_send` from the SEND command on. `readSize(k)` is how much the k-th `fread` would give, 0 for a read
      that fails; `eof(k)` is whether `feof` reports the end as soon as everything has been read. The payloads
      always decode to the path and the bytes read, and those are the whole file if and only if every read made while
      bytes were left gave some. */
  method SyncSend(path: Bounded, file: seq<byte>, readSize: nat -> nat, eof: nat -> bool)
    returns (payloads: seq<seq<byte>>, done: nat)
    requires |path| <= MAX_PATH
    ensures Decode(Flatten(payloads)).Some?
    ensures var (decodedPath, chunks) := Decode(Flatten(payloads)).value;
            decodedPath == path && GoodChunks(chunks) && done <= |file| && Flatten(chunks) == file[..done]
    ensures done == |file| <==> ReadsThrough(readSize, |file|)
    ensures forall i :: 0 <= i < |payloads| ==> |payloads[i]| <= 8 + CHUNK
  {
    var cmdBuf := new byte[8 + MAX_PATH];
    var send := Fill(cmdBuf, SEND, path);
    var chunkBuf := new byte[8 + CHUNK];
    var data: seq<seq<byte>>;
    ghost var chunks: seq<seq<byte>>;
    data, done, chunks := StreamFile(chunkBuf, file, readSize, eof);
    var last := Fill(chunkBuf, DONE, []);
    payloads := [send] + data + [last];
    StreamDecodes(path, chunks);
  }

  /** The loop that streams the file, one DATA command per read. */
  method StreamFile(chunkBuf: array<byte>, file: seq<byte>, readSize: nat -> nat, eof: nat -> bool)
    returns (payloads: seq<seq<byte>>, done: nat, ghost chunks: seq<seq<byte>>)
    requires chunkBuf.Length == 8 + CHUNK
    modifies chunkBuf
    ensures GoodChunks(chunks) && payloads == DataCommands(chunks)
    ensures done <= |file| && Flatten(chunks) == file[..done]
    ensures done == |file| <==> ReadsThrough(readSize, |file|)
  {
    payloads, done, chunks := [], 0, [];
    var k, atEof := 0, false;
    while !atEof
      invariant done <= |file| && GoodChunks(chunks) && Flatten(chunks) == file[..done]
      invariant payloads == DataCommands(chunks)
      invariant atEof ==> done == |file|
      invariant Progress(readSize, k, done, |file|)
      decreases |file| - done, !atEof
    {
      var n := NextRead(readSize, k, |file| - done);
      var chunk := file[done..done + n];
      if n == 0 {
        break;
      }
      ProgressStep(readSize, k, done, |file|);
      k := k + 1;
      atEof := done + n == |file| && eof(k);
      var data := Fill(chunkBuf, DATA, chunk);
      payloads := payloads + [data];
      ChunkSent(chunks, file, done, n);
      chunks := chunks + [chunk];
      done := done + n;
    }
    ReadsThroughIff(readSize, k, done, |file|);
  }

  /** The WRITE messages of a push. */
  function Writes(payloads: seq<seq<byte>>, localId: u32, remoteId: u32): (ms: seq<Message>)
    requires forall i :: 0 <= i < |payloads| ==> |payloads[i]| <= 8 + CHUNK
    ensures |ms| == |payloads|
  {
    if payloads == [] then []
    else
      var n := |payloads| - 1;
      Writes(payloads[..n], localId, remoteId) + [Message(ADB_WRTE, localId, remoteId, 0, payloads[n])]
  }

  /** One WRTE per payload, in order, from the local to the remote id. */
  lemma {:induction false} WritesAt(payloads: seq<seq<byte>>, localId: u32, remoteId: u32, i: nat)
    requires forall j :: 0 <= j < |payloads| ==> |payloads[j]| <= 8 + CHUNK
    requires i < |payloads|
    ensures Writes(payloads, localId, remoteId)[i] == Message(0x4554_5257, localId, remoteId, 0, payloads[i])
  {
    var n := |payloads| - 1;
    if i < n {
      WritesAt(payloads[..n], localId, remoteId, i);
    }
  }

  lemma {:induction false} WritesAcceptable(payloads: seq<seq<byte>>, localId: u32, remoteId: u32)
    requires forall i :: 0 <= i < |payloads| ==> |payloads[i]| <= 8 + CHUNK
    ensures AllAcceptable(Writes(payloads, localId, remoteId), MAX_PAYLOAD, true)
  {
    if payloads != [] {
      WritesAcceptable(payloads[..|payloads| - 1], localId, remoteId);
    }
  }

  /** The sends of a push, their results ignored: every payload is offered, and the peer parses all of them if and only
      if every send went through. */
  method SendPayloads(fd: Sink, localId: u32, remoteId: u32, payloads: seq<seq<byte>>)
    returns (turns: seq<Outbound.Turn>)
    requires forall i :: 0 <= i < |payloads| ==> |payloads[i]| <= 8 + CHUNK
    modifies fd
    ensures fd.wire == old(fd.wire) + Outbound.Pieces(turns)
            && Outbound.Offered(turns) == Writes(payloads, localId, remoteId)
    ensures ParseAll(Outbound.Pieces(turns), MAX_PAYLOAD, true) == Some(Writes(payloads, localId, remoteId)) <==>
            Outbound.AllWhole(turns)
  {
    turns := [];
    assert old(fd.wire) + [] == old(fd.wire);
    for i := 0 to |payloads|
      invariant fd.wire == old(fd.wire) + Outbound.Pieces(turns)
      invariant Outbound.Offered(turns) == Writes(payloads[..i], localId, remoteId)
    {
      var u := Outbound.LockedSend(fd, Outbound.Control, Message(ADB_WRTE, localId, remoteId, 0, payloads[i]));
      assert (turns + [u])[..|turns|] == turns && payloads[..i + 1][..i] == payloads[..i];
      Associative(old(fd.wire), Outbound.Pieces(turns), Outbound.Piece(u));
      turns := turns + [u];
    }
    assert payloads[..|payloads|] == payloads;
    WritesAcceptable(payloads, localId, remoteId);
    Outbound.OfferedIffWhole(turns, MAX_PAYLOAD);
  }
}
