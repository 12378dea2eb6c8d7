/** ADB message framing over a chunked transport (`adb/protocol.c`). */
module Framing {
  import opened Bytes
  import opened Transport

  const HEADER_SIZE := 24
  const MAX_PAYLOAD := 1024 * 1024
  const MAX_RETRIES := 500

  const ADB_OPEN: u32 := 0x4e45504f
  const ADB_OKAY: u32 := 0x59414b4f
  const ADB_WRTE: u32 := 0x45545257
  const ADB_CLSE: u32 := 0x45534c43

  /** A payload whose length fits the C `int` the length check compares with. */
  type Payload = p: seq<byte> | |p| < 0x8000_0000

  /** One message. The length and magic words of its header are determined by the other fields. */
  datatype Message = Message(command: u32, arg0: u32, arg1: u32, check: u32, payload: Payload)

  function Complement(v: u32): u32 {
    U32_BASE - 1 - v
  }

  /** 32-bit words in wire order. */
  function WordsToBytes(ws: seq<u32>): (b: seq<byte>)
    ensures |b| == 4 * |ws|
  {
    if ws == [] then [] else Le32(ws[0]) + WordsToBytes(ws[1..])
  }

  function BytesToWords(b: seq<byte>): (ws: seq<u32>)
    requires |b| % 4 == 0
    ensures |b| == 4 * |ws|
  {
    if b == [] then [] else [ReadLe32(b)] + BytesToWords(b[4..])
  }

  function HeaderBytes(command: u32, arg0: u32, arg1: u32, length: u32, check: u32): seq<byte> {
    WordsToBytes([command, arg0, arg1, length, check, Complement(command)])
  }

  function FrameLength(m: Message): nat {
    HEADER_SIZE + |m.payload|
  }

  /** The bytes of one message on the wire. */
  function Encode(m: Message): (b: seq<byte>)
    ensures |b| == FrameLength(m)
  {
    HeaderBytes(m.command, m.arg0, m.arg1, |m.payload|, m.check) + m.payload
  }

  function EncodeAll(ms: seq<Message>): seq<byte> {
    if ms == [] then [] else Encode(ms[0]) + EncodeAll(ms[1..])
  }

  /** The true sum of the payload bytes. */
  function ByteSum(data: seq<byte>): nat {
    if data == [] then 0 else ByteSum(data[..|data| - 1]) + data[|data| - 1]
  }

  /** The message `adb_send_msg` announces for this payload. */
  function Announce(command: u32, arg0: u32, arg1: u32, payload: Payload, skip: bool): Message {
    Message(command, arg0, arg1, if skip then 0 else ByteSum(payload) % U32_BASE, payload)
  }

  /** The C cast `(int)` of a 32-bit word. */
  function AsInt32(v: u32): int {
    if v < 0x8000_0000 then v else v - U32_BASE
  }

  /** What the checks on the header words let through: the magic word and the length bound. */
  predicate HeaderAccepted(h: seq<u32>, maxPayload: nat)
    requires |h| == 6
  {
    h[5] == Complement(h[0]) && (h[3] > 0 ==> AsInt32(h[3]) <= maxPayload)
  }

  /** A length word `recv` can be asked for: a larger one passes the bound as a negative number. */
  predicate Receivable(h: seq<u32>, maxPayload: nat)
    requires |h| == 6
  {
    HeaderAccepted(h, maxPayload) && h[3] < 0x8000_0000
  }

  /** What a receiver with this bound and checksum flag lets through. */
  predicate Acceptable(m: Message, maxPayload: nat, skip: bool) {
    |m.payload| <= maxPayload && (skip || m.payload == [] || ByteSum(m.payload) % U32_BASE == m.check)
  }

  /** The reference parser: the first message of a byte stream and what follows it. */
  function Parse(b: seq<byte>, maxPayload: nat, skip: bool): Option<(Message, seq<byte>)> {
    if |b| < HEADER_SIZE then None else ParseBody(BytesToWords(b[..HEADER_SIZE]), b[HEADER_SIZE..], maxPayload, skip)
  }

  function ParseBody(h: seq<u32>, body: seq<byte>, maxPayload: nat, skip: bool): Option<(Message, seq<byte>)>
    requires |h| == 6
  {
    if !Receivable(h, maxPayload) || |body| < h[3] then None
    else
      var m := Message(h[0], h[1], h[2], h[4], body[..h[3]]);
      if h[3] > 0 && !skip && ByteSum(m.payload) % U32_BASE != m.check then None
      else Some((m, body[h[3]..]))
  }

  /** All messages of a stream that holds nothing else. */
  function ParseAll(b: seq<byte>, maxPayload: nat, skip: bool): Option<seq<Message>>
    decreases |b|
  {
    if b == [] then Some([])
    else match Parse(b, maxPayload, skip)
      case None => None
      case Some((m, rest)) =>
        match ParseAll(rest, maxPayload, skip)
        case None => None
        case Some(ms) => Some([m] + ms)
  }

  // Header words

  lemma {:induction false} WordsRoundTrip(ws: seq<u32>)
    ensures BytesToWords(WordsToBytes(ws)) == ws
  {
    if ws != [] {
      var b := WordsToBytes(ws);
      Le32RoundTrip(ws[0], b);
      assert b[..4] == Le32(ws[0]) && b[4..] == WordsToBytes(ws[1..]);
      WordsRoundTrip(ws[1..]);
    }
  }

  lemma {:induction false} BytesRoundTrip(b: seq<byte>)
    requires |b| % 4 == 0
    ensures WordsToBytes(BytesToWords(b)) == b
  {
    if b != [] {
      Le32RoundTrip(0, b);
      BytesRoundTrip(b[4..]);
      assert b == b[..4] + b[4..];
      assert BytesToWords(b)[1..] == BytesToWords(b[4..]);
    }
  }

  /** Where each field is on the wire. */
  lemma HeaderLayout(m: Message)
    ensures var b := Encode(m);
            && b[..4] == Le32(m.command) && b[4..8] == Le32(m.arg0) && b[8..12] == Le32(m.arg1)
            && b[12..16] == Le32(|m.payload|) && b[16..20] == Le32(m.check)
            && b[20..24] == Le32(0xffff_ffff - m.command) && b[24..] == m.payload
  {
    var ws := [m.command, m.arg0, m.arg1, |m.payload|, m.check, Complement(m.command)];
    forall i | 0 <= i < 6
      ensures WordsToBytes(ws)[4 * i..4 * i + 4] == Le32(ws[i])
    {
      WordAt(ws, i);
    }
    var h := WordsToBytes(ws);
    assert h[4 * 0..4 * 0 + 4] == Le32(ws[0]) && h[4 * 1..4 * 1 + 4] == Le32(ws[1])
      && h[4 * 2..4 * 2 + 4] == Le32(ws[2]);
    assert h[4 * 3..4 * 3 + 4] == Le32(ws[3]) && h[4 * 4..4 * 4 + 4] == Le32(ws[4])
      && h[4 * 5..4 * 5 + 4] == Le32(ws[5]);
  }

  lemma {:induction false} WordAt(ws: seq<u32>, i: nat)
    requires i < |ws|
    ensures WordsToBytes(ws)[4 * i..4 * i + 4] == Le32(ws[i])
  {
    if i > 0 {
      WordAt(ws[1..], i - 1);
      assert WordsToBytes(ws)[4 * i..4 * i + 4] == WordsToBytes(ws[1..])[4 * (i - 1)..4 * (i - 1) + 4];
    }
  }

  // Frames by name

  /** A message on the wire, told without the command words: its name, the two arguments, the payload's length, the
      checksum, the name with every bit turned over, the payload. */
  function Wire(name: seq<byte>, arg0: u32, arg1: u32, check: u32, payload: Payload): seq<byte> {
    name + Le32(arg0) + Le32(arg1) + Le32(|payload|) + Le32(check) + Inverted(name) + payload
  }

  function Inverted(name: seq<byte>): (b: seq<byte>)
    ensures |b| == |name| && forall i :: 0 <= i < |name| ==> b[i] == 255 - name[i]
  {
    if name == [] then [] else [255 - name[0]] + Inverted(name[1..])
  }

  /** The command words and the names they spell on the wire. */
  lemma CommandNames()
    ensures Le32(0x4e45_504f) == Ascii("OPEN") && Le32(0x5941_4b4f) == Ascii("OKAY")
    ensures Le32(0x4554_5257) == Ascii("WRTE") && Le32(0x4553_4c43) == Ascii("CLSE")
  {
    AsciiFour("OPEN");
    AsciiFour("OKAY");
    AsciiFour("WRTE");
    AsciiFour("CLSE");
  }

  lemma HandshakeNames()
    ensures Le32(0x4e58_4e43) == Ascii("CNXN") && Le32(0x4854_5541) == Ascii("AUTH")
    ensures Le32(0x534c_5453) == Ascii("STLS")
  {
    AsciiFour("CNXN");
    AsciiFour("AUTH");
    AsciiFour("STLS");
  }

  lemma InvertedWord(v: u32)
    ensures Le32(0xffff_ffff - v) == Inverted(Le32(v))
  {
    Le32RoundTrip(v, Le32(v));
    var b, c := Le32(v), Inverted(Le32(v));
    assert ReadLe32(c) == 0xffff_ffff - ReadLe32(b);
    Le32RoundTrip(0, c);
    assert c[..4] == c;
  }

  /** A message is framed under the name of its command. */
  lemma EncodeIsWire(m: Message)
    ensures Encode(m) == Wire(Le32(m.command), m.arg0, m.arg1, m.check, m.payload)
  {
    HeaderLayout(m);
    InvertedWord(m.command);
    var b := Encode(m);
    assert b == b[..4] + b[4..8] + b[8..12] + b[12..16] + b[16..20] + b[20..24] + b[24..];
  }

  /** A frame under a name is received as the message whose command word the name spells. */
  lemma WireIsReceived(command: u32, arg0: u32, arg1: u32, check: u32, payload: Payload, rest: seq<byte>,
                       maxPayload: nat)
    requires |payload| <= maxPayload
    ensures Parse(Wire(Le32(command), arg0, arg1, check, payload) + rest, maxPayload, true) ==
            Some((Message(command, arg0, arg1, check, payload), rest))
  {
    var m := Message(command, arg0, arg1, check, payload);
    EncodeIsWire(m);
    ParseEncoded(m, rest, maxPayload, true);
  }

  /** A data frame, byte by byte: "WRTE", the ids, the length, the checksum, the name inverted, the payload. */
  function DataFrame(arg0: u32, arg1: u32, check: u32, payload: Payload): seq<byte> {
    [0x57, 0x52, 0x54, 0x45] + Le32(arg0) + Le32(arg1) + Le32(|payload|) + Le32(check) + [0xa8, 0xad, 0xab, 0xba]
    + payload
  }

  /** An acknowledgement, byte by byte: "OKAY", the ids, no length, no checksum, the name inverted. */
  function AckFrame(arg0: u32, arg1: u32): seq<byte> {
    [0x4f, 0x4b, 0x41, 0x59] + Le32(arg0) + Le32(arg1) + [0, 0, 0, 0] + [0, 0, 0, 0] + [0xb0, 0xb4, 0xbe, 0xa6]
  }

  lemma DataFrameIsReceived(arg0: u32, arg1: u32, check: u32, payload: Payload, rest: seq<byte>)
    requires |payload| <= 1_048_576
    ensures Parse(DataFrame(arg0, arg1, check, payload) + rest, 1_048_576, true) ==
            Some((Message(0x4554_5257, arg0, arg1, check, payload), rest))
  {
    assert Le32(0x4554_5257) == [0x57, 0x52, 0x54, 0x45];
    assert Inverted([0x57, 0x52, 0x54, 0x45]) == [0xa8, 0xad, 0xab, 0xba];
    WireIsReceived(0x4554_5257, arg0, arg1, check, payload, rest, 1_048_576);
  }

  lemma AckFrameIsSent(arg0: u32, arg1: u32)
    ensures Encode(Message(0x5941_4b4f, arg0, arg1, 0, [])) == AckFrame(arg0, arg1)
  {
    assert Le32(0x5941_4b4f) == [0x4f, 0x4b, 0x41, 0x59] && Le32(0) == [0, 0, 0, 0];
    assert Inverted([0x4f, 0x4b, 0x41, 0x59]) == [0xb0, 0xb4, 0xbe, 0xa6];
    EncodeIsWire(Message(0x5941_4b4f, arg0, arg1, 0, []));
    assert AckFrame(arg0, arg1) + [] == AckFrame(arg0, arg1);
  }

  /** What both senders put on the wire: the frame under the command's name, its length word and checksum; without a
      data pointer no payload, or whatever the fresh buffer holds. */
  lemma FramesAreWire(command: u32, arg0: u32, arg1: u32, data: Option<Payload>, length: u32, skip: bool,
                      junk: seq<byte>)
    requires data.Some? ==> |data.value| == length
    ensures var plain := PlainFrame(command, arg0, arg1, data, length, skip);
            var tls := TlsFrame(command, arg0, arg1, data, length, skip, junk);
            var check := if skip || data.None? then 0 else ByteSum(data.value) % 0x1_0000_0000;
            if data.Some? then plain == tls == Wire(Le32(command), arg0, arg1, check, data.value)
            else
              plain == Le32(command) + Le32(arg0) + Le32(arg1) + Le32(length) + Le32(0) + Inverted(Le32(command))
              && tls == plain + junk
  {
    if data.Some? {
      EncodeIsWire(Announce(command, arg0, arg1, data.value, skip));
    } else {
      InvertedWord(command);
      HeaderIsFlat([command, arg0, arg1, length, 0, Complement(command)]);
    }
  }

  lemma HeaderIsFlat(ws: seq<u32>)
    requires |ws| == 6
    ensures WordsToBytes(ws) == Le32(ws[0]) + Le32(ws[1]) + Le32(ws[2]) + Le32(ws[3]) + Le32(ws[4]) + Le32(ws[5])
  {
    WordAt(ws, 0);
    WordAt(ws, 1);
    WordAt(ws, 2);
    WordAt(ws, 3);
    WordAt(ws, 4);
    WordAt(ws, 5);
    SixWords(WordsToBytes(ws));
  }

  lemma SixWords(b: seq<byte>)
    requires |b| == 24
    ensures b == b[4 * 0..4 * 0 + 4] + b[4 * 1..4 * 1 + 4] + b[4 * 2..4 * 2 + 4] + b[4 * 3..4 * 3 + 4]
                 + b[4 * 4..4 * 4 + 4] + b[4 * 5..4 * 5 + 4]
  {
  }

  // Round trips

  /** A framed message followed by anything parses back to itself if and only if the receiver accepts it. */
  lemma ParseEncoded(m: Message, rest: seq<byte>, maxPayload: nat, skip: bool)
    ensures Parse(Encode(m) + rest, maxPayload, skip) ==
            if Acceptable(m, maxPayload, skip) then Some((m, rest)) else None
  {
    var b := Encode(m) + rest;
    var h := [m.command, m.arg0, m.arg1, |m.payload|, m.check, Complement(m.command)];
    WordsRoundTrip(h);
    assert b[..HEADER_SIZE] == WordsToBytes(h) && b[HEADER_SIZE..] == m.payload + rest;
  }

  /** Between the two ends of this program: a receiver that skips checksums reads every sender, one that
      checks them reads a sender that skips them exactly when the payload bytes add up to 0. */
  lemma AnnouncedIsReceived(command: u32, arg0: u32, arg1: u32, payload: Payload, sendSkip: bool,
                            rest: seq<byte>, maxPayload: nat, recvSkip: bool)
    requires |payload| <= maxPayload
    ensures var m := Announce(command, arg0, arg1, payload, sendSkip);
            Parse(Encode(m) + rest, maxPayload, recvSkip) == Some((m, rest))
            <==> recvSkip || !sendSkip || ByteSum(payload) % U32_BASE == 0
  {
    var m := Announce(command, arg0, arg1, payload, sendSkip);
    ParseEncoded(m, rest, maxPayload, recvSkip);
    SumMatches(m, sendSkip, recvSkip);
  }

  lemma SumMatches(m: Message, sendSkip: bool, recvSkip: bool)
    requires m.check == if sendSkip then 0 else ByteSum(m.payload) % U32_BASE
    ensures (recvSkip || m.payload == [] || ByteSum(m.payload) % U32_BASE == m.check)
            <==> (recvSkip || !sendSkip || ByteSum(m.payload) % U32_BASE == 0)
  {
  }

  /** Whatever the parser returns is exactly what the bytes it consumed encode. */
  lemma EncodeParsed(b: seq<byte>, maxPayload: nat, skip: bool)
    requires Parse(b, maxPayload, skip).Some?
    ensures var (m, rest) := Parse(b, maxPayload, skip).value;
            b == Encode(m) + rest && |b| == HEADER_SIZE + |m.payload| + |rest| && Acceptable(m, maxPayload, skip)
  {
    var (m, rest) := Parse(b, maxPayload, skip).value;
    var h, body := BytesToWords(b[..HEADER_SIZE]), b[HEADER_SIZE..];
    BytesRoundTrip(b[..HEADER_SIZE]);
    assert h == [m.command, m.arg0, m.arg1, |m.payload|, m.check, Complement(m.command)];
    assert b == b[..HEADER_SIZE] + body && body == m.payload + rest;
  }

  predicate AllAcceptable(ms: seq<Message>, maxPayload: nat, skip: bool) {
    forall i :: 0 <= i < |ms| ==> Acceptable(ms[i], maxPayload, skip)
  }

  /** A stream parses to a list of messages exactly when it is their encoding and the receiver accepts each. */
  lemma {:induction false} ParseAllIffEncodeAll(b: seq<byte>, ms: seq<Message>, maxPayload: nat, skip: bool)
    ensures ParseAll(b, maxPayload, skip) == Some(ms) <==> b == EncodeAll(ms) && AllAcceptable(ms, maxPayload, skip)
  {
    if b == EncodeAll(ms) && AllAcceptable(ms, maxPayload, skip) {
      ParseAllEncoded(ms, maxPayload, skip);
    }
    if ParseAll(b, maxPayload, skip) == Some(ms) {
      EncodeAllParsed(b, maxPayload, skip);
    }
  }

  lemma {:induction false} ParseAllEncoded(ms: seq<Message>, maxPayload: nat, skip: bool)
    requires AllAcceptable(ms, maxPayload, skip)
    ensures ParseAll(EncodeAll(ms), maxPayload, skip) == Some(ms)
  {
    if ms != [] {
      ParseEncoded(ms[0], EncodeAll(ms[1..]), maxPayload, skip);
      ParseAllEncoded(ms[1..], maxPayload, skip);
      ParseAllStep(EncodeAll(ms), ms[0], EncodeAll(ms[1..]), maxPayload, skip);
      assert ms == [ms[0]] + ms[1..];
    }
  }

  lemma ParseAllStep(b: seq<byte>, m: Message, rest: seq<byte>, maxPayload: nat, skip: bool)
    requires Parse(b, maxPayload, skip) == Some((m, rest))
    ensures b != [] && |rest| < |b|
    ensures var tail := ParseAll(rest, maxPayload, skip);
            ParseAll(b, maxPayload, skip) == if tail.Some? then Some([m] + tail.value) else None
  {
  }

  lemma {:induction false} EncodeAllParsed(b: seq<byte>, maxPayload: nat, skip: bool)
    requires ParseAll(b, maxPayload, skip).Some?
    ensures var ms := ParseAll(b, maxPayload, skip).value; b == EncodeAll(ms) && AllAcceptable(ms, maxPayload, skip)
    decreases |b|
  {
    if b != [] {
      EncodeParsed(b, maxPayload, skip);
      var (m, rest) := Parse(b, maxPayload, skip).value;
      ParseAllStep(b, m, rest, maxPayload, skip);
      EncodeAllParsed(rest, maxPayload, skip);
      var ms := ParseAll(rest, maxPayload, skip).value;
      assert ([m] + ms)[1..] == ms;
    }
  }

  lemma {:induction false} EncodeAllSnoc(ms: seq<Message>, m: Message)
    ensures EncodeAll(ms + [m]) == EncodeAll(ms) + Encode(m)
  {
    if ms == [] {
      assert ms + [m] == [m] && [m][1..] == [];
    } else {
      assert (ms + [m])[1..] == ms[1..] + [m];
      EncodeAllSnoc(ms[1..], m);
    }
  }

  // Checksum

  lemma {:induction false} ByteSumBound(data: seq<byte>)
    ensures ByteSum(data) <= 255 * |data|
  {
    if data != [] {
      ByteSumBound(data[..|data| - 1]);
    }
  }

  /** What the sum adds up: nothing for no bytes, the byte for one, and the parts' sums for two parts. */
  lemma {:induction false} ByteSumAdds(a: seq<byte>, b: seq<byte>, x: byte)
    ensures ByteSum([]) == 0 && ByteSum([x]) == x
    ensures ByteSum(a + b) == ByteSum(a) + ByteSum(b)
  {
    assert [x][..0] == [];
    if b == [] {
      assert a + b == a;
    } else {
      assert (a + b)[..|a + b| - 1] == a + b[..|b| - 1];
      ByteSumAdds(a, b[..|b| - 1], x);
    }
  }

  /** Changing one byte changes the sum by as much. */
  lemma ByteSumChanges(data: seq<byte>, i: nat, x: byte)
    requires i < |data|
    ensures ByteSum(data[i := x]) == ByteSum(data) - data[i] + x
  {
    var before, after := data[..i], data[i + 1..];
    assert data == before + ([data[i]] + after) && data[i := x] == before + ([x] + after);
    ByteSumAdds(before, [data[i]] + after, data[i]);
    ByteSumAdds([data[i]], after, data[i]);
    ByteSumAdds(before, [x] + after, x);
    ByteSumAdds([x], after, x);
  }

  /** A payload the program may send never wraps the 32-bit sum. */
  lemma ChecksumDoesNotWrap(data: seq<byte>)
    requires |data| <= 1_048_576
    ensures ByteSum(data) % 0x1_0000_0000 == ByteSum(data)
  {
    ByteSumBound(data);
  }

  /** `adb_checksum`, with the wrap-around of `uint32_t` addition. */
  method Checksum(data: seq<byte>) returns (sum: u32)
    ensures sum == ByteSum(data) % 0x1_0000_0000
    ensures |data| <= 1_048_576 ==> sum == ByteSum(data)
  {
    sum := 0;
    for i := 0 to |data|
      invariant sum == ByteSum(data[..i]) % U32_BASE
    {
      assert data[..i + 1][..i] == data[..i];
      var wide: int := sum + data[i];
      sum := wide % U32_BASE;
    }
    assert data[..|data|] == data;
    if |data| <= MAX_PAYLOAD {
      ChecksumDoesNotWrap(data);
    }
  }

  // Senders

  /** The bytes of the plain sender. Without a data pointer only the header goes out, whatever length it announces. */
  function PlainFrame(command: u32, arg0: u32, arg1: u32, data: Option<Payload>, length: u32, skip: bool): seq<byte>
    requires data.Some? ==> |data.value| == length
  {
    match data
    case Some(p) => Encode(Announce(command, arg0, arg1, p, skip))
    case None => HeaderBytes(command, arg0, arg1, length, 0)
  }

  /** The bytes of the TLS sender. Without a data pointer `junk`, the fresh buffer's contents, follows the header. */
  function TlsFrame(command: u32, arg0: u32, arg1: u32, data: Option<Payload>, length: u32, skip: bool,
                    junk: seq<byte>): seq<byte>
    requires data.Some? ==> |data.value| == length
  {
    match data
    case Some(p) => Encode(Announce(command, arg0, arg1, p, skip))
    case None => HeaderBytes(command, arg0, arg1, length, 0) + junk
  }

  /** The two senders agree exactly when there is a data pointer or nothing to point at. */
  lemma SendersAgree(command: u32, arg0: u32, arg1: u32, data: Option<Payload>, length: u32, skip: bool,
                     junk: seq<byte>)
    requires data.Some? ==> |data.value| == length
    requires |junk| == length
    ensures PlainFrame(command, arg0, arg1, data, length, skip) ==
            TlsFrame(command, arg0, arg1, data, length, skip, junk)
            <==> data.Some? || length == 0
  {
    var h := HeaderBytes(command, arg0, arg1, length, 0);
    assert |h + junk| == |h| + |junk|;
  }

  /** `adb_send_msg`: the header, then the payload, each pushed out in whatever pieces the transport takes. */
  method SendMsg(fd: Sink, command: u32, arg0: u32, arg1: u32, data: Option<Payload>, length: u32, skip: bool)
    returns (rc: int, ghost sent: nat)
    requires data.Some? ==> |data.value| == length
    requires data.None? && !skip ==> length == 0
    modifies fd
    ensures var frame := PlainFrame(command, arg0, arg1, data, length, skip);
            && rc in {0, -1} && sent <= |frame| && fd.wire == old(fd.wire) + frame[..sent]
            && (rc == 0 <==> sent == |frame|)
            && (ChunksBeforeFail(old(fd.script)) >= |frame| ==> rc == 0)
            && (rc == 0 ==> ChunksBeforeFail(fd.script) + |frame| >= ChunksBeforeFail(old(fd.script)))
  {
    var body := if data.Some? then data.value else [];
    var check: u32 := 0;
    if !skip {
      check := Checksum(body);
    }
    rc, sent := SendParts(fd, HeaderBytes(command, arg0, arg1, length, check), body);
  }

  method SendParts(fd: Sink, header: seq<byte>, body: seq<byte>) returns (rc: int, ghost sent: nat)
    modifies fd
    ensures rc in {0, -1} && sent <= |header + body| && fd.wire == old(fd.wire) + (header + body)[..sent]
    ensures rc == 0 <==> sent == |header + body|
    ensures ChunksBeforeFail(old(fd.script)) >= |header + body| ==> rc == 0
    ensures rc == 0 ==> ChunksBeforeFail(fd.script) + |header + body| >= ChunksBeforeFail(old(fd.script))
  {
    var n := fd.SendAll(header);
    sent := n;
    if n < |header| {
      assert header[..n] == (header + body)[..n];
      return -1, sent;
    }
    var k := fd.SendAll(body);
    sent := n + k;
    assert (header + body)[..sent] == header[..n] + body[..k];
    rc := if k < |body| then -1 else 0;
  }

  /** A TLS connection. `oracle(k)` is the result of the k-th `tls_send`: negative is an error, 0 is WANT_WRITE. */
  class TlsSink {
    var wire: seq<byte>
    var calls: nat
    const oracle: nat -> int

    constructor (oracle: nat -> int)
      ensures wire == [] && calls == 0 && this.oracle == oracle
    {
      wire, calls, this.oracle := [], 0, oracle;
    }

    method TlsSend(data: seq<byte>) returns (n: int)
      requires data != []
      modifies this
      ensures calls == old(calls) + 1
      ensures n == if oracle(old(calls)) > 0 then Min(oracle(old(calls)), |data|) else oracle(old(calls))
      ensures wire == old(wire) + if n > 0 then data[..n] else []
    {
      n := oracle(calls);
      calls := calls + 1;
      if n > 0 {
        n := Min(n, |data|);
        wire := wire + data[..n];
      }
    }
  }

  /** Why the TLS sender stops early: the last call failed, or the last 500 calls all wanted to write again. */
  ghost predicate TlsGaveUp(oracle: nat -> int, calls: nat) {
    || (calls > 0 && oracle(calls - 1) < 0)
    || (calls >= 500 && forall k :: calls - 500 <= k < calls ==> oracle(k) == 0)
  }

  /** `adb_send_msg_tls`: it ends for every infinite sequence of `tls_send` results. */
  method SendMsgTls(tls: TlsSink, command: u32, arg0: u32, arg1: u32, data: Option<Payload>, length: u32, skip: bool,
                    junk: seq<byte>)
    returns (rc: int, ghost sent: nat)
    requires data.Some? ==> |data.value| == length
    requires HEADER_SIZE + length < 0x8000_0000 && |junk| == length
    modifies tls
    ensures var frame := TlsFrame(command, arg0, arg1, data, length, skip, junk);
            && rc in {0, -1} && sent <= |frame| && tls.wire == old(tls.wire) + frame[..sent]
            && (rc == 0 <==> sent == |frame|)
            && (rc == -1 ==> TlsGaveUp(tls.oracle, tls.calls))
  {
    var check: u32 := 0;
    if data.Some? && !skip {
      check := Checksum(data.value);
    }
    var wbuf := HeaderBytes(command, arg0, arg1, length, check) + if data.Some? then data.value else junk;
    var at := TlsSendAll(tls, wbuf);
    sent := at;
    rc := if at == |wbuf| then 0 else -1;
  }

  method TlsSendAll(tls: TlsSink, wbuf: seq<byte>) returns (at: nat)
    modifies tls
    ensures at <= |wbuf| && tls.wire == old(tls.wire) + wbuf[..at]
    ensures at < |wbuf| ==> TlsGaveUp(tls.oracle, tls.calls)
  {
    at := 0;
    var retries := 0;
    while at < |wbuf| && retries < MAX_RETRIES
      invariant at <= |wbuf| && 0 <= retries <= MAX_RETRIES
      invariant tls.wire == old(tls.wire) + wbuf[..at]
      invariant tls.calls >= retries && forall k :: tls.calls - retries <= k < tls.calls ==> tls.oracle(k) == 0
      decreases |wbuf| - at, MAX_RETRIES - retries
    {
      var n := tls.TlsSend(wbuf[at..]);
      if n > 0 {
        assert wbuf[..at + n] == wbuf[..at] + wbuf[at..][..n];
        at, retries := at + n, 0;
        continue;
      }
      if n < 0 {
        return;
      }
      retries := retries + 1;
    }
  }

  // Receiver

  /** The calls one message takes all move data. */
  predicate ServesMessage(script: seq<Io>, length: nat) {
    Serves(script, HEADER_SIZE) && Serves(After(script, HEADER_SIZE), length)
  }

  function AfterMessage(script: seq<Io>, length: nat): seq<Io>
    requires ServesMessage(script, length)
  {
    After(After(script, HEADER_SIZE), length)
  }

  function HeaderOf(b: seq<byte>): (h: seq<u32>)
    requires |b| >= HEADER_SIZE
    ensures |h| == 6
  {
    BytesToWords(b[..HEADER_SIZE])
  }

  /** The receivers' result when the payload buffer has been overrun; the source then has no defined behaviour. */
  const OVERRUN := -2

  /** Whether the receiver goes on to read a payload of this length. A length word of 2^31 or more passes the bound as
      a negative number: `recv` fails when asked for that many bytes, `tls_recv` takes it for a huge size. */
  predicate ReadsOn(h: seq<u32>, maxPayload: nat, tls: bool)
    requires |h| == 6
  {
    HeaderAccepted(h, maxPayload) && (tls || h[3] < 0x8000_0000)
  }

  /** How the read of the payload goes, if the receiver comes to it. */
  function BodyFill(h: seq<u32>, script: seq<Io>, avail: nat, maxPayload: nat, tls: bool): (f: Fill)
    requires |h| == 6
    ensures f.taken <= avail
  {
    if ReadsOn(h, maxPayload, tls) then Filled(script, avail, h[3]) else Fill(0, None, script)
  }

  /** The read of the payload of the message a stream starts with; None if the header is not complete. */
  function StreamFill(b: seq<byte>, script: seq<Io>, maxPayload: nat, tls: bool): (f: Option<Fill>)
    ensures f.Some? ==> HEADER_SIZE + f.value.taken <= |b|
  {
    var f := Filled(script, |b|, HEADER_SIZE);
    FilledIff(script, |b|, HEADER_SIZE);
    if f.stop.Some? then None else Some(BodyFill(HeaderOf(b), f.rest, |b| - HEADER_SIZE, maxPayload, tls))
  }

  /** How many bytes a receive takes from the stream, whatever it returns. */
  function Taken(b: seq<byte>, script: seq<Io>, maxPayload: nat, tls: bool): (n: nat)
    ensures n <= |b|
  {
    var f := StreamFill(b, script, maxPayload, tls);
    if f.None? then Filled(script, |b|, HEADER_SIZE).taken else HEADER_SIZE + f.value.taken
  }

  predicate Starved(f: Fill) {
    f.stop.Some? && f.stop != Some(Fail)
  }

  /** A receive stops for want of data, not for an error. */
  predicate Starves(b: seq<byte>, script: seq<Io>, maxPayload: nat, tls: bool) {
    var f := StreamFill(b, script, maxPayload, tls);
    if f.None? then Starved(Filled(script, |b|, HEADER_SIZE)) else Starved(f.value)
  }

  /** A receive puts more into the payload buffer than it holds. */
  predicate Overruns(b: seq<byte>, script: seq<Io>, maxPayload: nat, tls: bool) {
    var f := StreamFill(b, script, maxPayload, tls);
    f.Some? && f.value.taken > maxPayload
  }

  // The length bound

  /** An accepted header keeps the payload within the buffer if and only if its length word is below 2^31. */
  lemma LengthBoundIff(h: seq<u32>, maxPayload: nat)
    requires |h| == 6 && HeaderAccepted(h, maxPayload) && maxPayload < 0x8000_0000
    ensures h[3] <= maxPayload <==> h[3] < 0x8000_0000
  {
  }

  /** For an accepted header some schedule overruns the buffer if and only if the receiver is the TLS one, the length
      word is at least 2^31, and the peer sends more than the buffer holds. */
  lemma OverrunIff(h: seq<u32>, avail: nat, maxPayload: nat, tls: bool)
    requires |h| == 6 && HeaderAccepted(h, maxPayload) && maxPayload < 0x8000_0000
    ensures (exists script :: BodyFill(h, script, avail, maxPayload, tls).taken > maxPayload)
            <==> tls && h[3] >= 0x8000_0000 && avail > maxPayload
  {
    if tls && h[3] >= 0x8000_0000 && avail > maxPayload {
      var script := [Chunk(avail)];
      assert Filled(script, avail, h[3]).taken >= Moved(avail, Min(h[3], avail));
      assert BodyFill(h, script, avail, maxPayload, tls).taken > maxPayload;
    }
  }

  /** Such a header: every word as it should be but for a length of 2^31. */
  lemma NegativeLengthAccepted(command: u32, arg0: u32, arg1: u32, check: u32, maxPayload: nat)
    ensures var h := [command, arg0, arg1, 0x8000_0000, check, Complement(command)];
            HeaderAccepted(h, maxPayload) && ReadsOn(h, maxPayload, true) && !ReadsOn(h, maxPayload, false)
  {
  }

  // A receive

  /** The result, the caller's header and payload buffers, the stream and the calls left after a receive. */
  datatype Reception = Reception(rc: int, hdr: seq<byte>, pay: seq<byte>, rest: seq<byte>, script: seq<Io>)

  /** Into these buffers, from this stream. */
  function Receive(b: seq<byte>, script: seq<Io>, hdr: seq<byte>, pay: seq<byte>, maxPayload: nat, skip: bool,
                   tls: bool)
    : (r: Reception)
    requires |hdr| == HEADER_SIZE && |pay| >= maxPayload
    ensures |r.hdr| == HEADER_SIZE && |r.pay| == |pay| && |r.rest| <= |b|
  {
    var f := Filled(script, |b|, HEADER_SIZE);
    FilledIff(script, |b|, HEADER_SIZE);
    if f.stop.Some? then
      Reception(if tls && Starved(f) then 0 else -1, b[..f.taken] + hdr[f.taken..], pay, b[f.taken..], f.rest)
    else ReceiveBody(b[HEADER_SIZE..], f.rest, b[..HEADER_SIZE], pay, maxPayload, skip, tls)
  }

  /** The second half, with the header complete. */
  function ReceiveBody(b: seq<byte>, script: seq<Io>, hdr: seq<byte>, pay: seq<byte>, maxPayload: nat, skip: bool,
                       tls: bool)
    : (r: Reception)
    requires |hdr| == HEADER_SIZE && |pay| >= maxPayload
    ensures r.hdr == hdr && |r.pay| == |pay| && |r.rest| <= |b|
  {
    var h := BytesToWords(hdr);
    var f := BodyFill(h, script, |b|, maxPayload, tls);
    if !ReadsOn(h, maxPayload, tls) then Reception(-1, hdr, pay, b, script)
    else if f.taken > maxPayload then Reception(OVERRUN, hdr, pay, b[f.taken..], f.rest)
    else
      var rc := if f.stop.Some? then (if tls && Starved(f) then 0 else -1)
                else if h[3] > 0 && !skip && ByteSum(b[..f.taken]) % U32_BASE != h[4] then -1
                else 1;
      Reception(rc, hdr, b[..f.taken] + pay[f.taken..], b[f.taken..], f.rest)
  }

  /** A message is received if and only if the stream starts with an acceptable one and the calls it takes all move
      data. The TLS receiver answers 0 instead of -1 if and only if it stopped for want of data. */
  lemma ReceiveIff(b: seq<byte>, script: seq<Io>, hdr: seq<byte>, pay: seq<byte>, maxPayload: nat, skip: bool,
                   tls: bool)
    requires |hdr| == HEADER_SIZE && |pay| >= maxPayload && maxPayload < 0x8000_0000
    ensures var r := Receive(b, script, hdr, pay, maxPayload, skip, tls);
            var p := Parse(b, maxPayload, skip);
            && (r.rc == 1 <==> p.Some? && ServesMessage(script, |p.value.0.payload|))
            && (r.rc == 1 ==> r.hdr == b[..HEADER_SIZE] && |p.value.0.payload| <= maxPayload)
            && (r.rc == 1 ==> r.pay[..|p.value.0.payload|] == p.value.0.payload)
            && (r.rc == 1 ==> r.rest == p.value.1 && r.script == AfterMessage(script, |p.value.0.payload|))
    ensures var r := Receive(b, script, hdr, pay, maxPayload, skip, tls);
            && r.rc in {1, 0, -1, OVERRUN} && (r.rc == OVERRUN <==> Overruns(b, script, maxPayload, tls))
            && (r.rc == 0 <==> tls && Starves(b, script, maxPayload, tls) && !Overruns(b, script, maxPayload, tls))
            && r.rest == b[Taken(b, script, maxPayload, tls)..]
  {
    FilledIff(script, |b|, HEADER_SIZE);
    if Filled(script, |b|, HEADER_SIZE).stop.None? {
      var rest := After(script, HEADER_SIZE);
      ReceiveBodyIff(b[HEADER_SIZE..], rest, b[..HEADER_SIZE], pay, maxPayload, skip, tls);
      var k := BodyFill(HeaderOf(b), rest, |b| - HEADER_SIZE, maxPayload, tls).taken;
      assert b[HEADER_SIZE..][k..] == b[HEADER_SIZE + k..];
    }
  }

  /** Whatever the result, but for an overrun, each buffer holds the bytes taken, and behind them what it held
      before. */
  lemma BuffersAfter(b: seq<byte>, script: seq<Io>, hdr: seq<byte>, pay: seq<byte>, maxPayload: nat, skip: bool,
                     tls: bool, i: nat)
    requires |hdr| == HEADER_SIZE && |pay| >= maxPayload && maxPayload < 0x8000_0000
    ensures var r := Receive(b, script, hdr, pay, maxPayload, skip, tls);
            var n := Taken(b, script, maxPayload, tls);
            && (i < 24 ==> r.hdr[i] == if i < n then b[i] else hdr[i])
            && (r.rc != OVERRUN && i < |pay| ==> r.pay[i] == if 24 + i < n then b[24 + i] else pay[i])
  {
    FilledIff(script, |b|, HEADER_SIZE);
    if Filled(script, |b|, HEADER_SIZE).stop.None? {
      var rest := After(script, HEADER_SIZE);
      var k := BodyFill(HeaderOf(b), rest, |b| - HEADER_SIZE, maxPayload, tls).taken;
      if k <= maxPayload {
        if i < |pay| {
          PayAfter(b[HEADER_SIZE..], rest, b[..HEADER_SIZE], pay, maxPayload, skip, tls, i);
        }
      }
    }
  }

  lemma PayAfter(b: seq<byte>, script: seq<Io>, hdr: seq<byte>, pay: seq<byte>, maxPayload: nat, skip: bool, tls: bool,
                 i: nat)
    requires |hdr| == HEADER_SIZE && |pay| >= maxPayload && i < |pay|
    ensures var r := ReceiveBody(b, script, hdr, pay, maxPayload, skip, tls);
            var k := BodyFill(BytesToWords(hdr), script, |b|, maxPayload, tls).taken;
            k <= maxPayload ==> r.pay[i] == if i < k then b[i] else pay[i]
  {
    var r := ReceiveBody(b, script, hdr, pay, maxPayload, skip, tls);
    var k := BodyFill(BytesToWords(hdr), script, |b|, maxPayload, tls).taken;
    if k <= maxPayload {
      assert r.pay == b[..k] + pay[k..];
    }
  }

  lemma ReceiveBodyIff(b: seq<byte>, script: seq<Io>, hdr: seq<byte>, pay: seq<byte>, maxPayload: nat, skip: bool,
                       tls: bool)
    requires |hdr| == HEADER_SIZE && |pay| >= maxPayload && maxPayload < 0x8000_0000
    ensures var r := ReceiveBody(b, script, hdr, pay, maxPayload, skip, tls);
            var h := BytesToWords(hdr);
            var p := ParseBody(h, b, maxPayload, skip);
            && (r.rc == 1 <==> p.Some? && Serves(script, h[3]))
            && (r.rc == 1 ==> h[3] == |p.value.0.payload| <= maxPayload && r.pay[..h[3]] == p.value.0.payload)
            && (r.rc == 1 ==> r.rest == p.value.1 && r.script == After(script, h[3]))
    ensures var r := ReceiveBody(b, script, hdr, pay, maxPayload, skip, tls);
            var f := BodyFill(BytesToWords(hdr), script, |b|, maxPayload, tls);
            && r.rc in {1, 0, -1, OVERRUN} && (r.rc == OVERRUN <==> f.taken > maxPayload)
            && (r.rc == 0 <==> tls && Starved(f) && f.taken <= maxPayload)
            && r.rest == b[f.taken..]
  {
    var h := BytesToWords(hdr);
    FilledIff(script, |b|, h[3]);
    assert b[0..] == b;
  }

  /** `adb_recv_msg` and, with `tls`, `adb_recv_msg_tls`, into the caller's buffers. */
  method RecvInto(fd: Source, hdr: array<byte>, pay: array<byte>, maxPayload: nat, skip: bool, tls: bool)
    returns (rc: int)
    requires hdr.Length == HEADER_SIZE && pay.Length >= maxPayload && hdr != pay && maxPayload < 0x8000_0000
    modifies fd, hdr, pay
    ensures Reception(rc, hdr[..], pay[..], fd.incoming, fd.script) ==
            Receive(old(fd.incoming), old(fd.script), old(hdr[..]), old(pay[..]), maxPayload, skip, tls)
  {
    ghost var stream, script, before := fd.incoming, fd.script, hdr[..];
    FilledIff(script, |stream|, HEADER_SIZE);
    var bytes, failed := fd.RecvStrict(HEADER_SIZE);
    CopyInto(hdr, 0, bytes);
    assert hdr[..] == bytes + before[|bytes|..];
    if |bytes| < HEADER_SIZE {
      return if tls && !failed then 0 else -1;
    }
    assert hdr[..] == stream[..HEADER_SIZE];
    rc := RecvBody(fd, hdr[..], pay, maxPayload, skip, tls);
  }

  /** The second half of the receivers: check the header words and read the payload. */
  method RecvBody(fd: Source, hdr: seq<byte>, pay: array<byte>, maxPayload: nat, skip: bool, tls: bool)
    returns (rc: int)
    requires |hdr| == HEADER_SIZE && pay.Length >= maxPayload && maxPayload < 0x8000_0000
    modifies fd, pay
    ensures Reception(rc, hdr, pay[..], fd.incoming, fd.script) ==
            ReceiveBody(old(fd.incoming), old(fd.script), hdr, old(pay[..]), maxPayload, skip, tls)
  {
    var h := BytesToWords(hdr);
    ghost var stream, before := fd.incoming, pay[..];
    assert stream[0..] == stream;
    if h[5] != Complement(h[0]) {
      return -1;
    }
    if h[3] > 0 && AsInt32(h[3]) > maxPayload {
      return -1;
    }
    if AsInt32(h[3]) < 0 && !tls {
      return -1;  // `recv` fails when asked for a negative amount
    }
    FilledIff(fd.script, |fd.incoming|, h[3]);
    var payload, failed := fd.RecvStrict(h[3]);
    if |payload| > maxPayload {
      return OVERRUN;
    }
    CopyInto(pay, 0, payload);
    assert pay[..] == payload + before[|payload|..];
    if |payload| < h[3] {
      return if tls && !failed then 0 else -1;
    }
    if h[3] > 0 && !skip {
      var check := Checksum(payload);
      if check != h[4] {
        return -1;
      }
    }
    return 1;
  }

  /** A receive into fresh buffers: the message, if there is one. */
  method RecvMsg(fd: Source, maxPayload: nat, skip: bool, tls: bool) returns (rc: int, m: Message)
    requires maxPayload < 0x8000_0000
    modifies fd
    ensures rc in {1, 0, -1, OVERRUN}
    ensures rc == OVERRUN <==> Overruns(old(fd.incoming), old(fd.script), maxPayload, tls)
    ensures rc == 0 <==> tls && Starves(old(fd.incoming), old(fd.script), maxPayload, tls)
                         && !Overruns(old(fd.incoming), old(fd.script), maxPayload, tls)
    ensures var p := Parse(old(fd.incoming), maxPayload, skip);
            && (rc == 1 <==> p.Some? && ServesMessage(old(fd.script), |p.value.0.payload|))
            && (rc == 1 ==> p.value.0 == m && fd.script == AfterMessage(old(fd.script), |m.payload|))
            && (rc == 1 ==> p.value.1 == fd.incoming)
    ensures fd.incoming == old(fd.incoming)[Taken(old(fd.incoming), old(fd.script), maxPayload, tls)..]
  {
    m := Message(0, 0, 0, 0, []);
    var hdr, pay := new byte[HEADER_SIZE](_ => 0), new byte[maxPayload](_ => 0);
    ReceiveIff(fd.incoming, fd.script, hdr[..], pay[..], maxPayload, skip, tls);
    rc := RecvInto(fd, hdr, pay, maxPayload, skip, tls);
    if rc == 1 {
      var h := BytesToWords(hdr[..]);
      m := Message(h[0], h[1], h[2], h[4], pay[..h[3]]);
    }
  }

  // Callers

  /** What a caller passes on that does not look at the result more closely: the words in its header buffer and as
      much of its payload buffer as they say. */
  function HandedOn(hdr: seq<byte>, pay: Payload): Message
    requires |hdr| == HEADER_SIZE
  {
    var h := BytesToWords(hdr);
    Message(h[0], h[1], h[2], h[4], pay[..Min(h[3], |pay|)])
  }

  /** A caller that goes on whenever the result is not negative passes on the message received, or, if and only if the
      TLS receiver stopped for want of data, one that was not received. */
  lemma PassesOnIncompleteIff(b: seq<byte>, script: seq<Io>, hdr: seq<byte>, pay: Payload, maxPayload: nat, skip: bool,
                              tls: bool)
    requires |hdr| == HEADER_SIZE && |pay| >= maxPayload
    ensures var r := Receive(b, script, hdr, pay, maxPayload, skip, tls);
            var p := Parse(b, maxPayload, skip);
            && (r.rc >= 0 && !(p.Some? && ServesMessage(script, |p.value.0.payload|)) <==>
                tls && Starves(b, script, maxPayload, tls) && !Overruns(b, script, maxPayload, tls))
            && (r.rc == 1 ==> HandedOn(r.hdr, r.pay) == p.value.0)
  {
    ReceiveIff(b, script, hdr, pay, maxPayload, skip, tls);
  }

  /** A would-block after some of the header: that much is lost, and what is left of a message without payload
      is no message. */
  lemma WouldBlockLoses(m: Message, k: nat, later: seq<Io>, maxPayload: nat, skip: bool, tls: bool)
    requires m.payload == [] && 0 < k < HEADER_SIZE
    ensures var script := [Chunk(k), WouldBlock] + later;
            && Parse(Encode(m), maxPayload, skip) == Some((m, []))
            && !ServesMessage(script, 0) && Starves(Encode(m), script, maxPayload, tls)
            && Taken(Encode(m), script, maxPayload, tls) == k && Parse(Encode(m)[k..], maxPayload, skip).None?
  {
    var script := [Chunk(k), WouldBlock] + later;
    ParseEncoded(m, [], maxPayload, skip);
    assert Encode(m) + [] == Encode(m);
    StopsAfter(k, HEADER_SIZE, HEADER_SIZE, later);
  }

  /** Calling the receiver again after that, as its comment suggests, does not give the message. */
  method RetryAfterWouldBlock(m: Message, k: nat, later: seq<Io>, maxPayload: nat, skip: bool, tls: bool)
    returns (first: int, second: int)
    requires m.payload == [] && 0 < k < HEADER_SIZE && maxPayload < 0x8000_0000
    ensures first == (if tls then 0 else -1) && second != 1
  {
    WouldBlockLoses(m, k, later, maxPayload, skip, tls);
    var fd := new Source(Encode(m), [Chunk(k), WouldBlock] + later);
    var got: Message;
    first, got := RecvMsg(fd, maxPayload, skip, tls);
    second, got := RecvMsg(fd, maxPayload, skip, tls);
  }

  // Many messages

  /** The messages received one after another until one receive fails. */
  function Served(b: seq<byte>, script: seq<Io>, maxPayload: nat, skip: bool): seq<Message>
    decreases |b|
  {
    match Parse(b, maxPayload, skip)
    case None => []
    case Some((m, rest)) =>
      if !ServesMessage(script, |m.payload|) then []
      else [m] + Served(rest, AfterMessage(script, |m.payload|), maxPayload, skip)
  }

  /** The calls a list of messages takes all move data. */
  predicate ServesAll(script: seq<Io>, ms: seq<Message>)
    decreases |ms|
  {
    ms == [] || (ServesMessage(script, |ms[0].payload|) && ServesAll(AfterMessage(script, |ms[0].payload|), ms[1..]))
  }

  /** From the encoding of a list of messages exactly that list is received if and only if the receiver accepts
      each message and the calls they take all move data. */
  lemma {:induction false} ServedAllIff(ms: seq<Message>, script: seq<Io>, maxPayload: nat, skip: bool)
    ensures Served(EncodeAll(ms), script, maxPayload, skip) == ms <==>
            ServesAll(script, ms) && AllAcceptable(ms, maxPayload, skip)
    decreases |ms|
  {
    if ms != [] {
      var rest := ms[1..];
      ParseEncoded(ms[0], EncodeAll(rest), maxPayload, skip);
      assert ms == [ms[0]] + rest;
      assert AllAcceptable(ms, maxPayload, skip) <==>
        Acceptable(ms[0], maxPayload, skip) && AllAcceptable(rest, maxPayload, skip);
      if Acceptable(ms[0], maxPayload, skip) && ServesMessage(script, |ms[0].payload|) {
        ServedAllIff(rest, AfterMessage(script, |ms[0].payload|), maxPayload, skip);
        assert ([ms[0]] + Served(EncodeAll(rest), AfterMessage(script, |ms[0].payload|), maxPayload, skip))[1..]
          == Served(EncodeAll(rest), AfterMessage(script, |ms[0].payload|), maxPayload, skip);
      }
    }
  }

  /** Whatever the amounts, data in every call is enough. */
  lemma {:induction false} SteadyServesAll(script: seq<Io>, ms: seq<Message>)
    requires Steady(script, |EncodeAll(ms)|)
    ensures ServesAll(script, ms)
    decreases |ms|
  {
    if ms != [] {
      var n, more := |ms[0].payload|, |EncodeAll(ms[1..])|;
      SteadyServes(script, HEADER_SIZE, n + more);
      SteadyServes(After(script, HEADER_SIZE), n, more);
      SteadyServesAll(AfterMessage(script, n), ms[1..]);
    }
  }

  /** The receiving side of the reader thread: messages in order until one receive does not give 1. */
  method ReceiveLoop(fd: Source, maxPayload: nat, skip: bool, tls: bool) returns (ms: seq<Message>)
    requires maxPayload < 0x8000_0000
    modifies fd
    ensures ms == Served(old(fd.incoming), old(fd.script), maxPayload, skip)
    ensures EncodeAll(ms) <= old(fd.incoming)
  {
    ms := [];
    while true
      invariant old(fd.incoming) == EncodeAll(ms) + fd.incoming
      invariant Served(old(fd.incoming), old(fd.script), maxPayload, skip) ==
                ms + Served(fd.incoming, fd.script, maxPayload, skip)
      decreases |fd.incoming|
    {
      ghost var stream, script := fd.incoming, fd.script;
      var rc, m := RecvMsg(fd, maxPayload, skip, tls);
      if rc <= 0 {
        assert ms + [] == ms;
        return;
      }
      ReceivedOne(ms, stream, script, m, fd.incoming, maxPayload, skip);
      ms := ms + [m];
    }
  }

  lemma ReceivedOne(ms: seq<Message>, stream: seq<byte>, script: seq<Io>, m: Message, rest: seq<byte>, maxPayload: nat,
                    skip: bool)
    requires Parse(stream, maxPayload, skip) == Some((m, rest)) && ServesMessage(script, |m.payload|)
    ensures |rest| < |stream| && EncodeAll(ms) + stream == EncodeAll(ms + [m]) + rest
    ensures ms + Served(stream, script, maxPayload, skip) ==
            ms + [m] + Served(rest, AfterMessage(script, |m.payload|), maxPayload, skip)
  {
    StreamOne(ms, stream, m, rest, maxPayload, skip);
    Associative(ms, [m], Served(rest, AfterMessage(script, |m.payload|), maxPayload, skip));
  }

  lemma StreamOne(ms: seq<Message>, stream: seq<byte>, m: Message, rest: seq<byte>, maxPayload: nat, skip: bool)
    requires Parse(stream, maxPayload, skip) == Some((m, rest))
    ensures |rest| < |stream| && EncodeAll(ms) + stream == EncodeAll(ms + [m]) + rest
  {
    EncodeParsed(stream, maxPayload, skip);
    EncodeAllSnoc(ms, m);
    Associative(EncodeAll(ms), Encode(m), rest);
  }

  // End to end

  /** A message to send: everything but the checksum. */
  datatype Request = Request(command: u32, arg0: u32, arg1: u32, payload: Payload)

  function AnnounceAll(rs: seq<Request>, skip: bool): (ms: seq<Message>)
    ensures |ms| == |rs|
  {
    if rs == [] then []
    else
      var r := rs[|rs| - 1];
      AnnounceAll(rs[..|rs| - 1], skip) + [Announce(r.command, r.arg0, r.arg1, r.payload, skip)]
  }

  /** One send per request, until one fails. */
  method SendList(fd: Sink, rs: seq<Request>, skip: bool) returns (ok: bool)
    modifies fd
    ensures ok ==> fd.wire == old(fd.wire) + EncodeAll(AnnounceAll(rs, skip))
    ensures ChunksBeforeFail(old(fd.script)) >= |EncodeAll(AnnounceAll(rs, skip))| ==> ok
  {
    ghost var sent := 0;
    for i := 0 to |rs|
      invariant fd.wire == old(fd.wire) + EncodeAll(AnnounceAll(rs[..i], skip))
      invariant sent == |EncodeAll(AnnounceAll(rs[..i], skip))|
      invariant ChunksBeforeFail(fd.script) + sent >= ChunksBeforeFail(old(fd.script))
    {
      var r := rs[i];
      ghost var m := Announce(r.command, r.arg0, r.arg1, r.payload, skip);
      AnnounceNext(rs, i, skip);
      var rc, n := SendMsg(fd, r.command, r.arg0, r.arg1, Some(r.payload), |r.payload|, skip);
      if rc != 0 {
        return false;
      }
      Associative(old(fd.wire), EncodeAll(AnnounceAll(rs[..i], skip)), Encode(m));
      sent := sent + |Encode(m)|;
    }
    assert rs[..|rs|] == rs;
    return true;
  }

  lemma AnnounceNext(rs: seq<Request>, i: nat, skip: bool)
    requires i < |rs|
    ensures var m := Announce(rs[i].command, rs[i].arg0, rs[i].arg1, rs[i].payload, skip);
            var sofar := EncodeAll(AnnounceAll(rs[..i], skip));
            && EncodeAll(AnnounceAll(rs[..i + 1], skip)) == sofar + Encode(m)
            && |sofar| + |Encode(m)| <= |EncodeAll(AnnounceAll(rs, skip))|
  {
    assert rs[..i + 1][..i] == rs[..i];
    EncodeAllSnoc(AnnounceAll(rs[..i], skip), Announce(rs[i].command, rs[i].arg0, rs[i].arg1, rs[i].payload, skip));
    EncodeAllPrefix(rs, i + 1, skip);
  }

  lemma {:induction false} EncodeAllPrefix(rs: seq<Request>, i: nat, skip: bool)
    requires i <= |rs|
    ensures |EncodeAll(AnnounceAll(rs[..i], skip))| <= |EncodeAll(AnnounceAll(rs, skip))|
    decreases |rs|
  {
    if i < |rs| {
      var front, r := rs[..|rs| - 1], rs[|rs| - 1];
      EncodeAllPrefix(front, i, skip);
      assert front[..i] == rs[..i];
      EncodeAllSnoc(AnnounceAll(front, skip), Announce(r.command, r.arg0, r.arg1, r.payload, skip));
    } else {
      assert rs[..i] == rs;
    }
  }

  /** From one end to the other: for any schedule of sends that goes through and any schedule of receives, the list
      arrives if and only if the receiver accepts each message and the calls they take all move data. */
  method Transfer(rs: seq<Request>, sends: seq<Io>, sendSkip: bool, receives: seq<Io>, maxPayload: nat, recvSkip: bool,
                  tls: bool)
    returns (ok: bool, got: seq<Message>)
    requires maxPayload < 0x8000_0000
    ensures var ms := AnnounceAll(rs, sendSkip);
            && (ChunksBeforeFail(sends) >= |EncodeAll(ms)| ==> ok)
            && (ok ==> (got == ms <==> ServesAll(receives, ms) && AllAcceptable(ms, maxPayload, recvSkip)))
  {
    var sink := new Sink(sends);
    got := [];
    ok := SendList(sink, rs, sendSkip);
    if ok {
      assert [] + EncodeAll(AnnounceAll(rs, sendSkip)) == EncodeAll(AnnounceAll(rs, sendSkip));
      var source := new Source(sink.wire, receives);
      got := ReceiveLoop(source, maxPayload, recvSkip, tls);
      ServedAllIff(AnnounceAll(rs, sendSkip), receives, maxPayload, recvSkip);
    }
  }
}
