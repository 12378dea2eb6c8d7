/** The video packet stream (`device/video_socket.c`), its push-back of the session header (`device/server.c`) and
    the second parser of the same packets (`device/demuxer.c`). */
module VideoStream {
  import opened Bytes
  import opened Transport

  const HEADER_SIZE := 12
  const MAX_PACKET := 10 * 1024 * 1024
  const SESSION_BIT := 0x8000_0000
  const FLAG_SESSION := 0x8000_0000_0000_0000
  const FLAG_CONFIG := 0x4000_0000_0000_0000
  const FLAG_KEY_FRAME := 0x2000_0000_0000_0000

  /** What the device sends: a header-only session packet, or a media packet. The first word of a session packet
      has its top bit set; the first eight bytes of a media packet are flags and timestamp with bit 63 clear. */
  datatype Packet = Session(tag: u32, width: u32, height: u32) | Media(pts: u64, payload: seq<byte>)

  predicate Proper(p: Packet) {
    match p
    case Session(tag, _, _) => tag >= SESSION_BIT
    case Media(pts, payload) => pts < FLAG_SESSION && |payload| <= MAX_PACKET
  }

  /** The three words of the 12-byte header. */
  function Header(p: Packet): seq<u32>
    requires Proper(p)
  {
    match p
    case Session(tag, w, h) => [tag, w, h]
    case Media(pts, payload) => [pts / U32_BASE, pts % U32_BASE, |payload|]
  }

  function Encode(p: Packet): seq<byte>
    requires Proper(p)
  {
    BeWords(Header(p)) + PayloadOf(p)
  }

  function EncodeAll(ps: seq<Packet>): seq<byte>
    requires forall i :: 0 <= i < |ps| ==> Proper(ps[i])
  {
    if ps == [] then [] else Encode(ps[0]) + EncodeAll(ps[1..])
  }

  function PayloadOf(p: Packet): seq<byte> {
    if p.Media? then p.payload else []
  }

  // The two parsers, on a stream of bytes

  /** Bytes 0 to 7 of a header. */
  function Raw(h: seq<u32>): u64
    requires |h| == 3
  {
    h[0] as int * U32_BASE + h[1]
  }

  /** The packet a header opens, and what follows it. */
  function Opened(h: seq<u32>, body: seq<byte>): Option<(Packet, seq<byte>)>
    requires |h| == 3
  {
    if h[0] >= SESSION_BIT then Some((Session(h[0], h[1], h[2]), body))
    else if h[2] > MAX_PACKET || |body| < h[2] then None
    else Some((Media(Raw(h), body[..h[2]]), body[h[2]..]))
  }

  function HeaderOf(b: seq<byte>): (h: seq<u32>)
    requires |b| >= HEADER_SIZE
    ensures |h| == 3
  {
    ReadBeWords(b[..HEADER_SIZE])
  }

  /** The parser of `video_socket_read_packet`. */
  function Parse(b: seq<byte>): Option<(Packet, seq<byte>)> {
    if |b| < HEADER_SIZE then None else Opened(HeaderOf(b), b[HEADER_SIZE..])
  }

  function ParseAll(b: seq<byte>): Option<seq<Packet>>
    decreases |b|
  {
    if b == [] then Some([])
    else match Parse(b)
      case None => None
      case Some((p, rest)) =>
        match ParseAll(rest)
        case None => None
        case Some(ps) => Some([p] + ps)
  }

  /** `sc_packet_t`. */
  datatype DemuxedPacket = Demuxed(data: seq<byte>, pts: u64, isConfig: bool, isKeyFrame: bool)

  /** How many payload bytes the demuxer expects after a header. */
  function DemuxSize(h: seq<u32>): nat
    requires |h| == 3
  {
    if Raw(h) / FLAG_CONFIG % 2 == 1 then h[2] % 0x8000_0000 else h[2]
  }

  function DemuxFields(h: seq<u32>, data: seq<byte>): DemuxedPacket
    requires |h| == 3
  {
    Demuxed(data, Raw(h) % FLAG_KEY_FRAME, Raw(h) / FLAG_CONFIG % 2 == 1, Raw(h) / FLAG_KEY_FRAME % 2 == 1)
  }

  /** A size of 2^31 or more makes `recv` fail. */
  function DemuxOpened(h: seq<u32>, body: seq<byte>): Option<(DemuxedPacket, seq<byte>)>
    requires |h| == 3
  {
    var size := DemuxSize(h);
    if size >= 0x8000_0000 || |body| < size then None else Some((DemuxFields(h, body[..size]), body[size..]))
  }

  /** The parser of `demuxer_recv_packet`. */
  function DemuxParse(b: seq<byte>): Option<(DemuxedPacket, seq<byte>)> {
    if |b| < HEADER_SIZE then None else DemuxOpened(HeaderOf(b), b[HEADER_SIZE..])
  }

  // Round trips

  /** The first byte of a header carries the session bit of its first word. */
  lemma TopBit(b: seq<byte>)
    requires |b| >= 4
    ensures b[0] >= 0x80 <==> ReadBe32(b) >= SESSION_BIT
  {
    var d3: int, d2: int, d1: int, d0: int := b[0], b[1], b[2], b[3];
    assert ReadBe32(b) == d3 * 0x100_0000 + d2 * 0x1_0000 + d1 * 0x100 + d0;
  }

  lemma HeaderWords(b: seq<byte>)
    requires |b| == HEADER_SIZE
    ensures ReadBeWords(b) == [ReadBe32(b), ReadBe32(b[4..]), ReadBe32(b[8..])]
  {
    WordsFrom(b[8..]);
    WordsFrom(b[4..]);
    assert b[4..][4..] == b[8..];
  }

  lemma WordsFrom(b: seq<byte>)
    requires 0 < |b| && |b| % 4 == 0
    ensures ReadBeWords(b) == [ReadBe32(b)] + ReadBeWords(b[4..])
    ensures |b| == 4 ==> ReadBeWords(b) == [ReadBe32(b)]
  {
    assert |b| == 4 ==> b[4..] == [];
  }

  lemma EncodedParts(p: Packet, rest: seq<byte>)
    requires Proper(p)
    ensures var b := Encode(p) + rest;
            |b| >= HEADER_SIZE && HeaderOf(b) == Header(p) && b[HEADER_SIZE..] == PayloadOf(p) + rest
  {
    var b := Encode(p) + rest;
    BeWordsRoundTrip(Header(p));
    assert b[..HEADER_SIZE] == BeWords(Header(p)) && b[HEADER_SIZE..] == PayloadOf(p) + rest;
  }

  /** Any proper packet, followed by anything, parses back to itself. */
  lemma ParseEncoded(p: Packet, rest: seq<byte>)
    requires Proper(p)
    ensures Parse(Encode(p) + rest) == Some((p, rest))
  {
    EncodedParts(p, rest);
    OpenedHeader(p, rest);
  }

  lemma OpenedHeader(p: Packet, rest: seq<byte>)
    requires Proper(p)
    ensures Opened(Header(p), PayloadOf(p) + rest) == Some((p, rest))
  {
    assert (PayloadOf(p) + rest)[..|PayloadOf(p)|] == PayloadOf(p) && (PayloadOf(p) + rest)[|PayloadOf(p)|..] == rest;
  }

  /** Any concatenation of proper packets parses back to that list. */
  lemma {:induction false} ParseAllEncoded(ps: seq<Packet>)
    requires forall i :: 0 <= i < |ps| ==> Proper(ps[i])
    ensures ParseAll(EncodeAll(ps)) == Some(ps)
  {
    if ps != [] {
      ParseAllEncoded(ps[1..]);
      ParseAllCons(ps[0], EncodeAll(ps[1..]), ps[1..]);
      assert ps == [ps[0]] + ps[1..];
    }
  }

  lemma ParseAllCons(p: Packet, rest: seq<byte>, ps: seq<Packet>)
    requires Proper(p) && ParseAll(rest) == Some(ps)
    ensures ParseAll(Encode(p) + rest) == Some([p] + ps)
  {
    ParseEncoded(p, rest);
    ParseAllStep(Encode(p) + rest, p, rest);
  }

  lemma ParseAllStep(b: seq<byte>, p: Packet, rest: seq<byte>)
    requires Parse(b) == Some((p, rest))
    ensures b != [] && |rest| < |b|
    ensures var tail := ParseAll(rest); ParseAll(b) == if tail.Some? then Some([p] + tail.value) else None
  {
  }

  /** On every packet the video socket accepts, the demuxer takes the same payload and leaves the same rest exactly
      for media packets and for session packets whose height field it reads as size 0. */
  lemma DemuxerAgreesIff(b: seq<byte>)
    requires Parse(b).Some?
    ensures var (p, rest) := Parse(b).value;
            (DemuxParse(b).Some? && DemuxParse(b).value.0.data == PayloadOf(p) && DemuxParse(b).value.1 == rest)
            <==> p.Media? || DemuxSize(HeaderOf(b)) == 0
  {
    DemuxerOpensAlikeIff(HeaderOf(b), b[HEADER_SIZE..]);
  }

  lemma DemuxerOpensAlikeIff(h: seq<u32>, body: seq<byte>)
    requires |h| == 3 && Opened(h, body).Some?
    ensures var (p, rest) := Opened(h, body).value;
            var d := DemuxOpened(h, body);
            (d.Some? && d.value.0.data == PayloadOf(p) && d.value.1 == rest) <==> p.Media? || DemuxSize(h) == 0
  {
    var size := DemuxSize(h);
    if size <= |body| {
      assert |body[size..]| == |body| - size;
    }
    assert body[0..] == body && body[..0] == [];
  }

  // The bytes of a packet

  /** What the parser of the video socket does with every stream, byte by byte: the top bit of the first byte makes a
      session packet, any other header announces up to 10 MiB of payload. */
  lemma ParseBytes(b: seq<byte>)
    ensures Parse(b).Some? <==>
            |b| >= 12 && (b[0] >= 0x80 || (ReadBe32(b[8..]) <= 10_485_760 && |b| >= 12 + ReadBe32(b[8..])))
    ensures Parse(b).Some? && b[0] >= 0x80 ==>
              Parse(b).value == (Session(ReadBe32(b), ReadBe32(b[4..]), ReadBe32(b[8..])), b[12..])
    ensures Parse(b).Some? && b[0] < 0x80 ==>
              var n := ReadBe32(b[8..]);
              Parse(b).value ==
              (Media(ReadBe32(b) as int * 0x1_0000_0000 + ReadBe32(b[4..]), b[12..12 + n]), b[12 + n..])
  {
    if |b| >= 12 {
      var body := b[12..];
      TopBit(b);
      HeaderBytes(b);
      var n := ReadBe32(b[8..]);
      if n <= |body| {
        assert body[..n] == b[12..12 + n] && body[n..] == b[12 + n..];
      }
    }
  }

  lemma SameWord(h: seq<byte>, b: seq<byte>, at: nat)
    requires at + 4 <= |h| <= |b| && h == b[..|h|]
    ensures ReadBe32(h[at..]) == ReadBe32(b[at..])
  {
    assert forall i :: 0 <= i < 4 ==> h[at..][i] == b[at..][i];
  }

  /** What the demuxer does with every media packet of at most 10 MiB, byte by byte: bits 6 and 5 of the first byte are
      the flags, and the timestamp is what is below them. */
  lemma DemuxBytes(b: seq<byte>, n: nat)
    requires |b| >= 12 + n && b[0] < 0x80 && n == ReadBe32(b[8..]) <= 10_485_760
    ensures DemuxParse(b).Some?
    ensures var (d, rest) := DemuxParse(b).value;
            && d.data == b[12..12 + n] && rest == b[12 + n..]
            && (d.isConfig <==> b[0] as int / 64 % 2 == 1) && (d.isKeyFrame <==> b[0] as int / 32 % 2 == 1)
            && d.pts == b[0] as int % 32 * 0x100_0000_0000_0000 + Below(b)
  {
    var body := b[12..];
    HeaderBytes(b);
    FirstByte(b[0], Below(b));
    assert body[..n] == b[12..12 + n] && body[n..] == b[12 + n..];
  }

  lemma HeaderBytes(b: seq<byte>)
    requires |b| >= 12
    ensures HeaderOf(b) == [ReadBe32(b), ReadBe32(b[4..]), ReadBe32(b[8..])]
    ensures Raw(HeaderOf(b)) == b[0] as int * 0x100_0000_0000_0000 + Below(b)
  {
    var h := b[..12];
    HeaderWords(h);
    SameWord(h, b, 0);
    SameWord(h, b, 4);
    SameWord(h, b, 8);
    assert h[0..] == h && b[0..] == b;
  }

  /** Bytes 1 to 7, the first counting most. */
  function Below(b: seq<byte>): (r: nat)
    requires |b| >= 8
    ensures r < 0x100_0000_0000_0000
  {
    var b1: int, b2: int, b3: int := b[1], b[2], b[3];
    (b1 * 0x1_0000 + b2 * 0x100 + b3) * U32_BASE + ReadBe32(b[4..])
  }

  lemma FirstByte(top: byte, low: nat)
    requires top < 0x80 && low < 0x100_0000_0000_0000
    ensures var raw: int := top as int * 0x100_0000_0000_0000 + low;
            && (raw / FLAG_CONFIG % 2 == 1 <==> top as int / 64 % 2 == 1)
            && (raw / FLAG_KEY_FRAME % 2 == 1 <==> top as int / 32 % 2 == 1)
            && raw % FLAG_KEY_FRAME == top as int % 32 * 0x100_0000_0000_0000 + low
  {
    var raw: int := top as int * 0x100_0000_0000_0000 + low;
    var config, key, rest := top as int / 64, top as int / 32 % 2, top as int % 32;
    assert raw == config * FLAG_CONFIG + key * FLAG_KEY_FRAME + (rest * 0x100_0000_0000_0000 + low);
  }

  function Flagged(config: bool, key: bool, pts: u64): u64
    requires pts < FLAG_KEY_FRAME
  {
    pts as int + (if config then FLAG_CONFIG else 0) + if key then FLAG_KEY_FRAME else 0
  }

  lemma FlagsApart(config: bool, key: bool, pts: u64)
    requires pts < FLAG_KEY_FRAME
    ensures var raw := Flagged(config, key, pts);
            raw < FLAG_SESSION && raw % FLAG_KEY_FRAME == pts
            && (raw / FLAG_CONFIG % 2 == 1 <==> config) && (raw / FLAG_KEY_FRAME % 2 == 1 <==> key)
  {
  }

  /** For a media packet the demuxer recovers the payload, the flags and the 61-bit timestamp. */
  lemma DemuxerFields(config: bool, key: bool, pts: u64, payload: seq<byte>, rest: seq<byte>)
    requires pts < FLAG_KEY_FRAME && |payload| <= MAX_PACKET
    ensures Flagged(config, key, pts) < FLAG_SESSION
    ensures DemuxParse(Encode(Media(Flagged(config, key, pts), payload)) + rest) ==
            Some((Demuxed(payload, pts, config, key), rest))
  {
    FlagsApart(config, key, pts);
    DemuxMedia(Flagged(config, key, pts), payload, rest);
  }

  lemma DemuxMedia(raw: u64, payload: seq<byte>, rest: seq<byte>)
    requires raw < FLAG_SESSION && |payload| <= MAX_PACKET
    ensures DemuxParse(Encode(Media(raw, payload)) + rest) ==
            Some((Demuxed(payload, raw % FLAG_KEY_FRAME, raw / FLAG_CONFIG % 2 == 1, raw / FLAG_KEY_FRAME % 2 == 1),
              rest))
  {
    var p := Media(raw, payload);
    EncodedParts(p, rest);
    assert Raw(Header(p)) == raw && DemuxSize(Header(p)) == |payload|;
    assert (payload + rest)[..|payload|] == payload && (payload + rest)[|payload|..] == rest;
  }

  // The socket object

  class VideoSocket {
    const fd: Source
    var pending: seq<byte>
    var width: u32
    var height: u32

    /** What is still to be read, wherever it is. */
    ghost function Stream(): seq<byte>
      reads this, fd
    {
      pending + fd.incoming
    }

    constructor (fd: Source)
      ensures this.fd == fd && pending == [] && width == height == 0
    {
      this.fd := fd;
      pending, width, height := [], 0, 0;
    }

    /** `recv_all_pending`: the pending bytes first, then the socket. */
    method RecvAllPending(len: nat) returns (data: seq<byte>)
      modifies this`pending, fd
      ensures old(Stream()) == data + Stream() && |data| <= len
      ensures |old(Stream())| >= len && ChunksBeforeFail(old(fd.script)) >= len ==> |data| == len
      ensures |data| == len ==> ChunksBeforeFail(fd.script) + len >= ChunksBeforeFail(old(fd.script))
    {
      var take := Min(|pending|, len);
      data := pending[..take];
      pending := pending[take..];
      ghost var kept := pending;
      var more := fd.RecvAll(len - take);
      data := data + more;
      assert take < len ==> kept == [];
    }

    /** Reading the session header at start-up: a session header is consumed, anything else is pushed back. */
    method ReadSessionHeader() returns (ok: bool)
      requires pending == []
      modifies this`pending, fd
      ensures ok ==> |old(Stream())| >= HEADER_SIZE
                     && Stream() == if old(Stream())[0] >= 0x80 then old(Stream())[HEADER_SIZE..] else old(Stream())
      ensures |old(Stream())| >= HEADER_SIZE && ChunksBeforeFail(old(fd.script)) >= HEADER_SIZE ==> ok
      ensures ok ==> ChunksBeforeFail(fd.script) + HEADER_SIZE >= ChunksBeforeFail(old(fd.script))
    {
      var h := fd.RecvAll(HEADER_SIZE);
      if |h| < HEADER_SIZE {
        return false;
      }
      if h[0] < 0x80 {
        pending := h;
      }
      return true;
    }

    /** `video_socket_read_packet`. A packet without payload gives no data. */
    method ReadPacket() returns (ok: bool, data: seq<byte>)
      modifies this, fd
      ensures |Stream()| <= |old(Stream())|
      ensures ok ==> Parse(old(Stream())).Some?
      ensures ok ==> var (p, rest) := Parse(old(Stream())).value;
                     && Stream() == rest && data == PayloadOf(p)
                     && (if p.Session? && p.width > 0 && p.height > 0 then width == p.width && height == p.height
                         else width == old(width) && height == old(height))
      ensures Parse(old(Stream())).Some? && ChunksBeforeFail(old(fd.script)) >= |old(Stream())| ==>
                ok && ChunksBeforeFail(fd.script) >= |Stream()|
    {
      ghost var stream := Stream();
      data := [];
      var h := RecvAllPending(HEADER_SIZE);
      if |h| < HEADER_SIZE {
        return false, [];
      }
      assert stream[..HEADER_SIZE] == h && stream[HEADER_SIZE..] == Stream();
      HeaderWords(h);
      TopBit(h);
      if h[0] >= 0x80 {
        var w, hh := ReadBe32(h[4..]), ReadBe32(h[8..]);
        if w > 0 && hh > 0 {
          width, height := w, hh;
        }
        return true, [];
      }
      var size := ReadBe32(h[8..]);
      if size == 0 {
        return true, [];
      }
      if size > MAX_PACKET {
        return false, [];
      }
      ghost var body := Stream();
      data := RecvAllPending(size);
      if |data| < size {
        return false, [];
      }
      assert body[..size] == data && body[size..] == Stream();
      return true, data;
    }
  }

  function PayloadsOf(ps: seq<Packet>): seq<seq<byte>> {
    if ps == [] then [] else [PayloadOf(ps[0])] + PayloadsOf(ps[1..])
  }

  /** Reading packets until a read fails: whatever the split between pending and socket and whatever the pieces,
      a stream of packets gives the payload of each, in order, and is used up. */
  method ReadAll(sock: VideoSocket, ghost ps: seq<Packet>) returns (payloads: seq<seq<byte>>)
    requires ParseAll(sock.Stream()) == Some(ps) && ChunksBeforeFail(sock.fd.script) >= |sock.Stream()|
    modifies sock, sock.fd
    ensures payloads == PayloadsOf(ps) && sock.Stream() == []
  {
    payloads := [];
    ghost var left := ps;
    while true
      invariant ParseAll(sock.Stream()) == Some(left) && ChunksBeforeFail(sock.fd.script) >= |sock.Stream()|
      invariant PayloadsOf(ps) == payloads + PayloadsOf(left)
      decreases |sock.Stream()|
    {
      ParsedFirst(sock.Stream(), left);
      var ok, data := sock.ReadPacket();
      if !ok {
        return;
      }
      Associative(payloads, [data], PayloadsOf(left[1..]));
      payloads, left := payloads + [data], left[1..];
    }
  }

  lemma ParsedFirst(b: seq<byte>, ps: seq<Packet>)
    requires ParseAll(b) == Some(ps)
    ensures if ps == [] then b == [] && Parse(b).None?
            else Parse(b).Some? && Parse(b).value.0 == ps[0] && ParseAll(Parse(b).value.1) == Some(ps[1..])
                 && |Parse(b).value.1| < |b|
  {
    if b != [] {
      var (p, rest) := Parse(b).value;
      assert ([p] + ParseAll(rest).value)[1..] == ParseAll(rest).value;
    }
  }

  /** `demuxer_recv_packet` */
  method RecvDemuxed(fd: Source) returns (ok: bool, p: DemuxedPacket)
    modifies fd
    ensures ok ==> DemuxParse(old(fd.incoming)) == Some((p, fd.incoming))
    ensures DemuxParse(old(fd.incoming)).Some? && ChunksBeforeFail(old(fd.script)) >= |old(fd.incoming)| ==>
              ok && ChunksBeforeFail(fd.script) >= |fd.incoming|
  {
    ghost var stream := fd.incoming;
    p := Demuxed([], 0, false, false);
    var h := fd.RecvAll(HEADER_SIZE);
    if |h| < HEADER_SIZE {
      return false, p;
    }
    assert stream[..HEADER_SIZE] == h && stream[HEADER_SIZE..] == fd.incoming;
    var words := ReadBeWords(h);
    var size := DemuxSize(words);
    if size >= 0x8000_0000 {
      return false, p;  // recv fails when asked for a negative amount
    }
    ghost var body := fd.incoming;
    var data := fd.RecvAll(size);
    if |data| < size {
      return false, p;
    }
    assert body[..size] == data && body[size..] == fd.incoming;
    return true, DemuxFields(words, data);
  }
}
