/** Machine bytes and words, and the little- and big-endian readers and writers of `binary.h`. */
module Bytes {

  datatype Option<+T> = None | Some(value: T)

  const BYTE_BASE := 0x100
  const U32_BASE := 0x1_0000_0000
  const U64_BASE := 0x1_0000_0000_0000_0000

  type byte = x: int | 0 <= x < BYTE_BASE
  type u32 = x: int | 0 <= x < U32_BASE
  type u64 = x: int | 0 <= x < U64_BASE

  function Min(a: int, b: int): int {
    if a < b then a else b
  }

  lemma Associative<T>(a: seq<T>, b: seq<T>, c: seq<T>)
    ensures a + (b + c) == a + b + c
  {
  }

  /** The four bytes `write32le` stores. */
  function Le32(v: u32): seq<byte> {
    [v % 0x100, v / 0x100 % 0x100, v / 0x1_0000 % 0x100, v / 0x100_0000]
  }

  function ReadLe32(b: seq<byte>): u32
    requires |b| >= 4
  {
    var d0: int, d1: int, d2: int, d3: int := b[0], b[1], b[2], b[3];
    d0 + d1 * 0x100 + d2 * 0x1_0000 + d3 * 0x100_0000
  }

  /** The four bytes `write32be` stores. */
  function Be32(v: u32): seq<byte> {
    [v / 0x100_0000, v / 0x1_0000 % 0x100, v / 0x100 % 0x100, v % 0x100]
  }

  function ReadBe32(b: seq<byte>): u32
    requires |b| >= 4
  {
    var d3: int, d2: int, d1: int, d0: int := b[0], b[1], b[2], b[3];
    d3 * 0x100_0000 + d2 * 0x1_0000 + d1 * 0x100 + d0
  }

  /** A row of big-endian words; `write64be` stores two, the high one first. */
  function BeWords(ws: seq<u32>): (b: seq<byte>)
    ensures |b| == 4 * |ws|
  {
    if ws == [] then [] else Be32(ws[0]) + BeWords(ws[1..])
  }

  function ReadBeWords(b: seq<byte>): (ws: seq<u32>)
    requires |b| % 4 == 0
    ensures |b| == 4 * |ws|
  {
    if b == [] then [] else [ReadBe32(b)] + ReadBeWords(b[4..])
  }

  /** Writing then reading a little-endian word, and reading then writing four bytes, both give back the input. */
  lemma Le32RoundTrip(v: u32, b: seq<byte>)
    requires |b| >= 4
    ensures ReadLe32(Le32(v)) == v
    ensures Le32(ReadLe32(b)) == b[..4]
  {
    DigitsOf(b[0], b[1], b[2], b[3]);
    DigitsBack(v);
  }

  lemma Be32RoundTrip(v: u32, b: seq<byte>)
    requires |b| >= 4
    ensures ReadBe32(Be32(v)) == v
    ensures Be32(ReadBe32(b)) == b[..4]
  {
    DigitsOf(b[3], b[2], b[1], b[0]);
    DigitsBack(v);
  }

  lemma {:induction false} BeWordsRoundTrip(ws: seq<u32>)
    ensures ReadBeWords(BeWords(ws)) == ws
  {
    if ws != [] {
      var b := BeWords(ws);
      Be32RoundTrip(ws[0], b);
      assert b[..4] == Be32(ws[0]) && b[4..] == BeWords(ws[1..]);
      BeWordsRoundTrip(ws[1..]);
    }
  }

  /** What a word is: the first byte counts least in a little-endian one and most in a big-endian one. */
  lemma ByteOrder(b: seq<byte>)
    requires |b| >= 4
    ensures var b0: int, b1: int, b2: int, b3: int := b[0], b[1], b[2], b[3];
            && ReadLe32(b) == b0 + 256 * (b1 + 256 * (b2 + 256 * b3))
            && ReadBe32(b) == b3 + 256 * (b2 + 256 * (b1 + 256 * b0))
  {
  }

  /** A row of words is in order, the most significant byte of each first. */
  lemma WordOrder()
    ensures BeWords([0x0102_0304, 0x0506_0708]) == [1, 2, 3, 4, 5, 6, 7, 8]
    ensures ReadBeWords([1, 2, 3, 4, 5, 6, 7, 8]) == [0x0102_0304, 0x0506_0708]
  {
    var ws := [0x0102_0304, 0x0506_0708];
    assert BeWords(ws[1..]) == Be32(0x0506_0708) + BeWords([]);
    assert BeWords(ws) == Be32(0x0102_0304) + BeWords(ws[1..]);
    BeWordsRoundTrip(ws);
  }

  /** The bytes of a text. */
  function Ascii(s: string): (b: seq<byte>)
    requires forall i :: 0 <= i < |s| ==> s[i] < 128 as char
    ensures |b| == |s| && forall i :: 0 <= i < |s| ==> b[i] == s[i] as int
  {
    if s == [] then [] else [s[0] as int] + Ascii(s[1..])
  }

  lemma AsciiFour(s: string)
    requires |s| == 4 && forall i :: 0 <= i < |s| ==> s[i] < 128 as char
    ensures Ascii(s) == [s[0] as int, s[1] as int, s[2] as int, s[3] as int]
  {
  }

  /** The base-256 digits of a word built from four bytes. */
  lemma DigitsOf(d0: byte, d1: byte, d2: byte, d3: byte)
    ensures var v := d0 + d1 * 0x100 + d2 * 0x1_0000 + d3 * 0x100_0000;
            v % 0x100 == d0 && v / 0x100 % 0x100 == d1 && v / 0x1_0000 % 0x100 == d2 && v / 0x100_0000 == d3
  {
    var v := d0 + d1 * 0x100 + d2 * 0x1_0000 + d3 * 0x100_0000;
    assert v / 0x100 == d1 + d2 * 0x100 + d3 * 0x1_0000;
    assert v / 0x1_0000 == d2 + d3 * 0x100;
  }

  /** A word is the sum of its base-256 digits. */
  lemma DigitsBack(v: u32)
    ensures v == v % 0x100 + v / 0x100 % 0x100 * 0x100 + v / 0x1_0000 % 0x100 * 0x1_0000 + v / 0x100_0000 * 0x100_0000
  {
    assert v / 0x1_0000 == v / 0x100 / 0x100;
    assert v / 0x100_0000 == v / 0x1_0000 / 0x100;
  }

  /** `memcpy` into an array. */
  method CopyInto(dst: array<byte>, at: nat, src: seq<byte>)
    requires at + |src| <= dst.Length
    modifies dst
    ensures dst[..] == old(dst[..at]) + src + old(dst[at + |src|..])
  {
    for i := 0 to |src|
      invariant dst[..] == old(dst[..at]) + src[..i] + old(dst[at + i..])
    {
      dst[at + i] := src[i];
    }
  }

  /** `write32le` into a buffer at an offset. */
  method Write32le(buf: array<byte>, at: nat, v: u32)
    requires at + 4 <= buf.Length
    modifies buf
    ensures buf[at..at + 4] == Le32(v)
    ensures buf[..at] == old(buf[..at]) && buf[at + 4..] == old(buf[at + 4..])
  {
    buf[at] := v % 0x100;
    buf[at + 1] := v / 0x100 % 0x100;
    buf[at + 2] := v / 0x1_0000 % 0x100;
    buf[at + 3] := v / 0x100_0000;
  }
}
