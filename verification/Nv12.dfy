/** From a planar YUV 4:2:0 frame to an NV12 buffer (`decode/video_decoder.c`) to a texture with padded rows
    (`render/video_renderer.c`). */
module Nv12 {
  import opened Bytes

  /** `n * k`, as the sum the row loops build up. */
  function Times(n: nat, k: nat): nat {
    if n == 0 then 0 else Times(n - 1, k) + k
  }

  lemma {:induction false} TimesIsProduct(n: nat, k: nat)
    ensures Times(n, k) == n * k
  {
    if n > 0 {
      TimesIsProduct(n - 1, k);
      assert n * k == (n - 1) * k + k;
    }
  }

  lemma {:induction false} TimesMonotone(a: nat, b: nat, k: nat)
    requires a <= b
    ensures Times(a, k) <= Times(b, k)
    decreases b
  {
    if a < b {
      TimesMonotone(a, b - 1, k);
    }
  }

  lemma {:induction false} TimesSum(a: nat, b: nat, k: nat)
    ensures Times(a + b, k) == Times(a, k) + Times(b, k)
    decreases b
  {
    if b > 0 {
      TimesSum(a, b - 1, k);
    }
  }

  // Planes

  /** A plane has `rows` rows of `width` samples, a stride apart; the last row may end with its last sample. */
  predicate HasRows(plane: seq<byte>, stride: nat, width: nat, rows: nat) {
    width <= stride && (rows > 0 ==> Times(rows - 1, stride) + width <= |plane|)
  }

  lemma RowFits(plane: seq<byte>, stride: nat, width: nat, rows: nat, r: nat)
    requires HasRows(plane, stride, width, rows) && r < rows
    ensures Times(r, stride) + width <= |plane|
  {
    TimesMonotone(r, rows - 1, stride);
  }

  function Row(plane: seq<byte>, stride: nat, width: nat, rows: nat, r: nat): (s: seq<byte>)
    requires HasRows(plane, stride, width, rows) && r < rows
    ensures |s| == width
  {
    RowFits(plane, stride, width, rows, r);
    plane[Times(r, stride)..Times(r, stride) + width]
  }

  /** A decoded frame: three planes. Both chroma planes use one stride and cover an odd last row or column too. */
  datatype Frame = Frame(w: nat, h: nat, y: seq<byte>, yStride: nat, u: seq<byte>, v: seq<byte>, uvStride: nat) {
    function ChromaW(): nat { (w + 1) / 2 }
    function ChromaH(): nat { (h + 1) / 2 }

    predicate Fits() {
      && HasRows(y, yStride, w, h)
      && HasRows(u, uvStride, ChromaW(), ChromaH())
      && HasRows(v, uvStride, ChromaW(), ChromaH())
    }

    function YRow(r: nat): (s: seq<byte>)
      requires Fits() && r < h
      ensures |s| == w
    {
      Row(y, yStride, w, h, r)
    }

    function URow(r: nat): (s: seq<byte>)
      requires Fits() && r < ChromaH()
      ensures |s| == ChromaW()
    {
      Row(u, uvStride, ChromaW(), ChromaH(), r)
    }

    function VRow(r: nat): (s: seq<byte>)
      requires Fits() && r < ChromaH()
      ensures |s| == ChromaW()
    {
      Row(v, uvStride, ChromaW(), ChromaH(), r)
    }
  }

  // The buffer

  /** Rows laid end to end. */
  function Stack(rows: seq<seq<byte>>): seq<byte> {
    if rows == [] then [] else Stack(rows[..|rows| - 1]) + rows[|rows| - 1]
  }

  predicate AllWide(rows: seq<seq<byte>>, width: nat) {
    forall r :: 0 <= r < |rows| ==> |rows[r]| == width
  }

  lemma {:induction false} StackLength(rows: seq<seq<byte>>, width: nat)
    requires AllWide(rows, width)
    ensures |Stack(rows)| == Times(|rows|, width)
  {
    if rows != [] {
      StackLength(rows[..|rows| - 1], width);
    }
  }

  /** A row of a stack is where the row length says. */
  lemma {:induction false} StackRow(rows: seq<seq<byte>>, width: nat, r: nat)
    requires AllWide(rows, width) && r < |rows|
    ensures Times(r, width) + width <= |Stack(rows)|
    ensures Stack(rows)[Times(r, width)..Times(r, width) + width] == rows[r]
  {
    var front := rows[..|rows| - 1];
    StackLength(front, width);
    if r < |rows| - 1 {
      StackRow(front, width, r);
    }
  }

  /** `n` samples of each chroma row, interleaved. */
  function Interleave(u: seq<byte>, v: seq<byte>, n: nat): (s: seq<byte>)
    requires n <= |u| && n <= |v|
    ensures |s| == 2 * n
  {
    if n == 0 then [] else Interleave(u, v, n - 1) + [u[n - 1], v[n - 1]]
  }

  /** A chroma row of the buffer. The last byte of a row of odd width is never written: `junk`. */
  function UvRow(f: Frame, r: nat, junk: byte): (s: seq<byte>)
    requires f.Fits() && r < f.h / 2
    ensures |s| == f.w
  {
    Interleave(f.URow(r), f.VRow(r), f.w / 2) + if f.w % 2 == 1 then [junk] else []
  }

  function YRows(f: Frame, n: nat): (rows: seq<seq<byte>>)
    requires f.Fits() && n <= f.h
    ensures |rows| == n && AllWide(rows, f.w)
  {
    if n == 0 then [] else YRows(f, n - 1) + [f.YRow(n - 1)]
  }

  function UvRows(f: Frame, junk: seq<byte>): (rows: seq<seq<byte>>)
    requires f.Fits() && |junk| <= f.h / 2
    ensures |rows| == |junk| && AllWide(rows, f.w)
  {
    if junk == [] then [] else UvRows(f, junk[..|junk| - 1]) + [UvRow(f, |junk| - 1, junk[|junk| - 1])]
  }

  /** All rows of the NV12 buffer, luma then chroma. */
  function BufferRows(f: Frame, junk: seq<byte>): (rows: seq<seq<byte>>)
    requires f.Fits() && |junk| == f.h / 2
    ensures |rows| == f.h + f.h / 2 && AllWide(rows, f.w)
  {
    YRows(f, f.h) + UvRows(f, junk)
  }

  // The order of the writes

  /** The offsets `from`, `from + 1`, and so on. */
  function Offsets(from: nat, n: nat): (s: seq<nat>)
    ensures |s| == n && forall i :: 0 <= i < n ==> s[i] == from + i
  {
    seq(n, i => from + i)
  }

  /** The writes of `rows` chroma rows: all of a row but the last byte of an odd width. */
  function UvOffsets(base: nat, w: nat, rows: nat): seq<nat> {
    if rows == 0 then [] else UvOffsets(base, w, rows - 1) + Offsets(base + Times(rows - 1, w), 2 * (w / 2))
  }

  function LastOf(base: nat, w: nat, r: nat): int {
    base + Times(r, w) + w - 1
  }

  /** The last byte of one of `rows` rows of odd width. */
  ghost predicate IsLast(base: nat, w: nat, rows: nat, i: nat) {
    w % 2 == 1 && exists r: nat :: r < rows && i == LastOf(base, w, r)
  }

  /** The last byte of an odd chroma row. */
  ghost predicate IsPad(w: nat, h: nat, i: nat) {
    IsLast(Times(h, w), w, h / 2, i)
  }

  ghost predicate Increasing(s: seq<nat>) {
    forall i, j :: 0 <= i < j < |s| ==> s[i] < s[j]
  }

  lemma IncreasingSum(a: seq<nat>, b: seq<nat>, bound: nat)
    requires Increasing(a) && Increasing(b)
    requires (forall i :: 0 <= i < |a| ==> a[i] < bound) && (forall i :: 0 <= i < |b| ==> b[i] >= bound)
    ensures Increasing(a + b)
  {
    forall i, j | 0 <= i < j < |a + b|
      ensures (a + b)[i] < (a + b)[j]
    {
    }
  }

  lemma {:induction false} UvOffsetsOnce(base: nat, w: nat, rows: nat)
    ensures var s := UvOffsets(base, w, rows);
            Increasing(s) && forall i :: 0 <= i < |s| ==> base <= s[i] < base + Times(rows, w)
  {
    if rows > 0 {
      var at := base + Times(rows - 1, w);
      UvOffsetsOnce(base, w, rows - 1);
      IncreasingSum(UvOffsets(base, w, rows - 1), Offsets(at, 2 * (w / 2)), at);
    }
  }

  /** Within the chroma rows exactly the padding is not written. */
  lemma {:induction false} UvOffsetsCover(base: nat, w: nat, rows: nat, i: nat)
    requires base <= i < base + Times(rows, w)
    ensures i in UvOffsets(base, w, rows) <==> !IsLast(base, w, rows, i)
  {
    var at := base + Times(rows - 1, w);
    var before, last := UvOffsets(base, w, rows - 1), Offsets(at, 2 * (w / 2));
    UvOffsetsOnce(base, w, rows - 1);
    LastOfWhichRow(base, w, rows, i);
    assert i in UvOffsets(base, w, rows) <==> i in before || i in last;
    if i < at {
      UvOffsetsCover(base, w, rows - 1, i);
      assert i !in last;
    } else {
      assert i !in before;
      assert i < at + 2 * (w / 2) ==> last[i - at] == i;
    }
  }

  lemma LastOfWhichRow(base: nat, w: nat, rows: nat, i: nat)
    requires rows > 0 && base <= i < base + Times(rows, w)
    ensures var at := base + Times(rows - 1, w);
            IsLast(base, w, rows, i) <==> if i < at then IsLast(base, w, rows - 1, i) else w % 2 == 1 && i == at + w - 1
  {
    var at := base + Times(rows - 1, w);
    assert LastOf(base, w, rows - 1) == at + w - 1;
    forall r: nat | r < rows - 1
      ensures LastOf(base, w, r) < at
    {
      TimesMonotone(r + 1, rows - 1, w);
    }
  }

  /** All writes of the conversion, in order. */
  function AllOffsets(w: nat, h: nat): seq<nat> {
    Offsets(0, Times(h, w)) + UvOffsets(Times(h, w), w, h / 2)
  }

  /** The offsets strictly increase, so no byte is written twice, and they are all of the buffer but the padding. */
  lemma WrittenOnce(w: nat, h: nat)
    ensures Increasing(AllOffsets(w, h))
    ensures forall i: nat :: i in AllOffsets(w, h) <==> i < Times(h, w) + Times(h / 2, w) && !IsPad(w, h, i)
  {
    var n := Times(h, w);
    UvOffsetsOnce(n, w, h / 2);
    IncreasingSum(Offsets(0, n), UvOffsets(n, w, h / 2), n);
    forall i: nat
      ensures i in AllOffsets(w, h) <==> i < n + Times(h / 2, w) && !IsPad(w, h, i)
    {
      WrittenIff(w, h, i);
    }
  }

  lemma WrittenIff(w: nat, h: nat, i: nat)
    ensures i in AllOffsets(w, h) <==> i < Times(h, w) + Times(h / 2, w) && !IsPad(w, h, i)
  {
    var n := Times(h, w);
    UvOffsetsOnce(n, w, h / 2);
    if i < n {
      assert Offsets(0, n)[i] == i;
      assert forall r: nat :: w > 0 ==> LastOf(n, w, r) >= n;
    } else if i < n + Times(h / 2, w) {
      UvOffsetsCover(n, w, h / 2, i);
      assert i !in Offsets(0, n);
      assert i in AllOffsets(w, h) <==> i in UvOffsets(n, w, h / 2);
    } else {
      assert i !in Offsets(0, n) && i !in UvOffsets(n, w, h / 2);
    }
  }

  // Conversion

  /** Copy a row to where row `n` of a buffer with this stride starts, `base` bytes in; `log` lists the writes. */
  method PutRow(dst: array<byte>, base: nat, n: nat, stride: nat, row: seq<byte>) returns (ghost log: seq<nat>)
    requires base + Times(n, stride) + |row| <= dst.Length
    modifies dst
    ensures log == Offsets(base + Times(n, stride), |row|)
    ensures var at := base + Times(n, stride);
            dst[..] == old(dst[..at]) + row + old(dst[at + |row|..])
  {
    TimesIsProduct(n, stride);
    CopyInto(dst, base + n * stride, row);
    log := Offsets(base + n * stride, |row|);
  }

  /** The row of a plane that starts at `n * stride`. */
  method GetRow(plane: seq<byte>, stride: nat, width: nat, rows: nat, n: nat) returns (row: seq<byte>)
    requires HasRows(plane, stride, width, rows) && n < rows
    ensures row == Row(plane, stride, width, rows, n)
  {
    RowFits(plane, stride, width, rows, n);
    TimesIsProduct(n, stride);
    row := plane[n * stride..n * stride + width];
  }

  /** `frame_to_nv12`: the buffer is the rows end to end. Each byte is written exactly once, but the last one of an
      odd chroma row, which is not written. */
  method FrameToNv12(f: Frame) returns (dst: array<byte>, ghost junk: seq<byte>, ghost log: seq<nat>)
    requires f.Fits() && f.w * f.h + f.w * (f.h / 2) < U32_BASE
    ensures fresh(dst) && dst.Length == f.w * f.h + f.w * (f.h / 2)
    ensures |junk| == f.h / 2 && dst[..] == Stack(BufferRows(f, junk))
    ensures Increasing(log) && forall i: nat :: i in log <==> i < dst.Length && !IsPad(f.w, f.h, i)
  {
    BufferLength(f.w, f.h);
    var base, size := f.w * f.h, f.w * f.h + f.w * (f.h / 2);
    dst := new byte[size];
    ghost var uvLog: seq<nat>;
    log := CopyLuma(f, dst, base);
    junk, uvLog := InterleaveUv(f, dst, base);
    log := log + uvLog;
    WrittenOnce(f.w, f.h);
    StackConcat(YRows(f, f.h), UvRows(f, junk));
  }

  /** The luma loop. */
  method CopyLuma(f: Frame, dst: array<byte>, size: nat) returns (ghost log: seq<nat>)
    requires f.Fits() && size == Times(f.h, f.w) <= dst.Length
    modifies dst
    ensures dst[..size] == Stack(YRows(f, f.h)) && log == Offsets(0, size)
  {
    log := [];
    for row := 0 to f.h
      invariant Times(row, f.w) <= dst.Length && dst[..Times(row, f.w)] == Stack(YRows(f, row))
      invariant log == Offsets(0, Times(row, f.w))
    {
      TimesMonotone(row + 1, f.h, f.w);
      var line := GetRow(f.y, f.yStride, f.w, f.h, row);
      ghost var writes := PutRow(dst, 0, row, f.w, line);
      log := log + writes;
      assert YRows(f, row + 1)[..row] == YRows(f, row);
    }
  }

  lemma BufferLength(w: nat, h: nat)
    ensures w * h == Times(h, w) && w * h + w * (h / 2) == Times(h, w) + Times(h / 2, w)
  {
    TimesIsProduct(h, w);
    TimesIsProduct(h / 2, w);
  }

  lemma {:induction false} StackConcat(a: seq<seq<byte>>, b: seq<seq<byte>>)
    ensures Stack(a + b) == Stack(a) + Stack(b)
  {
    if b == [] {
      assert a + b == a;
    } else {
      assert (a + b)[..|a + b| - 1] == a + b[..|b| - 1];
      StackConcat(a, b[..|b| - 1]);
    }
  }

  /** The byte an odd width leaves as it was. */
  function PadOf(before: seq<byte>, w: nat, at: nat): byte {
    if w % 2 == 1 && at + w <= |before| then before[at + w - 1] else 0
  }

  /** Those bytes of all chroma rows. */
  function Pads(before: seq<byte>, w: nat, base: nat, rows: nat): (pads: seq<byte>)
    ensures |pads| == rows
  {
    if rows == 0 then [] else Pads(before, w, base, rows - 1) + [PadOf(before, w, base + Times(rows - 1, w))]
  }

  /** The chroma loops, from `base` to the end of the buffer. */
  method InterleaveUv(f: Frame, dst: array<byte>, base: nat) returns (ghost junk: seq<byte>, ghost log: seq<nat>)
    requires f.Fits() && dst.Length == base + Times(f.h / 2, f.w)
    modifies dst
    ensures junk == Pads(old(dst[..]), f.w, base, f.h / 2)
    ensures dst[..] == old(dst[..])[..base] + Stack(UvRows(f, junk))
    ensures log == UvOffsets(base, f.w, f.h / 2)
  {
    junk, log := [], [];
    var at: nat := base;
    ghost var before := dst[..];
    NoChromaDone(f, before, base);
    for row := 0 to f.h / 2
      invariant ChromaDone(f, before, dst[..], base, at, row, junk, log)
    {
      junk, log := NextChromaRow(f, dst, before, base, at, row, junk, log);
      at := at + f.w;
    }
    AllChromaDone(f, before, dst[..], base, at, junk, log);
  }

  /** The body of the outer loop. */
  method NextChromaRow(f: Frame, dst: array<byte>, ghost before: seq<byte>, ghost base: nat, at: nat, row: nat,
                       ghost junk: seq<byte>, ghost log: seq<nat>)
    returns (ghost junk': seq<byte>, ghost log': seq<nat>)
    requires f.Fits() && dst.Length == base + Times(f.h / 2, f.w)
    requires row < f.h / 2 && ChromaDone(f, before, dst[..], base, at, row, junk, log)
    modifies dst
    ensures ChromaDone(f, before, dst[..], base, at + f.w, row + 1, junk', log')
  {
    NextRowFits(base, f.w, row, f.h / 2);
    ghost var now := dst[..];
    ghost var pad, writes := PutChromaRow(f, dst, at, row);
    ChromaRowDone(f, before, now, dst[..], base, at, row, junk, log, pad);
    junk', log' := junk + [pad], log + writes;
  }

  /** `row` chroma rows have been written, up to `at`. */
  ghost predicate ChromaDone(f: Frame, before: seq<byte>, now: seq<byte>, base: nat, at: nat, row: nat,
                             junk: seq<byte>, log: seq<nat>)
    requires f.Fits()
  {
    && row <= f.h / 2 && junk == Pads(before, f.w, base, row) && log == UvOffsets(base, f.w, row)
    && |before| == |now| && at == base + Times(row, f.w) <= |now|
    && now[..at] == before[..base] + Stack(UvRows(f, junk)) && now[at..] == before[at..]
  }

  lemma ChromaRowDone(f: Frame, before: seq<byte>, now: seq<byte>, after: seq<byte>, base: nat, at: nat, row: nat,
                      junk: seq<byte>, log: seq<nat>, pad: byte)
    requires f.Fits() && row < f.h / 2 && ChromaDone(f, before, now, base, at, row, junk, log)
    requires |after| == |now| && at + f.w <= |now| && pad == PadOf(now, f.w, at)
    requires after[..at + f.w] == now[..at] + UvRow(f, row, pad) && after[at + f.w..] == now[at + f.w..]
    ensures ChromaDone(f, before, after, base, at + f.w, row + 1, junk + [pad], log + Offsets(at, 2 * (f.w / 2)))
  {
    UvRowsGrow(before[..base], f, junk, pad);
    TailUnchanged(before, now, at, f.w);
  }

  lemma NextRowFits(base: nat, w: nat, row: nat, rows: nat)
    requires row < rows
    ensures base + Times(row, w) + w == base + Times(row + 1, w) <= base + Times(rows, w)
  {
    TimesMonotone(row + 1, rows, w);
  }

  lemma NoChromaDone(f: Frame, before: seq<byte>, base: nat)
    requires f.Fits() && base <= |before|
    ensures ChromaDone(f, before, before, base, base, 0, [], [])
  {
    assert UvRows(f, []) == [];
    assert before[..base] + [] == before[..base];
  }

  lemma AllChromaDone(f: Frame, before: seq<byte>, now: seq<byte>, base: nat, at: nat, junk: seq<byte>, log: seq<nat>)
    requires f.Fits() && |now| == base + Times(f.h / 2, f.w) && ChromaDone(f, before, now, base, at, f.h / 2, junk, log)
    ensures junk == Pads(before, f.w, base, f.h / 2) && now == before[..base] + Stack(UvRows(f, junk))
    ensures log == UvOffsets(base, f.w, f.h / 2)
  {
    assert now[..|now|] == now;
  }

  lemma TailUnchanged(before: seq<byte>, now: seq<byte>, at: nat, w: nat)
    requires |before| == |now| && at + w <= |now| && now[at..] == before[at..]
    ensures now[at + w..] == before[at + w..] && PadOf(now, w, at) == PadOf(before, w, at)
  {
    assert now[at + w..] == now[at..][w..] && before[at + w..] == before[at..][w..];
    if w > 0 {
      assert now[at..][w - 1] == now[at + w - 1] && before[at..][w - 1] == before[at + w - 1];
    }
  }

  lemma UvRowsGrow(head: seq<byte>, f: Frame, junk: seq<byte>, pad: byte)
    requires f.Fits() && |junk| < f.h / 2
    ensures head + Stack(UvRows(f, junk + [pad])) == head + Stack(UvRows(f, junk)) + UvRow(f, |junk|, pad)
  {
    assert (junk + [pad])[..|junk|] == junk;
    Associative(head, Stack(UvRows(f, junk)), UvRow(f, |junk|, pad));
  }

  /** One chroma row of the buffer, at `at`; `pad` is the byte an odd width leaves as it was. */
  method PutChromaRow(f: Frame, dst: array<byte>, at: nat, row: nat) returns (ghost pad: byte, ghost log: seq<nat>)
    requires f.Fits() && row < f.h / 2 && at + f.w <= dst.Length
    modifies dst
    ensures pad == PadOf(old(dst[..]), f.w, at)
    ensures dst[..][..at + f.w] == old(dst[..])[..at] + UvRow(f, row, pad)
            && dst[..][at + f.w..] == old(dst[..])[at + f.w..]
    ensures log == Offsets(at, 2 * (f.w / 2))
  {
    ghost var before := dst[..];
    pad := PadOf(before, f.w, at);
    var uRow := GetRow(f.u, f.uvStride, f.ChromaW(), f.ChromaH(), row);
    var vRow := GetRow(f.v, f.uvStride, f.ChromaW(), f.ChromaH(), row);
    log := InterleaveRow(uRow, vRow, f.w / 2, dst, at);
    ChromaRowPlaced(before, dst[..], at, Interleave(uRow, vRow, f.w / 2), f.w, pad);
  }

  lemma ChromaRowPlaced(before: seq<byte>, after: seq<byte>, at: nat, pairs: seq<byte>, w: nat, pad: byte)
    requires at + w <= |before| && |pairs| == 2 * (w / 2)
    requires w % 2 == 1 ==> pad == before[at + w - 1]
    requires after == before[..at] + pairs + before[at + |pairs|..]
    ensures after[..at + w] == before[..at] + (pairs + if w % 2 == 1 then [pad] else [])
    ensures |after| == |before| && after[at + w..] == before[at + w..]
  {
  }

  /** The inner chroma loop. */
  method InterleaveRow(u: seq<byte>, v: seq<byte>, n: nat, dst: array<byte>, at: nat) returns (ghost log: seq<nat>)
    requires n <= |u| && n <= |v| && at + 2 * n <= dst.Length
    modifies dst
    ensures dst[..] == old(dst[..at]) + Interleave(u, v, n) + old(dst[at + 2 * n..])
    ensures log == Offsets(at, 2 * n)
  {
    log := [];
    for col := 0 to n
      invariant dst[..at + 2 * col] == old(dst[..at]) + Interleave(u, v, col)
      invariant dst[at + 2 * col..] == old(dst[at + 2 * col..])
      invariant log == Offsets(at, 2 * col)
    {
      ghost var writes := PutPair(dst, at + col * 2, u[col], v[col]);
      log := log + writes;
    }
    assert dst[..] == dst[..at + 2 * n] + dst[at + 2 * n..];
  }

  method PutPair(dst: array<byte>, i: nat, a: byte, b: byte) returns (ghost log: seq<nat>)
    requires i + 2 <= dst.Length
    modifies dst
    ensures dst[..i + 2] == old(dst[..i]) + [a, b] && dst[i + 2..] == old(dst[i + 2..])
    ensures log == [i, i + 1]
  {
    dst[i + 0] := a;
    dst[i + 1] := b;
    log := [i + 0, i + 1];
  }

  // The texture

  /** A row of a buffer whose rows start a pitch apart. */
  function TextureRow(tex: seq<byte>, pitch: nat, w: nat, r: nat): seq<byte> {
    if Times(r, pitch) + w <= |tex| then tex[Times(r, pitch)..Times(r, pitch) + w] else []
  }

  /** `update_nv12_texture`: every row of the buffer goes to the row of the texture with the same number. */
  method UpdateTexture(tex: array<byte>, pitch: nat, nv12: seq<byte>, w: nat, h: nat)
    requires |nv12| == Times(h + h / 2, w) && HasRows(tex[..], pitch, w, h + h / 2)
    modifies tex
    ensures forall r :: 0 <= r < h + h / 2 ==> TextureRow(tex[..], pitch, w, r) == TextureRow(nv12, w, w, r)
  {
    TimesMonotone(h, h + h / 2, w);
    if h > 0 {
      RowFits(tex[..], pitch, w, h + h / 2, h - 1);
    }
    CopyRows(tex, pitch, nv12, w, 0, h);
    CopyRows(tex, pitch, nv12, w, h, h / 2);
  }

  /** One of the two row loops: `count` rows from row `first` on. */
  method CopyRows(tex: array<byte>, pitch: nat, nv12: seq<byte>, w: nat, first: nat, count: nat)
    requires Times(first + count, w) <= |nv12| && HasRows(tex[..], pitch, w, first + count)
    modifies tex
    ensures forall r :: 0 <= r < first + count ==>
              TextureRow(tex[..], pitch, w, r) == if r < first then TextureRow(old(tex[..]), pitch, w, r)
                else TextureRow(nv12, w, w, r)
  {
    for row := 0 to count
      invariant forall r :: 0 <= r < first + row ==>
                  TextureRow(tex[..], pitch, w, r) == if r < first then TextureRow(old(tex[..]), pitch, w, r)
                    else TextureRow(nv12, w, w, r)
    {
      TimesMonotone(first + row + 1, first + count, w);
      RowFits(tex[..], pitch, w, first + count, first + row);
      ghost var before := tex[..];
      CopyRow(tex, pitch, nv12, w, first, row);
      RowsApart(before, tex[..], pitch, w, first + row, TextureRow(nv12, w, w, first + row));
    }
  }

  /** The loop body: row `row` counted from row `first`. */
  method CopyRow(tex: array<byte>, pitch: nat, nv12: seq<byte>, w: nat, first: nat, row: nat)
    requires Times(first + row, w) + w <= |nv12| && Times(first + row, pitch) + w <= tex.Length
    modifies tex
    ensures var at := Times(first + row, pitch);
            tex[..] == old(tex[..at]) + TextureRow(nv12, w, w, first + row) + old(tex[at + w..])
  {
    TimesSum(first, row, w);
    TimesSum(first, row, pitch);
    TimesIsProduct(first, w);
    TimesIsProduct(first, pitch);
    TimesIsProduct(row, w);
    var from := w * first + row * w;
    ghost var _ := PutRow(tex, pitch * first, row, pitch, nv12[from..from + w]);
  }

  /** Writing one row leaves the rows before it alone. */
  lemma RowsApart(before: seq<byte>, after: seq<byte>, pitch: nat, w: nat, n: nat, line: seq<byte>)
    requires |line| == w <= pitch && Times(n, pitch) + w <= |before|
    requires after == before[..Times(n, pitch)] + line + before[Times(n, pitch) + w..]
    ensures forall r :: 0 <= r < n ==> TextureRow(after, pitch, w, r) == TextureRow(before, pitch, w, r)
    ensures TextureRow(after, pitch, w, n) == line
  {
    assert after[..Times(n, pitch)] == before[..Times(n, pitch)];
    forall r | 0 <= r < n
      ensures TextureRow(after, pitch, w, r) == TextureRow(before, pitch, w, r)
    {
      TimesMonotone(r + 1, n, pitch);
      SliceBefore(before, after, Times(r, pitch), Times(r, pitch) + w, Times(n, pitch));
    }
    var at := Times(n, pitch);
    assert after[at..at + w] == line;
  }

  lemma SliceBefore(before: seq<byte>, after: seq<byte>, from: nat, to: nat, n: nat)
    requires from <= to <= n <= |before| && n <= |after| && after[..n] == before[..n]
    ensures after[from..to] == before[from..to]
  {
    assert after[from..to] == after[..n][from..to] && before[from..to] == before[..n][from..to];
  }

  // What survives

  function BufferRowAt(f: Frame, junk: seq<byte>, r: nat): (s: seq<byte>)
    requires f.Fits() && |junk| == f.h / 2 && r < f.h + f.h / 2
    ensures |s| == f.w
  {
    if r < f.h then f.YRow(r) else UvRow(f, r - f.h, junk[r - f.h])
  }

  lemma BufferRowsAt(f: Frame, junk: seq<byte>, r: nat)
    requires f.Fits() && |junk| == f.h / 2 && r < f.h + f.h / 2
    ensures BufferRows(f, junk)[r] == BufferRowAt(f, junk, r)
  {
    if r < f.h {
      YRowsAt(f, f.h, r);
    } else {
      UvRowsAt(f, junk, r - f.h);
    }
  }

  /** A row of the buffer, read as a texture without padding. */
  lemma BufferRow(f: Frame, junk: seq<byte>, r: nat)
    requires f.Fits() && |junk| == f.h / 2 && r < f.h + f.h / 2
    ensures TextureRow(Stack(BufferRows(f, junk)), f.w, f.w, r) == BufferRowAt(f, junk, r)
  {
    BufferRowsAt(f, junk, r);
    StackRow(BufferRows(f, junk), f.w, r);
  }

  lemma {:induction false} YRowsAt(f: Frame, n: nat, r: nat)
    requires f.Fits() && r < n <= f.h
    ensures YRows(f, n)[r] == f.YRow(r)
  {
    if r < n - 1 {
      YRowsAt(f, n - 1, r);
    }
  }

  lemma {:induction false} UvRowsAt(f: Frame, junk: seq<byte>, r: nat)
    requires f.Fits() && r < |junk| <= f.h / 2
    ensures UvRows(f, junk)[r] == UvRow(f, r, junk[r])
  {
    if r < |junk| - 1 {
      UvRowsAt(f, junk[..|junk| - 1], r);
    }
  }

  lemma {:induction false} InterleavedAt(u: seq<byte>, v: seq<byte>, n: nat, col: nat)
    requires col < n <= |u| && n <= |v|
    ensures Interleave(u, v, n)[2 * col] == u[col] && Interleave(u, v, n)[2 * col + 1] == v[col]
  {
    if col < n - 1 {
      InterleavedAt(u, v, n - 1, col);
    }
  }

  /** A chroma row of even width holds every sample of its two rows. */
  lemma UvRowSamples(f: Frame, r: nat, junk: byte, col: nat)
    requires f.Fits() && r < f.h / 2 && f.w % 2 == 0 && col < f.ChromaW()
    ensures UvRow(f, r, junk)[2 * col] == f.URow(r)[col] && UvRow(f, r, junk)[2 * col + 1] == f.VRow(r)[col]
  {
    InterleavedAt(f.URow(r), f.VRow(r), f.w / 2, col);
  }

  /** From decoder to texture nothing is lost for even dimensions, whatever the strides and the pitch: the two
      planes of the texture give back every luma and chroma sample of the frame. */
  lemma TextureGivesBackSamples(f: Frame, junk: seq<byte>, tex: seq<byte>, pitch: nat, r: nat, col: nat)
    requires f.Fits() && |junk| == f.h / 2 && f.w % 2 == 0 && f.h % 2 == 0
    requires forall r :: 0 <= r < f.h + f.h / 2 ==>
               TextureRow(tex, pitch, f.w, r) == TextureRow(Stack(BufferRows(f, junk)), f.w, f.w, r)
    ensures r < f.h ==> TextureRow(tex, pitch, f.w, r) == f.YRow(r)
    ensures r < f.ChromaH() && col < f.ChromaW() ==>
              var row := TextureRow(tex, pitch, f.w, f.h + r);
              |row| == f.w && row[2 * col] == f.URow(r)[col] && row[2 * col + 1] == f.VRow(r)[col]
    ensures HasRows(tex, pitch, f.w, f.h + f.h / 2) && r < f.h && col < f.w ==>
              && 0 <= r * pitch + col < |tex| && 0 <= r * f.yStride + col < |f.y|
              && tex[r * pitch + col] == f.y[r * f.yStride + col]
    ensures HasRows(tex, pitch, f.w, f.h + f.h / 2) && r < (f.h + 1) / 2 && col < (f.w + 1) / 2 ==>
              var at, from := (f.h + r) * pitch + 2 * col, r * f.uvStride + col;
              && 0 <= at && at + 1 < |tex| && 0 <= from < |f.u| && from < |f.v|
              && tex[at] == f.u[from] && tex[at + 1] == f.v[from]
  {
    SamplesByRow(f, junk, tex, pitch, r, col);
    if HasRows(tex, pitch, f.w, f.h + f.h / 2) {
      assert Shows(tex, pitch, f, junk);
      if r < f.h && col < f.w {
        TextureLuma(f, junk, tex, pitch, r, col);
      }
      if r < f.h / 2 && col < f.w / 2 {
        TextureChroma(f, junk, tex, pitch, r, col);
      }
    }
  }

  lemma SamplesByRow(f: Frame, junk: seq<byte>, tex: seq<byte>, pitch: nat, r: nat, col: nat)
    requires f.Fits() && |junk| == f.h / 2 && f.w % 2 == 0 && f.h % 2 == 0
    requires forall r :: 0 <= r < f.h + f.h / 2 ==>
               TextureRow(tex, pitch, f.w, r) == TextureRow(Stack(BufferRows(f, junk)), f.w, f.w, r)
    ensures r < f.h ==> TextureRow(tex, pitch, f.w, r) == f.YRow(r)
    ensures r < f.ChromaH() && col < f.ChromaW() ==>
              var row := TextureRow(tex, pitch, f.w, f.h + r);
              |row| == f.w && row[2 * col] == f.URow(r)[col] && row[2 * col + 1] == f.VRow(r)[col]
  {
    if r < f.h {
      BufferRow(f, junk, r);
    }
    if r < f.ChromaH() && col < f.ChromaW() {
      BufferRow(f, junk, f.h + r);
      assert BufferRowAt(f, junk, f.h + r) == UvRow(f, r, junk[r]);
      UvRowSamples(f, r, junk[r], col);
    }
  }

  // Samples by their offsets

  /** Where row `r` of a stack with this row length starts, sample `col` of it. */
  lemma StackSample(rows: seq<seq<byte>>, width: nat, r: nat, col: nat)
    requires AllWide(rows, width) && r < |rows| && col < width
    ensures 0 <= r * width + col < |Stack(rows)| && Stack(rows)[r * width + col] == rows[r][col]
  {
    StackRow(rows, width, r);
    TimesIsProduct(r, width);
    assert Stack(rows)[Times(r, width)..Times(r, width) + width][col] == Stack(rows)[Times(r, width) + col];
  }

  lemma PlaneSample(plane: seq<byte>, stride: nat, width: nat, rows: nat, r: nat, col: nat)
    requires HasRows(plane, stride, width, rows) && r < rows && col < width
    ensures 0 <= r * stride + col < |plane| && Row(plane, stride, width, rows, r)[col] == plane[r * stride + col]
  {
    RowFits(plane, stride, width, rows, r);
    TimesIsProduct(r, stride);
  }

  /** Byte `r * w + col` of the NV12 buffer is byte `r * stride + col` of the luma plane. */
  lemma LumaByte(f: Frame, junk: seq<byte>, r: nat, col: nat)
    requires f.Fits() && |junk| == f.h / 2 && r < f.h && col < f.w
    ensures var dst := Stack(BufferRows(f, junk));
            && 0 <= r * f.w + col < |dst| && 0 <= r * f.yStride + col < |f.y|
            && dst[r * f.w + col] == f.y[r * f.yStride + col]
  {
    StackSample(BufferRows(f, junk), f.w, r, col);
    BufferRowsAt(f, junk, r);
    PlaneSample(f.y, f.yStride, f.w, f.h, r, col);
  }

  /** The bytes at `w * h + r * w + 2 * col` and after it are bytes `r * stride + col` of the U and the V plane. */
  lemma ChromaBytes(f: Frame, junk: seq<byte>, r: nat, col: nat)
    requires f.Fits() && |junk| == f.h / 2 && r < f.h / 2 && col < f.w / 2
    ensures var dst := Stack(BufferRows(f, junk));
            var at, from := f.w * f.h + r * f.w + 2 * col, r * f.uvStride + col;
            && 0 <= at && at + 1 < |dst| && 0 <= from < |f.u| && from < |f.v|
            && dst[at] == f.u[from] && dst[at + 1] == f.v[from]
  {
    ChromaByte(f, junk, r, 2 * col);
    ChromaByte(f, junk, r, 2 * col + 1);
    UvRowBytes(f, r, junk[r], col);
  }

  lemma ChromaByte(f: Frame, junk: seq<byte>, r: nat, k: nat)
    requires f.Fits() && |junk| == f.h / 2 && r < f.h / 2 && k < f.w
    ensures var dst := Stack(BufferRows(f, junk));
            0 <= f.w * f.h + r * f.w + k < |dst| && dst[f.w * f.h + r * f.w + k] == UvRow(f, r, junk[r])[k]
  {
    StackSample(BufferRows(f, junk), f.w, f.h + r, k);
    BufferRowsAt(f, junk, f.h + r);
    Distribute(f.h, r, f.w);
  }

  lemma Distribute(h: nat, r: nat, w: nat)
    ensures (h + r) * w == w * h + r * w
  {
  }

  lemma UvRowBytes(f: Frame, r: nat, junk: byte, col: nat)
    requires f.Fits() && r < f.h / 2 && col < f.w / 2
    ensures var from := r * f.uvStride + col;
            && 0 <= from < |f.u| && from < |f.v|
            && UvRow(f, r, junk)[2 * col] == f.u[from] && UvRow(f, r, junk)[2 * col + 1] == f.v[from]
  {
    InterleavedAt(f.URow(r), f.VRow(r), f.w / 2, col);
    PlaneSample(f.u, f.uvStride, f.ChromaW(), f.ChromaH(), r, col);
    PlaneSample(f.v, f.uvStride, f.ChromaW(), f.ChromaH(), r, col);
  }

  /** A byte of the texture, told by the pitch, is the byte of the buffer with the same row and column. */
  lemma TextureByte(tex: seq<byte>, pitch: nat, nv12: seq<byte>, w: nat, rows: nat, r: nat, col: nat)
    requires HasRows(tex, pitch, w, rows) && HasRows(nv12, w, w, rows) && r < rows && col < w
    requires TextureRow(tex, pitch, w, r) == TextureRow(nv12, w, w, r)
    ensures 0 <= r * pitch + col < |tex| && 0 <= r * w + col < |nv12| && tex[r * pitch + col] == nv12[r * w + col]
  {
    PlaneSample(tex, pitch, w, rows, r, col);
    PlaneSample(nv12, w, w, rows, r, col);
    RowFits(tex, pitch, w, rows, r);
    RowFits(nv12, w, w, rows, r);
    assert TextureRow(tex, pitch, w, r)[col] == tex[Times(r, pitch) + col];
    TimesIsProduct(r, pitch);
    TimesIsProduct(r, w);
  }

  /** The texture holds the rows of the frame's buffer. */
  ghost predicate Shows(tex: seq<byte>, pitch: nat, f: Frame, junk: seq<byte>)
    requires f.Fits() && |junk| == f.h / 2
  {
    && HasRows(tex, pitch, f.w, f.h + f.h / 2)
    && forall r :: 0 <= r < f.h + f.h / 2 ==>
         TextureRow(tex, pitch, f.w, r) == TextureRow(Stack(BufferRows(f, junk)), f.w, f.w, r)
  }

  /** From the luma plane of a frame to the texture, byte for byte. */
  lemma TextureLuma(f: Frame, junk: seq<byte>, tex: seq<byte>, pitch: nat, r: nat, col: nat)
    requires f.Fits() && |junk| == f.h / 2 && Shows(tex, pitch, f, junk) && r < f.h && col < f.w
    ensures 0 <= r * pitch + col < |tex| && 0 <= r * f.yStride + col < |f.y|
    ensures tex[r * pitch + col] == f.y[r * f.yStride + col]
  {
    StackIsPlane(BufferRows(f, junk), f.w);
    TextureByte(tex, pitch, Stack(BufferRows(f, junk)), f.w, f.h + f.h / 2, r, col);
    LumaByte(f, junk, r, col);
  }

  /** From the chroma planes of a frame to the texture, byte for byte. */
  lemma TextureChroma(f: Frame, junk: seq<byte>, tex: seq<byte>, pitch: nat, r: nat, col: nat)
    requires f.Fits() && |junk| == f.h / 2 && Shows(tex, pitch, f, junk) && r < f.h / 2 && col < f.w / 2
    ensures var at, from := (f.h + r) * pitch + 2 * col, r * f.uvStride + col;
            && 0 <= at && at + 1 < |tex| && 0 <= from < |f.u| && from < |f.v|
            && tex[at] == f.u[from] && tex[at + 1] == f.v[from]
  {
    TextureChromaByte(f, junk, tex, pitch, r, 2 * col);
    TextureChromaByte(f, junk, tex, pitch, r, 2 * col + 1);
    UvRowBytes(f, r, junk[r], col);
  }

  lemma TextureChromaByte(f: Frame, junk: seq<byte>, tex: seq<byte>, pitch: nat, r: nat, k: nat)
    requires f.Fits() && |junk| == f.h / 2 && Shows(tex, pitch, f, junk) && r < f.h / 2 && k < f.w
    ensures var at := (f.h + r) * pitch + k; 0 <= at < |tex| && tex[at] == UvRow(f, r, junk[r])[k]
  {
    StackIsPlane(BufferRows(f, junk), f.w);
    TextureByte(tex, pitch, Stack(BufferRows(f, junk)), f.w, f.h + f.h / 2, f.h + r, k);
    StackSample(BufferRows(f, junk), f.w, f.h + r, k);
    BufferRowsAt(f, junk, f.h + r);
  }

  lemma StackIsPlane(rows: seq<seq<byte>>, width: nat)
    requires AllWide(rows, width)
    ensures HasRows(Stack(rows), width, width, |rows|)
  {
    StackLength(rows, width);
  }

  ghost predicate SameSamples(f: Frame, g: Frame)
    requires f.Fits() && g.Fits() && f.w == g.w && f.h == g.h
  {
    && (forall r :: 0 <= r < f.h ==> f.YRow(r) == g.YRow(r))
    && (forall r :: 0 <= r < f.ChromaH() ==> f.URow(r) == g.URow(r) && f.VRow(r) == g.VRow(r))
  }

  /** Frames of this size with the same buffer have the same samples. */
  ghost predicate Lossless(w: nat, h: nat) {
    forall f: Frame, g: Frame, junk: seq<byte> ::
      f.Fits() && g.Fits() && f.w == g.w == w && f.h == g.h == h && |junk| == h / 2
        && BufferRows(f, junk) == BufferRows(g, junk) ==>
        SameSamples(f, g)
  }

  /** The conversion is lossless exactly when both dimensions are even or the frame is empty. */
  lemma LosslessIffEven(w: nat, h: nat)
    ensures Lossless(w, h) <==> w == 0 || h == 0 || (w % 2 == 0 && h % 2 == 0)
  {
    if w == 0 || h == 0 || (w % 2 == 0 && h % 2 == 0) {
      forall f: Frame, g: Frame, junk: seq<byte> |
        f.Fits() && g.Fits() && f.w == g.w == w && f.h == g.h == h && |junk| == h / 2
          && BufferRows(f, junk) == BufferRows(g, junk)
        ensures SameSamples(f, g)
      {
        EqualBuffers(f, g, junk);
      }
    } else {
      LastSampleLost(w, h, seq(h / 2, _ => 0));
    }
  }

  lemma EqualBuffers(f: Frame, g: Frame, junk: seq<byte>)
    requires f.Fits() && g.Fits() && f.w == g.w && f.h == g.h && |junk| == f.h / 2
    requires f.w == 0 || f.h == 0 || (f.w % 2 == 0 && f.h % 2 == 0)
    requires BufferRows(f, junk) == BufferRows(g, junk)
    ensures SameSamples(f, g)
  {
    forall r | 0 <= r < f.h
      ensures f.YRow(r) == g.YRow(r)
    {
      BufferRowsAt(f, junk, r);
      BufferRowsAt(g, junk, r);
    }
    forall r | 0 <= r < f.ChromaH()
      ensures f.URow(r) == g.URow(r) && f.VRow(r) == g.VRow(r)
    {
      if f.w > 0 {
        EqualChromaRow(f, g, junk, r);
      }
    }
  }

  lemma EqualChromaRow(f: Frame, g: Frame, junk: seq<byte>, r: nat)
    requires f.Fits() && g.Fits() && f.w == g.w && f.h == g.h && |junk| == f.h / 2
    requires f.w % 2 == 0 && r < f.h / 2 && BufferRows(f, junk) == BufferRows(g, junk)
    ensures f.URow(r) == g.URow(r) && f.VRow(r) == g.VRow(r)
  {
    BufferRowsAt(f, junk, f.h + r);
    BufferRowsAt(g, junk, f.h + r);
    EqualChroma(f, g, r, junk[r]);
  }

  lemma EqualChroma(f: Frame, g: Frame, r: nat, junk: byte)
    requires f.Fits() && g.Fits() && f.w == g.w && f.h == g.h && r < f.h / 2 && f.w % 2 == 0
    requires UvRow(f, r, junk) == UvRow(g, r, junk)
    ensures f.URow(r) == g.URow(r) && f.VRow(r) == g.VRow(r)
  {
    forall col | 0 <= col < f.ChromaW()
      ensures f.URow(r)[col] == g.URow(r)[col] && f.VRow(r)[col] == g.VRow(r)[col]
    {
      UvRowSamples(f, r, junk, col);
      UvRowSamples(g, r, junk, col);
    }
  }

  /** With an odd dimension two frames that differ in their last U sample have the same buffer. */
  lemma LastSampleLost(w: nat, h: nat, junk: seq<byte>)
    requires w > 0 && h > 0 && (w % 2 == 1 || h % 2 == 1) && |junk| == h / 2
    ensures !Lossless(w, h)
  {
    var f, g := Blank(w, h, 0), Blank(w, h, 1);
    BlankPairAgrees(w, h);
    SameBuffer(f, g, junk);
    BlankPairDiffers(w, h);
    SeparatesLossless(f, g, junk);
  }

  lemma SeparatesLossless(f: Frame, g: Frame, junk: seq<byte>)
    requires f.Fits() && g.Fits() && f.w == g.w && f.h == g.h && |junk| == f.h / 2
    requires BufferRows(f, junk) == BufferRows(g, junk) && !SameSamples(f, g)
    ensures !Lossless(f.w, f.h)
  {
  }

  lemma BlankPairAgrees(w: nat, h: nat)
    requires w > 0 && h > 0 && (w % 2 == 1 || h % 2 == 1)
    ensures var f, g := Blank(w, h, 0), Blank(w, h, 1);
            f.y == g.y && f.v == g.v && forall r :: 0 <= r < h / 2 ==> f.URow(r)[..w / 2] == g.URow(r)[..w / 2]
  {
    forall r | 0 <= r < h / 2
      ensures Blank(w, h, 0).URow(r)[..w / 2] == Blank(w, h, 1).URow(r)[..w / 2]
    {
      BlankRowAgrees(w, h, r);
    }
  }

  lemma BlankRowAgrees(w: nat, h: nat, r: nat)
    requires w > 0 && (w % 2 == 1 || h % 2 == 1) && r < h / 2
    ensures Blank(w, h, 0).URow(r)[..w / 2] == Blank(w, h, 1).URow(r)[..w / 2]
  {
    BlankRows((w + 1) / 2, (h + 1) / 2, r, w / 2);
  }

  lemma BlankPairDiffers(w: nat, h: nat)
    requires w > 0 && h > 0
    ensures !SameSamples(Blank(w, h, 0), Blank(w, h, 1))
  {
    var cw, ch := (w + 1) / 2, (h + 1) / 2;
    BlankLast(cw, ch);
    assert Blank(w, h, 0).URow(ch - 1) != Blank(w, h, 1).URow(ch - 1);
  }

  /** A plane of zeros whose very last sample is `last`. */
  function BlankPlane(cw: nat, ch: nat, last: byte): (plane: seq<byte>)
    requires cw > 0 && ch > 0
    ensures |plane| == Times(ch, cw) && HasRows(plane, cw, cw, ch)
  {
    var zeros := seq(Times(ch, cw), _ => 0);
    zeros[|zeros| - 1 := last]
  }

  function Blank(w: nat, h: nat, last: byte): (f: Frame)
    requires w > 0 && h > 0
    ensures f.w == w && f.h == h && f.Fits()
  {
    var cw, ch := (w + 1) / 2, (h + 1) / 2;
    Frame(w, h, BlankPlane(w, h, 0), w, BlankPlane(cw, ch, last), BlankPlane(cw, ch, 0), cw)
  }

  lemma BlankRows(cw: nat, ch: nat, r: nat, n: nat)
    requires cw > 0 && r < ch && n <= cw && (r < ch - 1 || n < cw)
    ensures Row(BlankPlane(cw, ch, 0), cw, cw, ch, r)[..n] == Row(BlankPlane(cw, ch, 1), cw, cw, ch, r)[..n]
  {
    if r < ch - 1 {
      TimesMonotone(r + 1, ch - 1, cw);
    }
  }

  lemma BlankLast(cw: nat, ch: nat)
    requires cw > 0 && ch > 0
    ensures Row(BlankPlane(cw, ch, 0), cw, cw, ch, ch - 1) != Row(BlankPlane(cw, ch, 1), cw, cw, ch, ch - 1)
  {
    assert Row(BlankPlane(cw, ch, 0), cw, cw, ch, ch - 1)[cw - 1] == 0;
    assert Row(BlankPlane(cw, ch, 1), cw, cw, ch, ch - 1)[cw - 1] == 1;
  }

  /** The buffer depends on the first `w / 2` samples of the first `h / 2` chroma rows only. */
  lemma SameBuffer(f: Frame, g: Frame, junk: seq<byte>)
    requires f.Fits() && g.Fits() && f.w == g.w && f.h == g.h && |junk| == f.h / 2
    requires f.y == g.y && f.yStride == g.yStride && f.v == g.v && f.uvStride == g.uvStride
    requires forall r :: 0 <= r < f.h / 2 ==> f.URow(r)[..f.w / 2] == g.URow(r)[..f.w / 2]
    ensures BufferRows(f, junk) == BufferRows(g, junk)
  {
    forall r | 0 <= r < f.h + f.h / 2
      ensures BufferRows(f, junk)[r] == BufferRows(g, junk)[r]
    {
      if r >= f.h {
        assert f.URow(r - f.h)[..f.w / 2] == g.URow(r - f.h)[..f.w / 2];
      }
      SameBufferRow(f, g, junk, r);
    }
  }

  lemma SameBufferRow(f: Frame, g: Frame, junk: seq<byte>, r: nat)
    requires f.Fits() && g.Fits() && f.w == g.w && f.h == g.h && |junk| == f.h / 2 && r < f.h + f.h / 2
    requires f.y == g.y && f.yStride == g.yStride && f.v == g.v && f.uvStride == g.uvStride
    requires r >= f.h ==> f.URow(r - f.h)[..f.w / 2] == g.URow(r - f.h)[..f.w / 2]
    ensures BufferRows(f, junk)[r] == BufferRows(g, junk)[r]
  {
    BufferRowsAt(f, junk, r);
    BufferRowsAt(g, junk, r);
    SameRowAt(f, g, junk, r);
  }

  lemma SameRowAt(f: Frame, g: Frame, junk: seq<byte>, r: nat)
    requires f.Fits() && g.Fits() && f.w == g.w && f.h == g.h && |junk| == f.h / 2 && r < f.h + f.h / 2
    requires f.y == g.y && f.yStride == g.yStride && f.v == g.v && f.uvStride == g.uvStride
    requires r >= f.h ==> f.URow(r - f.h)[..f.w / 2] == g.URow(r - f.h)[..f.w / 2]
    ensures BufferRowAt(f, junk, r) == BufferRowAt(g, junk, r)
  {
    if r >= f.h {
      InterleaveAgrees(f.URow(r - f.h), g.URow(r - f.h), f.VRow(r - f.h), f.w / 2);
    }
  }

  lemma {:induction false} InterleaveAgrees(u: seq<byte>, u': seq<byte>, v: seq<byte>, n: nat)
    requires n <= |u| && n <= |u'| && n <= |v| && u[..n] == u'[..n]
    ensures Interleave(u, v, n) == Interleave(u', v, n)
  {
    if n > 0 {
      assert u[..n][..n - 1] == u[..n - 1] && u'[..n][..n - 1] == u'[..n - 1];
      assert u[..n][n - 1] == u[n - 1] && u'[..n][n - 1] == u'[n - 1];
      InterleaveAgrees(u, u', v, n - 1);
    }
  }
}
