/** A sequence stored in a ring: what the queues and the audio regulator keep in their fixed buffers. */
module Ring {

  /** An index at most one turn past the end, brought back into the ring. */
  function Wrap(x: nat, n: nat): (r: nat)
    requires x < 2 * n
    ensures r < n
  {
    if x < n then x else x - n
  }

  /** That is what `x % n` computes. */
  lemma ModIsWrap(x: nat, n: nat)
    requires x < 2 * n
    ensures x % n == Wrap(x, n)
  {
    var q, r := x / n, x % n;
    assert x == n * q + r;
    assert n * q == n * 2 + n * (q - 2);
    assert q >= 2 ==> n * (q - 2) >= 0;
  }

  /** The `len` elements from `start`, wrapping at the end of the buffer. */
  function Contents<T>(buf: seq<T>, start: nat, len: nat): (s: seq<T>)
    requires len <= |buf| && start <= |buf|
    ensures |s| == len
  {
    if start + len <= |buf| then buf[start..start + len] else buf[start..] + buf[..start + len - |buf|]
  }

  lemma ContentsAt<T>(buf: seq<T>, start: nat, len: nat, i: nat)
    requires i < len <= |buf| && start < |buf|
    ensures Contents(buf, start, len)[i] == buf[Wrap(start + i, |buf|)]
  {
  }

  /** A stored stretch is its first `a` elements followed by the rest, which start where the first end. */
  lemma Split<T>(buf: seq<T>, start: nat, a: nat, b: nat)
    requires a + b <= |buf| && start < |buf|
    ensures Contents(buf, start, a + b) == Contents(buf, start, a) + Contents(buf, Wrap(start + a, |buf|), b)
  {
    var whole, parts := Contents(buf, start, a + b), Contents(buf, start, a) + Contents(buf, Wrap(start + a, |buf|), b);
    forall i | 0 <= i < a + b
      ensures whole[i] == parts[i]
    {
      SplitAt(buf, start, a, b, i);
    }
  }

  lemma SplitAt<T>(buf: seq<T>, start: nat, a: nat, b: nat, i: nat)
    requires a + b <= |buf| && start < |buf| && i < a + b
    ensures Contents(buf, start, a + b)[i] ==
            if i < a then Contents(buf, start, a)[i] else Contents(buf, Wrap(start + a, |buf|), b)[i - a]
  {
    if i < a {
      ContentsAt(buf, start, a + b, i);
      ContentsAt(buf, start, a, i);
    } else {
      SplitTailAt(buf, start, a, b, i);
    }
  }

  lemma SplitTailAt<T>(buf: seq<T>, start: nat, a: nat, b: nat, i: nat)
    requires a + b <= |buf| && start < |buf| && a <= i < a + b
    ensures Contents(buf, start, a + b)[i] == Contents(buf, Wrap(start + a, |buf|), b)[i - a]
  {
    WrapTwice(start, a, i - a, |buf|);
    ContentsAt(buf, start, a + b, i);
    ContentsAt(buf, Wrap(start + a, |buf|), b, i - a);
  }

  lemma WrapTwice(start: nat, a: nat, k: nat, n: nat)
    requires start < n && a + k <= n
    ensures Wrap(Wrap(start + a, n) + k, n) == Wrap(start + a + k, n)
  {
  }

  /** Storing one element after the last. */
  lemma Push<T>(buf: seq<T>, start: nat, len: nat, x: T)
    requires len < |buf| && start < |buf|
    ensures Contents(buf[Wrap(start + len, |buf|) := x], start, len + 1) == Contents(buf, start, len) + [x]
  {
  }

  /** Removing the first element. */
  lemma Pop<T>(buf: seq<T>, start: nat, len: nat)
    requires 0 < len <= |buf| && start < |buf|
    ensures Contents(buf, start, len) == [buf[start]] + Contents(buf, Wrap(start + 1, |buf|), len - 1)
  {
    Split(buf, start, 1, len - 1);
  }

  /** Removing the first `k` elements. */
  lemma Drop<T>(buf: seq<T>, start: nat, len: nat, k: nat)
    requires k <= len <= |buf| && start < |buf|
    ensures Contents(buf, Wrap(start + k, |buf|), len - k) == Contents(buf, start, len)[k..]
  {
    var left := len - k;
    assert k + left == len;
    Split(buf, start, k, left);
    SumTail(Contents(buf, start, len), Contents(buf, start, k), Contents(buf, Wrap(start + k, |buf|), left), k);
  }

  lemma SumTail<T>(all: seq<T>, a: seq<T>, b: seq<T>, k: nat)
    requires all == a + b && |a| == k
    ensures b == all[k..]
  {
  }

  // Writing blocks

  /** An index any number of turns past the end, brought back into the ring. */
  function Turn(x: nat, n: nat): (r: nat)
    requires n > 0
    ensures r < n
  {
    if x < n then x else Turn(x - n, n)
  }

  /** That is what `x % n` computes. */
  lemma {:induction false} ModIsTurn(x: nat, n: nat)
    requires n > 0
    ensures x % n == Turn(x, n)
  {
    if x >= n {
      ModIsTurn(x - n, n);
      ModTurn(x, n);
    }
  }

  lemma ModTurn(x: nat, n: nat)
    requires 0 < n <= x
    ensures x % n == (x - n) % n
  {
    var d: int := x / n - (x - n) / n - 1;
    assert n * d == (x - n) % n - x % n;
    assert d >= 1 ==> n * d >= n;
    assert d <= -1 ==> n * (d + 1) <= 0;
  }

  /** Going on by at most one turn. */
  lemma {:induction false} TurnStep(x: nat, a: nat, n: nat)
    requires n > 0 && a <= n
    ensures Turn(x + a, n) == Wrap(Turn(x, n) + a, n)
    decreases x
  {
    if x >= n {
      TurnStep(x - n, a, n);
    }
  }

  /** A buffer after a block is written from `at` to the end and the rest from the beginning. The rest fits if the
      block is at most two turns long, less what lies before `at`; it may run over the first piece. */
  function Overwrite<T>(buf: seq<T>, at: nat, data: seq<T>): (after: seq<T>)
    requires at < |buf| && |data| <= 2 * |buf| - at
    ensures |after| == |buf|
  {
    seq(|buf|, j requires 0 <= j < |buf| => Overwritten(buf, at, data, j))
  }

  /** A cell after the write: the last byte of the block that goes there, or what it was. */
  function Overwritten<T>(buf: seq<T>, at: nat, data: seq<T>, j: nat): T
    requires at < |buf| && |data| <= 2 * |buf| - at && j < |buf|
  {
    if j + |buf| - at < |data| then data[j + |buf| - at]
    else if at <= j && j - at < |data| then data[j - at]
    else buf[j]
  }

  lemma OverwriteAt<T>(buf: seq<T>, at: nat, data: seq<T>, j: nat)
    requires at < |buf| && |data| <= 2 * |buf| - at && j < |buf|
    ensures Overwrite(buf, at, data)[j] == Overwritten(buf, at, data, j)
  {
  }

  /** A block that fits before the end is written in one piece, any other in two, the second over the first. */
  lemma OverwritePieces<T>(buf: seq<T>, at: nat, data: seq<T>)
    requires at < |buf| && |data| <= 2 * |buf| - at
    ensures |data| <= |buf| - at ==> Overwrite(buf, at, data) == buf[..at] + data + buf[at + |data|..]
    ensures |data| > |buf| - at ==>
              var k := |buf| - at; Overwrite(buf, at, data) == data[k..] + (buf[..at] + data[..k])[|data| - k..]
  {
    var k := |buf| - at;
    if |data| <= k {
      assert Overwrite(buf, at, data) == buf[..at] + data + buf[at + |data|..];
    } else {
      var first := buf[..at] + data[..k];
      assert Overwrite(buf, at, data) == data[k..] + first[|data| - k..];
    }
  }

  /** Writing a block after the last element keeps, of the old elements followed by the block, any end that the ring
      has room for, with the first element that far on from the old first one. */
  lemma Keep<T>(buf: seq<T>, start: nat, len: nat, data: seq<T>, k: nat)
    requires len <= |buf| && start < |buf| && |data| <= 2 * |buf| - Wrap(start + len, |buf|)
    requires k <= len + |data| <= |buf| + k
    ensures Contents(Overwrite(buf, Wrap(start + len, |buf|), data), Turn(start + k, |buf|), len + |data| - k) ==
            (Contents(buf, start, len) + data)[k..]
    ensures Turn(Wrap(start + len, |buf|) + |data|, |buf|) == Wrap(Turn(start + k, |buf|) + (len + |data| - k), |buf|)
  {
    KeepEnd(start, len, |data|, k, |buf|);
    KeepContents(buf, start, len, data, k);
  }

  lemma KeepContents<T>(buf: seq<T>, start: nat, len: nat, data: seq<T>, k: nat)
    requires len <= |buf| && start < |buf| && |data| <= 2 * |buf| - Wrap(start + len, |buf|)
    requires k <= len + |data| <= |buf| + k
    ensures Contents(Overwrite(buf, Wrap(start + len, |buf|), data), Turn(start + k, |buf|), len + |data| - k) ==
            (Contents(buf, start, len) + data)[k..]
  {
    KeptCells(buf, start, len, data, k);
    ContentsFromCells(Overwrite(buf, Wrap(start + len, |buf|), data), start + k,
                      (Contents(buf, start, len) + data)[k..], len + |data| - k);
  }

  /** The sequence is in the cells from `x` on. */
  ghost predicate InCells<T>(buf: seq<T>, x: nat, s: seq<T>)
    requires 0 < |buf|
  {
    forall i: nat :: i < |s| ==> CellIs(buf, x, s, i)
  }

  ghost predicate CellIs<T>(buf: seq<T>, x: nat, s: seq<T>, i: nat)
    requires 0 < |buf| && i < |s|
  {
    buf[Turn(x + i, |buf|)] == s[i]
  }

  lemma KeptCells<T>(buf: seq<T>, start: nat, len: nat, data: seq<T>, k: nat)
    requires len <= |buf| && start < |buf| && |data| <= 2 * |buf| - Wrap(start + len, |buf|)
    requires k <= len + |data| <= |buf| + k
    ensures InCells(Overwrite(buf, Wrap(start + len, |buf|), data), start + k, (Contents(buf, start, len) + data)[k..])
  {
    var after, x := Overwrite(buf, Wrap(start + len, |buf|), data), start + k;
    var kept := (Contents(buf, start, len) + data)[k..];
    forall i: nat | i < |kept|
      ensures CellIs(after, x, kept, i)
    {
      KeptCellIs(buf, start, len, data, k, i);
    }
  }

  lemma KeptCellIs<T>(buf: seq<T>, start: nat, len: nat, data: seq<T>, k: nat, i: nat)
    requires len <= |buf| && start < |buf| && |data| <= 2 * |buf| - Wrap(start + len, |buf|)
    requires k + i < len + |data| <= |buf| + k
    ensures CellIs(Overwrite(buf, Wrap(start + len, |buf|), data), start + k,
                   (Contents(buf, start, len) + data)[k..], i)
  {
    KeptCell(buf, start, len, data, k + i);
    SliceAt(Contents(buf, start, len) + data, k, i);
    assert start + k + i == start + (k + i);
  }

  lemma SliceAt<T>(s: seq<T>, k: nat, i: nat)
    requires k + i < |s|
    ensures s[k..][i] == s[k + i]
  {
  }

  lemma ContentsFromCells<T>(buf: seq<T>, x: nat, s: seq<T>, len: nat)
    requires 0 < |buf| && |s| == len <= |buf| && InCells(buf, x, s)
    ensures Contents(buf, Turn(x, |buf|), len) == s
  {
    var c := Contents(buf, Turn(x, |buf|), |s|);
    forall i: nat | i < |s|
      ensures c[i] == s[i]
    {
      assert CellIs(buf, x, s, i);
      ContentsAtTurn(buf, x, |s|, i);
    }
  }

  lemma KeepEnd(start: nat, len: nat, size: nat, k: nat, n: nat)
    requires len <= n && start < n && size <= 2 * n - Wrap(start + len, n) && k <= len + size <= n + k
    ensures Turn(Wrap(start + len, n) + size, n) == Wrap(Turn(start + k, n) + (len + size - k), n)
  {
    TurnStep(start + k, len + size - k, n);
    var x, y := start + len + size, Wrap(start + len, n) + size;
    assert y == if start + len < n then x else x - n;
    assert start + k + (len + size - k) == x;
  }

  lemma ContentsAtTurn<T>(buf: seq<T>, x: nat, len: nat, i: nat)
    requires i < len <= |buf|
    ensures Contents(buf, Turn(x, |buf|), len)[i] == buf[Turn(x + i, |buf|)]
  {
    ContentsAt(buf, Turn(x, |buf|), len, i);
    TurnStep(x, i, |buf|);
  }

  /** Element `p` of the old elements and the block is in its cell, unless the block went on a full turn after it. */
  lemma KeptCell<T>(buf: seq<T>, start: nat, len: nat, data: seq<T>, p: nat)
    requires len <= |buf| && start < |buf| && |data| <= 2 * |buf| - Wrap(start + len, |buf|)
    requires p < len + |data| <= |buf| + p
    ensures Overwrite(buf, Wrap(start + len, |buf|), data)[Turn(start + p, |buf|)] ==
            (Contents(buf, start, len) + data)[p]
  {
    if p < len {
      KeptOld(buf, start, len, data, p);
    } else {
      KeptNew(buf, start, len, data, p);
    }
  }

  lemma KeptOld<T>(buf: seq<T>, start: nat, len: nat, data: seq<T>, p: nat)
    requires start < |buf| && p < len <= |buf| && len + |data| <= |buf| + p
    ensures |data| <= 2 * |buf| - Wrap(start + len, |buf|)
    ensures Overwrite(buf, Wrap(start + len, |buf|), data)[Turn(start + p, |buf|)] == Contents(buf, start, len)[p]
  {
    OldCell(start, len, p, |data|, |buf|);
    OverwriteAt(buf, Wrap(start + len, |buf|), data, Turn(start + p, |buf|));
    ContentsAt(buf, start, len, p);
  }

  lemma KeptNew<T>(buf: seq<T>, start: nat, len: nat, data: seq<T>, p: nat)
    requires len <= |buf| && start < |buf| && |data| <= 2 * |buf| - Wrap(start + len, |buf|)
    requires len <= p < len + |data| <= |buf| + p
    ensures Overwrite(buf, Wrap(start + len, |buf|), data)[Turn(start + p, |buf|)] == data[p - len]
  {
    CellOfBlock(start, len, p - len, |data|, |buf|);
    OverwriteAt(buf, Wrap(start + len, |buf|), data, Turn(start + p, |buf|));
  }

  /** The block does not reach a cell it leaves within a full turn of its end. */
  lemma OldCell(start: nat, len: nat, p: nat, size: nat, n: nat)
    requires start < n && p < len <= n && len + size <= n + p
    ensures var at, j := Wrap(start + len, n), Turn(start + p, n);
            j == Wrap(start + p, n) && j + n - at >= size && !(at <= j && j - at < size)
  {
  }

  /** Where byte `q` of the block goes. */
  lemma CellOfBlock(start: nat, len: nat, q: nat, size: nat, n: nat)
    requires start < n && len <= n && q < size <= 2 * n - Wrap(start + len, n) && size <= n + q
    ensures var at, j := Wrap(start + len, n), Turn(start + (len + q), n);
            if j + n - at < size then q == j + n - at else at <= j && q == j - at
  {
    var at, x := Wrap(start + len, n), start + (len + q);
    assert at + q == if start + len < n then x else x - n;
    assert Turn(x, n) == Turn(at + q, n) == Wrap(at + q, n);
  }

  /** Writing right after the last element appends. */
  lemma OverwriteAppends<T>(buf: seq<T>, start: nat, len: nat, data: seq<T>)
    requires len + |data| <= |buf| && start < |buf|
    ensures Contents(Overwrite(buf, Wrap(start + len, |buf|), data), start, len + |data|) ==
            Contents(buf, start, len) + data
  {
    Keep(buf, start, len, data, 0);
    FromZero(Contents(buf, start, len) + data);
  }

  lemma FromZero<T>(s: seq<T>)
    ensures s[0..] == s
  {
  }

  /** The two pieces stay in the buffer if and only if the block is at most two turns long, less what lies before
      `at`. */
  lemma PiecesFitIff(at: nat, size: nat, n: nat)
    requires at < n
    ensures PiecesFit(at, size, n) <==> size <= 2 * n - at
  {
  }

  /** The first piece goes up to the end of the buffer, the second starts at its beginning. */
  predicate PiecesFit(at: nat, size: nat, n: nat)
    requires at < n
  {
    var first := if n - at > size then size else n - at;
    at + first <= n && size - first <= n
  }
}
