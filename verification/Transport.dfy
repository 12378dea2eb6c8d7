/** Byte streams whose every `send` and `recv` moves an amount chosen by an adversary.

    A run of the program makes finitely many calls, so the outcomes the operating system will
    give are a finite script; once it is used up every call fails. */
module Transport {
  import opened Bytes

  /** The outcome of one call: some bytes moved (0 from `recv` is an orderly close), a would-block, or an error. */
  datatype Io = Chunk(n: nat) | WouldBlock | Fail

  /** How many calls of a script move data before the first error. */
  function ChunksBeforeFail(script: seq<Io>): nat {
    if script == [] || script[0].Fail? then 0
    else (if script[0].Chunk? then 1 else 0) + ChunksBeforeFail(script[1..])
  }

  /** The next `n` calls all move data: no would-block and no error among them. */
  predicate Steady(script: seq<Io>, n: nat) {
    n <= |script| && forall i :: 0 <= i < n ==> script[i].Chunk?
  }

  /** What a loop that gives up at the first call moving nothing takes: how many bytes, the outcome that stopped it
      short, if one did, and the outcomes left. */
  datatype Fill = Fill(taken: nat, stop: Option<Io>, rest: seq<Io>)

  /** Such a loop, wanting `want` bytes of the `avail` that will ever arrive. */
  function Filled(script: seq<Io>, avail: nat, want: nat): (f: Fill)
    ensures f.taken <= want && f.taken <= avail
  {
    if want == 0 then Fill(0, None, script)
    else if script == [] then Fill(0, Some(Fail), [])
    else if !script[0].Chunk? then Fill(0, Some(script[0]), script[1..])
    else if avail == 0 then Fill(0, Some(Chunk(0)), script[1..])
    else
      var k := Moved(script[0].n, Min(want, avail));
      var f := Filled(script[1..], avail - k, want - k);
      f.(taken := k + f.taken)
  }

  /** The calls that `want` bytes take from a script all move data. */
  predicate Serves(script: seq<Io>, want: nat) {
    want == 0 || (script != [] && script[0].Chunk? && Serves(script[1..], want - Moved(script[0].n, want)))
  }

  /** The outcomes left after those calls. */
  function After(script: seq<Io>, want: nat): seq<Io>
    requires Serves(script, want)
  {
    if want == 0 then script else After(script[1..], want - Moved(script[0].n, want))
  }

  /** The loop gets all it wants if and only if enough will arrive and every call it takes moves data. */
  lemma {:induction false} FilledIff(script: seq<Io>, avail: nat, want: nat)
    ensures var f := Filled(script, avail, want);
            && (f.stop.None? <==> f.taken == want)
            && (f.stop.None? <==> avail >= want && Serves(script, want))
            && (f.stop.None? ==> f.rest == After(script, want))
  {
    if want > 0 && script != [] && script[0].Chunk? && avail > 0 {
      var k := Moved(script[0].n, Min(want, avail));
      FilledIff(script[1..], avail - k, want - k);
    }
  }

  /** One piece and then a would-block. */
  lemma StopsAfter(k: nat, avail: nat, want: nat, later: seq<Io>)
    requires 0 < k < want && k <= avail
    ensures var script := [Chunk(k), WouldBlock] + later;
            Filled(script, avail, want) == Fill(k, Some(WouldBlock), later) && !Serves(script, want)
  {
    var script := [Chunk(k), WouldBlock] + later;
    assert script[0] == Chunk(k) && script[1..][0] == WouldBlock && script[1..][1..] == later;
    assert Filled(script[1..], avail - k, want - k) == Fill(0, Some(WouldBlock), later);
  }

  /** Data in every call is enough, whatever the amounts. */
  lemma {:induction false} SteadyServes(script: seq<Io>, want: nat, more: nat)
    requires Steady(script, want + more)
    ensures Serves(script, want) && Steady(After(script, want), more)
  {
    if want > 0 {
      var k := Moved(script[0].n, want);
      SteadyServes(script[1..], want - k, more);
    }
  }

  /** Bytes moved by a call offered `n` by the script, with `room` bytes possible. */
  function Moved(n: nat, room: nat): (k: nat)
    ensures k <= room && (k == 0 <==> room == 0)
  {
    Min(if n == 0 then 1 else n, room)
  }

  /** The sending end of a connection. */
  class Sink {
    var wire: seq<byte>
    var script: seq<Io>

    constructor (script: seq<Io>)
      ensures wire == [] && this.script == script
    {
      this.wire, this.script := [], script;
    }

    method Send(data: seq<byte>) returns (r: Io)
      requires data != []
      modifies this
      ensures r.Chunk? ==> 0 < r.n <= |data| && wire == old(wire) + data[..r.n]
      ensures !r.Chunk? ==> wire == old(wire)
      ensures if old(script) == [] then r == Fail && script == []
              else
                && script == old(script)[1..]
                && (r.Chunk? <==> old(script)[0].Chunk?) && (r.Fail? <==> old(script)[0].Fail?)
    {
      if script == [] {
        return Fail;
      }
      r := script[0];
      script := script[1..];
      if r.Chunk? {
        r := Chunk(Moved(r.n, |data|));
        wire := wire + data[..r.n];
      }
    }

    /** The loop around `send`: a would-block is tried again, anything else not positive gives up. */
    method SendAll(data: seq<byte>) returns (sent: nat)
      modifies this
      ensures sent <= |data| && wire == old(wire) + data[..sent]
      ensures ChunksBeforeFail(old(script)) >= |data| ==> sent == |data|
      ensures sent == |data| ==> ChunksBeforeFail(script) + |data| >= ChunksBeforeFail(old(script))
    {
      sent := 0;
      while sent < |data|
        invariant sent <= |data| && wire == old(wire) + data[..sent]
        invariant ChunksBeforeFail(script) + sent >= ChunksBeforeFail(old(script))
        decreases |script|, |data| - sent
      {
        var r := Send(data[sent..]);
        if r.Fail? {
          return;
        }
        if r.Chunk? {
          assert data[..sent] + data[sent..][..r.n] == data[..sent + r.n];
          sent := sent + r.n;
        }
      }
    }
  }

  /** The receiving end of a connection; `incoming` is everything the peer still has to deliver. */
  class Source {
    var incoming: seq<byte>
    var script: seq<Io>

    constructor (incoming: seq<byte>, script: seq<Io>)
      ensures this.incoming == incoming && this.script == script
    {
      this.incoming, this.script := incoming, script;
    }

    method Recv(room: nat) returns (r: Io, data: seq<byte>)
      requires room > 0
      modifies this
      ensures old(incoming) == data + incoming
      ensures if r.Chunk? then |data| == r.n <= room && (r.n == 0 <==> old(incoming) == []) else data == []
      ensures if old(script) == [] then r == Fail && script == []
              else
                && script == old(script)[1..]
                && (r.Chunk? <==> old(script)[0].Chunk?) && (r.Fail? <==> old(script)[0].Fail?)
                && (r.Chunk? ==> r.n == Moved(old(script)[0].n, Min(room, |old(incoming)|)))
    {
      data := [];
      if script == [] {
        return Fail, [];
      }
      r := script[0];
      script := script[1..];
      if r.Chunk? {
        r := Chunk(Moved(r.n, Min(room, |incoming|)));
        data, incoming := incoming[..r.n], incoming[r.n..];
      }
    }

    /** `recv_all`: a would-block is tried again, a close or an error gives up. */
    method RecvAll(len: nat) returns (data: seq<byte>)
      modifies this
      ensures old(incoming) == data + incoming && |data| <= len
      ensures |old(incoming)| >= len && ChunksBeforeFail(old(script)) >= len ==> |data| == len
      ensures |data| == len ==> ChunksBeforeFail(script) + len >= ChunksBeforeFail(old(script))
    {
      data := [];
      while |data| < len
        invariant old(incoming) == data + incoming && |data| <= len
        invariant ChunksBeforeFail(script) + |data| >= ChunksBeforeFail(old(script))
        decreases |script|
      {
        var r, more := Recv(len - |data|);
        if r.Fail? || r == Chunk(0) {
          return;
        }
        data := data + more;
      }
    }

    /** The loop inside the message receivers: any call that moves nothing gives up; `failed` tells an error apart. */
    method RecvStrict(len: nat) returns (data: seq<byte>, failed: bool)
      modifies this
      ensures var f := Filled(old(script), |old(incoming)|, len);
              && data == old(incoming)[..f.taken] && incoming == old(incoming)[f.taken..] && script == f.rest
              && failed == (f.stop == Some(Fail))
    {
      data, failed := [], false;
      ghost var f := Filled(script, |incoming|, len);
      while |data| < len
        invariant |data| <= len && old(incoming) == data + incoming
        invariant var g := Filled(script, |incoming|, len - |data|);
                  f.stop == g.stop && f.rest == g.rest && f.taken == |data| + g.taken
        decreases len - |data|
      {
        var r, more := Recv(len - |data|);
        if !r.Chunk? || r.n == 0 {
          failed := r.Fail?;
          return;
        }
        data := data + more;
      }
    }
  }
}
