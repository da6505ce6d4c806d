/** Writing to a tunnel (choosh-android-transport/src/lib.rs): large writes are split into frames
    that just fit the wire bound, and what the other end reassembles is the original bytes. */
module TunnelWrite {
  import opened Sequences
  import opened Text
  import opened Wrappers
  import opened Utf8
  import opened Framing

  const MAX_TUNNEL_FRAME_BYTES: nat := 256 * 1024
  const TUNNEL_ID_BYTES: nat := 8
  const FRAME_CLASS_TUNNEL: byte := 2
  const MAX_TUNNEL_WRITE_CHUNK_BYTES: nat := MAX_TUNNEL_FRAME_BYTES - (1 + TUNNEL_ID_BYTES)

  type TunnelId = id: seq<byte> | |id| == TUNNEL_ID_BYTES witness [0, 0, 0, 0, 0, 0, 0, 0]

  /** The body `send_tunnel` puts into one frame. */
  function EncodeTunnelFrame(id: TunnelId, payload: seq<byte>): seq<byte> {
    [FRAME_CLASS_TUNNEL] + id + payload
  }

  function DecodeTunnelFrame(frame: seq<byte>): Option<(TunnelId, seq<byte>)> {
    if |frame| < 1 + TUNNEL_ID_BYTES || frame[0] != FRAME_CLASS_TUNNEL then None
    else Some((frame[1..1 + TUNNEL_ID_BYTES], frame[1 + TUNNEL_ID_BYTES..]))
  }

  /** `slice::chunks`. */
  function Chunks(bytes: seq<byte>, n: nat): seq<seq<byte>>
    requires n > 0
    decreases |bytes|
  {
    if bytes == [] then []
    else if |bytes| <= n then [bytes]
    else [bytes[..n]] + Chunks(bytes[n..], n)
  }

  /** The payloads one `write` sends: the single-frame path also carries the empty close signal. */
  function Payloads(bytes: seq<byte>): seq<seq<byte>> {
    if |bytes| <= MAX_TUNNEL_WRITE_CHUNK_BYTES then [bytes] else Chunks(bytes, MAX_TUNNEL_WRITE_CHUNK_BYTES)
  }

  datatype Command = SendTunnelBytes(id: TunnelId, payload: seq<byte>)

  function Commands(id: TunnelId, payloads: seq<seq<byte>>): (r: seq<Command>)
    ensures |r| == |payloads| && forall i :: 0 <= i < |r| ==> r[i] == SendTunnelBytes(id, payloads[i])
  {
    seq(|payloads|, i requires 0 <= i < |payloads| => SendTunnelBytes(id, payloads[i]))
  }

  /** How many of `n` sends succeed when the channel closes after `life` of them. */
  function Accepted(life: Option<nat>, n: nat): nat {
    if life.Some? then Least(life.value, n) else n
  }

  function Remaining(life: Option<nat>, n: nat): Option<nat> {
    if life.None? then None else Some(life.value - Least(life.value, n))
  }

  /** The unbounded command channel into the I/O task, which may end, and close it, between any two
      sends: `life` is how many more sends it lives to see. */
  class CommandChannel {
    var queue: seq<Command>
    var life: Option<nat>

    constructor (life: Option<nat>)
      ensures queue == [] && this.life == life
    {
      queue, this.life := [], life;
    }

    method Send(c: Command) returns (ok: bool)
      modifies this
      ensures ok == (Accepted(old(life), 1) == 1)
      ensures queue == (if ok then old(queue) + [c] else old(queue)) && life == Remaining(old(life), 1)
    {
      ok := life != Some(0);
      if ok {
        queue := queue + [c];
        if life.Some? {
          life := Some(life.value - 1);
        }
      }
    }
  }

  class PtyTunnelHandle {
    const id: TunnelId
    const commands: CommandChannel

    constructor (id: TunnelId, commands: CommandChannel)
      ensures this.id == id && this.commands == commands
    {
      this.id, this.commands := id, commands;
    }

    method Write(bytes: seq<byte>) returns (ok: bool)
      modifies commands
      ensures var all := Payloads(bytes);
              var n := Accepted(old(commands.life), |all|);
              && ok == (n == |all|)
              && commands.queue == old(commands.queue) + Commands(id, all[..n])
              && commands.life == Remaining(old(commands.life), |all|)
    {
      if |bytes| <= MAX_TUNNEL_WRITE_CHUNK_BYTES {
        OnePayload(id, bytes);
        ok := commands.Send(SendTunnelBytes(id, bytes));
        return;
      }
      var i := 0;
      ghost var sent: seq<seq<byte>> := [];
      ghost var queued, life := commands.queue, commands.life;
      NothingSent(queued, id, bytes, Chunks(bytes, MAX_TUNNEL_WRITE_CHUNK_BYTES));
      while i < |bytes|
        invariant 0 <= i <= |bytes|
        invariant Payloads(bytes) == sent + Chunks(bytes[i..], MAX_TUNNEL_WRITE_CHUNK_BYTES)
        invariant commands.queue == queued + Commands(id, sent)
        invariant Accepted(life, |sent|) == |sent| && commands.life == Remaining(life, |sent|)
        decreases |bytes| - i
      {
        var end := Least(i + MAX_TUNNEL_WRITE_CHUNK_BYTES, |bytes|);
        var chunk := bytes[i..end];
        ChunksStep(bytes, i, MAX_TUNNEL_WRITE_CHUNK_BYTES);
        AppendChunk(queued, id, sent, chunk, Chunks(bytes[end..], MAX_TUNNEL_WRITE_CHUNK_BYTES));
        ok := commands.Send(SendTunnelBytes(id, chunk));
        if !ok {
          return;
        }
        sent := sent + [chunk];
        i := end;
      }
      AllSent(bytes, sent);
      ok := true;
    }
  }

  lemma OnePayload(id: TunnelId, bytes: seq<byte>)
    ensures Commands(id, [bytes]) == [SendTunnelBytes(id, bytes)] && Commands(id, []) == []
    ensures [bytes][..1] == [bytes] && [bytes][..0] == []
  {
  }

  lemma NothingSent(queue: seq<Command>, id: TunnelId, bytes: seq<byte>, chunks: seq<seq<byte>>)
    ensures queue + Commands(id, []) == queue && [] + chunks == chunks && bytes[0..] == bytes
  {
  }

  lemma AllSent(bytes: seq<byte>, sent: seq<seq<byte>>)
    ensures sent + Chunks(bytes[|bytes|..], MAX_TUNNEL_WRITE_CHUNK_BYTES) == sent && sent[..|sent|] == sent
  {
  }

  lemma AppendChunk(queued: seq<Command>, id: TunnelId, sent: seq<seq<byte>>, chunk: seq<byte>, rest: seq<seq<byte>>)
    ensures sent + ([chunk] + rest) == (sent + [chunk]) + rest
    ensures queued + Commands(id, sent + [chunk]) == queued + Commands(id, sent) + [SendTunnelBytes(id, chunk)]
  {
    assert Commands(id, sent + [chunk]) == Commands(id, sent) + [SendTunnelBytes(id, chunk)];
  }

  lemma ChunksStep(bytes: seq<byte>, i: nat, n: nat)
    requires n > 0 && i < |bytes|
    ensures var end := Least(i + n, |bytes|);
            Chunks(bytes[i..], n) == [bytes[i..end]] + Chunks(bytes[end..], n)
  {
    if |bytes| - i > n {
      assert bytes[i..][..n] == bytes[i..i + n];
      assert bytes[i..][n..] == bytes[i + n..];
    } else {
      assert bytes[i..|bytes|] == bytes[i..];
    }
  }

  lemma {:induction false} ChunksExact(bytes: seq<byte>, n: nat)
    requires n > 0
    ensures Flatten(Chunks(bytes, n)) == bytes
    ensures forall c :: c in Chunks(bytes, n) ==> 0 < |c| <= n
    decreases |bytes|
  {
    if |bytes| > n {
      ChunksExact(bytes[n..], n);
      assert bytes == bytes[..n] + bytes[n..];
    } else if bytes != [] {
      assert Flatten([bytes]) == bytes + Flatten<byte>([]);
    }
  }

  lemma {:induction false} ChunksAreFull(bytes: seq<byte>, n: nat)
    requires n > 0
    ensures forall i :: 0 <= i < |Chunks(bytes, n)| - 1 ==> |Chunks(bytes, n)[i]| == n
    decreases |bytes|
  {
    if |bytes| > n {
      ChunksAreFull(bytes[n..], n);
    }
  }

  function Bodies(id: TunnelId, payloads: seq<seq<byte>>): (r: seq<seq<byte>>)
    ensures |r| == |payloads| && forall i :: 0 <= i < |r| ==> r[i] == EncodeTunnelFrame(id, payloads[i])
  {
    seq(|payloads|, i requires 0 <= i < |payloads| => EncodeTunnelFrame(id, payloads[i]))
  }

  /** Split write round trip: for non-empty bytes, no payload is the close signal, every body fits the
      frame bound (so `encode_frame` accepts it), decoding gives back id and payload, the payloads
      concatenate to the bytes written, and all but the last are as long as may be. */
  lemma SplitWrite(id: TunnelId, bytes: seq<byte>)
    requires bytes != []
    ensures Flatten(Payloads(bytes)) == bytes
    ensures forall p :: p in Payloads(bytes) ==>
              && p != [] && 1 + TUNNEL_ID_BYTES + |p| <= MAX_TUNNEL_FRAME_BYTES
              && EncodeFrame(EncodeTunnelFrame(id, p), MAX_TUNNEL_FRAME_BYTES).Ok?
              && DecodeTunnelFrame(EncodeTunnelFrame(id, p)) == Some((id, p))
              && EncodeTunnelFrame(id, p)[0] == 2 && EncodeTunnelFrame(id, p)[1..9] == id
    ensures forall i :: 0 <= i < |Payloads(bytes)| - 1 ==> |Payloads(bytes)[i]| == 256 * 1024 - 9
  {
    ChunksExact(bytes, MAX_TUNNEL_WRITE_CHUNK_BYTES);
    if |bytes| <= MAX_TUNNEL_WRITE_CHUNK_BYTES {
      assert Flatten([bytes]) == bytes + Flatten<byte>([]);
    }
    ChunksAreFull(bytes, MAX_TUNNEL_WRITE_CHUNK_BYTES);
    forall p | p in Payloads(bytes) ensures DecodeTunnelFrame(EncodeTunnelFrame(id, p)) == Some((id, p)) {
      var f := EncodeTunnelFrame(id, p);
      assert f[1..1 + TUNNEL_ID_BYTES] == id && f[1 + TUNNEL_ID_BYTES..] == p;
    }
  }

  /** A write that the channel's end cuts short has handed over a prefix of its bytes, and no close signal. */
  lemma CutWriteIsPrefix(bytes: seq<byte>, life: Option<nat>)
    requires bytes != []
    ensures var all := Payloads(bytes);
            var part := all[..Accepted(life, |all|)];
            && Flatten(part) <= bytes && [] !in part
            && (Flatten(part) == bytes <==> part == all)
  {
    var all := Payloads(bytes);
    var n := Accepted(life, |all|);
    SplitWrite([0, 0, 0, 0, 0, 0, 0, 0], bytes);
    assert all == all[..n] + all[n..];
    FlattenAppend(all[..n], all[n..]);
    if n < |all| {
      assert all[n..][0] == all[n] && all[n] in all;
      assert |Flatten(all[n..])| >= |all[n]| > 0;
    }
  }

  /** The bound is tight: a chunk one byte longer would be refused by the frame encoder. */
  lemma ChunkBoundIsTight(id: TunnelId, payload: seq<byte>)
    ensures EncodeFrame(EncodeTunnelFrame(id, payload), MAX_TUNNEL_FRAME_BYTES).Ok? <==>
              |payload| <= MAX_TUNNEL_WRITE_CHUNK_BYTES
  {
    assert |EncodeTunnelFrame(id, payload)| == 9 + |payload|;
  }

  function PayloadsOf(frames: seq<seq<byte>>, id: TunnelId): seq<seq<byte>> {
    if frames == [] then []
    else
      var d := DecodeTunnelFrame(frames[0]);
      (if d.Some? && d.value.0 == id then [d.value.1] else []) + PayloadsOf(frames[1..], id)
  }

  lemma {:induction false} PayloadsOfBodies(id: TunnelId, payloads: seq<seq<byte>>)
    ensures PayloadsOf(Bodies(id, payloads), id) == payloads
  {
    if payloads != [] {
      var f := EncodeTunnelFrame(id, payloads[0]);
      assert f[1..1 + TUNNEL_ID_BYTES] == id && f[1 + TUNNEL_ID_BYTES..] == payloads[0];
      assert Bodies(id, payloads)[1..] == Bodies(id, payloads[1..]);
      PayloadsOfBodies(id, payloads[1..]);
      assert [payloads[0]] + payloads[1..] == payloads;
    }
  }

  /** End to end over the wire: one write, split, encoded, sent as a byte stream that arrives in any
      fragments. If no fragment overflows the receiver's batch limit, the receiver's payloads for the
      tunnel concatenate to exactly the bytes written, and nothing is left in its buffer. */
  lemma WrittenBytesArrive(id: TunnelId, bytes: seq<byte>, parts: seq<seq<byte>>, limits: Limits)
    requires bytes != [] && limits.Valid() && limits.maxFrameBytes >= MAX_TUNNEL_FRAME_BYTES
    requires forall f :: f in Bodies(id, Payloads(bytes)) ==> |f| < U32
    requires Flatten(parts) == EncodeAll(Bodies(id, Payloads(bytes)))
    ensures var got := FeedAll([], parts, limits);
            if WithinBatch([], parts, limits) then
              got.Ok? && Flatten(PayloadsOf(got.value.0, id)) == bytes && got.value.1 == []
            else got == Err(BatchLimitExceeded)
  {
    var bodies := Bodies(id, Payloads(bytes));
    SplitWrite(id, bytes);
    forall f | f in bodies ensures 0 < |f| <= limits.maxFrameBytes {
      var i :| 0 <= i < |bodies| && bodies[i] == f;
      assert Payloads(bytes)[i] in Payloads(bytes);
    }
    ParseEncoded(bodies, limits.maxFrameBytes);
    assert [] + Flatten(parts) == Flatten(parts);
    AnyFragmentation([], parts, limits);
    PayloadsOfBodies(id, Payloads(bytes));
  }

  // ---- WebTunnelHandle: one chunk in flight ----

  /** A writer of a web tunnel: the chunks of its write, how many it has handed over, whether it is
      waiting for the last one's ack, and whether its write has returned an error. */
  datatype Writer = Writer(chunks: seq<seq<byte>>, next: nat, waiting: bool, failed: bool)

  datatype Queued = Queued(writer: nat, payload: seq<byte>)

  datatype WebState = WebState(writers: map<nat, Writer>, queue: seq<Queued>, wire: seq<Queued>, closed: bool)

  datatype WebStep = BeginWrite(w: nat, bytes: seq<byte>) | SendChunk(w: nat) | IoTaskSends | IoTaskEnds

  /** The ack a writer was waiting for is dropped with the command queue. */
  function AckDropped(wr: Writer): Writer {
    if wr.waiting then wr.(waiting := false, failed := true) else wr
  }

  function WebNext(s: WebState, step: WebStep): Option<WebState> {
    match step
    case BeginWrite(w, bytes) =>
      if w !in s.writers then Some(s.(writers := s.writers[w := Writer(Payloads(bytes), 0, false, false)])) else None
    case SendChunk(w) =>
      if w in s.writers && !s.writers[w].waiting && !s.writers[w].failed
          && s.writers[w].next < |s.writers[w].chunks| then
        var wr := s.writers[w];
        if s.closed then Some(s.(writers := s.writers[w := wr.(failed := true)]))
        else
          Some(s.(writers := s.writers[w := wr.(next := wr.next + 1, waiting := true)],
                  queue := s.queue + [Queued(w, wr.chunks[wr.next])]))
      else None
    case IoTaskSends =>
      // writes the frame, then fires the ack
      if s.queue == [] then None
      else
        var q := s.queue[0];
        var writers :=
          if q.writer in s.writers then s.writers[q.writer := s.writers[q.writer].(waiting := false)] else s.writers;
        Some(s.(writers := writers, queue := s.queue[1..], wire := s.wire + [q]))
    case IoTaskEnds =>
      // a send failed or the connection was lost: the queued commands are dropped with their acks
      if s.closed then None
      else Some(s.(writers := map w | w in s.writers :: AckDropped(s.writers[w]), queue := [], closed := true))
  }

  function WebRun(steps: seq<WebStep>): Option<WebState> {
    if steps == [] then Some(WebState(map[], [], [], false))
    else
      match WebRun(steps[..|steps| - 1])
      case None => None
      case Some(s) => WebNext(s, steps[|steps| - 1])
  }

  function Of(queue: seq<Queued>, w: nat): seq<seq<byte>> {
    if queue == [] then []
    else Of(queue[..|queue| - 1], w) + (if queue[|queue| - 1].writer == w then [queue[|queue| - 1].payload] else [])
  }

  lemma {:induction false} OfConcat(a: seq<Queued>, b: seq<Queued>, w: nat)
    ensures Of(a + b, w) == Of(a, w) + Of(b, w)
  {
    if b == [] {
      assert a + b == a;
    } else {
      assert (a + b)[..|a + b| - 1] == a + b[..|b| - 1];
      OfConcat(a, b[..|b| - 1], w);
    }
  }

  /** The writer has at most one chunk that is not acknowledged. Its chunks reach the wire in order,
      without loss or repetition; a failed write is short of at most the one that was in flight. */
  ghost predicate WriterOk(wr: Writer, sent: seq<seq<byte>>, queued: seq<seq<byte>>) {
    && wr.next <= |wr.chunks|
    && |queued| == (if wr.waiting then 1 else 0)
    && !(wr.failed && wr.waiting)
    && (!wr.failed ==> sent + queued == wr.chunks[..wr.next])
    && (wr.failed ==> sent == wr.chunks[..wr.next] || (wr.next > 0 && sent == wr.chunks[..wr.next - 1]))
  }

  ghost predicate OneInFlight(s: WebState, w: nat) {
    && (s.closed ==> s.queue == [])
    && if w in s.writers then WriterOk(s.writers[w], Of(s.wire, w), Of(s.queue, w))
       else Of(s.wire, w) == [] && Of(s.queue, w) == []
  }

  lemma HandedOver(wr: Writer, sent: seq<seq<byte>>, queued: seq<seq<byte>>)
    requires WriterOk(wr, sent, queued) && !wr.waiting && !wr.failed && wr.next < |wr.chunks|
    ensures WriterOk(wr.(next := wr.next + 1, waiting := true), sent, queued + [wr.chunks[wr.next]])
    ensures WriterOk(wr.(failed := true), sent, queued)
  {
    var chunk := wr.chunks[wr.next];
    TakeNext(wr.chunks, wr.next);
    Reassociate(sent, queued, [chunk]);
    assert queued == [] && sent + [] == sent;
  }

  lemma SendKeepsOneInFlight(s: WebState, v: nat, w: nat)
    requires OneInFlight(s, w) && WebNext(s, SendChunk(v)).Some?
    ensures OneInFlight(WebNext(s, SendChunk(v)).value, w)
  {
    var wr := s.writers[v];
    if v == w {
      HandedOver(wr, Of(s.wire, w), Of(s.queue, w));
    }
    OfAppend(s.queue, Queued(v, wr.chunks[wr.next]), w);
  }

  lemma OfAppend(queue: seq<Queued>, q: Queued, w: nat)
    ensures Of(queue + [q], w) == if q.writer == w then Of(queue, w) + [q.payload] else Of(queue, w)
  {
    OfConcat(queue, [q], w);
    OfSingle(q, w);
    assert Of(queue, w) + [] == Of(queue, w);
  }

  lemma IoTaskKeepsOneInFlight(s: WebState, w: nat)
    requires OneInFlight(s, w) && WebNext(s, IoTaskSends).Some?
    ensures OneInFlight(WebNext(s, IoTaskSends).value, w)
  {
    assert !s.closed;
    var q, rest := s.queue[0], s.queue[1..];
    assert s.queue == [q] + rest;
    OfConcat([q], rest, w);
    OfConcat(s.wire, [q], w);
    OfSingle(q, w);
    if q.writer == w {
      Acked(s.writers[w], Of(s.wire, w), q.payload, Of(rest, w));
    } else {
      assert [] + Of(rest, w) == Of(rest, w) && Of(s.wire, w) + [] == Of(s.wire, w);
    }
  }

  lemma Acked(wr: Writer, sent: seq<seq<byte>>, payload: seq<byte>, rest: seq<seq<byte>>)
    requires WriterOk(wr, sent, [payload] + rest)
    ensures WriterOk(wr.(waiting := false), sent + [payload], rest)
  {
    Reassociate(sent, [payload], rest);
  }

  lemma EndKeepsOneInFlight(s: WebState, w: nat)
    requires OneInFlight(s, w) && WebNext(s, IoTaskEnds).Some?
    ensures OneInFlight(WebNext(s, IoTaskEnds).value, w)
  {
    if w in s.writers {
      Dropped(s.writers[w], Of(s.wire, w), Of(s.queue, w));
    }
  }

  lemma Dropped(wr: Writer, sent: seq<seq<byte>>, queued: seq<seq<byte>>)
    requires WriterOk(wr, sent, queued)
    ensures WriterOk(AckDropped(wr), sent, [])
  {
    if wr.waiting {
      DropFront(sent, queued);
      assert wr.chunks[..wr.next][..wr.next - 1] == wr.chunks[..wr.next - 1];
    } else {
      assert queued == [];
    }
  }

  /** Backpressure: in every run, with any number of writers, failing sends and a connection that ends
      at any moment, each writer has at most one chunk that is not acknowledged, and its chunks reach
      the wire in order. */
  lemma {:induction false} AtMostOneUnacknowledged(steps: seq<WebStep>, w: nat)
    requires WebRun(steps).Some?
    ensures OneInFlight(WebRun(steps).value, w)
  {
    if steps != [] {
      AtMostOneUnacknowledged(steps[..|steps| - 1], w);
      var s := WebRun(steps[..|steps| - 1]).value;
      match steps[|steps| - 1]
      case BeginWrite(_, _) =>
      case SendChunk(v) => SendKeepsOneInFlight(s, v, w);
      case IoTaskSends => IoTaskKeepsOneInFlight(s, w);
      case IoTaskEnds => EndKeepsOneInFlight(s, w);
    }
  }

  /** A web write that has returned without an error has all its chunks on the wire. */
  lemma FinishedWriteIsSent(steps: seq<WebStep>, w: nat)
    requires WebRun(steps).Some? && w in WebRun(steps).value.writers
    requires var wr := WebRun(steps).value.writers[w]; !wr.failed && !wr.waiting && wr.next == |wr.chunks|
    ensures Of(WebRun(steps).value.wire, w) == WebRun(steps).value.writers[w].chunks
  {
    AtMostOneUnacknowledged(steps, w);
    var s := WebRun(steps).value;
    assert Of(s.queue, w) == [] && Of(s.wire, w) + [] == Of(s.wire, w);
    assert s.writers[w].chunks[..s.writers[w].next] == s.writers[w].chunks;
  }

  /** A write returns an error only when the connection has ended. */
  lemma {:induction false} OnlyTheEndFails(steps: seq<WebStep>, w: nat)
    requires WebRun(steps).Some? && w in WebRun(steps).value.writers && WebRun(steps).value.writers[w].failed
    ensures WebRun(steps).value.closed
  {
    var before := steps[..|steps| - 1];
    var s := WebRun(before).value;
    if w in s.writers && s.writers[w].failed {
      OnlyTheEndFails(before, w);
    }
  }

  /** Its write has not returned yet. */
  predicate Writing(wr: Writer) {
    !wr.failed && (wr.waiting || wr.next < |wr.chunks|)
  }

  /** No writer is ever stuck: it can hand over its next chunk, or the task has its chunk to send. */
  lemma WriterCanGoOn(steps: seq<WebStep>, w: nat)
    requires WebRun(steps).Some? && w in WebRun(steps).value.writers && Writing(WebRun(steps).value.writers[w])
    ensures var s := WebRun(steps).value;
            if s.writers[w].waiting then !s.closed && WebNext(s, IoTaskSends).Some? else WebNext(s, SendChunk(w)).Some?
  {
    AtMostOneUnacknowledged(steps, w);
    assert Of([], w) == [];
  }

  lemma WebStepMore(steps: seq<WebStep>, step: WebStep)
    requires WebRun(steps).Some?
    ensures WebRun(steps + [step]) == WebNext(WebRun(steps).value, step)
  {
    assert (steps + [step])[..|steps|] == steps;
  }

  /** And while the connection lives a write can be run to its end, from any state of any run, whatever else
      is queued: every chunk is then on the wire. */
  lemma {:induction false} WriteCompletes(steps: seq<WebStep>, w: nat) returns (more: seq<WebStep>)
    requires WebRun(steps).Some? && !WebRun(steps).value.closed && w in WebRun(steps).value.writers
    ensures WebRun(steps + more).Some?
    ensures var s, s' := WebRun(steps).value, WebRun(steps + more).value;
            && w in s'.writers && !Writing(s'.writers[w]) && !s'.writers[w].failed
            && Of(s'.wire, w) == s.writers[w].chunks
    decreases |WebRun(steps).value.writers[w].chunks| - WebRun(steps).value.writers[w].next,
              |WebRun(steps).value.queue|
  {
    var s := WebRun(steps).value;
    AtMostOneUnacknowledged(steps, w);
    if s.writers[w].failed { OnlyTheEndFails(steps, w); }
    if Writing(s.writers[w]) {
      WriterCanGoOn(steps, w);
      var step := if s.writers[w].waiting then IoTaskSends else SendChunk(w);
      WebStepMore(steps, step);
      var rest := WriteCompletes(steps + [step], w);
      more := [step] + rest;
      assert steps + more == steps + [step] + rest;
    } else {
      more := [];
      assert steps + more == steps;
      FinishedWriteIsSent(steps, w);
    }
  }

  lemma OfSingle(q: Queued, w: nat)
    ensures Of([q], w) == if q.writer == w then [q.payload] else []
  {
    assert [q][..0] == [];
  }
}
