/** The phone's I/O task (choosh-android-transport/src/lib.rs, `run_io_task` and its handlers): one
    task owns the socket, matches control responses to waiting requests, and routes tunnel frames
    to bounded per-tunnel channels.

    A channel is numbered by its registration. `arrived`, `sent`, `wire` and `answers` are the history
    of tunnel frames that came in, of requests handed to the socket, of frames the socket took, and
    of replies given to waiters; the handlers only add to them. */
module TunnelMux {
  import opened Wrappers
  import opened Utf8
  import opened TunnelWrite

  const AGENT_EVENT_CHANNEL_CAPACITY: nat := 256

  type RequestId = string

  datatype Response =
    | OpenTunnelOk(id: RequestId, tunnel: Option<TunnelId>)  // None: the hex id does not decode
    | ErrorResponse(id: RequestId, code: string, message: string)
    | OtherResponse(id: RequestId, body: string)

  datatype Control = Responded(response: Response) | AgentEvent(push: string) | Unrecognized

  datatype IoCommand =
    | SendControl(id: RequestId)
    | OpenTunnel(id: RequestId, capacity: nat)
    | SendTunnelBytes(tunnel: TunnelId, payload: seq<byte>, ack: Option<nat>)
    | CloseTunnel(tunnel: TunnelId)

  datatype PendingReply = ControlReply | OpenTunnelReply(capacity: nat)

  datatype Answer =
    | Verbatim(response: Response)
    | Opened(tunnel: TunnelId, channel: nat)
    | UnexpectedResponse
    | ServerError(code: string, message: string)

  /** An mpsc channel and both its ends: what is queued, and what the reader has taken. `since` is
      how many tunnel frames had arrived when it was registered. */
  datatype Channel = Channel(tunnel: TunnelId, capacity: nat, since: nat, queue: seq<seq<byte>>,
                             received: seq<seq<byte>>, readerAlive: bool)

  datatype Frame = Frame(tunnel: TunnelId, payload: seq<byte>)

  /** What the task has put on the connection. */
  datatype Outgoing = Request(id: RequestId) | Bytes(frame: Frame)

  /** What a waiter is told, with the request it had asked and the response that settled it. */
  datatype Reply = Reply(waiter: RequestId, asked: PendingReply, response: Response, answer: Answer)

  datatype MuxState = MuxState(
    pending: map<RequestId, PendingReply>,
    tunnels: map<TunnelId, nat>,
    channels: seq<Channel>,
    agentEvents: seq<string>,
    ended: bool,
    arrived: seq<Frame>,
    sent: map<RequestId, PendingReply>,
    wire: seq<Outgoing>,
    answers: seq<Reply>,
    acked: seq<nat>)

  const START := MuxState(map[], map[], [], [], false, [], map[], [], [], [])

  // ---- what each handler does ----

  /** The task returns: its maps, and with them every sender and every waiter, are dropped. */
  function End(s: MuxState): MuxState {
    s.(pending := map[], tunnels := map[], ended := true)
  }

  function Commanded(s: MuxState, c: IoCommand, sendOk: bool): MuxState {
    match c
    case SendControl(id) =>
      var s' := s.(pending := s.pending[id := ControlReply], sent := s.sent[id := ControlReply]);
      if sendOk then s'.(wire := s.wire + [Request(id)]) else End(s')
    case OpenTunnel(id, capacity) =>
      var asked := OpenTunnelReply(capacity);
      var s' := s.(pending := s.pending[id := asked], sent := s.sent[id := asked]);
      if sendOk then s'.(wire := s.wire + [Request(id)]) else End(s')
    case SendTunnelBytes(tunnel, payload, ack) =>
      if !sendOk then End(s)
      else
        var s' := s.(wire := s.wire + [Bytes(Frame(tunnel, payload))]);
        if ack.Some? then s'.(acked := s.acked + [ack.value]) else s'
    case CloseTunnel(tunnel) =>
      // best effort: a failed close does not end the task
      var s' := s.(tunnels := s.tunnels - {tunnel});
      if sendOk then s'.(wire := s.wire + [Bytes(Frame(tunnel, []))]) else s'
  }

  function ControlArrived(s: MuxState, c: Control): MuxState {
    match c
    case Unrecognized => s
    case AgentEvent(push) =>
      if |s.agentEvents| < AGENT_EVENT_CHANNEL_CAPACITY then s.(agentEvents := s.agentEvents + [push]) else s
    case Responded(r) =>
      if r.id !in s.pending then s
      else
        var rest := s.pending - {r.id};
        if s.pending[r.id].ControlReply? then
          s.(pending := rest, answers := s.answers + [Reply(r.id, s.pending[r.id], r, Verbatim(r))])
        else if r.OpenTunnelOk? && r.tunnel.Some? then
          var k := |s.channels|;
          s.(pending := rest,
             tunnels := s.tunnels[r.tunnel.value := k],
             channels := s.channels + [Channel(r.tunnel.value, s.pending[r.id].capacity, |s.arrived|, [], [], true)],
             answers := s.answers + [Reply(r.id, s.pending[r.id], r, Opened(r.tunnel.value, k))])
        else
          var answer := if r.ErrorResponse? then ServerError(r.code, r.message) else UnexpectedResponse;
          s.(pending := rest, answers := s.answers + [Reply(r.id, s.pending[r.id], r, answer)])
  }

  /** `try_send` succeeds while the reader lives and the channel is not full. */
  predicate Accepts(c: Channel) {
    c.readerAlive && |c.queue| < c.capacity
  }

  function TunnelArrived(s: MuxState, body: seq<byte>): MuxState {
    if |body| < TUNNEL_ID_BYTES then End(s)
    else
      var id: TunnelId, payload := body[..TUNNEL_ID_BYTES], body[TUNNEL_ID_BYTES..];
      var s' := s.(arrived := s.arrived + [Frame(id, payload)]);
      if id !in s.tunnels || s.tunnels[id] >= |s.channels| then s'
      else if payload == [] || !Accepts(s.channels[s.tunnels[id]]) then s'.(tunnels := s.tunnels - {id})
      else
        var k := s.tunnels[id];
        s'.(channels := s.channels[k := s.channels[k].(queue := s.channels[k].queue + [payload])])
  }

  datatype Event =
    | Command(command: IoCommand, sendOk: bool)
    | ControlFrame(control: Control)
    | TunnelFrame(body: seq<byte>)
    | OtherFrame
    | ConnectionLost // or the last handle is gone
    | ReaderTakes(channel: nat)
    | ReaderDrops(channel: nat)

  /** One event. Readers of channels may act at any time, also after the I/O task has ended. None when
      the event cannot happen; in particular request ids are never reused. */
  function Next(s: MuxState, e: Event): Option<MuxState> {
    match e
    case ReaderTakes(k) =>
      if k < |s.channels| && s.channels[k].readerAlive && s.channels[k].queue != [] then
        var c := s.channels[k];
        Some(s.(channels := s.channels[k := c.(queue := c.queue[1..], received := c.received + [c.queue[0]])]))
      else None
    case ReaderDrops(k) =>
      if k < |s.channels| then
        Some(s.(channels := s.channels[k := s.channels[k].(queue := [], readerAlive := false)]))
      else None
    case Command(c, sendOk) =>
      if s.ended || ((c.SendControl? || c.OpenTunnel?) && c.id in s.sent) then None else Some(Commanded(s, c, sendOk))
    case ControlFrame(c) => if s.ended then None else Some(ControlArrived(s, c))
    case TunnelFrame(body) => if s.ended then None else Some(TunnelArrived(s, body))
    case OtherFrame => if s.ended then None else Some(s)
    case ConnectionLost => if s.ended then None else Some(End(s))
  }

  function Run(events: seq<Event>): Option<MuxState> {
    if events == [] then Some(START)
    else
      match Run(events[..|events| - 1])
      case None => None
      case Some(s) => Next(s, events[|events| - 1])
  }

  // ---- the I/O task itself ----

  class IoTask {
    var pendingControl: map<RequestId, PendingReply>
    var tunnels: map<TunnelId, nat>
    var channels: seq<Channel>
    var agentEvents: seq<string>
    var ended: bool
    var answers: seq<Reply>
    var acked: seq<nat>
    /** History, so that a channel can say when it was registered. */
    var arrived: seq<Frame>
    ghost var sent: map<RequestId, PendingReply>
    /** The frames the socket took. */
    var wire: seq<Outgoing>

    ghost function State(): MuxState
      reads this
    {
      MuxState(pendingControl, tunnels, channels, agentEvents, ended, arrived, sent, wire, answers, acked)
    }

    /** Every registered sender belongs to a channel. */
    ghost predicate Valid()
      reads this
    {
      forall id :: id in tunnels ==> tunnels[id] < |channels|
    }

    constructor ()
      ensures Valid() && State() == START
    {
      pendingControl, tunnels, channels, agentEvents := map[], map[], [], [];
      ended, answers, acked, arrived, sent, wire := false, [], [], [], map[], [];
    }

    /** The socket takes a frame, or fails. */
    method Send(frame: Outgoing, sendOk: bool) returns (ok: bool)
      modifies this`wire
      ensures ok == sendOk && wire == if ok then old(wire) + [frame] else old(wire)
    {
      if sendOk {
        wire := wire + [frame];
      }
      ok := sendOk;
    }

    method HandleCommand(command: IoCommand, sendOk: bool) returns (ok: bool)
      requires Valid() && !ended
      modifies this
      ensures Valid()
      ensures (if ok then State() else End(State())) == Commanded(old(State()), command, sendOk)
    {
      match command {
        case SendControl(id) =>
          pendingControl := pendingControl[id := ControlReply];
          sent := sent[id := ControlReply];
          ok := Send(Request(id), sendOk);
        case OpenTunnel(id, capacity) =>
          pendingControl := pendingControl[id := OpenTunnelReply(capacity)];
          sent := sent[id := OpenTunnelReply(capacity)];
          ok := Send(Request(id), sendOk);
        case SendTunnelBytes(tunnel, payload, ack) =>
          ok := Send(Bytes(Frame(tunnel, payload)), sendOk);
          if ok && ack.Some? {
            acked := acked + [ack.value];
          }
        case CloseTunnel(tunnel) =>
          tunnels := tunnels - {tunnel};
          var best := Send(Bytes(Frame(tunnel, [])), sendOk);
          ok := true;
      }
    }

    method HandleControlFrame(control: Control)
      requires Valid() && !ended
      modifies this
      ensures Valid()
      ensures State() == ControlArrived(old(State()), control)
    {
      match control {
        case Unrecognized =>
        case AgentEvent(push) =>
          if |agentEvents| < AGENT_EVENT_CHANNEL_CAPACITY {
            agentEvents := agentEvents + [push];
          }
        case Responded(response) =>
          if response.id !in pendingControl {
            return;
          }
          var pending := pendingControl[response.id];
          pendingControl := pendingControl - {response.id};
          var answer;
          if pending.ControlReply? {
            answer := Verbatim(response);
          } else {
            match response {
              case OpenTunnelOk(_, tunnel) =>
                if tunnel.Some? {
                  channels := channels + [Channel(tunnel.value, pending.capacity, |arrived|, [], [], true)];
                  tunnels := tunnels[tunnel.value := |channels| - 1];
                  answer := Opened(tunnel.value, |channels| - 1);
                } else {
                  answer := UnexpectedResponse;
                }
              case ErrorResponse(_, code, message) =>
                answer := ServerError(code, message);
              case OtherResponse(_, _) =>
                answer := UnexpectedResponse;
            }
          }
          answers := answers + [Reply(response.id, pending, response, answer)];
      }
    }

    method HandleTunnelFrame(body: seq<byte>) returns (ok: bool)
      requires Valid() && !ended
      modifies this
      ensures Valid()
      ensures (if ok then State() else End(State())) == TunnelArrived(old(State()), body)
    {
      if |body| < TUNNEL_ID_BYTES {
        return false;
      }
      var id: TunnelId, payload := body[..TUNNEL_ID_BYTES], body[TUNNEL_ID_BYTES..];
      arrived := arrived + [Frame(id, payload)];
      ok := true;
      if |payload| == 0 {
        tunnels := tunnels - {id};
        return;
      }
      if id in tunnels {
        var k := tunnels[id];
        if Accepts(channels[k]) {
          channels := channels[k := channels[k].(queue := channels[k].queue + [payload])];
        } else {
          tunnels := tunnels - {id};
        }
      }
    }

    /** The other end of a channel: its reader takes the next chunk. */
    method Receive(k: nat) returns (chunk: seq<byte>)
      requires Valid() && Next(State(), ReaderTakes(k)).Some?
      modifies this
      ensures Valid() && chunk == old(channels)[k].queue[0]
      ensures Some(State()) == Next(old(State()), ReaderTakes(k))
    {
      var c := channels[k];
      chunk := c.queue[0];
      channels := channels[k := c.(queue := c.queue[1..], received := c.received + [chunk])];
    }

    /** A reader goes away, and what is queued for it with it. */
    method DropReader(k: nat)
      requires Valid() && Next(State(), ReaderDrops(k)).Some?
      modifies this
      ensures Valid() && Some(State()) == Next(old(State()), ReaderDrops(k))
    {
      channels := channels[k := channels[k].(queue := [], readerAlive := false)];
    }

    /** One turn of the loop. */
    method Handle(event: Event)
      requires Valid() && Next(State(), event).Some?
      modifies this
      ensures Valid() && Some(State()) == Next(old(State()), event)
    {
      var ok := true;
      match event {
        case Command(command, sendOk) => ok := HandleCommand(command, sendOk);
        case ControlFrame(control) => HandleControlFrame(control);
        case TunnelFrame(body) => ok := HandleTunnelFrame(body);
        case OtherFrame =>
        case ConnectionLost => ok := false;
        case ReaderTakes(k) =>
          var chunk := Receive(k);
        case ReaderDrops(k) => DropReader(k);
      }
      if !ok {
        pendingControl, tunnels, ended := map[], map[], true;
      }
    }

    /** `run_io_task`, driven by one interleaving of commands and frames with the readers' own steps. */
    method RunTask(events: seq<Event>)
      requires Valid() && State() == START && Run(events).Some?
      modifies this
      ensures State() == Run(events).value
    {
      var i := 0;
      RunPrefixes(events, 0);
      while i < |events|
        invariant 0 <= i <= |events| && Valid()
        invariant Run(events[..i]) == Some(State())
      {
        RunPrefixes(events, i + 1);
        assert events[..i + 1][..i] == events[..i];
        Handle(events[i]);
        i := i + 1;
      }
      assert events[..i] == events;
    }
  }

  lemma {:induction false} RunPrefixes(events: seq<Event>, k: nat)
    requires k <= |events| && Run(events).Some?
    ensures Run(events[..k]).Some?
    decreases |events|
  {
    if k < |events| {
      assert events[..|events| - 1][..k] == events[..k];
      RunPrefixes(events[..|events| - 1], k);
    } else {
      assert events[..k] == events;
    }
  }
}

/** What every run of the I/O task keeps. */
module TunnelMuxRuns {
  import opened Wrappers
  import opened Utf8
  import opened TunnelWrite
  import opened TunnelMux
  import opened Sequences

  /** The non-empty payloads for `id` among some arrived frames, in order. */
  function PayloadsFor(frames: seq<Frame>, id: TunnelId): seq<seq<byte>> {
    if frames == [] then []
    else
      var f := frames[|frames| - 1];
      PayloadsFor(frames[..|frames| - 1], id) + (if f.tunnel == id && f.payload != [] then [f.payload] else [])
  }

  function Delivered(c: Channel): seq<seq<byte>> {
    c.received + c.queue
  }

  function Due(s: MuxState, c: Channel): seq<seq<byte>>
    requires c.since <= |s.arrived|
  {
    PayloadsFor(s.arrived[c.since..], c.tunnel)
  }

  ghost predicate Registered(s: MuxState, k: nat) {
    exists id :: id in s.tunnels && s.tunnels[id] == k
  }

  ghost predicate ChannelOk(s: MuxState, k: nat)
    requires k < |s.channels|
  {
    var c := s.channels[k];
    && c.since <= |s.arrived|
    && |c.queue| <= c.capacity
    && Delivered(c) <= Due(s, c)
    && (Registered(s, k) && c.readerAlive ==> Delivered(c) == Due(s, c))
  }

  /** Every sender is that of a channel for its tunnel. */
  ghost predicate TunnelsOk(s: MuxState) {
    forall id :: id in s.tunnels ==> s.tunnels[id] < |s.channels| && s.channels[s.tunnels[id]].tunnel == id
  }

  ghost predicate DeliveryInv(s: MuxState) {
    && TunnelsOk(s)
    && forall k :: 0 <= k < |s.channels| ==> ChannelOk(s, k)
  }

  lemma DueGrows(s: MuxState, s': MuxState, c: Channel, f: Frame)
    requires c.since <= |s.arrived| && s'.arrived == s.arrived + [f]
    ensures Due(s', c) == Due(s, c) + (if f.tunnel == c.tunnel && f.payload != [] then [f.payload] else [])
  {
    assert s'.arrived[c.since..] == s.arrived[c.since..] + [f];
    assert (s.arrived[c.since..] + [f])[..|s.arrived[c.since..]|] == s.arrived[c.since..];
  }

  /** The payload is queued for its channel. */
  lemma FrameLands(s: MuxState, s': MuxState, k: nat, f: Frame)
    requires k < |s.channels| && |s'.channels| == |s.channels| && ChannelOk(s, k) && Registered(s, k)
    requires s'.arrived == s.arrived + [f]
    requires var c := s.channels[k];
             && f.tunnel == c.tunnel && f.payload != [] && Accepts(c)
             && s'.channels[k] == c.(queue := c.queue + [f.payload])
    ensures ChannelOk(s', k)
  {
    var c := s.channels[k];
    DueGrows(s, s', c, f);
    assert c.received + (c.queue + [f.payload]) == (c.received + c.queue) + [f.payload];
  }

  /** The frame leaves the channel alone: it is for another one, or the channel has no sender now. */
  lemma FrameMisses(s: MuxState, s': MuxState, k: nat, f: Frame)
    requires k < |s.channels| && |s'.channels| == |s.channels| && ChannelOk(s, k) && s'.channels[k] == s.channels[k]
    requires s'.arrived == s.arrived + [f]
    requires Registered(s', k) ==> Registered(s, k) && (f.tunnel != s.channels[k].tunnel || f.payload == [])
    ensures ChannelOk(s', k)
  {
    DueGrows(s, s', s.channels[k], f);
  }

  lemma TunnelFrameChannel(s: MuxState, body: seq<byte>, k: nat)
    requires DeliveryInv(s) && k < |s.channels| && |body| >= TUNNEL_ID_BYTES
    ensures |TunnelArrived(s, body).channels| == |s.channels| && ChannelOk(TunnelArrived(s, body), k)
  {
    var s' := TunnelArrived(s, body);
    var f := Frame(body[..TUNNEL_ID_BYTES], body[TUNNEL_ID_BYTES..]);
    assert ChannelOk(s, k);
    if f.tunnel in s.tunnels && s.tunnels[f.tunnel] == k && f.payload != [] && Accepts(s.channels[k]) {
      assert Registered(s, k);
      FrameLands(s, s', k, f);
    } else {
      FrameMisses(s, s', k, f);
    }
  }

  lemma TunnelFrameTunnels(s: MuxState, body: seq<byte>)
    requires DeliveryInv(s)
    ensures TunnelsOk(TunnelArrived(s, body))
  {
  }

  lemma TunnelFrameKeepsDelivery(s: MuxState, body: seq<byte>)
    requires DeliveryInv(s)
    ensures DeliveryInv(TunnelArrived(s, body))
  {
    TunnelFrameTunnels(s, body);
    var s' := TunnelArrived(s, body);
    forall k | 0 <= k < |s'.channels| ensures ChannelOk(s', k) {
      if |body| < TUNNEL_ID_BYTES {
        EndKeepsChannel(s, k);
      } else {
        TunnelFrameChannel(s, body, k);
      }
    }
  }

  lemma EndKeepsChannel(s: MuxState, k: nat)
    requires DeliveryInv(s) && k < |s.channels|
    ensures ChannelOk(End(s), k)
  {
    assert ChannelOk(s, k);
    QuietChannel(s, End(s), k);
  }

  /** Nothing new arrived, and no channel gained a sender. */
  lemma QuietChannel(s: MuxState, s': MuxState, k: nat)
    requires k < |s.channels| <= |s'.channels| && ChannelOk(s, k) && s'.arrived == s.arrived
    requires Registered(s', k) ==> Registered(s, k)
    requires var c, c' := s.channels[k], s'.channels[k];
             && c'.tunnel == c.tunnel && c'.since == c.since && c'.capacity == c.capacity && |c'.queue| <= |c.queue|
             && Delivered(c') <= Delivered(c) && (c'.readerAlive ==> c.readerAlive && Delivered(c') == Delivered(c))
    ensures ChannelOk(s', k)
  {
  }

  /** A channel that has just been registered. */
  lemma NewChannel(s: MuxState, k: nat)
    requires k < |s.channels|
    requires var c := s.channels[k]; c.since == |s.arrived| && c.queue == [] && c.received == []
    ensures ChannelOk(s, k)
  {
    assert s.arrived[|s.arrived|..] == [];
  }

  /** A response never gives a sender to an older channel. */
  lemma ControlSenders(s: MuxState, c: Control, k: nat)
    requires k < |s.channels| && Registered(ControlArrived(s, c), k)
    ensures Registered(s, k)
  {
    var s' := ControlArrived(s, c);
    var id :| id in s'.tunnels && s'.tunnels[id] == k;
    assert id in s.tunnels && s.tunnels[id] == k;
  }

  lemma ControlLeavesChannel(s: MuxState, c: Control, k: nat)
    requires k < |s.channels|
    ensures var s' := ControlArrived(s, c);
            && |s.channels| <= |s'.channels| && s'.channels[k] == s.channels[k] && s'.arrived == s.arrived
  {
  }

  lemma ControlAddsChannel(s: MuxState, c: Control, k: nat)
    requires |s.channels| <= k < |ControlArrived(s, c).channels|
    ensures var s' := ControlArrived(s, c);
            var ch := s'.channels[k];
            ch.since == |s'.arrived| && ch.queue == [] && ch.received == []
  {
  }

  lemma ControlChannel(s: MuxState, c: Control, k: nat)
    requires DeliveryInv(s) && k < |ControlArrived(s, c).channels|
    ensures ChannelOk(ControlArrived(s, c), k)
  {
    var s' := ControlArrived(s, c);
    if k < |s.channels| {
      assert ChannelOk(s, k);
      if Registered(s', k) { ControlSenders(s, c, k); }
      ControlLeavesChannel(s, c, k);
      QuietChannel(s, s', k);
    } else {
      ControlAddsChannel(s, c, k);
      NewChannel(s', k);
    }
  }

  lemma ControlTunnels(s: MuxState, c: Control)
    requires DeliveryInv(s)
    ensures TunnelsOk(ControlArrived(s, c))
  {
  }

  lemma ControlKeepsDelivery(s: MuxState, c: Control)
    requires DeliveryInv(s)
    ensures DeliveryInv(ControlArrived(s, c))
  {
    ControlTunnels(s, c);
    forall k | 0 <= k < |ControlArrived(s, c).channels| ensures ChannelOk(ControlArrived(s, c), k) {
      ControlChannel(s, c, k);
    }
  }

  /** A reader's step, or none, on one channel. */
  ghost predicate ReaderStep(c: Channel, c': Channel) {
    || c' == c
    || (c.queue != [] && c' == c.(queue := c.queue[1..], received := c.received + [c.queue[0]]))
    || c' == c.(queue := [], readerAlive := false)
  }

  lemma ReaderStepKeeps(c: Channel, c': Channel)
    requires ReaderStep(c, c')
    ensures c'.tunnel == c.tunnel && c'.since == c.since && c'.capacity == c.capacity && |c'.queue| <= |c.queue|
    ensures Delivered(c') <= Delivered(c) && (c'.readerAlive ==> c.readerAlive && Delivered(c') == Delivered(c))
  {
    if c.queue != [] && c' == c.(queue := c.queue[1..], received := c.received + [c.queue[0]]) {
      assert (c.received + [c.queue[0]]) + c.queue[1..] == c.received + c.queue;
    } else if c' != c {
      assert c.received + [] == c.received;
    }
  }

  lemma OtherEvent(s: MuxState, e: Event)
    requires Next(s, e).Some? && !e.TunnelFrame? && !e.ControlFrame?
    ensures var s' := Next(s, e).value;
            && s'.arrived == s.arrived && |s'.channels| == |s.channels|
            && (forall id :: id in s'.tunnels ==> id in s.tunnels && s'.tunnels[id] == s.tunnels[id])
            && (forall k :: 0 <= k < |s.channels| ==> ReaderStep(s.channels[k], s'.channels[k]))
  {
  }

  lemma OtherEventKeepsDelivery(s: MuxState, e: Event)
    requires DeliveryInv(s) && Next(s, e).Some? && !e.TunnelFrame? && !e.ControlFrame?
    ensures DeliveryInv(Next(s, e).value)
  {
    OtherEvent(s, e);
    FewerSenders(s, Next(s, e).value);
  }

  lemma FewerSenders(s: MuxState, s': MuxState)
    requires DeliveryInv(s) && s'.arrived == s.arrived && |s'.channels| == |s.channels|
    requires forall id :: id in s'.tunnels ==> id in s.tunnels && s'.tunnels[id] == s.tunnels[id]
    requires forall k :: 0 <= k < |s.channels| ==> ReaderStep(s.channels[k], s'.channels[k])
    ensures DeliveryInv(s')
  {
    forall k | 0 <= k < |s'.channels| ensures ChannelOk(s', k) && s'.channels[k].tunnel == s.channels[k].tunnel {
      assert ChannelOk(s, k);
      ReaderStepKeeps(s.channels[k], s'.channels[k]);
      QuietChannel(s, s', k);
    }
  }

  /** Prefix delivery: in every run, what a channel's reader has received followed by what is queued
      for it is a prefix of the non-empty payloads that arrived for its tunnel since it was
      registered (nothing from other tunnels, no hole), exactly all of them while it is registered
      and read; and the queue never exceeds the capacity. */
  lemma {:induction false} PrefixDelivery(events: seq<Event>)
    requires Run(events).Some?
    ensures DeliveryInv(Run(events).value)
  {
    if events != [] {
      PrefixDelivery(events[..|events| - 1]);
      var s, e := Run(events[..|events| - 1]).value, events[|events| - 1];
      match e
      case TunnelFrame(body) => TunnelFrameKeepsDelivery(s, body);
      case ControlFrame(c) => ControlKeepsDelivery(s, c);
      case _ => OtherEventKeepsDelivery(s, e);
    }
  }

  /** A stream that has ended stays ended: once a channel's sender is gone nothing is added to it,
      whatever happens later, so its reader sees the queued rest and then end-of-stream. */
  lemma {:induction false} EndedStreamStaysEnded(events: seq<Event>, n: nat, k: nat)
    requires n <= |events| && Run(events).Some? && Run(events[..n]).Some?
    requires k < |Run(events[..n]).value.channels| && !Registered(Run(events[..n]).value, k)
    ensures var early, late := Run(events[..n]).value, Run(events).value;
            && k < |late.channels| && !Registered(late, k)
            && Delivered(late.channels[k]) <= Delivered(early.channels[k])
            && early.channels[k].received <= late.channels[k].received
            && (late.channels[k].readerAlive ==> Delivered(late.channels[k]) == Delivered(early.channels[k]))
    decreases |events|
  {
    if n == |events| {
      assert events[..n] == events;
    } else {
      var before := events[..|events| - 1];
      assert before[..n] == events[..n];
      EndedStreamStaysEnded(before, n, k);
      UnregisteredStep(Run(before).value, events[|events| - 1], k);
    }
  }

  lemma UnregisteredStep(s: MuxState, e: Event, k: nat)
    requires Next(s, e).Some? && k < |s.channels| && !Registered(s, k)
    ensures var c, s' := s.channels[k], Next(s, e).value;
            && k < |s'.channels| && !Registered(s', k)
            && var c' := s'.channels[k];
            && Delivered(c') <= Delivered(c) && c.received <= c'.received
            && (c'.readerAlive ==> c.readerAlive && Delivered(c') == Delivered(c))
  {
    var c, s' := s.channels[k], Next(s, e).value;
    assert forall id :: id in s.tunnels ==> s.tunnels[id] != k;
    match e
    case ControlFrame(control) =>
      ControlLeavesChannel(s, control, k);
      if Registered(s', k) { ControlSenders(s, control, k); }
    case TunnelFrame(body) => NoSenderNoFrame(s, body, k);
    case _ =>
      OtherEvent(s, e);
      ReaderStepKeeps(c, s'.channels[k]);
  }

  lemma NoSenderNoFrame(s: MuxState, body: seq<byte>, k: nat)
    requires k < |s.channels| && forall id :: id in s.tunnels ==> s.tunnels[id] != k
    ensures var s' := TunnelArrived(s, body);
            |s'.channels| == |s.channels| && s'.channels[k] == s.channels[k] && !Registered(s', k)
  {
  }

  /** A payload for a registered tunnel whose channel is full or no longer read. */
  predicate Overflows(s: MuxState, e: Event) {
    && e.TunnelFrame? && |e.body| > TUNNEL_ID_BYTES && e.body[..TUNNEL_ID_BYTES] in s.tunnels
    && var k := s.tunnels[e.body[..TUNNEL_ID_BYTES]];
       k < |s.channels| && (|s.channels[k].queue| >= s.channels[k].capacity || !s.channels[k].readerAlive)
  }

  lemma OverflowStep(s: MuxState, e: Event, k: nat)
    requires DeliveryInv(s) && !s.ended && Overflows(s, e) && k == s.tunnels[e.body[..TUNNEL_ID_BYTES]]
    ensures Next(s, e).Some? && !Registered(Next(s, e).value, k) && Next(s, e).value.channels == s.channels
  {
  }

  /** Overflow: a frame that does not fit ends its stream for the rest of the run. The reader gets at
      most what was delivered before it, so the lost frame is never followed by a later one. */
  lemma OverflowEndsTheStream(events: seq<Event>, n: nat, k: nat)
    requires n < |events| && Run(events).Some? && Run(events[..n]).Some? && Run(events[..n + 1]).Some?
    requires Overflows(Run(events[..n]).value, events[n])
    requires k == Run(events[..n]).value.tunnels[events[n].body[..TUNNEL_ID_BYTES]]
    ensures var early, late := Run(events[..n]).value, Run(events).value;
            && k < |late.channels| && !Registered(late, k)
            && Delivered(late.channels[k]) <= Delivered(early.channels[k])
  {
    var s := Run(events[..n]).value;
    assert events[..n + 1][..n] == events[..n] && events[..n + 1][n] == events[n];
    PrefixDelivery(events[..n]);
    OverflowStep(s, events[n], k);
    EndedStreamStaysEnded(events, n + 1, k);
  }

  /** A channel keeps its tunnel and its registration point, and arrivals only accumulate. */
  lemma ChannelKept(s: MuxState, e: Event, k: nat)
    requires Next(s, e).Some? && k < |s.channels|
    ensures var s' := Next(s, e).value;
            && k < |s'.channels| && s.arrived <= s'.arrived
            && s'.channels[k].tunnel == s.channels[k].tunnel && s'.channels[k].since == s.channels[k].since
  {
  }

  lemma {:induction false} ChannelKeptInRun(events: seq<Event>, n: nat, k: nat)
    requires n <= |events| && Run(events).Some? && Run(events[..n]).Some? && k < |Run(events[..n]).value.channels|
    ensures var early, late := Run(events[..n]).value, Run(events).value;
            && k < |late.channels| && early.arrived <= late.arrived
            && late.channels[k].tunnel == early.channels[k].tunnel && late.channels[k].since == early.channels[k].since
    decreases |events|
  {
    if n == |events| {
      assert events[..n] == events;
    } else {
      var before := events[..|events| - 1];
      assert before[..n] == events[..n];
      ChannelKeptInRun(before, n, k);
      ChannelKept(Run(before).value, events[|events| - 1], k);
    }
  }

  /** The event answers an open-tunnel waiter with success. */
  ghost predicate Opens(s: MuxState, s': MuxState, tunnel: TunnelId, k: nat) {
    exists w, p, r :: s'.answers == s.answers + [Reply(w, p, r, Opened(tunnel, k))]
  }

  lemma OpensRegisters(s: MuxState, e: Event, tunnel: TunnelId, k: nat)
    requires Next(s, e).Some? && Opens(s, Next(s, e).value, tunnel, k)
    ensures var s' := Next(s, e).value;
            && tunnel in s'.tunnels && s'.tunnels[tunnel] == k < |s'.channels|
            && s'.channels[k].tunnel == tunnel && s'.channels[k].since == |s'.arrived|
  {
    var s' := Next(s, e).value;
    var w, p, r :| s'.answers == s.answers + [Reply(w, p, r, Opened(tunnel, k))];
    assert s'.answers[|s.answers|] == Reply(w, p, r, Opened(tunnel, k));
  }

  /** A waiter that is told its tunnel is open misses nothing: its channel is registered by then, and in
      every continuation of the run, while it stays registered and read, what it gets is exactly the
      non-empty payloads that arrive for the tunnel from that answer on. */
  lemma OpenedMissesNothing(events: seq<Event>, n: nat, tunnel: TunnelId, k: nat)
    requires n < |events| && Run(events).Some? && Run(events[..n]).Some? && Run(events[..n + 1]).Some?
    requires Opens(Run(events[..n]).value, Run(events[..n + 1]).value, tunnel, k)
    ensures var mid, late := Run(events[..n + 1]).value, Run(events).value;
            && Registered(mid, k)
            && k < |late.channels| && mid.arrived <= late.arrived
            && var c := late.channels[k];
            && Delivered(c) <= PayloadsFor(late.arrived[|mid.arrived|..], tunnel)
            && (Registered(late, k) && c.readerAlive
                ==> Delivered(c) == PayloadsFor(late.arrived[|mid.arrived|..], tunnel))
  {
    assert events[..n + 1][..n] == events[..n] && events[..n + 1][n] == events[n];
    OpensRegisters(Run(events[..n]).value, events[n], tunnel, k);
    ChannelKeptInRun(events, n + 1, k);
    PrefixDelivery(events);
    assert ChannelOk(Run(events).value, k);
  }

  // ---- requests and their answers ----

  ghost predicate AnsweredId(s: MuxState, id: RequestId) {
    exists i :: 0 <= i < |s.answers| && s.answers[i].waiter == id
  }

  /** What a waiting request is told, given the response that arrives for it. */
  ghost predicate RightAnswer(p: PendingReply, r: Response, a: Answer) {
    match p
    case ControlReply => a == Verbatim(r)
    case OpenTunnelReply(_) =>
      match r
      case OpenTunnelOk(_, Some(tunnel)) => a.Opened? && a.tunnel == tunnel
      case ErrorResponse(_, code, message) => a == ServerError(code, message)
      case _ => a == UnexpectedResponse
  }

  /** A waiter's answer is the right one for what it sent, and for the response with its id. */
  ghost predicate ReplyOk(s: MuxState, reply: Reply) {
    && reply.waiter in s.sent && reply.asked == s.sent[reply.waiter]
    && reply.response.id == reply.waiter
    && RightAnswer(reply.asked, reply.response, reply.answer)
  }

  ghost predicate MatchingInv(s: MuxState) {
    && (forall i, j :: 0 <= i < j < |s.answers| ==> s.answers[i].waiter != s.answers[j].waiter)
    && (forall i :: 0 <= i < |s.answers| ==> ReplyOk(s, s.answers[i]))
    && (forall id :: id in s.pending ==> id in s.sent && s.pending[id] == s.sent[id] && !AnsweredId(s, id))
    && (!s.ended ==> forall id :: id in s.sent && !AnsweredId(s, id) ==> id in s.pending)
  }

  lemma CommandKeepsMatching(s: MuxState, c: IoCommand, sendOk: bool)
    requires MatchingInv(s) && !s.ended && ((c.SendControl? || c.OpenTunnel?) ==> c.id !in s.sent)
    ensures MatchingInv(Commanded(s, c, sendOk))
  {
    if c.SendControl? || c.OpenTunnel? {
      var asked := if c.SendControl? then ControlReply else OpenTunnelReply(c.capacity);
      var s' := s.(pending := s.pending[c.id := asked], sent := s.sent[c.id := asked]);
      SentKeepsMatching(s, s', c.id, asked);
      SameRequests(s', Commanded(s, c, sendOk));
    } else {
      SameRequests(s, Commanded(s, c, sendOk));
    }
  }

  /** A new request is sent. */
  lemma SentKeepsMatching(s: MuxState, s': MuxState, id: RequestId, asked: PendingReply)
    requires MatchingInv(s) && !s.ended && id !in s.sent
    requires s' == s.(pending := s.pending[id := asked], sent := s.sent[id := asked])
    ensures MatchingInv(s')
  {
    assert !AnsweredId(s, id);
    forall other ensures AnsweredId(s', other) <==> AnsweredId(s, other) {
    }
    forall i | 0 <= i < |s'.answers| ensures ReplyOk(s', s'.answers[i]) {
      assert ReplyOk(s, s.answers[i]);
    }
  }

  /** One pending request is answered. */
  lemma AnswerKeepsMatching(s: MuxState, s': MuxState, reply: Reply)
    requires MatchingInv(s) && reply.waiter in s.pending && ReplyOk(s, reply)
    requires s'.sent == s.sent && s'.ended == s.ended
    requires s'.answers == s.answers + [reply] && s'.pending == s.pending - {reply.waiter}
    ensures MatchingInv(s')
  {
    assert !AnsweredId(s, reply.waiter);
    assert s'.answers[|s.answers|] == reply;
    assert AnsweredId(s', reply.waiter);
    forall id ensures AnsweredId(s', id) <==> AnsweredId(s, id) || id == reply.waiter {
      if AnsweredId(s, id) {
        var i :| 0 <= i < |s.answers| && s.answers[i].waiter == id;
        assert s'.answers[i].waiter == id;
      }
    }
  }

  /** A response is consumed by exactly the request it names. When that opens a tunnel, the channel is
      registered before the waiter can act: the very next frame for the tunnel lands in it. */
  lemma ResponseReachesItsWaiter(s: MuxState, r: Response, payload: seq<byte>)
    requires r.id in s.pending
    ensures var s' := ControlArrived(s, Responded(r));
            && s'.pending == s.pending - {r.id}
            && |s'.answers| == |s.answers| + 1 && s'.answers[..|s.answers|] == s.answers
            && var reply := s'.answers[|s.answers|];
            && reply.waiter == r.id && reply.response == r && RightAnswer(s.pending[r.id], r, reply.answer)
            && (reply.answer.Opened? && payload != [] && s.pending[r.id].capacity > 0 ==>
                 var k, s'' := reply.answer.channel, TunnelArrived(s', reply.answer.tunnel + payload);
                 && k == |s.channels| && s'.tunnels[reply.answer.tunnel] == k
                 && s''.channels[k].queue == [payload] && s''.channels[k].received == []
                 && s''.tunnels == s'.tunnels)
  {
    if s.pending[r.id].OpenTunnelReply? && r.OpenTunnelOk? && r.tunnel.Some? {
      var body := r.tunnel.value + payload;
      assert body[..TUNNEL_ID_BYTES] == r.tunnel.value && body[TUNNEL_ID_BYTES..] == payload;
      assert [] + [payload] == [payload];
    }
  }

  lemma ControlKeepsMatching(s: MuxState, c: Control)
    requires MatchingInv(s) && !s.ended
    ensures MatchingInv(ControlArrived(s, c))
  {
    var s' := ControlArrived(s, c);
    if c.Responded? && c.response.id in s.pending {
      ResponseReachesItsWaiter(s, c.response, []);
      AnswerKeepsMatching(s, s', s'.answers[|s.answers|]);
    } else {
      SameRequests(s, s');
    }
  }

  lemma SameRequests(s: MuxState, s': MuxState)
    requires MatchingInv(s)
    requires s'.answers == s.answers && s'.sent == s.sent
    requires if s'.ended then s'.pending == map[] || s'.pending == s.pending else s'.pending == s.pending && !s.ended
    ensures MatchingInv(s')
  {
    forall id ensures AnsweredId(s', id) <==> AnsweredId(s, id) {
    }
  }

  /** The request a command sends, and the kind of answer it waits for. */
  function Asks(e: Event): Option<(RequestId, PendingReply)> {
    match e
    case Command(SendControl(id), _) => Some((id, ControlReply))
    case Command(OpenTunnel(id, capacity), _) => Some((id, OpenTunnelReply(capacity)))
    case _ => None
  }

  /** What the run's commands have asked under an id. */
  function AskedBy(events: seq<Event>, id: RequestId): Option<PendingReply> {
    if events == [] then None
    else
      var last := Asks(events[|events| - 1]);
      if last.Some? && last.value.0 == id then Some(last.value.1) else AskedBy(events[..|events| - 1], id)
  }

  ghost predicate SentIsAsked(s: MuxState, events: seq<Event>) {
    forall id :: (if id in s.sent then Some(s.sent[id]) else None) == AskedBy(events, id)
  }

  lemma SentStep(s: MuxState, e: Event)
    requires Next(s, e).Some?
    ensures Next(s, e).value.sent == if Asks(e).Some? then s.sent[Asks(e).value.0 := Asks(e).value.1] else s.sent
  {
  }

  /** Request matching: in every run each waiter gets at most one answer, the right one for what its
      command asked, made from a response that carries its own id; and while the connection lives, the
      pending map is exactly the sent and unanswered requests. */
  lemma {:induction false} RequestsAreMatched(events: seq<Event>)
    requires Run(events).Some?
    ensures MatchingInv(Run(events).value) && SentIsAsked(Run(events).value, events)
  {
    if events != [] {
      RequestsAreMatched(events[..|events| - 1]);
      var s, e := Run(events[..|events| - 1]).value, events[|events| - 1];
      SentStep(s, e);
      match e
      case Command(c, sendOk) => CommandKeepsMatching(s, c, sendOk);
      case ControlFrame(c) => ControlKeepsMatching(s, c);
      case _ => SameRequests(s, Next(s, e).value);
    }
  }

  // ---- what goes out ----

  /** The payloads on the wire for one tunnel. */
  function SentFor(wire: seq<Outgoing>, tunnel: TunnelId): seq<seq<byte>> {
    if wire == [] then []
    else
      var last := wire[|wire| - 1];
      SentFor(wire[..|wire| - 1], tunnel)
      + if last.Bytes? && last.frame.tunnel == tunnel then [last.frame.payload] else []
  }

  /** The payload one event asks to send for a tunnel; a close asks for the empty one, if it works. */
  function AskedToSend(e: Event, tunnel: TunnelId): seq<seq<byte>> {
    match e
    case Command(SendTunnelBytes(t, payload, _), _) => if t == tunnel then [payload] else []
    case Command(CloseTunnel(t), ok) => if t == tunnel && ok then [[]] else []
    case _ => []
  }

  function AskedFor(events: seq<Event>, tunnel: TunnelId): seq<seq<byte>> {
    if events == [] then []
    else AskedFor(events[..|events| - 1], tunnel) + AskedToSend(events[|events| - 1], tunnel)
  }

  lemma SentForSnoc(wire: seq<Outgoing>, last: Outgoing, tunnel: TunnelId)
    ensures SentFor(wire + [last], tunnel)
         == SentFor(wire, tunnel) + if last.Bytes? && last.frame.tunnel == tunnel then [last.frame.payload] else []
  {
    assert (wire + [last])[..|wire|] == wire;
  }

  /** All but at most the last of what was asked for is on the wire, and all of it while the task runs. */
  ghost predicate SentInOrder(sent: seq<seq<byte>>, asked: seq<seq<byte>>, ended: bool) {
    && sent <= asked && |asked| <= |sent| + 1
    && (!ended ==> sent == asked)
  }

  lemma CommandSends(s: MuxState, c: IoCommand, sendOk: bool, tunnel: TunnelId, asked: seq<seq<byte>>)
    requires !s.ended && SentFor(s.wire, tunnel) == asked
    ensures var s' := Commanded(s, c, sendOk);
            SentInOrder(SentFor(s'.wire, tunnel), asked + AskedToSend(Command(c, sendOk), tunnel), s'.ended)
  {
    assert asked + [] == asked;
    CommandedWire(s, c, sendOk);
    if sendOk {
      SentForSnoc(s.wire, Sends(c), tunnel);
    }
  }

  /** What a command puts on the wire when its send works. */
  function Sends(c: IoCommand): Outgoing {
    match c
    case SendControl(id) => Request(id)
    case OpenTunnel(id, _) => Request(id)
    case SendTunnelBytes(t, payload, _) => Bytes(Frame(t, payload))
    case CloseTunnel(t) => Bytes(Frame(t, []))
  }

  lemma CommandedWire(s: MuxState, c: IoCommand, sendOk: bool)
    ensures var s' := Commanded(s, c, sendOk);
            && s'.wire == s.wire + (if sendOk then [Sends(c)] else [])
            && (sendOk || c.CloseTunnel? ==> s'.ended == s.ended)
  {
    assert s.wire + [] == s.wire;
  }

  lemma OnlyCommandsSend(s: MuxState, e: Event)
    requires Next(s, e).Some? && !e.Command?
    ensures var s' := Next(s, e).value; s'.wire == s.wire && (s.ended ==> s'.ended)
  {
  }

  /** In every run the frames on the wire for a tunnel are the payloads its commands asked for, in order
      and without a gap, a close being an empty one; only the payload whose send ended the task can be
      missing at the end. */
  lemma {:induction false} CommandsReachTheWire(events: seq<Event>, tunnel: TunnelId)
    requires Run(events).Some?
    ensures var s := Run(events).value; SentInOrder(SentFor(s.wire, tunnel), AskedFor(events, tunnel), s.ended)
  {
    if events != [] {
      var before, e := events[..|events| - 1], events[|events| - 1];
      CommandsReachTheWire(before, tunnel);
      var s, asked := Run(before).value, AskedFor(before, tunnel);
      if e.Command? {
        CommandSends(s, e.command, e.sendOk, tunnel, asked);
      } else {
        OnlyCommandsSend(s, e);
        assert asked + [] == asked;
      }
    }
  }

  /** The payloads of one write after the other. */
  function AllPayloads(writes: seq<seq<byte>>): seq<seq<byte>> {
    if writes == [] then [] else Payloads(writes[0]) + AllPayloads(writes[1..])
  }

  lemma {:induction false} PayloadsOfWrites(writes: seq<seq<byte>>)
    requires [] !in writes
    ensures Flatten(AllPayloads(writes)) == Flatten(writes) && [] !in AllPayloads(writes)
  {
    if writes != [] {
      assert writes[0] in writes && forall w :: w in writes[1..] ==> w in writes;
      PayloadsOfWrites(writes[1..]);
      SplitWrite([0, 0, 0, 0, 0, 0, 0, 0], writes[0]);
      FlattenAppend(Payloads(writes[0]), AllPayloads(writes[1..]));
    }
  }

  /** End to end from the handle: when a tunnel's commands are those of some non-empty writes and perhaps a
      close, its frames on the wire carry a prefix of the written bytes, all of them while the task
      runs, and the close signal is there at most once, at the end, and only if it was asked for. */
  lemma WritesReachTheWire(events: seq<Event>, tunnel: TunnelId, writes: seq<seq<byte>>, closed: bool)
    requires Run(events).Some? && [] !in writes
    requires AskedFor(events, tunnel) == WithClose(AllPayloads(writes), closed)
    ensures var s := Run(events).value;
            var frames := SentFor(s.wire, tunnel);
            && Flatten(frames) <= Flatten(writes)
            && (forall i :: 0 <= i < |frames| && frames[i] == [] ==> closed && i == |AllPayloads(writes)|)
            && (!s.ended ==> Flatten(frames) == Flatten(writes) && (closed <==> [] in frames))
  {
    CommandsReachTheWire(events, tunnel);
    PayloadsOfWrites(writes);
    var s := Run(events).value;
    FramesOfWrites(SentFor(s.wire, tunnel), AllPayloads(writes), closed);
  }

  function WithClose(payloads: seq<seq<byte>>, closed: bool): seq<seq<byte>> {
    if closed then payloads + [[]] else payloads
  }

  /** A front of some non-empty payloads with perhaps a close behind them. */
  lemma FramesOfWrites(frames: seq<seq<byte>>, payloads: seq<seq<byte>>, closed: bool)
    requires [] !in payloads && frames <= WithClose(payloads, closed)
    ensures Flatten(frames) <= Flatten(payloads)
    ensures forall i :: 0 <= i < |frames| && frames[i] == [] ==> closed && i == |payloads|
    ensures frames == WithClose(payloads, closed) ==>
              Flatten(frames) == Flatten(payloads) && (closed <==> [] in frames)
  {
    var asked := WithClose(payloads, closed);
    CloseAddsNothing(payloads);
    FrontOfFlatten(frames, asked);
    if closed { assert asked[|payloads|] == []; }
    forall i | 0 <= i < |frames| && frames[i] == [] ensures closed && i == |payloads| {
      assert frames[i] == asked[i];
      EmptyIsClose(payloads, closed, i);
    }
  }

  lemma EmptyIsClose(payloads: seq<seq<byte>>, closed: bool, i: nat)
    requires [] !in payloads && i < |WithClose(payloads, closed)| && WithClose(payloads, closed)[i] == []
    ensures closed && i == |payloads|
  {
  }

  lemma FrontOfFlatten<T>(a: seq<seq<T>>, b: seq<seq<T>>)
    requires a <= b
    ensures Flatten(a) <= Flatten(b)
  {
    assert b == a + b[|a|..];
    FlattenAppend(a, b[|a|..]);
  }

  lemma CloseAddsNothing(payloads: seq<seq<byte>>)
    ensures Flatten(payloads + [[]]) == Flatten(payloads)
  {
    FlattenAppend(payloads, [[]]);
    assert Flatten<byte>([[]]) == [] + Flatten<byte>([]);
  }
}
