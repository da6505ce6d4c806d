/** What ends a tunnel, a request and the I/O task itself, and what they are given before: the exact
    conditions, over every run. */
module TunnelLaws {
  import opened Wrappers
  import opened Utf8
  import opened TunnelWrite
  import opened TunnelMux
  import opened TunnelMuxRuns

  // ---- the task ----

  /** The connection is lost, a frame is malformed, or a send fails that is not a close. */
  predicate EndsTask(e: Event) {
    || e.ConnectionLost?
    || (e.Command? && !e.command.CloseTunnel? && !e.sendOk)
    || (e.TunnelFrame? && |e.body| < 8)
  }

  /** Exactly what ends the task. */
  lemma TaskEndsExactly(s: MuxState, e: Event)
    requires Next(s, e).Some?
    ensures Next(s, e).value.ended <==> s.ended || EndsTask(e)
  {
  }

  /** When it has ended nobody is left waiting: no request is pending and no tunnel has a sender. */
  lemma {:induction false} EndLeavesNobodyWaiting(events: seq<Event>)
    requires Run(events).Some? && Run(events).value.ended
    ensures Run(events).value.pending == map[] && Run(events).value.tunnels == map[]
  {
    if events != [] {
      var s := Run(events[..|events| - 1]).value;
      if s.ended {
        EndLeavesNobodyWaiting(events[..|events| - 1]);
      }
    }
  }

  // ---- tunnels ----

  /** The frame is the close signal for the tunnel, or one its channel cannot take. */
  predicate EndsStream(c: Channel, e: Event) {
    && e.TunnelFrame? && |e.body| >= 8 && e.body[..8] == c.tunnel
    && (|e.body| == 8 || |c.queue| >= c.capacity || !c.readerAlive)
  }

  /** The tunnel is opened once more, under the same id. */
  predicate ReplacesSender(s: MuxState, c: Channel, e: Event) {
    && e.ControlFrame? && e.control.Responded? && e.control.response.OpenTunnelOk?
    && var r := e.control.response;
       r.tunnel == Some(c.tunnel) && r.id in s.pending && s.pending[r.id].OpenTunnelReply?
  }

  /** Exactly what takes a channel's sender away: the end of the task, the local close, the close signal
      from the other end, a payload that does not fit or is no longer read, or another tunnel with its
      id. Everything else leaves the stream open. */
  lemma StreamEndsExactly(s: MuxState, e: Event, k: nat)
    requires TunnelsOk(s) && Next(s, e).Some? && k < |s.channels| && Registered(s, k)
    ensures var c := s.channels[k];
            !Registered(Next(s, e).value, k) <==>
              || EndsTask(e)
              || (e.Command? && e.command == CloseTunnel(c.tunnel))
              || EndsStream(c, e)
              || ReplacesSender(s, c, e)
  {
    var c, s' := s.channels[k], Next(s, e).value;
    var id :| id in s.tunnels && s.tunnels[id] == k;
    assert id == c.tunnel;
    if Registered(s', k) { SenderIsOwn(s, e, k); }
    match e
    case Command(command, _) => CommandSender(s, e, k);
    case ControlFrame(control) => ResponseSender(s, control, k);
    case TunnelFrame(body) => FrameSender(s, body, k);
    case _ =>
  }

  lemma SenderIsOwn(s: MuxState, e: Event, k: nat)
    requires TunnelsOk(s) && Next(s, e).Some? && k < |s.channels| && Registered(Next(s, e).value, k)
    ensures var s', t := Next(s, e).value, s.channels[k].tunnel; t in s'.tunnels && s'.tunnels[t] == k
  {
    var s' := Next(s, e).value;
    var id :| id in s'.tunnels && s'.tunnels[id] == k;
    assert id in s.tunnels && s.tunnels[id] == k;
  }

  lemma CommandSender(s: MuxState, e: Event, k: nat)
    requires TunnelsOk(s) && Next(s, e).Some? && e.Command? && k < |s.channels|
    requires var t := s.channels[k].tunnel; t in s.tunnels && s.tunnels[t] == k
    ensures var s', t := Next(s, e).value, s.channels[k].tunnel;
            t in s'.tunnels && s'.tunnels[t] == k <==> !EndsTask(e) && e.command != CloseTunnel(t)
  {
  }

  lemma ResponseSender(s: MuxState, control: Control, k: nat)
    requires TunnelsOk(s) && k < |s.channels|
    requires var t := s.channels[k].tunnel; t in s.tunnels && s.tunnels[t] == k
    ensures var s', t := ControlArrived(s, control), s.channels[k].tunnel;
            t in s'.tunnels && s'.tunnels[t] == k <==> !ReplacesSender(s, s.channels[k], ControlFrame(control))
  {
  }

  lemma FrameSender(s: MuxState, body: seq<byte>, k: nat)
    requires TunnelsOk(s) && k < |s.channels|
    requires var t := s.channels[k].tunnel; t in s.tunnels && s.tunnels[t] == k
    ensures var s', t, e := TunnelArrived(s, body), s.channels[k].tunnel, TunnelFrame(body);
            t in s'.tunnels && s'.tunnels[t] == k <==> !EndsTask(e) && !EndsStream(s.channels[k], e)
  {
  }

  /** The close signal of the other end: the stream ends for good behind what is queued, in whatever run
      goes on from there. */
  lemma CloseSignalEndsTheStream(events: seq<Event>, n: nat, k: nat)
    requires n < |events| && Run(events).Some? && Run(events[..n]).Some? && Run(events[..n + 1]).Some?
    requires k < |Run(events[..n]).value.channels|
    requires events[n].TunnelFrame? && events[n].body == Run(events[..n]).value.channels[k].tunnel
    ensures var early, late := Run(events[..n]).value, Run(events).value;
            && k < |late.channels| && !Registered(late, k)
            && Delivered(late.channels[k]) <= Delivered(early.channels[k])
            && (late.channels[k].readerAlive ==> Delivered(late.channels[k]) == Delivered(early.channels[k]))
  {
    var s, e := Run(events[..n]).value, events[n];
    assert events[..n + 1][..n] == events[..n] && events[..n + 1][n] == e;
    PrefixDelivery(events[..n]);
    if Registered(s, k) {
      StreamEndsExactly(s, e, k);
    } else {
      UnregisteredStep(s, e, k);
    }
    CloseChangesNoChannel(s, e.body);
    EndedStreamStaysEnded(events, n + 1, k);
  }

  lemma CloseChangesNoChannel(s: MuxState, body: seq<byte>)
    requires |body| == 8
    ensures TunnelArrived(s, body).channels == s.channels
  {
  }

  // ---- requests ----

  /** The ids of the requests on the wire, in order. */
  function RequestsOn(wire: seq<Outgoing>): seq<RequestId> {
    if wire == [] then []
    else
      var last := wire[|wire| - 1];
      RequestsOn(wire[..|wire| - 1]) + if last.Request? then [last.id] else []
  }

  /** The ids of the control requests and open-tunnel requests whose send works. */
  function RequestsSent(events: seq<Event>): seq<RequestId> {
    if events == [] then []
    else
      var e := events[|events| - 1];
      RequestsSent(events[..|events| - 1]) + if SendsRequest(e) then [e.command.id] else []
  }

  ghost predicate NoRepeats(ids: seq<RequestId>) {
    forall i, j :: 0 <= i < j < |ids| ==> ids[i] != ids[j]
  }

  lemma RequestsOnSnoc(wire: seq<Outgoing>, last: Outgoing)
    ensures RequestsOn(wire + [last]) == RequestsOn(wire) + if last.Request? then [last.id] else []
  {
    assert (wire + [last])[..|wire|] == wire;
  }

  /** The request a command puts on the wire. */
  predicate SendsRequest(e: Event) {
    e.Command? && (e.command.SendControl? || e.command.OpenTunnel?) && e.sendOk
  }

  lemma CommandRequests(s: MuxState, c: IoCommand)
    ensures RequestsOn(Commanded(s, c, true).wire)
         == RequestsOn(s.wire) + if c.SendControl? || c.OpenTunnel? then [c.id] else []
  {
    assert RequestsOn(s.wire) + [] == RequestsOn(s.wire);
    match c
    case SendControl(id) => RequestsOnSnoc(s.wire, Request(id));
    case OpenTunnel(id, _) => RequestsOnSnoc(s.wire, Request(id));
    case SendTunnelBytes(t, payload, _) => RequestsOnSnoc(s.wire, Bytes(Frame(t, payload)));
    case CloseTunnel(t) => RequestsOnSnoc(s.wire, Bytes(Frame(t, [])));
  }

  lemma RequestStep(s: MuxState, e: Event)
    requires Next(s, e).Some?
    ensures RequestsOn(Next(s, e).value.wire)
         == RequestsOn(s.wire) + if SendsRequest(e) then [e.command.id] else []
  {
    assert RequestsOn(s.wire) + [] == RequestsOn(s.wire);
    if e.Command? && e.sendOk {
      CommandRequests(s, e.command);
    } else if !e.Command? {
      OnlyCommandsSend(s, e);
    }
  }

  /** Requests reach the wire: in every run the request frames on it are those of the commands whose send
      worked, in their order, each once, and each is one the task knows to have been asked. */
  lemma {:induction false} RequestsReachTheWire(events: seq<Event>)
    requires Run(events).Some?
    ensures var s := Run(events).value;
            && RequestsOn(s.wire) == RequestsSent(events) && NoRepeats(RequestsSent(events))
            && forall id :: id in RequestsSent(events) ==> id in s.sent
  {
    if events != [] {
      var before, e := events[..|events| - 1], events[|events| - 1];
      RequestsReachTheWire(before);
      RequestStep(Run(before).value, e);
      SentStep(Run(before).value, e);
    }
  }

  /** A request that is pending while the task runs is on the wire: nobody waits for an answer to something
      that was never sent. */
  lemma {:induction false} PendingWasSent(events: seq<Event>, id: RequestId)
    requires Run(events).Some? && !Run(events).value.ended && id in Run(events).value.sent
    ensures id in RequestsSent(events)
  {
    if events != [] {
      var before, e := events[..|events| - 1], events[|events| - 1];
      var s := Run(before).value;
      TaskEndsExactly(s, e);
      SentStep(s, e);
      if id in s.sent {
        PendingWasSent(before, id);
      }
    }
  }

  // ---- acknowledgements ----

  /** Bytes that somebody waits for have been sent. */
  predicate EarnsAck(e: Event) {
    e.Command? && e.command.SendTunnelBytes? && e.command.ack.Some? && e.sendOk
  }

  function AcksEarned(events: seq<Event>): seq<nat> {
    if events == [] then []
    else
      var e := events[|events| - 1];
      AcksEarned(events[..|events| - 1]) + if EarnsAck(e) then [e.command.ack.value] else []
  }

  lemma AckStep(s: MuxState, e: Event)
    requires Next(s, e).Some?
    ensures Next(s, e).value.acked == s.acked + if EarnsAck(e) then [e.command.ack.value] else []
  {
    assert s.acked + [] == s.acked;
  }

  /** Exactly the payloads that were sent are acknowledged, in order: an ack means that the frame is on the
      wire, and a sent frame is never left without its ack. */
  lemma {:induction false} AcksAreEarned(events: seq<Event>)
    requires Run(events).Some?
    ensures Run(events).value.acked == AcksEarned(events)
  {
    if events != [] {
      AcksAreEarned(events[..|events| - 1]);
      AckStep(Run(events[..|events| - 1]).value, events[|events| - 1]);
    }
  }

  // ---- opened tunnels ----

  /** What a waiter that was told of a channel relies on. */
  ghost predicate OpenedOk(s: MuxState, reply: Reply) {
    reply.answer.Opened? ==>
      && reply.asked.OpenTunnelReply? && reply.answer.channel < |s.channels|
      && var c := s.channels[reply.answer.channel];
         c.tunnel == reply.answer.tunnel && c.capacity == reply.asked.capacity
  }

  ghost predicate Announced(s: MuxState, k: nat) {
    exists i :: 0 <= i < |s.answers| && s.answers[i].answer.Opened? && s.answers[i].answer.channel == k
  }

  ghost predicate OpenedInv(s: MuxState) {
    && (forall i :: 0 <= i < |s.answers| ==> OpenedOk(s, s.answers[i]))
    && (forall k :: 0 <= k < |s.channels| ==> Announced(s, k))
    && (forall i, j :: 0 <= i < j < |s.answers| && s.answers[i].answer.Opened? && s.answers[j].answer.Opened?
          ==> s.answers[i].answer.channel != s.answers[j].answer.channel)
  }

  lemma SameAnswers(s: MuxState, s': MuxState)
    requires OpenedInv(s) && s'.answers == s.answers && |s'.channels| == |s.channels|
    requires forall k :: 0 <= k < |s.channels| ==>
               s'.channels[k].tunnel == s.channels[k].tunnel && s'.channels[k].capacity == s.channels[k].capacity
    ensures OpenedInv(s')
  {
    forall i | 0 <= i < |s'.answers| ensures OpenedOk(s', s'.answers[i]) {
      assert OpenedOk(s, s.answers[i]);
    }
    forall k | 0 <= k < |s'.channels| ensures Announced(s', k) {
      assert Announced(s, k);
    }
  }

  lemma OneMoreAnswer(s: MuxState, s': MuxState, reply: Reply)
    requires OpenedInv(s) && s'.answers == s.answers + [reply]
    requires s.channels <= s'.channels
    requires OpenedOk(s', reply)
    requires if reply.answer.Opened? then |s'.channels| == |s.channels| + 1 && reply.answer.channel == |s.channels|
             else s'.channels == s.channels
    ensures OpenedInv(s')
  {
    forall i | 0 <= i < |s'.answers| ensures OpenedOk(s', s'.answers[i]) {
      if i < |s.answers| { assert OpenedOk(s, s.answers[i]); }
    }
    forall k | 0 <= k < |s'.channels| ensures Announced(s', k) {
      if k < |s.channels| {
        assert Announced(s, k);
        var i :| 0 <= i < |s.answers| && s.answers[i].answer.Opened? && s.answers[i].answer.channel == k;
        assert s'.answers[i] == s.answers[i];
      } else {
        assert s'.answers[|s.answers|] == reply;
      }
    }
    forall i | 0 <= i < |s.answers| && s.answers[i].answer.Opened?
      ensures s.answers[i].answer.channel < |s.channels|
    {
      assert OpenedOk(s, s.answers[i]);
    }
  }

  lemma ResponseOpens(s: MuxState, r: Response)
    requires OpenedInv(s) && r.id in s.pending
    ensures OpenedInv(ControlArrived(s, Responded(r)))
  {
    var s' := ControlArrived(s, Responded(r));
    OneMoreAnswer(s, s', s'.answers[|s.answers|]);
  }

  lemma OtherStepsOpenNothing(s: MuxState, e: Event)
    requires Next(s, e).Some?
    requires e.ControlFrame? && e.control.Responded? ==> e.control.response.id !in s.pending
    ensures var s' := Next(s, e).value;
            && s'.answers == s.answers && |s'.channels| == |s.channels|
            && forall k :: 0 <= k < |s.channels| ==>
                 s'.channels[k].tunnel == s.channels[k].tunnel && s'.channels[k].capacity == s.channels[k].capacity
  {
  }

  /** In every run each waiter that is told of a tunnel gets a channel of its own, for that tunnel and with
      the capacity its command asked for, and there is no channel without its waiter. */
  lemma {:induction false} OpenedAsAsked(events: seq<Event>)
    requires Run(events).Some?
    ensures OpenedInv(Run(events).value)
  {
    if events != [] {
      var s, e := Run(events[..|events| - 1]).value, events[|events| - 1];
      OpenedAsAsked(events[..|events| - 1]);
      if e.ControlFrame? && e.control.Responded? && e.control.response.id in s.pending {
        ResponseOpens(s, e.control.response);
      } else {
        OtherStepsOpenNothing(s, e);
        SameAnswers(s, Next(s, e).value);
      }
    }
  }

  // ---- agent events ----

  function PushesIn(events: seq<Event>): seq<string> {
    if events == [] then []
    else
      var e := events[|events| - 1];
      PushesIn(events[..|events| - 1]) + if e.ControlFrame? && e.control.AgentEvent? then [e.control.push] else []
  }

  /** Agent events are kept in order until the queue of 256 is full, and dropped then; none ends the task. */
  lemma {:induction false} PushesAreKeptWhileTheyFit(events: seq<Event>)
    requires Run(events).Some?
    ensures var pushes := PushesIn(events);
            Run(events).value.agentEvents == if |pushes| <= 256 then pushes else pushes[..256]
  {
    if events != [] {
      PushesAreKeptWhileTheyFit(events[..|events| - 1]);
    }
  }
}
