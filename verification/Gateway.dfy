/** The loopback web gateway (choosh-android-bridge/src/web_gateway.rs) and the head-reading loop it
    uses (http_lite.rs). Every choice of the outside world is an explicit list: how many bytes each
    read delivers, which side of the pump is ready, and which call fails. */
module Gateway {
  import opened Wrappers
  import opened Utf8
  import opened HttpHead

  const TOKEN_COOKIE_NAME := "choosh_gw_token"
  const READ_CHUNK: nat := 4096

  datatype Caps = Caps(maxHeaderBytes: nat, uploadChunkBytes: nat)

  /** Outcomes of one head read: up to `n` bytes, an I/O error, the idle timeout, or the whole connection
      being dropped because the accept loop saw the shutdown signal. */
  datatype HeadRead = Arrives(n: nat) | Breaks | Idles | Dropped

  datatype ReadFailure = TimedOut | UnexpectedEof | Broken | Cancelled | Invalid(error: HeadError)

  /** Outcomes of a write: it works, or it fails or is dropped after `sent` bytes. */
  datatype WriteOutcome = Works | Fails(sent: nat) | DroppedAfter(sent: nat)

  /** The bytes of a write that get through. */
  function Through(bytes: seq<byte>, w: WriteOutcome): (r: seq<byte>)
    ensures r <= bytes && (w.Works? ==> r == bytes)
  {
    if w.Works? || w.sent >= |bytes| then bytes else bytes[..w.sent]
  }

  function WithWrite(writes: seq<seq<byte>>, bytes: seq<byte>): seq<seq<byte>> {
    if bytes == [] then writes else writes + [bytes]
  }

  /** What a write call puts on the tunnel: the part that gets through. A call with an empty payload is
      the close signal; it is sent through as it is, so it is recorded whatever becomes of it. */
  function Issued(writes: seq<seq<byte>>, bytes: seq<byte>, w: WriteOutcome): seq<seq<byte>> {
    if bytes == [] then writes + [[]] else WithWrite(writes, Through(bytes, w))
  }

  datatype HeadOutcome = Accepted(head: RequestHead) | TooLarge | Failed(why: ReadFailure)

  /** A read into `max` bytes of room returns 0 exactly when the stream has ended. */
  function ReadSize(n: nat, max: nat, available: nat): (k: nat)
    requires max > 0
    ensures k <= available && k <= max && (k == 0 <==> available == 0)
  {
    var most := if available < max then available else max;
    if n > most then most else if n == 0 && most > 0 then 1 else n
  }

  /** Outcome, buffer and unread input. When no further read is listed, nothing arrives before the
      idle timeout. */
  function ReadHead(buf: seq<byte>, input: seq<byte>, cap: nat, arrivals: seq<HeadRead>)
    : (HeadOutcome, seq<byte>, seq<byte>)
    decreases |arrivals|
  {
    if |buf| > cap then (TooLarge, buf, input)
    else
      match TryParse(buf)
      case Err(e) => (Failed(Invalid(e)), buf, input)
      case Ok(Some(head)) => (Accepted(head), buf, input)
      case Ok(None) =>
        if arrivals == [] || arrivals[0].Idles? then (Failed(TimedOut), buf, input)
        else if arrivals[0].Breaks? then (Failed(Broken), buf, input)
        else if arrivals[0].Dropped? then (Failed(Cancelled), buf, input)
        else
          var k := ReadSize(arrivals[0].n, READ_CHUNK, |input|);
          if k == 0 then (Failed(UnexpectedEof), buf, input)
          else ReadHead(buf + input[..k], input[k..], cap, arrivals[1..])
  }

  /** The accepted socket: what the client still sends and what it has been sent. */
  class Client {
    var input: seq<byte>
    var output: seq<byte>
    var outputShut: bool
    var status: Option<nat>

    method Read(n: nat, max: nat) returns (bytes: seq<byte>)
      requires max > 0
      modifies this`input
      ensures var k := ReadSize(n, max, |old(input)|);
              bytes == old(input)[..k] && input == old(input)[k..] && |bytes| == k
    {
      var k := ReadSize(n, max, |input|);
      bytes := input[..k];
      input := input[k..];
    }
  }

  /** One opened web tunnel: the chunks it will deliver and the payloads written to it. */
  class Upstream {
    var incoming: seq<seq<byte>>
    var writes: seq<seq<byte>>
    var closed: bool

    method Write(bytes: seq<byte>, w: WriteOutcome)
      modifies this`writes
      ensures writes == Issued(old(writes), bytes, w)
    {
      var through := Through(bytes, w);
      if |bytes| == 0 || |through| > 0 {
        writes := writes + [through];
      }
    }
  }

  method ReadHeadWithCap(client: Client, cap: nat, arrivals: seq<HeadRead>)
    returns (outcome: HeadOutcome, buf: seq<byte>)
    modifies client`input
    ensures (outcome, buf, client.input) == ReadHead([], old(client.input), cap, arrivals)
  {
    buf := [];
    var i := 0;
    while true
      invariant 0 <= i <= |arrivals|
      invariant ReadHead(buf, client.input, cap, arrivals[i..]) == ReadHead([], old(client.input), cap, arrivals)
      decreases |arrivals| - i
    {
      if |buf| > cap {
        return TooLarge, buf;
      }
      var parsed := TryParseHead(buf);
      if parsed.Err? {
        return Failed(Invalid(parsed.error)), buf;
      }
      if parsed.value.Some? {
        return Accepted(parsed.value.value), buf;
      }
      if i == |arrivals| || arrivals[i].Idles? {
        return Failed(TimedOut), buf;
      }
      if arrivals[i].Breaks? {
        return Failed(Broken), buf;
      }
      if arrivals[i].Dropped? {
        return Failed(Cancelled), buf;
      }
      assert arrivals[i..][1..] == arrivals[i + 1..];
      var chunk := client.Read(arrivals[i].n, READ_CHUNK);
      if |chunk| == 0 {
        return Failed(UnexpectedEof), buf;
      }
      buf := buf + chunk;
      i := i + 1;
    }
  }

  // ---- the byte pump ----

  /** Which branch of the `select!` is ready, and how the write behind it goes. `Cancel` is the accept
      loop dropping the whole connection. */
  datatype Choice =
    | Shutdown
    | IdleTimeout
    | Cancel
    | FromUpstream(w: WriteOutcome)
    | FromClient(n: Option<nat>, w: WriteOutcome)

  datatype Pump = Pump(
    clientIn: seq<byte>, clientOut: seq<byte>, outputShut: bool,
    upstreamIn: seq<seq<byte>>, upstreamOut: seq<seq<byte>>,
    clientDone: bool, upstreamDone: bool, stopped: bool, cancelled: bool)

  function Stopped(s: Pump, w: WriteOutcome): Pump {
    s.(stopped := !w.Works?, cancelled := w.DroppedAfter?)
  }

  function Download(s: Pump, w: WriteOutcome): Pump {
    if s.upstreamDone then s
    else if s.upstreamIn == [] then s.(upstreamDone := true, outputShut := true)
    else Stopped(s.(upstreamIn := s.upstreamIn[1..], clientOut := s.clientOut + Through(s.upstreamIn[0], w)), w)
  }

  function Upload(s: Pump, n: Option<nat>, w: WriteOutcome, max: nat): Pump
    requires max > 0
  {
    if s.clientDone then s
    else if n.None? then s.(stopped := true)
    else
      var k := ReadSize(n.value, max, |s.clientIn|);
      if k == 0 then s.(clientDone := true)
      else Stopped(s.(clientIn := s.clientIn[k..],
                      upstreamOut := Issued(s.upstreamOut, s.clientIn[..k], w)), w)
  }

  function PumpStep(s: Pump, c: Choice, max: nat): Pump
    requires max > 0
  {
    match c
    case Shutdown => s.(stopped := true)
    case IdleTimeout => s.(stopped := true)
    case Cancel => s.(stopped := true, cancelled := true)
    case FromUpstream(w) => Download(s, w)
    case FromClient(n, w) => Upload(s, n, w, max)
  }

  predicate Running(s: Pump) {
    !s.stopped && !(s.clientDone && s.upstreamDone)
  }

  function PumpRun(s: Pump, choices: seq<Choice>, max: nat): Pump
    requires max > 0
    decreases |choices|
  {
    if !Running(s) then s
    else if choices == [] then s.(stopped := true)
    else PumpRun(PumpStep(s, choices[0], max), choices[1..], max)
  }

  /** The loop's variables. */
  datatype Flags = Flags(clientDone: bool, upstreamDone: bool, stopped: bool, cancelled: bool)

  const LIVE := Flags(false, false, false, false)

  function View(client: Client, upstream: Upstream, f: Flags): Pump
    reads client, upstream
  {
    Pump(client.input, client.output, client.outputShut, upstream.incoming, upstream.writes,
         f.clientDone, f.upstreamDone, f.stopped, f.cancelled)
  }

  /** One ready `upstream.read()`. */
  method PumpDown(client: Client, upstream: Upstream, w: WriteOutcome, f: Flags) returns (f': Flags)
    requires !f.upstreamDone && !f.stopped && !f.cancelled
    modifies client`output, client`outputShut, upstream`incoming
    ensures View(client, upstream, f') == Download(old(View(client, upstream, f)), w)
  {
    if |upstream.incoming| > 0 {
      var chunk := upstream.incoming[0];
      upstream.incoming := upstream.incoming[1..];
      client.output := client.output + Through(chunk, w);
      f' := f.(stopped := !w.Works?, cancelled := w.DroppedAfter?);
    } else {
      client.outputShut := true;
      f' := f.(upstreamDone := true);
    }
  }

  /** One ready `read_half.read()`. */
  method PumpUp(client: Client, upstream: Upstream, n: Option<nat>, w: WriteOutcome, max: nat, f: Flags)
    returns (f': Flags)
    requires max > 0 && !f.clientDone && !f.stopped && !f.cancelled
    modifies client`input, upstream`writes
    ensures View(client, upstream, f') == Upload(old(View(client, upstream, f)), n, w, max)
  {
    if n.None? {
      return f.(stopped := true);
    }
    var bytes := client.Read(n.value, max);
    if |bytes| == 0 {
      return f.(clientDone := true);
    }
    upstream.Write(bytes, w);
    return f.(stopped := !w.Works?, cancelled := w.DroppedAfter?);
  }

  /** The loop, and the close behind it, which only a dropped connection does not reach. */
  method PumpBidirectional(client: Client, upstream: Upstream, max: nat, choices: seq<Choice>) returns (f: Flags)
    requires max > 0 && !upstream.closed
    modifies client`input, client`output, client`outputShut, upstream
    ensures View(client, upstream, f) == PumpRun(old(View(client, upstream, LIVE)), choices, max)
    ensures upstream.closed == !f.cancelled
  {
    f := LIVE;
    ghost var start := View(client, upstream, f);
    var i := 0;
    while !(f.clientDone && f.upstreamDone) && !f.stopped
      invariant 0 <= i <= |choices| && (f.cancelled ==> f.stopped) && !upstream.closed
      invariant PumpRun(View(client, upstream, f), choices[i..], max) == PumpRun(start, choices, max)
      decreases |choices| - i, !f.stopped
    {
      if i == |choices| {
        f := f.(stopped := true);
      } else {
        assert choices[i..][0] == choices[i] && choices[i..][1..] == choices[i + 1..];
        match choices[i] {
          case Shutdown => f := f.(stopped := true);
          case IdleTimeout => f := f.(stopped := true);
          case Cancel => f := f.(stopped := true, cancelled := true);
          case FromUpstream(w) =>
            if !f.upstreamDone {
              f := PumpDown(client, upstream, w, f);
            }
          case FromClient(n, w) =>
            if !f.clientDone {
              f := PumpUp(client, upstream, n, w, max, f);
            }
        }
        i := i + 1;
      }
    }
    if f.cancelled {
      return;
    }
    upstream.closed := true;
  }
}

/** One connection from accept to close, and what holds of it for every split of the client's
    stream into reads and every interleaving of the two directions. */
module GatewayConnection {
  import opened Sequences
  import opened Text
  import opened Wrappers
  import opened Utf8
  import opened HttpHead
  import opened HttpRoundTrip
  import opened Gateway

  // ---- reading the head ----

  lemma MoveOver(buf: seq<byte>, input: seq<byte>, k: nat)
    requires k <= |input|
    ensures (buf + input[..k]) + input[k..] == buf + input
  {
  }

  /** The head, the cap and the bytes: nothing about an accepted head depends on how the reads fell. */
  lemma {:induction false} AcceptedHead(buf: seq<byte>, input: seq<byte>, cap: nat, arrivals: seq<HeadRead>)
    requires ReadHead(buf, input, cap, arrivals).0.Accepted?
    ensures var (outcome, buf', rest) := ReadHead(buf, input, cap, arrivals);
            && TryParse(buf + input) == Ok(Some(outcome.head))
            && buf' + rest == buf + input
            && outcome.head.headBytesLen <= |buf'| <= cap
    decreases |arrivals|
  {
    if TryParse(buf) != Ok(None) {
      ParseIsStable(buf, input);
      HeadLength(buf, ReadHead(buf, input, cap, arrivals).0.head);
    } else {
      var k := ReadSize(arrivals[0].n, READ_CHUNK, |input|);
      MoveOver(buf, input, k);
      AcceptedHead(buf + input[..k], input[k..], cap, arrivals[1..]);
    }
  }

  /** What a prefix of a well-formed stream parses to depends only on whether the head is all there. */
  lemma PrefixParse(buf: seq<byte>, more: seq<byte>, head: RequestHead)
    requires TryParse(buf + more) == Ok(Some(head))
    ensures TryParse(buf) == if |buf| < head.headBytesLen then Ok(None) else Ok(Some(head))
  {
    if TryParse(buf) != Ok(None) {
      ParseIsStable(buf, more);
      HeadLength(buf, head);
    } else if head.headBytesLen <= |buf| {
      BlankInside(buf, more, head);
    }
  }

  lemma BlankInside(buf: seq<byte>, more: seq<byte>, head: RequestHead)
    requires TryParse(buf + more) == Ok(Some(head)) && head.headBytesLen <= |buf|
    ensures TryParse(buf) != Ok(None)
  {
    HeadLength(buf + more, head);
    var at := head.headBytesLen - 4;
    assert buf[at..at + 4] == (buf + more)[at..at + 4];
    BlankMeansDecided(buf, at);
  }

  ghost predicate AllArrive(arrivals: seq<HeadRead>) {
    forall a :: a in arrivals ==> a.Arrives?
  }

  /** One more read while the head is not complete. */
  lemma ReadStep(buf: seq<byte>, input: seq<byte>, cap: nat, arrivals: seq<HeadRead>, k: nat)
    requires |buf| <= cap && TryParse(buf) == Ok(None) && arrivals != [] && arrivals[0].Arrives?
    requires k == ReadSize(arrivals[0].n, READ_CHUNK, |input|) && k > 0
    ensures ReadHead(buf, input, cap, arrivals) == ReadHead(buf + input[..k], input[k..], cap, arrivals[1..])
    ensures (buf + input[..k]) + input[k..] == buf + input
  {
  }

  /** Accepted under every split: there is room for one read beyond the head, or for the whole stream. */
  lemma {:induction false} AcceptedWhateverTheSplit(buf: seq<byte>, input: seq<byte>, cap: nat, arrivals: seq<HeadRead>,
                                                    head: RequestHead)
    requires TryParse(buf + input) == Ok(Some(head)) && AllArrive(arrivals) && |input| <= |arrivals|
    requires |buf| <= cap && (head.headBytesLen + READ_CHUNK <= cap + 1 || |buf| + |input| <= cap)
    ensures ReadHead(buf, input, cap, arrivals).0 == Accepted(head)
    decreases |arrivals|
  {
    PrefixParse(buf, input, head);
    if |buf| < head.headBytesLen {
      HeadLength(buf + input, head);
      var k := ReadSize(arrivals[0].n, READ_CHUNK, |input|);
      ReadStep(buf, input, cap, arrivals, k);
      AcceptedWhateverTheSplit(buf + input[..k], input[k..], cap, arrivals[1..], head);
    }
  }

  function OneByteReads(n: nat): (r: seq<HeadRead>)
    ensures |r| == n && AllArrive(r)
  {
    if n == 0 then [] else [Arrives(1)] + OneByteReads(n - 1)
  }

  /** Byte by byte, the buffer grows up to just before the end of the head. */
  lemma {:induction false} ByteByByte(buf: seq<byte>, input: seq<byte>, cap: nat, m: nat, later: seq<HeadRead>,
                                      head: RequestHead)
    requires TryParse(buf + input) == Ok(Some(head)) && head.headBytesLen <= cap && |buf| + m < head.headBytesLen
    ensures m <= |input|
    ensures ReadHead(buf, input, cap, OneByteReads(m) + later) == ReadHead(buf + input[..m], input[m..], cap, later)
    decreases m
  {
    MoreToRead(buf, input, m, head);
    if m == 0 {
      NothingRead(buf, input, later);
    } else {
      var longer, rest := buf + input[..1], input[1..];
      OneByteStep(buf, input, cap, m, later, head);
      ByteByByte(longer, rest, cap, m - 1, later, head);
      OneThenMore(buf, input, m);
    }
  }

  lemma MoreToRead(buf: seq<byte>, input: seq<byte>, m: nat, head: RequestHead)
    requires TryParse(buf + input) == Ok(Some(head)) && |buf| + m < head.headBytesLen
    ensures m < |input|
  {
    HeadLength(buf + input, head);
  }

  lemma OneByteStep(buf: seq<byte>, input: seq<byte>, cap: nat, m: nat, later: seq<HeadRead>, head: RequestHead)
    requires TryParse(buf + input) == Ok(Some(head)) && head.headBytesLen <= cap && |buf| + m < head.headBytesLen
    requires m > 0 && input != []
    ensures ReadHead(buf, input, cap, OneByteReads(m) + later)
         == ReadHead(buf + input[..1], input[1..], cap, OneByteReads(m - 1) + later)
    ensures (buf + input[..1]) + input[1..] == buf + input
  {
    PrefixParse(buf, input, head);
    OneByteFirst(m, later);
    ReadStep(buf, input, cap, OneByteReads(m) + later, 1);
  }

  lemma NothingRead(buf: seq<byte>, input: seq<byte>, later: seq<HeadRead>)
    ensures OneByteReads(0) + later == later && buf + input[..0] == buf && input[0..] == input
  {
  }

  lemma OneByteFirst(m: nat, later: seq<HeadRead>)
    requires m > 0
    ensures OneByteReads(m) + later != [] && (OneByteReads(m) + later)[0] == Arrives(1)
    ensures (OneByteReads(m) + later)[1..] == OneByteReads(m - 1) + later
  {
  }

  lemma OneThenMore(buf: seq<byte>, input: seq<byte>, m: nat)
    requires 0 < m <= |input|
    ensures (buf + input[..1]) + input[1..][..m - 1] == buf + input[..m] && input[1..][m - 1..] == input[m..]
  {
  }

  /** One big read at the end of the head takes the buffer over the cap. */
  lemma OneReadTooMany(buf: seq<byte>, input: seq<byte>, cap: nat, later: seq<HeadRead>, head: RequestHead)
    requires TryParse(buf + input) == Ok(Some(head)) && |buf| + 1 == head.headBytesLen <= cap
    requires cap < |buf| + READ_CHUNK && cap < |buf| + |input|
    ensures ReadHead(buf, input, cap, [Arrives(READ_CHUNK)] + later).0 == TooLarge
  {
    PrefixParse(buf, input, head);
    var arrivals := [Arrives(READ_CHUNK)] + later;
    assert arrivals[0] == Arrives(READ_CHUNK) && arrivals[1..] == later;
  }

  /** Otherwise the same bytes are accepted or refused depending on how the reads fall: byte by byte up to
      the end of the head, one more read decides. */
  lemma SplitDecides(input: seq<byte>, cap: nat, head: RequestHead, later: seq<HeadRead>)
    requires TryParse(input) == Ok(Some(head)) && head.headBytesLen <= cap
    requires cap + 1 < head.headBytesLen + READ_CHUNK && cap < |input|
    ensures ReadHead([], input, cap, OneByteReads(head.headBytesLen - 1) + ([Arrives(READ_CHUNK)] + later)).0
              == TooLarge
    ensures ReadHead([], input, cap, OneByteReads(head.headBytesLen - 1) + ([Arrives(1)] + later)).0 == Accepted(head)
  {
    var m := head.headBytesLen - 1;
    HeadLength(input, head);
    assert [] + input == input && [] + input[..m] == input[..m];
    ByteByByte([], input, cap, m, [Arrives(READ_CHUNK)] + later, head);
    MoveOver([], input, m);
    OneReadTooMany(input[..m], input[m..], cap, later, head);
    ByteByByte([], input, cap, m, [Arrives(1)] + later, head);
    LastByte(input[..m], input[m..], cap, later, head);
  }

  lemma LastByte(buf: seq<byte>, input: seq<byte>, cap: nat, later: seq<HeadRead>, head: RequestHead)
    requires TryParse(buf + input) == Ok(Some(head)) && |buf| + 1 == head.headBytesLen <= cap
    ensures ReadHead(buf, input, cap, [Arrives(1)] + later).0 == Accepted(head)
  {
    HeadLength(buf + input, head);
    PrefixParse(buf, input, head);
    MoveOver(buf, input, 1);
    PrefixParse(buf + input[..1], input[1..], head);
    var arrivals := [Arrives(1)] + later;
    assert arrivals[0] == Arrives(1) && arrivals[1..] == later;
  }

  ghost predicate AlwaysAccepts(input: seq<byte>, cap: nat, head: RequestHead) {
    forall arrivals :: AllArrive(arrivals) && |input| <= |arrivals|
        ==> ReadHead([], input, cap, arrivals).0 == Accepted(head)
  }

  lemma RoomAlwaysAccepts(input: seq<byte>, cap: nat, head: RequestHead)
    requires TryParse(input) == Ok(Some(head)) && (head.headBytesLen + 4096 <= cap + 1 || |input| <= cap)
    ensures AlwaysAccepts(input, cap, head)
  {
    assert [] + input == input;
    forall arrivals | AllArrive(arrivals) && |input| <= |arrivals|
        ensures ReadHead([], input, cap, arrivals).0 == Accepted(head) {
      AcceptedWhateverTheSplit([], input, cap, arrivals, head);
    }
  }

  lemma NoRoomMayRefuse(input: seq<byte>, cap: nat, head: RequestHead) returns (arrivals: seq<HeadRead>)
    requires TryParse(input) == Ok(Some(head)) && cap + 1 < head.headBytesLen + READ_CHUNK && cap < |input|
    ensures AllArrive(arrivals) && |input| <= |arrivals| && ReadHead([], input, cap, arrivals).0 == TooLarge
  {
    var later := OneByteReads(|input|);
    if cap < head.headBytesLen {
      assert [] + input == input;
      RefusedWhateverTheSplit([], input, cap, later, head);
      arrivals := later;
    } else {
      HeadLength(input, head);
      SplitDecides(input, cap, head, later);
      arrivals := OneByteReads(head.headBytesLen - 1) + ([Arrives(READ_CHUNK)] + later);
    }
  }

  /** Exactly when every split of the stream into reads accepts the head. */
  lemma AcceptanceExact(input: seq<byte>, cap: nat, head: RequestHead)
    requires TryParse(input) == Ok(Some(head))
    ensures AlwaysAccepts(input, cap, head) <==> head.headBytesLen + 4096 <= cap + 1 || |input| <= cap
  {
    if head.headBytesLen + READ_CHUNK <= cap + 1 || |input| <= cap {
      RoomAlwaysAccepts(input, cap, head);
    } else {
      var arrivals := NoRoomMayRefuse(input, cap, head);
    }
  }

  /** A head longer than the cap is refused under every split. */
  lemma {:induction false} RefusedWhateverTheSplit(buf: seq<byte>, input: seq<byte>, cap: nat, arrivals: seq<HeadRead>,
                                                   head: RequestHead)
    requires TryParse(buf + input) == Ok(Some(head)) && AllArrive(arrivals) && |input| <= |arrivals|
    requires cap < head.headBytesLen
    ensures ReadHead(buf, input, cap, arrivals).0 == TooLarge
    decreases |arrivals|
  {
    PrefixParse(buf, input, head);
    if |buf| <= cap {
      HeadLength(buf + input, head);
      var k := ReadSize(arrivals[0].n, READ_CHUNK, |input|);
      MoveOver(buf, input, k);
      RefusedWhateverTheSplit(buf + input[..k], input[k..], cap, arrivals[1..], head);
    }
  }

  // ---- pumping ----

  /** The close signal was never issued. */
  ghost predicate NoEmptyWrite(writes: seq<seq<byte>>) {
    forall w :: w in writes ==> w != []
  }

  /** `up` and `down` are everything the two directions have to carry. A live pump has lost nothing;
      a stopped one has delivered a prefix. */
  ghost predicate Faithful(s: Pump, up: seq<byte>, down: seq<byte>) {
    && NoEmptyWrite(s.upstreamOut)
    && (s.clientDone ==> s.clientIn == [])
    && (s.upstreamDone ==> s.upstreamIn == [])
    && s.outputShut == s.upstreamDone && (s.cancelled ==> s.stopped)
    && (!s.stopped ==> Flatten(s.upstreamOut) + s.clientIn == up && s.clientOut + Flatten(s.upstreamIn) == down)
    && Flatten(s.upstreamOut) <= up && s.clientOut <= down
  }

  lemma DownloadFaithful(s: Pump, w: WriteOutcome, up: seq<byte>, down: seq<byte>)
    requires Faithful(s, up, down) && Running(s)
    ensures Faithful(Download(s, w), up, down)
  {
    if !s.upstreamDone && s.upstreamIn != [] {
      var chunk, later := s.upstreamIn[0], Flatten(s.upstreamIn[1..]);
      Reassociate(s.clientOut, chunk, later);
      PrefixOfPrefix(s.clientOut, Through(chunk, w), chunk, later);
    }
  }

  lemma PrefixOfPrefix<T>(a: seq<T>, part: seq<T>, whole: seq<T>, later: seq<T>)
    requires part <= whole
    ensures a + part <= a + whole + later
  {
  }

  lemma UploadFaithful(s: Pump, n: Option<nat>, w: WriteOutcome, max: nat, up: seq<byte>, down: seq<byte>)
    requires max > 0 && Faithful(s, up, down) && Running(s)
    ensures Faithful(Upload(s, n, w, max), up, down)
  {
    if !s.clientDone && n.Some? {
      var k := ReadSize(n.value, max, |s.clientIn|);
      var through := |Through(s.clientIn[..k], w)|;
      if k > 0 {
        assert Through(s.clientIn[..k], w) == s.clientIn[..through];
        if through > 0 {
          OneMoreWrite(s.upstreamOut, s.clientIn, through);
        }
      }
    }
  }

  lemma OneMoreWrite(writes: seq<seq<byte>>, pending: seq<byte>, k: nat)
    requires 0 < k <= |pending|
    ensures Flatten(writes + [pending[..k]]) + pending[k..] == Flatten(writes) + pending
    ensures NoEmptyWrite(writes) ==> NoEmptyWrite(writes + [pending[..k]])
  {
    FlattenAppend(writes, [pending[..k]]);
    assert Flatten([pending[..k]]) == pending[..k] + Flatten<byte>([]);
    assert Flatten(writes) + pending[..k] + pending[k..] == Flatten(writes) + pending;
  }

  lemma {:induction false} RunFaithful(s: Pump, choices: seq<Choice>, max: nat, up: seq<byte>, down: seq<byte>)
    requires max > 0 && Faithful(s, up, down)
    ensures Faithful(PumpRun(s, choices, max), up, down)
    decreases |choices|
  {
    if Running(s) && choices != [] {
      match choices[0] {
        case Shutdown =>
        case IdleTimeout =>
        case Cancel =>
        case FromUpstream(w) => DownloadFaithful(s, w, up, down);
        case FromClient(n, w) => UploadFaithful(s, n, w, max, up, down);
      }
      RunFaithful(PumpStep(s, choices[0], max), choices[1..], max, up, down);
    }
  }

  /** A write that breaks off is asked for: a chunk for the client, or bytes for upstream. */
  predicate BreaksOff(s: Pump, c: Choice) {
    || (c.FromUpstream? && !s.upstreamDone && s.upstreamIn != [] && !c.w.Works?)
    || (c.FromClient? && !s.clientDone && c.n.Some? && s.clientIn != [] && !c.w.Works?)
  }

  /** Exactly what ends the pump before both directions have ended: the shutdown signal, the idle timeout,
      the connection being dropped, a failed read of the client, and a write that breaks off; and
      exactly what ends a direction: its end of stream. */
  lemma StopsExactly(s: Pump, c: Choice, max: nat)
    requires max > 0 && Running(s)
    ensures var s' := PumpStep(s, c, max);
            && (s'.stopped <==>
                 c.Shutdown? || c.IdleTimeout? || c.Cancel?
                 || (c.FromClient? && !s.clientDone && c.n.None?) || BreaksOff(s, c))
            && (s'.clientDone <==> s.clientDone || (c.FromClient? && c.n.Some? && s.clientIn == []))
            && (s'.upstreamDone <==> s.upstreamDone || (c.FromUpstream? && s.upstreamIn == []))
            && (!s.cancelled ==> (s'.cancelled <==> c.Cancel? || (BreaksOff(s, c) && c.w.DroppedAfter?)))
  {
  }

  ghost predicate NoLongWrite(writes: seq<seq<byte>>, max: nat) {
    forall w :: w in writes ==> |w| <= max
  }

  /** No upload the pump makes is longer than one upload chunk. */
  lemma {:induction false} UploadsFitTheChunk(s: Pump, choices: seq<Choice>, max: nat)
    requires max > 0
    ensures var later := PumpRun(s, choices, max).upstreamOut;
            s.upstreamOut <= later && NoLongWrite(later[|s.upstreamOut|..], max)
    decreases |choices|
  {
    if Running(s) && choices != [] {
      var s' := PumpStep(s, choices[0], max);
      UploadsFitTheChunk(s', choices[1..], max);
      var later := PumpRun(s', choices[1..], max).upstreamOut;
      OneUpload(s, choices[0], max);
      assert later[|s.upstreamOut|..] == s'.upstreamOut[|s.upstreamOut|..] + later[|s'.upstreamOut|..];
    }
  }

  lemma OneUpload(s: Pump, c: Choice, max: nat)
    requires max > 0
    ensures var now := PumpStep(s, c, max).upstreamOut;
            s.upstreamOut <= now && NoLongWrite(now[|s.upstreamOut|..], max)
  {
  }

  /** Nothing goes wrong: no shutdown, no timeout, no failing call. */
  ghost predicate Benign(choices: seq<Choice>) {
    forall c :: c in choices ==> (c.FromUpstream? || (c.FromClient? && c.n.Some?)) && c.w.Works?
  }

  function Turns(choices: seq<Choice>, upload: bool): nat {
    if choices == [] then 0 else (if choices[0].FromClient? == upload then 1 else 0) + Turns(choices[1..], upload)
  }

  function UploadOwed(s: Pump): nat {
    if s.clientDone then 0 else |s.clientIn| + 1
  }

  function DownloadOwed(s: Pump): nat {
    if s.upstreamDone then 0 else |s.upstreamIn| + 1
  }

  /** Half-close: as long as nothing fails and both sides get their turns, in any order, the pump runs
      to the end of both directions; the end of one never stops the other. */
  lemma {:induction false} HalfCloseIsHarmless(s: Pump, choices: seq<Choice>, max: nat)
    requires max > 0 && !s.stopped && Benign(choices)
    requires UploadOwed(s) <= Turns(choices, true) && DownloadOwed(s) <= Turns(choices, false)
    ensures var e := PumpRun(s, choices, max); e.clientDone && e.upstreamDone && !e.stopped
    decreases |choices|
  {
    if Running(s) {
      var s' := PumpStep(s, choices[0], max);
      assert choices[0] in choices && !s'.stopped;
      HalfCloseIsHarmless(s', choices[1..], max);
    }
  }

  /** Nothing fails, and each side gets enough turns to be read to its end. */
  ghost predicate Served(choices: seq<Choice>, clientBytes: nat, upstreamChunks: nat) {
    Benign(choices) && clientBytes < Turns(choices, true) && upstreamChunks < Turns(choices, false)
  }

  // ---- one connection ----

  /** What the opener brings: a tunnel, an error, or the connection being dropped meanwhile. */
  datatype Opening = Opens(upstream: Upstream) | OpenFails | OpenDropped

  datatype Ending = Refused | ReadFailed | NoUpstream | WriteFailed | Pumped(finished: bool) | Abandoned

  /** Everything upstream is owed for a client stream: the rebuilt head, then all behind the blank line. */
  function Owed(input: seq<byte>, head: RequestHead): seq<byte>
    requires head.headBytesLen <= |input|
  {
    Rebuilt(head, TOKEN_COOKIE_NAME) + input[head.headBytesLen..]
  }

  /** What upstream and client have received, of all they are owed. */
  ghost predicate Streams(up: seq<byte>, down: seq<byte>, writes: seq<seq<byte>>, output: seq<byte>, all: bool) {
    && NoEmptyWrite(writes)
    && Flatten(writes) <= up && output <= down
    && (all ==> Flatten(writes) == up && output == down)
  }

  lemma HeadAndLeftover(head: seq<byte>, leftover: seq<byte>)
    ensures Flatten([head]) == head
    ensures Flatten([head, leftover]) == head + leftover
  {
    assert Flatten([head]) == head + Flatten<byte>([]);
    assert [head, leftover][1..] == [leftover];
    assert Flatten([leftover]) == leftover + Flatten<byte>([]);
  }

  lemma RebuiltNotEmpty(head: RequestHead, name: string)
    ensures Rebuilt(head, name) != []
  {
    EncodeConcat(RequestLine(head) + CRLF + PrintHeaders(Stripped(head.headers, name)), CRLF);
    EncodeAscii(CRLF);
  }

  /** The first two writes, and any part of either, stay within what upstream is owed. */
  ghost predicate FirstWrites(up: seq<byte>, down: seq<byte>, first: seq<byte>, leftover: seq<byte>) {
    && (forall part :: part <= first ==> Streams(up, down, WithWrite([], part), [], false))
    && (forall part :: part <= leftover ==> Streams(up, down, WithWrite([first], part), [], false))
  }

  lemma PartsOfFirstWrites(up: seq<byte>, down: seq<byte>, first: seq<byte>, leftover: seq<byte>)
    requires first != [] && first + leftover <= up
    ensures FirstWrites(up, down, first, leftover)
  {
    forall part | part <= first ensures Streams(up, down, WithWrite([], part), [], false) {
      HeadAndLeftover(part, leftover);
      assert [] + [part] == [part];
    }
    forall part | part <= leftover ensures Streams(up, down, WithWrite([first], part), [], false) {
      HeadAndLeftover(first, part);
      assert [first] + [part] == [first, part];
    }
  }

  lemma StartIsFaithful(first: seq<byte>, leftover: seq<byte>, rest: seq<byte>, incoming: seq<seq<byte>>)
    requires first != []
    ensures var writes := if leftover == [] then [first] else [first, leftover];
            Faithful(Pump(rest, [], false, incoming, writes, false, false, false, false),
                     first + (leftover + rest), Flatten(incoming))
  {
    HeadAndLeftover(first, leftover);
    Reassociate(first, leftover, rest);
    assert leftover == [] ==> leftover + rest == rest;
    assert [] + Flatten(incoming) == Flatten(incoming);
  }

  /** The pump starts after the first two writes, the rebuilt head and what was read behind the
      blank line; at that point nothing is lost, and no write was empty. */
  lemma PumpStart(head: RequestHead, buf: seq<byte>, rest: seq<byte>, incoming: seq<seq<byte>>)
    requires head.headBytesLen <= |buf|
    ensures var first, leftover := Rebuilt(head, TOKEN_COOKIE_NAME), buf[head.headBytesLen..];
            var up, down := Owed(buf + rest, head), Flatten(incoming);
            var writes := if leftover == [] then [first] else [first, leftover];
            && first != [] && FirstWrites(up, down, first, leftover)
            && Faithful(Pump(rest, [], false, incoming, writes, false, false, false, false), up, down)
  {
    var first, leftover := Rebuilt(head, TOKEN_COOKIE_NAME), buf[head.headBytesLen..];
    RebuiltNotEmpty(head, TOKEN_COOKIE_NAME);
    assert (buf + rest)[head.headBytesLen..] == leftover + rest;
    Reassociate(first, leftover, rest);
    PartsOfFirstWrites(first + (leftover + rest), Flatten(incoming), first, leftover);
    StartIsFaithful(first, leftover, rest, incoming);
  }

  /** Upstream is contacted exactly for an accepted head with the right cookie. Whenever it is, it
      receives, in non-empty writes, a prefix of the rebuilt head and the bytes behind the blank
      line, and the client a prefix of upstream's chunks; both are complete when both sides finish.
      The tunnel is closed in the end unless the accept loop drops the connection. */
  method ServeConnection(client: Client, opening: Opening, token: string, caps: Caps, arrivals: seq<HeadRead>,
                         headWrite: WriteOutcome, leftoverWrite: WriteOutcome, choices: seq<Choice>)
    returns (ending: Ending, opens: bool)
    requires caps.uploadChunkBytes > 0 && client.output == [] && !client.outputShut
    requires opening.Opens? ==> opening.upstream.writes == [] && !opening.upstream.closed
    modifies client, if opening.Opens? then {opening.upstream} else {}
    ensures var outcome := ReadHead([], old(client.input), caps.maxHeaderBytes, arrivals).0;
            && (opens <==> outcome.Accepted? && CookieTokenMatches(outcome.head, TOKEN_COOKIE_NAME, token))
            && client.status == (if outcome == TooLarge then Some(431)
                                 else if !outcome.Accepted? then old(client.status)
                                 else if !opens then Some(403)
                                 else if opening.OpenFails? then Some(502)
                                 else old(client.status))
    ensures !opens && opening.Opens? ==> opening.upstream.writes == [] && !opening.upstream.closed
    ensures opens ==> TryParse(old(client.input)).Ok? && TryParse(old(client.input)).value.Some?
    ensures opens && opening.Opens? ==>
              var head, up := TryParse(old(client.input)).value.value, opening.upstream;
              && up.closed == !ending.Abandoned?
              && head.headBytesLen <= |old(client.input)|
              && Streams(Owed(old(client.input), head), Flatten(old(opening.upstream.incoming)),
                         up.writes, client.output, ending == Pumped(true))
              && (headWrite.Works? && leftoverWrite.Works?
                  && Served(choices, |old(client.input)|, |old(opening.upstream.incoming)|) ==>
                    ending == Pumped(true))
  {
    ghost var input := client.input;
    var outcome, buf := ReadHeadWithCap(client, caps.maxHeaderBytes, arrivals);
    if outcome == TooLarge {
      client.status := Some(431);
      return Refused, false;
    }
    if outcome.Failed? {
      return if outcome.why.Cancelled? then Abandoned else ReadFailed, false;
    }
    AcceptedHead([], input, caps.maxHeaderBytes, arrivals);
    assert [] + input == input == buf + client.input;
    var head := outcome.head;
    if !CookieTokenMatches(head, TOKEN_COOKIE_NAME, token) {
      client.status := Some(403);
      return Refused, false;
    }
    match opening {
      case OpenDropped => return Abandoned, true;
      case OpenFails =>
        client.status := Some(502);
        return NoUpstream, true;
      case Opens(upstream) =>
        opens := true;
        ending := Forward(client, upstream, head, buf, caps, headWrite, leftoverWrite, choices);
    }
  }

  /** A first write that does not work ends the connection. */
  method GiveUp(upstream: Upstream, w: WriteOutcome) returns (ending: Ending)
    requires !w.Works? && !upstream.closed
    modifies upstream`closed
    ensures upstream.closed == !ending.Abandoned? && !ending.Pumped?
  {
    if w.DroppedAfter? {
      return Abandoned;
    }
    upstream.closed := true;
    return WriteFailed;
  }

  /** From the opened upstream on. */
  method Forward(client: Client, upstream: Upstream, head: RequestHead, buf: seq<byte>, caps: Caps,
                 headWrite: WriteOutcome, leftoverWrite: WriteOutcome, choices: seq<Choice>) returns (ending: Ending)
    requires caps.uploadChunkBytes > 0 && client.output == [] && !client.outputShut
    requires upstream.writes == [] && !upstream.closed && head.headBytesLen <= |buf|
    modifies client`input, client`output, client`outputShut, upstream
    ensures upstream.closed == !ending.Abandoned?
    ensures Streams(Owed(buf + old(client.input), head), Flatten(old(upstream.incoming)),
                    upstream.writes, client.output, ending == Pumped(true))
    ensures headWrite.Works? && leftoverWrite.Works?
            && Served(choices, |old(client.input)|, |old(upstream.incoming)|) ==>
              ending == Pumped(true)
  {
    var rewritten := RebuildHeadStrippingCookie(head, TOKEN_COOKIE_NAME);
    var leftover := buf[head.headBytesLen..];
    ghost var up, down := Owed(buf + client.input, head), Flatten(upstream.incoming);
    PumpStart(head, buf, client.input, upstream.incoming);
    upstream.Write(rewritten, headWrite);
    if !headWrite.Works? {
      ending := GiveUp(upstream, headWrite);
      return;
    }
    assert upstream.writes == [rewritten];
    if |leftover| > 0 {
      upstream.Write(leftover, leftoverWrite);
      if !leftoverWrite.Works? {
        ending := GiveUp(upstream, leftoverWrite);
        return;
      }
      assert upstream.writes == [rewritten, leftover];
    }
    ghost var s := View(client, upstream, LIVE);
    RunFaithful(s, choices, caps.uploadChunkBytes, up, down);
    if Served(choices, |s.clientIn|, |s.upstreamIn|) {
      HalfCloseIsHarmless(s, choices, caps.uploadChunkBytes);
    }
    var f := PumpBidirectional(client, upstream, caps.uploadChunkBytes, choices);
    FaithfulEnd(PumpRun(s, choices, caps.uploadChunkBytes), up, down);
    ending := if f.cancelled then Abandoned else Pumped(f.clientDone && f.upstreamDone && !f.stopped);
  }

  lemma FaithfulEnd(s: Pump, up: seq<byte>, down: seq<byte>)
    requires Faithful(s, up, down)
    ensures Streams(up, down, s.upstreamOut, s.clientOut, s.clientDone && s.upstreamDone && !s.stopped)
  {
    assert Flatten(s.upstreamOut) + [] == Flatten(s.upstreamOut) && s.clientOut + [] == s.clientOut;
  }
}
