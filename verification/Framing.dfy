/** The four-byte big-endian length framing under every relay connection
    (choosh-protocol/src/framing.rs): encoding, and the incremental decoder, which must give the
    same frames however the stream is fragmented. */
module Framing {
  import opened Sequences
  import opened Wrappers
  import opened Utf8

  datatype FrameError = EmptyFrame | FrameTooLarge | BatchLimitExceeded | DecoderFailed

  const U32: nat := 0x1_0000_0000

  datatype Limits = Limits(maxFrameBytes: nat, maxFramesPerFeed: nat) {
    predicate Valid() {
      0 < maxFrameBytes < U32 && 0 < maxFramesPerFeed
    }
  }

  /** `u32::to_be_bytes`. */
  function Be(n: nat): (r: seq<byte>)
    requires n < U32
    ensures |r| == 4
  {
    [n / 0x100 / 0x100 / 0x100, n / 0x100 / 0x100 % 0x100, n / 0x100 % 0x100, n % 0x100]
  }

  function FromBe(b: seq<byte>): (n: nat)
    requires |b| == 4
    ensures n < U32
  {
    Shift(Shift(Shift(b[0], b[1]), b[2]), b[3])
  }

  function Shift(high: nat, low: byte): nat {
    high * 0x100 + low
  }

  lemma ShiftInverse(high: nat, low: byte)
    ensures Shift(high, low) / 0x100 == high && Shift(high, low) % 0x100 == low
  {
  }

  lemma BeRoundTrip(n: nat, b: seq<byte>)
    requires n < U32 && |b| == 4
    ensures FromBe(Be(n)) == n && Be(FromBe(b)) == b
  {
    ShiftInverse(b[0], b[1]);
    ShiftInverse(Shift(b[0], b[1]), b[2]);
    ShiftInverse(Shift(Shift(b[0], b[1]), b[2]), b[3]);
  }

  /** The most significant byte comes first. */
  lemma BigEndian(n: nat)
    requires n < U32
    ensures n == 0x100_0000 * Be(n)[0] as int + 0x1_0000 * Be(n)[1] as int + 0x100 * Be(n)[2] as int + Be(n)[3] as int
  {
  }

  function EncodeFrame(payload: seq<byte>, max: nat): Result<seq<byte>, FrameError> {
    if payload == [] then Err(EmptyFrame)
    else if |payload| > max || |payload| >= U32 then Err(FrameTooLarge)
    else Ok(Be(|payload|) + payload)
  }

  /** What a byte stream means: its complete frames, the bytes after them, and the first
      malformed length, if any. */
  datatype Parsed = Parsed(frames: seq<seq<byte>>, rest: seq<byte>, error: Option<FrameError>)

  function Parse(b: seq<byte>, max: nat): Parsed
    decreases |b|
  {
    if |b| < 4 then Parsed([], b, None)
    else
      var n := FromBe(b[..4]);
      if n == 0 then Parsed([], [], Some(EmptyFrame))
      else if n > max then Parsed([], [], Some(FrameTooLarge))
      else if |b| < 4 + n then Parsed([], b, None)
      else
        Prepend(b[4..4 + n], Parse(b[4 + n..], max))
  }

  function Prepend(f: seq<byte>, p: Parsed): Parsed {
    Parsed([f] + p.frames, p.rest, p.error)
  }

  /** A complete frame at the front is the first frame of the stream. */
  lemma ParseOneFrame(header: seq<byte>, f: seq<byte>, tail: seq<byte>, max: nat)
    requires |header| == 4 && FromBe(header) == |f| && 0 < |f| <= max
    ensures Parse(header + f + tail, max) == Prepend(f, Parse(tail, max))
  {
    var b := header + f + tail;
    assert b[..4] == header && b[4..4 + |f|] == f && b[4 + |f|..] == tail;
  }

  class FrameDecoder {
    const limits: Limits
    /** The header bytes read so far; the source keeps them as a fixed array and a length. */
    var header: seq<byte>
    var expectedPayload: Option<nat>
    var payload: seq<byte>
    var failed: bool

    ghost predicate Valid()
      reads this
    {
      && limits.Valid()
      && (!failed ==> match expectedPayload
                      case None => |header| < 4
                      case Some(n) => header == [] && 0 < n <= limits.maxFrameBytes && |payload| < n)
    }

    /** The bytes received since the last complete frame. */
    ghost function Buffered(): seq<byte>
      requires Valid() && !failed
      reads this
    {
      match expectedPayload
      case None => header
      case Some(n) => Be(n) + payload
    }

    constructor (limits: Limits)
      requires limits.Valid()
      ensures Valid() && !failed && Buffered() == [] && this.limits == limits
    {
      this.limits := limits;
      header, expectedPayload, payload, failed := [], None, [], false;
    }

    method Fail(error: FrameError) returns (r: Result<seq<seq<byte>>, FrameError>)
      modifies this
      ensures failed && r == Err(error)
    {
      failed, header, expectedPayload, payload := true, [], None, [];
      r := Err(error);
    }

    /** The header half of `feed`'s loop body: up to four length bytes from `input[i..]`. */
    method TakeHeader(input: seq<byte>, i: nat) returns (j: nat, error: Option<FrameError>)
      requires Valid() && !failed && expectedPayload.None? && i < |input|
      modifies this
      ensures i < j <= |input| && Valid() && !failed
      ensures error.Some? ==> Parse(old(Buffered()) + input[i..], limits.maxFrameBytes) == Parsed([], [], error)
      ensures error.None? ==>
                Buffered() + input[j..] == old(Buffered()) + input[i..] && (expectedPayload.None? ==> j == |input|)
    {
      ghost var stream := header + input[i..];
      var copied := Least(4 - |header|, |input| - i);
      var got := header + input[i..i + copied];
      j := i + copied;
      assert got + input[j..] == stream;
      if |got| < 4 {
        header := got;
        return j, None;
      }
      var length := FromBe(got);
      assert stream[..4] == got;
      if length == 0 {
        return j, Some(EmptyFrame);
      }
      if length > limits.maxFrameBytes {
        return j, Some(FrameTooLarge);
      }
      BeRoundTrip(length, got);
      header, expectedPayload, payload := [], Some(length), [];
      error := None;
    }

    /** The payload half: the frame, if `input[i..]` completes it. */
    method TakePayload(input: seq<byte>, i: nat) returns (j: nat, frame: Option<seq<byte>>)
      requires Valid() && !failed && expectedPayload.Some? && i <= |input|
      modifies this
      ensures i <= j <= |input| && Valid() && !failed && (i < |input| ==> i < j)
      ensures frame.None? ==> Buffered() + input[j..] == old(Buffered()) + input[i..] && j == |input|
      ensures frame.Some? ==> Buffered() == [] && expectedPayload.None?
      ensures frame.Some? ==>
                Parse(old(Buffered()) + input[i..], limits.maxFrameBytes)
                    == Prepend(frame.value, Parse(input[j..], limits.maxFrameBytes))
    {
      var expected := expectedPayload.value;
      ghost var stream := Be(expected) + payload + input[i..];
      var copied := Least(expected - |payload|, |input| - i);
      payload := payload + input[i..i + copied];
      j := i + copied;
      assert stream == Be(expected) + payload + input[j..];
      if |payload| < expected {
        return j, None;
      }
      BeRoundTrip(expected, Be(expected));
      ParseOneFrame(Be(expected), payload, input[j..], limits.maxFrameBytes);
      frame := Some(payload);
      header, expectedPayload, payload := [], None, [];
    }

    /** One turn of `feed`'s loop: header bytes if a length is still missing, then payload bytes. */
    method Advance(input: seq<byte>, i: nat) returns (j: nat, frame: Option<seq<byte>>, error: Option<FrameError>)
      requires Valid() && !failed && i < |input|
      modifies this
      ensures i < j <= |input| && Valid() && !failed
      ensures error.Some? ==> Parse(old(Buffered()) + input[i..], limits.maxFrameBytes) == Parsed([], [], error)
      ensures error.None? && frame.None? ==> Buffered() + input[j..] == old(Buffered()) + input[i..] && j == |input|
      ensures error.None? && frame.Some? ==> Buffered() == []
      ensures error.None? && frame.Some? ==>
                Parse(old(Buffered()) + input[i..], limits.maxFrameBytes)
                    == Prepend(frame.value, Parse(input[j..], limits.maxFrameBytes))
    {
      j, error := i, None;
      if expectedPayload.None? {
        j, error := TakeHeader(input, i);
        if error.Some? || expectedPayload.None? {
          return j, None, error;
        }
      }
      j, frame := TakePayload(input, j);
    }

    /** Consumes any fragment of the stream; an error is permanent. */
    method Feed(input: seq<byte>) returns (r: Result<seq<seq<byte>>, FrameError>)
      requires Valid()
      modifies this
      ensures Valid()
      ensures old(failed) ==> failed && r == Err(DecoderFailed)
      ensures !old(failed) ==>
                var (answer, rest) := FeedSpec(old(Buffered()), input, limits);
                r == answer && (failed <==> r.Err?) && (!failed ==> Buffered() == rest)
    {
      if failed {
        return Err(DecoderFailed);
      }
      var frames: seq<seq<byte>> := [];
      var i := 0;
      ghost var p := Parse(Buffered() + input, limits.maxFrameBytes);
      assert input[0..] == input;
      while i < |input|
        invariant 0 <= i <= |input| && Valid() && !failed
        invariant |frames| <= limits.maxFramesPerFeed
        invariant p == Joined(Parsed(frames, [], None), Parse(Buffered() + input[i..], limits.maxFrameBytes))
        decreases |input| - i
      {
        var frame, error;
        i, frame, error := Advance(input, i);
        if error.Some? {
          r := Fail(error.value);
          return;
        }
        if frame.Some? {
          if |frames| == limits.maxFramesPerFeed {
            r := Fail(BatchLimitExceeded);
            return;
          }
          assert Buffered() + input[i..] == input[i..];
          JoinedPrepend(frames, frame.value, Parse(input[i..], limits.maxFrameBytes));
          frames := frames + [frame.value];
        }
      }
      assert Buffered() + input[i..] == Buffered();
      BufferedIsIncomplete();
      assert p == Parsed(frames, Buffered(), None);
      r := Ok(frames);
    }

    lemma BufferedIsIncomplete()
      requires Valid() && !failed
      ensures Parse(Buffered(), limits.maxFrameBytes) == Parsed([], Buffered(), None)
    {
      if expectedPayload.Some? {
        BeRoundTrip(expectedPayload.value, Be(expectedPayload.value));
        assert Buffered()[..4] == Be(expectedPayload.value);
      }
    }
  }

  function Least(a: nat, b: nat): nat {
    if a < b then a else b
  }

  /** One `feed` on the bytes buffered so far. */
  function FeedSpec(buffered: seq<byte>, input: seq<byte>, limits: Limits)
    : (Result<seq<seq<byte>>, FrameError>, seq<byte>)
  {
    var p := Parse(buffered + input, limits.maxFrameBytes);
    if |p.frames| > limits.maxFramesPerFeed then (Err(BatchLimitExceeded), [])
    else if p.error.Some? then (Err(p.error.value), [])
    else (Ok(p.frames), p.rest)
  }

  /** All frames of a stream fed fragment by fragment, up to the first error. */
  function FeedAll(buffered: seq<byte>, parts: seq<seq<byte>>, limits: Limits)
    : Result<(seq<seq<byte>>, seq<byte>), FrameError>
    decreases |parts|
  {
    if parts == [] then Ok(([], buffered))
    else
      var (r, rest) := FeedSpec(buffered, parts[0], limits);
      var frames :- r;
      var later :- FeedAll(rest, parts[1..], limits);
      Ok((frames + later.0, later.1))
  }

  function Joined(p: Parsed, q: Parsed): Parsed {
    if p.error.Some? then p else Parsed(p.frames + q.frames, q.rest, q.error)
  }

  lemma PrependJoined(f: seq<byte>, p: Parsed, q: Parsed)
    ensures Prepend(f, Joined(p, q)) == Joined(Prepend(f, p), q)
  {
    assert [f] + (p.frames + q.frames) == ([f] + p.frames) + q.frames;
  }

  lemma JoinedPrepend(frames: seq<seq<byte>>, f: seq<byte>, q: Parsed)
    ensures Joined(Parsed(frames, [], None), Prepend(f, q)) == Joined(Parsed(frames + [f], [], None), q)
  {
    assert frames + ([f] + q.frames) == (frames + [f]) + q.frames;
  }

  /** A stream's meaning is that of its first part, continued on the bytes left over. */
  lemma {:induction false} ParseConcat(a: seq<byte>, b: seq<byte>, max: nat)
    ensures Parse(a + b, max) == Joined(Parse(a, max), Parse(Parse(a, max).rest + b, max))
    decreases |a|
  {
    if |a| >= 4 {
      var n := FromBe(a[..4]);
      assert (a + b)[..4] == a[..4];
      if 0 < n <= max && |a| >= 4 + n {
        var f, tail := a[4..4 + n], a[4 + n..];
        assert (a + b)[4..4 + n] == f && (a + b)[4 + n..] == tail + b;
        var p := Parse(tail, max);
        assert Parse(a, max) == Prepend(f, p);
        assert Parse(a + b, max) == Prepend(f, Parse(tail + b, max));
        ParseConcat(tail, b, max);
        PrependJoined(f, p, Parse(p.rest + b, max));
      } else if n == 0 || n > max {
        assert Parse(a + b, max) == Parse(a, max);
      } else {
        assert Parse(a, max) == Parsed([], a, None);
      }
    }
  }

  /** No single fragment completes more frames than one `feed` may return. */
  predicate WithinBatch(buffered: seq<byte>, parts: seq<seq<byte>>, limits: Limits)
    decreases |parts|
  {
    parts != [] ==>
      var p := Parse(buffered + parts[0], limits.maxFrameBytes);
      |p.frames| <= limits.maxFramesPerFeed && WithinBatch(p.rest, parts[1..], limits)
  }

  /** Fragmentation does not matter: on a stream without a malformed length, feeding it in any pieces
      gives its frames in order, exactly when no piece overflows the batch limit. */
  lemma {:induction false} AnyFragmentation(buffered: seq<byte>, parts: seq<seq<byte>>, limits: Limits)
    requires Parse(buffered + Flatten(parts), limits.maxFrameBytes).error.None?
    requires Parse(buffered, limits.maxFrameBytes) == Parsed([], buffered, None)
    ensures var p := Parse(buffered + Flatten(parts), limits.maxFrameBytes);
            FeedAll(buffered, parts, limits)
              == if WithinBatch(buffered, parts, limits) then Ok((p.frames, p.rest)) else Err(BatchLimitExceeded)
    decreases |parts|
  {
    var max := limits.maxFrameBytes;
    if parts == [] {
      assert buffered + Flatten(parts) == buffered;
    } else {
      var later := Flatten(parts[1..]);
      assert buffered + Flatten(parts) == buffered + parts[0] + later;
      ParseConcat(buffered + parts[0], later, max);
      var p := Parse(buffered + parts[0], max);
      RestIsIncomplete(buffered + parts[0], max);
      AnyFragmentation(p.rest, parts[1..], limits);
    }
  }

  lemma {:induction false} RestIsIncomplete(b: seq<byte>, max: nat)
    requires Parse(b, max).error.None?
    ensures Parse(Parse(b, max).rest, max) == Parsed([], Parse(b, max).rest, None)
    decreases |b|
  {
    if |b| >= 4 && |b| >= 4 + FromBe(b[..4]) {
      RestIsIncomplete(b[4 + FromBe(b[..4])..], max);
    }
  }

  function EncodeAll(frames: seq<seq<byte>>): seq<byte>
    requires forall f :: f in frames ==> |f| < U32
  {
    if frames == [] then [] else Be(|frames[0]|) + frames[0] + EncodeAll(frames[1..])
  }

  lemma {:induction false} ParseEncoded(frames: seq<seq<byte>>, max: nat)
    requires max < U32 && forall f :: f in frames ==> 0 < |f| <= max
    ensures Parse(EncodeAll(frames), max) == Parsed(frames, [], None)
  {
    if frames != [] {
      var f := frames[0];
      assert f in frames;
      BeRoundTrip(|f|, Be(|f|));
      ParseOneFrame(Be(|f|), f, EncodeAll(frames[1..]), max);
      ParseEncoded(frames[1..], max);
      assert [f] + frames[1..] == frames;
    }
  }

  /** Exactly which payloads are encoded, and as what: the length in four bytes, then the payload. */
  lemma EncodeExact(payload: seq<byte>, max: nat)
    ensures var r := EncodeFrame(payload, max);
            && (r == Err(EmptyFrame) <==> payload == [])
            && (r == Err(FrameTooLarge) <==> payload != [] && (|payload| > max || |payload| >= 0x1_0000_0000))
            && (r.Ok? <==> payload != [] && |payload| <= max && |payload| < 0x1_0000_0000)
            && (r.Ok? ==> |r.value| == 4 + |payload| && r.value[4..] == payload && FromBe(r.value[..4]) == |payload|)
  {
    if payload != [] && |payload| <= max && |payload| < U32 {
      BeRoundTrip(|payload|, Be(|payload|));
    }
  }

  /** What is not a complete frame at the front of a stream: a bad length, or one that is not all there. */
  predicate NoFrame(more: seq<byte>, max: nat) {
    |more| < 4 || FromBe(more[..4]) == 0 || FromBe(more[..4]) > max || |more| < 4 + FromBe(more[..4])
  }

  lemma NoFrameParses(more: seq<byte>, max: nat)
    requires NoFrame(more, max)
    ensures Parse(more, max)
         == if |more| >= 4 && FromBe(more[..4]) == 0 then Parsed([], [], Some(EmptyFrame))
            else if |more| >= 4 && FromBe(more[..4]) > max then Parsed([], [], Some(FrameTooLarge))
            else Parsed([], more, None)
  {
  }

  /** Behind complete frames, a length of 0 or above the bound is the stream's error, whatever follows; and a
      frame that is not all there is kept for later. */
  lemma FramesThenMore(frames: seq<seq<byte>>, more: seq<byte>, max: nat)
    requires max < U32 && (forall f :: f in frames ==> 0 < |f| <= max) && NoFrame(more, max)
    ensures Parse(EncodeAll(frames) + more, max)
         == if |more| >= 4 && FromBe(more[..4]) == 0 then Parsed(frames, [], Some(EmptyFrame))
            else if |more| >= 4 && FromBe(more[..4]) > max then Parsed(frames, [], Some(FrameTooLarge))
            else Parsed(frames, more, None)
  {
    ParseEncoded(frames, max);
    ParseConcat(EncodeAll(frames), more, max);
    assert [] + more == more && frames + [] == frames;
    NoFrameParses(more, max);
  }
}
