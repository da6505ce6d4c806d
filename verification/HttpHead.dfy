/** The HTTP/1.x head parser and the cookie-stripping rebuild (choosh-android-bridge/src/http_lite.rs). */
module HttpHead {
  import opened Wrappers
  import opened Text
  import opened Utf8

  const CRLF := "\r\n"
  const BLANK_LINE := "\r\n\r\n"

  datatype HeadError = NotUtf8 | MissingTarget | MissingVersion | MalformedHeader

  type Header = (string, string)

  datatype RequestHead = RequestHead(verb: string, target: string, version: string, headers: seq<Header>,
                                     headBytesLen: nat)

  function Lower(c: char): char {
    if 'A' <= c <= 'Z' then (c as int + 32) as char else c
  }

  predicate EqIgnoreAsciiCase(a: string, b: string) {
    |a| == |b| && forall i :: 0 <= i < |a| ==> Lower(a[i]) == Lower(b[i])
  }

  predicate IsCookie(h: Header) {
    EqIgnoreAsciiCase(h.0, "cookie")
  }

  // ---- parsing ----

  function ParseRequestLine(line: string): Result<(string, string, string), HeadError> {
    match SplitOnce(line, " ")
    case None => Err(MissingTarget)
    case Some((verb, rest)) =>
      match SplitOnce(rest, " ")
      case None => Err(MissingVersion)
      case Some((target, version)) => Ok((verb, target, version))
  }

  function ParseHeader(line: string): Result<Header, HeadError> {
    match SplitOnce(line, ":")
    case None => Err(MalformedHeader)
    case Some((name, value)) => Ok((Trim(name), Trim(value)))
  }

  function ParseHeaders(lines: seq<string>): Result<seq<Header>, HeadError> {
    if lines == [] then Ok([])
    else if lines[0] == "" then ParseHeaders(lines[1..])
    else
      var h :- ParseHeader(lines[0]);
      var later :- ParseHeaders(lines[1..]);
      Ok([h] + later)
  }

  function ParseText(text: string, headBytesLen: nat): Result<RequestHead, HeadError> {
    var lines := Split(text, CRLF);
    var line :- ParseRequestLine(lines[0]);
    var headers :- ParseHeaders(lines[1..]);
    Ok(RequestHead(line.0, line.1, line.2, headers, headBytesLen))
  }

  /** None while the blank line has not arrived. */
  function TryParse(buf: seq<byte>): Result<Option<RequestHead>, HeadError> {
    match Find(buf, Encode(BLANK_LINE))
    case None => Ok(None)
    case Some(boundary) =>
      match Decode(buf[..boundary])
      case None => Err(NotUtf8)
      case Some(text) =>
        var head :- ParseText(text, boundary + 4);
        Ok(Some(head))
  }

  function Prepended(headers: seq<Header>, r: Result<seq<Header>, HeadError>): Result<seq<Header>, HeadError> {
    match r case Ok(later) => Ok(headers + later) case Err(e) => Err(e)
  }

  lemma PrependOne(headers: seq<Header>, h: Header, r: Result<seq<Header>, HeadError>)
    ensures Prepended(headers, Prepended([h], r)) == Prepended(headers + [h], r)
    ensures Prepended([], r) == r
  {
    if r.Ok? {
      assert headers + ([h] + r.value) == (headers + [h]) + r.value;
      assert [] + r.value == r.value;
    }
  }

  method TryParseHead(buf: seq<byte>) returns (r: Result<Option<RequestHead>, HeadError>)
    ensures r == TryParse(buf)
  {
    var boundary := Find(buf, Encode(BLANK_LINE));
    if boundary.None? {
      return Ok(None);
    }
    var text := Decode(buf[..boundary.value]);
    if text.None? {
      return Err(NotUtf8);
    }
    var lines := Split(text.value, CRLF);
    var line := ParseRequestLine(lines[0]);
    if line.Err? {
      return Err(line.error);
    }
    var headers: seq<Header> := [];
    var i := 1;
    PrependOne([], ("", ""), ParseHeaders(lines[1..]));
    while i < |lines|
      invariant 1 <= i <= |lines|
      invariant ParseHeaders(lines[1..]) == Prepended(headers, ParseHeaders(lines[i..]))
    {
      assert lines[i..][0] == lines[i] && lines[i..][1..] == lines[i + 1..];
      if |lines[i]| > 0 {
        var h := ParseHeader(lines[i]);
        if h.Err? {
          return Err(h.error);
        }
        PrependOne(headers, h.value, ParseHeaders(lines[i + 1..]));
        headers := headers + [h.value];
      }
      i := i + 1;
    }
    assert ParseHeaders(lines[i..]) == Ok([]) && headers + [] == headers;
    r := Ok(Some(RequestHead(line.value.0, line.value.1, line.value.2, headers, boundary.value + 4)));
  }

  // ---- cookies ----

  function ParsePair(part: string): Option<Header> {
    match SplitOnce(Trim(part), "=")
    case None => None
    case Some((name, value)) => Some((Trim(name), Trim(value)))
  }

  function ParsePairs(parts: seq<string>): seq<Header> {
    if parts == [] then []
    else (match ParsePair(parts[0]) case Some(p) => [p] case None => []) + ParsePairs(parts[1..])
  }

  function ParseCookieHeader(value: string): seq<Header> {
    ParsePairs(Split(value, ";"))
  }

  function FirstCookieHeader(headers: seq<Header>): Option<string> {
    if headers == [] then None
    else if IsCookie(headers[0]) then Some(headers[0].1)
    else FirstCookieHeader(headers[1..])
  }

  predicate CookieTokenMatches(head: RequestHead, cookieName: string, token: string) {
    var value := FirstCookieHeader(head.headers);
    value.Some? && (cookieName, token) in ParseCookieHeader(value.value)
  }

  function Without(pairs: seq<Header>, name: string): seq<Header> {
    if pairs == [] then []
    else (if pairs[0].0 == name then [] else [pairs[0]]) + Without(pairs[1..], name)
  }

  function PrintPairs(pairs: seq<Header>): string {
    if pairs == [] then ""
    else if |pairs| == 1 then pairs[0].0 + "=" + pairs[0].1
    else pairs[0].0 + "=" + pairs[0].1 + "; " + PrintPairs(pairs[1..])
  }

  /** The headers that go upstream: every cookie header is re-printed without the gateway's own
      pair, and dropped when no pair remains. */
  function Stripped(headers: seq<Header>, name: string): seq<Header> {
    if headers == [] then []
    else
      var later := Stripped(headers[1..], name);
      if IsCookie(headers[0]) then
        var remaining := Without(ParseCookieHeader(headers[0].1), name);
        if remaining == [] then later else [("Cookie", PrintPairs(remaining))] + later
      else [headers[0]] + later
  }

  function RequestLine(head: RequestHead): string {
    head.verb + " " + head.target + " " + head.version
  }

  function HeaderLine(h: Header): string {
    h.0 + ": " + h.1
  }

  function PrintHeaders(headers: seq<Header>): string {
    if headers == [] then "" else HeaderLine(headers[0]) + CRLF + PrintHeaders(headers[1..])
  }

  function Rebuilt(head: RequestHead, name: string): seq<byte> {
    Encode(RequestLine(head) + CRLF + PrintHeaders(Stripped(head.headers, name)) + CRLF)
  }

  lemma {:induction false} PrintHeadersAppend(a: seq<Header>, b: seq<Header>)
    ensures PrintHeaders(a + b) == PrintHeaders(a) + PrintHeaders(b)
  {
    if a == [] {
      assert a + b == b;
    } else {
      assert (a + b)[1..] == a[1..] + b;
      PrintHeadersAppend(a[1..], b);
    }
  }

  lemma {:induction false} StrippedAppend(headers: seq<Header>, h: Header, name: string)
    ensures Stripped(headers + [h], name) == Stripped(headers, name) + Stripped([h], name)
  {
    if headers == [] {
      assert headers + [h] == [h];
    } else {
      assert (headers + [h])[0] == headers[0] && (headers + [h])[1..] == headers[1..] + [h];
      StrippedAppend(headers[1..], h, name);
    }
  }

  lemma EncodeThree(a: string, b: string, c: string)
    ensures Encode(a + b + c) == Encode(a) + Encode(b) + Encode(c)
  {
    EncodeConcat(a, b);
    EncodeConcat(a + b, c);
  }

  /** Appends one header line. */
  method HeaderLineBytes(h: Header) returns (out: seq<byte>)
    ensures out == Encode(PrintHeaders([h]))
  {
    out := Encode(h.0) + Encode(": ") + Encode(h.1) + Encode(CRLF);
    EncodeThree(h.0, ": ", h.1);
    EncodeConcat(HeaderLine(h), CRLF);
    assert PrintHeaders([h]) == HeaderLine(h) + CRLF + PrintHeaders([]);
    assert HeaderLine(h) + CRLF + "" == HeaderLine(h) + CRLF;
  }

  lemma StrippedOne(h: Header, name: string)
    ensures var remaining := Without(ParseCookieHeader(h.1), name);
            Stripped([h], name)
              == if !IsCookie(h) then [h] else if remaining == [] then [] else [("Cookie", PrintPairs(remaining))]
  {
    assert Stripped([], name) == [];
  }

  /** The loop body of the rebuild: what one header contributes. */
  method HeaderBytes(h: Header, name: string) returns (out: seq<byte>)
    ensures out == Encode(PrintHeaders(Stripped([h], name)))
  {
    StrippedOne(h, name);
    if IsCookie(h) {
      var remaining := Without(ParseCookieHeader(h.1), name);
      if |remaining| == 0 {
        return [];
      }
      out := HeaderLineBytes(("Cookie", PrintPairs(remaining)));
    } else {
      out := HeaderLineBytes(h);
    }
  }

  /** What the headers contribute, in bytes. */
  function HeadersBytes(headers: seq<Header>, name: string): seq<byte> {
    Encode(PrintHeaders(Stripped(headers, name)))
  }

  lemma OneMoreHeader(headers: seq<Header>, h: Header, name: string)
    ensures HeadersBytes(headers + [h], name) == HeadersBytes(headers, name) + HeadersBytes([h], name)
  {
    StrippedAppend(headers, h, name);
    PrintHeadersAppend(Stripped(headers, name), Stripped([h], name));
    EncodeConcat(PrintHeaders(Stripped(headers, name)), PrintHeaders(Stripped([h], name)));
  }

  lemma RebuiltInParts(head: RequestHead, name: string)
    ensures Rebuilt(head, name) == Encode(RequestLine(head) + CRLF) + HeadersBytes(head.headers, name) + Encode(CRLF)
  {
    EncodeThree(RequestLine(head) + CRLF, PrintHeaders(Stripped(head.headers, name)), CRLF);
  }

  lemma EncodeFive(a: string, b: string, c: string, d: string, e: string)
    ensures Encode(a + b + c + d + e) == Encode(a) + Encode(b) + Encode(c) + Encode(d) + Encode(e)
  {
    EncodeThree(a, b, c);
    EncodeThree(a + b + c, d, e);
  }

  method RequestLineBytes(head: RequestHead) returns (out: seq<byte>)
    ensures out == Encode(RequestLine(head) + CRLF)
  {
    out := Encode(head.verb) + Encode(" ") + Encode(head.target) + Encode(" ") + Encode(head.version);
    EncodeFive(head.verb, " ", head.target, " ", head.version);
    out := out + Encode(CRLF);
    EncodeConcat(RequestLine(head), CRLF);
  }

  /** The bytes written once `i` headers are done. */
  ghost predicate Written(out: seq<byte>, start: seq<byte>, headers: seq<Header>, i: nat, name: string) {
    i <= |headers| && out == start + HeadersBytes(headers[..i], name)
  }

  lemma NoneWritten(start: seq<byte>, headers: seq<Header>, name: string)
    ensures Written(start, start, headers, 0, name)
  {
    assert Stripped([], name) == [] && PrintHeaders([]) == "" && Encode("") == [];
    assert headers[..0] == [] && start + [] == start;
  }

  lemma OneMoreWritten(out: seq<byte>, start: seq<byte>, headers: seq<Header>, i: nat, name: string)
    requires i < |headers| && Written(out, start, headers, i, name)
    ensures Written(out + HeadersBytes([headers[i]], name), start, headers, i + 1, name)
  {
    var sofar, h := headers[..i], headers[i];
    TakeNext(headers, i);
    OneMoreHeader(sofar, h, name);
    Reassociate(start, HeadersBytes(sofar, name), HeadersBytes([h], name));
  }

  lemma AllWritten(out: seq<byte>, head: RequestHead, name: string)
    requires Written(out, Encode(RequestLine(head) + CRLF), head.headers, |head.headers|, name)
    ensures out + Encode(CRLF) == Rebuilt(head, name)
  {
    RebuiltInParts(head, name);
    assert head.headers[..|head.headers|] == head.headers;
  }

  method RebuildHeadStrippingCookie(head: RequestHead, name: string) returns (out: seq<byte>)
    ensures out == Rebuilt(head, name)
  {
    out := RequestLineBytes(head);
    ghost var start := out;
    var i := 0;
    NoneWritten(start, head.headers, name);
    while i < |head.headers|
      invariant 0 <= i <= |head.headers|
      invariant Written(out, start, head.headers, i, name)
    {
      var added := HeaderBytes(head.headers[i], name);
      OneMoreWritten(out, start, head.headers, i, name);
      out := out + added;
      i := i + 1;
    }
    AllWritten(out, head, name);
    out := out + Encode(CRLF);
  }
}
