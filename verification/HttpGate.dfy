/** Who gets past the loopback gateway: which bytes are a request at all, and which requests carry the
    token. Everything is stated from the bytes of the request. */
module HttpGate {
  import opened Wrappers
  import opened Text
  import opened Utf8
  import opened HttpHead
  import opened HttpRoundTrip
  import opened Gateway
  import opened GatewayConnection

  // ---- which bytes are a request ----

  lemma {:induction false} HeadersAccepted(lines: seq<string>)
    ensures ParseHeaders(lines).Ok? <==> forall l :: l in lines ==> l == "" || ':' in l
    ensures ParseHeaders(lines).Err? ==> ParseHeaders(lines).error == MalformedHeader
  {
    if lines != [] {
      HeadersAccepted(lines[1..]);
      FindChar(lines[0], ':');
      assert lines == [lines[0]] + lines[1..];
    }
  }

  predicate TwoSpaces(line: string) {
    exists i, j :: 0 <= i < j < |line| && line[i] == ' ' && line[j] == ' '
  }

  /** A request line needs two spaces. */
  lemma RequestLineAccepted(line: string)
    ensures ParseRequestLine(line) == Err(MissingTarget) <==> ' ' !in line
    ensures ParseRequestLine(line).Ok? <==> TwoSpaces(line)
    ensures ParseRequestLine(line).Err? ==> ParseRequestLine(line).error in {MissingTarget, MissingVersion}
  {
    FindChar(line, ' ');
    if ' ' in line {
      var k := Find(line, " ").value;
      var rest := line[k + 1..];
      FindChar(rest, ' ');
      if ' ' in rest {
        var m := Find(rest, " ").value;
        assert line[k] == ' ' && line[k + 1 + m] == ' ';
      } else {
        OneSpace(line, k);
      }
    }
  }

  lemma OneSpace(line: string, k: nat)
    requires k < |line| && ' ' !in line[..k] && ' ' !in line[k + 1..]
    ensures !TwoSpaces(line)
  {
    forall i | 0 <= i < |line| && i != k ensures line[i] != ' ' {
      if i < k { assert line[..k][i] == line[i]; } else { assert line[k + 1..][i - k - 1] == line[i]; }
    }
  }

  lemma ParseOf(text: string, rest: seq<byte>)
    requires Clean(text, BLANK_LINE)
    ensures var r := ParseText(text, |Encode(text)| + 4);
            TryParse(Encode(text + BLANK_LINE) + rest) == if r.Ok? then Ok(Some(r.value)) else Err(r.error)
  {
    FoundBlank(text, rest);
    DecodeEncode(text);
    ParsesTo(Encode(text + BLANK_LINE) + rest, Encode(text), text);
  }

  lemma ParsesTo(buf: seq<byte>, front: seq<byte>, text: string)
    requires Find(buf, Encode(BLANK_LINE)) == Some(|front|) && buf[..|front|] == front && Decode(front) == Some(text)
    ensures var r := ParseText(text, |front| + 4);
            TryParse(buf) == if r.Ok? then Ok(Some(r.value)) else Err(r.error)
  {
  }

  /** Exactly which texts in front of the first blank line are a request head: the request line has two
      spaces, and every other line is empty or has a colon. What is wrong first is the error. */
  lemma HeadAcceptedExactly(lines: seq<string>, rest: seq<byte>)
    requires lines != [] && Clean(Join(lines, "\r\n"), "\r\n\r\n")
    requires forall l :: l in lines ==> Clean(l, "\r\n")
    ensures var r := TryParse(Encode(Join(lines, "\r\n") + "\r\n\r\n") + rest);
            && (r.Ok? ==> r.value.Some?)
            && (r.Ok? <==> TwoSpaces(lines[0]) && forall l :: l in lines[1..] ==> l == "" || ':' in l)
            && (r == Err(MissingTarget) <==> ' ' !in lines[0])
            && (r == Err(MissingVersion) <==> ' ' in lines[0] && !TwoSpaces(lines[0]))
            && (r == Err(MalformedHeader) <==>
                  TwoSpaces(lines[0]) && exists l :: l in lines[1..] && l != "" && ':' !in l)
  {
    ParseOf(Join(lines, CRLF), rest);
    SplitJoin(lines, CRLF);
    RequestLineAccepted(lines[0]);
    HeadersAccepted(lines[1..]);
  }

  /** Bytes in front of the first blank line that are no UTF-8 are no request head. */
  lemma NotTextIsRefused(front: seq<byte>, rest: seq<byte>)
    requires Clean(front, Encode(BLANK_LINE)) && Decode(front).None?
    ensures TryParse(front + Encode(BLANK_LINE) + rest) == Err(NotUtf8)
  {
    FindAfterClean(front, Encode(BLANK_LINE), rest);
    assert (front + Encode(BLANK_LINE) + rest)[..|front|] == front;
  }

  // ---- which requests carry the token ----

  /** The six letters, each in either case. */
  predicate SaysCookie(name: string) {
    && |name| == 6
    && (name[0] == 'c' || name[0] == 'C') && (name[1] == 'o' || name[1] == 'O')
    && (name[2] == 'o' || name[2] == 'O') && (name[3] == 'k' || name[3] == 'K')
    && (name[4] == 'i' || name[4] == 'I') && (name[5] == 'e' || name[5] == 'E')
  }

  lemma CookieNames(name: string)
    ensures EqIgnoreAsciiCase(name, "cookie") <==> SaysCookie(name)
  {
    var c := "cookie";
    if |name| == 6 {
      assert c[0] == 'c' && c[1] == 'o' && c[2] == 'o' && c[3] == 'k' && c[4] == 'i' && c[5] == 'e';
    }
  }

  lemma {:induction false} FirstCookieIs(headers: seq<Header>, k: nat)
    requires k < |headers| && SaysCookie(headers[k].0) && forall i :: 0 <= i < k ==> !SaysCookie(headers[i].0)
    ensures FirstCookieHeader(headers) == Some(headers[k].1)
  {
    CookieNames(headers[0].0);
    if k > 0 {
      FirstCookieIs(headers[1..], k - 1);
    }
  }

  lemma {:induction false} NoFirstCookie(headers: seq<Header>)
    requires forall h :: h in headers ==> !SaysCookie(h.0)
    ensures FirstCookieHeader(headers) == None
  {
    if headers != [] {
      CookieNames(headers[0].0);
      NoFirstCookie(headers[1..]);
    }
  }

  lemma PairsOfValue(pairs: seq<Header>)
    requires GoodPairs(pairs)
    ensures ParseCookieHeader(PrintPairs(pairs)) == pairs
  {
    if pairs != [] {
      PrintedCookieHeader(pairs);
    } else {
      FindChar("", ';');
      FindChar("", '=');
      assert Split("", ";") == [""] && ParsePairs([""]) == ParsePairs([]);
    }
  }

  /** The gateway opens the tunnel for this request exactly when the first cookie header, in any letter
      case, lists the token under the gateway's name. */
  lemma GateExact(head: RequestHead, k: nat, pairs: seq<Header>, token: string)
    requires k < |head.headers| && SaysCookie(head.headers[k].0)
    requires forall i :: 0 <= i < k ==> !SaysCookie(head.headers[i].0)
    requires GoodPairs(pairs) && head.headers[k].1 == PrintPairs(pairs)
    ensures CookieTokenMatches(head, TOKEN_COOKIE_NAME, token) <==> ("choosh_gw_token", token) in pairs
  {
    FirstCookieIs(head.headers, k);
    PairsOfValue(pairs);
  }

  /** Without a cookie header it never does. */
  lemma NoCookieNoEntry(head: RequestHead, token: string)
    requires forall h :: h in head.headers ==> !SaysCookie(h.0)
    ensures !CookieTokenMatches(head, TOKEN_COOKIE_NAME, token)
  {
    NoFirstCookie(head.headers);
  }

  /** What `ServeConnection` tests before it opens a tunnel. */
  ghost predicate LetIn(input: seq<byte>, cap: nat, arrivals: seq<HeadRead>, token: string) {
    var outcome := ReadHead([], input, cap, arrivals).0;
    outcome.Accepted? && CookieTokenMatches(outcome.head, TOKEN_COOKIE_NAME, token)
  }

  lemma HeadOfRequest(head: RequestHead, rest: seq<byte>, cap: nat, arrivals: seq<HeadRead>)
    requires GoodHead(head)
    ensures var outcome := ReadHead([], Encode(Printed(head)) + rest, cap, arrivals).0;
            outcome.Accepted? ==> outcome.head.headers == head.headers
  {
    var input := Encode(Printed(head)) + rest;
    PrintedParses(head, rest);
    if ReadHead([], input, cap, arrivals).0.Accepted? {
      AcceptedHead([], input, cap, arrivals);
      assert [] + input == input;
    }
  }

  /** From the request's bytes, however they arrive: if the head is accepted at all, the connection is let
      in iff its first cookie header lists the token. */
  lemma LetInByToken(head: RequestHead, rest: seq<byte>, cap: nat, arrivals: seq<HeadRead>, k: nat,
                     pairs: seq<Header>, token: string)
    requires GoodHead(head) && k < |head.headers| && SaysCookie(head.headers[k].0)
    requires forall i :: 0 <= i < k ==> !SaysCookie(head.headers[i].0)
    requires GoodPairs(pairs) && head.headers[k].1 == PrintPairs(pairs)
    ensures var input := Encode(Printed(head)) + rest;
            LetIn(input, cap, arrivals, token) <==>
              ReadHead([], input, cap, arrivals).0.Accepted? && ("choosh_gw_token", token) in pairs
  {
    HeadOfRequest(head, rest, cap, arrivals);
    var outcome := ReadHead([], Encode(Printed(head)) + rest, cap, arrivals).0;
    if outcome.Accepted? {
      GateExact(outcome.head, k, pairs, token);
    }
  }

  /** And a request without a cookie header is never let in. */
  lemma NeverLetInWithoutCookie(head: RequestHead, rest: seq<byte>, cap: nat, arrivals: seq<HeadRead>, token: string)
    requires GoodHead(head) && forall h :: h in head.headers ==> !SaysCookie(h.0)
    ensures !LetIn(Encode(Printed(head)) + rest, cap, arrivals, token)
  {
    HeadOfRequest(head, rest, cap, arrivals);
    var outcome := ReadHead([], Encode(Printed(head)) + rest, cap, arrivals).0;
    if outcome.Accepted? {
      NoCookieNoEntry(outcome.head, token);
    }
  }

  // ---- what the gateway takes away ----

  lemma {:induction false} WithoutConcat(a: seq<Header>, b: seq<Header>, name: string)
    ensures Without(a + b, name) == Without(a, name) + Without(b, name)
  {
    if a == [] {
      assert a + b == b;
    } else {
      WithoutConcat(a[1..], b, name);
      assert (a + b)[0] == a[0] && (a + b)[1..] == a[1..] + b;
      Reassociate(if a[0].0 == name then [] else [a[0]], Without(a[1..], name), Without(b, name));
    }
  }

  lemma WithoutOne(p: Header, name: string)
    ensures Without([p], name) == if p.0 == name then [] else [p]
  {
    assert [p][1..] == [];
  }

  /** Pair by pair: the gateway's own pairs go, wherever they stand, and every other one stays in its place. */
  lemma PairByPair(before: seq<Header>, p: Header, after: seq<Header>, name: string)
    ensures Without(before + [p] + after, name)
         == Without(before, name) + (if p.0 == name then [] else [p]) + Without(after, name)
  {
    WithoutConcat(before + [p], after, name);
    WithoutConcat(before, [p], name);
    WithoutOne(p, name);
  }

  // ---- why a head is not accepted ----

  /** The arrivals up to one of this kind, or to the end, all bring bytes. */
  ghost predicate EndsWith(arrivals: seq<HeadRead>, j: nat, kind: HeadRead) {
    j < |arrivals| && arrivals[j] == kind && AllArrive(arrivals[..j])
  }

  ghost predicate Because(o: HeadOutcome, buf: seq<byte>, unread: seq<byte>, cap: nat, arrivals: seq<HeadRead>) {
    match o
    case TooLarge => |buf| > cap
    case Accepted(head) => |buf| <= cap && TryParse(buf) == Ok(Some(head))
    case Failed(Invalid(e)) => |buf| <= cap && TryParse(buf) == Err(e)
    case Failed(UnexpectedEof) => unread == [] && TryParse(buf) == Ok(None)
    case Failed(Broken) => exists j: nat :: EndsWith(arrivals, j, Breaks)
    case Failed(Cancelled) => exists j: nat :: EndsWith(arrivals, j, Dropped)
    case Failed(TimedOut) => AllArrive(arrivals) || exists j: nat :: EndsWith(arrivals, j, Idles)
  }

  /** Each outcome of reading a head has its own cause; in particular only a buffer over the cap is called
      too large, and only a real end of the stream an early end. */
  lemma {:induction false} OutcomeHasItsCause(buf: seq<byte>, input: seq<byte>, cap: nat, arrivals: seq<HeadRead>)
    ensures var (o, buf', unread) := ReadHead(buf, input, cap, arrivals);
            Because(o, buf', unread, cap, arrivals)
    decreases |arrivals|
  {
    if |buf| <= cap && TryParse(buf) == Ok(None) && arrivals != [] {
      assert arrivals[..0] == [];
      if arrivals[0].Arrives? {
        var k := ReadSize(arrivals[0].n, READ_CHUNK, |input|);
        if k > 0 {
          OutcomeHasItsCause(buf + input[..k], input[k..], cap, arrivals[1..]);
          var (o, buf', unread) := ReadHead(buf + input[..k], input[k..], cap, arrivals[1..]);
          CauseShifts(o, buf', unread, cap, arrivals);
        }
      } else {
        assert EndsWith(arrivals, 0, arrivals[0]);
      }
    }
  }

  lemma CauseShifts(o: HeadOutcome, buf: seq<byte>, unread: seq<byte>, cap: nat, arrivals: seq<HeadRead>)
    requires arrivals != [] && arrivals[0].Arrives? && Because(o, buf, unread, cap, arrivals[1..])
    ensures Because(o, buf, unread, cap, arrivals)
  {
    forall j: nat | j < |arrivals[1..]| && AllArrive(arrivals[1..][..j])
      ensures EndsWith(arrivals, j + 1, arrivals[j + 1])
    {
      ShiftEnd(arrivals, j);
    }
    assert AllArrive(arrivals[1..]) ==> AllArrive(arrivals);
  }

  lemma ShiftEnd(arrivals: seq<HeadRead>, j: nat)
    requires arrivals != [] && arrivals[0].Arrives? && j < |arrivals[1..]| && AllArrive(arrivals[1..][..j])
    ensures EndsWith(arrivals, j + 1, arrivals[j + 1])
  {
    assert arrivals[..j + 1] == [arrivals[0]] + arrivals[1..][..j];
  }
}
