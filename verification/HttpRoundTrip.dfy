/** What the rebuilt head means: for every head the parser accepted, the rebuilt bytes parse again,
    name the same request, and carry every cookie pair but the gateway's own. */
module HttpRoundTrip {
  import opened Wrappers
  import opened Text
  import opened Utf8
  import opened Utf8Search
  import opened HttpHead

  // ---- text free of line breaks ----

  predicate CrlfAt(s: string, i: nat) {
    i + 1 < |s| && s[i] == '\r' && s[i + 1] == '\n'
  }

  ghost predicate NoCrlf(s: string) {
    forall i: nat :: !CrlfAt(s, i)
  }

  lemma NoCrlfClean(a: string)
    requires NoCrlf(a)
    ensures Clean(a, CRLF)
  {
    forall j | 0 <= j < |a| ensures !OccursAt(a + CRLF, CRLF, j) {
      assert !CrlfAt(a, j);
      var k := if a[j] == '\r' then 1 else 0;
      NotAt(a + CRLF, CRLF, j, k);
    }
  }

  lemma NoCrlfPart(s: string, p: string, i: nat)
    requires NoCrlf(s) && OccursAt(s, p, i)
    ensures NoCrlf(p)
  {
    forall j: nat ensures !CrlfAt(p, j) {
      assert !CrlfAt(s, i + j);
      if j + 1 < |p| {
        assert p[j] == s[i + j] && p[j + 1] == s[i + j + 1];
      }
    }
  }

  lemma NoCrlfTrim(s: string)
    requires NoCrlf(s)
    ensures NoCrlf(Trim(s)) && Trimmed(Trim(s))
  {
    var i := TrimIsSubstring(s);
    NoCrlfPart(s, Trim(s), i);
  }

  lemma NoCrlfAround(a: string, c: char, b: string)
    requires NoCrlf(a) && NoCrlf(b) && c != '\r' && c != '\n'
    ensures NoCrlf(a + [c] + b)
  {
    var s := a + [c] + b;
    forall j: nat ensures !CrlfAt(s, j) {
      assert !CrlfAt(a, j);
      if |a| < j {
        assert !CrlfAt(b, j - |a| - 1);
      }
    }
  }

  lemma NoCrlfFront(c: char, b: string)
    requires NoCrlf(b) && c != '\r'
    ensures NoCrlf([c] + b)
  {
    forall j: nat ensures !CrlfAt([c] + b, j) {
      if 0 < j {
        assert !CrlfAt(b, j - 1);
      }
    }
  }

  lemma NoCrlfLine(text: string, i: nat)
    requires i < |Split(text, CRLF)|
    ensures NoCrlf(Split(text, CRLF)[i])
  {
    SplitParts(text, CRLF, i);
    var s := Split(text, CRLF)[i];
    forall j: nat ensures !CrlfAt(s, j) {
      assert !OccursAt(s, CRLF, j);
      if j + 1 < |s| {
        assert s[j..j + 2] == [s[j], s[j + 1]];
      }
    }
  }

  lemma SubstringKeeps(s: string, p: string, i: nat, c: char)
    requires OccursAt(s, p, i) && c !in s
    ensures c !in p
  {
    assert forall j :: 0 <= j < |p| ==> p[j] == s[i + j];
  }

  lemma TrimKeeps(s: string, c: char)
    requires c !in s
    ensures c !in Trim(s)
  {
    var i := TrimIsSubstring(s);
    SubstringKeeps(s, Trim(s), i, c);
  }

  /** Both halves of a split at one character. */
  lemma SplitOnceHalves(s: string, c: char)
    requires SplitOnce(s, [c]).Some? && NoCrlf(s)
    ensures var (a, b) := SplitOnce(s, [c]).value;
            c !in a && NoCrlf(a) && NoCrlf(b) && OccursAt(s, a, 0) && OccursAt(s, b, |a| + 1)
  {
    FindChar(s, c);
    var (a, b) := SplitOnce(s, [c]).value;
    NoCrlfPart(s, a, 0);
    NoCrlfPart(s, b, |a| + 1);
  }

  // ---- what the parser guarantees of a head it returns ----

  ghost predicate GoodHeader(h: Header) {
    ':' !in h.0 && Trimmed(h.0) && Trimmed(h.1) && NoCrlf(h.0) && NoCrlf(h.1)
  }

  ghost predicate GoodHeaders(headers: seq<Header>) {
    forall h :: h in headers ==> GoodHeader(h)
  }

  ghost predicate GoodHead(head: RequestHead) {
    ' ' !in head.verb && ' ' !in head.target && NoCrlf(RequestLine(head)) && GoodHeaders(head.headers)
  }

  lemma ParsedHeader(line: string)
    requires NoCrlf(line) && ParseHeader(line).Ok?
    ensures GoodHeader(ParseHeader(line).value)
  {
    SplitOnceHalves(line, ':');
    var (name, value) := SplitOnce(line, ":").value;
    TrimKeeps(name, ':');
    NoCrlfTrim(name);
    NoCrlfTrim(value);
  }

  lemma {:induction false} ParsedHeaders(lines: seq<string>)
    requires ParseHeaders(lines).Ok? && forall l :: l in lines ==> NoCrlf(l)
    ensures GoodHeaders(ParseHeaders(lines).value)
  {
    if lines != [] {
      ParsedHeaders(lines[1..]);
      if lines[0] != "" {
        ParsedHeader(lines[0]);
      }
    }
  }

  lemma ParsedRequestLine(line: string)
    requires ParseRequestLine(line).Ok?
    ensures var (verb, target, version) := ParseRequestLine(line).value;
            ' ' !in verb && ' ' !in target && line == verb + " " + target + " " + version
  {
    FindChar(line, ' ');
    var (verb, rest) := SplitOnce(line, " ").value;
    FindChar(rest, ' ');
    var (target, version) := SplitOnce(rest, " ").value;
    Reassociate(verb + " ", target + " ", version);
    Reassociate(verb + " ", target, " ");
  }

  lemma ParsedHead(buf: seq<byte>)
    requires TryParse(buf).Ok? && TryParse(buf).value.Some?
    ensures GoodHead(TryParse(buf).value.value)
  {
    var text := Decode(buf[..Find(buf, Encode(BLANK_LINE)).value]).value;
    var lines := Split(text, CRLF);
    forall l | l in lines ensures NoCrlf(l) {
      var i :| 0 <= i < |lines| && lines[i] == l;
      NoCrlfLine(text, i);
    }
    ParsedRequestLine(lines[0]);
    ParsedHeaders(lines[1..]);
  }

  // ---- printing a good head and parsing it back ----

  function HeaderLines(headers: seq<Header>): seq<string> {
    if headers == [] then [] else [HeaderLine(headers[0])] + HeaderLines(headers[1..])
  }

  ghost predicate GoodLine(l: string) {
    l != "" && NoCrlf(l)
  }

  lemma GoodHeaderLine(h: Header)
    requires GoodHeader(h)
    ensures GoodLine(HeaderLine(h)) && ParseHeader(HeaderLine(h)) == Ok(h)
  {
    var (name, value) := h;
    NoCrlfFront(' ', value);
    NoCrlfAround(name, ':', " " + value);
    assert name + ":" + (" " + value) == HeaderLine(h);
    CleanOfChar(name, ':');
    SplitOnceClean(name, ":", " " + value);
    TrimLeading(' ', value);
  }

  lemma {:induction false} GoodHeaderLines(headers: seq<Header>)
    requires GoodHeaders(headers)
    ensures forall l :: l in HeaderLines(headers) ==> GoodLine(l)
    ensures ParseHeaders(HeaderLines(headers)) == Ok(headers)
  {
    if headers != [] {
      var lines := HeaderLines(headers);
      GoodHeaderLine(headers[0]);
      GoodHeaderLines(headers[1..]);
      assert lines[1..] == HeaderLines(headers[1..]);
      assert headers == [headers[0]] + headers[1..];
    }
  }

  /** The printed head is its lines, joined, and the blank line. */
  lemma {:induction false} JoinPrinted(first: string, headers: seq<Header>)
    ensures first + CRLF + PrintHeaders(headers) + CRLF == Join([first] + HeaderLines(headers), CRLF) + BLANK_LINE
    decreases |headers|
  {
    var lines := [first] + HeaderLines(headers);
    if headers == [] {
      assert lines == [first];
      assert first + CRLF + "" + CRLF == first + BLANK_LINE;
    } else {
      var second, later := HeaderLine(headers[0]), headers[1..];
      JoinPrinted(second, later);
      assert lines[0] == first && lines[1..] == [second] + HeaderLines(later);
      JoinShift(first, second + CRLF, PrintHeaders(later), Join(lines[1..], CRLF));
    }
  }

  lemma JoinShift(first: string, a: string, b: string, joined: string)
    requires a + b + CRLF == joined + BLANK_LINE
    ensures first + CRLF + (a + b) + CRLF == first + CRLF + joined + BLANK_LINE
  {
    Reassociate(first + CRLF, a + b, CRLF);
    Reassociate(first + CRLF, joined, BLANK_LINE);
  }

  /** The blank line occurs nowhere in the joined lines. */
  lemma {:induction false} JoinClean(lines: seq<string>)
    requires |lines| > 0 && forall l :: l in lines ==> GoodLine(l)
    ensures Clean(Join(lines, CRLF), BLANK_LINE)
  {
    var first := lines[0];
    assert GoodLine(first);
    if |lines| == 1 {
      forall j | 0 <= j < |first| ensures !OccursAt(first + BLANK_LINE, BLANK_LINE, j) {
        NoBlankInside(first, j);
      }
    } else {
      var rest := Join(lines[1..], CRLF);
      JoinClean(lines[1..]);
      assert GoodLine(lines[1]);
      JoinStart(lines[1..]);
      var s := first + CRLF + rest;
      assert s + BLANK_LINE == (first + CRLF) + (rest + BLANK_LINE);
      forall j | 0 <= j < |s| ensures !OccursAt(s + BLANK_LINE, BLANK_LINE, j) {
        if j < |first| + 2 {
          NoBlankBefore(first, rest + BLANK_LINE, j);
        } else {
          OccursInSuffix(first + CRLF, rest + BLANK_LINE, BLANK_LINE, j - (|first| + 2));
        }
      }
    }
  }

  /** A text that does not open with a line break. */
  predicate Opens(s: string) {
    |s| > 1 && !(s[0] == '\r' && s[1] == '\n')
  }

  lemma NoBlankInside(first: string, j: nat)
    requires NoCrlf(first) && j < |first|
    ensures !OccursAt(first + BLANK_LINE, BLANK_LINE, j)
  {
    assert !CrlfAt(first, j);
    NotAt(first + BLANK_LINE, BLANK_LINE, j, if first[j] == '\r' then 1 else 0);
  }

  lemma NoBlankBefore(first: string, after: string, j: nat)
    requires NoCrlf(first) && Opens(after) && j < |first| + 2
    ensures !OccursAt((first + CRLF) + after, BLANK_LINE, j)
  {
    var s := (first + CRLF) + after;
    assert !CrlfAt(first, j);
    var k := if j < |first| then (if first[j] == '\r' then 1 else 0)
             else if j == |first| then (if after[0] == '\r' then 3 else 2)
             else 0;
    assert j == |first| ==> s[j + 2] == after[0] && s[j + 3] == after[1];
    NotAt(s, BLANK_LINE, j, k);
  }

  lemma JoinStart(lines: seq<string>)
    requires |lines| > 0 && GoodLine(lines[0])
    ensures Opens(Join(lines, CRLF) + BLANK_LINE)
  {
    var l, s := lines[0], Join(lines, CRLF) + BLANK_LINE;
    assert s[0] == l[0] && !CrlfAt(l, 0);
    if |l| > 1 {
      assert s[1] == l[1];
    } else {
      assert s[1] == '\r';
    }
  }

  lemma RequestLineBack(head: RequestHead)
    requires ' ' !in head.verb && ' ' !in head.target
    ensures ParseRequestLine(RequestLine(head)) == Ok((head.verb, head.target, head.version))
  {
    var rest := head.target + " " + head.version;
    Reassociate(head.verb + " ", head.target + " ", head.version);
    Reassociate(head.verb + " ", head.target, " ");
    CleanOfChar(head.verb, ' ');
    SplitOnceClean(head.verb, " ", rest);
    CleanOfChar(head.target, ' ');
    SplitOnceClean(head.target, " ", head.version);
  }

  function Printed(head: RequestHead): string {
    RequestLine(head) + CRLF + PrintHeaders(head.headers) + CRLF
  }

  lemma TextBack(head: RequestHead, n: nat)
    requires GoodHead(head)
    ensures ParseText(Join([RequestLine(head)] + HeaderLines(head.headers), CRLF), n) == Ok(head.(headBytesLen := n))
    ensures Clean(Join([RequestLine(head)] + HeaderLines(head.headers), CRLF), BLANK_LINE)
  {
    var lines := [RequestLine(head)] + HeaderLines(head.headers);
    GoodHeaderLines(head.headers);
    JoinClean(lines);
    forall l | l in lines ensures Clean(l, CRLF) {
      assert GoodLine(l);
      NoCrlfClean(l);
    }
    SplitJoin(lines, CRLF);
    assert lines[1..] == HeaderLines(head.headers);
    RequestLineBack(head);
  }

  lemma FoundBlank(text: string, rest: seq<byte>)
    requires Clean(text, BLANK_LINE)
    ensures var buf := Encode(text + BLANK_LINE) + rest;
            Find(buf, Encode(BLANK_LINE)) == Some(|Encode(text)|) && buf[..|Encode(text)|] == Encode(text)
    ensures |Encode(text + BLANK_LINE)| == |Encode(text)| + 4
  {
    CleanEncoded(text, BLANK_LINE);
    EncodeConcat(text, BLANK_LINE);
    EncodeAscii(BLANK_LINE);
    FindAfterClean(Encode(text), Encode(BLANK_LINE), rest);
  }

  /** What stands in front of the first blank line decides the parse. */
  lemma HeadAt(buf: seq<byte>, front: seq<byte>, text: string, head: RequestHead)
    requires Find(buf, Encode(BLANK_LINE)) == Some(|front|) && buf[..|front|] == front && Decode(front) == Some(text)
    requires ParseText(text, |front| + 4) == Ok(head)
    ensures TryParse(buf) == Ok(Some(head))
  {
  }

  lemma TextParses(text: string, rest: seq<byte>, head: RequestHead)
    requires Clean(text, BLANK_LINE) && ParseText(text, |Encode(text + BLANK_LINE)|) == Ok(head)
    ensures TryParse(Encode(text + BLANK_LINE) + rest) == Ok(Some(head))
  {
    FoundBlank(text, rest);
    DecodeEncode(text);
    HeadAt(Encode(text + BLANK_LINE) + rest, Encode(text), text, head);
  }

  /** Whatever follows it, a printed good head parses to itself, up to its length in bytes. */
  lemma PrintedParses(head: RequestHead, rest: seq<byte>)
    requires GoodHead(head)
    ensures TryParse(Encode(Printed(head)) + rest) == Ok(Some(head.(headBytesLen := |Encode(Printed(head))|)))
  {
    var text := Join([RequestLine(head)] + HeaderLines(head.headers), CRLF);
    var n := |Encode(text + BLANK_LINE)|;
    JoinPrinted(RequestLine(head), head.headers);
    TextBack(head, n);
    TextParses(text, rest, head.(headBytesLen := n));
  }

  // ---- cookie pairs ----

  ghost predicate GoodPair(p: Header) {
    '=' !in p.0 && ';' !in p.0 && ';' !in p.1 && Trimmed(p.0) && Trimmed(p.1) && NoCrlf(p.0) && NoCrlf(p.1)
  }

  ghost predicate GoodPairs(pairs: seq<Header>) {
    forall p :: p in pairs ==> GoodPair(p)
  }

  lemma ParsedPair(part: string)
    requires ';' !in part && NoCrlf(part) && ParsePair(part).Some?
    ensures GoodPair(ParsePair(part).value)
  {
    var s := Trim(part);
    TrimKeeps(part, ';');
    NoCrlfTrim(part);
    SplitOnceHalves(s, '=');
    var (name, value) := SplitOnce(s, "=").value;
    SubstringKeeps(s, name, 0, ';');
    SubstringKeeps(s, value, |name| + 1, ';');
    TrimKeeps(name, '=');
    TrimKeeps(name, ';');
    TrimKeeps(value, ';');
    NoCrlfTrim(name);
    NoCrlfTrim(value);
  }

  lemma {:induction false} ParsedPairs(parts: seq<string>)
    requires forall s :: s in parts ==> ';' !in s && NoCrlf(s)
    ensures GoodPairs(ParsePairs(parts))
  {
    if parts != [] {
      ParsedPairs(parts[1..]);
      if ParsePair(parts[0]).Some? {
        ParsedPair(parts[0]);
      }
    }
  }

  lemma {:induction false} CookieParts(value: string)
    requires NoCrlf(value)
    ensures forall s :: s in Split(value, ";") ==> ';' !in s && NoCrlf(s)
    decreases |value|
  {
    FindChar(value, ';');
    if Find(value, ";").Some? {
      var k := Find(value, ";").value;
      NoCrlfPart(value, value[..k], 0);
      NoCrlfPart(value, value[k + 1..], k + 1);
      CookieParts(value[k + 1..]);
    }
  }

  lemma ParsedCookieHeader(value: string)
    requires NoCrlf(value)
    ensures GoodPairs(ParseCookieHeader(value))
  {
    CookieParts(value);
    ParsedPairs(Split(value, ";"));
  }

  function PrintPair(p: Header): string {
    p.0 + "=" + p.1
  }

  lemma GoodPairText(p: Header)
    requires GoodPair(p)
    ensures Trimmed(PrintPair(p)) && NoCrlf(PrintPair(p)) && ';' !in PrintPair(p) && PrintPair(p) != ""
    ensures ParsePair(PrintPair(p)) == Some(p) && ParsePair(" " + PrintPair(p)) == Some(p)
  {
    var (name, value) := p;
    NoCrlfAround(name, '=', value);
    TrimLeading(' ', PrintPair(p));
    CleanOfChar(name, '=');
    SplitOnceClean(name, "=", value);
  }

  /** Printed pairs, possibly behind a space, split and parse back to themselves. */
  lemma {:induction false} PairsBack(lead: string, pairs: seq<Header>)
    requires (lead == "" || lead == " ") && pairs != [] && GoodPairs(pairs)
    ensures ParsePairs(Split(lead + PrintPairs(pairs), ";")) == pairs
    decreases |pairs|
  {
    var p, later := pairs[0], pairs[1..];
    assert GoodPair(p) && pairs == [p] + later;
    LeadPair(lead, p);
    if later == [] {
      LastPair(lead + PrintPair(p), p);
    } else {
      PairsBack(" ", later);
      PrintedLead(lead, PrintPair(p), PrintPairs(later));
      MorePairs(lead + PrintPair(p), " " + PrintPairs(later), p);
    }
  }

  lemma LeadPair(lead: string, p: Header)
    requires (lead == "" || lead == " ") && GoodPair(p)
    ensures ';' !in lead + PrintPair(p) && ParsePair(lead + PrintPair(p)) == Some(p)
  {
    GoodPairText(p);
    assert "" + PrintPair(p) == PrintPair(p);
  }

  lemma LastPair(one: string, p: Header)
    requires ';' !in one && ParsePair(one) == Some(p)
    ensures ParsePairs(Split(one, ";")) == [p]
  {
    FindChar(one, ';');
    assert ParsePairs([one]) == [p] + ParsePairs([]);
  }

  lemma MorePairs(one: string, rest: string, p: Header)
    requires ';' !in one && ParsePair(one) == Some(p)
    ensures ParsePairs(Split(one + ";" + rest, ";")) == [p] + ParsePairs(Split(rest, ";"))
  {
    FirstPair(one, rest);
    assert ([one] + Split(rest, ";"))[1..] == Split(rest, ";");
  }

  lemma PrintedLead(lead: string, first: string, later: string)
    ensures lead + (first + "; " + later) == lead + first + ";" + (" " + later)
  {
  }

  lemma FirstPair(one: string, rest: string)
    requires ';' !in one
    ensures Split(one + ";" + rest, ";") == [one] + Split(rest, ";")
  {
    CleanOfChar(one, ';');
    FindAfterClean(one, ";", rest);
    var s := one + ";" + rest;
    assert s[..|one|] == one && s[|one| + 1..] == rest;
  }

  /** RFC 6265 section 4.2.1: the printed header is well formed and lists exactly the pairs. */
  lemma {:induction false} PrintedCookieHeader(pairs: seq<Header>)
    requires pairs != [] && GoodPairs(pairs)
    ensures ParseCookieHeader(PrintPairs(pairs)) == pairs
    ensures PrintPairs(pairs) != "" && Trimmed(PrintPairs(pairs)) && NoCrlf(PrintPairs(pairs))
  {
    PairsBack("", pairs);
    assert "" + PrintPairs(pairs) == PrintPairs(pairs);
    PrintedPairsText(pairs);
  }

  lemma {:induction false} PrintedPairsText(pairs: seq<Header>)
    requires pairs != [] && GoodPairs(pairs)
    ensures PrintPairs(pairs) != "" && Trimmed(PrintPairs(pairs)) && NoCrlf(PrintPairs(pairs))
  {
    assert GoodPair(pairs[0]);
    GoodPairText(pairs[0]);
    if |pairs| > 1 {
      PrintedPairsText(pairs[1..]);
      Appended(PrintPair(pairs[0]), PrintPairs(pairs[1..]));
    }
  }

  lemma Appended(a: string, b: string)
    requires a != "" && b != "" && Trimmed(a) && Trimmed(b) && NoCrlf(a) && NoCrlf(b)
    ensures Trimmed(a + "; " + b) && NoCrlf(a + "; " + b)
  {
    var s := a + "; " + b;
    assert s[0] == a[0] && s[|s| - 1] == b[|b| - 1];
    NoCrlfFront(' ', b);
    NoCrlfAround(a, ';', " " + b);
    assert a + ";" + (" " + b) == s;
  }

  lemma {:induction false} WithoutKeeps(pairs: seq<Header>, name: string)
    ensures forall p :: p in Without(pairs, name) <==> p in pairs && p.0 != name
  {
    if pairs != [] {
      WithoutKeeps(pairs[1..], name);
    }
  }

  lemma {:induction false} WithoutTwice(pairs: seq<Header>, name: string)
    requires forall p :: p in pairs ==> p.0 != name
    ensures Without(pairs, name) == pairs
  {
    if pairs != [] {
      WithoutTwice(pairs[1..], name);
    }
  }

  // ---- the stripped headers ----

  /** What one header means: another header as it stands, or a list of cookie pairs. */
  datatype Meaning = Other(header: Header) | Cookies(pairs: seq<Header>)

  function MeaningOf(h: Header): Meaning {
    if IsCookie(h) then Cookies(ParseCookieHeader(h.1)) else Other(h)
  }

  function Meanings(headers: seq<Header>): seq<Meaning> {
    if headers == [] then [] else [MeaningOf(headers[0])] + Meanings(headers[1..])
  }

  /** Drops the gateway's pairs, and then the cookie lists that have become empty. */
  function Reduced(meanings: seq<Meaning>, name: string): seq<Meaning> {
    if meanings == [] then []
    else
      var later := Reduced(meanings[1..], name);
      match meanings[0]
      case Other(_) => [meanings[0]] + later
      case Cookies(pairs) =>
        var remaining := Without(pairs, name);
        if remaining == [] then later else [Cookies(remaining)] + later
  }

  lemma CookieName()
    ensures ':' !in "Cookie" && Trimmed("Cookie") && NoCrlf("Cookie") && EqIgnoreAsciiCase("Cookie", "cookie")
  {
  }

  /** The pairs a good cookie header keeps, and the header they are re-printed as. */
  lemma Reprinted(h: Header, name: string, remaining: seq<Header>)
    requires GoodHeader(h) && remaining == Without(ParseCookieHeader(h.1), name) && remaining != []
    ensures GoodHeader(("Cookie", PrintPairs(remaining))) && IsCookie(("Cookie", PrintPairs(remaining)))
    ensures ParseCookieHeader(PrintPairs(remaining)) == remaining && Without(remaining, name) == remaining
    ensures forall p :: p in remaining ==> p.0 != name
  {
    ParsedCookieHeader(h.1);
    WithoutKeeps(ParseCookieHeader(h.1), name);
    PrintedCookieHeader(remaining);
    WithoutTwice(remaining, name);
    CookieName();
  }

  lemma {:induction false} StrippedMeans(headers: seq<Header>, name: string)
    requires GoodHeaders(headers)
    ensures GoodHeaders(Stripped(headers, name))
    ensures Meanings(Stripped(headers, name)) == Reduced(Meanings(headers), name)
    ensures Stripped(Stripped(headers, name), name) == Stripped(headers, name)
  {
    if headers != [] {
      var h, later := headers[0], Stripped(headers[1..], name);
      StrippedMeans(headers[1..], name);
      assert GoodHeader(h);
      assert Meanings(headers)[1..] == Meanings(headers[1..]);
      if IsCookie(h) {
        var remaining := Without(ParseCookieHeader(h.1), name);
        if remaining != [] {
          Reprinted(h, name, remaining);
          assert ([("Cookie", PrintPairs(remaining))] + later)[1..] == later;
        }
      } else {
        assert ([h] + later)[1..] == later;
      }
    }
  }

  lemma {:induction false} NoGatewayPair(headers: seq<Header>, name: string)
    requires GoodHeaders(headers)
    ensures var value := FirstCookieHeader(Stripped(headers, name));
            value.Some? ==> forall p :: p in ParseCookieHeader(value.value) ==> p.0 != name
  {
    if headers != [] {
      var h, later := headers[0], Stripped(headers[1..], name);
      assert GoodHeader(h);
      NoGatewayPair(headers[1..], name);
      var remaining := Without(ParseCookieHeader(h.1), name);
      if IsCookie(h) && remaining != [] {
        Reprinted(h, name, remaining);
      }
    }
  }

  // ---- main results ----

  /** The head a parser sees in the rebuilt bytes. */
  function Forwarded(head: RequestHead, name: string): RequestHead {
    RequestHead(head.verb, head.target, head.version, Stripped(head.headers, name), |Rebuilt(head, name)|)
  }

  /** For every head the parser returned and whatever bytes follow: the rebuilt bytes parse, to the
      same request line, the same other headers in order, and each cookie header reduced to its
      non-gateway pairs, gone when none remains. */
  lemma RebuildRoundTrip(buf: seq<byte>, head: RequestHead, name: string, rest: seq<byte>)
    requires TryParse(buf) == Ok(Some(head))
    ensures TryParse(Rebuilt(head, name) + rest) == Ok(Some(Forwarded(head, name)))
    ensures Meanings(Forwarded(head, name).headers) == Reduced(Meanings(head.headers), name)
  {
    ParsedHead(buf);
    StrippedMeans(head.headers, name);
    PrintedParses(Forwarded(head, name), rest);
  }

  /** After the rebuild no token matches the gateway's cookie name. */
  lemma GatewayCookieIsGone(buf: seq<byte>, head: RequestHead, name: string, token: string)
    requires TryParse(buf) == Ok(Some(head))
    ensures !CookieTokenMatches(Forwarded(head, name), name, token)
  {
    ParsedHead(buf);
    NoGatewayPair(head.headers, name);
  }

  /** Rebuilding what was already rebuilt gives the same bytes. */
  lemma RebuildIsIdempotent(buf: seq<byte>, head: RequestHead, name: string)
    requires TryParse(buf) == Ok(Some(head))
    ensures Rebuilt(Forwarded(head, name), name) == Rebuilt(head, name)
  {
    ParsedHead(buf);
    StrippedMeans(head.headers, name);
  }

  /** Once decided, the parse does not depend on the bytes that arrive later. */
  lemma ParseIsStable(buf: seq<byte>, more: seq<byte>)
    requires TryParse(buf) != Ok(None)
    ensures TryParse(buf + more) == TryParse(buf)
  {
    if Find(buf, Encode(BLANK_LINE)).Some? {
      FindExtend(buf, more, Encode(BLANK_LINE));
      var boundary := Find(buf, Encode(BLANK_LINE)).value;
      assert (buf + more)[..boundary] == buf[..boundary];
    }
  }

  lemma BlankMeansDecided(buf: seq<byte>, at: nat)
    requires at + 4 <= |buf| && buf[at..at + 4] == Encode(BLANK_LINE)
    ensures TryParse(buf) != Ok(None)
  {
    EncodeAscii(BLANK_LINE);
    FindIsFirst(buf, Encode(BLANK_LINE));
    assert OccursAt(buf, Encode(BLANK_LINE), at);
  }

  lemma HeadEnds(buf: seq<byte>, blank: seq<byte>, head: RequestHead)
    requires blank == Encode(BLANK_LINE) && TryParse(buf) == Ok(Some(head))
    ensures Find(buf, blank).Some? && head.headBytesLen == Find(buf, blank).value + 4
  {
  }

  /** The head ends inside what has been read, just past the blank line. */
  lemma HeadLength(buf: seq<byte>, head: RequestHead)
    requires TryParse(buf) == Ok(Some(head))
    ensures 4 <= head.headBytesLen <= |buf|
    ensures buf[head.headBytesLen - 4..head.headBytesLen] == Encode(BLANK_LINE)
  {
    EncodeAscii(BLANK_LINE);
    var blank := Encode(BLANK_LINE);
    HeadEnds(buf, blank, head);
    FindIsFirst(buf, blank);
  }

  // ---- byte identity of a forwarded header line ----

  /** The lines that go upstream for one line `name:value` of the client's head. */
  function ForwardedLine(name: string, value: string, gateway: string): string {
    PrintHeaders(Stripped([(Trim(name), Trim(value))], gateway))
  }

  predicate IsCookieName(name: string) {
    EqIgnoreAsciiCase(name, "cookie")
  }

  predicate CanonicalLine(name: string, value: string) {
    Trimmed(name) && |value| > 0 && value[0] == ' ' && Trimmed(value[1..])
  }

  /** One space, and then a pair other than the gateway's, trimmed around its first `=`. */
  predicate CanonicalPiece(piece: string, gateway: string) {
    |piece| > 0 && piece[0] == ' '
    && match SplitOnce(piece[1..], "=")
       case None => false
       case Some((name, value)) => Trimmed(name) && Trimmed(value) && name != gateway
  }

  /** The cookie header in the exact form of RFC 6265 section 4.2.1, spelled `Cookie`, without the
      gateway's pair: every `;`-separated piece of its value is canonical. */
  predicate CanonicalCookie(name: string, value: string, gateway: string) {
    name == "Cookie" && forall piece :: piece in Split(value, ";") ==> CanonicalPiece(piece, gateway)
  }

  function PairOf(piece: string): Header
    requires |piece| > 0 && SplitOnce(piece[1..], "=").Some?
  {
    SplitOnce(piece[1..], "=").value
  }

  function Pieces(pairs: seq<Header>): (r: seq<string>)
    ensures |r| == |pairs|
  {
    if pairs == [] then [] else [" " + PrintPair(pairs[0])] + Pieces(pairs[1..])
  }

  /** Printed pairs are their pieces, joined. */
  lemma {:induction false} JoinPieces(pairs: seq<Header>)
    requires pairs != []
    ensures Join(Pieces(pairs), ";") == " " + PrintPairs(pairs)
  {
    if |pairs| == 1 {
      assert Pieces(pairs) == [" " + PrintPair(pairs[0])];
    } else {
      JoinPieces(pairs[1..]);
      assert Pieces(pairs)[1..] == Pieces(pairs[1..]);
      PrintedLead(" ", PrintPair(pairs[0]), PrintPairs(pairs[1..]));
    }
  }

  lemma CanonicalOfPair(p: Header, gateway: string)
    requires GoodPair(p) && p.0 != gateway
    ensures CanonicalPiece(" " + PrintPair(p), gateway) && Clean(" " + PrintPair(p), ";")
  {
    var piece := " " + PrintPair(p);
    GoodPairText(p);
    DropFront(" ", PrintPair(p));
    CleanOfChar(p.0, '=');
    SplitOnceClean(p.0, "=", p.1);
    CleanOfChar(piece, ';');
  }

  lemma {:induction false} CanonicalOfPairs(pairs: seq<Header>, gateway: string)
    requires GoodPairs(pairs) && forall p :: p in pairs ==> p.0 != gateway
    ensures forall piece :: piece in Pieces(pairs) ==> CanonicalPiece(piece, gateway) && Clean(piece, ";")
  {
    if pairs != [] {
      assert pairs[0] in pairs;
      CanonicalOfPair(pairs[0], gateway);
      CanonicalOfPairs(pairs[1..], gateway);
    }
  }

  /** Canonical pieces are the pieces of good pairs. */
  lemma {:induction false} PairsOfPieces(parts: seq<string>, gateway: string) returns (pairs: seq<Header>)
    requires forall s :: s in parts ==> ';' !in s && NoCrlf(s) && CanonicalPiece(s, gateway)
    ensures Pieces(pairs) == parts && GoodPairs(pairs) && forall p :: p in pairs ==> p.0 != gateway
  {
    pairs := [];
    if parts != [] {
      var piece := parts[0];
      assert CanonicalPiece(piece, gateway) && NoCrlf(piece);
      var later := PairsOfPieces(parts[1..], gateway);
      PairOfPiece(piece, gateway);
      pairs := [PairOf(piece)] + later;
      assert pairs[1..] == later;
    }
  }

  lemma PairOfPiece(piece: string, gateway: string)
    requires ';' !in piece && NoCrlf(piece) && CanonicalPiece(piece, gateway)
    ensures GoodPair(PairOf(piece)) && PairOf(piece).0 != gateway && piece == " " + PrintPair(PairOf(piece))
  {
    var rest := piece[1..];
    NoCrlfPart(piece, rest, 1);
    SplitOnceHalves(rest, '=');
    var (name, value) := PairOf(piece);
    SubstringKeeps(rest, name, 0, ';');
    SubstringKeeps(rest, value, |name| + 1, ';');
    assert piece == [piece[0]] + rest;
  }

  /** What goes upstream for a cookie line. */
  lemma ForwardedCookie(name: string, value: string, gateway: string)
    requires IsCookieName(Trim(name)) && NoCrlf(value)
    ensures var remaining := Without(ParseCookieHeader(Trim(value)), gateway);
            && GoodPairs(remaining) && (forall p :: p in remaining ==> p.0 != gateway)
            && ForwardedLine(name, value, gateway)
                 == if remaining == [] then "" else "Cookie" + ":" + (" " + PrintPairs(remaining)) + CRLF
  {
    var pairs := ParseCookieHeader(Trim(value));
    var remaining := Without(pairs, gateway);
    NoCrlfTrim(value);
    ParsedCookieHeader(Trim(value));
    WithoutKeeps(pairs, gateway);
    StrippedOne((Trim(name), Trim(value)), gateway);
    if remaining != [] {
      PrintedOne(("Cookie", PrintPairs(remaining)));
    }
  }

  lemma PrintedOne(h: Header)
    ensures PrintHeaders([h]) == h.0 + ":" + (" " + h.1) + CRLF
  {
    assert [h][1..] == [] && PrintHeaders([]) == "";
    assert h.0 + ": " + h.1 == h.0 + ":" + (" " + h.1);
    assert HeaderLine(h) + CRLF + "" == HeaderLine(h) + CRLF;
  }

  /** Two header lines are the same text exactly when name and value are. */
  lemma SameLine(a: string, x: string, b: string, y: string)
    requires ':' !in a && ':' !in b
    ensures a + ":" + x + CRLF == b + ":" + y + CRLF <==> a == b && x == y
  {
    if a + ":" + x + CRLF == b + ":" + y + CRLF {
      DropEnd(a + ":" + x, b + ":" + y, CRLF);
      CleanOfChar(a, ':');
      CleanOfChar(b, ':');
      SplitOnceClean(a, ":", x);
      SplitOnceClean(b, ":", y);
    }
  }

  lemma DropEnd<T>(a: seq<T>, b: seq<T>, end: seq<T>)
    requires a + end == b + end
    ensures a == b
  {
    DropFront(a, end);
    DropFront(b, end);
  }

  lemma CookieLineIsIdentical(name: string, value: string, gateway: string)
    requires ':' !in name && NoCrlf(value) && IsCookieName(Trim(name))
    ensures ForwardedLine(name, value, gateway) == name + ":" + value + CRLF <==> CanonicalCookie(name, value, gateway)
  {
    var remaining := Without(ParseCookieHeader(Trim(value)), gateway);
    ForwardedCookie(name, value, gateway);
    if remaining != [] {
      SameLine("Cookie", " " + PrintPairs(remaining), name, value);
    }
    if ForwardedLine(name, value, gateway) == name + ":" + value + CRLF {
      JoinPieces(remaining);
      CanonicalOfPairs(remaining, gateway);
      SplitJoin(Pieces(remaining), ";");
    }
    if CanonicalCookie(name, value, gateway) {
      CookieParts(value);
      var pairs := PairsOfPieces(Split(value, ";"), gateway);
      JoinSplit(value, ";");
      JoinPieces(pairs);
      PrintedCookieHeader(pairs);
      TrimLeading(' ', PrintPairs(pairs));
      WithoutTwice(pairs, gateway);
    }
  }

  lemma OtherLineIsIdentical(name: string, value: string, gateway: string)
    requires ':' !in name && !IsCookieName(Trim(name))
    ensures ForwardedLine(name, value, gateway) == name + ":" + value + CRLF <==> CanonicalLine(name, value)
  {
    StrippedOne((Trim(name), Trim(value)), gateway);
    PrintedOne((Trim(name), Trim(value)));
    TrimKeeps(name, ':');
    SameLine(Trim(name), " " + Trim(value), name, value);
    var i := TrimIsSubstring(name);
    var j := TrimIsSubstring(value);
    if CanonicalLine(name, value) {
      assert value == " " + value[1..];
      TrimLeading(' ', name);
      TrimLeading(' ', value[1..]);
    }
  }

  /** The line of the client's head is a line of the head that goes upstream. */
  predicate GoesUnchanged(line: string, gateway: string) {
    var h := ParseHeader(line);
    h.Ok? && PrintHeaders(Stripped([h.value], gateway)) == line + CRLF
  }

  /** Exactly when a header line of a parsed head goes upstream byte for byte: a cookie line when it is
      spelled `Cookie` and each piece of its value is canonical, any other line when its name is
      trimmed and its value is one space and trimmed text. */
  lemma LineIsIdentical(name: string, value: string, gateway: string)
    requires ':' !in name && NoCrlf(value)
    ensures GoesUnchanged(name + ":" + value, gateway) <==>
              if IsCookieName(Trim(name)) then CanonicalCookie(name, value, gateway) else CanonicalLine(name, value)
  {
    CleanOfChar(name, ':');
    SplitOnceClean(name, ":", value);
    if IsCookieName(Trim(name)) {
      CookieLineIsIdentical(name, value, gateway);
    } else {
      OtherLineIsIdentical(name, value, gateway);
    }
  }

  /** `A:b` gains a space. */
  lemma UnspacedLineChanges(gateway: string)
    ensures !GoesUnchanged("A:b", gateway)
  {
    assert "A:b" == "A" + ":" + "b";
    TrimLeading(' ', "A");
    LineIsIdentical("A", "b", gateway);
  }

  /** `cookie: a=b` holds no gateway pair, and is respelled. */
  lemma LowerCaseCookieChanges(gateway: string)
    ensures !GoesUnchanged("cookie: a=b", gateway)
  {
    assert "cookie: a=b" == "cookie" + ":" + " a=b";
    TrimLeading(' ', "cookie");
    LineIsIdentical("cookie", " a=b", gateway);
  }

  /** `Cookie: a=b;c=d` is re-spaced. */
  lemma UnspacedCookieChanges(gateway: string)
    ensures !GoesUnchanged("Cookie: a=b;c=d", gateway)
  {
    var first, second := " a=b", "c=d";
    assert "Cookie: a=b;c=d" == "Cookie" + ":" + (first + ";" + second);
    TrimLeading(' ', "Cookie");
    CookieName();
    LineIsIdentical("Cookie", first + ";" + second, gateway);
    FirstPair(first, second);
    assert Split(first + ";" + second, ";")[1] == Split(second, ";")[0];
    FindChar(second, ';');
    assert !CanonicalPiece(second, gateway);
  }
}
