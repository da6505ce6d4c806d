/** What the scanner promises over a whole stream, however it is cut into chunks. */
module AuthRuns {
  import opened Sequences
  import opened Wrappers
  import opened Text
  import opened Utf8
  import opened AuthDetect
  import opened AuthCuts

  // ---- a token is reported only once its end is confirmed ----

  lemma {:induction false} FirstSpaceExtend(s: string, x: string)
    requires FirstSpace(s).Some?
    ensures FirstSpace(s + x) == FirstSpace(s)
  {
    if !IsWhitespace(s[0]) {
      FirstSpaceExtend(s[1..], x);
      assert (s + x)[1..] == s[1..] + x;
    }
  }

  lemma {:induction false} FirstSpaceIsFirst(s: string)
    ensures var r := FirstSpace(s);
            forall i :: 0 <= i < (if r.Some? then r.value else |s|) ==> !IsWhitespace(s[i])
    ensures FirstSpace(s).Some? ==> IsWhitespace(s[FirstSpace(s).value])
  {
    if s != "" && !IsWhitespace(s[0]) {
      FirstSpaceIsFirst(s[1..]);
      var rest := s[1..];
      assert forall i :: 0 < i < |s| ==> s[i] == rest[i - 1];
    }
  }

  lemma {:induction false} FirstSpaceAt(s: string, k: nat)
    requires k < |s| && IsWhitespace(s[k]) && forall i :: 0 <= i < k ==> !IsWhitespace(s[i])
    ensures FirstSpace(s) == Some(k)
  {
    if k > 0 {
      FirstSpaceAt(s[1..], k - 1);
    }
  }

  lemma {:induction false} TrimBlanksExtend(s: string, x: string)
    requires TrimBlanks(s) != ""
    ensures TrimBlanks(s + x) == TrimBlanks(s) + x
  {
    if IsBlank(s[0]) {
      TrimBlanksExtend(s[1..], x);
      assert (s + x)[1..] == s[1..] + x;
    }
  }

  lemma LeadingTokenExtend(rest: string, x: string)
    requires LeadingToken(rest).Some?
    ensures LeadingToken(rest + x) == LeadingToken(rest)
  {
    FirstSpaceExtend(rest, x);
    var end := FirstSpace(rest).value;
    assert (rest + x)[..end] == rest[..end];
  }

  lemma TakeTokenExtend(text: string, x: string, start: nat)
    requires start <= |text| && TakeToken(text, start).Some?
    ensures TakeToken(text + x, start) == TakeToken(text, start)
  {
    var rest := text[start..];
    DropExtend(text, x, start);
    TrimBlanksExtend(rest, x);
    LeadingTokenExtend(TrimBlanks(rest), x);
  }

  lemma {:induction false} FirstNonblankLineExtend(remaining: string, x: string)
    requires FirstNonblankLine(remaining).Some?
    ensures FirstNonblankLine(remaining + x) == FirstNonblankLine(remaining)
    decreases |remaining|
  {
    FindExtend(remaining, x, "\n");
    var k := Find(remaining, "\n").value;
    assert (remaining + x)[..k] == remaining[..k];
    if Trim(remaining[..k]) == "" {
      assert (remaining + x)[k + 1..] == remaining[k + 1..] + x;
      FirstNonblankLineExtend(remaining[k + 1..], x);
    }
  }

  lemma HttpsUrlAtExtend(text: string, x: string, start: nat)
    requires start <= |text| && HttpsUrlAt(text, start).Some?
    ensures HttpsUrlAt(text + x, start) == HttpsUrlAt(text, start)
  {
    DropExtend(text, x, start);
    FirstSpaceExtend(text[start..], x);
    var end := FirstSpace(text[start..]).value;
    assert (text + x)[start..start + end] == text[start..start + end];
  }

  lemma FirstHttpsUrlExtend(text: string, x: string)
    requires FirstHttpsUrl(text).Some?
    ensures FirstHttpsUrl(text + x) == FirstHttpsUrl(text)
  {
    FindExtend(text, x, HTTPS);
    HttpsUrlAtExtend(text, x, Find(text, HTTPS).value);
  }

  lemma UriBehind(behind: string, code: string, k: nat, after: string)
    requires Find(behind, code) == Some(k) && behind[k + |code|..] == after
    ensures GithubUri(behind, code) == OnlyDeviceLogin(FirstHttpsUrl(after))
  {
  }

  lemma GithubUriExtend(behind: string, x: string, code: string)
    requires GithubUri(behind, code).Some?
    ensures GithubUri(behind + x, code) == GithubUri(behind, code)
  {
    FindExtend(behind, x, code);
    var k := Find(behind, code).value;
    var after := behind[k + |code|..];
    DropExtend(behind, x, k + |code|);
    FirstHttpsUrlExtend(after, x);
    UriBehind(behind, code, k, after);
    UriBehind(behind + x, code, k, after + x);
  }

  lemma AzureCodeExtend(behind: string, x: string)
    requires AzureCode(behind).Some?
    ensures AzureCode(behind + x) == AzureCode(behind)
  {
    FindExtend(behind, x, AZURE_CODE_MARKER);
    TakeTokenExtend(behind, x, Find(behind, AZURE_CODE_MARKER).value + |AZURE_CODE_MARKER|);
  }

  // ---- scanner stability ----

  function DetectAs(provider: Provider, text: string): Option<Prompt> {
    match provider
    case Github => DetectGithub(text)
    case AwsSso => DetectAws(text)
    case Azure => DetectAzure(text)
  }

  function MarkerOf(provider: Provider): string {
    match provider
    case Github => GITHUB_MARKER
    case AwsSso => AWS_MARKER
    case Azure => AZURE_URL_MARKER
  }

  ghost predicate SameLastMarker(provider: Provider, text: string, more: string) {
    RFind(text + more, MarkerOf(provider)) == RFind(text, MarkerOf(provider))
  }

  lemma GithubIsStable(text: string, more: string)
    requires DetectGithub(text).Some? && SameLastMarker(Github, text, more)
    ensures DetectGithub(text + more) == DetectGithub(text)
  {
    var start := AfterMarker(text, GITHUB_MARKER).value;
    var behind, token := text[start..], TakeToken(text, start);
    GithubPartsAt(text, start, token, behind);
    TakeTokenExtend(text, more, start);
    DropExtend(text, more, start);
    GithubPartsAt(text + more, start, token, behind + more);
    GithubFieldsExtend(token, behind, more);
  }

  lemma GithubPartsAt(text: string, start: nat, token: Option<string>, behind: string)
    requires AfterMarker(text, GITHUB_MARKER) == Some(start)
    requires TakeToken(text, start) == token && text[start..] == behind
    ensures DetectGithub(text) == GithubFields(token, behind)
  {
  }

  lemma GithubFieldsExtend(token: Option<string>, behind: string, more: string)
    requires GithubFields(token, behind).Some?
    ensures GithubFields(token, behind + more) == GithubFields(token, behind)
  {
    GithubUriExtend(behind, more, token.value);
  }

  lemma AwsIsStable(text: string, more: string)
    requires DetectAws(text).Some? && SameLastMarker(AwsSso, text, more)
    ensures DetectAws(text + more) == DetectAws(text)
  {
    var start := AfterMarker(text, AWS_MARKER).value;
    var behind, front := text[start..], text[..start - |AWS_MARKER|];
    AwsPartsAt(text, start, behind, front);
    FirstNonblankLineExtend(behind, more);
    DropExtend(text, more, start);
    DropExtend(text, more, start - |AWS_MARKER|);
    AwsPartsAt(text + more, start, behind + more, front);
  }

  lemma AwsPartsAt(text: string, start: nat, behind: string, front: string)
    requires AfterMarker(text, AWS_MARKER) == Some(start)
    requires text[start..] == behind && text[..start - |AWS_MARKER|] == front
    ensures DetectAws(text) == AwsFields(FirstNonblankLine(behind), front)
  {
  }

  lemma AzureIsStable(text: string, more: string)
    requires DetectAzure(text).Some? && SameLastMarker(Azure, text, more)
    ensures DetectAzure(text + more) == DetectAzure(text)
  {
    var start := AfterMarker(text, AZURE_URL_MARKER).value;
    var behind, token := text[start..], TakeToken(text, start);
    AzurePartsAt(text, start, token, behind);
    TakeTokenExtend(text, more, start);
    DropExtend(text, more, start);
    AzurePartsAt(text + more, start, token, behind + more);
    AzureCodeExtend(behind, more);
  }

  lemma AzurePartsAt(text: string, start: nat, token: Option<string>, behind: string)
    requires AfterMarker(text, AZURE_URL_MARKER) == Some(start)
    requires TakeToken(text, start) == token && text[start..] == behind
    ensures DetectAzure(text) == AzureFields(token, behind)
  {
  }

  /** A detector that fires on a text gives the same code and URL on every extension in which its
      last marker is still the last one. */
  lemma DetectionIsStable(provider: Provider, text: string, more: string)
    requires DetectAs(provider, text).Some? && SameLastMarker(provider, text, more)
    ensures DetectAs(provider, text + more) == DetectAs(provider, text)
  {
    match provider
    case Github => GithubIsStable(text, more);
    case AwsSso => AwsIsStable(text, more);
    case Azure => AzureIsStable(text, more);
  }

  lemma RFindAt(s: string, p: string, k: nat)
    requires OccursAt(s, p, k) && forall j :: k < j ==> !OccursAt(s, p, j)
    ensures RFind(s, p) == Some(k)
  {
    RFindIsLast(s, p);
  }

  lemma RFindSuffix(x: string, t: string, p: string)
    requires RFind(t, p).Some?
    ensures RFind(x + t, p) == Some(|x| + RFind(t, p).value)
  {
    var k := RFind(t, p).value;
    RFindIsLast(t, p);
    OccursInSuffix(x, t, p, k);
    forall j | |x| + k < j ensures !OccursAt(x + t, p, j) {
      OccursInSuffix(x, t, p, j - |x|);
    }
    RFindAt(x + t, p, |x| + k);
  }

  lemma MarkerInSuffix(x: string, t: string, marker: string, start: nat)
    requires AfterMarker(t, marker) == Some(start)
    ensures AfterMarker(x + t, marker) == Some(|x| + start) && (x + t)[|x| + start..] == t[start..]
    ensures start >= |marker| && (x + t)[..|x| + start - |marker|] == x + t[..start - |marker|]
  {
    RFindSuffix(x, t, marker);
  }

  lemma LastUrlInSuffix(x: string, front: string)
    requires LastHttpsUrl(front).Some?
    ensures LastHttpsUrl(x + front) == LastHttpsUrl(front)
  {
    var start := RFind(front, HTTPS).value;
    RFindSuffix(x, front, HTTPS);
    DropFront(x, front);
    UrlInSuffix(x, front, start);
  }

  lemma UrlInSuffix(x: string, front: string, start: nat)
    requires start <= |front|
    ensures HttpsUrlAt(x + front, |x| + start) == HttpsUrlAt(front, start)
  {
    assert (x + front)[|x| + start..] == front[start..];
    if FirstSpace(front[start..]).Some? {
      var end := FirstSpace(front[start..]).value;
      assert (x + front)[|x| + start..|x| + start + end] == front[start..start + end];
    }
  }

  lemma AwsFieldsInSuffix(token: Option<string>, x: string, front: string)
    requires AwsFields(token, front).Some?
    ensures AwsFields(token, x + front) == AwsFields(token, front)
  {
    LastUrlInSuffix(x, front);
  }

  /** What lies in front of the text a detector fires on changes nothing: when the buffer has evicted
      older text, its report is that of the whole stream. */
  lemma OlderTextIsIrrelevant(provider: Provider, x: string, t: string)
    requires DetectAs(provider, t).Some?
    ensures DetectAs(provider, x + t) == DetectAs(provider, t)
  {
    match provider
    case Github => OlderGithubText(x, t);
    case AwsSso => OlderAwsText(x, t);
    case Azure => OlderAzureText(x, t);
  }

  lemma OlderGithubText(x: string, t: string)
    requires DetectGithub(t).Some?
    ensures DetectGithub(x + t) == DetectGithub(t)
  {
    var start := AfterMarker(t, GITHUB_MARKER).value;
    MarkerInSuffix(x, t, GITHUB_MARKER, start);
    var behind, token := t[start..], TakeToken(t, start);
    GithubPartsAt(t, start, token, behind);
    GithubPartsAt(x + t, |x| + start, token, behind);
  }

  lemma OlderAwsText(x: string, t: string)
    requires DetectAws(t).Some?
    ensures DetectAws(x + t) == DetectAws(t)
  {
    var start := AfterMarker(t, AWS_MARKER).value;
    MarkerInSuffix(x, t, AWS_MARKER, start);
    var behind, front := t[start..], t[..start - |AWS_MARKER|];
    AwsPartsAt(t, start, behind, front);
    AwsPartsAt(x + t, |x| + start, behind, x + front);
    AwsFieldsInSuffix(FirstNonblankLine(behind), x, front);
  }

  lemma OlderAzureText(x: string, t: string)
    requires DetectAzure(t).Some?
    ensures DetectAzure(x + t) == DetectAzure(t)
  {
    var start := AfterMarker(t, AZURE_URL_MARKER).value;
    MarkerInSuffix(x, t, AZURE_URL_MARKER, start);
    var behind, token := t[start..], TakeToken(t, start);
    AzurePartsAt(t, start, token, behind);
    AzurePartsAt(x + t, |x| + start, token, behind);
  }

  // ---- the buffer of a stream ----

  /** Every cut between two reads is clean; the stream itself may end anywhere. */
  ghost predicate CleanCuts(chunks: seq<seq<byte>>) {
    forall i :: 0 <= i < |chunks| ==> CleanCut(Flatten(chunks[..i]))
  }

  lemma LastOfLast(x: string, y: string, n: nat)
    ensures Last(Last(x, n) + y, n) == Last(x + y, n)
  {
    var dropped := x[..|x| - |Last(x, n)|];
    assert x == dropped + Last(x, n);
    Reassociate(dropped, Last(x, n), y);
    LastIgnores(dropped, Last(x, n) + y, n);
  }

  /** What lies before the last `n` characters does not matter. */
  lemma LastIgnores(a: string, b: string, n: nat)
    requires a == "" || n <= |b|
    ensures Last(a + b, n) == Last(b, n)
  {
    if |b| > n {
      DropFront(a, b);
    } else {
      assert a + b == b || |b| == n;
      DropFront(a, b);
    }
  }

  /** The detector and its reports after a list of reads. */
  function Scan(chunks: seq<seq<byte>>): (Scanner, seq<Prompt>) {
    if chunks == [] then (Scanner("", None), [])
    else
      var (s, reports) := Scan(chunks[..|chunks| - 1]);
      var (s', r) := Fed(s, chunks[|chunks| - 1]);
      (s', reports + if r.Some? then [r.value] else [])
  }

  /** Reports do not touch the buffer. */
  lemma ScanBuffer(before: seq<seq<byte>>, chunk: seq<byte>)
    ensures Scan(before + [chunk]).0.buffer == Absorbed(Scan(before).0.buffer, chunk)
  {
    var s := Scan(before).0;
    assert (before + [chunk])[..|before|] == before;
    FedBuffer(s, chunk);
  }

  lemma FedBuffer(s: Scanner, chunk: seq<byte>)
    ensures Fed(s, chunk).0.buffer == Absorbed(s.buffer, chunk)
  {
  }

  lemma CleanPrefix(chunks: seq<seq<byte>>, n: nat)
    requires CleanCuts(chunks) && n <= |chunks|
    ensures CleanCuts(chunks[..n])
    ensures n < |chunks| ==> CleanCut(Flatten(chunks[..n]))
  {
    forall i | 0 <= i < n ensures CleanCut(Flatten(chunks[..n][..i])) {
      assert chunks[..n][..i] == chunks[..i];
    }
  }

  lemma CleanFront(before: seq<seq<byte>>, chunk: seq<byte>)
    requires CleanCuts(before + [chunk])
    ensures CleanCuts(before) && CleanCut(Flatten(before))
  {
    CleanPrefix(before + [chunk], |before|);
    assert (before + [chunk])[..|before|] == before;
  }

  /** The buffer is a function of the stream alone, the last 8192 characters it shows, for every way of
      cutting it into reads at clean places. */
  lemma {:induction false} BufferOfStream(chunks: seq<seq<byte>>)
    requires CleanCuts(chunks)
    ensures Scan(chunks).0.buffer == Last(Shown(Flatten(chunks)), 8192)
    decreases |chunks|
  {
    if chunks != [] {
      var before, chunk := SplitLast(chunks);
      CleanFront(before, chunk);
      BufferOfStream(before);
      BufferSnoc(before, chunk);
    }
  }

  lemma BufferSnoc(before: seq<seq<byte>>, chunk: seq<byte>)
    requires CleanCut(Flatten(before)) && Scan(before).0.buffer == Last(Shown(Flatten(before)), MAX_BUFFER_CHARS)
    ensures Scan(before + [chunk]).0.buffer == Last(Shown(Flatten(before + [chunk])), MAX_BUFFER_CHARS)
  {
    FlattenSnoc(before, chunk);
    ScanBuffer(before, chunk);
    BufferStep(Flatten(before), chunk);
  }

  lemma BufferStep(stream: seq<byte>, chunk: seq<byte>)
    requires CleanCut(stream)
    ensures Absorbed(Last(Shown(stream), MAX_BUFFER_CHARS), chunk) == Last(Shown(stream + chunk), MAX_BUFFER_CHARS)
  {
    ShownConcat(stream, chunk);
    LastOfLast(Shown(stream), Shown(chunk), MAX_BUFFER_CHARS);
  }

  // ---- escape-free ASCII: every cut is clean ----

  function NoCr(s: string): string {
    if s == "" then "" else (if s[0] == '\r' then "" else [s[0]]) + NoCr(s[1..])
  }

  lemma {:induction false} StripPlain(s: string, i: nat)
    requires i <= |s| && ESC !in s
    ensures StripFrom(s, i) == NoCr(s[i..]) && !EndsInEscape(s, i)
    decreases |s| - i
  {
    if i < |s| {
      StripPlain(s, i + 1);
      assert s[i..][1..] == s[i + 1..];
    }
  }

  ghost predicate PlainAscii(bytes: seq<byte>) {
    forall i :: 0 <= i < |bytes| ==> bytes[i] < 0x80 && bytes[i] != 0x1B
  }

  function AsciiText(bytes: seq<byte>): string {
    if bytes == [] then "" else [bytes[0] as int as char] + AsciiText(bytes[1..])
  }

  lemma {:induction false} LossyAscii(bytes: seq<byte>)
    requires PlainAscii(bytes)
    ensures Lossy(bytes) == AsciiText(bytes) && ESC !in AsciiText(bytes)
  {
    if bytes != [] {
      LossyAscii(bytes[1..]);
    }
  }

  lemma PlainFront(a: seq<byte>, b: seq<byte>)
    requires PlainAscii(a + b)
    ensures PlainAscii(a)
  {
    assert forall i :: 0 <= i < |a| ==> a[i] == (a + b)[i];
  }

  lemma {:induction false} PlainIsWhole(bytes: seq<byte>)
    requires PlainAscii(bytes)
    ensures !CutChar(bytes)
  {
    if bytes != [] {
      PlainIsWhole(bytes[1..]);
    }
  }

  lemma PlainCut(chunks: seq<seq<byte>>, n: nat)
    requires PlainAscii(Flatten(chunks)) && n <= |chunks|
    ensures CleanCut(Flatten(chunks[..n]))
  {
    var a, b := Flatten(chunks[..n]), Flatten(chunks[n..]);
    assert chunks == chunks[..n] + chunks[n..];
    FlattenAppend(chunks[..n], chunks[n..]);
    PlainFront(a, b);
    PlainIsClean(a);
  }

  lemma PlainIsClean(bytes: seq<byte>)
    requires PlainAscii(bytes)
    ensures CleanCut(bytes)
  {
    PlainIsWhole(bytes);
    LossyAscii(bytes);
    StripPlain(AsciiText(bytes), 0);
  }

  /** For escape-free ASCII the buffer is the last 8192 characters of the stream without its CRs,
      under any chunking at all. */
  lemma BufferOfAsciiStream(chunks: seq<seq<byte>>)
    requires PlainAscii(Flatten(chunks))
    ensures CleanCuts(chunks)
    ensures Scan(chunks).0.buffer == Last(NoCr(AsciiText(Flatten(chunks))), 8192)
  {
    forall i | 0 <= i < |chunks| ensures CleanCut(Flatten(chunks[..i])) {
      PlainCut(chunks, i);
    }
    BufferOfStream(chunks);
    var text := AsciiText(Flatten(chunks));
    LossyAscii(Flatten(chunks));
    StripPlain(text, 0);
    assert text[0..] == text;
  }

  /** A cut inside an escape does matter: the final byte of a colour sequence that arrives with the next
      read stays in the buffer, in front of the text. */
  lemma CutInsideEscapeShows()
    ensures Scan([COLOUR_START, COLOUR_END]).0.buffer == "mA" && Shown(COLOUR_START + COLOUR_END) == "A"
  {
    ColourShows();
    TwoReads(COLOUR_START, COLOUR_END);
  }

  const COLOUR_START: seq<byte> := [0x1B, 0x5B, 0x30]
  const COLOUR_END: seq<byte> := [0x6D, 0x41]

  /** The first read shows nothing, the second what it shows alone. */
  lemma TwoReads(a: seq<byte>, b: seq<byte>)
    requires Shown(a) == "" && |Shown(b)| <= MAX_BUFFER_CHARS
    ensures Scan([a, b]).0.buffer == Shown(b)
  {
    ScanBuffer([], a);
    assert [] + [a] == [a] && [a] + [b] == [a, b];
    ScanBuffer([a], b);
  }

  lemma ColourShows()
    ensures Shown(COLOUR_START) == "" && Shown(COLOUR_END) == "mA" && Shown(COLOUR_START + COLOUR_END) == "A"
  {
    LossyThree(0x1B, 0x5B, 0x30, []);
    assert COLOUR_START + [] == COLOUR_START;
    LossyTwo(0x6D, 0x41);
    LossyThree(0x1B, 0x5B, 0x30, COLOUR_END);
    StripColour([ESC, '[', '0'], "mA");
  }

  lemma StripColour(first: string, second: string)
    requires first == [ESC, '[', '0'] && second == "mA"
    ensures StripFrom(first, 0) == "" && StripFrom(second, 0) == "mA" && StripFrom(first + second, 0) == "A"
  {
    assert CsiEnd(first, 2) == 3 && EscapeEnd(first, 1) == 3;
    assert StripFrom(second, 2) == "" && StripFrom(second, 1) == "A";
    var both := first + second;
    assert CsiEnd(both, 3) == 4 && CsiEnd(both, 2) == 4 && EscapeEnd(both, 1) == 4;
    assert StripFrom(both, 5) == "" && StripFrom(both, 4) == "A";
  }

  lemma LossyFirst(x: byte, rest: seq<byte>)
    requires x < 0x80
    ensures Lossy([x] + rest) == [x as int as char] + Lossy(rest)
  {
    assert ([x] + rest)[1..] == rest;
  }

  lemma LossyTwo(x: byte, y: byte)
    requires x < 0x80 && y < 0x80
    ensures Lossy([x, y]) == [x as int as char, y as int as char]
  {
    assert [x, y] == [x] + [y] && [y] == [y] + [];
    LossyFirst(x, [y]);
    LossyFirst(y, []);
  }

  lemma LossyThree(x: byte, y: byte, z: byte, rest: seq<byte>)
    requires x < 0x80 && y < 0x80 && z < 0x80
    ensures Lossy([x, y, z] + rest) == [x as int as char, y as int as char, z as int as char] + Lossy(rest)
  {
    assert [x, y, z] + rest == [x] + ([y] + ([z] + rest));
    LossyFirst(x, [y] + ([z] + rest));
    LossyFirst(y, [z] + rest);
    LossyFirst(z, rest);
  }

  // ---- reports ----

  function LastKey(reports: seq<Prompt>): Option<(Provider, string)> {
    if reports == [] then None
    else
      var last := reports[|reports| - 1];
      Some((last.provider, last.userCode))
  }

  /** The detector remembers its last report. */
  lemma {:induction false} LastReportIsRemembered(chunks: seq<seq<byte>>)
    ensures Scan(chunks).0.alreadyFired == LastKey(Scan(chunks).1)
  {
    if chunks != [] {
      LastReportIsRemembered(chunks[..|chunks| - 1]);
      ReportIsNew(Scan(chunks[..|chunks| - 1]).0, chunks[|chunks| - 1]);
    }
  }

  ghost predicate NeighboursDiffer(reports: seq<Prompt>) {
    forall i, j :: 0 <= i < |reports| && j == i + 1 < |reports| ==>
      reports[i].provider != reports[j].provider || reports[i].userCode != reports[j].userCode
  }

  /** Two reports in a row never carry the same provider and code. */
  lemma {:induction false} ConsecutiveReportsDiffer(chunks: seq<seq<byte>>)
    ensures NeighboursDiffer(Scan(chunks).1)
  {
    if chunks != [] {
      var before := chunks[..|chunks| - 1];
      var (s, reports) := Scan(before);
      var (s', r) := Fed(s, chunks[|chunks| - 1]);
      ConsecutiveReportsDiffer(before);
      LastReportIsRemembered(before);
      ReportIsNew(s, chunks[|chunks| - 1]);
      OneMoreReport(reports, r);
      assert Scan(chunks).1 == reports + if r.Some? then [r.value] else [];
    }
  }

  lemma OneMoreReport(reports: seq<Prompt>, r: Option<Prompt>)
    requires NeighboursDiffer(reports) && (r.Some? ==> LastKey(reports) != Some((r.value.provider, r.value.userCode)))
    ensures NeighboursDiffer(reports + if r.Some? then [r.value] else [])
  {
    assert reports + [] == reports;
  }

  lemma ReportIsNew(s: Scanner, chunk: seq<byte>)
    ensures var (s', r) := Fed(s, chunk);
            if r.Some? then
              s'.alreadyFired == Some((r.value.provider, r.value.userCode)) && s.alreadyFired != s'.alreadyFired
            else s'.alreadyFired == s.alreadyFired
  {
  }

  lemma ReportIsDetected(s: Scanner, chunk: seq<byte>)
    requires Fed(s, chunk).1.Some?
    ensures var (s', r) := Fed(s, chunk); DetectAs(r.value.provider, s'.buffer) == r
  {
  }

  lemma ScanSplit(chunks: seq<seq<byte>>, chunk: seq<byte>)
    ensures Scan(chunks + [chunk]).0 == Fed(Scan(chunks).0, chunk).0
  {
    assert (chunks + [chunk])[..|chunks|] == chunks;
  }

  /** What the read of `chunk` reports after `before`. */
  function ReportAt(before: seq<seq<byte>>, chunk: seq<byte>): Option<Prompt> {
    Fed(Scan(before).0, chunk).1
  }

  lemma DetectedInLast(provider: Provider, text: string, n: nat)
    requires DetectAs(provider, Last(text, n)).Some?
    ensures DetectAs(provider, text) == DetectAs(provider, Last(text, n))
  {
    var t := Last(text, n);
    var x := text[..|text| - |t|];
    assert text == x + t;
    OlderTextIsIrrelevant(provider, x, t);
  }

  /** A report is what its detector finds in everything the stream has shown so far, evicted text included. */
  lemma ReportSeen(before: seq<seq<byte>>, chunk: seq<byte>, p: Prompt)
    requires CleanCuts(before + [chunk]) && ReportAt(before, chunk) == Some(p)
    ensures DetectAs(p.provider, Shown(Flatten(before + [chunk]))) == Some(p)
  {
    BufferOfStream(before + [chunk]);
    ScanSplit(before, chunk);
    ReportIsDetected(Scan(before).0, chunk);
    DetectedInLast(p.provider, Shown(Flatten(before + [chunk])), MAX_BUFFER_CHARS);
  }

  /** A code or URL cut by a chunk boundary is never reported: for a stream of any length, cut anywhere
      outside characters and escapes, what a read reports is what its detector finds in the whole
      stream, unless the marker occurs again later. */
  lemma ReportIsWhole(before: seq<seq<byte>>, chunk: seq<byte>, after: seq<seq<byte>>, p: Prompt)
    requires CleanCuts(before + [chunk] + after) && ReportAt(before, chunk) == Some(p)
    requires var seen, all := Shown(Flatten(before + [chunk])), Shown(Flatten(before + [chunk] + after));
             RFind(all, MarkerOf(p.provider)) == RFind(seen, MarkerOf(p.provider))
    ensures DetectAs(p.provider, Shown(Flatten(before + [chunk] + after))) == Some(p)
  {
    var seen := before + [chunk];
    var all := seen + after;
    CleanPrefix(all, |seen|);
    assert all[..|seen|] == seen;
    ReportSeen(before, chunk, p);
    if after == [] {
      assert all == seen;
    } else {
      FlattenAppend(seen, after);
      ShownConcat(Flatten(seen), Flatten(after));
      DetectionIsStable(p.provider, Shown(Flatten(seen)), Shown(Flatten(after)));
    }
  }
}
