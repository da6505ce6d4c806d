/** Which prompts a read reports: the first of GitHub, AWS and Azure whose detector fires on the buffer,
    unless it is what was reported last. A prompt of a later kind stays unreported for as long as one
    of an earlier kind is in the buffer. */
module AuthReports {
  import opened Sequences
  import opened Wrappers
  import opened Text
  import opened Utf8
  import opened AuthDetect
  import opened AuthCuts
  import opened AuthRuns
  import opened AuthPrompts

  /** A detector that is asked before this provider's fires on the text. */
  predicate Shadowed(provider: Provider, text: string) {
    match provider
    case Github => false
    case AwsSso => DetectGithub(text).Some?
    case Azure => DetectGithub(text).Some? || DetectAws(text).Some?
  }

  lemma DetectedExact(text: string, p: Prompt)
    ensures Detect(text) == Some(p) <==> DetectAs(p.provider, text) == Some(p) && !Shadowed(p.provider, text)
  {
    OwnProvider(text);
  }

  /** Each detector reports prompts of its own provider. */
  lemma OwnProvider(text: string)
    ensures DetectGithub(text).Some? ==> DetectGithub(text).value.provider == Github
    ensures DetectAws(text).Some? ==> DetectAws(text).value.provider == AwsSso
    ensures DetectAzure(text).Some? ==> DetectAzure(text).value.provider == Azure
  {
  }

  /** Exactly what a read reports: a prompt that is complete in the buffer, that no prompt of an earlier
      kind in the buffer shadows, and that differs in provider or code from the last report. */
  lemma ReportExact(before: seq<seq<byte>>, chunk: seq<byte>, p: Prompt)
    ensures var buffer := Scan(before + [chunk]).0.buffer;
            ReportAt(before, chunk) == Some(p) <==>
              && DetectAs(p.provider, buffer) == Some(p)
              && !Shadowed(p.provider, buffer)
              && LastKey(Scan(before).1) != Some((p.provider, p.userCode))
  {
    var buffer := Scan(before + [chunk]).0.buffer;
    ScanBuffer(before, chunk);
    DetectedExact(buffer, p);
    LastReportIsRemembered(before);
    FedReports(Scan(before).0, chunk, p);
  }

  lemma FedReports(s: Scanner, chunk: seq<byte>, p: Prompt)
    ensures Fed(s, chunk).1 == Some(p) <==>
              Detect(Absorbed(s.buffer, chunk)) == Some(p) && s.alreadyFired != Some((p.provider, p.userCode))
  {
  }

  // ---- a complete prompt is reported ----

  lemma {:induction false} ReportsGrow(chunks: seq<seq<byte>>, n: nat)
    requires n <= |chunks|
    ensures Scan(chunks[..n]).1 <= Scan(chunks).1
    decreases |chunks|
  {
    if n == |chunks| {
      assert chunks[..n] == chunks;
    } else {
      assert chunks[..|chunks| - 1][..n] == chunks[..n];
      ReportsGrow(chunks[..|chunks| - 1], n);
    }
  }

  /** After a read, what its detectors found in the buffer is what was reported last. */
  lemma FoundIsReported(before: seq<seq<byte>>, chunk: seq<byte>, p: Prompt)
    requires Detect(Scan(before + [chunk]).0.buffer) == Some(p)
    ensures LastKey(Scan(before + [chunk]).1) == Some((p.provider, p.userCode))
  {
    DetectedExact(Scan(before + [chunk]).0.buffer, p);
    ReportExact(before, chunk, p);
    ScanReports(before, chunk);
    if ReportAt(before, chunk).Some? {
      ReportExact(before, chunk, ReportAt(before, chunk).value);
      DetectedExact(Scan(before + [chunk]).0.buffer, ReportAt(before, chunk).value);
    }
  }

  lemma PromptIsLastReport(seen: seq<seq<byte>>, text: string, p: Prompt)
    requires CleanCuts(seen) && seen != [] && text == Last(Shown(Flatten(seen)), MAX_BUFFER_CHARS)
    requires DetectAs(p.provider, text) == Some(p) && !Shadowed(p.provider, text)
    ensures LastKey(Scan(seen).1) == Some((p.provider, p.userCode))
  {
    BufferOfStream(seen);
    DetectedExact(text, p);
    LastFoundIsReported(seen, p);
  }

  lemma LastFoundIsReported(seen: seq<seq<byte>>, p: Prompt)
    requires seen != [] && Detect(Scan(seen).0.buffer) == Some(p)
    ensures LastKey(Scan(seen).1) == Some((p.provider, p.userCode))
  {
    var before, chunk := SplitLast(seen);
    FoundIsReported(before, chunk, p);
  }

  lemma LastIsAmong(reports: seq<Prompt>, longer: seq<Prompt>, p: Prompt)
    requires LastKey(reports) == Some((p.provider, p.userCode)) && reports <= longer
    ensures exists r :: r in longer && r.provider == p.provider && r.userCode == p.userCode
  {
    var r := reports[|reports| - 1];
    assert r == longer[|reports| - 1] && r in longer;
  }

  /** No complete prompt is missed: for a stream of any bytes, cut anywhere outside characters and
      escapes, a prompt that is complete in the last 8192 characters shown up to some read, and is not
      shadowed there, is reported by that read or was reported before it; it is the last report made. */
  lemma CompletePromptIsReported(chunks: seq<seq<byte>>, n: nat, p: Prompt)
    requires CleanCuts(chunks) && 0 < n <= |chunks|
    requires var text := Last(Shown(Flatten(chunks[..n])), 8192);
             DetectAs(p.provider, text) == Some(p) && !Shadowed(p.provider, text)
    ensures LastKey(Scan(chunks[..n]).1) == Some((p.provider, p.userCode))
    ensures exists r :: r in Scan(chunks).1 && r.provider == p.provider && r.userCode == p.userCode
  {
    CleanPrefix(chunks, n);
    PromptIsLastReport(chunks[..n], Last(Shown(Flatten(chunks[..n])), MAX_BUFFER_CHARS), p);
    ReportsGrow(chunks, n);
    LastIsAmong(Scan(chunks[..n]).1, Scan(chunks).1, p);
  }

  // ---- a login that is not reported ----

  predicate Plain(text: string) {
    ESC !in text && '\r' !in text
  }

  lemma {:induction false} NoCrPlain(text: string)
    requires '\r' !in text
    ensures NoCr(text) == text
  {
    if text != "" {
      NoCrPlain(text[1..]);
    }
  }

  lemma PlainIsShown(text: string)
    requires Plain(text)
    ensures Shown(Encode(text)) == text
  {
    DecodeEncode(text);
    StripPlain(text, 0);
    NoCrPlain(text);
    assert text[0..] == text;
  }

  lemma AbsorbPlain(buffer: string, text: string)
    requires Plain(text) && |buffer + text| <= MAX_BUFFER_CHARS
    ensures Absorbed(buffer, Encode(text)) == buffer + text
  {
    PlainIsShown(text);
  }

  lemma TwoTexts(g: string, w: string)
    requires Plain(g) && Plain(w) && |g + w| <= MAX_BUFFER_CHARS
    ensures Scan([] + [Encode(g)]).0.buffer == g
    ensures Scan([] + [Encode(g)] + [Encode(w)]).0.buffer == g + w
  {
    assert "" + g == g;
    AbsorbPlain("", g);
    AbsorbPlain(g, w);
    ScanBuffer([], Encode(g));
    ScanBuffer([] + [Encode(g)], Encode(w));
  }

  lemma ScanReports(before: seq<seq<byte>>, chunk: seq<byte>)
    ensures Scan(before + [chunk]).1
         == Scan(before).1 + if ReportAt(before, chunk).Some? then [ReportAt(before, chunk).value] else []
  {
    assert (before + [chunk])[..|before|] == before;
  }

  /** A read that leaves a GitHub prompt in the buffer reports nothing else. */
  lemma GithubFirst(before: seq<seq<byte>>, chunk: seq<byte>, p: Prompt)
    requires DetectGithub(Scan(before + [chunk]).0.buffer) == Some(p)
    ensures Scan(before + [chunk]).1
         == Scan(before).1 + if LastKey(Scan(before).1) == Some((p.provider, p.userCode)) then [] else [p]
  {
    OwnProvider(Scan(before + [chunk]).0.buffer);
    ScanReports(before, chunk);
    ReportExact(before, chunk, p);
    if ReportAt(before, chunk).Some? {
      ReportExact(before, chunk, ReportAt(before, chunk).value);
    }
  }

  lemma OneReport(first: seq<byte>, second: seq<byte>, p: Prompt)
    requires DetectGithub(Scan([] + [first]).0.buffer) == Some(p)
    requires DetectGithub(Scan([] + [first] + [second]).0.buffer) == Some(p)
    ensures Scan([] + [first] + [second]).1 == [p]
  {
    var before: seq<seq<byte>>, reports: seq<Prompt> := [], [];
    assert Scan(before).1 == reports;
    GithubFirst(before, first, p);
    assert reports + [p] == [p] && [p] + reports == [p];
    GithubFirst(before + [first], second, p);
  }

  /** A GitHub prompt silences whatever login follows it. */
  lemma LaterLoginIsSilent(g: string, w: string, p: Prompt)
    requires Plain(g) && Plain(w) && |g + w| <= MAX_BUFFER_CHARS
    requires DetectGithub(g) == Some(p) && SameLastMarker(Github, g, w)
    ensures Scan([] + [Encode(g)] + [Encode(w)]).1 == [p]
  {
    TwoTexts(g, w);
    GithubIsStable(g, w);
    OneReport(Encode(g), Encode(w), p);
  }

  // ---- two logins in one terminal ----

  function GithubLogin(code: string, uri: string): string {
    GITHUB_MARKER + (" " + (code + ("\n" + uri + "\n")))
  }

  function AwsLogin(code: string, uri: string): string {
    uri + "\n" + AWS_MARKER + ("\n" + code + "\n")
  }

  /** A URL as these prompts print it. */
  predicate UrlText(uri: string) {
    && HTTPS <= uri && |uri| <= 512 && |Encode(uri)| <= 512
    && (forall i :: 0 <= i < |uri| ==> !IsWhitespace(uri[i]) && uri[i] != ESC)
  }

  ghost predicate Absent(text: string, p: string) {
    forall j: nat :: !OccursAt(text, p, j)
  }

  /** What occurs in a text of two lines occurs in one of them. */
  lemma InOneLine(a: string, b: string, p: string, j: nat)
    requires '\n' !in p && OccursAt(a + "\n" + b, p, j)
    ensures OccursAt(a, p, j) || (j > |a| && OccursAt(b, p, j - |a| - 1))
  {
    var text := a + "\n" + b;
    assert p == text[j..j + |p|];
    if j + |p| <= |a| {
      assert text[j..j + |p|] == a[j..j + |p|];
    } else if j > |a| {
      assert text[j..j + |p|] == b[j - |a| - 1..][..|p|];
    } else {
      NoBreakInside(text, p, j, |a|);
    }
  }

  lemma NoBreakInside(text: string, p: string, j: nat, k: nat)
    requires '\n' !in p && OccursAt(text, p, j) && j <= k < j + |p|
    ensures text[k] != '\n'
  {
    assert text[j..j + |p|][k - j] == text[k];
  }

  lemma AbsentLines(a: string, b: string, p: string)
    requires '\n' !in p && Absent(a, p) && Absent(b, p)
    ensures Absent(a + "\n" + b, p)
  {
    forall j: nat ensures !OccursAt(a + "\n" + b, p, j) {
      if OccursAt(a + "\n" + b, p, j) {
        InOneLine(a, b, p, j);
      }
    }
  }

  /** A marker with a space in it does not occur in a word. */
  lemma AbsentInWord(word: string, p: string)
    requires ' ' in p && ' ' !in word
    ensures Absent(word, p)
  {
    var k :| 0 <= k < |p| && p[k] == ' ';
    forall j: nat ensures !OccursAt(word, p, j) {
      if j + |p| <= |word| {
        assert word[j..j + |p|][k] == word[j + k];
      }
    }
  }

  lemma NotAtChar(text: string, p: string, j: nat)
    requires p != "" && (j < |text| ==> text[j] != p[0])
    ensures !OccursAt(text, p, j)
  {
    if j + |p| <= |text| {
      assert text[j..j + |p|][0] == text[j];
    }
  }

  /** A marker whose first character does not come again in it occurs in its line only there, if too little
      follows it to hold another one. */
  lemma OnceInLine(marker: string, more: string)
    requires marker != "" && marker[0] !in marker[1..] && |more| < |marker|
    ensures forall j :: 0 < j ==> !OccursAt(marker + more, marker, j)
  {
    forall j | 0 < j ensures !OccursAt(marker + more, marker, j) {
      if j < |marker| {
        assert (marker + more)[j] == marker[1..][j - 1];
        NotAtChar(marker + more, marker, j);
      }
    }
  }

  /** The last marker of a text: in its line nothing long follows it, and in the later lines it is absent. */
  lemma LastMarker(before: string, marker: string, more: string, after: string)
    requires marker != "" && marker[0] !in marker[1..] && '\n' !in marker && |more| < |marker|
    requires Absent(after, marker)
    ensures RFind(before + (marker + more + "\n" + after), marker) == Some(|before|)
  {
    OnceInLine(marker, more);
    LastInLine(before, marker, more, after);
  }

  lemma LastInLine(before: string, marker: string, more: string, after: string)
    requires '\n' !in marker && forall j :: 0 < j ==> !OccursAt(marker + more, marker, j)
    requires Absent(after, marker)
    ensures RFind(before + (marker + more + "\n" + after), marker) == Some(|before|)
  {
    var rest := marker + more + "\n" + after;
    assert rest[..|marker|] == marker;
    forall j | 0 < j ensures !OccursAt(rest, marker, j) {
      if OccursAt(rest, marker, j) {
        InOneLine(marker + more, after, marker, j);
      }
    }
    RFindAt(rest, marker, 0);
    RFindSuffix(before, rest, marker);
  }

  lemma GithubStart()
    ensures GITHUB_MARKER != "" && GITHUB_MARKER[0] == 'F' && 'F' !in GITHUB_MARKER[1..]
    ensures |GITHUB_MARKER| == 30
  {
    var tail := "irst copy your one-time code:";
    assert GITHUB_MARKER[1..] == tail;
    LowerTail(tail);
  }

  lemma LowerTail(tail: string)
    requires tail == "irst copy your one-time code:"
    ensures 'F' !in tail
  {
  }

  lemma AwsStart()
    ensures AWS_MARKER != "" && AWS_MARKER[0] == 'T' && 'T' !in AWS_MARKER[1..]
    ensures |AWS_MARKER| == 20
  {
    assert AWS_MARKER[1..] == "hen enter the code:";
  }

  lemma MarkersAreLines()
    ensures '\n' !in GITHUB_MARKER && '\n' !in AWS_MARKER && ' ' in GITHUB_MARKER && ' ' in AWS_MARKER
  {
    assert GITHUB_MARKER[5] == ' ' && AWS_MARKER[4] == ' ';
    ControlsAreNoText(GITHUB_MARKER);
    ControlsAreNoText(AWS_MARKER);
  }

  lemma CodeIsToken(code: string)
    requires LooksLikeDeviceCode(code)
    ensures IsToken(code) && Plain(code) && ' ' !in code && '\n' !in code
  {
    assert forall i :: 0 <= i < |code| ==> IsAlphanumeric(code[i]) || code[i] == '-';
  }

  lemma UrlLine(front: string, uri: string)
    requires UrlText(uri)
    ensures UrlPart(front + uri + "\n", uri, front, "\n") && Plain(uri) && ' ' !in uri
  {
  }

  lemma GithubLoginIsFound(code: string, uri: string)
    requires LooksLikeDeviceCode(code) && UrlText(uri) && Find(uri, DEVICE_PATH).Some?
    ensures DetectGithub(GithubLogin(code, uri)) == Some(Prompt(Github, code, uri))
  {
    CodeIsToken(code);
    var after := "\n" + uri + "\n";
    var behind := " " + (code + after);
    assert "" + GITHUB_MARKER + behind == GithubLogin(code, uri);
    UrlLine("", uri);
    AbsentLogin(uri, "");
    GithubMarkerIsLast(code, uri, "");
    assert GithubLogin(code, uri) + "" == GithubLogin(code, uri);
    UrlLine("\n", uri);
    FirstSiteFound(uri);
    GithubPromptIsFound(GithubLogin(code, uri), code, uri, "", " ", 0, after, "\n", "\n");
  }

  lemma FirstSiteFound(uri: string)
    requires HTTPS <= uri
    ensures Find("\n" + uri + "\n", HTTPS) == Some(1)
  {
    var after := "\n" + uri + "\n";
    assert after[1..1 + |HTTPS|] == uri[..|HTTPS|];
    NotAtChar(after, HTTPS, 0);
    FindAt(after, HTTPS, 1);
  }

  lemma AbsentLogin(uri: string, w: string)
    requires ' ' !in uri && Absent(w, GITHUB_MARKER)
    ensures Absent(uri + "\n" + w, GITHUB_MARKER)
  {
    MarkersAreLines();
    AbsentInWord(uri, GITHUB_MARKER);
    AbsentLines(uri, w, GITHUB_MARKER);
  }

  /** Whatever follows a GitHub prompt without that marker leaves its marker the last one. */
  lemma GithubMarkerIsLast(code: string, uri: string, w: string)
    requires LooksLikeDeviceCode(code) && Absent(uri + "\n" + w, GITHUB_MARKER)
    ensures RFind(GithubLogin(code, uri) + w, GITHUB_MARKER) == Some(0)
  {
    GithubStart();
    MarkersAreLines();
    LoginLines(GITHUB_MARKER, code, uri, w);
    LastMarker("", GITHUB_MARKER, " " + code, uri + "\n" + w);
  }

  lemma LoginLines(marker: string, code: string, uri: string, w: string)
    ensures marker + (" " + (code + ("\n" + uri + "\n"))) + w
         == "" + (marker + (" " + code) + "\n" + (uri + "\n" + w))
  {
  }

  lemma AwsLoginIsFound(front: string, code: string, uri: string)
    requires LooksLikeDeviceCode(code) && UrlText(uri) && RFind(uri, HTTPS) == Some(0)
    ensures DetectAws(front + AwsLogin(code, uri)) == Some(Prompt(AwsSso, code, uri))
  {
    CodeIsToken(code);
    var before, back := front + uri + "\n", "\n" + code + "\n";
    var text := before + AWS_MARKER + back;
    assert text == front + AwsLogin(code, uri);
    AwsMarkerIsLast(before, code);
    LastSiteFound(front, uri);
    UrlLine(front, uri);
    CodeLine(code);
    assert text[..|before| + |AWS_MARKER|] == before + AWS_MARKER && text[|before| + |AWS_MARKER|..] == back;
    AwsPromptIsFound(text, code, uri, before, front, "\n", "\n", "", "", "", "");
  }

  lemma AwsMarkerIsLast(before: string, code: string)
    requires ' ' !in code
    ensures RFind(before + AWS_MARKER + ("\n" + code + "\n"), AWS_MARKER) == Some(|before|)
  {
    AwsStart();
    MarkersAreLines();
    AbsentInWord(code + "\n", AWS_MARKER);
    LastMarker(before, AWS_MARKER, "", code + "\n");
    assert before + AWS_MARKER + ("\n" + code + "\n") == before + (AWS_MARKER + "" + "\n" + (code + "\n"));
  }

  /** A URL that starts with the only `https://` in it. */
  lemma LastSiteFound(front: string, uri: string)
    requires RFind(uri, HTTPS) == Some(0)
    ensures RFind(front + uri + "\n", HTTPS) == Some(|front|)
  {
    var line := uri + "\n";
    RFindIsLast(uri, HTTPS);
    assert line[..|HTTPS|] == uri[..|HTTPS|];
    forall j | 0 < j ensures !OccursAt(line, HTTPS, j) {
      if OccursAt(line, HTTPS, j) {
        assert line == uri + "\n" + "";
        InOneLine(uri, "", HTTPS, j);
      }
    }
    RFindAt(line, HTTPS, 0);
    RFindSuffix(front, line, HTTPS);
    assert front + line == front + uri + "\n";
  }

  /** A blank line and the code alone on the next. */
  lemma CodeLine(code: string)
    requires IsToken(code)
    ensures LinePart("\n" + code + "\n", code, "\n", "", "", "", "")
  {
    assert "" + (code + ("" + "")) == code && code + "\n" + "" == code + "\n";
    assert "\n" + (code + "\n") == "\n" + code + "\n";
  }

  lemma LoginIsPlain(code: string, uri: string)
    requires LooksLikeDeviceCode(code) && UrlText(uri)
    ensures Plain(GithubLogin(code, uri)) && Plain(AwsLogin(code, uri))
  {
    CodeIsToken(code);
    UrlLine("", uri);
    ControlsAreNoText(GITHUB_MARKER);
    ControlsAreNoText(AWS_MARKER);
  }

  lemma ControlsAreNoText(marker: string)
    requires marker == GITHUB_MARKER || marker == AWS_MARKER
    ensures Plain(marker) && '\n' !in marker
  {
  }

  /** An AWS prompt holds no GitHub marker: its one line with spaces is too short. */
  lemma NoGithubMarker(code: string, uri: string)
    requires ' ' !in code && ' ' !in uri
    ensures Absent(AwsLogin(code, uri), GITHUB_MARKER)
  {
    GithubStart();
    AwsStart();
    MarkersAreLines();
    var tail := code + "\n";
    AbsentInWord(tail, GITHUB_MARKER);
    AbsentLines(AWS_MARKER, tail, GITHUB_MARKER);
    AbsentInWord(uri, GITHUB_MARKER);
    AbsentLines(uri, AWS_MARKER + "\n" + tail, GITHUB_MARKER);
    assert AwsLogin(code, uri) == uri + "\n" + (AWS_MARKER + "\n" + tail);
  }

  lemma LoginsFit(code: string, uri: string, code': string, uri': string)
    requires LooksLikeDeviceCode(code) && UrlText(uri) && LooksLikeDeviceCode(code') && UrlText(uri')
    ensures |GithubLogin(code, uri) + AwsLogin(code', uri')| <= MAX_BUFFER_CHARS
  {
    GithubStart();
    AwsStart();
  }

  /** The second login has another provider and any other code and URL, and is complete in the buffer; it
      is not reported. */
  lemma SecondLoginIsNotReported(code: string, uri: string, code': string, uri': string)
    requires LooksLikeDeviceCode(code) && UrlText(uri) && Find(uri, DEVICE_PATH).Some?
    requires LooksLikeDeviceCode(code') && UrlText(uri') && RFind(uri', HTTPS) == Some(0)
    ensures var chunks := [Encode(GithubLogin(code, uri)), Encode(AwsLogin(code', uri'))];
            && Scan(chunks).1 == [Prompt(Github, code, uri)]
            && DetectAws(Scan(chunks).0.buffer) == Some(Prompt(AwsSso, code', uri'))
  {
    var g, w := GithubLogin(code, uri), AwsLogin(code', uri');
    LoginIsPlain(code, uri);
    LoginIsPlain(code', uri');
    LoginsFit(code, uri, code', uri');
    GithubLoginIsFound(code, uri);
    AwsLoginIsFound(g, code', uri');
    MarkerStaysLast(code, uri, code', uri');
    SilentLogin(g, w, Prompt(Github, code, uri), Prompt(AwsSso, code', uri'));
  }

  lemma SilentLogin(g: string, w: string, p: Prompt, q: Prompt)
    requires Plain(g) && Plain(w) && |g + w| <= MAX_BUFFER_CHARS
    requires DetectGithub(g) == Some(p) && SameLastMarker(Github, g, w) && DetectAws(g + w) == Some(q)
    ensures var chunks := [Encode(g), Encode(w)];
            Scan(chunks).1 == [p] && DetectAws(Scan(chunks).0.buffer) == Some(q)
  {
    TwoTexts(g, w);
    LaterLoginIsSilent(g, w, p);
    assert [] + [Encode(g)] + [Encode(w)] == [Encode(g), Encode(w)];
  }

  lemma MarkerStaysLast(code: string, uri: string, code': string, uri': string)
    requires LooksLikeDeviceCode(code) && UrlText(uri) && LooksLikeDeviceCode(code') && UrlText(uri')
    ensures SameLastMarker(Github, GithubLogin(code, uri), AwsLogin(code', uri'))
  {
    CodeIsToken(code');
    UrlLine("", uri);
    UrlLine("", uri');
    NoGithubMarker(code', uri');
    AbsentLogin(uri, AwsLogin(code', uri'));
    AbsentLogin(uri, "");
    GithubMarkerIsLast(code, uri, AwsLogin(code', uri'));
    GithubMarkerIsLast(code, uri, "");
    assert GithubLogin(code, uri) + "" == GithubLogin(code, uri);
  }

  const FIRST_SITE := HTTPS + "github.com"
  const SECOND_SITE := HTTPS + "aws.com/"

  predicate Printable(s: string) {
    forall i :: 0 <= i < |s| ==> '!' <= s[i] <= '~'
  }

  lemma PrintableUrl(uri: string)
    requires HTTPS <= uri && Printable(uri) && |uri| <= 512
    ensures UrlText(uri)
  {
    EncodeAscii(uri);
  }

  lemma SomeText()
    ensures Printable(HTTPS) && Printable("github.com") && Printable("aws.com/")
  {
  }

  lemma PathText()
    ensures Printable(DEVICE_PATH)
  {
  }

  lemma SitesAreUrls()
    ensures UrlText(FIRST_SITE + DEVICE_PATH) && UrlText(SECOND_SITE)
  {
    SomeText();
    PathText();
    PrintableUrl(FIRST_SITE + DEVICE_PATH);
    PrintableUrl(SECOND_SITE);
  }

  lemma DeviceSite(site: string)
    ensures Find(site + DEVICE_PATH, DEVICE_PATH).Some?
  {
    assert OccursAt(site + DEVICE_PATH, DEVICE_PATH, |site|);
    FindIsFirst(site + DEVICE_PATH, DEVICE_PATH);
  }

  /** An `h` starts every `https://`, and there is only one. */
  lemma OneSite(rest: string)
    requires 'h' !in rest
    ensures RFind(HTTPS + rest, HTTPS) == Some(0)
  {
    var site := HTTPS + rest;
    SiteStart();
    forall j | 0 < j ensures !OccursAt(site, HTTPS, j) {
      assert j < |HTTPS| ==> site[j] == HTTPS[1..][j - 1];
      NotAtChar(site, HTTPS, j);
    }
    assert site[..|HTTPS|] == HTTPS;
    RFindAt(site, HTTPS, 0);
  }

  lemma SiteStart()
    ensures HTTPS != "" && HTTPS[0] == 'h' && 'h' !in HTTPS[1..]
  {
    assert HTTPS[1..] == "ttps://";
  }

  lemma TwoCodes()
    ensures LooksLikeDeviceCode("F1FE-DF1C") && LooksLikeDeviceCode("WXYZ-6789")
  {
    assert IsAlphanumeric("F1FE-DF1C"[0]) && IsAlphanumeric("WXYZ-6789"[0]);
  }

  /** Such a pair of logins. */
  lemma OneSecondLogin()
    ensures var first, second := FIRST_SITE + DEVICE_PATH, SECOND_SITE;
            var chunks := [Encode(GithubLogin("F1FE-DF1C", first)), Encode(AwsLogin("WXYZ-6789", second))];
            && Scan(chunks).1 == [Prompt(Github, "F1FE-DF1C", first)]
            && DetectAws(Scan(chunks).0.buffer) == Some(Prompt(AwsSso, "WXYZ-6789", second))
  {
    SitesAreUrls();
    DeviceSite(FIRST_SITE);
    OneSite("aws.com/");
    TwoCodes();
    SecondLoginIsNotReported("F1FE-DF1C", FIRST_SITE + DEVICE_PATH, "WXYZ-6789", SECOND_SITE);
  }
}
