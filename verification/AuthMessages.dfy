/** The three prompts as the command-line tools print them, word for word: what a detector makes of them
    for every code, page and spacing. Nothing here leans on the detectors' own character classes: which
    codes count is spelled out. */
module AuthMessages {
  import opened Wrappers
  import opened Text
  import opened Utf8
  import opened AuthDetect
  import opened AuthRuns
  import opened AuthPrompts
  import opened AuthReports

  /** 4 to 24 letters, digits and dashes, not all of them dashes. */
  predicate IsCode(code: string) {
    && 4 <= |code| <= 24
    && (forall c :: c in code ==> '0' <= c <= '9' || 'A' <= c <= 'Z' || 'a' <= c <= 'z' || c == '-')
    && (exists c :: c in code && c != '-')
  }

  lemma CodesAre(code: string)
    ensures LooksLikeDeviceCode(code) <==> IsCode(code)
  {
    if LooksLikeDeviceCode(code) {
      forall c | c in code ensures '0' <= c <= '9' || 'A' <= c <= 'Z' || 'a' <= c <= 'z' || c == '-' {
        var i :| 0 <= i < |code| && code[i] == c;
        assert IsAlphanumeric(code[i]) || code[i] == '-';
      }
      var i :| 0 <= i < |code| && IsAlphanumeric(code[i]);
      assert code[i] in code && code[i] != '-';
    }
    if IsCode(code) {
      var c :| c in code && c != '-';
      var i :| 0 <= i < |code| && code[i] == c;
      assert IsAlphanumeric(code[i]);
      assert forall k :: 0 <= k < |code| ==> code[k] in code;
    }
  }

  predicate Punctuation(s: string) {
    forall c :: c in s ==> c == '.' || c == ',' || c == ':' || c == ';' || c == '!' || c == '?'
  }

  /** A word that does not end in punctuation. */
  predicate Word(s: string) {
    && s != "" && !Punctuation(s[|s| - 1..])
    && forall c :: c in s ==> !IsWhitespace(c)
  }

  lemma WordIsToken(s: string)
    requires Word(s)
    ensures IsToken(s) && ' ' !in s && '\n' !in s
  {
    assert s[|s| - 1..] == [s[|s| - 1]];
  }

  /** A word, punctuation and then whitespace: the end of a token. */
  lemma TokenEnds(tail: string, after: string)
    requires Punctuation(tail) && after != "" && IsWhitespace(after[0])
    ensures EndsToken(tail + after, |tail|)
  {
    forall i | 0 <= i < |tail| ensures IsPunctuation((tail + after)[i]) {
      assert tail[i] in tail;
    }
  }

  // ---- Azure ----

  function AzureMessage(page: string, code: string, tail: string): string {
    "To sign in, use a web browser to open the page " + page + " and enter the code " + code + tail
    + " to authenticate.\n"
  }

  /** The Azure message behind its page marker. */
  function AzureBehind(page: string, rest: string): string {
    page + (" and enter the code " + rest)
  }

  lemma AzureText(page: string, code: string, tail: string)
    ensures AzureMessage(page, code, tail)
         == "To sign in, " + (AZURE_URL_MARKER + AzureBehind(page, code + (tail + " to authenticate.\n")))
  {
    var a, b, c := " and enter the code ", code + tail, " to authenticate.\n";
    AzureFront();
    var front := "To sign in, " + AZURE_URL_MARKER;
    assert front + page + a + code + tail + c == front + (page + (a + (code + (tail + c))));
  }

  lemma AzureFront()
    ensures "To sign in, use a web browser to open the page " == "To sign in, " + AZURE_URL_MARKER
  {
  }

  /** An `a`, a space and a `w` in a row, ending at `p`, as in the page marker. */
  predicate AwAt(text: string, p: nat) {
    2 <= p < |text| && text[p] == 'w' && text[p - 1] == ' ' && text[p - 2] == 'a'
  }

  lemma MarkerHasAw(text: string, j: nat)
    requires OccursAt(text, AZURE_URL_MARKER, j)
    ensures AwAt(text, j + 6)
  {
    var m := AZURE_URL_MARKER;
    assert m[4] == 'a' && m[5] == ' ' && m[6] == 'w';
    var w := text[j..j + |m|];
    assert w[4] == text[j + 4] && w[5] == text[j + 5] && w[6] == text[j + 6];
  }

  lemma OneAwInMarker()
    ensures forall p :: 6 < p < |AZURE_URL_MARKER| ==> !AwAt(AZURE_URL_MARKER, p)
    ensures |AZURE_URL_MARKER| == 35 && AZURE_URL_MARKER[34] == ' ' && AZURE_URL_MARKER[33] == 'e'
  {
  }

  /** Behind the marker: a word, then words without `w`, then a word, then words without `w`. */
  lemma NoAwBehind(marker: string, page: string, mid: string, word: string, end: string, p: nat)
    requires |marker| >= 2 && marker[|marker| - 1] == ' ' && marker[|marker| - 2] != 'a'
    requires ' ' !in page && ' ' !in word && 'w' !in mid && 'w' !in end
    requires |mid| >= 2 && mid[|mid| - 1] == ' ' && mid[|mid| - 2] != 'a'
    requires |marker| <= p
    ensures !AwAt(marker + (page + (mid + (word + end))), p)
  {
    var text := marker + (page + (mid + (word + end)));
    if p < |text| {
      var q := p - |marker|;
      if q < |page| {
        assert text[p] == page[q];
        assert q > 0 ==> text[p - 1] == page[q - 1];
      } else if q < |page| + |mid| {
        assert text[p] == mid[q - |page|];
      } else if q < |page| + |mid| + |word| {
        var i := q - |page| - |mid|;
        assert text[p] == word[i];
        assert i > 0 ==> text[p - 1] == word[i - 1];
        assert i == 0 ==> text[p - 2] == mid[|mid| - 2];
      } else {
        assert text[p] == end[q - |page| - |mid| - |word|];
      }
    }
  }

  lemma MidText()
    ensures var mid := " and enter the code ";
            'w' !in mid && |mid| == 20 && mid[19] == ' ' && mid[18] == 'e' && mid[..5] == " and "
            && mid == " and " + AZURE_CODE_MARKER
    ensures 'w' !in " to authenticate.\n"
  {
  }

  lemma NoAwInTail(word: string, tail: string)
    requires Punctuation(tail)
    ensures ' ' !in tail && 'w' !in tail
  {
  }

  lemma AzureMarkerIsLast(page: string, word: string)
    requires ' ' !in page && ' ' !in word
    ensures RFind(AZURE_URL_MARKER + AzureBehind(page, word + " to authenticate.\n"), AZURE_URL_MARKER) == Some(0)
  {
    var m, behind := AZURE_URL_MARKER, AzureBehind(page, word + " to authenticate.\n");
    var text := m + behind;
    OneAwInMarker();
    MidText();
    assert text[0..|m|] == m;
    forall j | 0 < j ensures !OccursAt(text, m, j) {
      if j + 6 < |m| {
        AwInFront(m, behind, j + 6);
      } else {
        NoAwBehind(m, page, " and enter the code ", word, " to authenticate.\n", j + 6);
      }
      if OccursAt(text, m, j) {
        MarkerHasAw(text, j);
      }
    }
    RFindAt(text, m, 0);
  }

  lemma AwInFront(m: string, behind: string, p: nat)
    requires p < |m|
    ensures AwAt(m + behind, p) <==> AwAt(m, p)
  {
  }

  /** Where ` and ` follows a word, the code marker starts behind it and not before. */
  lemma CodeMarkerIsFirst(page: string, rest: string)
    requires ' ' !in page
    ensures Find(AzureBehind(page, rest), AZURE_CODE_MARKER) == Some(|page| + 5)
    ensures AzureBehind(page, rest)[|page| + 5 + |AZURE_CODE_MARKER|..] == rest
  {
    var behind, k := AzureBehind(page, rest), |page| + 5;
    MidText();
    assert behind == (page + " and ") + AZURE_CODE_MARKER + rest;
    assert behind[k..k + |AZURE_CODE_MARKER|] == AZURE_CODE_MARKER;
    forall j | 0 <= j < k ensures !OccursAt(behind, AZURE_CODE_MARKER, j) {
      NotYet(page, rest, j);
    }
    FindAt(behind, AZURE_CODE_MARKER, k);
  }

  lemma NotYet(page: string, rest: string, j: nat)
    requires ' ' !in page && j < |page| + 5
    ensures !OccursAt(AzureBehind(page, rest), AZURE_CODE_MARKER, j)
  {
    var behind, m := AzureBehind(page, rest), AZURE_CODE_MARKER;
    var mid := " and enter the code ";
    assert m[0] == 'e' && m[1] == 'n' && m[5] == ' ' && m[6] == 't';
    assert mid[0] == ' ' && mid[1] == 'a' && mid[2] == 'n' && mid[3] == 'd' && mid[4] == ' ';
    assert forall i :: 0 <= i < |page| ==> behind[i] == page[i];
    assert forall i :: 0 <= i < 20 ==> behind[|page| + i] == mid[i];
    if j + |m| <= |behind| {
      var w := behind[j..j + |m|];
      assert w[0] == behind[j] && w[1] == behind[j + 1] && w[5] == behind[j + 5] && w[6] == behind[j + 6];
    }
  }

  /** For every page and every word: the Azure message is detected, with exactly that code and page, iff
      the page is an https URL and the word is a code. Punctuation behind the code is not part of it. */
  lemma AzureMessageExact(page: string, code: string, tail: string)
    requires Word(page) && Word(code) && Punctuation(tail)
    ensures DetectAzure(AzureMessage(page, code, tail))
         == if "https://" <= page && IsCode(code) then Some(Prompt(Azure, code, page)) else None
  {
    WordIsToken(page);
    WordIsToken(code);
    CodesAre(code);
    var end := " to authenticate.\n";
    var behind := AzureBehind(page, code + (tail + end));
    AzureStart(page, code, tail, end);
    AzureTokens(page, code, tail, end);
    AzurePartsAt(AzureMessage(page, code, tail), 12 + |AZURE_URL_MARKER|, Some(page), behind);
  }

  lemma AzureStart(page: string, code: string, tail: string, end: string)
    requires Word(page) && Word(code) && Punctuation(tail) && end == " to authenticate.\n"
    ensures var text, start := AzureMessage(page, code, tail), 12 + |AZURE_URL_MARKER|;
            && AfterMarker(text, AZURE_URL_MARKER) == Some(start) && start <= |text|
            && text[start..] == AzureBehind(page, code + (tail + end))
  {
    NoAwInTail(code, tail);
    AzureText(page, code, tail);
    var behind := AzureBehind(page, code + (tail + end));
    assert code + (tail + end) == (code + tail) + end;
    AzureMarkerIsLast(page, code + tail);
    RFindSuffix("To sign in, ", AZURE_URL_MARKER + behind, AZURE_URL_MARKER);
    FrontDrops("To sign in, ", AZURE_URL_MARKER, behind);
  }

  lemma FrontDrops(x: string, y: string, z: string)
    ensures (x + (y + z))[|x| + |y|..] == z
  {
  }

  lemma AzureTokens(page: string, code: string, tail: string, end: string)
    requires Word(page) && Word(code) && Punctuation(tail) && end != "" && end[0] == ' '
    ensures var behind := AzureBehind(page, code + (tail + end));
            && LeadingToken(TrimBlanks(behind)) == Some(page) && AzureCode(behind) == Some(code)
  {
    var rest := code + (tail + end);
    var behind := AzureBehind(page, rest);
    WordIsToken(page);
    WordIsToken(code);
    TokenEnds("", " and enter the code " + rest);
    assert "" + (" and enter the code " + rest) == " and enter the code " + rest && "" + behind == behind;
    TokenTaken(behind, page, "", 0, " and enter the code " + rest);
    CodeMarkerIsFirst(page, rest);
    TokenEnds(tail, end);
    assert "" + rest == rest;
    TokenTaken(rest, code, "", |tail|, tail + end);
  }

  // ---- GitHub ----

  predicate Blanks(s: string) {
    forall c :: c in s ==> c == ' ' || c == '\t'
  }

  const OPEN_FRONT := "Open t"
  const OPEN_BACK := "is URL to continue in your web browser: "
  const OPEN_THIS := OPEN_FRONT + "h" + OPEN_BACK

  function GithubMessage(pad: string, code: string, tail: string, uri: string): string {
    "! First copy your one-time code:" + pad + code + tail + "\n" + OPEN_THIS + uri + "\n"
  }

  lemma GithubText(front: string, pad: string, code: string, tail: string, line: string, uri: string)
    ensures var text := front + pad + code + tail + "\n" + line + uri + "\n";
            && text == front + (pad + (code + tail)) + "\n" + (line + (uri + "\n"))
            && text == front + (pad + (code + (tail + ("\n" + line) + uri + "\n")))
  {
  }

  lemma FrontSplits(a: string, m: string, more: string, line: string)
    ensures (a + m) + more + "\n" + line == a + (m + more + "\n" + line)
  {
  }

  /** The message cut at its marker, in the two ways the proofs need. */
  lemma GithubShape(pad: string, code: string, tail: string, uri: string)
    ensures var text, more := GithubMessage(pad, code, tail, uri), pad + (code + tail);
            && text == "! " + (GITHUB_MARKER + more + "\n" + (OPEN_THIS + (uri + "\n")))
            && text == ("! " + GITHUB_MARKER) + (pad + (code + (tail + ("\n" + OPEN_THIS) + uri + "\n")))
  {
    GithubFront();
    GithubText("! " + GITHUB_MARKER, pad, code, tail, OPEN_THIS, uri);
    FrontSplits("! ", GITHUB_MARKER, pad + (code + tail), OPEN_THIS + (uri + "\n"));
  }

  lemma GithubFront()
    ensures "! First copy your one-time code:" == "! " + GITHUB_MARKER
  {
  }

  /** In a line of blanks and a word the marker is not found again. */
  lemma OnceInWordLine(m: string, pad: string, word: string)
    requires m != "" && m[0] !in m[1..] && ' ' in m && m[0] != ' ' && m[0] != '\t'
    requires Blanks(pad) && ' ' !in word
    ensures forall j :: 0 < j ==> !OccursAt(m + (pad + word), m, j)
  {
    var text := m + (pad + word);
    forall j | 0 < j ensures !OccursAt(text, m, j) {
      if j < |m| {
        assert text[j] == m[1..][j - 1];
        NotAtChar(text, m, j);
      } else if j < |m| + |pad| {
        assert text[j] == pad[j - |m|] && pad[j - |m|] in pad;
        NotAtChar(text, m, j);
      } else {
        AbsentInWord(word, m);
        OccursInSuffix(m + pad, word, m, j - |m| - |pad|);
        assert text == (m + pad) + word;
      }
    }
  }

  /** Nor in a line without its first character, followed by a word. */
  lemma AbsentInTail(line: string, word: string, m: string)
    requires m != "" && m[0] !in line && ' ' in m && ' ' !in word
    ensures Absent(line + word, m)
  {
    AbsentInWord(word, m);
    forall j: nat ensures !OccursAt(line + word, m, j) {
      if j < |line| {
        NotAtChar(line + word, m, j);
      } else {
        OccursInSuffix(line, word, m, j - |line|);
      }
    }
  }

  lemma OpenThis()
    ensures 'F' !in OPEN_THIS && OPEN_THIS != "" && OPEN_THIS[|OPEN_THIS| - 1] == ' '
    ensures forall i :: 0 <= i < |OPEN_THIS| - 1 && OPEN_THIS[i] == 'h' ==> OPEN_THIS[i + 1] != 't'
  {
    OpenParts(OPEN_FRONT, OPEN_BACK);
    OneH(OPEN_FRONT, OPEN_BACK);
  }

  lemma OneH(front: string, back: string)
    requires 'h' !in front && 'h' !in back && back != "" && back[0] != 't'
    ensures var s := front + "h" + back;
            forall i :: 0 <= i < |s| - 1 && s[i] == 'h' ==> s[i + 1] != 't'
  {
    var s := front + "h" + back;
    assert s[|front| + 1] == back[0];
    assert forall i :: |front| < i < |s| ==> s[i] == back[i - |front| - 1];
    assert forall i :: 0 <= i < |s| && s[i] == 'h' ==> i == |front|;
  }

  /** The only `h` of that line is the one of `this`. */
  lemma OpenParts(front: string, back: string)
    requires front == OPEN_FRONT && back == OPEN_BACK
    ensures 'h' !in front && 'h' !in back && 'F' !in front && 'F' !in back
    ensures back != "" && back[0] == 'i' && back[|back| - 1] == ' '
  {
  }

  lemma GithubMarkerFound(pad: string, word: string, uri: string)
    requires Blanks(pad) && ' ' !in word && ' ' !in uri
    ensures RFind("! " + (GITHUB_MARKER + (pad + word) + "\n" + (OPEN_THIS + (uri + "\n"))), GITHUB_MARKER) == Some(2)
  {
    GithubStart();
    MarkersAreLines();
    OpenThis();
    OnceInWordLine(GITHUB_MARKER, pad, word);
    AbsentInTail(OPEN_THIS, uri + "\n", GITHUB_MARKER);
    LastInLine("! ", GITHUB_MARKER, pad + word, OPEN_THIS + (uri + "\n"));
  }

  /** The first URL behind the code is the one on the next line. */
  lemma OpenThisUrl(tail: string, uri: string)
    requires Punctuation(tail) && HTTPS <= uri
    ensures var mid := tail + ("\n" + OPEN_THIS);
            Find(mid + uri + "\n", HTTPS) == Some(|mid|)
  {
    var mid := tail + ("\n" + OPEN_THIS);
    var text := mid + uri + "\n";
    OpenThis();
    SiteChars();
    assert text[|mid|..|mid| + |HTTPS|] == uri[..|HTTPS|];
    forall j | 0 <= j < |mid| ensures !OccursAt(text, HTTPS, j) {
      if j < |tail| {
        assert text[j] == tail[j] && tail[j] in tail;
        NotAtChar(text, HTTPS, j);
      } else if j == |tail| {
        assert text[j] == '\n';
        NotAtChar(text, HTTPS, j);
      } else {
        NotAtHt(text, tail, uri, j);
      }
    }
    FindAt(text, HTTPS, |mid|);
  }

  lemma SiteChars()
    ensures |HTTPS| == 8 && HTTPS[0] == 'h' && HTTPS[1] == 't'
  {
  }

  lemma NotAtHt(text: string, tail: string, uri: string, j: nat)
    requires text == tail + ("\n" + OPEN_THIS) + uri + "\n" && |tail| < j < |tail| + 1 + |OPEN_THIS|
    ensures !OccursAt(text, HTTPS, j)
  {
    OpenThis();
    SiteChars();
    var i := j - |tail| - 1;
    assert text[j] == OPEN_THIS[i] && (i + 1 < |OPEN_THIS| ==> text[j + 1] == OPEN_THIS[i + 1]);
    if j + 8 <= |text| {
      assert text[j..j + 8][0] == text[j] && text[j..j + 8][1] == text[j + 1];
    }
  }

  /** For every spacing, word and URL: the message is detected, with exactly that code and URL, iff the word
      is a code and the URL leads to a device-login page. */
  lemma GithubMessageExact(pad: string, code: string, tail: string, uri: string)
    requires Blanks(pad) && Word(code) && Punctuation(tail) && UrlText(uri)
    ensures DetectGithub(GithubMessage(pad, code, tail, uri))
         == if IsCode(code) && Find(uri, "/login/device").Some? then Some(Prompt(Github, code, uri)) else None
  {
    var text, after := GithubMessage(pad, code, tail, uri), tail + ("\n" + OPEN_THIS) + uri + "\n";
    var behind := pad + (code + after);
    WordIsToken(code);
    NoAwInTail(code, tail);
    UrlLine("", uri);
    GithubShape(pad, code, tail, uri);
    GithubMarkerFound(pad, code + tail, uri);
    var start := 2 + |GITHUB_MARKER|;
    DropFront("! " + GITHUB_MARKER, behind);
    GithubTail(pad, code, tail, uri, after);
    GithubPartsAt(text, start, Some(code), behind);
  }

  lemma GithubTail(pad: string, code: string, tail: string, uri: string, after: string)
    requires Blanks(pad) && Word(code) && Punctuation(tail) && UrlText(uri)
    requires after == tail + ("\n" + OPEN_THIS) + uri + "\n"
    ensures var behind := pad + (code + after);
            && LeadingToken(TrimBlanks(behind)) == Some(code)
            && GithubFields(Some(code), behind)
                 == if IsCode(code) && Find(uri, "/login/device").Some? then Some(Prompt(Github, code, uri)) else None
  {
    var behind, mid := pad + (code + after), tail + ("\n" + OPEN_THIS);
    WordIsToken(code);
    CodesAre(code);
    assert after == tail + ("\n" + OPEN_THIS + uri + "\n");
    TokenEnds(tail, "\n" + OPEN_THIS + uri + "\n");
    BlankPad(pad);
    TokenTaken(behind, code, pad, |tail|, after);
    CodeLocated(behind, code, pad, |tail|, after);
    OpenThisUrl(tail, uri);
    UrlLine(mid, uri);
    FirstUrl(after, uri, mid, "\n");
    UriBehind(behind, code, |pad|, after);
    OnlyDevices(uri);
  }

  lemma BlankPad(pad: string)
    requires Blanks(pad)
    ensures forall i :: 0 <= i < |pad| ==> IsBlank(pad[i])
  {
    assert forall i :: 0 <= i < |pad| ==> pad[i] in pad;
  }

  lemma OnlyDevices(uri: string)
    ensures OnlyDeviceLogin(Some(uri)) == if Find(uri, "/login/device").Some? then Some(uri) else None
  {
  }

  // ---- AWS ----

  function AwsMessage(front: string, uri: string, code: string, tail: string): string {
    front + uri + "\n\nThen enter the code:\n\n" + code + tail + "\n"
  }

  lemma AwsText(front: string, uri: string, code: string, tail: string)
    ensures AwsMessage(front, uri, code, tail)
         == (front + uri + "\n\n") + (AWS_MARKER + "" + "\n" + ("\n" + code + tail + "\n"))
  {
    AwsMiddle();
  }

  lemma AwsMiddle()
    ensures "\n\nThen enter the code:\n\n" == "\n\n" + AWS_MARKER + "\n\n"
  {
  }

  lemma LastSiteBefore(front: string, uri: string)
    requires RFind(uri, HTTPS) == Some(0)
    ensures RFind(front + uri + "\n\n", HTTPS) == Some(|front|)
  {
    var line := uri + "\n" + "\n";
    RFindIsLast(uri, HTTPS);
    SiteChars();
    assert line[..|HTTPS|] == uri[..|HTTPS|];
    forall j | 0 < j ensures !OccursAt(line, HTTPS, j) {
      if OccursAt(line, HTTPS, j) {
        InOneLine(uri, "\n", HTTPS, j);
      }
    }
    RFindAt(line, HTTPS, 0);
    RFindSuffix(front, line, HTTPS);
    assert front + line == front + uri + "\n\n";
  }

  lemma LineShape(blanks: string, code: string, tail: string)
    ensures blanks + code + tail + "\n" == blanks + (("" + (code + (tail + ""))) + "\n" + "")
  {
  }

  lemma AwsLine(code: string, tail: string)
    requires Word(code) && Punctuation(tail)
    ensures FirstNonblankLine("\n\n" + code + tail + "\n") == Some(code)
  {
    var behind := "\n\n" + code + tail + "\n";
    WordIsToken(code);
    LineShape("\n\n", code, tail);
    forall i | 0 <= i < |tail| ensures IsPunctuation(tail[i]) {
      assert tail[i] in tail;
    }
    LineTaken(behind, code, "\n\n", "", tail, "", "");
  }

  /** For whatever the tool prints before, every URL and every word: the message is detected, with exactly
      that code and URL, iff the word is a code. */
  lemma AwsMessageExact(front: string, uri: string, code: string, tail: string)
    requires UrlText(uri) && RFind(uri, HTTPS) == Some(0) && Word(code) && Punctuation(tail)
    ensures DetectAws(AwsMessage(front, uri, code, tail))
         == if IsCode(code) then Some(Prompt(AwsSso, code, uri)) else None
  {
    var before, rest := front + uri + "\n\n", "\n" + code + tail + "\n";
    var text := AwsMessage(front, uri, code, tail);
    WordIsToken(code);
    NoAwInTail(code, tail);
    CodesAre(code);
    AwsText(front, uri, code, tail);
    AwsStart();
    MarkersAreLines();
    AbsentInWord(rest, AWS_MARKER);
    LastMarker(before, AWS_MARKER, "", rest);
    AwsCut(before, rest);
    AwsLine(code, tail);
    AwsSite(front, uri);
    assert "\n" + rest == "\n\n" + code + tail + "\n";
    AwsPartsAt(text, |before| + |AWS_MARKER|, "\n" + rest, before);
  }

  lemma AwsCut(before: string, rest: string)
    ensures var text, start := before + (AWS_MARKER + "" + "\n" + rest), |before| + |AWS_MARKER|;
            text[start..] == "\n" + rest && text[..start - |AWS_MARKER|] == before
  {
  }

  lemma AwsSite(front: string, uri: string)
    requires UrlText(uri) && RFind(uri, HTTPS) == Some(0)
    ensures LastHttpsUrl(front + uri + "\n\n") == Some(uri)
  {
    LastSiteBefore(front, uri);
    UrlTail(front, uri);
    UrlTaken(front + uri + "\n\n", uri, front, "\n\n");
  }

  lemma UrlTail(front: string, uri: string)
    requires UrlText(uri)
    ensures UrlPart(front + uri + "\n\n", uri, front, "\n\n")
  {
  }
}
