/** Exactly which texts the three detectors fire on: each reported prompt is a marker, a code and a
    URL in stated places, and every text with those parts is reported with that code and URL. */
module AuthPrompts {
  import opened Wrappers
  import opened Text
  import opened Utf8
  import opened AuthDetect
  import opened AuthRuns

  // ---- tokens ----

  /** A token's end is confirmed: punctuation, and then whitespace. */
  ghost predicate EndsToken(after: string, punct: nat) {
    && punct < |after| && IsWhitespace(after[punct])
    && forall i :: 0 <= i < punct ==> IsPunctuation(after[i])
  }

  /** A word that a token can be: no whitespace, and no punctuation at its end. */
  ghost predicate IsToken(tok: string) {
    && tok != "" && !IsPunctuation(tok[|tok| - 1])
    && forall i :: 0 <= i < |tok| ==> !IsWhitespace(tok[i])
  }

  /** Blanks, then the token, its end confirmed by `after`. */
  ghost predicate TokenPart(behind: string, tok: string, pad: string, punct: nat, after: string) {
    && behind == pad + (tok + after)
    && (forall i :: 0 <= i < |pad| ==> IsBlank(pad[i]))
    && IsToken(tok)
    && EndsToken(after, punct)
  }

  lemma {:induction false} TrimBlanksPad(pad: string, rest: string)
    requires forall i :: 0 <= i < |pad| ==> IsBlank(pad[i])
    requires rest != "" && !IsBlank(rest[0])
    ensures TrimBlanks(pad + rest) == rest
  {
    if pad == "" {
      assert pad + rest == rest;
    } else {
      TrimBlanksPad(pad[1..], rest);
      assert (pad + rest)[1..] == pad[1..] + rest;
    }
  }

  lemma {:induction false} TrimPunctuationBack(tok: string, punct: string)
    requires forall i :: 0 <= i < |punct| ==> IsPunctuation(punct[i])
    requires tok != "" && !IsPunctuation(tok[|tok| - 1])
    ensures TrimPunctuation(tok + punct) == tok
  {
    if punct == "" {
      assert tok + punct == tok;
    } else {
      TrimPunctuationBack(tok, punct[..|punct| - 1]);
      assert (tok + punct)[..|tok + punct| - 1] == tok + punct[..|punct| - 1];
    }
  }

  lemma TokenTaken(behind: string, tok: string, pad: string, punct: nat, after: string)
    requires TokenPart(behind, tok, pad, punct, after)
    ensures LeadingToken(TrimBlanks(behind)) == Some(tok)
  {
    var rest := tok + after;
    TrimBlanksPad(pad, rest);
    FirstSpaceAt(rest, |tok| + punct);
    assert rest[..|tok| + punct] == tok + after[..punct];
    TrimPunctuationBack(tok, after[..punct]);
  }

  lemma {:induction false} BlanksTrimmed(s: string) returns (pad: string)
    ensures s == pad + TrimBlanks(s) && forall i :: 0 <= i < |pad| ==> IsBlank(pad[i])
  {
    pad := "";
    if s != "" && IsBlank(s[0]) {
      var p := BlanksTrimmed(s[1..]);
      pad := [s[0]] + p;
      assert s == [s[0]] + s[1..];
    }
  }

  lemma {:induction false} PunctuationTrimmed(s: string) returns (punct: string)
    ensures s == TrimPunctuation(s) + punct && forall i :: 0 <= i < |punct| ==> IsPunctuation(punct[i])
    ensures var r := TrimPunctuation(s); r != "" ==> !IsPunctuation(r[|r| - 1])
  {
    punct := "";
    if s != "" && IsPunctuation(s[|s| - 1]) {
      var p := PunctuationTrimmed(s[..|s| - 1]);
      punct := p + [s[|s| - 1]];
      assert s == s[..|s| - 1] + [s[|s| - 1]];
    }
  }

  lemma TokenParts(behind: string, tok: string) returns (pad: string, punct: nat, after: string)
    requires LeadingToken(TrimBlanks(behind)) == Some(tok)
    ensures TokenPart(behind, tok, pad, punct, after)
  {
    pad := BlanksTrimmed(behind);
    var rest := TrimBlanks(behind);
    FirstSpaceIsFirst(rest);
    var end := FirstSpace(rest).value;
    var p := PunctuationTrimmed(rest[..end]);
    after := p + rest[end..];
    punct := |p|;
    assert rest == rest[..end] + rest[end..];
    Reassociate(tok, p, rest[end..]);
    DropFront(p, rest[end..]);
    assert after[punct] == rest[end];
    assert forall i :: 0 <= i < |tok| ==> tok[i] == rest[i];
  }

  // ---- URLs ----

  /** A URL at `mid`'s end, its own end confirmed by whitespace. */
  ghost predicate UrlPart(text: string, uri: string, mid: string, tail: string) {
    && text == mid + uri + tail
    && (forall i :: 0 <= i < |uri| ==> !IsWhitespace(uri[i]))
    && tail != "" && IsWhitespace(tail[0])
    && |Encode(uri)| <= 512
  }

  lemma UrlTaken(text: string, uri: string, mid: string, tail: string)
    requires UrlPart(text, uri, mid, tail)
    ensures HttpsUrlAt(text, |mid|) == Some(uri)
  {
    assert text[|mid|..] == uri + tail;
    FirstSpaceAt(uri + tail, |uri|);
    assert text[|mid|..|mid| + |uri|] == uri;
  }

  lemma UrlParts(text: string, start: nat, uri: string) returns (mid: string, tail: string)
    requires start <= |text| && HttpsUrlAt(text, start) == Some(uri)
    ensures |mid| == start && UrlPart(text, uri, mid, tail)
  {
    FirstSpaceIsFirst(text[start..]);
    var end := FirstSpace(text[start..]).value;
    mid, tail := text[..start], text[start + end..];
    CutTwice(text, start, start + end);
    forall i | 0 <= i < |uri| ensures !IsWhitespace(uri[i]) {
      assert text[start..][i] == uri[i];
    }
  }

  lemma CutAt(text: string, marker: string, k: nat)
    requires OccursAt(text, marker, k)
    ensures text == text[..k] + marker + text[k + |marker|..]
  {
  }

  // ---- GitHub: marker, code, and the first URL behind the code ----

  ghost predicate GithubPrompt(text: string, code: string, uri: string, before: string, pad: string, punct: nat,
                               after: string, mid: string, tail: string) {
    && RFind(text, GITHUB_MARKER) == Some(|before|)
    && text == before + GITHUB_MARKER + (pad + (code + after))
    && LooksLikeDeviceCode(code) && TokenPart(pad + (code + after), code, pad, punct, after)
    && Find(after, HTTPS) == Some(|mid|) && UrlPart(after, uri, mid, tail)
    && Find(uri, DEVICE_PATH).Some?
  }

  lemma CodeLocated(behind: string, code: string, pad: string, punct: nat, after: string)
    requires TokenPart(behind, code, pad, punct, after)
    ensures Find(behind, code) == Some(|pad|) && behind[|pad| + |code|..] == after
  {
    assert behind[|pad|..|pad| + |code|] == code;
    forall j | 0 <= j < |pad| ensures !OccursAt(behind, code, j) {
      NotAt(behind, code, j, 0);
    }
    FindAt(behind, code, |pad|);
  }

  lemma FirstUrl(after: string, uri: string, mid: string, tail: string)
    requires Find(after, HTTPS) == Some(|mid|) && UrlPart(after, uri, mid, tail)
    ensures FirstHttpsUrl(after) == Some(uri)
  {
    UrlTaken(after, uri, mid, tail);
  }

  /** Every such prompt is detected, with exactly its code and URL. */
  lemma GithubPromptIsFound(text: string, code: string, uri: string, before: string, pad: string, punct: nat,
                            after: string, mid: string, tail: string)
    requires GithubPrompt(text, code, uri, before, pad, punct, after, mid, tail)
    ensures DetectGithub(text) == Some(Prompt(Github, code, uri))
  {
    var behind := pad + (code + after);
    DropFront(before + GITHUB_MARKER, behind);
    TokenTaken(behind, code, pad, punct, after);
    CodeLocated(behind, code, pad, punct, after);
    FirstUrl(after, uri, mid, tail);
    FieldsFound(behind, code, |pad|, after, uri);
  }

  lemma FieldsFound(behind: string, code: string, k: nat, after: string, uri: string)
    requires Find(behind, code) == Some(k) && behind[k + |code|..] == after && LooksLikeDeviceCode(code)
    requires FirstHttpsUrl(after) == Some(uri) && Find(uri, DEVICE_PATH).Some?
    ensures GithubFields(Some(code), behind) == Some(Prompt(Github, code, uri))
  {
    UriBehind(behind, code, k, after);
    DeviceUri(uri);
  }

  lemma DeviceUri(uri: string)
    requires Find(uri, DEVICE_PATH).Some?
    ensures OnlyDeviceLogin(Some(uri)) == Some(uri)
  {
  }

  /** And nothing else is: whatever the detector reports sits in the text as such a prompt. */
  lemma GithubReportIsAPrompt(text: string, p: Prompt)
    returns (before: string, pad: string, punct: nat, after: string, mid: string, tail: string)
    requires DetectGithub(text) == Some(p)
    ensures GithubPrompt(text, p.userCode, p.verificationUri, before, pad, punct, after, mid, tail)
  {
    var k := RFind(text, GITHUB_MARKER).value;
    var start := k + |GITHUB_MARKER|;
    RFindIsLast(text, GITHUB_MARKER);
    CutAt(text, GITHUB_MARKER, k);
    FieldsOf(TakeToken(text, start), text[start..], p);
    before := text[..k];
    pad, punct, after, mid, tail := PartsBehind(text[start..], p);
  }

  lemma PartsBehind(behind: string, p: Prompt)
    returns (pad: string, punct: nat, after: string, mid: string, tail: string)
    requires LeadingToken(TrimBlanks(behind)) == Some(p.userCode)
    requires GithubUri(behind, p.userCode) == Some(p.verificationUri)
    ensures TokenPart(behind, p.userCode, pad, punct, after)
    ensures Find(after, HTTPS) == Some(|mid|) && UrlPart(after, p.verificationUri, mid, tail)
    ensures Find(p.verificationUri, DEVICE_PATH).Some?
  {
    pad, punct, after := TokenParts(behind, p.userCode);
    CodeLocated(behind, p.userCode, pad, punct, after);
    UriBehind(behind, p.userCode, |pad|, after);
    mid, tail := UrlParts(after, Find(after, HTTPS).value, p.verificationUri);
  }

  lemma FieldsOf(token: Option<string>, behind: string, p: Prompt)
    requires GithubFields(token, behind) == Some(p)
    ensures token == Some(p.userCode) && LooksLikeDeviceCode(p.userCode)
            && GithubUri(behind, p.userCode) == Some(p.verificationUri)
  {
  }

  // ---- AWS: the last URL before the marker, and the first word of the first non-blank line behind it ----

  predicate AllSpace(s: string) {
    forall i :: 0 <= i < |s| ==> IsWhitespace(s[i])
  }

  /** Blank lines, then a terminated line whose first word is the code. */
  ghost predicate LinePart(behind: string, code: string, blanks: string, lead: string, punct: string, more: string,
                           rest: string) {
    && behind == blanks + ((lead + (code + (punct + more))) + "\n" + rest)
    && AllSpace(blanks) && (blanks == "" || blanks[|blanks| - 1] == '\n')
    && AllSpace(lead) && '\n' !in lead && '\n' !in more
    && IsToken(code)
    && (forall i :: 0 <= i < |punct| ==> IsPunctuation(punct[i]))
    && (more == "" || IsWhitespace(more[0]))
  }

  ghost predicate AwsPrompt(text: string, code: string, uri: string, before: string, mid: string, tail: string,
                            blanks: string, lead: string, punct: string, more: string, rest: string) {
    && RFind(text, AWS_MARKER) == Some(|before|)
    && RFind(before, HTTPS) == Some(|mid|) && UrlPart(before, uri, mid, tail)
    && LooksLikeDeviceCode(code)
    && |before| + |AWS_MARKER| <= |text| && text[..|before| + |AWS_MARKER|] == before + AWS_MARKER
    && LinePart(text[|before| + |AWS_MARKER|..], code, blanks, lead, punct, more, rest)
  }

  /** `trim` cuts a text in three: whitespace, the rest, whitespace. */
  lemma {:induction false} TrimParts(s: string) returns (at: nat)
    ensures OccursAt(s, Trim(s), at) && AllSpace(s[..at]) && AllSpace(s[at + |Trim(s)|..]) && Trimmed(Trim(s))
    decreases |s|
  {
    at := 0;
    if s != "" && IsWhitespace(s[0]) {
      var i := TrimParts(s[1..]);
      at := i + 1;
      ShiftSpace(s, i, |Trim(s)|);
    } else if s != "" && IsWhitespace(s[|s| - 1]) {
      var front := s[..|s| - 1];
      at := TrimParts(front);
      GrowSpace(s, at, |Trim(s)|);
    }
  }

  lemma ShiftSpace(s: string, i: nat, n: nat)
    requires s != "" && IsWhitespace(s[0]) && i + n <= |s| - 1 && AllSpace(s[1..][..i]) && AllSpace(s[1..][i + n..])
    ensures AllSpace(s[..i + 1]) && AllSpace(s[i + 1 + n..]) && s[i + 1..i + 1 + n] == s[1..][i..i + n]
  {
    var c, tail := s[0], s[1..];
    assert s == [c] + tail;
    assert s[..i + 1] == [c] + tail[..i];
    assert s[i + 1 + n..] == tail[i + n..];
    assert s[i + 1..i + 1 + n] == tail[i..i + n];
  }

  lemma GrowSpace(s: string, at: nat, n: nat)
    requires s != "" && IsWhitespace(s[|s| - 1]) && at + n <= |s| - 1
    requires AllSpace(s[..|s| - 1][..at]) && AllSpace(s[..|s| - 1][at + n..])
    ensures AllSpace(s[..at]) && AllSpace(s[at + n..]) && s[at..at + n] == s[..|s| - 1][at..at + n]
  {
    assert s[..at] == s[..|s| - 1][..at];
    assert s[at + n..] == s[..|s| - 1][at + n..] + [s[|s| - 1]];
  }

  lemma {:induction false} TrimAllSpace(s: string)
    requires AllSpace(s)
    ensures Trim(s) == ""
  {
    if s != "" {
      TrimAllSpace(s[1..]);
    }
  }

  /** Whitespace in front of a text does not survive `trim`. */
  lemma {:induction false} TrimLead(lead: string, core: string)
    requires AllSpace(lead)
    ensures Trim(lead + core) == Trim(core)
  {
    if lead == "" {
      assert lead + core == core;
    } else {
      DropExtend(lead, core, 1);
      TrimLead(lead[1..], core);
    }
  }

  /** The first word of a trimmed line is the token in front of its first whitespace. */
  lemma LineTokenTaken(core: string, code: string, punct: string, more: string)
    requires core == code + (punct + more) && IsToken(code)
    requires (forall i :: 0 <= i < |punct| ==> IsPunctuation(punct[i])) && (more == "" || IsWhitespace(more[0]))
    ensures Trim(core) != "" && LineToken(Trim(core)) == Some(code)
  {
    var word := code + punct;
    var at := TrimParts(core);
    var t := Trim(core);
    SpaceInFront(core, at);
    assert core[0] == code[0];
    assert t == core[..|t|];
    Reassociate(code, punct, more);
    DropFront(word, more);
    WordHasNoSpace(code, punct);
    SpaceBehind(core, |t|, |word|);
    WordIsFirst(t, word, more, core, code, punct);
    assert t[..|word|] == word;
    TrimPunctuationBack(code, punct);
  }

  lemma SpaceInFront(s: string, at: nat)
    requires at <= |s|
    ensures at > 0 && AllSpace(s[..at]) ==> IsWhitespace(s[0])
  {
    if at > 0 { assert s[..at][0] == s[0]; }
  }

  lemma SpaceBehind(s: string, at: nat, n: nat)
    requires at <= |s| && 0 < n <= |s| && !IsWhitespace(s[n - 1])
    ensures AllSpace(s[at..]) ==> n <= at
  {
    if at < n { assert s[at..][n - 1 - at] == s[n - 1]; }
  }

  lemma WordHasNoSpace(code: string, punct: string)
    requires IsToken(code) && forall i :: 0 <= i < |punct| ==> IsPunctuation(punct[i])
    ensures forall i :: 0 <= i < |code + punct| ==> !IsWhitespace((code + punct)[i])
  {
  }

  lemma WordIsFirst(t: string, word: string, more: string, core: string, code: string, punct: string)
    requires word == code + punct && core == code + (punct + more) && |word| <= |t| <= |core| && t == core[..|t|]
    requires IsToken(code) && (forall i :: 0 <= i < |punct| ==> IsPunctuation(punct[i]))
             && (more == "" || IsWhitespace(more[0]))
    ensures FirstSpace(t) == if |t| == |word| then None else Some(|word|)
  {
    assert forall i :: 0 <= i < |word| ==> t[i] == word[i] && !IsWhitespace(word[i]);
    FirstSpaceIsFirst(t);
    if |t| > |word| {
      assert t[|word|] == core[|word|] == more[0];
      FirstSpaceAt(t, |word|);
    }
  }

  lemma {:induction false} LineTaken(behind: string, code: string, blanks: string, lead: string, punct: string,
                                     more: string, rest: string)
    requires LinePart(behind, code, blanks, lead, punct, more, rest)
    ensures FirstNonblankLine(behind) == Some(code)
    decreases |blanks|
  {
    var core := code + (punct + more);
    var line := lead + core;
    var last := line + "\n" + rest;
    if blanks == "" {
      assert behind == last;
      LineHasNoBreak(code, punct);
      CleanOfChar(line, '\n');
      FindAfterClean(line, "\n", rest);
      assert last[..|line|] == line;
      TrimLead(lead, core);
      LineTokenTaken(core, code, punct, more);
    } else {
      FindChar(blanks, '\n');
      FindExtend(blanks, last, "\n");
      var k := Find(blanks, "\n").value;
      DropExtend(blanks, last, k);
      DropExtend(blanks, last, k + 1);
      TrimAllSpace(blanks[..k]);
      LineTaken(behind[k + 1..], code, blanks[k + 1..], lead, punct, more, rest);
    }
  }

  lemma LineHasNoBreak(code: string, punct: string)
    requires IsToken(code) && forall i :: 0 <= i < |punct| ==> IsPunctuation(punct[i])
    ensures '\n' !in code && '\n' !in punct
  {
  }

  /** Every such prompt is detected, with exactly its code and URL. */
  lemma AwsPromptIsFound(text: string, code: string, uri: string, before: string, mid: string, tail: string,
                         blanks: string, lead: string, punct: string, more: string, rest: string)
    requires AwsPrompt(text, code, uri, before, mid, tail, blanks, lead, punct, more, rest)
    ensures DetectAws(text) == Some(Prompt(AwsSso, code, uri))
  {
    var start := |before| + |AWS_MARKER|;
    LineTaken(text[start..], code, blanks, lead, punct, more, rest);
    UrlTaken(before, uri, mid, tail);
    assert text[..|before|] == text[..start][..|before|];
    DropFront(before, AWS_MARKER);
    AwsPartsAt(text, start, text[start..], text[..start - |AWS_MARKER|]);
  }

  lemma CodeOfLine(line: string, code: string) returns (lead: string, punct: string, more: string)
    requires Trim(line) != "" && LineToken(Trim(line)) == Some(code) && '\n' !in line
    ensures line == lead + (code + (punct + more)) && AllSpace(lead) && '\n' !in lead && '\n' !in more && IsToken(code)
    ensures (forall i :: 0 <= i < |punct| ==> IsPunctuation(punct[i])) && (more == "" || IsWhitespace(more[0]))
  {
    var at := TrimParts(line);
    var t, end := Trim(line), 0;
    end, punct := WordOf(t, code);
    lead, more := line[..at], line[at + end..];
    CutTwice(line, at, at + end);
    TakeOfSlice(line, at, at + |t|, end);
    Reassociate(lead, t[..end], more);
    Reassociate(code, punct, more);
    MoreStarts(line, at, end, |t|);
  }

  lemma WordOf(t: string, code: string) returns (end: nat, punct: string)
    requires LineToken(t) == Some(code)
    ensures end <= |t| && t[..end] == code + punct && IsToken(code)
    ensures (forall i :: 0 <= i < |punct| ==> IsPunctuation(punct[i])) && (end < |t| ==> IsWhitespace(t[end]))
  {
    FirstSpaceIsFirst(t);
    end := match FirstSpace(t) case None => |t| case Some(k) => k;
    punct := PunctuationTrimmed(t[..end]);
    assert forall i :: 0 <= i < |code| ==> code[i] == t[i];
  }

  lemma MoreStarts(line: string, at: nat, end: nat, n: nat)
    requires end <= n && at + n <= |line| && AllSpace(line[at + n..])
    requires end < n ==> IsWhitespace(line[at..at + n][end])
    ensures line[at + end..] == "" || IsWhitespace(line[at + end..][0])
  {
    if end < n {
      assert line[at + end..][0] == line[at..at + n][end];
    }
  }

  lemma {:induction false} LineParts(behind: string, code: string)
    returns (blanks: string, lead: string, punct: string, more: string, rest: string)
    requires FirstNonblankLine(behind) == Some(code)
    ensures LinePart(behind, code, blanks, lead, punct, more, rest)
    decreases |behind|
  {
    FindChar(behind, '\n');
    var k := Find(behind, "\n").value;
    var line := behind[..k];
    assert behind == line + "\n" + behind[k + 1..];
    if Trim(line) == "" {
      blanks, lead, punct, more, rest := LineParts(behind[k + 1..], code);
      BlankLineInFront(line, behind[k + 1..], code, blanks, lead, punct, more, rest);
      blanks := line + "\n" + blanks;
    } else {
      lead, punct, more := CodeOfLine(line, code);
      blanks, rest := "", behind[k + 1..];
      assert "" + behind == behind;
    }
  }

  lemma BlankLineInFront(line: string, behind: string, code: string, blanks: string, lead: string, punct: string,
                         more: string, rest: string)
    requires Trim(line) == "" && LinePart(behind, code, blanks, lead, punct, more, rest)
    ensures LinePart(line + "\n" + behind, code, line + "\n" + blanks, lead, punct, more, rest)
  {
    var at := TrimParts(line);
    assert line == line[..at] + line[at..];
    assert AllSpace(line);
    Reassociate(line + "\n", blanks, (lead + (code + (punct + more))) + "\n" + rest);
    SpaceJoined(line, blanks);
  }

  lemma SpaceJoined(line: string, blanks: string)
    requires AllSpace(line) && AllSpace(blanks) && (blanks == "" || blanks[|blanks| - 1] == '\n')
    ensures AllSpace(line + "\n" + blanks) && (line + "\n" + blanks)[|line + "\n" + blanks| - 1] == '\n'
  {
  }

  lemma AwsFieldsOf(token: Option<string>, front: string, p: Prompt)
    requires AwsFields(token, front) == Some(p)
    ensures token == Some(p.userCode) && LooksLikeDeviceCode(p.userCode)
            && LastHttpsUrl(front) == Some(p.verificationUri)
  {
  }

  /** And nothing else is. */
  lemma AwsReportIsAPrompt(text: string, p: Prompt)
    returns (before: string, mid: string, tail: string, blanks: string, lead: string, punct: string, more: string,
             rest: string)
    requires DetectAws(text) == Some(p)
    ensures AwsPrompt(text, p.userCode, p.verificationUri, before, mid, tail, blanks, lead, punct, more, rest)
  {
    var k := RFind(text, AWS_MARKER).value;
    var start := k + |AWS_MARKER|;
    before := text[..k];
    AwsPartsAt(text, start, text[start..], text[..start - |AWS_MARKER|]);
    AwsFieldsOf(FirstNonblankLine(text[start..]), before, p);
    mid, tail := UrlParts(before, RFind(before, HTTPS).value, p.verificationUri);
    blanks, lead, punct, more, rest := LineParts(text[start..], p.userCode);
    RFindIsLast(text, AWS_MARKER);
    CutAt(text, AWS_MARKER, k);
    DropFront(before + AWS_MARKER, text[start..]);
  }

  // ---- Azure: the URL behind the last page marker, and the code behind the next code marker ----

  ghost predicate AzurePrompt(text: string, code: string, uri: string, start: nat, pad: string, punct: nat,
                              after: string, at: nat, pad2: string, punct2: nat, after2: string) {
    && AfterMarker(text, AZURE_URL_MARKER) == Some(start)
    && HTTPS <= uri && TokenPart(text[start..], uri, pad, punct, after)
    && Find(text[start..], AZURE_CODE_MARKER) == Some(at)
    && LooksLikeDeviceCode(code) && TokenPart(text[start..][at + |AZURE_CODE_MARKER|..], code, pad2, punct2, after2)
  }

  /** Every such prompt is detected, with exactly its code and URL. */
  lemma AzurePromptIsFound(text: string, code: string, uri: string, start: nat, pad: string, punct: nat, after: string,
                           at: nat, pad2: string, punct2: nat, after2: string)
    requires AzurePrompt(text, code, uri, start, pad, punct, after, at, pad2, punct2, after2)
    ensures DetectAzure(text) == Some(Prompt(Azure, code, uri))
  {
    TokenTaken(text[start..], uri, pad, punct, after);
    TokenTaken(text[start..][at + |AZURE_CODE_MARKER|..], code, pad2, punct2, after2);
  }

  /** And nothing else is. */
  lemma AzureReportIsAPrompt(text: string, p: Prompt)
    returns (start: nat, pad: string, punct: nat, after: string, at: nat, pad2: string, punct2: nat, after2: string)
    requires DetectAzure(text) == Some(p)
    ensures AzurePrompt(text, p.userCode, p.verificationUri, start, pad, punct, after, at, pad2, punct2, after2)
  {
    start := AfterMarker(text, AZURE_URL_MARKER).value;
    var behind := text[start..];
    at := Find(behind, AZURE_CODE_MARKER).value;
    pad, punct, after := TokenParts(behind, p.verificationUri);
    pad2, punct2, after2 := TokenParts(behind[at + |AZURE_CODE_MARKER|..], p.userCode);
  }
}
