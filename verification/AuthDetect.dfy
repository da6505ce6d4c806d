/** The incremental device-code scanner (choosh-hostd/src/auth_detect.rs). Offsets count characters
    where the source counts bytes; every offset it uses falls on a character boundary. */
module AuthDetect {
  import opened Wrappers
  import opened Text
  import opened Utf8

  datatype Provider = Github | AwsSso | Azure

  datatype Prompt = Prompt(provider: Provider, userCode: string, verificationUri: string)

  const MAX_BUFFER_CHARS: nat := 8192
  const ESC: char := '\U{1b}'
  const BEL: char := '\U{7}'

  const GITHUB_MARKER := "First copy your one-time code:"
  const AWS_MARKER := "Then enter the code:"
  const AZURE_URL_MARKER := "use a web browser to open the page "
  const AZURE_CODE_MARKER := "enter the code "
  const DEVICE_PATH := "/login/device"
  const HTTPS := "https://"

  // ---- escape sequences ----

  /** Just past the final byte of a CSI sequence, or the end of the text. */
  function CsiEnd(s: string, i: nat): (j: nat)
    requires i <= |s|
    ensures i <= j <= |s|
    decreases |s| - i
  {
    if i == |s| then i else if '\U{40}' <= s[i] <= '\U{7e}' then i + 1 else CsiEnd(s, i + 1)
  }

  /** Just past the BEL or `ESC \` of an OSC sequence, or the end of the text. */
  function OscEnd(s: string, i: nat): (j: nat)
    requires i <= |s|
    ensures i <= j <= |s|
    decreases |s| - i
  {
    if i == |s| then i
    else if s[i] == BEL then i + 1
    else if s[i] == ESC && i + 1 < |s| && s[i + 1] == '\\' then i + 2
    else OscEnd(s, i + 1)
  }

  /** Just past the escape sequence whose ESC is at `i - 1`. */
  function EscapeEnd(s: string, i: nat): (j: nat)
    requires i <= |s|
    ensures i <= j <= |s|
  {
    if i == |s| then i
    else if s[i] == '[' then CsiEnd(s, i + 1)
    else if s[i] == ']' then OscEnd(s, i + 1)
    else i + 1
  }

  function StripFrom(s: string, i: nat): string
    requires i <= |s|
    decreases |s| - i
  {
    if i == |s| then ""
    else if s[i] == ESC then StripFrom(s, EscapeEnd(s, i + 1))
    else if s[i] == '\r' then StripFrom(s, i + 1)
    else [s[i]] + StripFrom(s, i + 1)
  }

  method StripAnsiAndNormalize(s: string) returns (out: string)
    ensures out == StripFrom(s, 0)
  {
    out := "";
    var i := 0;
    while i < |s|
      invariant i <= |s|
      invariant out + StripFrom(s, i) == StripFrom(s, 0)
    {
      var c := s[i];
      ghost var at := i;
      i := i + 1;
      if c == ESC {
        if i < |s| && s[i] == '[' {
          i := i + 1;
          ghost var from := i;
          while i < |s| && !('\U{40}' <= s[i] <= '\U{7e}')
            invariant from <= i <= |s|
            invariant CsiEnd(s, i) == CsiEnd(s, from)
          {
            i := i + 1;
          }
          if i < |s| {
            i := i + 1;
          }
        } else if i < |s| && s[i] == ']' {
          i := i + 1;
          ghost var from := i;
          while i < |s| && s[i] != BEL && !(s[i] == ESC && i + 1 < |s| && s[i + 1] == '\\')
            invariant from <= i <= |s|
            invariant OscEnd(s, i) == OscEnd(s, from)
          {
            i := i + 1;
          }
          if i < |s| {
            i := if s[i] == BEL then i + 1 else i + 2;
          }
        } else if i < |s| {
          i := i + 1;
        }
        assert i == EscapeEnd(s, at + 1);
      } else if c != '\r' {
        Reassociate(out, [c], StripFrom(s, i));
        out := out + [c];
      }
    }
  }

  // ---- tokens ----

  predicate IsBlank(c: char) {
    c == ' ' || c == '\t'
  }

  predicate IsPunctuation(c: char) {
    c == '.' || c == ',' || c == ':' || c == ';' || c == '!' || c == '?'
  }

  function TrimBlanks(s: string): string {
    if s != "" && IsBlank(s[0]) then TrimBlanks(s[1..]) else s
  }

  function TrimPunctuation(s: string): string {
    if s != "" && IsPunctuation(s[|s| - 1]) then TrimPunctuation(s[..|s| - 1]) else s
  }

  function FirstSpace(s: string): (r: Option<nat>)
    ensures r.Some? ==> r.value < |s|
  {
    if s == "" then None
    else if IsWhitespace(s[0]) then Some(0)
    else match FirstSpace(s[1..]) case None => None case Some(k) => Some(k + 1)
  }

  function NonEmpty(s: string): Option<string> {
    if s == "" then None else Some(s)
  }

  /** The token at the head of `rest`, once whitespace confirms its end. */
  function LeadingToken(rest: string): Option<string> {
    match FirstSpace(rest)
    case None => None
    case Some(end) => NonEmpty(TrimPunctuation(rest[..end]))
  }

  function TakeToken(text: string, start: nat): Option<string>
    requires start <= |text|
  {
    LeadingToken(TrimBlanks(text[start..]))
  }

  function LineToken(line: string): Option<string> {
    var end := match FirstSpace(line) case None => |line| case Some(k) => k;
    NonEmpty(TrimPunctuation(line[..end]))
  }

  function FirstNonblankLine(remaining: string): Option<string>
    decreases |remaining|
  {
    match Find(remaining, "\n")
    case None => None
    case Some(k) =>
      var line := Trim(remaining[..k]);
      if line == "" then FirstNonblankLine(remaining[k + 1..]) else LineToken(line)
  }

  method FirstNonblankLineToken(text: string, from: nat) returns (r: Option<string>)
    requires from <= |text|
    ensures r == FirstNonblankLine(text[from..])
  {
    var pos := from;
    while true
      invariant from <= pos <= |text|
      invariant FirstNonblankLine(text[pos..]) == FirstNonblankLine(text[from..])
      decreases |text| - pos
    {
      var remaining := text[pos..];
      var newline := Find(remaining, "\n");
      if newline.None? {
        return None;
      }
      var line := Trim(remaining[..newline.value]);
      if line != "" {
        return LineToken(line);
      }
      assert remaining[newline.value + 1..] == text[pos + newline.value + 1..];
      pos := pos + newline.value + 1;
    }
  }

  predicate IsAlphanumeric(c: char) {
    '0' <= c <= '9' || 'a' <= c <= 'z' || 'A' <= c <= 'Z'
  }

  predicate LooksLikeDeviceCode(token: string) {
    && 4 <= |token| <= 24
    && (forall i :: 0 <= i < |token| ==> IsAlphanumeric(token[i]) || token[i] == '-')
    && (exists i :: 0 <= i < |token| && IsAlphanumeric(token[i]))
  }

  function HttpsUrlAt(text: string, start: nat): Option<string>
    requires start <= |text|
  {
    match FirstSpace(text[start..])
    case None => None
    case Some(end) =>
      var url := text[start..start + end];
      if |Encode(url)| > 512 then None else Some(url)
  }

  function FirstHttpsUrl(text: string): Option<string> {
    match Find(text, HTTPS)
    case None => None
    case Some(start) => HttpsUrlAt(text, start)
  }

  function LastHttpsUrl(text: string): Option<string> {
    match RFind(text, HTTPS)
    case None => None
    case Some(start) => HttpsUrlAt(text, start)
  }

  // ---- the three detectors ----

  function AfterMarker(text: string, marker: string): (r: Option<nat>)
    ensures r.Some? ==> |marker| <= r.value <= |text|
  {
    match RFind(text, marker)
    case None => None
    case Some(k) => Some(k + |marker|)
  }

  function OnlyDeviceLogin(uri: Option<string>): Option<string> {
    if uri.Some? && Find(uri.value, DEVICE_PATH).Some? then uri else None
  }

  /** The first URL behind the code, if it is a device-login page. */
  function GithubUri(behind: string, code: string): Option<string> {
    match Find(behind, code)
    case None => None
    case Some(k) => OnlyDeviceLogin(FirstHttpsUrl(behind[k + |code|..]))
  }

  function GithubFields(token: Option<string>, behind: string): Option<Prompt> {
    match token
    case None => None
    case Some(code) =>
      if !LooksLikeDeviceCode(code) then None
      else
        match GithubUri(behind, code)
        case None => None
        case Some(uri) => Some(Prompt(Github, code, uri))
  }

  function DetectGithub(text: string): Option<Prompt> {
    match AfterMarker(text, GITHUB_MARKER)
    case None => None
    case Some(start) => GithubFields(TakeToken(text, start), text[start..])
  }

  function AwsFields(token: Option<string>, front: string): Option<Prompt> {
    match token
    case None => None
    case Some(code) =>
      if !LooksLikeDeviceCode(code) then None
      else
        match LastHttpsUrl(front)
        case None => None
        case Some(uri) => Some(Prompt(AwsSso, code, uri))
  }

  function DetectAws(text: string): Option<Prompt> {
    match AfterMarker(text, AWS_MARKER)
    case None => None
    case Some(start) => AwsFields(FirstNonblankLine(text[start..]), text[..start - |AWS_MARKER|])
  }

  function AzureCode(behind: string): Option<string> {
    match Find(behind, AZURE_CODE_MARKER)
    case None => None
    case Some(k) => TakeToken(behind, k + |AZURE_CODE_MARKER|)
  }

  function AzureFields(token: Option<string>, behind: string): Option<Prompt> {
    match token
    case None => None
    case Some(uri) =>
      if !(HTTPS <= uri) then None
      else
        match AzureCode(behind)
        case None => None
        case Some(code) => if LooksLikeDeviceCode(code) then Some(Prompt(Azure, code, uri)) else None
  }

  function DetectAzure(text: string): Option<Prompt> {
    match AfterMarker(text, AZURE_URL_MARKER)
    case None => None
    case Some(start) => AzureFields(TakeToken(text, start), text[start..])
  }

  function Detect(text: string): Option<Prompt> {
    if DetectGithub(text).Some? then DetectGithub(text)
    else if DetectAws(text).Some? then DetectAws(text)
    else DetectAzure(text)
  }

  // ---- feeding ----

  function Last(s: string, n: nat): (r: string)
    ensures |r| <= n && |r| <= |s| && r == s[|s| - |r|..]
  {
    if |s| > n then s[|s| - n..] else s
  }

  datatype Scanner = Scanner(buffer: string, alreadyFired: Option<(Provider, string)>)

  function Key(p: Prompt): (Provider, string) {
    (p.provider, p.userCode)
  }

  function Absorbed(buffer: string, bytes: seq<byte>): string {
    Last(buffer + StripFrom(Lossy(bytes), 0), MAX_BUFFER_CHARS)
  }

  /** Reports what was found, unless it is what was reported last. */
  function Reported(s: Scanner, found: Option<Prompt>): (Scanner, Option<Prompt>) {
    match found
    case None => (s, None)
    case Some(p) => if s.alreadyFired == Some(Key(p)) then (s, None) else (s.(alreadyFired := Some(Key(p))), found)
  }

  function Fed(s: Scanner, bytes: seq<byte>): (Scanner, Option<Prompt>) {
    var buffer := Absorbed(s.buffer, bytes);
    Reported(Scanner(buffer, s.alreadyFired), Detect(buffer))
  }

  class AuthCodeDetector {
    var buffer: string
    var alreadyFired: Option<(Provider, string)>

    constructor ()
      ensures buffer == "" && alreadyFired == None
    {
      buffer := "";
      alreadyFired := None;
    }

    method Feed(bytes: seq<byte>) returns (r: Option<Prompt>)
      modifies this
      ensures (Scanner(buffer, alreadyFired), r) == Fed(old(Scanner(buffer, alreadyFired)), bytes)
    {
      var decoded := Lossy(bytes);
      var cleaned := StripAnsiAndNormalize(decoded);
      buffer := buffer + cleaned;
      if |buffer| > MAX_BUFFER_CHARS {
        var overflow := |buffer| - MAX_BUFFER_CHARS;
        buffer := buffer[overflow..];
      }
      assert buffer == Absorbed(old(buffer), bytes);
      var found := Detect(buffer);
      if found.None? {
        return None;
      }
      if alreadyFired == Some(Key(found.value)) {
        return None;
      }
      alreadyFired := Some(Key(found.value));
      return found;
    }
  }
}
