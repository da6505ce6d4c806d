/** Asset URLs of the markdown gateway (choosh-android-bridge/src/markdown_gateway.rs). */
module AssetUrl {
  import opened Wrappers
  import opened Text
  import opened Utf8

  const PERCENT: byte := 0x25

  /** The bytes `percent_encode` leaves alone: RFC 3986 unreserved, and `/`. */
  predicate IsSafe(b: byte) {
    || 0x41 <= b <= 0x5A || 0x61 <= b <= 0x7A || 0x30 <= b <= 0x39
    || b == 0x2D || b == 0x5F || b == 0x2E || b == 0x7E || b == 0x2F
  }

  function HexDigit(d: nat): (c: char)
    requires d < 16
    ensures '0' <= c <= '9' || 'A' <= c <= 'F'
  {
    if d < 10 then (0x30 + d) as char else (0x41 + (d - 10)) as char
  }

  function EncodeByte(b: byte): string {
    if IsSafe(b) then [b as int as char] else ['%', HexDigit(b / 16), HexDigit(b % 16)]
  }

  function EncodeBytes(bytes: seq<byte>): string {
    if bytes == [] then "" else EncodeByte(bytes[0]) + EncodeBytes(bytes[1..])
  }

  method PercentEncode(value: string) returns (out: string)
    ensures out == EncodeBytes(Encode(value))
  {
    var bytes := Encode(value);
    out := "";
    var i := 0;
    assert bytes[0..] == bytes;
    while i < |bytes|
      invariant i <= |bytes|
      invariant out + EncodeBytes(bytes[i..]) == EncodeBytes(bytes)
    {
      assert bytes[i..][1..] == bytes[i + 1..];
      Reassociate(out, EncodeByte(bytes[i]), EncodeBytes(bytes[i + 1..]));
      if IsSafe(bytes[i]) {
        out := out + [bytes[i] as int as char];
      } else {
        out := out + ['%', HexDigit(bytes[i] / 16), HexDigit(bytes[i] % 16)];
      }
      i := i + 1;
    }
  }

  function HexValue(b: byte): Option<nat> {
    if 0x30 <= b <= 0x39 then Some(b - 0x30)
    else if 0x41 <= b <= 0x46 then Some(b - 0x41 + 10)
    else if 0x61 <= b <= 0x66 then Some(b - 0x61 + 10)
    else None
  }

  /** `u8::from_str_radix` on two characters; like every Rust integer parse it accepts a leading `+`. */
  function HexPair(a: byte, b: byte): (r: Option<byte>) {
    if HexValue(b).None? then None
    else if a == 0x2B then Some(HexValue(b).value)
    else if HexValue(a).None? then None
    else Some(16 * HexValue(a).value + HexValue(b).value)
  }

  function DecodeBytes(bytes: seq<byte>): seq<byte> {
    if bytes == [] then []
    else if bytes[0] == PERCENT && 2 < |bytes| && HexPair(bytes[1], bytes[2]).Some? then
      [HexPair(bytes[1], bytes[2]).value] + DecodeBytes(bytes[3..])
    else [bytes[0]] + DecodeBytes(bytes[1..])
  }

  method PercentDecode(value: string) returns (decoded: string)
    ensures decoded == Lossy(DecodeBytes(Encode(value)))
  {
    var bytes := Encode(value);
    var out: seq<byte> := [];
    var i := 0;
    assert bytes[0..] == bytes;
    while i < |bytes|
      invariant i <= |bytes|
      invariant out + DecodeBytes(bytes[i..]) == DecodeBytes(bytes)
    {
      ghost var rest := bytes[i..];
      assert rest[1..] == bytes[i + 1..];
      if bytes[i] == PERCENT && i + 2 < |bytes| && HexPair(bytes[i + 1], bytes[i + 2]).Some? {
        var b := HexPair(bytes[i + 1], bytes[i + 2]).value;
        assert rest[3..] == bytes[i + 3..];
        Reassociate(out, [b], DecodeBytes(bytes[i + 3..]));
        out := out + [b];
        i := i + 3;
      } else {
        Reassociate(out, [bytes[i]], DecodeBytes(bytes[i + 1..]));
        out := out + [bytes[i]];
        i := i + 1;
      }
    }
    assert out + [] == out;
    decoded := Lossy(out);
  }

  function Decoded(value: string): string {
    Lossy(DecodeBytes(Encode(value)))
  }

  function SplitTarget(target: string): (string, string) {
    match SplitOnce(target, "?")
    case Some(parts) => parts
    case None => (target, "")
  }

  function ParseQueryPairs(pairs: seq<string>): map<string, string> {
    if pairs == [] then map[]
    else
      var before := ParseQueryPairs(pairs[..|pairs| - 1]);
      match SplitOnce(pairs[|pairs| - 1], "=")
      case None => before
      case Some((key, value)) => before[Decoded(key) := Decoded(value)]
  }

  function ParseQuery(query: string): map<string, string> {
    ParseQueryPairs(Split(query, "&"))
  }

  const ASSET_ROUTE := "/asset"

  function ResolvedPath(docDir: string, reference: string): string {
    if docDir == "" then reference else docDir + "/" + reference
  }

  function UrlOf(path: string): string {
    ASSET_ROUTE + "?path=" + EncodeBytes(Encode(path))
  }

  /** The URL leads to the asset route, with the reference taken from the document's directory as its path. */
  method Resolve(docDir: string, reference: string) returns (url: string)
    ensures url == UrlOf(ResolvedPath(docDir, reference))
    ensures var (route, query) := SplitTarget(url);
            && route == "/asset"
            && ParseQuery(query) == map["path" := if docDir == "" then reference else docDir + "/" + reference]
  {
    AssetUrlRoundTrip(ResolvedPath(docDir, reference));
    var resolvedPath := if docDir == "" then reference else docDir + "/" + reference;
    var encoded := PercentEncode(resolvedPath);
    url := ASSET_ROUTE + "?path=" + encoded;
  }

  // ---- percent decoding inverts percent encoding ----

  function Codes(s: string): seq<byte>
    requires Ascii(s)
  {
    if s == "" then [] else [s[0] as int] + Codes(s[1..])
  }

  lemma {:induction false} CodesAreEncoding(s: string)
    requires Ascii(s)
    ensures Encode(s) == Codes(s)
  {
    if s != "" {
      CodesAreEncoding(s[1..]);
    }
  }

  lemma HexPairBack(b: byte)
    ensures HexPair(HexDigit(b / 16) as int, HexDigit(b % 16) as int) == Some(b)
  {
    var hi, lo := b / 16, b % 16;
    assert HexValue(HexDigit(hi) as int) == Some(hi) && HexValue(HexDigit(lo) as int) == Some(lo);
    assert HexDigit(hi) as int != 0x2B;
  }

  predicate UrlChar(c: char) {
    c == '%' || (c as int < 0x80 && IsSafe(c as int))
  }

  /** The encoded form uses only unreserved characters, `/` and `%`; so none of `?`, `&`, `=`, `#` or space. */
  lemma {:induction false} EncodedAlphabet(bytes: seq<byte>)
    ensures forall i :: 0 <= i < |EncodeBytes(bytes)| ==> UrlChar(EncodeBytes(bytes)[i])
    ensures Ascii(EncodeBytes(bytes))
  {
    if bytes != [] {
      EncodedAlphabet(bytes[1..]);
    }
  }

  lemma {:induction false} DecodeEncodedBytes(bytes: seq<byte>)
    ensures Ascii(EncodeBytes(bytes)) && DecodeBytes(Codes(EncodeBytes(bytes))) == bytes
  {
    EncodedAlphabet(bytes);
    if bytes != [] {
      DecodeEncodedBytes(bytes[1..]);
      var rest := EncodeBytes(bytes[1..]);
      if IsSafe(bytes[0]) {
        DecodeSafe(bytes[0], rest);
      } else {
        DecodeEscape(bytes[0], rest);
      }
      assert bytes == [bytes[0]] + bytes[1..];
    }
  }

  lemma DecodeSafe(b: byte, rest: string)
    requires IsSafe(b) && Ascii(rest)
    ensures Ascii(EncodeByte(b) + rest) && DecodeBytes(Codes(EncodeByte(b) + rest)) == [b] + DecodeBytes(Codes(rest))
  {
    assert (EncodeByte(b) + rest)[1..] == rest;
  }

  lemma DecodeEscape(b: byte, rest: string)
    requires !IsSafe(b) && Ascii(rest)
    ensures Ascii(EncodeByte(b) + rest) && DecodeBytes(Codes(EncodeByte(b) + rest)) == [b] + DecodeBytes(Codes(rest))
  {
    var s := EncodeByte(b) + rest;
    var x, y := HexDigit(b / 16), HexDigit(b % 16);
    HexPairBack(b);
    CodesCons(y, rest);
    CodesCons(x, [y] + rest);
    CodesCons('%', [x] + ([y] + rest));
    assert s == ['%'] + ([x] + ([y] + rest));
    var codes := [PERCENT] + ([x as int] + ([y as int] + Codes(rest)));
    assert codes[1] == x as int && codes[2] == y as int && codes[3..] == Codes(rest);
  }

  lemma CodesCons(c: char, rest: string)
    requires Ascii(rest) && c as int < 0x80
    ensures Ascii([c] + rest) && Codes([c] + rest) == [c as int] + Codes(rest)
  {
    assert ([c] + rest)[1..] == rest;
  }

  /** For every path, percent-decoding its percent-encoding gives it back. */
  lemma PercentRoundTrip(path: string)
    ensures Decoded(EncodeBytes(Encode(path))) == path
  {
    var encoded := EncodeBytes(Encode(path));
    DecodeEncodedBytes(Encode(path));
    CodesAreEncoding(encoded);
    DecodeEncode(path);
  }

  lemma {:induction false} DecodePlain(bytes: seq<byte>)
    requires PERCENT !in bytes
    ensures DecodeBytes(bytes) == bytes
  {
    if bytes != [] {
      DecodePlain(bytes[1..]);
      assert bytes == [bytes[0]] + bytes[1..];
    }
  }

  lemma PathKey()
    ensures Decoded("path") == "path"
  {
    EncodeAscii("path");
    DecodePlain(Encode("path"));
    DecodeEncode("path");
  }

  lemma NotInEncoded(path: string, c: char)
    requires !UrlChar(c)
    ensures c !in EncodeBytes(Encode(path))
  {
    EncodedAlphabet(Encode(path));
  }

  /** Splitting and query-parsing the URL that `resolve` built returns the route and the path. */
  lemma AssetUrlRoundTrip(path: string)
    ensures var (route, query) := SplitTarget(UrlOf(path));
            route == ASSET_ROUTE && ParseQuery(query) == map["path" := path]
  {
    var encoded := EncodeBytes(Encode(path));
    var query := "path=" + encoded;
    CleanOfChar(ASSET_ROUTE, '?');
    assert UrlOf(path) == ASSET_ROUTE + "?" + query;
    SplitOnceClean(ASSET_ROUTE, "?", query);
    NotInEncoded(path, '&');
    FindChar(query, '&');
    CleanOfChar("path", '=');
    assert query == "path" + "=" + encoded;
    SplitOnceClean("path", "=", encoded);
    PathKey();
    PercentRoundTrip(path);
    OnePair(query);
  }

  lemma OnePair(query: string)
    requires Find(query, "&").None? && SplitOnce(query, "=").Some?
    ensures var (key, value) := SplitOnce(query, "=").value; ParseQuery(query) == map[Decoded(key) := Decoded(value)]
  {
    var pairs := [query];
    assert Split(query, "&") == pairs;
    assert pairs[..|pairs| - 1] == [] && ParseQueryPairs([]) == map[];
  }
}

/** The asset route: range requests, their answers, and a client that follows them. */
module AssetRange {
  import opened Wrappers
  import opened Text
  import opened Utf8
  import opened HostFiles
  import opened AssetUrl

  const MAX_ASSET_CHUNK_BYTES: nat := MAX_FILE_READ_RANGE_BYTES

  datatype Response = Response(status: nat, contentRange: Option<string>, body: seq<byte>)

  /** `bytes=<start>-<end>` as offset and length. The length is computed in `u64` and wraps. */
  function ParseRangeHeader(value: string): Option<(nat, nat)> {
    match StripPrefix(value, "bytes=")
    case None => None
    case Some(spec) =>
      match SplitOnce(spec, "-")
      case None => None
      case Some((first, last)) => RangeOf(ParseU64(first), ParseU64(last))
  }

  function RangeOf(start: Option<nat>, end: Option<nat>): Option<(nat, nat)> {
    if start.None? || end.None? || end.value < start.value then None
    else Some((start.value, (end.value - start.value + 1) % U64))
  }

  /** RFC 9110 section 14.4. */
  function ContentRange(first: nat, last: nat, total: nat): string {
    "bytes " + Decimal(first) + "-" + Decimal(last) + "/" + Decimal(total)
  }

  predicate IsSafeRelativeAsset(reference: string) {
    && reference != ""
    && reference[0] != '/'
    && '\\' !in reference && '\0' !in reference
    && Find(reference, "://").None?
    && forall c :: c in Split(reference, "/") ==> c != "" && c != "." && c != ".."
  }

  /** What the gateway asks of the host for one request. */
  function Asked(range: Option<string>): (nat, nat) {
    var requested := match range case None => None case Some(value) => ParseRangeHeader(value);
    var (offset, length) := match requested case None => (0, MAX_ASSET_CHUNK_BYTES) case Some(r) => r;
    (offset, Min(length, MAX_ASSET_CHUNK_BYTES))
  }

  function RangeAsked(range: Option<string>): bool {
    range.Some? && ParseRangeHeader(range.value).Some?
  }

  /** The last byte an answer claims to carry, never before the first. */
  function LastOf(offset: nat, body: seq<byte>): nat {
    if |body| > 0 then offset + |body| - 1 else offset
  }

  function Answer(file: FileRange, offset: nat, asked: bool): Response {
    if asked || offset + |file.bytes| < file.totalSize then
      Response(206, Some(ContentRange(offset, LastOf(offset, file.bytes), file.totalSize)), file.bytes)
    else Response(200, None, file.bytes)
  }

  function ServeAsset(files: Files, query: string, range: Option<string>, h: Hash): Response {
    var params := ParseQuery(query);
    if "path" !in params then Response(400, None, [])
    else if !IsSafeRelativeAsset(params["path"]) then Response(403, None, [])
    else
      match ReadRange(files, params["path"], Some(Asked(range)), MAX_FILE_READ_RANGE_BYTES, h)
      case Err(NotFound) => Response(404, None, [])
      case Err(_) => Response(502, None, [])
      case Ok(file) => Answer(file, Asked(range).0, RangeAsked(range))
  }

  // ---- the text forms round trip ----

  function RangeHeader(first: nat, last: nat): string {
    "bytes=" + Decimal(first) + "-" + Decimal(last)
  }

  /** A reader of `Content-Range`: first, last and total. */
  function ParseContentRange(value: string): Option<(nat, nat, nat)> {
    match StripPrefix(value, "bytes ")
    case None => None
    case Some(spec) =>
      match SplitOnce(spec, "-")
      case None => None
      case Some((first, later)) =>
        match SplitOnce(later, "/")
        case None => None
        case Some((last, total)) => Three(ParseU64(first), ParseU64(last), ParseU64(total))
  }

  function Three(a: Option<nat>, b: Option<nat>, c: Option<nat>): Option<(nat, nat, nat)> {
    if a.Some? && b.Some? && c.Some? then Some((a.value, b.value, c.value)) else None
  }

  lemma DecimalClean(n: nat, c: char)
    requires !IsDigit(c)
    ensures Clean(Decimal(n), [c])
  {
    CleanOfChar(Decimal(n), c);
  }

  /** A closed range (section 14.1.2 of RFC 9110) is understood as written, except that the one range
      whose length does not fit 64 bits is read as a range of length 0. */
  lemma RangeHeaderBack(first: nat, last: nat)
    requires first <= last < U64
    ensures ParseRangeHeader(RangeHeader(first, last))
              == Some((first, if first == 0 && last == U64 - 1 then 0 else last - first + 1))
  {
    var spec := Decimal(first) + "-" + Decimal(last);
    assert RangeHeader(first, last) == "bytes=" + spec;
    DropFront("bytes=", spec);
    DecimalClean(first, '-');
    SplitOnceClean(Decimal(first), "-", Decimal(last));
    ParseDecimal(first);
    ParseDecimal(last);
    WrappedLength(first, last);
  }

  lemma WrappedLength(first: nat, last: nat)
    requires first <= last < U64
    ensures (last - first + 1) % U64 == if first == 0 && last == U64 - 1 then 0 else last - first + 1
  {
  }

  lemma ContentRangeBack(first: nat, last: nat, total: nat)
    requires first < U64 && last < U64 && total < U64
    ensures ParseContentRange(ContentRange(first, last, total)) == Some((first, last, total))
  {
    var later := Decimal(last) + "/" + Decimal(total);
    var spec := Decimal(first) + "-" + later;
    assert ContentRange(first, last, total) == "bytes " + spec;
    DropFront("bytes ", spec);
    DecimalClean(first, '-');
    SplitOnceClean(Decimal(first), "-", later);
    DecimalClean(last, '/');
    SplitOnceClean(Decimal(last), "/", Decimal(total));
    ParseDecimal(first);
    ParseDecimal(last);
    ParseDecimal(total);
  }

  // ---- what one answer says ----

  /** No request reaches the host with more than the bound of `read_file_range`. */
  lemma NeverOutOfBound(files: Files, path: Path, range: Option<string>, h: Hash)
    ensures Asked(range).1 <= MAX_FILE_READ_RANGE_BYTES
    ensures ReadRange(files, path, Some(Asked(range)), MAX_FILE_READ_RANGE_BYTES, h) != Err(BoundExceeded)
  {
  }

  ghost predicate Served(files: Files, query: string, path: Path, content: seq<byte>) {
    && "path" in ParseQuery(query) && ParseQuery(query)["path"] == path
    && IsSafeRelativeAsset(path)
    && path in files && files[path] == File(content)
  }

  /** The host's answer to what a request asks for. */
  function Slice(content: seq<byte>, offset: nat, length: nat): seq<byte> {
    if offset < |content| then content[offset..offset + Min(length, |content| - offset)] else []
  }

  lemma RangeRead(files: Files, path: Path, content: seq<byte>, offset: nat, length: nat, h: Hash)
    requires path in files && files[path] == File(content) && length <= MAX_FILE_READ_RANGE_BYTES
    ensures ReadRange(files, path, Some((offset, length)), MAX_FILE_READ_RANGE_BYTES, h)
         == if offset < SEEK_LIMIT then Ok(FileRange(Slice(content, offset, length), |content|, h(content)))
            else Err(Io)
  {
    assert offset <= |content| ==> content[offset..offset] == [];
  }

  lemma ServedAnswer(files: Files, query: string, range: Option<string>, h: Hash, path: Path, content: seq<byte>)
    requires Served(files, query, path, content)
    ensures var (offset, length) := Asked(range);
            var read := FileRange(Slice(content, offset, length), |content|, h(content));
            ServeAsset(files, query, range, h)
              == if offset < SEEK_LIMIT then Answer(read, offset, RangeAsked(range)) else Response(502, None, [])
  {
    NeverOutOfBound(files, path, range, h);
    RangeRead(files, path, content, Asked(range).0, Asked(range).1, h);
  }

  /** First, last and total name exactly the bytes of `body`. */
  predicate Names(r: (nat, nat, nat), body: seq<byte>, content: seq<byte>) {
    var (first, last, total) := r;
    total == |content| && first <= last < total && body == content[first..last + 1]
  }

  lemma NamesSlice(content: seq<byte>, offset: nat, length: nat)
    ensures var body := Slice(content, offset, length);
            Names((offset, LastOf(offset, body), |content|), body, content) <==> offset < |content| && length > 0
  {
  }

  /** The answer to a ranged request: an error from the seek limit on, and before it a partial answer
      whose Content-Range names the bytes sent exactly when the range starts inside the file and its
      length is not 0. */
  lemma ContentRangeNamesTheBody(files: Files, query: string, range: Option<string>, h: Hash, path: Path,
                                 content: seq<byte>)
    requires Served(files, query, path, content) && |content| < U64 && RangeAsked(range)
    ensures var r := ServeAsset(files, query, range, h);
            if Asked(range).0 >= SEEK_LIMIT then r == Response(502, None, [])
            else
              && r.status == 206 && r.contentRange.Some?
              && var named := ParseContentRange(r.contentRange.value);
                 && named.Some?
                 && (Names(named.value, r.body, content) <==> Asked(range).0 < |content| && Asked(range).1 > 0)
  {
    var (offset, length) := Asked(range);
    var body := Slice(content, offset, length);
    ServedAnswer(files, query, range, h, path, content);
    NamesSlice(content, offset, length);
    if offset < SEEK_LIMIT {
      ContentRangeBack(offset, LastOf(offset, body), |content|);
      RangedAnswer(FileRange(body, |content|, h(content)), offset);
    }
  }

  /** One byte past a one-byte file: the answer names byte 1, and sends nothing. */
  lemma PastTheEndNamesAByte(files: Files, query: string, h: Hash, path: Path, b: byte)
    requires Served(files, query, path, [b])
    ensures ServeAsset(files, query, Some(RangeHeader(1, 1)), h) == Response(206, Some(ContentRange(1, 1, 1)), [])
  {
    RangeHeaderBack(1, 1);
    ServedAnswer(files, query, Some(RangeHeader(1, 1)), h, path, [b]);
    RangedAnswer(FileRange([], 1, h([b])), 1);
  }

  lemma RangedAnswer(file: FileRange, offset: nat)
    ensures Answer(file, offset, true)
              == Response(206, Some(ContentRange(offset, LastOf(offset, file.bytes), file.totalSize)), file.bytes)
  {
  }

  // ---- a client that follows the answers ----

  /** Body, last and total of the answer to a request for a first and a last byte. */
  type Ask = (nat, nat) -> Option<(seq<byte>, nat, nat)>

  function Reply(r: Response): Option<(seq<byte>, nat, nat)> {
    if r.status != 206 || r.contentRange.None? then None
    else
      match ParseContentRange(r.contentRange.value)
      case None => None
      case Some((_, last, total)) => Some((r.body, last, total))
  }

  function AskGateway(files: Files, query: string, h: Hash): Ask {
    (first, last) => Reply(ServeAsset(files, query, Some(RangeHeader(first, last)), h))
  }

  /** Asks for a closed range from `next` on, `spans[0]` bytes beyond it, appends the body, and goes on
      one past the end that the answer names, until that end is the last byte. */
  function Collect(ask: Ask, next: nat, got: seq<byte>, spans: seq<nat>): Option<seq<byte>>
    decreases |spans|
  {
    if spans == [] then None
    else
      match ask(next, next + spans[0])
      case None => None
      case Some((body, last, total)) =>
        if last + 1 == total then Some(got + body) else Collect(ask, last + 1, got + body, spans[1..])
  }

  /** The ranges whose length fits 64 bits. */
  predicate Fits(first: nat, last: nat) {
    first <= last < U64 && !(first == 0 && last == U64 - 1)
  }

  function Piece(content: seq<byte>, first: nat, last: nat): seq<byte>
    requires first <= last
  {
    Slice(content, first, Min(last - first + 1, 128 * 1024))
  }

  ghost predicate Answers(ask: Ask, content: seq<byte>) {
    forall first: nat, last: nat :: first < |content| && Fits(first, last) ==>
      ask(first, last) == Some((Piece(content, first, last), LastOf(first, Piece(content, first, last)), |content|))
  }

  lemma ReplyOfAnswer(first: nat, piece: seq<byte>, total: nat, revision: Revision)
    requires first + |piece| < U64 && total < U64
    ensures Reply(Answer(FileRange(piece, total, revision), first, true)) == Some((piece, LastOf(first, piece), total))
  {
    var last := LastOf(first, piece);
    ContentRangeBack(first, last, total);
    ReplyOfRange(ContentRange(first, last, total), first, last, total, piece);
  }

  lemma ReplyOfRange(contentRange: string, first: nat, last: nat, total: nat, body: seq<byte>)
    requires ParseContentRange(contentRange) == Some((first, last, total))
    ensures Reply(Response(206, Some(contentRange), body)) == Some((body, last, total))
  {
  }

  lemma GatewayAnswers(files: Files, query: string, h: Hash, path: Path, content: seq<byte>)
    requires Served(files, query, path, content) && |content| <= SEEK_LIMIT
    ensures Answers(AskGateway(files, query, h), content)
  {
    forall first: nat, last: nat | first < |content| && Fits(first, last)
      ensures AskGateway(files, query, h)(first, last)
           == Some((Piece(content, first, last), LastOf(first, Piece(content, first, last)), |content|))
    {
      OneAnswer(files, query, h, path, content, first, last);
    }
  }

  lemma OneAnswer(files: Files, query: string, h: Hash, path: Path, content: seq<byte>, first: nat, last: nat)
    requires Served(files, query, path, content) && |content| <= SEEK_LIMIT && first < |content| && Fits(first, last)
    ensures AskGateway(files, query, h)(first, last)
         == Some((Piece(content, first, last), LastOf(first, Piece(content, first, last)), |content|))
  {
    RangeHeaderBack(first, last);
    ServedAnswer(files, query, Some(RangeHeader(first, last)), h, path, content);
    ReplyOfAnswer(first, Piece(content, first, last), |content|, h(content));
  }

  lemma NextPiece(content: seq<byte>, next: nat, last: nat)
    requires next < |content| && next <= last
    ensures Piece(content, next, last) != []
    ensures content[..next] + Piece(content, next, last) == content[..next + |Piece(content, next, last)|]
  {
  }

  /** For an unchanging, non-empty file up to the seek limit the client collects exactly the file's
      bytes and finishes, whatever ranges it asks for. */
  lemma {:induction false} Reassembly(ask: Ask, content: seq<byte>, next: nat, spans: seq<nat>)
    requires Answers(ask, content) && next < |content| && |content| - next <= |spans|
    requires forall s :: s in spans ==> |content| + s < U64
    ensures Collect(ask, next, content[..next], spans) == Some(content)
    decreases |spans|
  {
    var last := next + spans[0];
    assert spans[0] in spans && Fits(next, last);
    var piece := Piece(content, next, last);
    NextPiece(content, next, last);
    assert |piece| >= 1 && forall s :: s in spans[1..] ==> s in spans;
    if next + |piece| < |content| {
      Reassembly(ask, content, next + |piece|, spans[1..]);
    } else {
      assert content[..next + |piece|] == content;
    }
  }

  /** A request that asks for no range, because it has no Range header or one that cannot be read, gets
      all of a file that fits one answer, else its first part. */
  lemma FirstAnswer(files: Files, query: string, range: Option<string>, h: Hash, path: Path, content: seq<byte>)
    requires Served(files, query, path, content) && !RangeAsked(range)
    ensures ServeAsset(files, query, range, h) ==
              if |content| <= MAX_ASSET_CHUNK_BYTES then Response(200, None, content)
              else Response(206, Some(ContentRange(0, MAX_ASSET_CHUNK_BYTES - 1, |content|)),
                            content[..MAX_ASSET_CHUNK_BYTES])
  {
    ServedAnswer(files, query, range, h, path, content);
    assert content[0..|content|] == content;
  }

  /** The embedded image end to end: the URL that `resolve` built, split and queried by the gateway,
      serves the file at that path. */
  lemma ResolvedUrlServes(files: Files, docDir: string, reference: string, h: Hash, content: seq<byte>, spans: seq<nat>)
    requires var path := if docDir == "" then reference else docDir + "/" + reference;
             IsSafeRelativeAsset(path) && path in files && files[path] == File(content)
    requires 0 < |content| <= |spans| && forall s :: s in spans ==> |content| + s < U64
    requires |content| <= SEEK_LIMIT
    ensures var (route, query) := SplitTarget(UrlOf(ResolvedPath(docDir, reference)));
            route == ASSET_ROUTE && Collect(AskGateway(files, query, h), 0, [], spans) == Some(content)
  {
    var path := ResolvedPath(docDir, reference);
    AssetUrlRoundTrip(path);
    var query := SplitTarget(UrlOf(path)).1;
    GatewayAnswers(files, query, h, path, content);
    Reassembly(AskGateway(files, query, h), content, 0, spans);
    assert content[..0] == [];
  }
}
