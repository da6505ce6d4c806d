/** What the asset route lets through and how it answers, spelled out: which paths are refused, which
    status each request gets, how its query and its range are read. */
module AssetLaws {
  import opened Wrappers
  import opened Text
  import opened Numbers
  import opened Utf8
  import opened HostFiles
  import opened AssetUrl
  import opened AssetRange

  // ---- which paths are refused ----

  /** `part` stands in the path from `i` on, between slashes or the ends of the path. */
  predicate ComponentAt(path: string, part: string, i: nat) {
    && OccursAt(path, part, i) && '/' !in part
    && (i == 0 || path[i - 1] == '/')
    && (i + |part| == |path| || path[i + |part|] == '/')
  }

  ghost predicate HasComponent(path: string, part: string) {
    exists i: nat :: ComponentAt(path, part, i)
  }

  /** Splitting at slashes gives the components. */
  lemma {:induction false} ComponentsAreSplit(path: string, part: string)
    ensures part in Split(path, "/") <==> HasComponent(path, part)
    decreases |path|
  {
    FindChar(path, '/');
    if '/' !in path {
      WholeComponent(path, part);
    } else {
      var k := Find(path, "/").value;
      var rest := path[k + 1..];
      ComponentsAreSplit(rest, part);
      FirstOrLater(path, part, k);
      assert Split(path, "/") == [path[..k]] + Split(rest, "/");
    }
  }

  lemma WholeComponent(path: string, part: string)
    requires '/' !in path
    ensures HasComponent(path, part) <==> part == path
  {
    if part == path {
      assert path[0..|path|] == path;
      assert ComponentAt(path, part, 0);
    }
    if HasComponent(path, part) {
      var i: nat :| ComponentAt(path, part, i);
      assert i == 0 && path[0..|path|] == path;
    }
  }

  lemma FirstOrLater(path: string, part: string, k: nat)
    requires k < |path| && path[k] == '/' && '/' !in path[..k]
    ensures HasComponent(path, part) <==> part == path[..k] || HasComponent(path[k + 1..], part)
  {
    var rest := path[k + 1..];
    if part == path[..k] {
      assert ComponentAt(path, part, 0);
    }
    if HasComponent(rest, part) {
      var i: nat :| ComponentAt(rest, part, i);
      Deeper(path, part, k, i);
    }
    if HasComponent(path, part) {
      var i: nat :| ComponentAt(path, part, i);
      if i <= k {
        FirstComponent(path, part, k, i);
      } else {
        Deeper(path, part, k, i - k - 1);
      }
    }
  }

  lemma Deeper(path: string, part: string, k: nat, i: nat)
    requires k < |path| && path[k] == '/'
    ensures ComponentAt(path[k + 1..], part, i) <==> ComponentAt(path, part, k + 1 + i)
  {
    var rest := path[k + 1..];
    if i + |part| <= |rest| {
      assert rest[i..i + |part|] == path[k + 1 + i..k + 1 + i + |part|];
      assert i > 0 ==> rest[i - 1] == path[k + i];
    }
  }

  lemma FirstComponent(path: string, part: string, k: nat, i: nat)
    requires k < |path| && path[k] == '/' && '/' !in path[..k]
    requires ComponentAt(path, part, i) && i <= k
    ensures part == path[..k]
  {
    NoSlashIn(path[..k]);
    NoSlashIn(part);
    SamePlaces(path, part, k, i);
  }

  lemma NoSlashIn(s: string)
    requires '/' !in s
    ensures forall j :: 0 <= j < |s| ==> s[j] != '/'
  {
  }

  lemma SamePlaces(path: string, part: string, k: nat, i: nat)
    requires k < |path| && path[k] == '/' && forall j :: 0 <= j < k ==> path[..k][j] != '/'
    requires ComponentAt(path, part, i) && i <= k && forall j :: 0 <= j < |part| ==> part[j] != '/'
    ensures part == path[..k]
  {
    assert forall j :: 0 <= j < k ==> path[j] == path[..k][j];
    assert part == path[i..i + |part|];
    assert forall j :: 0 <= j < |part| ==> path[i + j] == part[j];
  }

  /** Exactly which paths the asset route refuses before it asks the host: the empty one, those with a
      backslash, a NUL or `://`, and those with an empty component (so absolute ones too), `.` or `..`. */
  lemma RefusedPaths(path: string)
    ensures IsSafeRelativeAsset(path) <==>
              && path != "" && '\\' !in path && '\0' !in path
              && !(exists i: nat :: OccursAt(path, "://", i))
              && !HasComponent(path, "") && !HasComponent(path, ".") && !HasComponent(path, "..")
  {
    FindIsFirst(path, "://");
    ComponentsAreSplit(path, "");
    ComponentsAreSplit(path, ".");
    ComponentsAreSplit(path, "..");
    if path != "" && path[0] == '/' {
      assert path[0..0] == "";
      assert ComponentAt(path, "", 0);
    }
  }

  /** No path that climbs, wherever it does, reaches the host. */
  lemma ClimbingIsForbidden(files: Files, query: string, range: Option<string>, h: Hash, front: string, back: string)
    requires front == "" || front[|front| - 1] == '/'
    requires back == "" || back[0] == '/'
    requires "path" in ParseQuery(query) && ParseQuery(query)["path"] == front + ".." + back
    ensures ServeAsset(files, query, range, h) == Response(403, None, [])
  {
    var path := front + ".." + back;
    assert path[|front|..|front| + 2] == "..";
    assert ComponentAt(path, "..", |front|);
    RefusedPaths(path);
  }

  // ---- which status a request gets ----

  /** Exactly when the asset route answers 400, 403, 404 and 502; every other answer is 200 or 206, with the
      bytes of the file. */
  lemma StatusExact(files: Files, query: string, range: Option<string>, h: Hash)
    ensures var r, params := ServeAsset(files, query, range, h), ParseQuery(query);
            && (r.status == 400 <==> "path" !in params)
            && (r.status == 403 <==> "path" in params && !IsSafeRelativeAsset(params["path"]))
            && (r.status == 404 <==>
                  "path" in params && IsSafeRelativeAsset(params["path"]) && params["path"] !in files)
            && (r.status == 502 <==>
                  && "path" in params && IsSafeRelativeAsset(params["path"]) && params["path"] in files
                  && (files[params["path"]].Directory? || Asked(range).0 >= 0x8000_0000_0000_0000))
            && r.status in {200, 206, 400, 403, 404, 502}
            && (r.status !in {200, 206} ==> r.contentRange.None? && r.body == [])
  {
    if "path" in ParseQuery(query) {
      RangeReadExact(files, ParseQuery(query)["path"], Some(Asked(range)), MAX_FILE_READ_RANGE_BYTES, h);
      NeverOutOfBound(files, ParseQuery(query)["path"], range, h);
    }
  }

  // ---- how a query is read ----

  function PrintPair(key: string, value: string): string {
    EncodeBytes(Encode(key)) + "=" + EncodeBytes(Encode(value))
  }

  function PairTexts(pairs: seq<(string, string)>): seq<string> {
    if pairs == [] then []
    else
      var (key, value) := pairs[|pairs| - 1];
      PairTexts(pairs[..|pairs| - 1]) + [PrintPair(key, value)]
  }

  /** The last value of each key counts. */
  function MapOf(pairs: seq<(string, string)>): map<string, string> {
    if pairs == [] then map[] else MapOf(pairs[..|pairs| - 1])[pairs[|pairs| - 1].0 := pairs[|pairs| - 1].1]
  }

  lemma PairBack(key: string, value: string)
    ensures SplitOnce(PrintPair(key, value), "=") == Some((EncodeBytes(Encode(key)), EncodeBytes(Encode(value))))
    ensures Decoded(EncodeBytes(Encode(key))) == key && Decoded(EncodeBytes(Encode(value))) == value
    ensures '&' !in PrintPair(key, value)
  {
    NotInEncoded(key, '=');
    NotInEncoded(key, '&');
    NotInEncoded(value, '&');
    CleanOfChar(EncodeBytes(Encode(key)), '=');
    SplitOnceClean(EncodeBytes(Encode(key)), "=", EncodeBytes(Encode(value)));
    PercentRoundTrip(key);
    PercentRoundTrip(value);
  }

  lemma {:induction false} PairsBack(pairs: seq<(string, string)>)
    ensures ParseQueryPairs(PairTexts(pairs)) == MapOf(pairs) && |PairTexts(pairs)| == |pairs|
    ensures forall t :: t in PairTexts(pairs) ==> '&' !in t
  {
    if pairs != [] {
      var front, last := pairs[..|pairs| - 1], pairs[|pairs| - 1];
      PairsBack(front);
      PairBack(last.0, last.1);
      assert PairTexts(pairs)[..|pairs| - 1] == PairTexts(front);
    }
  }

  /** Any list of keys and values, encoded and joined, is read back, the last value of a key winning. */
  lemma QueryIsReadBack(pairs: seq<(string, string)>)
    requires pairs != []
    ensures ParseQuery(Join(PairTexts(pairs), "&")) == MapOf(pairs)
  {
    PairsBack(pairs);
    forall t | t in PairTexts(pairs) ensures Clean(t, "&") {
      CleanOfChar(t, '&');
    }
    SplitJoin(PairTexts(pairs), "&");
  }

  // ---- how a range is read ----

  /** Exactly which Range headers are honoured, and as what: a single closed range of two numbers in order. */
  lemma RangeExact(first: string, last: string, offset: nat, length: nat)
    requires '-' !in first
    ensures ParseRangeHeader("bytes=" + first + "-" + last) == Some((offset, length)) <==>
              exists end: nat ::
                && NumeralOf(first, offset) && NumeralOf(last, end)
                && offset <= end < 0x1_0000_0000_0000_0000
                && length == (end - offset + 1) % 0x1_0000_0000_0000_0000
  {
    var spec := first + "-" + last;
    assert "bytes=" + first + "-" + last == "bytes=" + spec;
    DropFront("bytes=", spec);
    CleanOfChar(first, '-');
    SplitOnceClean(first, "-", last);
    NumberExact(first, offset);
    if ParseU64(last).Some? {
      NumberExact(last, ParseU64(last).value);
    }
    forall end: nat | NumeralOf(last, end) && end < U64 ensures ParseU64(last) == Some(end) {
      NumberExact(last, end);
    }
    RangeIs("bytes=" + spec, spec, first, last);
  }

  lemma RangeIs(value: string, spec: string, first: string, last: string)
    requires StripPrefix(value, "bytes=") == Some(spec) && SplitOnce(spec, "-") == Some((first, last))
    ensures ParseRangeHeader(value) == RangeOf(ParseU64(first), ParseU64(last))
  {
  }

  /** Anything else is no range: another unit, or no dash behind it. */
  lemma NoRange(value: string)
    requires !("bytes=" <= value) || '-' !in value[6..]
    ensures ParseRangeHeader(value) == None
  {
    if "bytes=" <= value {
      FindChar(value[6..], '-');
    }
  }

  // ---- how escapes are read ----

  /** The hexadecimal digit of `n`, in either case. */
  predicate HexOf(b: byte, n: nat) {
    || (n < 10 && b == 0x30 + n)
    || (10 <= n < 16 && (b == 0x41 + (n - 10) || b == 0x61 + (n - 10)))
  }

  /** An escape is `%` and two hexadecimal digits of either case, or `%+` and one; it stands for their byte. */
  lemma EscapeIsRead(a: byte, b: byte, high: nat, low: nat, rest: seq<byte>)
    requires HexOf(b, low) && (HexOf(a, high) || (a == 0x2B && high == 0))
    ensures DecodeBytes([0x25, a, b] + rest) == [16 * high + low] + DecodeBytes(rest)
  {
    var bytes := [0x25, a, b] + rest;
    assert bytes[3..] == rest;
  }

  /** A `%` that starts none is left as it is, and so is every other byte. */
  lemma OthersStay(c: byte, rest: seq<byte>)
    requires c == 0x25 ==> |rest| < 2 || !IsHex(rest[1]) || !(IsHex(rest[0]) || rest[0] == 0x2B)
    ensures DecodeBytes([c] + rest) == [c] + DecodeBytes(rest)
  {
    var bytes := [c] + rest;
    assert bytes[1..] == rest;
  }

  predicate IsHex(b: byte) {
    0x30 <= b <= 0x39 || 0x41 <= b <= 0x46 || 0x61 <= b <= 0x66
  }
}
