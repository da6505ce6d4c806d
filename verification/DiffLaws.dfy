/** What the diff parser refuses, and that it drops nothing: a malformed line is an error of the whole
    diff, never papered over, and every file header gives exactly one entry. */
module DiffLaws {
  import opened Wrappers
  import opened Text
  import opened LineFold
  import opened Numbers
  import opened GitDiff
  import opened DiffPrinter

  // ---- malformed lines ----

  /** Nothing is wrong with the line as a hunk header or a binary marker, if it is one. */
  predicate LineOk(l: string) {
    && ("@@ " <= l ==> ParseHunkHeader(l).Ok?)
    && ("Binary files " <= l ==> ParseBinaryMarker(l[13..]).Ok?)
  }

  lemma OkLine(s: Section, l: string)
    ensures SectionLine(s, l).Ok? <==> LineOk(l)
  {
    if "@@ " <= l {
      assert l[0] == '@';
      StartsOtherwise(l, "rename from ");
      StartsOtherwise(l, "rename to ");
      StartsOtherwise(l, "Binary files ");
      StartsOtherwise(l, "--- ");
      StartsOtherwise(l, "+++ ");
    }
    if "Binary files " <= l {
      assert l[0] == 'B';
      StartsOtherwise(l, "rename from ");
      StartsOtherwise(l, "rename to ");
    }
  }

  /** A section can be read exactly when none of its lines is malformed. */
  lemma {:induction false} OkLines(s: Section, lines: seq<string>)
    ensures SectionLines(s, lines).Ok? <==> forall l :: l in lines ==> LineOk(l)
    decreases |lines|
  {
    if lines != [] {
      OkLine(s, lines[0]);
      assert lines[0] in lines;
      assert lines == [lines[0]] + lines[1..];
      if SectionLine(s, lines[0]).Ok? {
        OkLines(SectionLine(s, lines[0]).value, lines[1..]);
      }
    }
  }

  /** The lines behind the first file header. */
  function BehindHeader(lines: seq<string>): seq<string> {
    if lines == [] then [] else if IsHeader(lines[0]) then lines[1..] else BehindHeader(lines[1..])
  }

  /** Nothing is papered over: when a diff is parsed at all, every line in it that starts like a hunk header
      or a binary marker, behind the first file header, is one. */
  lemma {:induction false} NothingIsPaperedOver(lines: seq<string>, l: string)
    requires ParseLines(lines).Ok? && l in BehindHeader(lines) && !IsHeader(l)
    ensures LineOk(l)
    decreases |lines|
  {
    var tail := lines[1..];
    if !IsHeader(lines[0]) {
      NothingIsPaperedOver(tail, l);
    } else {
      var n := SectionLength(tail);
      FirstSection(lines, tail, n);
      LaterSection(tail, n, l);
      if l !in tail[..n] {
        NothingIsPaperedOver(tail[n..], l);
      }
    }
  }

  lemma LaterSection(tail: seq<string>, n: nat, l: string)
    requires n == SectionLength(tail) && l in tail && !IsHeader(l)
    ensures l in tail[..n] || l in BehindHeader(tail[n..])
  {
    assert tail == tail[..n] + tail[n..];
    if l in tail[n..] {
      assert tail[n..] == [tail[n]] + tail[n..][1..];
    }
  }

  lemma FirstSection(lines: seq<string>, tail: seq<string>, n: nat)
    requires lines != [] && IsHeader(lines[0]) && tail == lines[1..] && n == SectionLength(tail)
    requires ParseLines(lines).Ok?
    ensures ParseLines(tail[n..]).Ok? && forall l :: l in tail[..n] ==> LineOk(l)
  {
    OkLines(EMPTY, tail[..n]);
  }

  // ---- entries and headers ----

  function Headers(lines: seq<string>): nat {
    if lines == [] then 0 else (if IsHeader(lines[0]) then 1 else 0) + Headers(lines[1..])
  }

  lemma {:induction false} HeadersBehind(lines: seq<string>, n: nat)
    requires n <= |lines| && forall i :: 0 <= i < n ==> !IsHeader(lines[i])
    ensures Headers(lines[n..]) == Headers(lines)
  {
    if n > 0 {
      HeadersBehind(lines[1..], n - 1);
      assert lines[1..][n - 1..] == lines[n..];
    } else {
      assert lines[0..] == lines;
    }
  }

  /** Every file header gives exactly one entry, and nothing else does. */
  lemma {:induction false} EntryPerHeader(lines: seq<string>)
    requires ParseLines(lines).Ok?
    ensures |ParseLines(lines).value| == Headers(lines)
    decreases |lines|
  {
    if lines != [] {
      var tail := lines[1..];
      if !IsHeader(lines[0]) {
        EntryPerHeader(tail);
      } else {
        var n := SectionLength(tail);
        EntryPerHeader(tail[n..]);
        HeadersBehind(tail, n);
      }
    }
  }

  // ---- lines that say nothing ----

  /** A file header, a rename, a binary marker, a hunk header, or a line that starts with a content character. */
  predicate Matters(l: string) {
    || IsHeader(l) || "rename from " <= l || "rename to " <= l || "Binary files " <= l || "@@ " <= l
    || (l != "" && (l[0] == ' ' || l[0] == '+' || l[0] == '-'))
  }

  function Relevant(lines: seq<string>): seq<string> {
    if lines == [] then [] else (if Matters(lines[0]) then [lines[0]] else []) + Relevant(lines[1..])
  }

  lemma NoiseLine(s: Section, l: string)
    requires !Matters(l)
    ensures SectionLine(s, l) == Ok(s)
  {
  }

  lemma {:induction false} NoiseLines(s: Section, lines: seq<string>)
    ensures SectionLines(s, Relevant(lines)) == SectionLines(s, lines)
    decreases |lines|
  {
    if lines != [] {
      var tail := lines[1..];
      if !Matters(lines[0]) {
        NoiseLine(s, lines[0]);
        NoiseLines(s, tail);
        assert [] + Relevant(tail) == Relevant(tail);
      } else {
        assert Relevant(lines)[0] == lines[0] && Relevant(lines)[1..] == Relevant(tail);
        if SectionLine(s, lines[0]).Ok? {
          NoiseLines(SectionLine(s, lines[0]).value, tail);
        }
      }
    }
  }

  lemma {:induction false} RelevantConcat(a: seq<string>, b: seq<string>)
    ensures Relevant(a + b) == Relevant(a) + Relevant(b)
    decreases |a|
  {
    if a == [] {
      assert a + b == b;
    } else {
      RelevantConcat(a[1..], b);
      assert (a + b)[0] == a[0] && (a + b)[1..] == a[1..] + b;
    }
  }

  lemma {:induction false} RelevantAreLines(lines: seq<string>)
    ensures forall l :: l in Relevant(lines) ==> l in lines
    decreases |lines|
  {
    if lines != [] {
      RelevantAreLines(lines[1..]);
    }
  }

  function SectionResult(header: string, body: seq<string>): Result<Entry, DiffError>
    requires IsHeader(header)
  {
    match SectionLines(EMPTY, body)
    case Err(e) => Err(e)
    case Ok(s) => Finish(s, header[11..])
  }

  function WithFirst(first: Result<Entry, DiffError>, later: Result<seq<Entry>, DiffError>)
    : Result<seq<Entry>, DiffError>
  {
    match first
    case Err(e) => Err(e)
    case Ok(entry) => Prepended([entry], later)
  }

  /** A section and what comes behind it. */
  lemma SectionThen(header: string, body: seq<string>, later: seq<string>)
    requires IsHeader(header) && NoHeaders(body) && (later != [] ==> IsHeader(later[0]))
    ensures ParseLines([header] + (body + later))
         == WithFirst(SectionResult(header, body), ParseLines(later))
  {
    var lines, tail := [header] + (body + later), body + later;
    SectionLengthOf(body, later);
    assert lines[0] == header && lines[1..] == tail;
    assert tail[..|body|] == body && tail[|body|..] == later;
  }

  lemma NoiseInSection(header: string, body: seq<string>, later: seq<string>)
    requires IsHeader(header) && NoHeaders(body) && (later != [] ==> IsHeader(later[0]))
    requires ParseLines(Relevant(later)) == ParseLines(later)
    ensures ParseLines([header] + (Relevant(body) + Relevant(later))) == ParseLines([header] + (body + later))
  {
    RelevantAreLines(body);
    NoiseLines(EMPTY, body);
    SectionThen(header, body, later);
    SectionThen(header, Relevant(body), Relevant(later));
  }

  /** Any other line, such as `index ..`, `old mode ..`, `similarity index ..`, `copy from ..`, an empty one
      or the note about a missing final newline, can be left out wherever it stands. */
  lemma {:induction false} NoiseIsIgnored(lines: seq<string>)
    ensures ParseLines(Relevant(lines)) == ParseLines(lines)
    decreases |lines|
  {
    if lines != [] {
      var l, tail := lines[0], lines[1..];
      if !IsHeader(l) {
        NoiseIsIgnored(tail);
        BeforeHeaders(l, Relevant(tail));
        assert [] + Relevant(tail) == Relevant(tail);
      } else {
        var n := SectionLength(tail);
        NoiseIsIgnored(tail[n..]);
        OneSection(l, tail, n);
        assert lines == [l] + tail;
      }
    }
  }

  lemma OneSection(header: string, tail: seq<string>, n: nat)
    requires IsHeader(header) && n == SectionLength(tail) && ParseLines(Relevant(tail[n..])) == ParseLines(tail[n..])
    ensures ParseLines([header] + Relevant(tail)) == ParseLines([header] + tail)
  {
    var body, later := tail[..n], tail[n..];
    SectionSplit(tail, n);
    RelevantConcat(body, later);
    NoiseInSection(header, body, later);
  }

  lemma SectionSplit(tail: seq<string>, n: nat)
    requires n == SectionLength(tail)
    ensures tail == tail[..n] + tail[n..] && NoHeaders(tail[..n]) && (tail[n..] != [] ==> IsHeader(tail[n..][0]))
  {
  }

  lemma BeforeHeaders(l: string, lines: seq<string>)
    requires !IsHeader(l)
    ensures ParseLines([l] + lines) == ParseLines(lines)
  {
    assert ([l] + lines)[1..] == lines;
  }

  // ---- what an entry is ----

  ghost predicate Starts(lines: seq<string>, prefix: string) {
    exists l :: l in lines && prefix <= l
  }

  lemma StartsCons(l: string, rest: seq<string>, prefix: string)
    ensures Starts([l] + rest, prefix) <==> prefix <= l || Starts(rest, prefix)
  {
    if prefix <= l {
      assert l in [l] + rest;
    }
    if Starts(rest, prefix) {
      var k :| k in rest && prefix <= k;
      assert k in [l] + rest;
    }
  }

  lemma KindLine(s: Section, l: string)
    requires SectionLine(s, l).Ok?
    ensures var s' := SectionLine(s, l).value;
            && (s'.renameFrom.Some? <==> s.renameFrom.Some? || "rename from " <= l)
            && (s'.renameTo.Some? <==> s.renameTo.Some? || "rename to " <= l)
            && (s'.binary.Some? <==> s.binary.Some? || "Binary files " <= l)
  {
    if "rename to " <= l {
      assert l[7] == 't' && "rename from "[7] == 'f';
    }
    if "Binary files " <= l {
      assert l[0] == 'B';
      StartsOtherwise(l, "rename from ");
      StartsOtherwise(l, "rename to ");
    }
  }

  lemma {:induction false} KindLines(s: Section, lines: seq<string>)
    requires SectionLines(s, lines).Ok?
    ensures var s' := SectionLines(s, lines).value;
            && (s'.renameFrom.Some? <==> s.renameFrom.Some? || Starts(lines, "rename from "))
            && (s'.renameTo.Some? <==> s.renameTo.Some? || Starts(lines, "rename to "))
            && (s'.binary.Some? <==> s.binary.Some? || Starts(lines, "Binary files "))
    decreases |lines|
  {
    if lines != [] {
      var l, rest := lines[0], lines[1..];
      assert lines == [l] + rest;
      KindLine(s, l);
      KindLines(SectionLine(s, l).value, rest);
      StartsCons(l, rest, "rename from ");
      StartsCons(l, rest, "rename to ");
      StartsCons(l, rest, "Binary files ");
    }
  }

  /** The entry of a section is a binary one exactly when the section has a binary marker and not both lines of
      a rename, whatever else it has. */
  lemma BinaryExactly(header: string, body: seq<string>)
    requires IsHeader(header) && SectionResult(header, body).Ok?
    ensures SectionResult(header, body).value.Binary? <==>
              Starts(body, "Binary files ") && !(Starts(body, "rename from ") && Starts(body, "rename to "))
  {
    KindLines(EMPTY, body);
  }

  /** Half a rename is none. */
  lemma HalfARename(s: Section, headerRest: string)
    requires s.renameFrom.None? || s.renameTo.None?
    ensures Finish(s, headerRest) == Finish(s.(renameFrom := None, renameTo := None), headerRest)
  {
  }

  // ---- what the helpers refuse ----

  /** One side of a hunk header: the sign, a start and perhaps a count, which is 1 when it is left out. */
  lemma RangeExact(sign: char, start: string, count: Option<string>, s: nat, c: nat)
    requires ',' !in start
    ensures var part := [sign] + start + if count.Some? then "," + count.value else "";
            ParseHunkRange(part, sign) == Ok((s, c)) <==>
              && s < 0x1_0000_0000_0000_0000 && NumeralOf(start, s)
              && if count.Some? then c < 0x1_0000_0000_0000_0000 && NumeralOf(count.value, c) else c == 1
  {
    var rest := start + if count.Some? then "," + count.value else "";
    var part := [sign] + start + if count.Some? then "," + count.value else "";
    assert part == [sign] + rest && part[1..] == rest;
    NumberExact(start, s);
    if count.Some? {
      CleanOfChar(start, ',');
      SplitOnceClean(start, ",", count.value);
      assert rest == start + "," + count.value;
      NumberExact(count.value, c);
    } else {
      FindChar(rest, ',');
      assert rest == start;
      ParseDecimal(1);
      assert Decimal(1) == "1";
    }
  }

  /** A part without its sign is refused. */
  lemma SignIsNeeded(part: string, sign: char)
    requires part == "" || part[0] != sign
    ensures ParseHunkRange(part, sign) == Err(BadHunkRange)
  {
  }

  lemma SplitHead(a: string, rest: string)
    requires ' ' !in a
    ensures Split(a, " ") == [a] && Split(a + " " + rest, " ") == [a] + Split(rest, " ")
  {
    CleanOfChar(a, ' ');
    CleanHasNone(a, " ");
    FindAfterClean(a, " ", rest);
    assert (a + " " + rest)[..|a|] == a && (a + " " + rest)[|a| + 1..] == rest;
  }

  /** The two sides a hunk header starts with, and perhaps more behind them. */
  lemma SidesFirst(a: string, b: string, more: string)
    requires ' ' !in a && ' ' !in b && (more == "" || more[0] == ' ')
    ensures var parts := Split(a + " " + b + more, " "); |parts| >= 2 && parts[0] == a && parts[1] == b
  {
    assert a + " " + b + more == a + " " + (b + more);
    SplitHead(a, b + more);
    if more == "" {
      assert b + more == b;
      SplitHead(b, "");
    } else {
      assert b + more == b + " " + more[1..];
      SplitHead(b, more[1..]);
    }
  }

  /** Exactly which hunk headers are read, and as what: the first two words between `@@ ` and the next ` @@`
      must be the two sides, and whatever follows, in between or as a title, says nothing. */
  lemma HunkHeaderExact(a: string, b: string, more: string, title: string)
    requires ' ' !in a && ' ' !in b && (more == "" || more[0] == ' ') && Clean(a + " " + b + more, " @@")
    ensures var r, old_, new_ := ParseHunkHeader("@@ " + (a + " " + b + more + " @@" + title)),
                                 ParseHunkRange(a, '-'), ParseHunkRange(b, '+');
            if old_.Ok? && new_.Ok? then r == Ok(Hunk(old_.value.0, old_.value.1, new_.value.0, new_.value.1, []))
            else r == Err(BadHunkRange)
  {
    var sides := a + " " + b + more;
    var rest := sides + " @@" + title;
    FindAfterClean(sides, " @@", title);
    SidesFirst(a, b, more);
    assert rest[..|sides|] == sides;
    HeaderSides("@@ " + rest, rest, |sides|);
  }

  lemma HeaderSides(line: string, rest: string, end: nat)
    requires line == "@@ " + rest && Find(rest, " @@") == Some(end) && end <= |rest|
    requires |Split(rest[..end], " ")| >= 2
    ensures var parts := Split(rest[..end], " ");
            var r, old_, new_ := ParseHunkHeader(line), ParseHunkRange(parts[0], '-'), ParseHunkRange(parts[1], '+');
            if old_.Ok? && new_.Ok? then r == Ok(Hunk(old_.value.0, old_.value.1, new_.value.0, new_.value.1, []))
            else r == Err(BadHunkRange)
  {
    assert StripPrefix(line, "@@ ") == Some(rest);
  }

  /** A header alone without ` b/` tells no paths. */
  lemma HeaderNeedsSeparator(rest: string)
    requires !(exists i: nat :: OccursAt(rest, " b/", i))
    ensures ParseDiffGitHeader(rest) == Err(BadGitHeader)
  {
    var paths := if "a/" <= rest then rest[2..] else rest;
    FindIsFirst(paths, " b/");
    if "a/" <= rest && Find(paths, " b/").Some? {
      assert rest == "a/" + paths;
      OccursInSuffix("a/", paths, " b/", Find(paths, " b/").value);
    }
  }

  /** What one side of a marker names: nothing at `/dev/null`, else the path, without its prefix if it has it. */
  predicate Names(side: string, prefix: string, path: Option<string>) {
    && (path.None? <==> side == "/dev/null")
    && (path.Some? ==> side == (if prefix <= side then prefix else "") + path.value)
  }

  lemma NamesSide(side: string, letter: char)
    requires letter == 'a' || letter == 'b'
    ensures Names(side, [letter] + "/", StripDiffPath(side, letter))
  {
  }

  /** The old side of a text change. */
  lemma OldSideNames(side: string)
    ensures var s := SectionLine(EMPTY, "--- " + side); s.Ok? && Names(side, "a/", s.value.textOld)
  {
    NamesSide(side, 'a');
    OldSideLine(EMPTY, "--- " + side, side);
  }

  lemma OldSideLine(s: Section, l: string, side: string)
    requires s.current.None? && s.hunks == [] && l == "--- " + side
    ensures SectionLine(s, l) == Ok(s.(textOld := StripDiffPath(side, 'a'), sawTextMarkers := true))
  {
    assert l[0] == '-' && l[4..] == side;
    StartsOtherwise(l, "rename from ");
    StartsOtherwise(l, "rename to ");
    StartsOtherwise(l, "Binary files ");
  }

  /** And the new side. */
  lemma NewSideNames(side: string)
    ensures var s := SectionLine(EMPTY, "+++ " + side); s.Ok? && Names(side, "b/", s.value.textNew)
  {
    NamesSide(side, 'b');
    NewSideLine(EMPTY, "+++ " + side, side);
  }

  lemma NewSideLine(s: Section, l: string, side: string)
    requires s.current.None? && s.hunks == [] && l == "+++ " + side
    ensures SectionLine(s, l) == Ok(s.(textNew := StripDiffPath(side, 'b'), sawTextMarkers := true))
  {
    assert l[0] == '+' && l[4..] == side;
    StartsOtherwise(l, "rename from ");
    StartsOtherwise(l, "rename to ");
    StartsOtherwise(l, "Binary files ");
    StartsOtherwise(l, "--- ");
  }

  /** The sides of a binary change: which are there, and the path, of the new side if it is there. The
      closing word may be missing. */
  lemma BinaryMarkerNames(left: string, right: string, differ: bool)
    requires Clean(left, " and ") && (!differ ==> StripSuffix(left + " and " + right, " differ").None?)
    ensures var r := ParseBinaryMarker(left + " and " + right + if differ then " differ" else "");
            && r.Ok?
            && (r.value.leftPresent <==> left != "/dev/null") && (r.value.rightPresent <==> right != "/dev/null")
            && if right != "/dev/null" then Names(right, "b/", r.value.path) else Names(left, "a/", r.value.path)
  {
    var body := left + " and " + right;
    NamesSide(left, 'a');
    NamesSide(right, 'b');
    SplitOnceClean(left, " and ", right);
    if differ {
      assert StripSuffix(body + " differ", " differ") == Some(body);
    } else {
      assert body + "" == body;
    }
  }

  /** A binary marker with neither side is an error of its section. */
  lemma NeitherSideIsRefused(header: string)
    ensures var s := SectionLine(EMPTY, "Binary files " + ("/dev/null" + " and " + "/dev/null" + " differ"));
            s.Ok? && Finish(s.value, header) == Err(BadBinaryMarker)
  {
    BothNull("/dev/null");
    BinaryLine(EMPTY, "/dev/null" + " and " + "/dev/null" + " differ", Marker(false, false, None));
  }

  lemma BothNull(none: string)
    requires none == "/dev/null"
    ensures ParseBinaryMarker(none + " and " + none + " differ") == Ok(Marker(false, false, None))
  {
    CleanOfLiteral();
    var body := none + " and " + none;
    assert StripSuffix(body + " differ", " differ") == Some(body);
    SplitOnceClean(none, " and ", none);
  }
}
