/** The git-format diff parser (choosh-hostd/src/jj_ops.rs, `parse_git_diff` and its helpers). */
module GitDiff {
  import opened Wrappers
  import opened Text
  import opened LineFold

  datatype SegmentKind = Context | Added | Removed

  datatype Segment = Segment(kind: SegmentKind, text: string)

  datatype Hunk = Hunk(oldStart: nat, oldLines: nat, newStart: nat, newLines: nat, segments: seq<Segment>)

  datatype ChangeKind = FileAdded | FileModified | FileDeleted

  datatype Entry =
    | Hunks(oldPath: Option<string>, newPath: Option<string>, hunks: seq<Hunk>)
    | Binary(path: string, status: ChangeKind)

  /** `JjError::UnparseableOutput`, without its message. */
  datatype DiffError = BadHunkHeader | BadHunkRange | BadBinaryMarker | BadGitHeader

  // ---- the pure helpers ----

  function StripDiffPath(path: string, side: char): Option<string> {
    if path == "/dev/null" then None
    else
      var prefix := if side == 'a' then "a/" else "b/";
      Some(match StripPrefix(path, prefix) case Some(rest) => rest case None => path)
  }

  datatype Marker = Marker(leftPresent: bool, rightPresent: bool, path: Option<string>)

  /** The text after `Binary files `. */
  function ParseBinaryMarker(rest: string): Result<Marker, DiffError> {
    var body := match StripSuffix(rest, " differ") case Some(b) => b case None => rest;
    match SplitOnce(body, " and ")
    case None => Err(BadBinaryMarker)
    case Some((left, right)) =>
      var leftPath, rightPath := StripDiffPath(left, 'a'), StripDiffPath(right, 'b');
      Ok(Marker(left != "/dev/null", right != "/dev/null", if rightPath.Some? then rightPath else leftPath))
  }

  /** The text after `diff --git `, split at the first ` b/`. */
  function ParseDiffGitHeader(rest: string): Result<(string, string), DiffError> {
    var paths := match StripPrefix(rest, "a/") case Some(r) => r case None => rest;
    match SplitOnce(paths, " b/")
    case None => Err(BadGitHeader)
    case Some(pair) => Ok(pair)
  }

  function ParseHunkRange(part: string, sign: char): Result<(nat, nat), DiffError> {
    match StripPrefix(part, [sign])
    case None => Err(BadHunkRange)
    case Some(stripped) =>
      var (start, count) := match SplitOnce(stripped, ",") case Some(p) => p case None => (stripped, "1");
      match (ParseU64(start), ParseU64(count))
      case (Some(s), Some(c)) => Ok((s, c))
      case _ => Err(BadHunkRange)
  }

  function ParseHunkHeader(line: string): Result<Hunk, DiffError> {
    match StripPrefix(line, "@@ ")
    case None => Err(BadHunkHeader)
    case Some(rest) =>
      match Find(rest, " @@")
      case None => Err(BadHunkHeader)
      case Some(end) =>
        var parts := Split(rest[..end], " ");
        if |parts| < 2 then Err(BadHunkHeader)
        else
          var before :- ParseHunkRange(parts[0], '-');
          var after :- ParseHunkRange(parts[1], '+');
          Ok(Hunk(before.0, before.1, after.0, after.1, []))
  }

  // ---- one file section ----

  /** The variables of the section loop. */
  datatype Section = Section(
    renameFrom: Option<string>,
    renameTo: Option<string>,
    binary: Option<Marker>,
    textOld: Option<string>,
    textNew: Option<string>,
    sawTextMarkers: bool,
    hunks: seq<Hunk>,
    current: Option<Hunk>)

  const EMPTY := Section(None, None, None, None, None, false, [], None)

  predicate IsHeader(l: string) {
    "diff --git " <= l
  }

  function Closed(s: Section): seq<Hunk> {
    if s.current.Some? then s.hunks + [s.current.value] else s.hunks
  }

  function KindOf(c: char): Option<SegmentKind> {
    if c == ' ' then Some(Context) else if c == '+' then Some(Added) else if c == '-' then Some(Removed) else None
  }

  /** What one line inside a section does. */
  function SectionLine(s: Section, l: string): Result<Section, DiffError> {
    if "rename from " <= l then Ok(s.(renameFrom := Some(l[12..])))
    else if "rename to " <= l then Ok(s.(renameTo := Some(l[10..])))
    else if "Binary files " <= l then
      var m :- ParseBinaryMarker(l[13..]);
      Ok(s.(binary := Some(m)))
    else if s.current.None? && s.hunks == [] && "--- " <= l then
      Ok(s.(textOld := StripDiffPath(l[4..], 'a'), sawTextMarkers := true))
    else if s.current.None? && s.hunks == [] && "+++ " <= l then
      Ok(s.(textNew := StripDiffPath(l[4..], 'b'), sawTextMarkers := true))
    else if "@@ " <= l then
      var h :- ParseHunkHeader(l);
      Ok(s.(hunks := Closed(s), current := Some(h)))
    else if "\\ No newline at end of file" <= l then Ok(s)
    else if s.current.Some? && l != "" && KindOf(l[0]).Some? then
      var h := s.current.value;
      Ok(s.(current := Some(h.(segments := h.segments + [Segment(KindOf(l[0]).value, l[1..])]))))
    else Ok(s)
  }

  function SectionLines(s: Section, lines: seq<string>): Result<Section, DiffError> {
    Fold(SectionLine, s, lines)
  }

  function Finish(s: Section, headerRest: string): Result<Entry, DiffError> {
    if s.renameFrom.Some? && s.renameTo.Some? then Ok(Hunks(s.renameFrom, s.renameTo, Closed(s)))
    else if s.binary.Some? then
      var m := s.binary.value;
      if m.path.None? || (!m.leftPresent && !m.rightPresent) then Err(BadBinaryMarker)
      else
        var status := if !m.leftPresent then FileAdded else if !m.rightPresent then FileDeleted else FileModified;
        Ok(Binary(m.path.value, status))
    else if s.sawTextMarkers then Ok(Hunks(s.textOld, s.textNew, Closed(s)))
    else
      var paths :- ParseDiffGitHeader(headerRest);
      Ok(Hunks(Some(paths.0), Some(paths.1), Closed(s)))
  }

  /** How many lines the section starting here has. */
  function SectionLength(lines: seq<string>): (n: nat)
    ensures n <= |lines|
    ensures forall i :: 0 <= i < n ==> !IsHeader(lines[i])
    ensures n < |lines| ==> IsHeader(lines[n])
  {
    if lines == [] || IsHeader(lines[0]) then 0 else 1 + SectionLength(lines[1..])
  }

  function Prepended(entries: seq<Entry>, r: Result<seq<Entry>, DiffError>): Result<seq<Entry>, DiffError> {
    match r
    case Ok(later) => Ok(entries + later)
    case Err(e) => Err(e)
  }

  /** The section under `header`: its entry, and how many of the following lines it takes. */
  function ParseHead(header: string, tail: seq<string>): (r: Result<(Entry, nat), DiffError>)
    requires IsHeader(header)
    ensures r.Ok? ==> r.value.1 <= |tail|
  {
    var n := SectionLength(tail);
    var s :- SectionLines(EMPTY, tail[..n]);
    var e :- Finish(s, header[11..]);
    Ok((e, n))
  }

  function ParseLines(lines: seq<string>): Result<seq<Entry>, DiffError>
    decreases |lines|
  {
    if lines == [] then Ok([])
    else
      var tail := lines[1..];
      if !IsHeader(lines[0]) then ParseLines(tail)
      else
        match ParseHead(lines[0], tail)
        case Err(e) => Err(e)
        case Ok((entry, n)) => Prepended([entry], ParseLines(tail[n..]))
  }

  // ---- the peeking line loop ----

  /** The inner loop: reads lines until it peeks the next header. */
  method ParseSection(lines: seq<string>, start: nat) returns (r: Result<Section, DiffError>, next: nat)
    requires start <= |lines|
    ensures start <= next <= |lines|
    ensures r == SectionLines(EMPTY, lines[start..][..SectionLength(lines[start..])])
    ensures r.Ok? ==> next == start + SectionLength(lines[start..])
  {
    var renameFrom: Option<string>, renameTo: Option<string> := None, None;
    var binary: Option<Marker> := None;
    var textOld: Option<string>, textNew: Option<string>, sawTextMarkers := None, None, false;
    var hunks: seq<Hunk>, current: Option<Hunk> := [], None;
    ghost var n := SectionLength(lines[start..]);
    ghost var section := lines[start..][..n];
    ghost var s := EMPTY;
    SectionBounds(lines, start);
    next := start;
    while next < |lines| && !IsHeader(lines[next])
      invariant start <= next <= start + n
      invariant SectionLines(EMPTY, section[..next - start]) == Ok(s)
      invariant s == Section(renameFrom, renameTo, binary, textOld, textNew, sawTextMarkers, hunks, current)
      decreases |lines| - next
    {
      var l := lines[next];
      NextInSection(section, next - start, s);
      next := next + 1;
      if "rename from " <= l {
        renameFrom := Some(l[12..]);
      } else if "rename to " <= l {
        renameTo := Some(l[10..]);
      } else if "Binary files " <= l {
        var m := ParseBinaryMarker(l[13..]);
        if m.Err? {
          return Err(m.error), next;
        }
        binary := Some(m.value);
      } else if current.None? && |hunks| == 0 && "--- " <= l {
        textOld := StripDiffPath(l[4..], 'a');
        sawTextMarkers := true;
      } else if current.None? && |hunks| == 0 && "+++ " <= l {
        textNew := StripDiffPath(l[4..], 'b');
        sawTextMarkers := true;
      } else if "@@ " <= l {
        if current.Some? {
          hunks := hunks + [current.value];
        }
        var h := ParseHunkHeader(l);
        if h.Err? {
          return Err(h.error), next;
        }
        current := Some(h.value);
      } else if "\\ No newline at end of file" <= l {
      } else if current.Some? && |l| > 0 {
        var kind := KindOf(l[0]);
        if kind.Some? {
          var h := current.value;
          current := Some(h.(segments := h.segments + [Segment(kind.value, l[1..])]));
        }
      }
      assert SectionLine(s, l)
          == Ok(Section(renameFrom, renameTo, binary, textOld, textNew, sawTextMarkers, hunks, current));
      s := SectionLine(s, l).value;
    }
    assert section[..n] == section;
    return Ok(Section(renameFrom, renameTo, binary, textOld, textNew, sawTextMarkers, hunks, current)), next;
  }

  /** Where a section ends, in terms of the whole text. */
  lemma SectionBounds(lines: seq<string>, start: nat)
    requires start <= |lines|
    ensures var n := SectionLength(lines[start..]);
            && start + n <= |lines|
            && (forall i :: start <= i < start + n ==> !IsHeader(lines[i]))
            && (start + n < |lines| ==> IsHeader(lines[start + n]))
  {
    var n := SectionLength(lines[start..]);
    forall i | start <= i < start + n ensures !IsHeader(lines[i]) {
      assert lines[start..][i - start] == lines[i];
    }
    if start + n < |lines| {
      assert lines[start..][n] == lines[start + n];
    }
  }

  lemma NextInSection(section: seq<string>, k: nat, s: Section)
    requires k < |section| && SectionLines(EMPTY, section[..k]) == Ok(s)
    ensures SectionLines(EMPTY, section[..k + 1]) == SectionLine(s, section[k])
    ensures SectionLine(s, section[k]).Err? ==> SectionLines(EMPTY, section) == SectionLine(s, section[k])
  {
    var before, l, after := section[..k], section[k], section[k + 1..];
    assert section[..k + 1] == before + [l] && section == before + [l] + after;
    FoldNext(SectionLine, EMPTY, before, l, after, s);
  }

  lemma PrependOne(entries: seq<Entry>, e: Entry, r: Result<seq<Entry>, DiffError>)
    ensures Prepended(entries, Prepended([e], r)) == Prepended(entries + [e], r)
    ensures Prepended([], r) == r
  {
    if r.Ok? {
      assert entries + ([e] + r.value) == (entries + [e]) + r.value;
      assert [] + r.value == r.value;
    }
  }

  /** One turn of the outer loop on the lines still to read. */
  lemma ParseHere(lines: seq<string>, i: nat)
    requires i < |lines|
    ensures !IsHeader(lines[i]) ==> ParseLines(lines[i..]) == ParseLines(lines[i + 1..])
    ensures IsHeader(lines[i]) ==>
              match ParseHead(lines[i], lines[i + 1..])
              case Err(e) => ParseLines(lines[i..]) == Err(e)
              case Ok((entry, n)) => ParseLines(lines[i..]) == Prepended([entry], ParseLines(lines[i + 1..][n..]))
  {
    var here := lines[i..];
    assert here[0] == lines[i] && here[1..] == lines[i + 1..];
  }

  /** The body of the outer loop for a header line. */
  method ParseFileAt(lines: seq<string>, i: nat) returns (r: Result<Entry, DiffError>, next: nat)
    requires i < |lines| && IsHeader(lines[i])
    ensures i < next <= |lines|
    ensures match ParseHead(lines[i], lines[i + 1..])
            case Ok((e, n)) => r == Ok(e) && next == i + 1 + n
            case Err(e) => r == Err(e)
  {
    var section;
    section, next := ParseSection(lines, i + 1);
    if section.Err? {
      return Err(section.error), next;
    }
    r := Finish(section.value, lines[i][11..]);
  }

  method ParseGitDiff(text: string) returns (r: Result<seq<Entry>, DiffError>)
    ensures r == ParseLines(Lines(text))
  {
    var lines := Lines(text);
    var entries: seq<Entry> := [];
    var i := 0;
    assert lines[0..] == lines;
    PrependOne([], Binary("", FileAdded), ParseLines(lines));
    while i < |lines|
      invariant 0 <= i <= |lines|
      invariant ParseLines(lines) == Prepended(entries, ParseLines(lines[i..]))
      decreases |lines| - i
    {
      ParseHere(lines, i);
      if !IsHeader(lines[i]) {
        i := i + 1;
        continue;
      }
      ghost var tail := lines[i + 1..];
      var entry, next := ParseFileAt(lines, i);
      if entry.Err? {
        return Err(entry.error);
      }
      assert tail[next - i - 1..] == lines[next..];
      i := next;
      PrependOne(entries, entry.value, ParseLines(lines[i..]));
      entries := entries + [entry.value];
    }
    assert ParseLines(lines[i..]) == Ok([]) && entries + [] == entries;
    r := Ok(entries);
  }
}
