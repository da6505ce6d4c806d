/** A printer for git-format diffs, and the proof that parsing undoes it. The printer can produce
    everything the parser's comment says it accepts: text changes, renames with or without hunks,
    binary changes, mode-only changes, extra header lines, section titles after a hunk header,
    counts of 1 left out, and end-of-file markers. */
module DiffPrinter {
  import opened Wrappers
  import opened Text
  import opened LineFold
  import opened GitDiff

  datatype PrintedSegment = PrintedSegment(kind: SegmentKind, text: string, noNewline: bool)

  datatype PrintedHunk = PrintedHunk(
    oldStart: nat, oldLines: nat, newStart: nat, newLines: nat, title: string, segments: seq<PrintedSegment>)

  /** `a` and `b` are the paths the `diff --git` line shows, which matter when no other line names any;
      `notes` are the extended header lines (modes, index, similarity). */
  datatype FileDiff =
    | TextFile(a: string, b: string, notes: seq<string>, oldPath: Option<string>, newPath: Option<string>,
               hunks: seq<PrintedHunk>)
    | RenamedFile(a: string, b: string, notes: seq<string>, from: string, to: string, markers: bool,
                  hunks: seq<PrintedHunk>)
    | BinaryFile(a: string, b: string, notes: seq<string>, path: string, status: ChangeKind)
    | HeaderOnly(a: string, b: string, notes: seq<string>)

  // ---- printing ----

  function PrintRange(start: nat, count: nat): string {
    if count == 1 then Decimal(start) else Decimal(start) + "," + Decimal(count)
  }

  function PrintHunkHeader(h: PrintedHunk): string {
    "@@ " + ("-" + PrintRange(h.oldStart, h.oldLines)) + " " + ("+" + PrintRange(h.newStart, h.newLines)) + " @@"
        + h.title
  }

  function KindChar(k: SegmentKind): char {
    match k case Context => ' ' case Added => '+' case Removed => '-'
  }

  const END_MARKER := "\\ No newline at end of file"

  function PrintSegment(g: PrintedSegment): seq<string> {
    [[KindChar(g.kind)] + g.text] + (if g.noNewline then [END_MARKER] else [])
  }

  function PrintSegments(segments: seq<PrintedSegment>): seq<string> {
    if segments == [] then [] else PrintSegment(segments[0]) + PrintSegments(segments[1..])
  }

  function PrintHunk(h: PrintedHunk): seq<string> {
    [PrintHunkHeader(h)] + PrintSegments(h.segments)
  }

  function PrintHunks(hunks: seq<PrintedHunk>): seq<string> {
    if hunks == [] then [] else PrintHunk(hunks[0]) + PrintHunks(hunks[1..])
  }

  function PrintSide(side: string, path: Option<string>): string {
    match path case None => "/dev/null" case Some(p) => side + p
  }

  function PrintMarkers(oldPath: Option<string>, newPath: Option<string>): seq<string> {
    ["--- " + PrintSide("a/", oldPath), "+++ " + PrintSide("b/", newPath)]
  }

  function PrintBinary(path: string, status: ChangeKind): string {
    (if status == FileAdded then "/dev/null" else "a/" + path) + " and "
    + (if status == FileDeleted then "/dev/null" else "b/" + path) + " differ"
  }

  function HeaderRest(a: string, b: string): string {
    "a/" + a + " b/" + b
  }

  function PrintHeader(f: FileDiff): string {
    HeaderRest(f.a, f.b)
  }

  function PrintBody(f: FileDiff): seq<string> {
    match f
    case TextFile(_, _, notes, o, n, hunks) => notes + PrintMarkers(o, n) + PrintHunks(hunks)
    case RenamedFile(_, _, notes, from, to, markers, hunks) =>
      notes + ["rename from " + from, "rename to " + to]
      + (if markers then PrintMarkers(Some(from), Some(to)) else []) + PrintHunks(hunks)
    case BinaryFile(_, _, notes, path, status) => notes + ["Binary files " + PrintBinary(path, status)]
    case HeaderOnly(_, _, notes) => notes
  }

  function PrintFiles(files: seq<FileDiff>): seq<string> {
    if files == [] then [] else ["diff --git " + PrintHeader(files[0])] + PrintBody(files[0]) + PrintFiles(files[1..])
  }

  // ---- what it means ----

  function MeantSegments(segments: seq<PrintedSegment>): seq<Segment> {
    if segments == [] then [] else [Segment(segments[0].kind, segments[0].text)] + MeantSegments(segments[1..])
  }

  function MeantHunk(h: PrintedHunk): Hunk {
    Hunk(h.oldStart, h.oldLines, h.newStart, h.newLines, MeantSegments(h.segments))
  }

  function MeantHunks(hunks: seq<PrintedHunk>): seq<Hunk> {
    if hunks == [] then [] else [MeantHunk(hunks[0])] + MeantHunks(hunks[1..])
  }

  function MeantFile(f: FileDiff): Entry {
    match f
    case TextFile(_, _, _, o, n, hunks) => Hunks(o, n, MeantHunks(hunks))
    case RenamedFile(_, _, _, from, to, _, hunks) => Hunks(Some(from), Some(to), MeantHunks(hunks))
    case BinaryFile(_, _, _, path, status) => Binary(path, status)
    case HeaderOnly(a, b, _) => Hunks(Some(a), Some(b), [])
  }

  function MeantFiles(files: seq<FileDiff>): seq<Entry> {
    if files == [] then [] else [MeantFile(files[0])] + MeantFiles(files[1..])
  }

  // ---- what may be printed ----

  /** An extended header line, which the parser skips. */
  predicate Ignorable(l: string) {
    && !IsHeader(l) && !("rename from " <= l) && !("rename to " <= l) && !("Binary files " <= l)
    && !("--- " <= l) && !("+++ " <= l) && !("@@ " <= l)
  }

  predicate NumbersFit(hunks: seq<PrintedHunk>) {
    forall h :: h in hunks ==> h.oldStart < U64 && h.oldLines < U64 && h.newStart < U64 && h.newLines < U64
  }

  /** The binary marker shows the old path first, so ` and ` must not end it early. */
  predicate BinaryPathOk(path: string, status: ChangeKind) {
    status == FileAdded || Find(path + " and ", " and ") == Some(|path|)
  }

  /** A change of modes alone, or a copy without hunks, has only the header line to tell its paths. */
  predicate ModePathOk(path: string) {
    Find(path + " b/", " b/") == Some(|path|)
  }

  /** No line break inside a line, and what the header lines of git cannot express otherwise. */
  predicate Printable(f: FileDiff) {
    && (forall l :: l in PrintBody(f) ==> '\n' !in l) && '\n' !in PrintHeader(f)
    && (forall l :: l in f.notes ==> Ignorable(l))
    && (f.BinaryFile? ==> BinaryPathOk(f.path, f.status))
    && (f.HeaderOnly? ==> ModePathOk(f.a))
  }

  predicate WellFormed(f: FileDiff) {
    Printable(f) && (f.TextFile? || f.RenamedFile? ==> NumbersFit(f.hunks))
  }

  // ---- the helpers undo the printer ----

  lemma RangeRoundTrip(start: nat, count: nat, sign: char)
    requires start < U64 && count < U64
    ensures ParseHunkRange([sign] + PrintRange(start, count), sign) == Ok((start, count))
  {
    var stripped := PrintRange(start, count);
    assert StripPrefix([sign] + stripped, [sign]) == Some(stripped);
    ParseDecimal(start);
    ParseDecimal(count);
    FindChar(Decimal(start), ',');
    if count != 1 {
      CleanOfChar(Decimal(start), ',');
      SplitOnceClean(Decimal(start), ",", Decimal(count));
    } else {
      ParseDecimal(1);
      assert Decimal(1) == "1";
    }
  }

  lemma RangeChars(start: nat, count: nat)
    ensures forall c :: c in PrintRange(start, count) ==> IsDigit(c) || c == ','
  {
  }

  lemma HunkHeaderRoundTrip(h: PrintedHunk)
    requires h.oldStart < U64 && h.oldLines < U64 && h.newStart < U64 && h.newLines < U64
    ensures ParseHunkHeader(PrintHunkHeader(h)) == Ok(MeantHunk(h).(segments := []))
  {
    var a, b := "-" + PrintRange(h.oldStart, h.oldLines), "+" + PrintRange(h.newStart, h.newLines);
    RangeChars(h.oldStart, h.oldLines);
    RangeChars(h.newStart, h.newLines);
    RangeRoundTrip(h.oldStart, h.oldLines, '-');
    RangeRoundTrip(h.newStart, h.newLines, '+');
    HeaderOfRanges(a, b, h.title, (h.oldStart, h.oldLines), (h.newStart, h.newLines));
  }

  lemma HeaderOfRanges(a: string, b: string, title: string, before: (nat, nat), after: (nat, nat))
    requires ' ' !in a && ' ' !in b && |b| > 0 && b[0] == '+'
    requires ParseHunkRange(a, '-') == Ok(before) && ParseHunkRange(b, '+') == Ok(after)
    ensures ParseHunkHeader("@@ " + a + " " + b + " @@" + title) == Ok(Hunk(before.0, before.1, after.0, after.1, []))
  {
    var rest := a + " " + b + " @@" + title;
    assert "@@ " + a + " " + b + " @@" + title == "@@ " + rest;
    SplitRanges(a, b, title);
    HeaderParts("@@ " + rest, rest, |a + " " + b|, a, b, before, after);
  }

  lemma HeaderParts(line: string, rest: string, end: nat, a: string, b: string, before: (nat, nat), after: (nat, nat))
    requires line == "@@ " + rest && Find(rest, " @@") == Some(end) && end <= |rest|
    requires Split(rest[..end], " ") == [a, b]
    requires ParseHunkRange(a, '-') == Ok(before) && ParseHunkRange(b, '+') == Ok(after)
    ensures ParseHunkHeader(line) == Ok(Hunk(before.0, before.1, after.0, after.1, []))
  {
    assert StripPrefix(line, "@@ ") == Some(rest);
    assert [a, b][0] == a && [a, b][1] == b;
  }

  lemma SplitRanges(a: string, b: string, title: string)
    requires ' ' !in a && ' ' !in b && |b| > 0 && b[0] == '+'
    ensures var rest := a + " " + b + " @@" + title;
            && Find(rest, " @@") == Some(|a + " " + b|)
            && Split(rest[..|a + " " + b|], " ") == [a, b]
  {
    var ranges := a + " " + b;
    RangesAreClean(a, b);
    FindAfterClean(ranges, " @@", title);
    assert (ranges + " @@" + title)[..|ranges|] == ranges;
    CleanOfChar(a, ' ');
    CleanOfChar(b, ' ');
    assert [a, b][1..] == [b];
    assert Join([a, b], " ") == ranges;
    SplitJoin([a, b], " ");
  }

  lemma RangesAreClean(a: string, b: string)
    requires ' ' !in a && ' ' !in b && |b| > 0 && b[0] == '+'
    ensures Clean(a + " " + b, " @@")
  {
    var s := a + " " + b + " @@";
    forall j | 0 <= j < |a + " " + b| ensures !OccursAt(s, " @@", j) {
      if j == |a| {
        NotAt(s, " @@", j, 1);
      } else {
        NotAt(s, " @@", j, 0);
      }
    }
  }

  lemma SideRoundTrip(path: Option<string>)
    ensures StripDiffPath(PrintSide("a/", path), 'a') == path
    ensures StripDiffPath(PrintSide("b/", path), 'b') == path
  {
    match path
    case None =>
    case Some(p) =>
      assert ("a/" + p)[0] == 'a' && ("b/" + p)[0] == 'b';
      assert ("a/" + p)[2..] == p && ("b/" + p)[2..] == p;
  }

  /** Exactly when a binary marker tells the truth: the first ` and ` is the separator. */
  lemma BinaryMarkerExact(path: string, status: ChangeKind)
    ensures var m := ParseBinaryMarker(PrintBinary(path, status));
            BinaryPathOk(path, status) <==> m == Ok(Marker(status != FileAdded, status != FileDeleted, Some(path)))
  {
    var left := if status == FileAdded then "/dev/null" else "a/" + path;
    var right := if status == FileDeleted then "/dev/null" else "b/" + path;
    var body := left + " and " + right;
    assert PrintBinary(path, status) == body + " differ";
    assert StripSuffix(body + " differ", " differ") == Some(body);
    SideRoundTrip(Some(path));
    if BinaryPathOk(path, status) {
      LeftIsClean(path, status);
      SplitOnceClean(left, " and ", right);
    } else {
      EarlySeparator(path, right);
    }
  }

  lemma LeftIsClean(path: string, status: ChangeKind)
    requires BinaryPathOk(path, status)
    ensures Clean(if status == FileAdded then "/dev/null" else "a/" + path, " and ")
  {
    var sep := " and ";
    if status == FileAdded {
      CleanOfLiteral();
    } else {
      var left := "a/" + path;
      forall j | 0 <= j < |left| ensures !OccursAt(left + sep, sep, j) {
        assert left + sep == "a/" + (path + sep);
        if j >= 2 {
          OccursInSuffix("a/", path + sep, sep, j - 2);
        } else {
          NotAt(left + sep, sep, j, 0);
        }
      }
    }
  }

  lemma CleanOfLiteral()
    ensures Clean("/dev/null", " and ")
  {
    forall j | 0 <= j < |"/dev/null"| ensures !OccursAt("/dev/null" + " and ", " and ", j) {
      NotAt("/dev/null" + " and ", " and ", j, 0);
    }
  }

  /** An early separator cuts the left path short, so what is left over on the right is too long. */
  lemma EarlySeparator(path: string, right: string)
    requires Find(path + " and ", " and ") != Some(|path|)
    ensures var m := SplitOnce("a/" + path + " and " + right, " and ");
            m.Some? && |m.value.1| > |right|
  {
    var sep, whole := " and ", path + " and ";
    assert whole[|path|..|path| + 5] == sep;
    assert OccursAt(whole, sep, |path|);
    var k := Find(whole, sep).value;
    var text := "a/" + path + sep + right;
    assert text == "a/" + (whole + right);
    OccursInPrefix(whole, right, sep, k);
    OccursInSuffix("a/", whole + right, sep, k);
    assert OccursAt(text, sep, 2 + k);
  }

  /** Exactly when a header alone tells its two paths, the old one first: its first ` b/` is the separator. */
  lemma ModeHeaderExact(old_: string, new_: string)
    ensures ModePathOk(old_) <==> ParseDiffGitHeader(HeaderRest(old_, new_)) == Ok((old_, new_))
  {
    var sep, whole := " b/", old_ + " b/";
    var rest := HeaderRest(old_, new_);
    assert StripPrefix(rest, "a/") == Some(whole + new_) by {
      assert rest == "a/" + (whole + new_);
    }
    assert whole[|old_|..|old_| + 3] == sep;
    assert OccursAt(whole, sep, |old_|);
    FindExtend(whole, new_, sep);
    assert (whole + new_)[..|old_|] == old_ && (whole + new_)[|old_| + 3..] == new_;
  }

  /** And of its line, which also loses one final CR. */
  lemma ModeLineExact(old_: string, new_: string)
    ensures ModePathOk(old_) && DropCr(new_) == new_ <==>
              ParseDiffGitHeader(DropCr(HeaderRest(old_, new_))) == Ok((old_, new_))
  {
    DropCrBehind("a/" + old_ + " b/", new_);
    var line := HeaderRest(old_, DropCr(new_));
    if DropCr(new_) == new_ {
      ModeHeaderExact(old_, new_);
    } else if ParseDiffGitHeader(line) == Ok((old_, new_)) {
      HeaderLength(line, old_, new_);
    }
  }

  lemma HeaderLength(line: string, old_: string, new_: string)
    requires "a/" <= line && ParseDiffGitHeader(line) == Ok((old_, new_))
    ensures |line| == |HeaderRest(old_, new_)|
  {
  }

  // ---- folding over printed lines ----

  lemma SectionLinesConcat(s: Section, a: seq<string>, b: seq<string>)
    requires SectionLines(s, a).Ok?
    ensures SectionLines(s, a + b) == SectionLines(SectionLines(s, a).value, b)
  {
    FoldConcat(SectionLine, s, a, b);
  }

  lemma TwoLines(s: Section, l: string, m: string)
    requires SectionLine(s, l).Ok?
    ensures SectionLines(s, [l, m]) == SectionLine(SectionLine(s, l).value, m)
  {
    assert [l, m] == [l] + [m];
    FoldConcat(SectionLine, s, [l], [m]);
    FoldOne(SectionLine, s, l);
    FoldOne(SectionLine, SectionLine(s, l).value, m);
  }

  lemma {:induction false} NotesAreSkipped(s: Section, notes: seq<string>)
    requires s.current.None? && forall l :: l in notes ==> Ignorable(l)
    ensures SectionLines(s, notes) == Ok(s)
    decreases |notes|
  {
    if notes != [] {
      assert notes[0] in notes;
      NotesAreSkipped(s, notes[1..]);
    }
  }

  /** A line that starts with a content character is content, whatever follows: `--- `, `+++ `,
      `@@ ` or `diff --git ` inside a file are not taken for diff syntax. */
  lemma ContentLine(s: Section, kind: SegmentKind, text: string)
    requires s.current.Some?
    ensures var h := s.current.value;
            SectionLine(s, [KindChar(kind)] + text)
                == Ok(s.(current := Some(h.(segments := h.segments + [Segment(kind, text)]))))
    ensures !IsHeader([KindChar(kind)] + text)
  {
    var l := [KindChar(kind)] + text;
    assert l[0] == KindChar(kind) && l[1..] == text;
    assert "rename from "[0] == 'r' && "rename to "[0] == 'r' && "Binary files "[0] == 'B' && "@@ "[0] == '@'
        && "\\ No newline at end of file"[0] == '\\' && "diff --git "[0] == 'd';
  }

  lemma EndMarkerIsSkipped(s: Section)
    requires s.current.Some?
    ensures SectionLine(s, END_MARKER) == Ok(s)
    ensures !IsHeader(END_MARKER)
  {
    assert END_MARKER[0] == '\\';
    assert "rename from "[0] == 'r' && "rename to "[0] == 'r' && "Binary files "[0] == 'B' && "@@ "[0] == '@'
        && "diff --git "[0] == 'd'
        && "--- "[0] == '-' && "+++ "[0] == '+';
  }

  ghost predicate NoHeaders(lines: seq<string>) {
    forall l :: l in lines ==> !IsHeader(l)
  }

  function Push(s: Section, segments: seq<Segment>): Section
    requires s.current.Some?
  {
    s.(current := Some(s.current.value.(segments := s.current.value.segments + segments)))
  }

  lemma PushTwice(s: Section, a: seq<Segment>, b: seq<Segment>)
    requires s.current.Some?
    ensures Push(Push(s, a), b) == Push(s, a + b)
  {
    var before := s.current.value.segments;
    assert (before + a) + b == before + (a + b);
  }

  lemma SegmentFold(s: Section, g: PrintedSegment)
    requires s.current.Some?
    ensures SectionLines(s, PrintSegment(g)) == Ok(Push(s, [Segment(g.kind, g.text)]))
    ensures NoHeaders(PrintSegment(g))
  {
    var l := [KindChar(g.kind)] + g.text;
    ContentLine(s, g.kind, g.text);
    var s' := Push(s, [Segment(g.kind, g.text)]);
    EndMarkerIsSkipped(s');
    FoldOne(SectionLine, s, l);
    TwoLines(s, l, END_MARKER);
    assert [l] + [] == [l] && [l] + [END_MARKER] == [l, END_MARKER];
  }

  lemma {:induction false} SegmentsFold(s: Section, segments: seq<PrintedSegment>)
    requires s.current.Some?
    ensures SectionLines(s, PrintSegments(segments)) == Ok(Push(s, MeantSegments(segments)))
    ensures NoHeaders(PrintSegments(segments))
    decreases |segments|
  {
    if segments == [] {
      assert s.current.value.segments + [] == s.current.value.segments;
    } else {
      var g, rest := segments[0], segments[1..];
      SegmentFold(s, g);
      SegmentsFold(Push(s, [Segment(g.kind, g.text)]), rest);
      SectionLinesConcat(s, PrintSegment(g), PrintSegments(rest));
      PushTwice(s, [Segment(g.kind, g.text)], MeantSegments(rest));
    }
  }

  lemma HunkHeaderLine(s: Section, h: PrintedHunk)
    requires h.oldStart < U64 && h.oldLines < U64 && h.newStart < U64 && h.newLines < U64
    ensures SectionLine(s, PrintHunkHeader(h))
              == Ok(s.(hunks := Closed(s), current := Some(MeantHunk(h).(segments := []))))
    ensures !IsHeader(PrintHunkHeader(h))
  {
    HunkHeaderRoundTrip(h);
    var l := PrintHunkHeader(h);
    assert l[0] == '@' && l[1] == '@' && l[2] == ' ' && l[..3] == "@@ ";
    HunkLine(s, l);
  }

  /** A line that opens with `@@ ` is read as a hunk header. */
  lemma HunkLine(s: Section, l: string)
    requires "@@ " <= l && ParseHunkHeader(l).Ok?
    ensures SectionLine(s, l) == Ok(s.(hunks := Closed(s), current := Some(ParseHunkHeader(l).value))) && !IsHeader(l)
  {
    assert l[0] == '@';
    StartsOtherwise(l, "rename from ");
    StartsOtherwise(l, "rename to ");
    StartsOtherwise(l, "Binary files ");
    StartsOtherwise(l, "--- ");
    StartsOtherwise(l, "+++ ");
    StartsOtherwise(l, "diff --git ");
  }

  lemma StartsOtherwise(l: string, prefix: string)
    requires l != "" && prefix != "" && prefix[0] != l[0]
    ensures !(prefix <= l)
  {
  }

  lemma HunkFold(s: Section, h: PrintedHunk)
    requires h.oldStart < U64 && h.oldLines < U64 && h.newStart < U64 && h.newLines < U64
    ensures SectionLines(s, PrintHunk(h)) == Ok(s.(hunks := Closed(s), current := Some(MeantHunk(h))))
    ensures NoHeaders(PrintHunk(h))
  {
    HunkHeaderLine(s, h);
    var s' := SectionLine(s, PrintHunkHeader(h)).value;
    FoldOne(SectionLine, s, PrintHunkHeader(h));
    SegmentsFold(s', h.segments);
    assert [] + MeantSegments(h.segments) == MeantSegments(h.segments);
    SectionLinesConcat(s, [PrintHunkHeader(h)], PrintSegments(h.segments));
  }

  /** `s'` differs from `s` by more hunks at the end. */
  predicate AddsHunks(s: Section, s': Section, hunks: seq<Hunk>) {
    Closed(s') == Closed(s) + hunks && s'.(hunks := s.hunks, current := s.current) == s
  }

  lemma AddsHunksThen(s: Section, h: Hunk, s': Section, hunks: seq<Hunk>)
    requires AddsHunks(s.(hunks := Closed(s), current := Some(h)), s', hunks)
    ensures AddsHunks(s, s', [h] + hunks)
  {
    assert (Closed(s) + [h]) + hunks == Closed(s) + ([h] + hunks);
  }

  lemma {:induction false} HunksFold(s: Section, hunks: seq<PrintedHunk>)
    requires NumbersFit(hunks)
    ensures SectionLines(s, PrintHunks(hunks)).Ok?
    ensures AddsHunks(s, SectionLines(s, PrintHunks(hunks)).value, MeantHunks(hunks))
    ensures NoHeaders(PrintHunks(hunks))
    decreases |hunks|
  {
    if hunks == [] {
      assert Closed(s) + [] == Closed(s);
    } else {
      var h, rest := hunks[0], hunks[1..];
      assert h in hunks;
      HunkFold(s, h);
      var s1 := s.(hunks := Closed(s), current := Some(MeantHunk(h)));
      HunksFold(s1, rest);
      SectionLinesConcat(s, PrintHunk(h), PrintHunks(rest));
      AddsHunksThen(s, MeantHunk(h), SectionLines(s1, PrintHunks(rest)).value, MeantHunks(rest));
    }
  }

  lemma OldMarkerLine(s: Section, o: Option<string>)
    requires s.current.None? && s.hunks == []
    ensures var l := "--- " + PrintSide("a/", o);
            SectionLine(s, l) == Ok(s.(textOld := o, sawTextMarkers := true)) && !IsHeader(l)
  {
    var l := "--- " + PrintSide("a/", o);
    assert l[0] == '-' && l[4..] == PrintSide("a/", o);
    StartsOtherwise(l, "rename from ");
    StartsOtherwise(l, "rename to ");
    StartsOtherwise(l, "Binary files ");
    StartsOtherwise(l, "diff --git ");
    SideRoundTrip(o);
  }

  lemma NewMarkerLine(s: Section, n: Option<string>)
    requires s.current.None? && s.hunks == []
    ensures var m := "+++ " + PrintSide("b/", n);
            SectionLine(s, m) == Ok(s.(textNew := n, sawTextMarkers := true)) && !IsHeader(m)
  {
    var m := "+++ " + PrintSide("b/", n);
    assert m[0] == '+' && m[4..] == PrintSide("b/", n);
    StartsOtherwise(m, "rename from ");
    StartsOtherwise(m, "rename to ");
    StartsOtherwise(m, "Binary files ");
    StartsOtherwise(m, "--- ");
    StartsOtherwise(m, "diff --git ");
    SideRoundTrip(n);
  }

  lemma MarkersFold(s: Section, o: Option<string>, n: Option<string>)
    requires s.current.None? && s.hunks == []
    ensures SectionLines(s, PrintMarkers(o, n)) == Ok(s.(textOld := o, textNew := n, sawTextMarkers := true))
    ensures NoHeaders(PrintMarkers(o, n))
  {
    OldMarkerLine(s, o);
    NewMarkerLine(s.(textOld := o, sawTextMarkers := true), n);
    TwoLines(s, "--- " + PrintSide("a/", o), "+++ " + PrintSide("b/", n));
  }

  lemma RenameFold(s: Section, from: string, to: string)
    ensures var lines := ["rename from " + from, "rename to " + to];
            SectionLines(s, lines) == Ok(s.(renameFrom := Some(from), renameTo := Some(to))) && NoHeaders(lines)
  {
    var l, m := "rename from " + from, "rename to " + to;
    assert l[12..] == from && m[10..] == to;
    assert l[0] == 'r' && m[0] == 'r' && m[7] == 't' && "rename from "[7] == 'f' && "diff --git "[0] == 'd';
    TwoLines(s, l, m);
  }

  lemma BinaryLine(s: Section, rest: string, m: Marker)
    requires ParseBinaryMarker(rest) == Ok(m)
    ensures SectionLine(s, "Binary files " + rest) == Ok(s.(binary := Some(m))) && !IsHeader("Binary files " + rest)
  {
    var l := "Binary files " + rest;
    assert l[..13] == "Binary files " && l[13..] == rest;
    assert l[0] == 'B' && "rename from "[0] == 'r' && "rename to "[0] == 'r' && "diff --git "[0] == 'd';
  }

  lemma BinaryFold(s: Section, path: string, status: ChangeKind)
    requires BinaryPathOk(path, status)
    ensures var lines := ["Binary files " + PrintBinary(path, status)];
            && SectionLines(s, lines)
                == Ok(s.(binary := Some(Marker(status != FileAdded, status != FileDeleted, Some(path)))))
            && NoHeaders(lines)
  {
    var m := Marker(status != FileAdded, status != FileDeleted, Some(path));
    BinaryMarkerExact(path, status);
    BinaryLine(s, PrintBinary(path, status), m);
    FoldOne(SectionLine, s, "Binary files " + PrintBinary(path, status));
  }

  lemma NotesHaveNoHeaders(notes: seq<string>)
    requires forall l :: l in notes ==> Ignorable(l)
    ensures NoHeaders(notes)
  {
  }

  /** One printed section parses to what it means. */
  lemma FileFold(f: FileDiff)
    requires WellFormed(f)
    ensures NoHeaders(PrintBody(f))
    ensures SectionLines(EMPTY, PrintBody(f)).Ok?
    ensures Finish(SectionLines(EMPTY, PrintBody(f)).value, PrintHeader(f)) == Ok(MeantFile(f))
  {
    NotesAreSkipped(EMPTY, f.notes);
    NotesHaveNoHeaders(f.notes);
    match f
    case TextFile(_, _, notes, o, n, hunks) => TextFold(f);
    case RenamedFile(_, _, _, _, _, _, _) => RenamedFold(f);
    case BinaryFile(_, _, notes, path, status) =>
      BinaryFold(EMPTY, path, status);
      SectionLinesConcat(EMPTY, notes, ["Binary files " + PrintBinary(path, status)]);
    case HeaderOnly(a, b, notes) =>
      ModeHeaderExact(a, b);
  }

  lemma TextFold(f: FileDiff)
    requires f.TextFile? && WellFormed(f)
    ensures NoHeaders(PrintBody(f)) && SectionLines(EMPTY, PrintBody(f)).Ok?
    ensures Finish(SectionLines(EMPTY, PrintBody(f)).value, PrintHeader(f)) == Ok(MeantFile(f))
  {
    var TextFile(_, _, notes, o, n, hunks) := f;
    NotesAreSkipped(EMPTY, notes);
    NotesHaveNoHeaders(notes);
    MarkersFold(EMPTY, o, n);
    var s := SectionLines(EMPTY, PrintMarkers(o, n)).value;
    HunksFold(s, hunks);
    SectionLinesConcat(EMPTY, notes, PrintMarkers(o, n));
    SectionLinesConcat(EMPTY, notes + PrintMarkers(o, n), PrintHunks(hunks));
    TextFinish(SectionLines(s, PrintHunks(hunks)).value, PrintHeader(f), o, n, MeantHunks(hunks));
  }

  lemma TextFinish(s: Section, header: string, o: Option<string>, n: Option<string>, hunks: seq<Hunk>)
    requires AddsHunks(EMPTY.(textOld := o, textNew := n, sawTextMarkers := true), s, hunks)
    ensures Finish(s, header) == Ok(Hunks(o, n, hunks))
  {
    assert [] + hunks == hunks;
  }

  lemma RenamedFold(f: FileDiff)
    requires f.RenamedFile? && WellFormed(f)
    ensures NoHeaders(PrintBody(f)) && SectionLines(EMPTY, PrintBody(f)).Ok?
    ensures Finish(SectionLines(EMPTY, PrintBody(f)).value, PrintHeader(f)) == Ok(MeantFile(f))
  {
    var RenamedFile(_, _, notes, from, to, markers, hunks) := f;
    var rename := ["rename from " + from, "rename to " + to];
    var marks := if markers then PrintMarkers(Some(from), Some(to)) else [];
    NotesAreSkipped(EMPTY, notes);
    NotesHaveNoHeaders(notes);
    RenameFold(EMPTY, from, to);
    var s1 := SectionLines(EMPTY, rename).value;
    if markers { MarkersFold(s1, Some(from), Some(to)); }
    var s2 := SectionLines(s1, marks).value;
    HunksFold(s2, hunks);
    SectionLinesConcat(EMPTY, notes, rename);
    SectionLinesConcat(EMPTY, notes + rename, marks);
    SectionLinesConcat(EMPTY, notes + rename + marks, PrintHunks(hunks));
    assert [] + MeantHunks(hunks) == MeantHunks(hunks);
  }

  // ---- the whole text ----

  lemma {:induction false} SectionLengthOf(body: seq<string>, later: seq<string>)
    requires NoHeaders(body) && (later != [] ==> IsHeader(later[0]))
    ensures SectionLength(body + later) == |body|
  {
    if body == [] {
      assert body + later == later;
    } else {
      assert (body + later)[0] == body[0] && (body + later)[1..] == body[1..] + later;
      assert body[0] in body;
      SectionLengthOf(body[1..], later);
    }
  }

  /** A section in front of other sections. */
  lemma ParseFirst(header: string, body: seq<string>, rest: seq<string>, s: Section, e: Entry)
    requires IsHeader(header) && NoHeaders(body) && (rest != [] ==> IsHeader(rest[0]))
    requires SectionLines(EMPTY, body) == Ok(s) && Finish(s, header[11..]) == Ok(e)
    ensures ParseLines([header] + body + rest) == Prepended([e], ParseLines(rest))
  {
    var lines, tail := [header] + body + rest, body + rest;
    SectionLengthOf(body, rest);
    assert lines[0] == header && lines[1..] == tail;
    assert tail[..|body|] == body && tail[|body|..] == rest;
  }

  lemma {:induction false} ParsePrinted(files: seq<FileDiff>)
    requires forall f :: f in files ==> WellFormed(f)
    ensures ParseLines(PrintFiles(files)) == Ok(MeantFiles(files))
    ensures files != [] ==> PrintFiles(files) != [] && IsHeader(PrintFiles(files)[0])
    decreases |files|
  {
    if files != [] {
      var f := files[0];
      assert f in files;
      ParsePrinted(files[1..]);
      FileFold(f);
      var header := "diff --git " + PrintHeader(f);
      assert header[..11] == "diff --git " && header[11..] == PrintHeader(f);
      ParseFirst(header, PrintBody(f), PrintFiles(files[1..]), SectionLines(EMPTY, PrintBody(f)).value, MeantFile(f));
    }
  }

  lemma {:induction false} PrintedLinesHaveNoBreaks(files: seq<FileDiff>)
    requires forall f :: f in files ==> WellFormed(f)
    ensures forall l :: l in PrintFiles(files) ==> '\n' !in l
    decreases |files|
  {
    if files != [] {
      assert files[0] in files;
      PrintedLinesHaveNoBreaks(files[1..]);
    }
  }

  // ---- lines that end in CR ----

  function ShornPath(path: Option<string>): Option<string> {
    match path case None => None case Some(p) => Some(DropCr(p))
  }

  function ShornSegments(segments: seq<PrintedSegment>): seq<PrintedSegment> {
    if segments == [] then [] else [segments[0].(text := DropCr(segments[0].text))] + ShornSegments(segments[1..])
  }

  function ShornHunk(h: PrintedHunk): PrintedHunk {
    h.(title := DropCr(h.title), segments := ShornSegments(h.segments))
  }

  function ShornHunks(hunks: seq<PrintedHunk>): seq<PrintedHunk> {
    if hunks == [] then [] else [ShornHunk(hunks[0])] + ShornHunks(hunks[1..])
  }

  /** The file with one trailing CR dropped wherever a printed line would end in it. */
  function Shorn(f: FileDiff): FileDiff {
    match f
    case TextFile(a, b, notes, o, n, hunks) =>
      TextFile(a, DropCr(b), DropCrs(notes), ShornPath(o), ShornPath(n), ShornHunks(hunks))
    case RenamedFile(a, b, notes, from, to, markers, hunks) =>
      RenamedFile(a, DropCr(b), DropCrs(notes), DropCr(from), DropCr(to), markers, ShornHunks(hunks))
    case BinaryFile(a, b, notes, path, status) => BinaryFile(a, DropCr(b), DropCrs(notes), path, status)
    case HeaderOnly(a, b, notes) => HeaderOnly(a, DropCr(b), DropCrs(notes))
  }

  function ShornFiles(files: seq<FileDiff>): (r: seq<FileDiff>)
    ensures |r| == |files| && forall i :: 0 <= i < |r| ==> r[i] == Shorn(files[i])
  {
    if files == [] then [] else [Shorn(files[0])] + ShornFiles(files[1..])
  }

  lemma ShornSegmentLines(g: PrintedSegment)
    ensures DropCrs(PrintSegment(g)) == PrintSegment(g.(text := DropCr(g.text)))
  {
    var l := [KindChar(g.kind)] + g.text;
    DropCrBehind([KindChar(g.kind)], g.text);
    OneLine(l);
    OneLine(END_MARKER);
    DropCrsConcat([l], if g.noNewline then [END_MARKER] else []);
  }

  lemma OneLine(l: string)
    ensures DropCrs([l]) == [DropCr(l)]
  {
    assert DropCrs([l]) == [DropCr(l)] + DropCrs([]);
  }

  lemma {:induction false} ShornSegmentsLines(segments: seq<PrintedSegment>)
    ensures DropCrs(PrintSegments(segments)) == PrintSegments(ShornSegments(segments))
  {
    if segments != [] {
      ShornSegmentLines(segments[0]);
      ShornSegmentsLines(segments[1..]);
      DropCrsConcat(PrintSegment(segments[0]), PrintSegments(segments[1..]));
    }
  }

  lemma ShornHunkLines(h: PrintedHunk)
    ensures DropCrs(PrintHunk(h)) == PrintHunk(ShornHunk(h))
  {
    var front := "@@ " + ("-" + PrintRange(h.oldStart, h.oldLines)) + " " + ("+" + PrintRange(h.newStart, h.newLines))
        + " @@";
    DropCrBehind(front, h.title);
    OneLine(PrintHunkHeader(h));
    ShornSegmentsLines(h.segments);
    DropCrsConcat([PrintHunkHeader(h)], PrintSegments(h.segments));
  }

  lemma {:induction false} ShornHunksLines(hunks: seq<PrintedHunk>)
    ensures DropCrs(PrintHunks(hunks)) == PrintHunks(ShornHunks(hunks))
  {
    if hunks != [] {
      ShornHunkLines(hunks[0]);
      ShornHunksLines(hunks[1..]);
      DropCrsConcat(PrintHunk(hunks[0]), PrintHunks(hunks[1..]));
    }
  }

  lemma ShornSide(front: string, side: string, path: Option<string>)
    requires side != "" && side[|side| - 1] != '\r'
    ensures DropCr(front + PrintSide(side, path)) == front + PrintSide(side, ShornPath(path))
  {
    DropCrBehind(front, PrintSide(side, path));
    if path.Some? {
      DropCrBehind(side, path.value);
    }
  }

  lemma TwoShorn(l: string, m: string)
    ensures DropCrs([l, m]) == [DropCr(l), DropCr(m)]
  {
    assert [l, m] == [l] + [m];
    DropCrsConcat([l], [m]);
    OneLine(l);
    OneLine(m);
  }

  lemma ShornMarkers(o: Option<string>, n: Option<string>)
    ensures DropCrs(PrintMarkers(o, n)) == PrintMarkers(ShornPath(o), ShornPath(n))
  {
    ShornSide("--- ", "a/", o);
    ShornSide("+++ ", "b/", n);
    TwoShorn("--- " + PrintSide("a/", o), "+++ " + PrintSide("b/", n));
  }

  lemma ShornRename(from: string, to: string)
    ensures DropCrs(["rename from " + from, "rename to " + to])
              == ["rename from " + DropCr(from), "rename to " + DropCr(to)]
  {
    DropCrBehind("rename from ", from);
    DropCrBehind("rename to ", to);
    TwoShorn("rename from " + from, "rename to " + to);
  }

  lemma ShornBinary(path: string, status: ChangeKind)
    ensures DropCrs(["Binary files " + PrintBinary(path, status)]) == ["Binary files " + PrintBinary(path, status)]
  {
    var l := "Binary files " + PrintBinary(path, status);
    OneLine(l);
    assert l[|l| - 1] == 'r';
  }

  lemma ShornBody(f: FileDiff)
    ensures DropCrs(PrintBody(f)) == PrintBody(Shorn(f))
  {
    match f
    case TextFile(_, _, notes, o, n, hunks) =>
      DropCrsConcat(notes + PrintMarkers(o, n), PrintHunks(hunks));
      DropCrsConcat(notes, PrintMarkers(o, n));
      ShornMarkers(o, n);
      ShornHunksLines(hunks);
    case RenamedFile(_, _, notes, from, to, markers, hunks) =>
      var rename := ["rename from " + from, "rename to " + to];
      var marks := if markers then PrintMarkers(Some(from), Some(to)) else [];
      DropCrsConcat(notes + rename + marks, PrintHunks(hunks));
      DropCrsConcat(notes + rename, marks);
      DropCrsConcat(notes, rename);
      ShornRename(from, to);
      ShornMarkers(Some(from), Some(to));
      ShornHunksLines(hunks);
    case BinaryFile(_, _, notes, path, status) =>
      DropCrsConcat(notes, ["Binary files " + PrintBinary(path, status)]);
      ShornBinary(path, status);
    case HeaderOnly(_, _, notes) =>
  }

  lemma ShornHeader(f: FileDiff)
    requires Printable(f)
    ensures DropCr("diff --git " + PrintHeader(f)) == "diff --git " + PrintHeader(Shorn(f))
  {
    var a, b := f.a, f.b;
    DropCrBehind("diff --git ", PrintHeader(f));
    DropCrBehind("a/" + a + " b/", b);
  }

  lemma {:induction false} ShornLines(files: seq<FileDiff>)
    requires forall f :: f in files ==> WellFormed(f)
    ensures DropCrs(PrintFiles(files)) == PrintFiles(ShornFiles(files))
  {
    if files != [] {
      var f := files[0];
      assert f in files;
      var header := ["diff --git " + PrintHeader(f)];
      ShornLines(files[1..]);
      DropCrsConcat(header + PrintBody(f), PrintFiles(files[1..]));
      DropCrsConcat(header, PrintBody(f));
      OneLine(header[0]);
      ShornHeader(f);
      ShornBody(f);
    }
  }

  lemma {:induction false} ShornNotes(notes: seq<string>)
    requires forall l :: l in notes ==> Ignorable(l)
    ensures forall l :: l in DropCrs(notes) ==> Ignorable(l)
  {
    if notes != [] {
      assert notes[0] in notes;
      ShornNotes(notes[1..]);
    }
  }

  lemma {:induction false} ShornNumbers(hunks: seq<PrintedHunk>)
    requires NumbersFit(hunks)
    ensures NumbersFit(ShornHunks(hunks))
  {
    if hunks != [] {
      assert hunks[0] in hunks;
      ShornNumbers(hunks[1..]);
    }
  }

  lemma {:induction false} DropCrsHaveNoBreaks(lines: seq<string>)
    requires forall l :: l in lines ==> '\n' !in l
    ensures forall l :: l in DropCrs(lines) ==> '\n' !in l
  {
    if lines != [] {
      assert lines[0] in lines;
      DropCrsHaveNoBreaks(lines[1..]);
    }
  }

  lemma ShornIsWellFormed(f: FileDiff)
    requires WellFormed(f)
    ensures WellFormed(Shorn(f))
  {
    ShornNotes(f.notes);
    ShornBody(f);
    DropCrsHaveNoBreaks(PrintBody(f));
    ShornHeader(f);
    ShornHeaderHasNoBreak("diff --git ", PrintHeader(f), PrintHeader(Shorn(f)));
    if f.TextFile? || f.RenamedFile? {
      ShornNumbers(f.hunks);
    }
  }

  lemma ShornHeaderHasNoBreak(front: string, header: string, shorn: string)
    requires '\n' !in front && '\n' !in header && DropCr(front + header) == front + shorn
    ensures '\n' !in shorn
  {
    assert forall i :: 0 <= i < |shorn| ==> shorn[i] == (front + shorn)[|front| + i] == (front + header)[|front| + i];
  }

  // ---- main results ----

  /** Diff round trip: parsing the printed text of any well-formed files gives back those files, each
      line less one final CR. */
  lemma DiffRoundTrip(files: seq<FileDiff>)
    requires forall f :: f in files ==> WellFormed(f)
    ensures ParseLines(Lines(Unlines(PrintFiles(files)))) == Ok(MeantFiles(ShornFiles(files)))
  {
    PrintedLinesHaveNoBreaks(files);
    LinesUnlines(PrintFiles(files));
    ShornLines(files);
    forall f | f in ShornFiles(files) ensures WellFormed(f) {
      var i :| 0 <= i < |files| && ShornFiles(files)[i] == f;
      assert files[i] in files;
      ShornIsWellFormed(files[i]);
    }
    ParsePrinted(ShornFiles(files));
  }

  predicate CrFreePath(path: Option<string>) {
    path.Some? ==> DropCr(path.value) == path.value
  }

  predicate CrFreeHunks(hunks: seq<PrintedHunk>) {
    forall h, g :: h in hunks && g in h.segments ==> DropCr(g.text) == g.text
  }

  /** No path that a diff line ends with, and no content line, ends in CR. */
  predicate CrFree(f: FileDiff) {
    match f
    case TextFile(_, _, _, o, n, hunks) => CrFreePath(o) && CrFreePath(n) && CrFreeHunks(hunks)
    case RenamedFile(_, _, _, from, to, _, hunks) =>
      CrFreePath(Some(from)) && CrFreePath(Some(to)) && CrFreeHunks(hunks)
    case HeaderOnly(_, b, _) => CrFreePath(Some(b))
    case BinaryFile(_, _, _, _, _) => true
  }

  lemma {:induction false} CrFreeSegmentsExact(segments: seq<PrintedSegment>)
    ensures MeantSegments(ShornSegments(segments)) == MeantSegments(segments) <==>
              forall g :: g in segments ==> DropCr(g.text) == g.text
  {
    if segments != [] {
      CrFreeSegmentsExact(segments[1..]);
      var shorn := ShornSegments(segments);
      assert shorn[1..] == ShornSegments(segments[1..]);
      SameCons(Segment(shorn[0].kind, shorn[0].text), MeantSegments(shorn[1..]),
               Segment(segments[0].kind, segments[0].text), MeantSegments(segments[1..]));
      SplitMember(segments);
    }
  }

  lemma SameCons<T>(x: T, s: seq<T>, y: T, t: seq<T>)
    ensures [x] + s == [y] + t <==> x == y && s == t
  {
    if [x] + s == [y] + t {
      assert ([x] + s)[0] == ([y] + t)[0];
      DropFront([x], s);
      DropFront([y], t);
    }
  }

  lemma SplitMember<T>(s: seq<T>)
    requires s != []
    ensures forall g :: g in s <==> g == s[0] || g in s[1..]
  {
    assert s == [s[0]] + s[1..];
  }

  lemma {:induction false} CrFreeHunksExact(hunks: seq<PrintedHunk>)
    ensures MeantHunks(ShornHunks(hunks)) == MeantHunks(hunks) <==> CrFreeHunks(hunks)
  {
    if hunks != [] {
      var h := hunks[0];
      CrFreeHunksExact(hunks[1..]);
      CrFreeSegmentsExact(h.segments);
      assert ShornHunks(hunks)[1..] == ShornHunks(hunks[1..]);
      SameCons(MeantHunk(ShornHunk(h)), MeantHunks(ShornHunks(hunks[1..])), MeantHunk(h), MeantHunks(hunks[1..]));
      SplitMember(hunks);
    }
  }

  lemma CrFreeExact(f: FileDiff)
    ensures MeantFile(Shorn(f)) == MeantFile(f) <==> CrFree(f)
  {
    if f.TextFile? || f.RenamedFile? {
      CrFreeHunksExact(f.hunks);
    }
  }

  lemma {:induction false} CrFreeFilesExact(files: seq<FileDiff>)
    ensures MeantFiles(ShornFiles(files)) == MeantFiles(files) <==> forall f :: f in files ==> CrFree(f)
  {
    if files != [] {
      CrFreeExact(files[0]);
      CrFreeFilesExact(files[1..]);
      assert ShornFiles(files)[1..] == ShornFiles(files[1..]);
      SameCons(MeantFile(Shorn(files[0])), MeantFiles(ShornFiles(files[1..])), MeantFile(files[0]),
               MeantFiles(files[1..]));
      SplitMember(files);
    }
  }

  /** The round trip is exact precisely when no path and no content line ends in CR. */
  lemma DiffRoundTripExact(files: seq<FileDiff>)
    requires forall f :: f in files ==> WellFormed(f)
    ensures ParseLines(Lines(Unlines(PrintFiles(files)))) == Ok(MeantFiles(files)) <==>
              forall f :: f in files ==> CrFree(f)
  {
    DiffRoundTrip(files);
    CrFreeFilesExact(files);
  }
}
