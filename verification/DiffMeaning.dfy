/** What a parsed diff means: for any edit script, cut into hunks anywhere, the hunks that come out of
    the parser patch the old file into the new one, and their headers name the lines they hold. */
module DiffMeaning {
  import opened Wrappers
  import opened Text
  import opened GitDiff
  import opened DiffPrinter

  /** `noNewline` is set where the line is a file's last one and no newline ends it. */
  datatype Edit =
    | Keep(line: string, noNewline: bool)
    | Delete(line: string, noNewline: bool)
    | Insert(line: string, noNewline: bool)

  /** An edit script cut into hunks: unchanged lines that are left out, and edits that are shown. */
  datatype Piece = Gap(lines: seq<string>) | Shown(edits: seq<Edit>, title: string)

  function OldLines(edits: seq<Edit>): seq<string> {
    if edits == [] then []
    else (if edits[0].Insert? then [] else [edits[0].line]) + OldLines(edits[1..])
  }

  function NewLines(edits: seq<Edit>): seq<string> {
    if edits == [] then []
    else (if edits[0].Delete? then [] else [edits[0].line]) + NewLines(edits[1..])
  }

  function OldFile(pieces: seq<Piece>): seq<string> {
    if pieces == [] then []
    else (match pieces[0] case Gap(ls) => ls case Shown(es, _) => OldLines(es)) + OldFile(pieces[1..])
  }

  function NewFile(pieces: seq<Piece>): seq<string> {
    if pieces == [] then []
    else (match pieces[0] case Gap(ls) => ls case Shown(es, _) => NewLines(es)) + NewFile(pieces[1..])
  }

  function KindOfEdit(e: Edit): SegmentKind {
    match e case Keep(_, _) => Context case Delete(_, _) => Removed case Insert(_, _) => Added
  }

  function SegmentsOf(edits: seq<Edit>): seq<PrintedSegment> {
    if edits == [] then []
    else [PrintedSegment(KindOfEdit(edits[0]), edits[0].line, edits[0].noNewline)] + SegmentsOf(edits[1..])
  }

  /** A range starts at its first line, or, when it is empty, at the line before it. */
  function Start(position: nat, count: nat): nat {
    if count == 0 then position else position + 1
  }

  function HunkOf(edits: seq<Edit>, title: string, oldAt: nat, newAt: nat): PrintedHunk {
    var o, n := |OldLines(edits)|, |NewLines(edits)|;
    PrintedHunk(Start(oldAt, o), o, Start(newAt, n), n, title, SegmentsOf(edits))
  }

  function HunksOf(pieces: seq<Piece>, oldAt: nat, newAt: nat): seq<PrintedHunk> {
    if pieces == [] then []
    else
      match pieces[0]
      case Gap(ls) => HunksOf(pieces[1..], oldAt + |ls|, newAt + |ls|)
      case Shown(es, title) =>
        [HunkOf(es, title, oldAt, newAt)] + HunksOf(pieces[1..], oldAt + |OldLines(es)|, newAt + |NewLines(es)|)
  }

  // ---- reading hunks back ----

  function OldSide(segments: seq<Segment>): seq<string> {
    if segments == [] then []
    else (if segments[0].kind == Added then [] else [segments[0].text]) + OldSide(segments[1..])
  }

  function NewSide(segments: seq<Segment>): seq<string> {
    if segments == [] then []
    else (if segments[0].kind == Removed then [] else [segments[0].text]) + NewSide(segments[1..])
  }

  /** The lines of `file` that a header range names. */
  function Named(file: seq<string>, start: nat, count: nat): Option<seq<string>> {
    if count > 0 && start == 0 then None
    else
      var from := if count == 0 then start else start - 1;
      if from + count <= |file| then Some(file[from..from + count]) else None
  }

  /** Applies hunks to `old` from line `at`; None when a hunk does not fit there. */
  function Patch(hunks: seq<Hunk>, old_: seq<string>, at: nat): Option<seq<string>>
    requires at <= |old_|
  {
    if hunks == [] then Some(old_[at..])
    else
      var h := hunks[0];
      var from := if h.oldLines == 0 then h.oldStart else h.oldStart - 1;
      if from < at || Named(old_, h.oldStart, h.oldLines) != Some(OldSide(h.segments)) then None
      else
        match Patch(hunks[1..], old_, from + h.oldLines)
        case None => None
        case Some(rest) => Some(old_[at..from] + NewSide(h.segments) + rest)
  }

  // ---- the proofs ----

  lemma {:induction false} SidesOfScript(edits: seq<Edit>)
    ensures OldSide(MeantSegments(SegmentsOf(edits))) == OldLines(edits)
    ensures NewSide(MeantSegments(SegmentsOf(edits))) == NewLines(edits)
  {
    if edits != [] {
      SidesOfScript(edits[1..]);
    }
  }

  /** Header and content of one hunk agree, with both files. */
  ghost predicate HunkFits(h: Hunk, oldFile: seq<string>, newFile: seq<string>) {
    && Named(oldFile, h.oldStart, h.oldLines) == Some(OldSide(h.segments))
    && Named(newFile, h.newStart, h.newLines) == Some(NewSide(h.segments))
  }

  /** A file that goes on with `part` and then `tail` from line `at`. */
  lemma SplitAt(file: seq<string>, at: nat, part: seq<string>, tail: seq<string>)
    requires at <= |file| && file[at..] == part + tail
    ensures at + |part| <= |file| && file[at..at + |part|] == part && file[at + |part|..] == tail
    ensures Named(file, Start(at, |part|), |part|) == Some(part)
  {
    assert file[at..][..|part|] == part && file[at..][|part|..] == tail;
  }

  lemma PatchFirst(h: Hunk, hunks: seq<Hunk>, file: seq<string>, from: nat, at: nat, result: seq<string>)
    requires at <= from <= |file| && h.oldStart == Start(from, h.oldLines)
    requires Named(file, h.oldStart, h.oldLines) == Some(OldSide(h.segments))
    requires Patch(hunks, file, from + h.oldLines) == Some(result)
    ensures Patch([h] + hunks, file, at) == Some(file[at..from] + NewSide(h.segments) + result)
  {
    assert ([h] + hunks)[1..] == hunks;
  }

  lemma KeepGap(file: seq<string>, at: nat, oldAt: nat, ls: seq<string>, result: seq<string>)
    requires at <= oldAt && oldAt + |ls| <= |file| && file[oldAt..oldAt + |ls|] == ls
    ensures file[at..oldAt + |ls|] + result == file[at..oldAt] + (ls + result)
  {
    assert file[at..oldAt + |ls|] == file[at..oldAt] + ls;
  }

  /** Patching from the middle of a script on: the lines up to `oldAt` are already done. */
  lemma {:induction false} PatchFrom(pieces: seq<Piece>, file: seq<string>, oldAt: nat, newAt: nat, at: nat)
    requires at <= oldAt <= |file| && file[oldAt..] == OldFile(pieces)
    ensures Patch(MeantHunks(HunksOf(pieces, oldAt, newAt)), file, at) == Some(file[at..oldAt] + NewFile(pieces))
    decreases |pieces|
  {
    if pieces == [] {
      assert file[at..] == file[at..oldAt] + [];
    } else {
      var rest := pieces[1..];
      match pieces[0]
      case Gap(ls) => PatchGap(pieces, ls, rest, file, oldAt, newAt, at);
      case Shown(es, title) => PatchShown(pieces, es, title, rest, file, oldAt, newAt, at);
    }
  }

  lemma GapUnfolds(pieces: seq<Piece>, oldAt: nat, newAt: nat)
    requires pieces != [] && pieces[0].Gap?
    ensures var ls, rest := pieces[0].lines, pieces[1..];
            && OldFile(pieces) == ls + OldFile(rest) && NewFile(pieces) == ls + NewFile(rest)
            && HunksOf(pieces, oldAt, newAt) == HunksOf(rest, oldAt + |ls|, newAt + |ls|)
  {
  }

  lemma ShownUnfolds(pieces: seq<Piece>, oldAt: nat, newAt: nat)
    requires pieces != [] && pieces[0].Shown?
    ensures var es, title, rest := pieces[0].edits, pieces[0].title, pieces[1..];
            && OldFile(pieces) == OldLines(es) + OldFile(rest) && NewFile(pieces) == NewLines(es) + NewFile(rest)
            && MeantHunks(HunksOf(pieces, oldAt, newAt))
                 == [MeantHunk(HunkOf(es, title, oldAt, newAt))]
                     + MeantHunks(HunksOf(rest, oldAt + |OldLines(es)|, newAt + |NewLines(es)|))
  {
    var h, later := HunkOf(pieces[0].edits, pieces[0].title, oldAt, newAt),
                    HunksOf(pieces[1..], oldAt + |OldLines(pieces[0].edits)|, newAt + |NewLines(pieces[0].edits)|);
    assert ([h] + later)[1..] == later;
  }

  lemma {:induction false} PatchGap(pieces: seq<Piece>, ls: seq<string>, rest: seq<Piece>,
                                    file: seq<string>, oldAt: nat, newAt: nat, at: nat)
    requires pieces != [] && pieces[0] == Gap(ls) && pieces[1..] == rest
    requires at <= oldAt <= |file| && file[oldAt..] == OldFile(pieces)
    ensures Patch(MeantHunks(HunksOf(pieces, oldAt, newAt)), file, at) == Some(file[at..oldAt] + NewFile(pieces))
    decreases |rest| + 1, 0
  {
    GapUnfolds(pieces, oldAt, newAt);
    SplitAt(file, oldAt, ls, OldFile(rest));
    PatchFrom(rest, file, oldAt + |ls|, newAt + |ls|, at);
    KeepGap(file, at, oldAt, ls, NewFile(rest));
  }

  lemma {:induction false} PatchShown(pieces: seq<Piece>, es: seq<Edit>, title: string, rest: seq<Piece>,
                                      file: seq<string>, oldAt: nat, newAt: nat, at: nat)
    requires pieces != [] && pieces[0] == Shown(es, title) && pieces[1..] == rest
    requires at <= oldAt <= |file| && file[oldAt..] == OldFile(pieces)
    ensures Patch(MeantHunks(HunksOf(pieces, oldAt, newAt)), file, at) == Some(file[at..oldAt] + NewFile(pieces))
    decreases |rest| + 1, 0
  {
    ShownUnfolds(pieces, oldAt, newAt);
    var oldNext, newNext := oldAt + |OldLines(es)|, newAt + |NewLines(es)|;
    var later, oldRest, result := MeantHunks(HunksOf(rest, oldNext, newNext)), OldFile(rest), NewFile(rest);
    PassOver(file, oldAt, OldLines(es), oldRest);
    PatchFrom(rest, file, oldNext, newNext, oldNext);
    HunkApplies(es, title, file, oldAt, newAt, at, later, oldRest, result);
  }

  lemma PassOver(file: seq<string>, at: nat, part: seq<string>, tail: seq<string>)
    requires at <= |file| && file[at..] == part + tail
    ensures at + |part| <= |file| && file[at + |part|..] == tail
  {
    SplitAt(file, at, part, tail);
  }

  lemma HunkApplies(es: seq<Edit>, title: string, file: seq<string>, oldAt: nat, newAt: nat, at: nat,
                    later: seq<Hunk>, oldRest: seq<string>, result: seq<string>)
    requires at <= oldAt && oldAt + |OldLines(es)| <= |file| && file[oldAt..] == OldLines(es) + oldRest
    requires var next := oldAt + |OldLines(es)|; Patch(later, file, next) == Some(file[next..next] + result)
    ensures Patch([MeantHunk(HunkOf(es, title, oldAt, newAt))] + later, file, at)
         == Some(file[at..oldAt] + (NewLines(es) + result))
  {
    var o, n := OldLines(es), NewLines(es);
    SplitAt(file, oldAt, o, oldRest);
    SidesOfScript(es);
    assert file[oldAt + |o|..oldAt + |o|] + result == result;
    PatchFirst(MeantHunk(HunkOf(es, title, oldAt, newAt)), later, file, oldAt, at, result);
    Reassociate(file[at..oldAt], n, result);
  }

  ghost predicate AllFit(hunks: seq<Hunk>, oldFile: seq<string>, newFile: seq<string>) {
    forall h :: h in hunks ==> HunkFits(h, oldFile, newFile)
  }

  lemma FitsFirst(h: Hunk, hunks: seq<Hunk>, oldFile: seq<string>, newFile: seq<string>)
    requires HunkFits(h, oldFile, newFile) && AllFit(hunks, oldFile, newFile)
    ensures AllFit([h] + hunks, oldFile, newFile)
  {
  }

  lemma OneHunkFits(es: seq<Edit>, title: string, oldFile: seq<string>, newFile: seq<string>, oldAt: nat, newAt: nat,
                    oldRest: seq<string>, newRest: seq<string>)
    requires oldAt <= |oldFile| && oldFile[oldAt..] == OldLines(es) + oldRest
    requires newAt <= |newFile| && newFile[newAt..] == NewLines(es) + newRest
    ensures HunkFits(MeantHunk(HunkOf(es, title, oldAt, newAt)), oldFile, newFile)
    ensures oldAt + |OldLines(es)| <= |oldFile| && oldFile[oldAt + |OldLines(es)|..] == oldRest
    ensures newAt + |NewLines(es)| <= |newFile| && newFile[newAt + |NewLines(es)|..] == newRest
  {
    SplitAt(oldFile, oldAt, OldLines(es), oldRest);
    SplitAt(newFile, newAt, NewLines(es), newRest);
    SidesOfScript(es);
  }

  lemma {:induction false} AllHunksFit(pieces: seq<Piece>, oldFile: seq<string>, newFile: seq<string>, oldAt: nat,
                                       newAt: nat)
    requires oldAt <= |oldFile| && oldFile[oldAt..] == OldFile(pieces)
    requires newAt <= |newFile| && newFile[newAt..] == NewFile(pieces)
    ensures AllFit(MeantHunks(HunksOf(pieces, oldAt, newAt)), oldFile, newFile)
    decreases |pieces|
  {
    if pieces != [] {
      var rest := pieces[1..];
      match pieces[0]
      case Gap(ls) =>
        GapUnfolds(pieces, oldAt, newAt);
        PassOver(oldFile, oldAt, ls, OldFile(rest));
        PassOver(newFile, newAt, ls, NewFile(rest));
        AllHunksFit(rest, oldFile, newFile, oldAt + |ls|, newAt + |ls|);
      case Shown(es, title) => FitShown(pieces, es, title, rest, oldFile, newFile, oldAt, newAt);
    }
  }

  lemma {:induction false} FitShown(pieces: seq<Piece>, es: seq<Edit>, title: string, rest: seq<Piece>,
                                    oldFile: seq<string>, newFile: seq<string>, oldAt: nat, newAt: nat)
    requires pieces != [] && pieces[0] == Shown(es, title) && pieces[1..] == rest
    requires oldAt <= |oldFile| && oldFile[oldAt..] == OldFile(pieces)
    requires newAt <= |newFile| && newFile[newAt..] == NewFile(pieces)
    ensures AllFit(MeantHunks(HunksOf(pieces, oldAt, newAt)), oldFile, newFile)
    decreases |rest| + 1, 0
  {
    ShownUnfolds(pieces, oldAt, newAt);
    var oldNext, newNext := oldAt + |OldLines(es)|, newAt + |NewLines(es)|;
    var h, later := MeantHunk(HunkOf(es, title, oldAt, newAt)), MeantHunks(HunksOf(rest, oldNext, newNext));
    OneHunkFits(es, title, oldFile, newFile, oldAt, newAt, OldFile(rest), NewFile(rest));
    AllHunksFit(rest, oldFile, newFile, oldNext, newNext);
    FitsFirst(h, later, oldFile, newFile);
  }

  lemma {:induction false} NumbersOfScriptFit(pieces: seq<Piece>, oldAt: nat, newAt: nat)
    requires oldAt + |OldFile(pieces)| < U64 && newAt + |NewFile(pieces)| < U64
    ensures NumbersFit(HunksOf(pieces, oldAt, newAt))
    decreases |pieces|
  {
    if pieces != [] {
      match pieces[0]
      case Gap(ls) => NumbersOfScriptFit(pieces[1..], oldAt + |ls|, newAt + |ls|);
      case Shown(es, title) =>
        NumbersOfScriptFit(pieces[1..], oldAt + |OldLines(es)|, newAt + |NewLines(es)|);
        NumbersFitFirst(HunkOf(es, title, oldAt, newAt),
                        HunksOf(pieces[1..], oldAt + |OldLines(es)|, newAt + |NewLines(es)|));
    }
  }

  lemma NumbersFitFirst(h: PrintedHunk, later: seq<PrintedHunk>)
    requires h.oldStart < U64 && h.oldLines < U64 && h.newStart < U64 && h.newLines < U64 && NumbersFit(later)
    ensures NumbersFit([h] + later)
  {
  }

  // ---- line ends ----

  /** The same lines kept, deleted and inserted, whatever is said about final newlines. */
  ghost predicate SameLines(a: seq<Edit>, b: seq<Edit>) {
    |a| == |b| && forall i :: 0 <= i < |a| ==> KindOfEdit(a[i]) == KindOfEdit(b[i]) && a[i].line == b[i].line
  }

  /** What is parsed does not tell whether a file's last line is ended by a newline. */
  lemma {:induction false} FinalNewlineIsForgotten(a: seq<Edit>, b: seq<Edit>)
    requires SameLines(a, b)
    ensures MeantSegments(SegmentsOf(a)) == MeantSegments(SegmentsOf(b))
  {
    if a != [] {
      FinalNewlineIsForgotten(a[1..], b[1..]);
    }
  }

  function ShornEdits(edits: seq<Edit>): (r: seq<Edit>)
    ensures |r| == |edits|
  {
    if edits == [] then [] else [edits[0].(line := DropCr(edits[0].line))] + ShornEdits(edits[1..])
  }

  /** The script as it looks once every line has lost one final CR. */
  function ShornPieces(pieces: seq<Piece>): seq<Piece> {
    if pieces == [] then []
    else
      (match pieces[0]
       case Gap(ls) => [Gap(DropCrs(ls))]
       case Shown(es, title) => [Shown(ShornEdits(es), DropCr(title))])
      + ShornPieces(pieces[1..])
  }

  lemma {:induction false} ShornSides(edits: seq<Edit>)
    ensures OldLines(ShornEdits(edits)) == DropCrs(OldLines(edits))
            && NewLines(ShornEdits(edits)) == DropCrs(NewLines(edits))
    ensures SegmentsOf(ShornEdits(edits)) == ShornSegments(SegmentsOf(edits))
  {
    if edits != [] {
      var e := edits[0];
      ShornSides(edits[1..]);
      assert ShornEdits(edits)[1..] == ShornEdits(edits[1..]);
      assert SegmentsOf(edits)[1..] == SegmentsOf(edits[1..]);
      OneLine(e.line);
      DropCrsConcat([e.line], OldLines(edits[1..]));
      DropCrsConcat([e.line], NewLines(edits[1..]));
      DropCrsConcat([], OldLines(edits[1..]));
      DropCrsConcat([], NewLines(edits[1..]));
    }
  }

  lemma {:induction false} ShornSidesOfScript(pieces: seq<Piece>)
    ensures OldFile(ShornPieces(pieces)) == DropCrs(OldFile(pieces))
            && NewFile(ShornPieces(pieces)) == DropCrs(NewFile(pieces))
    decreases |pieces|
  {
    if pieces != [] {
      ShornSidesOfScript(pieces[1..]);
      assert ShornPieces(pieces)[1..] == ShornPieces(pieces[1..]);
      match pieces[0]
      case Gap(ls) =>
        DropCrsConcat(ls, OldFile(pieces[1..]));
        DropCrsConcat(ls, NewFile(pieces[1..]));
      case Shown(es, _) =>
        ShornSides(es);
        DropCrsConcat(OldLines(es), OldFile(pieces[1..]));
        DropCrsConcat(NewLines(es), NewFile(pieces[1..]));
    }
  }

  lemma ShornHunkOf(es: seq<Edit>, title: string, oldAt: nat, newAt: nat)
    ensures ShornHunk(HunkOf(es, title, oldAt, newAt)) == HunkOf(ShornEdits(es), DropCr(title), oldAt, newAt)
    ensures |OldLines(ShornEdits(es))| == |OldLines(es)| && |NewLines(ShornEdits(es))| == |NewLines(es)|
  {
    ShornSides(es);
  }

  lemma ShornHunksCons(h: PrintedHunk, later: seq<PrintedHunk>)
    ensures ShornHunks([h] + later) == [ShornHunk(h)] + ShornHunks(later)
  {
    assert ([h] + later)[1..] == later;
  }

  lemma GapCons(ls: seq<string>, rest: seq<Piece>, oldAt: nat, newAt: nat)
    ensures HunksOf([Gap(ls)] + rest, oldAt, newAt) == HunksOf(rest, oldAt + |ls|, newAt + |ls|)
  {
    assert ([Gap(ls)] + rest)[1..] == rest;
  }

  lemma ShownCons(es: seq<Edit>, title: string, rest: seq<Piece>, oldAt: nat, newAt: nat)
    ensures HunksOf([Shown(es, title)] + rest, oldAt, newAt)
         == [HunkOf(es, title, oldAt, newAt)] + HunksOf(rest, oldAt + |OldLines(es)|, newAt + |NewLines(es)|)
  {
    assert ([Shown(es, title)] + rest)[1..] == rest;
  }

  /** One piece in front of others keeps `ShornHunksOf`. */
  lemma ShornGap(ls: seq<string>, rest: seq<Piece>, oldAt: nat, newAt: nat)
    requires var o, n := oldAt + |ls|, newAt + |ls|; ShornHunks(HunksOf(rest, o, n)) == HunksOf(ShornPieces(rest), o, n)
    ensures ShornHunks(HunksOf([Gap(ls)] + rest, oldAt, newAt))
              == HunksOf([Gap(DropCrs(ls))] + ShornPieces(rest), oldAt, newAt)
  {
    GapCons(ls, rest, oldAt, newAt);
    GapCons(DropCrs(ls), ShornPieces(rest), oldAt, newAt);
  }

  lemma ShornShown(es: seq<Edit>, title: string, rest: seq<Piece>, oldAt: nat, newAt: nat)
    requires var o, n := oldAt + |OldLines(es)|, newAt + |NewLines(es)|;
             ShornHunks(HunksOf(rest, o, n)) == HunksOf(ShornPieces(rest), o, n)
    ensures ShornHunks(HunksOf([Shown(es, title)] + rest, oldAt, newAt))
         == HunksOf([Shown(ShornEdits(es), DropCr(title))] + ShornPieces(rest), oldAt, newAt)
  {
    ShownCons(es, title, rest, oldAt, newAt);
    ShownCons(ShornEdits(es), DropCr(title), ShornPieces(rest), oldAt, newAt);
    ShornHunkOf(es, title, oldAt, newAt);
    ShornHunksCons(HunkOf(es, title, oldAt, newAt), HunksOf(rest, oldAt + |OldLines(es)|, newAt + |NewLines(es)|));
  }

  lemma {:induction false} ShornHunksOf(pieces: seq<Piece>, oldAt: nat, newAt: nat)
    ensures ShornHunks(HunksOf(pieces, oldAt, newAt)) == HunksOf(ShornPieces(pieces), oldAt, newAt)
    decreases |pieces|
  {
    if pieces != [] {
      var rest := pieces[1..];
      assert pieces == [pieces[0]] + rest;
      match pieces[0]
      case Gap(ls) =>
        ShornHunksOf(rest, oldAt + |ls|, newAt + |ls|);
        ShornGap(ls, rest, oldAt, newAt);
      case Shown(es, title) =>
        ShornHunksOf(rest, oldAt + |OldLines(es)|, newAt + |NewLines(es)|);
        ShornShown(es, title, rest, oldAt, newAt);
    }
  }

  // ---- main result ----

  /** A changed, added, deleted or renamed file whose hunks are cut from this script. */
  predicate ShowsScript(f: FileDiff, pieces: seq<Piece>) {
    (f.TextFile? || f.RenamedFile?) && f.hunks == HunksOf(pieces, 0, 0)
  }

  /** The paths a text diff names; None stands for `/dev/null`. */
  function PathsOf(f: FileDiff): (Option<string>, Option<string>)
    requires f.TextFile? || f.RenamedFile?
  {
    if f.TextFile? then (f.oldPath, f.newPath) else (Some(f.from), Some(f.to))
  }

  /** The parsed entry turns the old file into the new one, and its headers name the lines they hold. */
  ghost predicate Means(e: Entry, paths: (Option<string>, Option<string>), oldFile: seq<string>, newFile: seq<string>) {
    && e.Hunks? && (e.oldPath, e.newPath) == paths
    && Patch(e.hunks, oldFile, 0) == Some(newFile)
    && AllFit(e.hunks, oldFile, newFile)
  }

  lemma ScriptMeans(f: FileDiff, pieces: seq<Piece>)
    requires ShowsScript(f, pieces)
    ensures Means(MeantFile(f), PathsOf(f), OldFile(pieces), NewFile(pieces))
  {
    var o, n := OldFile(pieces), NewFile(pieces);
    assert o[0..] == o && n[0..] == n;
    PatchFrom(pieces, o, 0, 0, 0);
    AllHunksFit(pieces, o, n, 0, 0);
    assert o[0..0] + n == n;
  }

  lemma {:induction false} MeantFileAt(files: seq<FileDiff>, k: nat)
    requires k < |files|
    ensures |MeantFiles(files)| == |files| && MeantFiles(files)[k] == MeantFile(files[k])
  {
    if k > 0 {
      MeantFileAt(files[1..], k - 1);
    } else if |files| > 1 {
      MeantFileAt(files[1..], 0);
    }
  }

  /** Diff meaning kept: take any edit script, cut it into hunks anywhere, and print it as a change,
      addition, deletion or rename anywhere in a diff. The entry that parsing gives back for it has its
      paths; its hunks turn the old file into the new one; and in each hunk context plus removed lines,
      and context plus added lines, are the slices its header names. One final CR of every line is
      gone, from both files alike; markers of a missing final newline are skipped and not kept. */
  lemma DiffMeansItsScript(files: seq<FileDiff>, k: nat, pieces: seq<Piece>)
    requires k < |files| && ShowsScript(files[k], pieces) && Printable(files[k])
    requires |OldFile(pieces)| < U64 && |NewFile(pieces)| < U64
    requires forall j :: 0 <= j < |files| && j != k ==> WellFormed(files[j])
    ensures var parsed := ParseLines(Lines(Unlines(PrintFiles(files))));
            && parsed.Ok? && |parsed.value| == |files|
            && Means(parsed.value[k], PathsOf(Shorn(files[k])), DropCrs(OldFile(pieces)), DropCrs(NewFile(pieces)))
  {
    NumbersOfScriptFit(pieces, 0, 0);
    DiffRoundTrip(files);
    MeantFileAt(ShornFiles(files), k);
    ShornHunksOf(pieces, 0, 0);
    ShornSidesOfScript(pieces);
    ScriptMeans(Shorn(files[k]), ShornPieces(pieces));
  }
}
