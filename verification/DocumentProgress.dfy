/** That saves and opens get through. Where no other program touches the file and no call to the
    operating system fails, every answer is the one its conditions, spelled out here, call for; and a
    client that is left alone, in any state of any run, opens its document and saves it. */
module DocumentProgress {
  import opened Wrappers
  import opened Utf8
  import opened HostFiles
  import opened DocumentReader
  import opened DocumentProtocol
  import opened Text

  // ---- exactly what a save answers ----

  /** What a `write_file` answers and leaves, condition by condition. */
  ghost predicate AnswerIs(before: Files, after: Files, op: WriteOp, result: WriteResult, h: Hash) {
    var isFile := op.path in before && before[op.path].File?;
    var fits, text := |op.content| <= op.maxContent, 0 !in op.content;
    && (result == Err(NotFound) <==> op.path !in before)
    && (result == Err(NotAFile) <==> op.path in before && before[op.path].Directory?)
    && (result == Err(BoundExceeded) <==> isFile && !fits)
    && (result == Err(BinaryContent) <==> isFile && fits && !text)
    && result != Err(Io)
    && (result.Ok? && result.value.Stale? <==> isFile && fits && text && h(before[op.path].content) != op.base)
    && (result.Ok? && result.value.Stale? ==>
          result.value == Stale(h(before[op.path].content), before[op.path].content))
    && (result == Ok(Written(h(op.content))) <==> isFile && fits && text && h(before[op.path].content) == op.base)
    && after == (if result == Ok(Written(h(op.content))) then before[op.path := File(op.content)] else before)
  }

  /** The compare-and-swap of the specification is that. */
  lemma SwapIs(files: Files, op: WriteOp, h: Hash)
    ensures var (after, result) := CompareAndSwap(files, op.path, op.base, op.content, op.maxContent, h);
            AnswerIs(files, after, op, result, h)
  {
  }

  ghost predicate LeftAlone(labels: seq<Label>, path: Path) {
    forall l :: l in labels ==> !(l.OtherProgram? && l.path == path)
  }

  /** Between its check and its write a call's file is there. */
  ghost predicate StillThere(s: State, path: Path) {
    && (forall e :: e in s.history && e.External? ==> e.path != path)
    && (forall t: nat :: (PcOf(s, t).Checked? || InWindow(PcOf(s, t))) && PcOf(s, t).op.path == path ==>
          Stat(s.files, path).Ok?)
  }

  lemma StepKeepsThere(s: State, l: Label, path: Path, h: Hash)
    requires StillThere(s, path) && Next(s, l, h).Some? && !(l.OtherProgram? && l.path == path)
    ensures StillThere(Next(s, l, h).value, path)
  {
    var s' := Next(s, l, h).value;
    StepsFiles(s, l, path, h);
    StepsHistory(s, l, path, h);
    forall t: nat | (PcOf(s', t).Checked? || InWindow(PcOf(s', t))) && PcOf(s', t).op.path == path
      ensures Stat(s'.files, path).Ok?
    {
      StepsThread(s, l, t, h);
    }
  }

  lemma StepsFiles(s: State, l: Label, path: Path, h: Hash)
    requires Next(s, l, h).Some? && !(l.OtherProgram? && l.path == path)
    ensures Stat(s.files, path).Ok? ==> Stat(Next(s, l, h).value.files, path).Ok?
  {
  }

  lemma StepsHistory(s: State, l: Label, path: Path, h: Hash)
    requires Next(s, l, h).Some? && !(l.OtherProgram? && l.path == path)
    requires forall e :: e in s.history && e.External? ==> e.path != path
    ensures forall e :: e in Next(s, l, h).value.history && e.External? ==> e.path != path
  {
  }

  /** A thread that is past its check was so before, or has just passed it. */
  lemma StepsThread(s: State, l: Label, t: nat, h: Hash)
    requires Next(s, l, h).Some?
    requires var pc' := PcOf(Next(s, l, h).value, t); pc'.Checked? || InWindow(pc')
    ensures var pc, pc' := PcOf(s, t), PcOf(Next(s, l, h).value, t);
            || ((pc.Checked? || InWindow(pc)) && pc.op.path == pc'.op.path)
            || Stat(s.files, pc'.op.path).Ok?
  {
    if !Begins(l) && !l.Request? && !l.OtherProgram? {
      NextIsWriteStep(s, l, h);
      if l.t == t { OwnStep(s, l, t, h); } else { OthersStay(s, l, t, h); }
    }
  }

  lemma OthersStay(s: State, l: Label, t: nat, h: Hash)
    requires !l.OtherProgram? && l.t != t && WriteStep(s, l.t, l, h).Some?
    ensures PcOf(WriteStep(s, l.t, l, h).value, t) == PcOf(s, t)
  {
  }

  lemma OwnStep(s: State, l: Label, t: nat, h: Hash)
    requires WriteStep(s, t, l, h).Some?
    ensures var pc, pc' := PcOf(s, t), PcOf(WriteStep(s, t, l, h).value, t);
            pc'.Checked? || InWindow(pc') ==>
              || ((pc.Checked? || InWindow(pc)) && pc.op.path == pc'.op.path)
              || Stat(s.files, pc'.op.path).Ok?
  {
  }

  lemma {:induction false} RunKeepsThere(files: Files, labels: seq<Label>, path: Path, h: Hash)
    requires Run(files, labels, h).Some? && LeftAlone(labels, path)
    ensures StillThere(Run(files, labels, h).value, path)
  {
    if labels != [] {
      var before, l := labels[..|labels| - 1], labels[|labels| - 1];
      assert l in labels && forall m :: m in before ==> m in labels;
      RunKeepsThere(files, before, path, h);
      StepKeepsThere(Run(files, before, h).value, l, path, h);
    }
  }

  lemma {:induction false} NoChange(history: seq<Entry>, from: nat, path: Path)
    requires forall e :: e in history && e.External? ==> e.path != path
    ensures LastChange(history, from, path).None?
  {
    if |history| > from {
      assert history[|history| - 1] in history;
      NoChange(history[..|history| - 1], from, path);
    }
  }

  /** At its write a call's file holds what it has read and compared. */
  lemma HoldsWhatWasRead(files: Files, s: State, t: nat, h: Hash)
    requires Inv(files, s, h) && PcOf(s, t).Matched? && StillThere(s, PcOf(s, t).op.path)
    ensures var pc := PcOf(s, t);
            Stat(s.files, pc.op.path) == Ok(pc.current) && h(pc.current) == pc.op.base && Passes(pc.op)
  {
    assert ThreadOk(files, s, t, h);
    var pc := PcOf(s, t);
    NoChange(s.history, pc.readAt, pc.op.path);
    LeftByOthers(files, s.history, pc.readAt, pc.op.path);
  }

  /** The step decides a call. */
  ghost predicate Answers(s: State, s': State) {
    |s'.history| == |s.history| + 1 && s'.history[|s.history|].Call?
  }

  lemma DecisionIsExact(files: Files, s: State, l: Label, h: Hash)
    requires Inv(files, s, h) && Next(s, l, h).Some? && !l.IoFailure? && !l.OtherProgram?
    requires Answers(s, Next(s, l, h).value)
    requires StillThere(s, Next(s, l, h).value.history[|s.history|].op.path)
    ensures var s' := Next(s, l, h).value;
            var e := s'.history[|s.history|];
            AnswerIs(s.files, s'.files, e.op, e.result, h)
  {
    var t := l.t;
    var pc := PcOf(s, t);
    assert ThreadOk(files, s, t, h);
    if pc.Matched? {
      HoldsWhatWasRead(files, s, t, h);
    } else if pc.Checked? {
      ReadDecides(s, t, pc.op, h);
    } else {
      CheckDecides(s, t, pc.op, h);
    }
  }

  lemma CheckDecides(s: State, t: nat, op: WriteOp, h: Hash)
    requires PcOf(s, t).Locked? && PcOf(s, t).op == op && Next(s, Check(t), h).Some?
    requires Answers(s, Next(s, Check(t), h).value)
    ensures var s' := Next(s, Check(t), h).value;
            AnswerIs(s.files, s'.files, op, s'.history[|s.history|].result, h)
  {
  }

  lemma ReadDecides(s: State, t: nat, op: WriteOp, h: Hash)
    requires PcOf(s, t).Checked? && PcOf(s, t).op == op && Stat(s.files, op.path).Ok? && Passes(op)
    requires Next(s, Read(t), h).Some? && Answers(s, Next(s, Read(t), h).value)
    ensures var s' := Next(s, Read(t), h).value;
            AnswerIs(s.files, s'.files, op, s'.history[|s.history|].result, h)
  {
  }

  /** Every answer that no I/O error brought about, to a call on a file that other programs have left
      alone, is the one its conditions call for. In particular it is never an I/O error. */
  lemma UndisturbedAnswerIsExact(files: Files, labels: seq<Label>, l: Label, h: Hash)
    requires Injective(h) && Run(files, labels + [l], h).Some? && Run(files, labels, h).Some?
    requires Answers(Run(files, labels, h).value, Run(files, labels + [l], h).value) && !l.IoFailure?
    requires var s, s' := Run(files, labels, h).value, Run(files, labels + [l], h).value;
             LeftAlone(labels + [l], s'.history[|s.history|].op.path)
    ensures var s, s' := Run(files, labels, h).value, Run(files, labels + [l], h).value;
            var e := s'.history[|s.history|];
            AnswerIs(s.files, s'.files, e.op, e.result, h)
  {
    assert (labels + [l])[..|labels|] == labels;
    var s, s' := Run(files, labels, h).value, Run(files, labels + [l], h).value;
    var path := s'.history[|s.history|].op.path;
    assert forall m :: m in labels ==> m in labels + [l];
    RunKeepsInv(files, labels, h);
    RunKeepsThere(files, labels, path, h);
    DecisionIsExact(files, s, l, h);
  }

  ghost predicate ExactAt(files: Files, history: seq<Entry>, i: nat, h: Hash)
    requires i < |history|
  {
    && history[i].Call?
    && AnswerIs(FilesAfter(files, history[..i]), FilesAfter(files, history[..i + 1]),
                history[i].op, history[i].result, h)
  }

  ghost predicate AllExact(files: Files, history: seq<Entry>, h: Hash) {
    forall i :: 0 <= i < |history| ==> ExactAt(files, history, i, h)
  }

  lemma ExactAppend(files: Files, history: seq<Entry>, e: Entry, h: Hash)
    requires AllExact(files, history, h) && e.Call?
    requires AnswerIs(FilesAfter(files, history), FilesAfter(files, history + [e]), e.op, e.result, h)
    ensures AllExact(files, history + [e], h)
  {
    var longer := history + [e];
    forall i | 0 <= i < |longer| ensures ExactAt(files, longer, i, h) {
      if i < |history| {
        assert ExactAt(files, history, i, h);
        assert longer[..i] == history[..i] && longer[..i + 1] == history[..i + 1];
      } else {
        assert longer[..i] == history && longer[..i + 1] == longer;
      }
    }
  }

  /** So a run without I/O errors and other programs is, answer by answer, a sequential run of
      compare-and-swaps. */
  lemma {:induction false} QuietRunIsExact(files: Files, labels: seq<Label>, h: Hash)
    requires Injective(h) && Run(files, labels, h).Some?
    requires forall l :: l in labels ==> !l.IoFailure? && !l.OtherProgram?
    ensures AllExact(files, Run(files, labels, h).value.history, h)
  {
    if labels != [] {
      var before, l := labels[..|labels| - 1], labels[|labels| - 1];
      assert labels == before + [l] && l in labels && forall m :: m in before ==> m in labels;
      QuietRunIsExact(files, before, h);
      QuietStepIsExact(files, before, l, h);
    }
  }

  lemma QuietStepIsExact(files: Files, before: seq<Label>, l: Label, h: Hash)
    requires Injective(h) && Run(files, before, h).Some? && Run(files, before + [l], h).Some?
    requires forall m :: m in before + [l] ==> !m.IoFailure? && !m.OtherProgram?
    requires AllExact(files, Run(files, before, h).value.history, h)
    ensures AllExact(files, Run(files, before + [l], h).value.history, h)
  {
    FilesOfHistory(files, before, h);
    FilesOfHistory(files, before + [l], h);
    var s, s' := Run(files, before, h).value, Run(files, before + [l], h).value;
    LastLabel(files, before, l, h);
    assert l in before + [l];
    QuietStep(s, l, h);
    if s'.history != s.history {
      UndisturbedAnswerIsExact(files, before, l, h);
      ExactAppend(files, s.history, s'.history[|s.history|], h);
    }
  }

  lemma FilesOfHistory(files: Files, labels: seq<Label>, h: Hash)
    requires Injective(h) && Run(files, labels, h).Some?
    ensures var s := Run(files, labels, h).value; s.files == FilesAfter(files, s.history)
  {
    RunKeepsInv(files, labels, h);
  }

  lemma LastLabel(files: Files, before: seq<Label>, l: Label, h: Hash)
    requires Run(files, before + [l], h).Some?
    ensures Run(files, before, h).Some? && Next(Run(files, before, h).value, l, h) == Run(files, before + [l], h)
  {
    assert (before + [l])[..|before|] == before;
  }

  /** A step of that kind decides one call or none. */
  lemma QuietStep(s: State, l: Label, h: Hash)
    requires Next(s, l, h).Some? && !l.OtherProgram?
    ensures var s' := Next(s, l, h).value;
            s'.history == s.history || (Answers(s, s') && s'.history == s.history + [s'.history[|s.history|]])
  {
  }

  // ---- a client that is left alone ----

  /** The lock of a path is free, or not yet made. */
  ghost predicate Unlocked(s: State, path: Path) {
    && (path in s.table ==> s.table[path] !in s.holder)
    && s.nextLock !in s.holder
  }

  lemma HeldIsMade(files: Files, s: State, lock: nat, h: Hash)
    requires Inv(files, s, h) && lock in s.holder
    ensures lock < s.nextLock
  {
    assert ThreadOk(files, s, s.holder[lock], h);
  }

  lemma LocksAreMade(files: Files, s: State, h: Hash)
    requires Inv(files, s, h)
    ensures s.nextLock !in s.holder
  {
    if s.nextLock in s.holder {
      HeldIsMade(files, s, s.nextLock, h);
    }
  }

  lemma CanLock(files: Files, labels: seq<Label>, h: Hash)
    requires Injective(h) && Run(files, labels, h).Some?
    ensures Run(files, labels, h).value.nextLock !in Run(files, labels, h).value.holder
  {
    RunKeepsInv(files, labels, h);
    LocksAreMade(files, Run(files, labels, h).value, h);
  }

  lemma BeginAlone(s: State, t: nat, b: Basis, content: seq<byte>, maxContent: nat, h: Hash)
    requires Ready(PcOf(s, t)) && b.revision == h(b.content)
    ensures var op := WriteOp(b.path, b.revision, content, maxContent, Some(b.content));
            var l := BeginSave(t, b, content, maxContent);
            && Goes(s, l, t, Entered(s.nextId, op), s.files, h)
            && var s' := Next(s, l, h).value;
               s'.table == s.table && s'.holder == s.holder && s'.nextLock == s.nextLock
  {
  }

  /** How far a thread's step takes it, with the files as they are. */
  ghost predicate Goes(s: State, l: Label, t: nat, pc: Pc, files: Files, h: Hash) {
    Next(s, l, h).Some? && PcOf(Next(s, l, h).value, t) == pc && Next(s, l, h).value.files == files
  }

  lemma LookupAlone(s: State, t: nat, id: nat, op: WriteOp, h: Hash) returns (lock: nat)
    requires PcOf(s, t) == Entered(id, op) && Unlocked(s, op.path)
    ensures Goes(s, Lookup(t), t, Waiting(id, op, lock), s.files, h) && lock !in Next(s, Lookup(t), h).value.holder
  {
    lock := if op.path in s.table then s.table[op.path] else s.nextLock;
  }

  lemma CheckAlone(s: State, t: nat, id: nat, op: WriteOp, lock: nat, h: Hash)
    requires PcOf(s, t) == Locked(id, op, lock) && Stat(s.files, op.path).Ok? && Passes(op)
    ensures Goes(s, Check(t), t, Checked(id, op, lock), s.files, h)
  {
  }

  lemma ReadAlone(s: State, t: nat, id: nat, op: WriteOp, lock: nat, content: seq<byte>, h: Hash)
    requires PcOf(s, t) == Checked(id, op, lock) && Stat(s.files, op.path) == Ok(content) && h(content) == op.base
    ensures Goes(s, Read(t), t, HasRead(id, op, lock, content, |s.history|), s.files, h)
  {
  }

  lemma CompareAlone(s: State, t: nat, id: nat, op: WriteOp, lock: nat, content: seq<byte>, at: nat, h: Hash)
    requires PcOf(s, t) == HasRead(id, op, lock, content, at) && h(content) == op.base
    ensures Goes(s, Compare(t), t, Matched(id, op, lock, content, at), s.files, h)
  {
  }

  lemma WriteAlone(s: State, t: nat, id: nat, op: WriteOp, lock: nat, content: seq<byte>, at: nat, h: Hash)
    requires PcOf(s, t) == Matched(id, op, lock, content, at) && Stat(s.files, op.path).Ok?
    ensures Goes(s, Write(t), t, Releasing(id, op, lock, Ok(Written(h(op.content)))),
                 s.files[op.path := File(op.content)], h)
  {
  }

  lemma RunStep(files: Files, labels: seq<Label>, l: Label, s: State, h: Hash)
    requires Run(files, labels, h) == Some(s)
    ensures Run(files, labels + [l], h) == Next(s, l, h)
  {
    assert (labels + [l])[..|labels|] == labels;
  }

  /** The save of a document, from the moment its content and revision are known: in any state of any run
      in which no other save of the file is under way, it writes and answers ok. */
  lemma SaveAlone(files: Files, labels: seq<Label>, t: nat, path: Path, seen: seq<byte>, content: seq<byte>,
                  maxContent: nat, h: Hash) returns (later: seq<Label>)
    requires Injective(h) && Run(files, labels, h).Some?
    requires var s := Run(files, labels, h).value;
             && Ready(PcOf(s, t)) && Stat(s.files, path) == Ok(seen)
             && (path in s.table ==> s.table[path] !in s.holder)
    requires |content| <= maxContent && 0 !in content
    ensures Run(files, labels + later, h).Some?
    ensures var s, s' := Run(files, labels, h).value, Run(files, labels + later, h).value;
            && PcOf(s', t).Answered? && PcOf(s', t).result == Ok(Written(h(content)))
            && s'.files == s.files[path := File(content)]
  {
    var s := Run(files, labels, h).value;
    CanLock(files, labels, h);
    var id, op := s.nextId, WriteOp(path, h(seen), content, maxContent, Some(seen));
    var begin := BeginSave(t, Basis(path, h(seen), seen), content, maxContent);
    var l1 := labels + [begin];
    BeginAlone(s, t, Basis(path, h(seen), seen), content, maxContent, h);
    RunStep(files, labels, begin, s, h);
    var s1 := Run(files, l1, h).value;
    var lock := LookupAlone(s1, t, id, op, h);
    var l2, more := WithLock(files, l1, s1, t, id, op, lock, seen, h);
    later := [begin] + more;
    Reassociate(labels, [begin], more);
  }

  lemma WithLock(files: Files, l1: seq<Label>, s1: State, t: nat, id: nat, op: WriteOp, lock: nat, seen: seq<byte>,
                 h: Hash)
    returns (labels: seq<Label>, more: seq<Label>)
    requires Run(files, l1, h) == Some(s1) && Goes(s1, Lookup(t), t, Waiting(id, op, lock), s1.files, h)
    requires lock !in Next(s1, Lookup(t), h).value.holder
    requires Stat(s1.files, op.path) == Ok(seen) && op.base == h(seen) && Passes(op)
    ensures labels == l1 + more && Run(files, labels, h).Some?
    ensures var s' := Run(files, labels, h).value;
            && PcOf(s', t) == Answered(id, op, Ok(Written(h(op.content))))
            && s'.files == s1.files[op.path := File(op.content)]
  {
    RunStep(files, l1, Lookup(t), s1, h);
    var l2 := l1 + [Lookup(t)];
    var s2 := Run(files, l2, h).value;
    RunStep(files, l2, Acquire(t), s2, h);
    var l3 := l2 + [Acquire(t)];
    labels := Locks(files, l3, Run(files, l3, h).value, t, id, op, lock, seen, h);
    more := [Lookup(t), Acquire(t), Check(t), Read(t), Compare(t), Write(t), Unlock(t)];
    assert labels == l1 + more;
  }

  lemma Locks(files: Files, l3: seq<Label>, s3: State, t: nat, id: nat, op: WriteOp, lock: nat, seen: seq<byte>,
              h: Hash)
    returns (labels: seq<Label>)
    requires Run(files, l3, h) == Some(s3) && PcOf(s3, t) == Locked(id, op, lock)
    requires Stat(s3.files, op.path) == Ok(seen) && op.base == h(seen) && Passes(op)
    ensures labels == l3 + [Check(t)] + [Read(t)] + [Compare(t)] + [Write(t)] + [Unlock(t)]
    ensures Run(files, labels, h).Some?
    ensures var s' := Run(files, labels, h).value;
            && PcOf(s', t) == Answered(id, op, Ok(Written(h(op.content))))
            && s'.files == s3.files[op.path := File(op.content)]
  {
    CheckAlone(s3, t, id, op, lock, h);
    RunStep(files, l3, Check(t), s3, h);
    var l4 := l3 + [Check(t)];
    labels := PastCheck(files, l4, Run(files, l4, h).value, t, id, op, lock, seen, h);
  }

  lemma PastCheck(files: Files, l4: seq<Label>, s4: State, t: nat, id: nat, op: WriteOp, lock: nat, seen: seq<byte>,
                  h: Hash)
    returns (labels: seq<Label>)
    requires Run(files, l4, h) == Some(s4) && PcOf(s4, t) == Checked(id, op, lock)
    requires Stat(s4.files, op.path) == Ok(seen) && op.base == h(seen)
    ensures labels == l4 + [Read(t)] + [Compare(t)] + [Write(t)] + [Unlock(t)] && Run(files, labels, h).Some?
    ensures var s' := Run(files, labels, h).value;
            && PcOf(s', t) == Answered(id, op, Ok(Written(h(op.content))))
            && s'.files == s4.files[op.path := File(op.content)]
  {
    var at := |s4.history|;
    ReadAlone(s4, t, id, op, lock, seen, h);
    RunStep(files, l4, Read(t), s4, h);
    var l5 := l4 + [Read(t)];
    var s5 := Run(files, l5, h).value;
    CompareAlone(s5, t, id, op, lock, seen, at, h);
    RunStep(files, l5, Compare(t), s5, h);
    var l6 := l5 + [Compare(t)];
    labels := WritesAndUnlocks(files, l6, Run(files, l6, h).value, t, id, op, lock, seen, at, h);
  }

  lemma WritesAndUnlocks(files: Files, l6: seq<Label>, s6: State, t: nat, id: nat, op: WriteOp, lock: nat,
                         seen: seq<byte>, at: nat, h: Hash) returns (labels: seq<Label>)
    requires Run(files, l6, h) == Some(s6) && PcOf(s6, t) == Matched(id, op, lock, seen, at)
    requires Stat(s6.files, op.path).Ok?
    ensures labels == l6 + [Write(t)] + [Unlock(t)] && Run(files, labels, h).Some?
    ensures var s' := Run(files, labels, h).value;
            && PcOf(s', t) == Answered(id, op, Ok(Written(h(op.content))))
            && s'.files == s6.files[op.path := File(op.content)]
  {
    WriteAlone(s6, t, id, op, lock, seen, at, h);
    RunStep(files, l6, Write(t), s6, h);
    var l7 := l6 + [Write(t)];
    RunStep(files, l7, Unlock(t), Run(files, l7, h).value, h);
    labels := l7 + [Unlock(t)];
  }

  /** The open of a document: in any state of any run, if its file is not changed meanwhile, the requests
      it sends bring back the whole document. */
  lemma OpenAlone(files: Files, labels: seq<Label>, t: nat, path: Path, content: seq<byte>, h: Hash)
    returns (later: seq<Label>)
    requires Injective(h) && Run(files, labels, h).Some? && |content| <= SEEK_LIMIT
    requires var s := Run(files, labels, h).value; Ready(PcOf(s, t)) && Stat(s.files, path) == Ok(content)
    ensures Run(files, labels + later, h).Some?
    ensures var s, s' := Run(files, labels, h).value, Run(files, labels + later, h).value;
            && PcOf(s', t).Opened? && PcOf(s', t).path == path
            && PcOf(s', t).document == Document(content, |content|, h(content))
            && s'.files == s.files && s'.table == s.table && s'.holder == s.holder
  {
    var s := Run(files, labels, h).value;
    RunStep(files, labels, BeginOpen(t, path), s, h);
    var l1 := labels + [BeginOpen(t, path)];
    var more := RequestsAlone(files, l1, t, path, START, content, h);
    later := [BeginOpen(t, path)] + more;
    assert labels + later == l1 + more;
  }

  lemma OneRequest(files: Files, s: State, t: nat, path: Path, a: Assembly, content: seq<byte>, h: Hash)
    requires Injective(h) && |content| <= SEEK_LIMIT
    requires PcOf(s, t).Opening? && PcOf(s, t).path == path && PcOf(s, t).assembly == a
    requires Stat(s.files, path) == Ok(content) && (a == START || PrefixOf(a, content, h))
    ensures Next(s, Request(t, None), h).Some?
    ensures var s' := Next(s, Request(t, None), h).value; var pc := PcOf(s', t);
            && s'.files == s.files && s'.table == s.table && s'.holder == s.holder
            && if pc.Opening? then
                 && pc.path == path && PrefixOf(pc.assembly, content, h)
                 && (a != START ==> pc.assembly.offset > a.offset)
               else pc.Opened? && pc.path == path && pc.document == Document(content, |content|, h(content))
  {
    AbsorbKeepsSnapshot(a, content, s.files, path, h);
  }

  lemma {:induction false} RequestsAlone(files: Files, labels: seq<Label>, t: nat, path: Path, a: Assembly,
                                         content: seq<byte>, h: Hash) returns (later: seq<Label>)
    requires Injective(h) && Run(files, labels, h).Some? && |content| <= SEEK_LIMIT
    requires var s := Run(files, labels, h).value;
             && PcOf(s, t).Opening? && PcOf(s, t).path == path && PcOf(s, t).assembly == a
             && Stat(s.files, path) == Ok(content)
    requires a == START || PrefixOf(a, content, h)
    ensures Run(files, labels + later, h).Some?
    ensures var s, s' := Run(files, labels, h).value, Run(files, labels + later, h).value;
            && PcOf(s', t).Opened? && PcOf(s', t).path == path
            && PcOf(s', t).document == Document(content, |content|, h(content))
            && s'.files == s.files && s'.table == s.table && s'.holder == s.holder
    decreases if a == START then 1 else 0, |content| - a.offset
  {
    var s := Run(files, labels, h).value;
    OneRequest(files, s, t, path, a, content, h);
    RunStep(files, labels, Request(t, None), s, h);
    var l1 := labels + [Request(t, None)];
    var pc := PcOf(Run(files, l1, h).value, t);
    if pc.Opening? {
      var more := RequestsAlone(files, l1, t, path, pc.assembly, content, h);
      later := [Request(t, None)] + more;
      MoreLabels(labels, [Request(t, None)], more);
    } else {
      later := [Request(t, None)];
    }
  }

  /** Together: a client that is left alone opens any document that is there and saves what it likes over
      it; the save answers ok, and the file holds it. */
  lemma LoneSaveSucceeds(files: Files, labels: seq<Label>, t: nat, path: Path, content: seq<byte>, mine: seq<byte>,
                         maxContent: nat, h: Hash) returns (later: seq<Label>)
    requires Injective(h) && Run(files, labels, h).Some? && |content| <= SEEK_LIMIT
    requires var s := Run(files, labels, h).value;
             && Ready(PcOf(s, t)) && Stat(s.files, path) == Ok(content)
             && (path in s.table ==> s.table[path] !in s.holder)
    requires |mine| <= maxContent && 0 !in mine
    ensures Run(files, labels + later, h).Some?
    ensures var s, s' := Run(files, labels, h).value, Run(files, labels + later, h).value;
            && PcOf(s', t).Answered? && PcOf(s', t).result == Ok(Written(h(mine)))
            && s'.files == s.files[path := File(mine)]
  {
    var opening := OpenAlone(files, labels, t, path, content, h);
    var saving := SaveAlone(files, labels + opening, t, path, content, mine, maxContent, h);
    later := opening + saving;
    MoreLabels(labels, opening, saving);
  }

  lemma MoreLabels(labels: seq<Label>, opening: seq<Label>, saving: seq<Label>)
    ensures labels + (opening + saving) == labels + opening + saving
  {
  }
}
