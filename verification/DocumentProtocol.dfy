/** Concurrent editors on one devhost: any number of clients that open and save documents
    (engine.rs), and any number of `write_file` calls (fs_ops.rs) interleaved at the granularity
    lock lookup / lock / check / read / compare / write / unlock, over any number of paths.

    Every round trip of an open is one atomic step, as is `fs::write`. Programs other than `hostd`
    may change any file at any moment. Between a locked writer's read and its write the source has
    no defence against them; what that costs is stated exactly. */
module DocumentProtocol {
  import opened Wrappers
  import opened Utf8
  import opened HostFiles
  import opened DocumentReader

  /** One `write_file` call; `seen` is the content the caller bases its save on, if it saves a document. */
  datatype WriteOp = WriteOp(path: Path, base: Revision, content: seq<byte>, maxContent: nat, seen: Option<seq<byte>>)

  /** Where a thread of control stands. `since` and `snapshot` record which file state its first
      read request saw. */
  datatype Pc =
    | Idle
    | Opening(path: Path, assembly: Assembly, since: nat, snapshot: seq<byte>)
    | Opened(path: Path, document: Document, since: nat)
    | Entered(id: nat, op: WriteOp)
    | Waiting(id: nat, op: WriteOp, lock: nat)
    | Locked(id: nat, op: WriteOp, lock: nat)
    | Checked(id: nat, op: WriteOp, lock: nat)
    | HasRead(id: nat, op: WriteOp, lock: nat, current: seq<byte>, readAt: nat)
    | Matched(id: nat, op: WriteOp, lock: nat, current: seq<byte>, readAt: nat)
    | Releasing(id: nat, op: WriteOp, lock: nat, result: WriteResult)
    | Answered(id: nat, op: WriteOp, result: WriteResult)

  /** The linear history: completed writes and changes made by other programs. `readAt` is how long the
      history was when the call read the file. */
  datatype Entry =
    | Call(id: nat, op: WriteOp, result: WriteResult, readAt: nat)
    | External(path: Path, node: Option<Node>)

  /** A content a client has been told of, with its revision. */
  datatype Basis = Basis(path: Path, revision: Revision, content: seq<byte>)

  datatype State = State(
    files: Files,
    table: map<Path, nat>,
    nextLock: nat,
    holder: map<nat, nat>,
    threads: map<nat, Pc>,
    nextId: nat,
    history: seq<Entry>)

  datatype Label =
    | BeginOpen(t: nat, path: Path)
    | Request(t: nat, fault: Option<Reply>)
    | BeginSave(t: nat, basis: Basis, content: seq<byte>, maxContent: nat)
    | BeginWrite(t: nat, path: Path, base: Revision, content: seq<byte>, maxContent: nat)
    | Lookup(t: nat)
    | Acquire(t: nat)
    | Check(t: nat)
    | Read(t: nat)
    | Compare(t: nat)
    | Write(t: nat)
    | IoFailure(t: nat)
    | Unlock(t: nat)
    | OtherProgram(path: Path, node: Option<Node>)

  function PcOf(s: State, t: nat): Pc {
    if t in s.threads then s.threads[t] else Idle
  }

  function Goto(s: State, t: nat, pc: Pc): State {
    s.(threads := s.threads[t := pc])
  }

  function Apply(files: Files, path: Path, node: Option<Node>): Files {
    match node
    case Some(n) => files[path := n]
    case None => files - {path}
  }

  predicate Ready(pc: Pc) {
    pc.Idle? || pc.Opened? || pc.Answered?
  }

  /** Between its read and its write. */
  predicate InWindow(pc: Pc) {
    pc.HasRead? || pc.Matched?
  }

  function Finish(s: State, t: nat, pc: Pc, result: WriteResult, readAt: nat): State
    requires pc.Locked? || pc.Checked? || pc.HasRead? || pc.Matched?
  {
    Goto(s, t, Releasing(pc.id, pc.op, pc.lock, result)).(history := s.history + [Call(pc.id, pc.op, result, readAt)])
  }

  /** What an answer lets a client base a save on: the document it opened, the content a save just wrote,
      the content a stale answer carried, or, after a failed save, what that save was based on. */
  function BasisOf(pc: Pc): Option<Basis> {
    match pc
    case Opened(path, d, _) => Some(Basis(path, d.revision, d.content))
    case Answered(_, op, Ok(Written(revision))) => Some(Basis(op.path, revision, op.content))
    case Answered(_, op, Ok(Stale(revision, content))) => Some(Basis(op.path, revision, content))
    case Answered(_, op, Err(_)) => if op.seen.Some? then Some(Basis(op.path, op.base, op.seen.value)) else None
    case _ => None
  }

  /** One step; None when the label is not enabled. */
  function Next(s: State, l: Label, h: Hash): Option<State> {
    match l
    case OtherProgram(path, node) =>
      Some(s.(files := Apply(s.files, path, node), history := s.history + [External(path, node)]))
    case BeginOpen(t, path) =>
      if Ready(PcOf(s, t)) then Some(Goto(s, t, Opening(path, START, 0, []))) else None
    case Request(t, fault) =>
      if PcOf(s, t).Opening? && (fault.None? || !fault.value.Range?) then
        Some(OpenStep(s, t, PcOf(s, t), fault, h))
      else None
    case BeginSave(t, b, content, maxContent) =>
      // on any content with its revision, so also on one held before an answer that never arrived
      if Ready(PcOf(s, t)) && b.revision == h(b.content) then
        var op := WriteOp(b.path, b.revision, content, maxContent, Some(b.content));
        Some(Goto(s, t, Entered(s.nextId, op)).(nextId := s.nextId + 1))
      else None
    case BeginWrite(t, path, base, content, maxContent) =>
      if Ready(PcOf(s, t)) then
        Some(Goto(s, t, Entered(s.nextId, WriteOp(path, base, content, maxContent, None))).(nextId := s.nextId + 1))
      else None
    case _ => WriteStep(s, l.t, l, h)
  }

  function OpenStep(s: State, t: nat, pc: Pc, fault: Option<Reply>, h: Hash): State
    requires pc.Opening?
  {
    var reply := if fault.Some? then fault.value else HostReply(s.files, pc.path, pc.assembly.offset, h);
    var first := pc.assembly == START;
    var since := if first then |s.history| else pc.since;
    match Absorb(pc.assembly, reply)
    case Failed(_) => Goto(s, t, Idle)
    case Complete(d) => Goto(s, t, Opened(pc.path, d, since))
    case More(a) =>
      var now := Stat(s.files, pc.path);
      Goto(s, t, Opening(pc.path, a, since, if first && now.Ok? then now.value else pc.snapshot))
  }

  /** The steps of `write_file`, in its own order. */
  function WriteStep(s: State, t: nat, l: Label, h: Hash): Option<State> {
    var pc := PcOf(s, t);
    match (pc, l)
    case (Entered(id, op), Lookup(_)) =>
      // path_lock: the table only ever grows
      if op.path in s.table then Some(Goto(s, t, Waiting(id, op, s.table[op.path])))
      else
        var s' := s.(table := s.table[op.path := s.nextLock], nextLock := s.nextLock + 1);
        Some(Goto(s', t, Waiting(id, op, s.nextLock)))
    case (Waiting(id, op, lock), Acquire(_)) =>
      if lock in s.holder then None else Some(Goto(s, t, Locked(id, op, lock)).(holder := s.holder[lock := t]))
    case (Locked(id, op, lock), Check(_)) =>
      (match Precheck(s.files, op.path, op.content, op.maxContent)
       case Err(e) => Some(Finish(s, t, pc, Err(e), |s.history|))
       case Ok(_) => Some(Goto(s, t, Checked(id, op, lock))))
    case (Checked(id, op, lock), Read(_)) =>
      (match Stat(s.files, op.path)
       case Err(e) => Some(Finish(s, t, pc, Err(if e == NotFound then NotFound else Io), |s.history|))
       case Ok(current) =>
         // a mismatch is decided here: the answer describes this very state
         var entry := Call(id, op, Ok(Stale(h(current), current)), |s.history|);
         var s' := Goto(s, t, HasRead(id, op, lock, current, |s.history|));
         Some(if h(current) != op.base then s'.(history := s.history + [entry]) else s'))
    case (HasRead(id, op, lock, current, readAt), Compare(_)) =>
      if h(current) != op.base then Some(Goto(s, t, Releasing(id, op, lock, Ok(Stale(h(current), current)))))
      else Some(Goto(s, t, Matched(id, op, lock, current, readAt)))
    case (Matched(id, op, lock, current, readAt), Write(_)) =>
      // the file is created anew if it has gone; a directory in its place cannot be written
      if op.path in s.files && s.files[op.path].Directory? then Some(Finish(s, t, pc, Err(Io), |s.history|))
      else Some(Finish(s, t, pc, Ok(Written(h(op.content))), readAt).(files := s.files[op.path := File(op.content)]))
    case (Locked(_, _, _), IoFailure(_)) => Some(Finish(s, t, pc, Err(Io), |s.history|))
    case (Checked(_, _, _), IoFailure(_)) => Some(Finish(s, t, pc, Err(Io), |s.history|))
    case (Matched(_, _, _, _, _), IoFailure(_)) => Some(Finish(s, t, pc, Err(Io), |s.history|))
    case (Releasing(id, op, lock, result), Unlock(_)) =>
      Some(Goto(s, t, Answered(id, op, result)).(holder := s.holder - {lock}))
    case _ => None
  }

  function Init(files: Files): State {
    State(files, map[], 0, map[], map[], 0, [])
  }

  /** The state after a run; None when some label was not enabled. */
  function Run(files: Files, labels: seq<Label>, h: Hash): Option<State> {
    if labels == [] then Some(Init(files))
    else
      match Run(files, labels[..|labels| - 1], h)
      case None => None
      case Some(s) => Next(s, labels[|labels| - 1], h)
  }

  // ---- the sequential reading of a history ----

  function Effect(files: Files, e: Entry): Files {
    match e
    case External(path, node) => Apply(files, path, node)
    case Call(_, op, result, _) =>
      if result.Ok? && result.value.Written? then files[op.path := File(op.content)] else files
  }

  function FilesAfter(files: Files, history: seq<Entry>): Files {
    if history == [] then files else Effect(FilesAfter(files, history[..|history| - 1]), history[|history| - 1])
  }

  /** The last change another program made to `path` since the history was `from` long. */
  function LastChange(history: seq<Entry>, from: nat, path: Path): Option<Option<Node>> {
    if |history| <= from then None
    else
      var e := history[|history| - 1];
      if e.External? && e.path == path then Some(e.node) else LastChange(history[..|history| - 1], from, path)
  }

  /** Another program changed the file between this call's read and its write. */
  predicate Raced(history: seq<Entry>, e: Entry) {
    e.Call? && LastChange(history, e.readAt, e.op.path).Some?
  }

  predicate WritesTo(e: Entry, path: Path) {
    e.Call? && e.result.Ok? && e.result.value.Written? && e.op.path == path
  }

  ghost predicate NoWriteSince(history: seq<Entry>, from: nat, path: Path) {
    forall i :: from <= i < |history| ==> !WritesTo(history[i], path)
  }

  /** What one atomic compare-and-swap answers and does in this state; an I/O error changes nothing, and
      a file that vanishes after the check is reported as such. */
  ghost predicate Atomic(files: Files, e: Entry, h: Hash)
    requires e.Call?
  {
    || e.result == Err(Io)
    || (e.result.Err? && Stat(files, e.op.path) == Err(e.result.error))
    || (Effect(files, e), e.result) == CompareAndSwap(files, e.op.path, e.op.base, e.op.content, e.op.maxContent, h)
  }

  /** The entry behind this history: an atomic compare-and-swap, or, when another program came in between
      its read and its write, a write whose compare-and-swap would have succeeded at its read and which
      no other writer's write came in between. */
  ghost predicate Explains(files: Files, history: seq<Entry>, e: Entry, h: Hash) {
    e.Call? ==>
      && e.readAt <= |history|
      && (if !Raced(history, e) then Atomic(FilesAfter(files, history), e, h)
          else
            && e.result == Ok(Written(h(e.op.content)))
            && CompareAndSwap(FilesAfter(files, history[..e.readAt]), e.op.path, e.op.base, e.op.content,
                              e.op.maxContent, h).1 == e.result
            && NoWriteSince(history, e.readAt, e.op.path))
  }

  ghost predicate Sequential(files: Files, history: seq<Entry>, h: Hash) {
    forall i :: 0 <= i < |history| ==> Explains(files, history[..i], history[i], h)
  }

  lemma SequentialAppend(files: Files, history: seq<Entry>, e: Entry, h: Hash)
    requires Sequential(files, history, h) && Explains(files, history, e, h)
    ensures Sequential(files, history + [e], h)
    ensures FilesAfter(files, history + [e]) == Effect(FilesAfter(files, history), e)
  {
    var longer := history + [e];
    assert longer[..|history|] == history;
    forall i | 0 <= i < |longer| ensures Explains(files, longer[..i], longer[i], h) {
      assert longer[..i] == history[..i];
      if i == |history| { assert history[..i] == history; }
    }
  }

  /** What `stat` sees of a node left by another program. */
  function StatOf(node: Option<Node>): Result<seq<byte>, FsError> {
    match node
    case None => Err(NotFound)
    case Some(Directory) => Err(NotAFile)
    case Some(File(content)) => Ok(content)
  }

  /** While no writer writes to a path, it holds what the last other program left there. */
  lemma {:induction false} LeftByOthers(files: Files, history: seq<Entry>, from: nat, path: Path)
    requires from <= |history| && NoWriteSince(history, from, path)
    ensures Stat(FilesAfter(files, history), path)
         == match LastChange(history, from, path)
            case Some(node) => StatOf(node)
            case None => Stat(FilesAfter(files, history[..from]), path)
    decreases |history|
  {
    if |history| == from {
      assert history[..from] == history;
    } else {
      var before, e := history[..|history| - 1], history[|history| - 1];
      assert !WritesTo(e, path);
      LeftByOthers(files, before, from, path);
      assert before[..from] == history[..from];
    }
  }

  // ---- the invariant ----

  predicate HasId(pc: Pc) {
    !pc.Idle? && !pc.Opening? && !pc.Opened?
  }

  predicate HasLock(pc: Pc) {
    HasId(pc) && !pc.Entered? && !pc.Answered?
  }

  predicate Holds(pc: Pc) {
    HasLock(pc) && !pc.Waiting?
  }

  /** The result a call is already committed to, though it may not have returned yet. */
  function Decided(pc: Pc, h: Hash): Option<WriteResult> {
    match pc
    case HasRead(_, op, _, current, _) => if h(current) != op.base then Some(Ok(Stale(h(current), current))) else None
    case Releasing(_, _, _, result) => Some(result)
    case Answered(_, _, result) => Some(result)
    case _ => None
  }

  /** The history has an entry for this call with this result. */
  ghost predicate Listed(history: seq<Entry>, id: nat, op: WriteOp, result: WriteResult) {
    exists i :: 0 <= i < |history| && history[i].Call? && history[i].id == id && history[i].op == op
        && history[i].result == result
  }

  ghost predicate IdListed(history: seq<Entry>, id: nat) {
    exists i :: 0 <= i < |history| && history[i].Call? && history[i].id == id
  }

  ghost predicate Honest(op: WriteOp, h: Hash) {
    op.seen.Some? ==> op.base == h(op.seen.value)
  }

  /** The revision an answer carries is that of the content it stands for. */
  ghost predicate Truthful(op: WriteOp, result: WriteResult, h: Hash) {
    match result
    case Ok(Written(revision)) => revision == h(op.content)
    case Ok(Stale(revision, content)) => revision == h(content)
    case Err(_) => true
  }

  predicate Passes(op: WriteOp) {
    |op.content| <= op.maxContent && 0 !in op.content
  }

  /** The content of `path` in the file state right after the first `since` entries. */
  ghost predicate WasContent(files: Files, history: seq<Entry>, since: nat, path: Path, content: seq<byte>) {
    since <= |history| && Stat(FilesAfter(files, history[..since]), path) == Ok(content)
  }

  /** A writer between a matching read and its write: the file held `current` at the read, and no writer
      has written to it since. */
  ghost predicate WindowOk(files: Files, history: seq<Entry>, pc: Pc, h: Hash)
    requires InWindow(pc)
  {
    && WasContent(files, history, pc.readAt, pc.op.path, pc.current)
    && (h(pc.current) == pc.op.base ==> NoWriteSince(history, pc.readAt, pc.op.path))
  }

  ghost predicate CallOk(files: Files, s: State, t: nat, pc: Pc, h: Hash)
    requires HasId(pc)
  {
    && pc.id < s.nextId && Honest(pc.op, h)
    && (if Decided(pc, h).Some? then
          Listed(s.history, pc.id, pc.op, Decided(pc, h).value) && Truthful(pc.op, Decided(pc, h).value, h)
        else !IdListed(s.history, pc.id))
    && (HasLock(pc) ==> pc.op.path in s.table && s.table[pc.op.path] == pc.lock)
    && (Holds(pc) ==> pc.lock in s.holder && s.holder[pc.lock] == t)
    && (pc.Checked? || InWindow(pc) ==> Passes(pc.op))
    && (InWindow(pc) ==> WindowOk(files, s.history, pc, h))
    && (pc.Matched? ==> h(pc.current) == pc.op.base)
  }

  ghost predicate OpenOk(files: Files, s: State, pc: Pc, h: Hash) {
    match pc
    case Opening(path, a, since, snapshot) =>
      a != START ==> PrefixOf(a, snapshot, h) && WasContent(files, s.history, since, path, snapshot)
    case Opened(path, d, since) =>
      d == Document(d.content, |d.content|, h(d.content)) && WasContent(files, s.history, since, path, d.content)
    case _ => true
  }

  ghost predicate ThreadOk(files: Files, s: State, t: nat, h: Hash) {
    var pc := PcOf(s, t);
    OpenOk(files, s, pc, h) && (HasId(pc) ==> CallOk(files, s, t, pc, h))
  }

  ghost predicate IdsDistinct(s: State) {
    && (forall i, j :: 0 <= i < j < |s.history| && s.history[i].Call? && s.history[j].Call? ==>
          s.history[i].id != s.history[j].id)
    && (forall i :: 0 <= i < |s.history| && s.history[i].Call? ==> s.history[i].id < s.nextId)
    && (forall t, u :: t in s.threads && u in s.threads && t != u && HasId(s.threads[t]) && HasId(s.threads[u])
          ==> s.threads[t].id != s.threads[u].id)
  }

  ghost predicate LocksOk(s: State) {
    && (forall p, q :: p in s.table && q in s.table && s.table[p] == s.table[q] ==> p == q)
    && (forall p :: p in s.table ==> s.table[p] < s.nextLock)
    && (forall l :: l in s.holder ==> Holds(PcOf(s, s.holder[l])) && PcOf(s, s.holder[l]).lock == l)
  }

  ghost predicate HistoryHonest(s: State, h: Hash) {
    forall i :: 0 <= i < |s.history| && s.history[i].Call? ==> Honest(s.history[i].op, h)
  }

  ghost predicate Inv(files: Files, s: State, h: Hash) {
    && s.files == FilesAfter(files, s.history) && Sequential(files, s.history, h)
    && IdsDistinct(s) && LocksOk(s) && HistoryHonest(s, h)
    && forall t: nat :: ThreadOk(files, s, t, h)
  }

  // ---- every step keeps it ----

  /** What a step of one thread must leave alone for another thread's facts to survive. */
  ghost predicate Leaves(files: Files, s: State, s': State, u: nat) {
    var pc := PcOf(s, u);
    && PcOf(s', u) == pc
    && s.history <= s'.history && s.nextId <= s'.nextId
    && (forall i :: |s.history| <= i < |s'.history| && s'.history[i].Call? && HasId(pc) ==> s'.history[i].id != pc.id)
    && (forall p :: p in s.table ==> p in s'.table && s'.table[p] == s.table[p])
    && (Holds(pc) && pc.lock in s.holder ==> pc.lock in s'.holder && s'.holder[pc.lock] == s.holder[pc.lock])
    && (InWindow(pc) ==> forall i :: |s.history| <= i < |s'.history| ==> !WritesTo(s'.history[i], pc.op.path))
  }

  lemma OthersKept(files: Files, s: State, s': State, u: nat, h: Hash)
    requires ThreadOk(files, s, u, h) && Leaves(files, s, s', u)
    ensures ThreadOk(files, s', u, h)
  {
    var pc := PcOf(s, u);
    if pc.Opening? || pc.Opened? {
      if pc.since <= |s.history| {
        assert s.history[..pc.since] == s'.history[..pc.since];
      }
    } else if HasId(pc) {
      if InWindow(pc) {
        WindowKept(files, s.history, s'.history, pc, h);
      }
      if Decided(pc, h).Some? {
        ListedKept(s.history, s'.history, pc.id, pc.op, Decided(pc, h).value);
      } else {
        forall i | 0 <= i < |s'.history| && s'.history[i].Call? ensures s'.history[i].id != pc.id {
          if i < |s.history| { assert s'.history[i] == s.history[i]; }
        }
      }
    }
  }

  lemma ListedKept(history: seq<Entry>, longer: seq<Entry>, id: nat, op: WriteOp, result: WriteResult)
    requires history <= longer && Listed(history, id, op, result)
    ensures Listed(longer, id, op, result)
  {
    var i :| 0 <= i < |history| && history[i].Call? && history[i].id == id && history[i].op == op
        && history[i].result == result;
    assert longer[i] == history[i];
  }

  lemma WindowKept(files: Files, history: seq<Entry>, longer: seq<Entry>, pc: Pc, h: Hash)
    requires InWindow(pc) && WindowOk(files, history, pc, h) && history <= longer
    requires forall i :: |history| <= i < |longer| ==> !WritesTo(longer[i], pc.op.path)
    ensures WindowOk(files, longer, pc, h)
  {
    assert longer[..pc.readAt] == history[..pc.readAt];
    if h(pc.current) == pc.op.base {
      forall i | pc.readAt <= i < |longer| ensures !WritesTo(longer[i], pc.op.path) {
        if i < |history| { assert longer[i] == history[i]; }
      }
    }
  }

  /** A thread that is at a write holds the only lock of its path. */
  lemma WindowsAreDisjoint(files: Files, s: State, t: nat, u: nat, h: Hash)
    requires Inv(files, s, h) && t != u
    requires Holds(PcOf(s, t)) && Holds(PcOf(s, u))
    ensures PcOf(s, t).op.path != PcOf(s, u).op.path
  {
    assert ThreadOk(files, s, t, h) && ThreadOk(files, s, u, h);
  }

  /** Appending one entry for an undecided call keeps the history's facts. */
  lemma AppendEntry(files: Files, s: State, s': State, e: Entry, h: Hash)
    requires Inv(files, s, h)
    requires s'.history == s.history + [e] && s'.files == Effect(s.files, e)
    requires Explains(files, s.history, e, h)
    requires e.Call? ==> e.id < s.nextId && !IdListed(s.history, e.id) && Honest(e.op, h)
    requires s'.nextId == s.nextId
    ensures s'.files == FilesAfter(files, s'.history) && Sequential(files, s'.history, h) && HistoryHonest(s', h)
    ensures forall i, j :: 0 <= i < j < |s'.history| && s'.history[i].Call? && s'.history[j].Call?
              ==> s'.history[i].id != s'.history[j].id
    ensures forall i :: 0 <= i < |s'.history| && s'.history[i].Call? ==> s'.history[i].id < s'.nextId
    ensures e.Call? ==> Listed(s'.history, e.id, e.op, e.result)
  {
    SequentialAppend(files, s.history, e, h);
    assert s'.history[|s.history|] == e;
    forall i, j | 0 <= i < j < |s'.history| && s'.history[i].Call? && s'.history[j].Call?
      ensures s'.history[i].id != s'.history[j].id
    {
      if j == |s.history| {
        assert !IdListed(s.history, e.id);
      }
    }
  }

  lemma ExternalLeaves(files: Files, s: State, s': State, e: Entry, u: nat)
    requires e.External? && s' == s.(files := s'.files, history := s.history + [e])
    ensures Leaves(files, s, s', u)
  {
    assert s'.history[|s.history|] == e;
  }

  lemma OtherProgramKeeps(files: Files, s: State, path: Path, node: Option<Node>, h: Hash)
    requires Inv(files, s, h)
    ensures Inv(files, s.(files := Apply(s.files, path, node), history := s.history + [External(path, node)]), h)
  {
    var e := External(path, node);
    var s' := s.(files := Apply(s.files, path, node), history := s.history + [e]);
    AppendEntry(files, s, s', e, h);
    assert IdsDistinct(s') && LocksOk(s');
    forall u: nat ensures ThreadOk(files, s', u, h) {
      assert ThreadOk(files, s, u, h);
      ExternalLeaves(files, s, s', e, u);
      OthersKept(files, s, s', u, h);
    }
  }

  lemma BeginOpenKeeps(files: Files, s: State, t: nat, path: Path, h: Hash)
    requires Inv(files, s, h) && Ready(PcOf(s, t))
    ensures Inv(files, Goto(s, t, Opening(path, START, 0, [])), h)
  {
    assert ThreadOk(files, s, t, h);
    var s' := Goto(s, t, Opening(path, START, 0, []));
    forall u: nat ensures ThreadOk(files, s', u, h) {
      assert ThreadOk(files, s, u, h);
      if u != t { OthersKept(files, s, s', u, h); }
    }
  }

  lemma BeginWriteIds(files: Files, s: State, t: nat, op: WriteOp, h: Hash)
    requires Inv(files, s, h)
    ensures var s' := Goto(s, t, Entered(s.nextId, op)).(nextId := s.nextId + 1);
            IdsDistinct(s') && !IdListed(s.history, s.nextId)
  {
    forall u | u in s.threads && HasId(s.threads[u]) ensures s.threads[u].id < s.nextId {
      assert ThreadOk(files, s, u, h);
    }
  }

  lemma BeginWriteKeeps(files: Files, s: State, t: nat, op: WriteOp, h: Hash)
    requires Inv(files, s, h) && Ready(PcOf(s, t)) && Honest(op, h)
    ensures Inv(files, Goto(s, t, Entered(s.nextId, op)).(nextId := s.nextId + 1), h)
  {
    var s' := Goto(s, t, Entered(s.nextId, op)).(nextId := s.nextId + 1);
    BeginWriteIds(files, s, t, op, h);
    forall u: nat ensures ThreadOk(files, s', u, h) {
      assert ThreadOk(files, s, u, h);
      if u != t { OthersKept(files, s, s', u, h); }
    }
  }

  lemma RequestOpenOk(files: Files, s: State, t: nat, fault: Option<Reply>, h: Hash)
    requires Injective(h) && s.files == FilesAfter(files, s.history)
    requires PcOf(s, t).Opening? && (fault.None? || !fault.value.Range?)
    requires OpenOk(files, s, PcOf(s, t), h)
    ensures var s' := OpenStep(s, t, PcOf(s, t), fault, h);
            OpenOk(files, s', PcOf(s', t), h) && !HasId(PcOf(s', t)) && s' == Goto(s, t, PcOf(s', t))
  {
    var pc := PcOf(s, t);
    assert s.history[..|s.history|] == s.history;
    AbsorbKeepsSnapshot(pc.assembly, pc.snapshot, s.files, pc.path, h);
  }

  lemma RequestKeeps(files: Files, s: State, t: nat, fault: Option<Reply>, h: Hash)
    requires Injective(h) && Inv(files, s, h)
    requires PcOf(s, t).Opening? && (fault.None? || !fault.value.Range?)
    ensures Inv(files, OpenStep(s, t, PcOf(s, t), fault, h), h)
  {
    assert ThreadOk(files, s, t, h);
    RequestOpenOk(files, s, t, fault, h);
    var pc := PcOf(OpenStep(s, t, PcOf(s, t), fault, h), t);
    var s' := Goto(s, t, pc);
    forall u: nat ensures ThreadOk(files, s', u, h) {
      assert ThreadOk(files, s, u, h);
      if u != t { OthersKept(files, s, s', u, h); }
    }
  }

  /** A writer's step that leaves files and history alone, and of the locks touches only its own. */
  lemma QuietStepKeeps(files: Files, s: State, s': State, t: nat, h: Hash)
    requires Inv(files, s, h) && HasId(PcOf(s, t)) && HasId(PcOf(s', t)) && PcOf(s', t).id == PcOf(s, t).id
    requires s' == s.(threads := s.threads[t := PcOf(s', t)], table := s'.table, nextLock := s'.nextLock,
                      holder := s'.holder)
    requires LocksOk(s') && CallOk(files, s', t, PcOf(s', t), h)
    requires forall p :: p in s.table ==> p in s'.table && s'.table[p] == s.table[p]
    requires forall l :: l in s.holder && s.holder[l] != t ==> l in s'.holder && s'.holder[l] == s.holder[l]
    ensures Inv(files, s', h)
  {
    forall u: nat ensures ThreadOk(files, s', u, h) {
      assert ThreadOk(files, s, u, h);
      if u != t { OthersKept(files, s, s', u, h); }
    }
  }

  lemma LookupOk(files: Files, s: State, t: nat, h: Hash)
    requires Inv(files, s, h) && PcOf(s, t).Entered?
    ensures var s' := WriteStep(s, t, Lookup(t), h).value;
            && PcOf(s', t).Waiting? && PcOf(s', t).id == PcOf(s, t).id
            && CallOk(files, s', t, PcOf(s', t), h)
  {
    assert ThreadOk(files, s, t, h);
  }

  lemma LookupKeeps(files: Files, s: State, t: nat, h: Hash)
    requires Inv(files, s, h) && PcOf(s, t).Entered?
    ensures Inv(files, WriteStep(s, t, Lookup(t), h).value, h)
  {
    LookupOk(files, s, t, h);
    QuietStepKeeps(files, s, WriteStep(s, t, Lookup(t), h).value, t, h);
  }

  lemma AcquireKeeps(files: Files, s: State, t: nat, h: Hash)
    requires Inv(files, s, h) && PcOf(s, t).Waiting? && PcOf(s, t).lock !in s.holder
    ensures Inv(files, WriteStep(s, t, Acquire(t), h).value, h)
  {
    assert ThreadOk(files, s, t, h);
    QuietStepKeeps(files, s, WriteStep(s, t, Acquire(t), h).value, t, h);
  }

  lemma CompareOk(files: Files, s: State, t: nat, h: Hash)
    requires Inv(files, s, h) && PcOf(s, t).HasRead?
    ensures var s' := WriteStep(s, t, Compare(t), h).value;
            && s' == Goto(s, t, PcOf(s', t)) && (PcOf(s', t).Matched? || PcOf(s', t).Releasing?)
            && PcOf(s', t).id == PcOf(s, t).id && PcOf(s', t).lock == PcOf(s, t).lock
            && CallOk(files, s', t, PcOf(s', t), h)
  {
    assert ThreadOk(files, s, t, h);
  }

  lemma CompareKeeps(files: Files, s: State, t: nat, h: Hash)
    requires Inv(files, s, h) && PcOf(s, t).HasRead?
    ensures Inv(files, WriteStep(s, t, Compare(t), h).value, h)
  {
    CompareOk(files, s, t, h);
    QuietStepKeeps(files, s, WriteStep(s, t, Compare(t), h).value, t, h);
  }

  lemma UnlockKeeps(files: Files, s: State, t: nat, h: Hash)
    requires Inv(files, s, h) && PcOf(s, t).Releasing?
    ensures Inv(files, WriteStep(s, t, Unlock(t), h).value, h)
  {
    assert ThreadOk(files, s, t, h);
    QuietStepKeeps(files, s, WriteStep(s, t, Unlock(t), h).value, t, h);
  }

  lemma CheckKeeps(files: Files, s: State, t: nat, h: Hash)
    requires Inv(files, s, h) && PcOf(s, t).Locked?
             && Precheck(s.files, PcOf(s, t).op.path, PcOf(s, t).op.content, PcOf(s, t).op.maxContent).Ok?
    ensures Inv(files, WriteStep(s, t, Check(t), h).value, h)
  {
    assert ThreadOk(files, s, t, h);
    QuietStepKeeps(files, s, WriteStep(s, t, Check(t), h).value, t, h);
  }

  lemma MatchingReadKeeps(files: Files, s: State, t: nat, h: Hash)
    requires Inv(files, s, h) && PcOf(s, t).Checked?
    requires Stat(s.files, PcOf(s, t).op.path).Ok? && h(Stat(s.files, PcOf(s, t).op.path).value) == PcOf(s, t).op.base
    ensures Inv(files, WriteStep(s, t, Read(t), h).value, h)
  {
    assert ThreadOk(files, s, t, h);
    assert s.history[..|s.history|] == s.history;
    QuietStepKeeps(files, s, WriteStep(s, t, Read(t), h).value, t, h);
  }

  /** The step at which a call's outcome is decided: it appends exactly one explained entry. */
  ghost predicate Decides(files: Files, s: State, s': State, t: nat, e: Entry, h: Hash) {
    var pc, pc' := PcOf(s, t), PcOf(s', t);
    && Holds(pc) && Decided(pc, h).None?
    && Holds(pc') && Decided(pc', h).Some? && !pc'.Checked?
    && pc'.id == pc.id && pc'.op == pc.op && pc'.lock == pc.lock
    && e.Call? && e.id == pc.id && e.op == pc.op && e.result == Decided(pc', h).value
    && Truthful(e.op, e.result, h)
    && Explains(files, s.history, e, h)
    && s' == s.(threads := s.threads[t := pc'], history := s.history + [e], files := Effect(s.files, e))
    && (InWindow(pc') ==> Passes(pc'.op) && pc'.HasRead? && h(pc'.current) != pc'.op.base
                          && WasContent(files, s.history, pc'.readAt, pc'.op.path, pc'.current))
  }

  lemma DecidingLeavesOthers(files: Files, s: State, s': State, t: nat, e: Entry, u: nat, h: Hash)
    requires Inv(files, s, h) && Decides(files, s, s', t, e, h) && u != t
    ensures ThreadOk(files, s', u, h)
  {
    assert ThreadOk(files, s, t, h) && ThreadOk(files, s, u, h);
    if Holds(PcOf(s, u)) { WindowsAreDisjoint(files, s, t, u, h); }
    OthersKept(files, s, s', u, h);
  }

  lemma DecidingAppends(files: Files, s: State, s': State, t: nat, e: Entry, h: Hash)
    requires Inv(files, s, h) && Decides(files, s, s', t, e, h)
    ensures s'.files == FilesAfter(files, s'.history) && Sequential(files, s'.history, h) && HistoryHonest(s', h)
    ensures IdsDistinct(s') && Listed(s'.history, e.id, e.op, e.result)
  {
    assert ThreadOk(files, s, t, h);
    AppendEntry(files, s, s', e, h);
    SameIds(s, s', t);
  }

  lemma SameIds(s: State, s': State, t: nat)
    requires IdsDistinct(s) && HasId(PcOf(s, t)) && HasId(PcOf(s', t)) && PcOf(s', t).id == PcOf(s, t).id
    requires s'.threads == s.threads[t := PcOf(s', t)]
    ensures forall u, v :: u in s'.threads && v in s'.threads && u != v && HasId(s'.threads[u]) && HasId(s'.threads[v])
              ==> s'.threads[u].id != s'.threads[v].id
  {
  }

  lemma SameLocks(s: State, s': State, t: nat)
    requires LocksOk(s) && Holds(PcOf(s, t)) && Holds(PcOf(s', t)) && PcOf(s', t).lock == PcOf(s, t).lock
    requires s'.threads == s.threads[t := PcOf(s', t)]
    requires s'.table == s.table && s'.holder == s.holder && s'.nextLock == s.nextLock
    ensures LocksOk(s')
  {
  }

  lemma DecidedIsOk(files: Files, s: State, s': State, t: nat, e: Entry, h: Hash)
    requires Decides(files, s, s', t, e, h) && CallOk(files, s, t, PcOf(s, t), h)
    requires Listed(s'.history, e.id, e.op, e.result)
    ensures ThreadOk(files, s', t, h)
  {
    var pc' := PcOf(s', t);
    if InWindow(pc') {
      WasStill(files, s.history, s'.history, pc'.readAt, pc'.op.path, pc'.current);
    }
  }

  lemma WasStill(files: Files, history: seq<Entry>, longer: seq<Entry>, at: nat, path: Path, content: seq<byte>)
    requires WasContent(files, history, at, path, content) && history <= longer
    ensures WasContent(files, longer, at, path, content)
  {
    assert longer[..at] == history[..at];
  }

  lemma DecisiveStepKeeps(files: Files, s: State, s': State, t: nat, e: Entry, h: Hash)
    requires Inv(files, s, h) && Decides(files, s, s', t, e, h)
    ensures Inv(files, s', h)
  {
    assert ThreadOk(files, s, t, h);
    DecidingAppends(files, s, s', t, e, h);
    SameLocks(s, s', t);
    DecidedIsOk(files, s, s', t, e, h);
    forall u: nat ensures ThreadOk(files, s', u, h) {
      if u != t { DecidingLeavesOthers(files, s, s', t, e, u, h); }
    }
  }

  lemma NotRaced(history: seq<Entry>, e: Entry)
    requires e.Call? && e.readAt == |history|
    ensures !Raced(history, e)
  {
  }

  lemma CheckFailureKeeps(files: Files, s: State, t: nat, h: Hash)
    requires Inv(files, s, h) && PcOf(s, t).Locked?
    requires var op := PcOf(s, t).op; Precheck(s.files, op.path, op.content, op.maxContent).Err?
    ensures Inv(files, WriteStep(s, t, Check(t), h).value, h)
  {
    assert ThreadOk(files, s, t, h);
    var pc := PcOf(s, t);
    var error := Precheck(s.files, pc.op.path, pc.op.content, pc.op.maxContent).error;
    var e := Call(pc.id, pc.op, Err(error), |s.history|);
    NotRaced(s.history, e);
    DecisiveStepKeeps(files, s, WriteStep(s, t, Check(t), h).value, t, e, h);
  }

  lemma IoFailureKeeps(files: Files, s: State, t: nat, h: Hash)
    requires Inv(files, s, h) && WriteStep(s, t, IoFailure(t), h).Some?
    ensures Inv(files, WriteStep(s, t, IoFailure(t), h).value, h)
  {
    assert ThreadOk(files, s, t, h);
    var pc := PcOf(s, t);
    var e := Call(pc.id, pc.op, Err(Io), |s.history|);
    NotRaced(s.history, e);
    DecisiveStepKeeps(files, s, WriteStep(s, t, IoFailure(t), h).value, t, e, h);
  }

  lemma FailedReadKeeps(files: Files, s: State, t: nat, h: Hash)
    requires Inv(files, s, h) && PcOf(s, t).Checked? && Stat(s.files, PcOf(s, t).op.path).Err?
    ensures Inv(files, WriteStep(s, t, Read(t), h).value, h)
  {
    assert ThreadOk(files, s, t, h);
    var pc := PcOf(s, t);
    var missing := Stat(s.files, pc.op.path).error == NotFound;
    var e := Call(pc.id, pc.op, Err(if missing then NotFound else Io), |s.history|);
    NotRaced(s.history, e);
    DecisiveStepKeeps(files, s, WriteStep(s, t, Read(t), h).value, t, e, h);
  }

  /** A stale answer is decided in the state that is read. */
  lemma StaleReadKeeps(files: Files, s: State, t: nat, h: Hash)
    requires Inv(files, s, h) && PcOf(s, t).Checked?
    requires var now := Stat(s.files, PcOf(s, t).op.path); now.Ok? && h(now.value) != PcOf(s, t).op.base
    ensures Inv(files, WriteStep(s, t, Read(t), h).value, h)
  {
    assert ThreadOk(files, s, t, h);
    var pc := PcOf(s, t);
    var current := Stat(s.files, pc.op.path).value;
    var e := Call(pc.id, pc.op, Ok(Stale(h(current), current)), |s.history|);
    NotRaced(s.history, e);
    assert s.history[..|s.history|] == s.history;
    DecisiveStepKeeps(files, s, WriteStep(s, t, Read(t), h).value, t, e, h);
  }

  lemma ReadKeeps(files: Files, s: State, t: nat, h: Hash)
    requires Inv(files, s, h) && PcOf(s, t).Checked?
    ensures Inv(files, WriteStep(s, t, Read(t), h).value, h)
  {
    var op := PcOf(s, t).op;
    var now := Stat(s.files, op.path);
    if now.Err? {
      FailedReadKeeps(files, s, t, h);
    } else if h(now.value) == op.base {
      MatchingReadKeeps(files, s, t, h);
    } else {
      StaleReadKeeps(files, s, t, h);
    }
  }

  /** The write: atomic when no other program came in between, and otherwise raced. */
  lemma WriteIsExplained(files: Files, s: State, t: nat, e: Entry, h: Hash)
    requires Inv(files, s, h) && PcOf(s, t).Matched?
    requires var pc := PcOf(s, t);
             e == Call(pc.id, pc.op, Ok(Written(h(pc.op.content))), pc.readAt)
    ensures Explains(files, s.history, e, h)
  {
    assert ThreadOk(files, s, t, h);
    var pc := PcOf(s, t);
    LeftByOthers(files, s.history, pc.readAt, pc.op.path);
  }

  lemma WriteKeeps(files: Files, s: State, t: nat, h: Hash)
    requires Inv(files, s, h) && PcOf(s, t).Matched?
    ensures Inv(files, WriteStep(s, t, Write(t), h).value, h)
  {
    assert ThreadOk(files, s, t, h);
    var s' := WriteStep(s, t, Write(t), h).value;
    var e := s'.history[|s.history|];
    if e.result.Ok? {
      WriteIsExplained(files, s, t, e, h);
    } else {
      NotRaced(s.history, e);
    }
    DecisiveStepKeeps(files, s, s', t, e, h);
  }

  lemma WriteStepKeeps(files: Files, s: State, t: nat, l: Label, h: Hash)
    requires Inv(files, s, h) && WriteStep(s, t, l, h).Some? && !l.OtherProgram? && l.t == t
    ensures Inv(files, WriteStep(s, t, l, h).value, h)
  {
    var pc := PcOf(s, t);
    match pc
    case Entered(_, _) => LookupKeeps(files, s, t, h);
    case Waiting(_, _, _) => AcquireKeeps(files, s, t, h);
    case Locked(_, op, _) =>
      if l.IoFailure? { IoFailureKeeps(files, s, t, h); }
      else if Precheck(s.files, op.path, op.content, op.maxContent).Ok? { CheckKeeps(files, s, t, h); }
      else { CheckFailureKeeps(files, s, t, h); }
    case Checked(_, _, _) =>
      if l.IoFailure? { IoFailureKeeps(files, s, t, h); } else { ReadKeeps(files, s, t, h); }
    case HasRead(_, _, _, _, _) => CompareKeeps(files, s, t, h);
    case Matched(_, _, _, _, _) => if l.Write? { WriteKeeps(files, s, t, h); } else { IoFailureKeeps(files, s, t, h); }
    case Releasing(_, _, _, _) => UnlockKeeps(files, s, t, h);
    case _ =>
  }

  predicate Begins(l: Label) {
    l.BeginOpen? || l.BeginSave? || l.BeginWrite?
  }

  function OpOfLabel(l: Label): WriteOp
    requires l.BeginSave? || l.BeginWrite?
  {
    if l.BeginSave? then WriteOp(l.basis.path, l.basis.revision, l.content, l.maxContent, Some(l.basis.content))
    else WriteOp(l.path, l.base, l.content, l.maxContent, None)
  }

  lemma BegunWrite(s: State, l: Label, h: Hash)
    requires (l.BeginSave? || l.BeginWrite?) && Next(s, l, h).Some?
    ensures Ready(PcOf(s, l.t)) && Honest(OpOfLabel(l), h)
    ensures Next(s, l, h).value == Goto(s, l.t, Entered(s.nextId, OpOfLabel(l))).(nextId := s.nextId + 1)
  {
  }

  lemma BeginKeeps(files: Files, s: State, l: Label, h: Hash)
    requires Inv(files, s, h) && Begins(l) && Next(s, l, h).Some?
    ensures Inv(files, Next(s, l, h).value, h)
  {
    if l.BeginOpen? {
      BeginOpenKeeps(files, s, l.t, l.path, h);
    } else {
      BegunWrite(s, l, h);
      BeginWriteKeeps(files, s, l.t, OpOfLabel(l), h);
    }
  }

  lemma NextIsWriteStep(s: State, l: Label, h: Hash)
    requires !Begins(l) && !l.Request? && !l.OtherProgram?
    ensures Next(s, l, h) == WriteStep(s, l.t, l, h)
  {
  }

  lemma NextKeeps(files: Files, s: State, l: Label, h: Hash)
    requires Injective(h) && Inv(files, s, h) && Next(s, l, h).Some?
    ensures Inv(files, Next(s, l, h).value, h)
  {
    if Begins(l) {
      BeginKeeps(files, s, l, h);
    } else if l.Request? {
      RequestKeeps(files, s, l.t, l.fault, h);
    } else if l.OtherProgram? {
      OtherProgramKeeps(files, s, l.path, l.node, h);
    } else {
      NextIsWriteStep(s, l, h);
      WriteStepKeeps(files, s, l.t, l, h);
    }
  }

  lemma {:induction false} RunKeepsInv(files: Files, labels: seq<Label>, h: Hash)
    requires Injective(h) && Run(files, labels, h).Some?
    ensures Inv(files, Run(files, labels, h).value, h)
  {
    if labels != [] {
      RunKeepsInv(files, labels[..|labels| - 1], h);
      NextKeeps(files, Run(files, labels[..|labels| - 1], h).value, labels[|labels| - 1], h);
    }
  }

  // ---- the main results, for every run ----

  /** `write_file` is linearizable: the files are what a sequential run of atomic compare-and-swaps,
      mixed with other programs' changes, leaves; every call appears at most once in that run, and
      whatever a call has answered is exactly what it got there. The one exception is a write whose file
      another program changed between its read and its write. */
  lemma WritesAreLinearizable(files: Files, labels: seq<Label>, h: Hash)
    requires Injective(h) && Run(files, labels, h).Some?
    ensures var s := Run(files, labels, h).value;
            && s.files == FilesAfter(files, s.history) && Sequential(files, s.history, h)
            && IdsDistinct(s)
            && forall t: nat :: PcOf(s, t).Answered?
                ==> Listed(s.history, PcOf(s, t).id, PcOf(s, t).op, PcOf(s, t).result)
  {
    RunKeepsInv(files, labels, h);
    var s := Run(files, labels, h).value;
    forall t: nat | PcOf(s, t).Answered? ensures Listed(s.history, PcOf(s, t).id, PcOf(s, t).op, PcOf(s, t).result) {
      assert ThreadOk(files, s, t, h);
    }
  }

  lemma NextGrows(s: State, l: Label, h: Hash)
    requires Next(s, l, h).Some?
    ensures s.history <= Next(s, l, h).value.history && s.nextId <= Next(s, l, h).value.nextId
  {
  }

  /** The sequential run respects real time: it only ever grows at its end, so a call that begins
      after some moment comes after everything decided by that moment. */
  lemma {:induction false} RealTimeOrder(files: Files, labels: seq<Label>, k: nat, h: Hash)
    requires Injective(h) && k <= |labels| && Run(files, labels, h).Some?
    ensures Run(files, labels[..k], h).Some?
    ensures var early, late := Run(files, labels[..k], h).value, Run(files, labels, h).value;
            && early.history <= late.history && early.nextId <= late.nextId
            && forall i :: 0 <= i < |late.history| && late.history[i].Call? && late.history[i].id >= early.nextId
                ==> i >= |early.history|
  {
    if k == |labels| {
      assert labels[..k] == labels;
      RunKeepsInv(files, labels, h);
    } else {
      var before := labels[..|labels| - 1];
      assert before[..k] == labels[..k];
      RealTimeOrder(files, before, k, h);
      NextGrows(Run(files, before, h).value, labels[|labels| - 1], h);
      RunKeepsInv(files, labels[..k], h);
      var early, late := Run(files, labels[..k], h).value, Run(files, labels, h).value;
      forall i | 0 <= i < |early.history| && late.history[i].Call? ensures late.history[i].id < early.nextId {
        assert late.history[i] == early.history[i];
      }
    }
  }

  /** What a save based on `seen` may do to the files and answer. */
  ghost predicate NothingLost(before: Files, after: Files, op: WriteOp, seen: seq<byte>, result: WriteResult, h: Hash) {
    var now := Stat(before, op.path);
    var ok := result.Ok? && result.value.Written?;
    && (ok ==>
          && now == Ok(seen) && after == before[op.path := File(op.content)]
          && result.value.newRevision == h(op.content))
    && (!ok ==> after == before)
    && (result.Ok? && result.value.Stale? ==>
         now == Ok(result.value.currentContent) && result.value.currentRevision == h(result.value.currentContent)
         && result.value.currentContent != seen)
    && (now.Ok? && Passes(op) && result != Err(Io) ==> result.Ok? && (ok <==> now == Ok(seen)))
  }

  lemma AtomicSave(before: Files, e: Entry, h: Hash)
    requires Injective(h) && e.Call? && e.op.seen.Some? && Honest(e.op, h) && Atomic(before, e, h)
    ensures NothingLost(before, Effect(before, e), e.op, e.op.seen.value, e.result, h)
  {
  }

  /** Every basis that any answer ever gave a client is one it can still save on, whatever it was told, or
      failed to be told, since. */
  lemma HeldBasesAreUsable(files: Files, labels: seq<Label>, k: nat, t: nat, u: nat, b: Basis, content: seq<byte>,
                           maxContent: nat, h: Hash)
    requires Injective(h) && k <= |labels| && Run(files, labels, h).Some?
    requires Run(files, labels[..k], h).Some? && BasisOf(PcOf(Run(files, labels[..k], h).value, t)) == Some(b)
    requires Ready(PcOf(Run(files, labels, h).value, u))
    ensures Run(files, labels + [BeginSave(u, b, content, maxContent)], h).Some?
  {
    RunKeepsInv(files, labels[..k], h);
    var early := Run(files, labels[..k], h).value;
    assert ThreadOk(files, early, t, h);
    var longer := labels + [BeginSave(u, b, content, maxContent)];
    assert longer[..|labels|] == labels;
  }

  /** No lost update, end to end: a save based on any content the client has been told of, by an open, by
      its own save or by a stale answer, and also when an answer in between was lost, writes exactly
      when it passes the size and binary checks, no I/O error intervenes, and the file holds, just
      before the write, the very content it is based on. A file with another content makes it stale, a
      stale answer carries the true current content, and every answer other than ok leaves the file
      as it was. Only a raced write is not covered; `RacedWriteExact` says what it does. */
  lemma NoLostUpdate(files: Files, labels: seq<Label>, h: Hash, i: nat)
    requires Injective(h) && Run(files, labels, h).Some?
    requires i < |Run(files, labels, h).value.history|
    requires var history := Run(files, labels, h).value.history;
             history[i].Call? && history[i].op.seen.Some? && !Raced(history[..i], history[i])
    ensures var history := Run(files, labels, h).value.history;
            var e := history[i];
            NothingLost(FilesAfter(files, history[..i]), FilesAfter(files, history[..i + 1]), e.op, e.op.seen.value,
                        e.result, h)
  {
    RunKeepsInv(files, labels, h);
    var history := Run(files, labels, h).value.history;
    assert history[..i + 1][..i] == history[..i];
    assert Explains(files, history[..i], history[i], h);
    AtomicSave(FilesAfter(files, history[..i]), history[i], h);
  }

  /** Exactly what a save overwrites when it answers ok: the content it is based on, unless another
      program changed the file between its read and its write, and then what the last such program left.
      It loses something exactly when that is not the content it is based on. */
  lemma RacedWriteExact(files: Files, labels: seq<Label>, h: Hash, i: nat)
    requires Injective(h) && Run(files, labels, h).Some?
    requires i < |Run(files, labels, h).value.history|
    requires var e := Run(files, labels, h).value.history[i];
             e.Call? && e.op.seen.Some? && e.result.Ok? && e.result.value.Written?
    ensures var history := Run(files, labels, h).value.history;
            var e := history[i];
            var now, change := Stat(FilesAfter(files, history[..i]), e.op.path),
                LastChange(history[..i], e.readAt, e.op.path);
            && e.readAt <= i
            && now == (match change case None => Ok(e.op.seen.value) case Some(node) => StatOf(node))
            && (now != Ok(e.op.seen.value) <==> change.Some? && change.value != Some(File(e.op.seen.value)))
            && FilesAfter(files, history[..i + 1]) == FilesAfter(files, history[..i])[e.op.path := File(e.op.content)]
  {
    RunKeepsInv(files, labels, h);
    var history := Run(files, labels, h).value.history;
    assert history[..i + 1][..i] == history[..i];
    assert Explains(files, history[..i], history[i], h) && Honest(history[i].op, h);
    OverwritesLastChange(files, history[..i], history[i], h);
    OneEffect(files, history, i);
  }

  lemma OneEffect(files: Files, history: seq<Entry>, i: nat)
    requires i < |history|
    ensures FilesAfter(files, history[..i + 1]) == Effect(FilesAfter(files, history[..i]), history[i])
  {
    assert history[..i + 1][..i] == history[..i];
  }

  lemma OverwritesLastChange(files: Files, history: seq<Entry>, e: Entry, h: Hash)
    requires Injective(h) && Explains(files, history, e, h) && e.Call? && e.op.seen.Some? && Honest(e.op, h)
    requires e.result.Ok? && e.result.value.Written?
    ensures e.readAt <= |history|
    ensures Stat(FilesAfter(files, history), e.op.path)
         == match LastChange(history, e.readAt, e.op.path)
            case None => Ok(e.op.seen.value)
            case Some(node) => StatOf(node)
  {
    if Raced(history, e) {
      LeftByOthers(files, history, e.readAt, e.op.path);
    } else {
      AtomicSave(FilesAfter(files, history), e, h);
    }
  }

  /** A document that an open returned is the complete content of one file state of this run, with
      that state's revision and length. */
  lemma OpenReturnsASnapshot(files: Files, labels: seq<Label>, h: Hash, t: nat)
    requires Injective(h) && Run(files, labels, h).Some? && PcOf(Run(files, labels, h).value, t).Opened?
    ensures var s := Run(files, labels, h).value;
            var Opened(path, d, since) := PcOf(s, t);
            && d.totalSize == |d.content| && d.revision == h(d.content)
            && since <= |s.history| && Stat(FilesAfter(files, s.history[..since]), path) == Ok(d.content)
  {
    RunKeepsInv(files, labels, h);
    assert ThreadOk(files, Run(files, labels, h).value, t, h);
  }

  /** At most one writer of a path is past its lock. */
  lemma MutualExclusion(files: Files, labels: seq<Label>, h: Hash, t: nat, u: nat)
    requires Injective(h) && Run(files, labels, h).Some? && t != u
    requires Holds(PcOf(Run(files, labels, h).value, t)) && Holds(PcOf(Run(files, labels, h).value, u))
    ensures PcOf(Run(files, labels, h).value, t).op.path != PcOf(Run(files, labels, h).value, u).op.path
  {
    RunKeepsInv(files, labels, h);
    WindowsAreDisjoint(files, Run(files, labels, h).value, t, u, h);
  }

  function NextLabel(t: nat, pc: Pc): Label
    requires HasId(pc) && !pc.Answered?
  {
    match pc
    case Entered(_, _) => Lookup(t)
    case Waiting(_, _, _) => Acquire(t)
    case Locked(_, _, _) => Check(t)
    case Checked(_, _, _) => Read(t)
    case HasRead(_, _, _, _, _) => Compare(t)
    case Matched(_, _, _, _, _) => Write(t)
    case Releasing(_, _, _, _) => Unlock(t)
  }

  /** No deadlock: a call in progress can step, or it waits for a lock whose holder can step. */
  lemma NoDeadlock(files: Files, labels: seq<Label>, h: Hash, t: nat)
    requires Injective(h) && Run(files, labels, h).Some?
    requires HasId(PcOf(Run(files, labels, h).value, t)) && !PcOf(Run(files, labels, h).value, t).Answered?
    ensures var s := Run(files, labels, h).value;
            var pc := PcOf(s, t);
            || Next(s, NextLabel(t, pc), h).Some?
            || (pc.Waiting? && pc.lock in s.holder && Holds(PcOf(s, s.holder[pc.lock]))
                && Next(s, NextLabel(s.holder[pc.lock], PcOf(s, s.holder[pc.lock])), h).Some?)
  {
    RunKeepsInv(files, labels, h);
  }
}

/** The run in which a change made by another program is lost. */
module DocumentRace {
  import opened Wrappers
  import opened Utf8
  import opened HostFiles
  import opened DocumentReader
  import opened DocumentProtocol

  /** One client's save of a document it has opened, up to the moment it has compared revisions. */
  datatype Scene = Scene(path: Path, seen: seq<byte>, mine: seq<byte>, theirs: seq<byte>)

  function Files0(c: Scene): Files {
    map[c.path := File(c.seen)]
  }

  function OpOf(c: Scene, h: Hash): WriteOp {
    WriteOp(c.path, h(c.seen), c.mine, |c.mine|, Some(c.seen))
  }

  function StateAt(c: Scene, pc: Pc, files: Files, ids: nat, history: seq<Entry>, held: bool): State {
    State(files, if pc.Idle? || pc.Opening? || pc.Opened? || pc.Entered? then map[] else map[c.path := 0],
          if pc.Idle? || pc.Opening? || pc.Opened? || pc.Entered? then 0 else 1,
          if held then map[0 := 0] else map[], map[0 := pc], ids, history)
  }

  lemma RunNext(files: Files, labels: seq<Label>, l: Label, s: State, h: Hash)
    requires Run(files, labels, h) == Some(s)
    ensures Run(files, labels + [l], h) == Next(s, l, h)
  {
    assert (labels + [l])[..|labels|] == labels;
  }

  lemma Moves(s: State, pc: Pc, pc': Pc)
    requires s.threads == map[0 := pc]
    ensures PcOf(s, 0) == pc && Goto(s, 0, pc') == s.(threads := map[0 := pc'])
  {
    assert s.threads[0 := pc'] == map[0 := pc'];
  }

  lemma OpensDocument(c: Scene, h: Hash) returns (labels: seq<Label>)
    requires |c.seen| <= MAX_FILE_READ_RANGE_BYTES
    ensures Run(Files0(c), labels, h)
         == Some(StateAt(c, Opened(c.path, Document(c.seen, |c.seen|, h(c.seen)), 0), Files0(c), 0, [], false))
  {
    var first, second := BeginOpen(0, c.path), Request(0, None);
    var s := StateAt(c, Opening(c.path, START, 0, []), Files0(c), 0, [], false);
    RunNext(Files0(c), [], first, Init(Files0(c)), h);
    assert [] + [first] == [first]
        && map[][0 := Opening(c.path, START, 0, [])] == map[0 := Opening(c.path, START, 0, [])];
    Moves(s, s.threads[0], Opened(c.path, Document(c.seen, |c.seen|, h(c.seen)), 0));
    RunNext(Files0(c), [first], second, s, h);
    assert c.seen[0..|c.seen|] == c.seen && [] + c.seen == c.seen;
    labels := [first] + [second];
  }

  lemma EntersSave(c: Scene, labels0: seq<Label>, h: Hash) returns (labels: seq<Label>)
    requires Run(Files0(c), labels0, h)
          == Some(StateAt(c, Opened(c.path, Document(c.seen, |c.seen|, h(c.seen)), 0), Files0(c), 0, [], false))
    ensures Run(Files0(c), labels, h) == Some(StateAt(c, Waiting(0, OpOf(c, h), 0), Files0(c), 1, [], false))
  {
    var atDocument := StateAt(c, Opened(c.path, Document(c.seen, |c.seen|, h(c.seen)), 0), Files0(c), 0, [], false);
    var entered := StateAt(c, Entered(0, OpOf(c, h)), Files0(c), 1, [], false);
    var begin := BeginSave(0, Basis(c.path, h(c.seen), c.seen), c.mine, |c.mine|);
    Moves(atDocument, atDocument.threads[0], Entered(0, OpOf(c, h)));
    Moves(entered, Entered(0, OpOf(c, h)), Waiting(0, OpOf(c, h), 0));
    RunNext(Files0(c), labels0, begin, atDocument, h);
    assert Next(atDocument, begin, h) == Some(entered);
    RunNext(Files0(c), labels0 + [begin], Lookup(0), entered, h);
    labels := labels0 + [begin] + [Lookup(0)];
  }

  lemma LocksAndChecks(c: Scene, labels0: seq<Label>, h: Hash) returns (labels: seq<Label>)
    requires Run(Files0(c), labels0, h) == Some(StateAt(c, Waiting(0, OpOf(c, h), 0), Files0(c), 1, [], false))
             && 0 !in c.mine
    ensures Run(Files0(c), labels, h) == Some(StateAt(c, Checked(0, OpOf(c, h), 0), Files0(c), 1, [], true))
  {
    var locked := StateAt(c, Locked(0, OpOf(c, h), 0), Files0(c), 1, [], true);
    var waiting := StateAt(c, Waiting(0, OpOf(c, h), 0), Files0(c), 1, [], false);
    Moves(waiting, Waiting(0, OpOf(c, h), 0), Locked(0, OpOf(c, h), 0));
    Moves(locked, Locked(0, OpOf(c, h), 0), Checked(0, OpOf(c, h), 0));
    RunNext(Files0(c), labels0, Acquire(0), waiting, h);
    RunNext(Files0(c), labels0 + [Acquire(0)], Check(0), locked, h);
    labels := labels0 + [Acquire(0)] + [Check(0)];
  }

  lemma ReadsAndCompares(c: Scene, labels0: seq<Label>, h: Hash) returns (labels: seq<Label>)
    requires Run(Files0(c), labels0, h) == Some(StateAt(c, Checked(0, OpOf(c, h), 0), Files0(c), 1, [], true))
    ensures Run(Files0(c), labels, h) == Some(StateAt(c, Matched(0, OpOf(c, h), 0, c.seen, 0), Files0(c), 1, [], true))
  {
    var hasRead := StateAt(c, HasRead(0, OpOf(c, h), 0, c.seen, 0), Files0(c), 1, [], true);
    var checked := StateAt(c, Checked(0, OpOf(c, h), 0), Files0(c), 1, [], true);
    Moves(checked, Checked(0, OpOf(c, h), 0), HasRead(0, OpOf(c, h), 0, c.seen, 0));
    Moves(hasRead, HasRead(0, OpOf(c, h), 0, c.seen, 0), Matched(0, OpOf(c, h), 0, c.seen, 0));
    RunNext(Files0(c), labels0, Read(0), checked, h);
    RunNext(Files0(c), labels0 + [Read(0)], Compare(0), hasRead, h);
    labels := labels0 + [Read(0)] + [Compare(0)];
  }

  /** From there the other program's change and then the save's write go through. */
  lemma OverwritesChange(c: Scene, labels0: seq<Label>, h: Hash) returns (labels: seq<Label>)
    requires Run(Files0(c), labels0, h)
               == Some(StateAt(c, Matched(0, OpOf(c, h), 0, c.seen, 0), Files0(c), 1, [], true))
    ensures var run, change := Run(Files0(c), labels, h), External(c.path, Some(File(c.theirs)));
            && run.Some? && Stat(run.value.files, c.path) == Ok(c.mine)
            && run.value.history == [change] + [Call(0, OpOf(c, h), Ok(Written(h(c.mine))), 0)]
  {
    var change := OtherProgram(c.path, Some(File(c.theirs)));
    var matched := StateAt(c, Matched(0, OpOf(c, h), 0, c.seen, 0), Files0(c), 1, [], true);
    RunNext(Files0(c), labels0, change, matched, h);
    var overtaken := Next(matched, change, h).value;
    assert overtaken.history == [External(c.path, Some(File(c.theirs)))];
    RunNext(Files0(c), labels0 + [change], Write(0), overtaken, h);
    labels := labels0 + [change] + [Write(0)];
  }

  /** A save that another program overtakes between its read and its write answers ok, and what the other
      program wrote is gone: the loss that `RacedWriteExact` allows does happen. */
  lemma OvertakenSaveLosesAChange(c: Scene, h: Hash) returns (labels: seq<Label>)
    requires |c.seen| <= MAX_FILE_READ_RANGE_BYTES && 0 !in c.mine && c.theirs != c.seen
    ensures var run := Run(Files0(c), labels, h);
            && run.Some? && |run.value.history| == 2
            && run.value.history[1].Call? && run.value.history[1].result == Ok(Written(h(c.mine)))
            && run.value.history[1].op.seen == Some(c.seen)
            && Stat(FilesAfter(Files0(c), run.value.history[..1]), c.path) == Ok(c.theirs)
            && Stat(run.value.files, c.path) == Ok(c.mine)
  {
    labels := OpensDocument(c, h);
    labels := EntersSave(c, labels, h);
    labels := LocksAndChecks(c, labels, h);
    labels := ReadsAndCompares(c, labels, h);
    labels := OverwritesChange(c, labels, h);
    var history := Run(Files0(c), labels, h).value.history;
    assert history[..1] == [External(c.path, Some(File(c.theirs)))];
    assert history[..1][..0] == [];
  }
}
