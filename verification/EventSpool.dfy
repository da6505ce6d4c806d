/** The in-memory agent-event spool (choosh-hostd/src/agent_event_spool.rs): a sequencer and
    a bounded window of recent events per workspace.

    The classes carry the source's state and loops; each method is proved equal to a function
    on values, and EventSpoolRuns proves what every run of those functions keeps. `now` is an
    argument of every call, in nanoseconds, because the source reads the clock before it takes
    its lock: nothing here assumes that clock readings follow sequence order. */
module EventSpool {
  import opened Wrappers

  const MAX_EVENTS_PER_WORKSPACE: nat := 500
  const RETENTION: nat := 3_600_000_000_000

  /** `WireAgentEvent`; `workspace` is `workspace_id()`. */
  datatype Event = Event(workspace: Option<string>, payload: string)

  datatype Retained = Retained(sequence: nat, recordedAt: nat, event: Event)

  datatype Sequenced = Sequenced(sequence: nat, event: Event)

  datatype Bounds = Bounds(maxEvents: nat, retention: nat)

  /** The next sequence to assign; real sequences start at 1. */
  type Next = n: nat | n >= 1 witness 1

  datatype Spool = Spool(nextSequence: Next, events: seq<Retained>)

  datatype ResumeOutcome = Replay(events: seq<Sequenced>, latest: nat) | SnapshotRequired

  type Spools = map<string, Spool>

  // ---- what each operation computes ----

  /** `Instant::duration_since` saturates at zero. */
  predicate Expired(e: Retained, now: nat, retention: nat) {
    now > e.recordedAt && now - e.recordedAt > retention
  }

  function DropExpired(events: seq<Retained>, now: nat, retention: nat): seq<Retained> {
    if events != [] && Expired(events[0], now, retention) then DropExpired(events[1..], now, retention) else events
  }

  function Newest<T>(s: seq<T>, n: nat): seq<T> {
    if |s| <= n then s else s[|s| - n..]
  }

  function Evicted(s: Spool, now: nat, b: Bounds): Spool {
    s.(events := Newest(DropExpired(s.events, now, b.retention), b.maxEvents))
  }

  function Stamp(e: Retained): Sequenced {
    Sequenced(e.sequence, e.event)
  }

  function Stamped(events: seq<Retained>): (r: seq<Sequenced>)
    ensures |r| == |events| && forall i :: 0 <= i < |r| ==> r[i] == Stamp(events[i])
  {
    seq(|events|, i requires 0 <= i < |events| => Stamp(events[i]))
  }

  function After(events: seq<Retained>, after: nat): seq<Retained> {
    if events == [] then []
    else if events[0].sequence > after then [events[0]] + After(events[1..], after)
    else After(events[1..], after)
  }

  function Appended(s: Spool, event: Event, now: nat): Spool {
    Spool(s.nextSequence + 1, s.events + [Retained(s.nextSequence, now, event)])
  }

  function Record(m: Spools, event: Event, now: nat, b: Bounds): (Spools, Option<nat>) {
    match event.workspace
    case None => (m, None)
    case Some(ws) =>
      var s := if ws in m then m[ws] else Spool(1, []);
      (m[ws := Evicted(Appended(s, event, now), now, b)], Some(s.nextSequence))
  }

  function Answer(s: Spool, after: Option<nat>): ResumeOutcome {
    var latest := s.nextSequence - 1;
    if after == None || after == Some(0) then Replay(Stamped(s.events), latest)
    else if after.value >= latest then Replay([], latest)
    else if after.value + 1 < (if s.events == [] then s.nextSequence else s.events[0].sequence) then SnapshotRequired
    else Replay(Stamped(After(s.events, after.value)), latest)
  }

  function Resume(m: Spools, ws: string, after: Option<nat>, now: nat, b: Bounds): (Spools, ResumeOutcome) {
    if ws !in m then
      (m, if after == None || after == Some(0) then Replay([], 0) else SnapshotRequired)
    else
      var s := Evicted(m[ws], now, b);
      (m[ws := s], Answer(s, after))
  }

  // ---- the source's objects ----

  class WorkspaceSpool {
    var nextSequence: Next
    var events: seq<Retained>

    ghost function Value(): Spool
      reads this
    {
      Spool(nextSequence, events)
    }

    constructor ()
      ensures Value() == Spool(1, [])
    {
      nextSequence := 1;
      events := [];
    }

    method LatestSequence() returns (latest: nat)
      ensures latest == nextSequence - 1
    {
      latest := nextSequence - 1;
    }

    method OldestRetainedSequence() returns (oldest: nat)
      ensures oldest == if events == [] then nextSequence else events[0].sequence
    {
      oldest := if events == [] then nextSequence else events[0].sequence;
    }

    /** The locked part of `record`: assign the next sequence, push, evict. */
    method Push(event: Event, now: nat, b: Bounds) returns (sequence: nat)
      modifies this
      ensures sequence == old(nextSequence)
      ensures Value() == Evicted(Appended(old(Value()), event, now), now, b)
    {
      sequence := nextSequence;
      nextSequence := nextSequence + 1;
      events := events + [Retained(sequence, now, event)];
      EvictExpired(now, b);
    }

    method EvictExpired(now: nat, b: Bounds)
      modifies this
      ensures Value() == Evicted(old(Value()), now, b)
    {
      while |events| > 0 && Expired(events[0], now, b.retention)
        invariant nextSequence == old(nextSequence)
        invariant DropExpired(events, now, b.retention) == DropExpired(old(events), now, b.retention)
        decreases |events|
      {
        events := events[1..];
      }
      ghost var live := events;
      while |events| > b.maxEvents
        invariant nextSequence == old(nextSequence)
        invariant Newest(events, b.maxEvents) == Newest(live, b.maxEvents)
        decreases |events|
      {
        events := events[1..];
      }
    }
  }

  class AgentEventSpool {
    const bounds: Bounds
    var workspaces: map<string, WorkspaceSpool>

    /** One spool object per workspace, never shared. */
    ghost predicate Valid()
      reads this
    {
      forall v, w :: v in workspaces && w in workspaces && v != w ==> workspaces[v] != workspaces[w]
    }

    ghost function Value(): Spools
      reads this, workspaces.Values
    {
      map w | w in workspaces :: workspaces[w].Value()
    }

    constructor WithBounds(maxEvents: nat, retention: nat)
      ensures Valid() && Value() == map[] && bounds == Bounds(maxEvents, retention)
    {
      bounds := Bounds(maxEvents, retention);
      workspaces := map[];
    }

    constructor ()
      ensures Valid() && Value() == map[] && bounds == Bounds(MAX_EVENTS_PER_WORKSPACE, RETENTION)
    {
      bounds := Bounds(MAX_EVENTS_PER_WORKSPACE, RETENTION);
      workspaces := map[];
    }

    /** The workspace's spool, created when there is none. */
    method SpoolOf(ws: string) returns (spool: WorkspaceSpool)
      requires Valid()
      modifies this
      ensures Valid() && fresh(workspaces.Values - old(workspaces.Values))
      ensures ws in workspaces && workspaces[ws] == spool
      ensures Value() == if ws in old(Value()) then old(Value()) else old(Value())[ws := Spool(1, [])]
    {
      if ws !in workspaces {
        var created := new WorkspaceSpool();
        workspaces := workspaces[ws := created];
      }
      spool := workspaces[ws];
    }

    method RecordEvent(event: Event, now: nat) returns (sequence: Option<nat>)
      requires Valid()
      modifies this, workspaces.Values
      ensures Valid() && fresh(workspaces.Values - old(workspaces.Values))
      ensures (Value(), sequence) == Record(old(Value()), event, now, bounds)
    {
      if event.workspace.None? {
        return None;
      }
      var ws := event.workspace.value;
      ghost var before := Value();
      ghost var start := if ws in before then before[ws] else Spool(1, []);
      var spool := SpoolOf(ws);
      assert Value() == before[ws := start] && spool.Value() == Value()[ws];
      var n := spool.Push(event, now, bounds);
      sequence := Some(n);
      assert Value() == before[ws := Evicted(Appended(start, event, now), now, bounds)];
    }

    method ResumeAfter(ws: string, after: Option<nat>, now: nat) returns (outcome: ResumeOutcome)
      requires Valid()
      modifies workspaces.Values
      ensures Valid()
      ensures (Value(), outcome) == Resume(old(Value()), ws, after, now, bounds)
    {
      var noPriorAck := after == None || after == Some(0);
      if ws !in workspaces {
        return if noPriorAck then Replay([], 0) else SnapshotRequired;
      }
      ghost var before := Value();
      var spool := workspaces[ws];
      spool.EvictExpired(now, bounds);
      assert Value() == before[ws := Evicted(before[ws], now, bounds)];
      var latest := spool.LatestSequence();
      if noPriorAck {
        return Replay(Stamped(spool.events), latest);
      }
      if after.value >= latest {
        return Replay([], latest);
      }
      var oldest := spool.OldestRetainedSequence();
      if after.value + 1 < oldest {
        return SnapshotRequired;
      }
      return Replay(Stamped(After(spool.events, after.value)), latest);
    }
  }
}

/** What every run of the spool keeps, and what a resuming client can rely on. */
module EventSpoolRuns {
  import opened Wrappers
  import opened EventSpool

  datatype Call = RecordCall(event: Event, now: nat) | ResumeCall(ws: string, after: Option<nat>, now: nat)

  function Step(m: Spools, c: Call, b: Bounds): Spools {
    match c
    case RecordCall(e, now) => Record(m, e, now, b).0
    case ResumeCall(ws, after, now) => Resume(m, ws, after, now, b).0
  }

  /** The spool after `calls`, starting from a new one. */
  function Run(calls: seq<Call>, b: Bounds): Spools {
    if calls == [] then map[] else Step(Run(calls[..|calls| - 1], b), calls[|calls| - 1], b)
  }

  /** Everything ever recorded for `ws`: the event with sequence n is `Log(..)[n - 1]`. */
  function Log(calls: seq<Call>, ws: string): seq<Event> {
    if calls == [] then []
    else
      var c := calls[|calls| - 1];
      Log(calls[..|calls| - 1], ws) + (if c.RecordCall? && c.event.workspace == Some(ws) then [c.event] else [])
  }

  /** The events numbered `from + 1 ..= to`. */
  function Numbered(log: seq<Event>, from: nat, to: nat): (r: seq<Sequenced>)
    requires from <= to <= |log|
    ensures |r| == to - from && forall i :: 0 <= i < |r| ==> r[i] == Sequenced(from + i + 1, log[from + i])
  {
    seq(to - from, i requires 0 <= i < to - from => Sequenced(from + i + 1, log[from + i]))
  }

  /** The retained events are the newest part of the log, numbered without a gap. */
  ghost predicate Coherent(s: Spool, log: seq<Event>) {
    && s.nextSequence == |log| + 1
    && |s.events| <= |log|
    && Stamped(s.events) == Numbered(log, |log| - |s.events|, |log|)
  }

  /** Exactly which events one eviction drops: those in an all-expired prefix, and those
      beyond the count bound. The rest stays, in order. */
  lemma {:induction false} EvictionExact(events: seq<Retained>, now: nat, b: Bounds, j: nat)
    requires j < |events|
    ensures var kept := Newest(DropExpired(events, now, b.retention), b.maxEvents);
            && |kept| <= |events| && kept == events[|events| - |kept|..]
            && (j < |events| - |kept| <==>
                 || |events| - j > b.maxEvents
                 || forall i :: 0 <= i <= j ==> Expired(events[i], now, b.retention))
  {
    DropExpiredExact(events, now, b.retention);
  }

  lemma {:induction false} DropExpiredExact(events: seq<Retained>, now: nat, retention: nat)
    ensures var live := DropExpired(events, now, retention);
            && |live| <= |events| && live == events[|events| - |live|..]
            && (forall i :: 0 <= i < |events| - |live| ==> Expired(events[i], now, retention))
            && (live != [] ==> !Expired(live[0], now, retention))
  {
    if events != [] && Expired(events[0], now, retention) {
      DropExpiredExact(events[1..], now, retention);
      var live := DropExpired(events, now, retention);
      assert forall i :: 1 <= i < |events| ==> events[i] == events[1..][i - 1];
    }
  }

  /** The newest part of coherent events is coherent. */
  lemma NewestCoherent(events: seq<Retained>, kept: seq<Retained>, log: seq<Event>)
    requires |kept| <= |events| <= |log| && kept == events[|events| - |kept|..]
    requires Stamped(events) == Numbered(log, |log| - |events|, |log|)
    ensures Stamped(kept) == Numbered(log, |log| - |kept|, |log|)
  {
    forall i | 0 <= i < |kept|
      ensures Stamped(kept)[i] == Sequenced(|log| - |kept| + i + 1, log[|log| - |kept| + i])
    {
      assert Stamped(events)[|events| - |kept| + i] == Stamp(kept[i]);
    }
  }

  lemma EvictedIsNewest(events: seq<Retained>, now: nat, b: Bounds)
    ensures var kept := Newest(DropExpired(events, now, b.retention), b.maxEvents);
            |kept| <= |events| && |kept| <= b.maxEvents && kept == events[|events| - |kept|..]
  {
    DropExpiredExact(events, now, b.retention);
  }

  lemma EvictedCoherent(s: Spool, now: nat, b: Bounds, log: seq<Event>)
    requires Coherent(s, log)
    ensures Coherent(Evicted(s, now, b), log)
    ensures |Evicted(s, now, b).events| <= b.maxEvents
  {
    EvictedIsNewest(s.events, now, b);
    NewestCoherent(s.events, Evicted(s, now, b).events, log);
  }

  lemma AppendCoherent(s: Spool, now: nat, e: Event, log: seq<Event>)
    requires Coherent(s, log)
    ensures Coherent(Appended(s, e, now), log + [e])
  {
    var events := Appended(s, e, now).events;
    forall i | 0 <= i < |events|
      ensures Stamped(events)[i] == Sequenced(|log| + 1 - |events| + i + 1, (log + [e])[|log| + 1 - |events| + i])
    {
      if i < |s.events| {
        assert Stamped(s.events)[i] == Stamp(events[i]);
      }
    }
    assert Stamped(events) == Numbered(log + [e], |log| + 1 - |events|, |log| + 1);
  }

  /** After any calls with any clock readings: a workspace is known exactly when something was
      recorded for it, and what it retains is one contiguous interval ending at the latest. */
  lemma {:induction false} RetainedIsContiguous(calls: seq<Call>, b: Bounds, ws: string)
    ensures ws in Run(calls, b) <==> Log(calls, ws) != []
    ensures ws in Run(calls, b) ==>
              Coherent(Run(calls, b)[ws], Log(calls, ws)) && |Run(calls, b)[ws].events| <= b.maxEvents
  {
    if calls != [] {
      var before, c := calls[..|calls| - 1], calls[|calls| - 1];
      RetainedIsContiguous(before, b, ws);
      var m, log := Run(before, b), Log(before, ws);
      match c
      case RecordCall(e, now) =>
        if e.workspace == Some(ws) {
          var s := if ws in m then m[ws] else Spool(1, []);
          AppendCoherent(s, now, e, log);
          EvictedCoherent(Appended(s, e, now), now, b, log + [e]);
        } else {
          assert Log(calls, ws) == log;
        }
      case ResumeCall(w, after, now) =>
        assert Log(calls, ws) == log;
        if w == ws && ws in m {
          EvictedCoherent(m[ws], now, b, log);
        }
    }
  }

  // ---- exactly what is retained, by count and by age ----

  /** When each event of the log was recorded. */
  function Times(calls: seq<Call>, ws: string): seq<nat> {
    if calls == [] then []
    else
      var c := calls[|calls| - 1];
      Times(calls[..|calls| - 1], ws) + (if c.RecordCall? && c.event.workspace == Some(ws) then [c.now] else [])
  }

  /** The retained events carry the times of the newest part of the log. */
  ghost predicate Dated(s: Spool, times: seq<nat>) {
    && |s.events| <= |times|
    && forall i :: 0 <= i < |s.events| ==> s.events[i].recordedAt == times[|times| - |s.events| + i]
  }

  /** Among the log entries from `gone` on, entry `j` stays at time `now`: fewer than the bound are newer,
      and not all entries up to it are older than the retention. */
  ghost predicate Stays(times: seq<nat>, gone: nat, j: nat, now: nat, b: Bounds) {
    && gone <= j < |times| && |times| - j <= b.maxEvents
    && exists i :: gone <= i <= j && now <= times[i] + b.retention
  }

  lemma EvictedStays(s: Spool, times: seq<nat>, now: nat, b: Bounds, j: nat)
    requires Dated(s, times) && j < |times|
    ensures Dated(Evicted(s, now, b), times)
    ensures |times| - |Evicted(s, now, b).events| <= j <==> Stays(times, |times| - |s.events|, j, now, b)
  {
    EvictedIsNewest(s.events, now, b);
    var gone := |times| - |s.events|;
    if gone <= j {
      EvictionExact(s.events, now, b, j - gone);
      AgeInTimes(s, times, now, b, j);
    }
  }

  lemma AgeInTimes(s: Spool, times: seq<nat>, now: nat, b: Bounds, j: nat)
    requires Dated(s, times) && |times| - |s.events| <= j < |times|
    ensures var gone := |times| - |s.events|;
            (forall i :: 0 <= i <= j - gone ==> Expired(s.events[i], now, b.retention))
              <==> !(exists i :: gone <= i <= j && now <= times[i] + b.retention)
  {
    var gone := |times| - |s.events|;
    forall i | 0 <= i < |s.events|
      ensures Expired(s.events[i], now, b.retention) <==> now > times[gone + i] + b.retention
    {
    }
    if i :| 0 <= i <= j - gone && !Expired(s.events[i], now, b.retention) {
      assert now <= times[gone + i] + b.retention;
    }
    if i :| gone <= i <= j && now <= times[i] + b.retention {
      assert !Expired(s.events[i - gone], now, b.retention);
    }
  }

  lemma AppendedDated(s: Spool, times: seq<nat>, e: Event, now: nat)
    requires Dated(s, times)
    ensures Dated(Appended(s, e, now), times + [now])
  {
  }

  /** How many entries of the log are no longer retained. */
  function Gone(calls: seq<Call>, b: Bounds, ws: string): int {
    |Log(calls, ws)| - if ws in Run(calls, b) then |Run(calls, b)[ws].events| else 0
  }

  lemma {:induction false} TimesOfLog(calls: seq<Call>, b: Bounds, ws: string)
    ensures |Times(calls, ws)| == |Log(calls, ws)|
    ensures ws in Run(calls, b) ==> Dated(Run(calls, b)[ws], Times(calls, ws))
  {
    if calls != [] {
      var before, c := calls[..|calls| - 1], calls[|calls| - 1];
      TimesOfLog(before, b, ws);
      RetainedIsContiguous(before, b, ws);
      var m, times := Run(before, b), Times(before, ws);
      assert times + [] == times;
      match c
      case RecordCall(e, now) =>
        if e.workspace == Some(ws) {
          var s := if ws in m then m[ws] else Spool(1, []);
          AppendedDated(s, times, e, now);
          EvictedStays(Appended(s, e, now), times + [now], now, b, |times|);
        }
      case ResumeCall(w, after, now) =>
        if w == ws && ws in m {
          if times != [] { EvictedStays(m[ws], times, now, b, 0); }
          EvictedDated(m[ws], times, now, b);
        }
    }
  }

  lemma EvictedDated(s: Spool, times: seq<nat>, now: nat, b: Bounds)
    requires Dated(s, times)
    ensures Dated(Evicted(s, now, b), times)
  {
    EvictedIsNewest(s.events, now, b);
  }

  lemma RunSnoc(calls: seq<Call>, c: Call, b: Bounds, ws: string)
    ensures Run(calls + [c], b) == Step(Run(calls, b), c, b)
    ensures Log(calls + [c], ws)
         == Log(calls, ws) + (if c.RecordCall? && c.event.workspace == Some(ws) then [c.event] else [])
    ensures Times(calls + [c], ws)
         == Times(calls, ws) + (if c.RecordCall? && c.event.workspace == Some(ws) then [c.now] else [])
  {
    assert (calls + [c])[..|calls|] == calls;
  }

  /** Exactly what one more call leaves: log entry `j` is retained after a call for its workspace iff it
      was retained before, or has just been recorded, fewer than `maxEvents` entries are newer, and the
      entries from the oldest retained one up to it are not all older than the retention. Calls for
      other workspaces leave it as it was. */
  lemma RetainedExact(calls: seq<Call>, c: Call, b: Bounds, ws: string, j: nat)
    requires j < |Log(calls + [c], ws)|
    ensures 0 <= Gone(calls, b, ws)
    ensures Gone(calls + [c], b, ws) <= j <==>
              if Concerns(c, ws) then Stays(Times(calls + [c], ws), Gone(calls, b, ws), j, c.now, b)
              else Gone(calls, b, ws) <= j
  {
    RunSnoc(calls, c, b, ws);
    RetainedIsContiguous(calls, b, ws);
    TimesOfLog(calls, b, ws);
    var m, log, times := Run(calls, b), Log(calls, ws), Times(calls, ws);
    assert log + [] == log && times + [] == times;
    match c
    case RecordCall(e, now) =>
      if e.workspace == Some(ws) {
        var s := if ws in m then m[ws] else Spool(1, []);
        AppendedDated(s, times, e, now);
        EvictedStays(Appended(s, e, now), times + [now], now, b, j);
      }
    case ResumeCall(w, after, now) =>
      if w == ws && ws in m {
        EvictedStays(m[ws], times, now, b, j);
      }
  }

  /** No clock reading exceeds the time of an earlier record by more than the retention. */
  ghost predicate Recent(calls: seq<Call>, b: Bounds) {
    forall i, j :: 0 <= i <= j < |calls| && calls[i].RecordCall? ==> calls[j].now <= calls[i].now + b.retention
  }

  lemma {:induction false} TimeIsOfCall(calls: seq<Call>, ws: string, k: nat) returns (i: nat)
    requires k < |Times(calls, ws)|
    ensures i < |calls| && calls[i].RecordCall? && calls[i].now == Times(calls, ws)[k]
  {
    var before := calls[..|calls| - 1];
    if k < |Times(before, ws)| {
      i := TimeIsOfCall(before, ws, k);
    } else {
      i := |calls| - 1;
    }
  }

  /** While nothing is old enough to expire, exactly the newest `maxEvents` events are retained. */
  lemma {:induction false} NewestAreRetained(calls: seq<Call>, b: Bounds, ws: string)
    requires Recent(calls, b)
    ensures var n := |Log(calls, ws)|; Gone(calls, b, ws) == if n <= b.maxEvents then 0 else n - b.maxEvents
  {
    if calls != [] {
      var before, c := calls[..|calls| - 1], calls[|calls| - 1];
      assert calls == before + [c];
      RecentFront(before, c, b);
      NewestAreRetained(before, b, ws);
      if Concerns(c, ws) {
        OneMoreRecent(before, c, b, ws);
      } else {
        OtherCall(before, c, b, ws);
      }
    }
  }

  lemma RecentFront(before: seq<Call>, c: Call, b: Bounds)
    requires Recent(before + [c], b)
    ensures Recent(before, b)
  {
    assert forall i :: 0 <= i < |before| ==> before[i] == (before + [c])[i];
  }

  lemma OtherCall(before: seq<Call>, c: Call, b: Bounds, ws: string)
    requires !Concerns(c, ws)
    ensures Log(before + [c], ws) == Log(before, ws) && Gone(before + [c], b, ws) == Gone(before, b, ws)
  {
    RunSnoc(before, c, b, ws);
    assert Log(before, ws) + [] == Log(before, ws);
  }

  predicate Reaches(gone: int, j: nat) {
    gone <= j
  }

  lemma OneMoreRecent(before: seq<Call>, c: Call, b: Bounds, ws: string)
    requires Recent(before + [c], b) && Concerns(c, ws)
    requires var n := |Log(before, ws)|; Gone(before, b, ws) == if n <= b.maxEvents then 0 else n - b.maxEvents
    ensures var n := |Log(before + [c], ws)|;
            Gone(before + [c], b, ws) == if n <= b.maxEvents then 0 else n - b.maxEvents
  {
    var calls := before + [c];
    var n := |Log(calls, ws)|;
    RunSnoc(before, c, b, ws);
    TimesOfLog(calls, b, ws);
    RetainedIsContiguous(calls, b, ws);
    forall j | 0 <= j < n ensures Reaches(Gone(calls, b, ws), j) <==> n - j <= b.maxEvents {
      RetainedExact(before, c, b, ws, j);
      RecentTime(calls, b, ws, j);
    }
    GoneIs(Gone(calls, b, ws), n, b.maxEvents);
  }

  lemma RecentTime(calls: seq<Call>, b: Bounds, ws: string, j: nat)
    requires Recent(calls, b) && j < |Times(calls, ws)|
    ensures calls != [] && calls[|calls| - 1].now <= Times(calls, ws)[j] + b.retention
  {
    var i := TimeIsOfCall(calls, ws, j);
  }

  lemma GoneIs(gone: int, n: nat, most: nat)
    requires 0 <= gone <= n && forall j :: 0 <= j < n ==> (Reaches(gone, j) <==> n - j <= most)
    ensures gone == if n <= most then 0 else n - most
  {
    if gone > 0 { assert Reaches(gone, gone - 1) <==> n - (gone - 1) <= most; }
    if gone < n { assert Reaches(gone, gone) <==> n - gone <= most; }
  }

  /** And a resume without an ack replays exactly those. */
  lemma NewestAreReplayed(calls: seq<Call>, b: Bounds, ws: string, now: nat)
    requires Recent(calls + [ResumeCall(ws, None, now)], b)
    ensures var log := Log(calls, ws);
            Resume(Run(calls, b), ws, None, now, b).1
              == Replay(Numbered(log, if |log| <= b.maxEvents then 0 else |log| - b.maxEvents, |log|), |log|)
  {
    NewestAreRetained(calls + [ResumeCall(ws, None, now)], b, ws);
    ResumeLeavesLog(calls, ws, now, b);
    RetainedIsContiguous(calls, b, ws);
    if ws in Run(calls, b) {
      var s := Evicted(Run(calls, b)[ws], now, b);
      EvictedCoherent(Run(calls, b)[ws], now, b, Log(calls, ws));
      ReplayOfSpool(s, Log(calls, ws));
    }
  }

  lemma ResumeLeavesLog(calls: seq<Call>, ws: string, now: nat, b: Bounds)
    ensures var c, m := ResumeCall(ws, None, now), Run(calls, b);
            && Log(calls + [c], ws) == Log(calls, ws)
            && Gone(calls + [c], b, ws) == |Log(calls, ws)| - (if ws in m then |Evicted(m[ws], now, b).events| else 0)
            && Resume(m, ws, None, now, b).1
                 == if ws in m then Answer(Evicted(m[ws], now, b), None) else Replay([], 0)
  {
    RunSnoc(calls, ResumeCall(ws, None, now), b, ws);
    assert Log(calls, ws) + [] == Log(calls, ws);
  }

  lemma ReplayOfSpool(s: Spool, log: seq<Event>)
    requires Coherent(s, log)
    ensures Answer(s, None) == Replay(Numbered(log, |log| - |s.events|, |log|), |log|)
  {
  }

  /** Recording numbers events 1, 2, 3, ... per workspace, and only workspace events. */
  lemma RecordNumbers(calls: seq<Call>, b: Bounds, e: Event, now: nat)
    ensures Record(Run(calls, b), e, now, b).1
         == match e.workspace case None => None case Some(ws) => Some(|Log(calls, ws)| + 1)
  {
    if e.workspace.Some? {
      RetainedIsContiguous(calls, b, e.workspace.value);
    }
  }

  lemma {:induction false} AfterIsSuffix(events: seq<Retained>, first: nat, after: nat)
    requires forall i :: 0 <= i < |events| ==> events[i].sequence == first + i
    requires first <= after + 1 <= first + |events|
    ensures After(events, after) == events[after + 1 - first..]
  {
    if events != [] {
      if first > after {
        AfterAll(events, after);
      } else {
        AfterIsSuffix(events[1..], first + 1, after);
        assert events[1..][after - first..] == events[after + 1 - first..];
      }
    }
  }

  lemma {:induction false} AfterAll(events: seq<Retained>, after: nat)
    requires forall i :: 0 <= i < |events| ==> events[i].sequence > after
    ensures After(events, after) == events
  {
    if events != [] {
      AfterAll(events[1..], after);
    }
  }

  ghost predicate RetainsSequence(s: Spool, n: nat) {
    exists i :: 0 <= i < |s.events| && s.events[i].sequence == n
  }

  lemma CoherentAt(s: Spool, log: seq<Event>, i: nat)
    requires Coherent(s, log) && i < |s.events|
    ensures Stamp(s.events[i]) == Sequenced(|log| - |s.events| + i + 1, log[|log| - |s.events| + i])
  {
    assert Stamped(s.events)[i] == Stamp(s.events[i]);
  }

  lemma StampedSuffix(events: seq<Retained>, k: nat)
    requires k <= |events|
    ensures Stamped(events[k..]) == Stamped(events)[k..]
  {
  }

  lemma NumberedSuffix(log: seq<Event>, first: nat, k: nat)
    requires first + k <= |log|
    ensures Numbered(log, first, |log|)[k..] == Numbered(log, first + k, |log|)
  {
  }

  lemma AfterStamped(s: Spool, log: seq<Event>, after: nat)
    requires Coherent(s, log) && |log| - |s.events| <= after <= |log|
    ensures Stamped(After(s.events, after)) == Numbered(log, after, |log|)
  {
    var first := |log| - |s.events|;
    forall i | 0 <= i < |s.events| ensures s.events[i].sequence == first + 1 + i {
      CoherentAt(s, log, i);
    }
    AfterIsSuffix(s.events, first + 1, after);
    StampedSuffix(s.events, after - first);
    NumberedSuffix(log, first, after - first);
  }

  lemma RetainedSequences(s: Spool, log: seq<Event>, n: nat)
    requires Coherent(s, log) && n > 0
    ensures RetainsSequence(s, n) <==> |log| - |s.events| < n <= |log|
    ensures s.events != [] ==> s.events[0].sequence == |log| - |s.events| + 1
  {
    forall i | 0 <= i < |s.events| ensures s.events[i].sequence == |log| - |s.events| + i + 1 {
      CoherentAt(s, log, i);
    }
    var i := n - 1 - (|log| - |s.events|);
    if 0 <= i < |s.events| {
      assert s.events[i].sequence == n;
    }
  }

  lemma AnswerExact(s: Spool, log: seq<Event>, after: nat)
    requires Coherent(s, log) && log != [] && after > 0
    ensures var outcome := Answer(s, Some(after));
            && (outcome.SnapshotRequired? <==> after + 1 <= |log| && !RetainsSequence(s, after + 1))
            && (outcome.Replay? ==>
                 outcome == Replay(if after < |log| then Numbered(log, after, |log|) else [], |log|))
  {
    RetainedSequences(s, log, after + 1);
    if |log| - |s.events| <= after < |log| {
      AfterStamped(s, log, after);
    }
  }

  /** Resume exactness for a caller with an acknowledged sequence: a snapshot is demanded iff the
      workspace is unknown, or event `after + 1` was recorded and is no longer retained; any other
      answer is exactly the events `after + 1 ..= latest`, in order. */
  lemma ResumeExact(calls: seq<Call>, b: Bounds, ws: string, after: nat, now: nat)
    requires after > 0
    ensures var (m, outcome) := Resume(Run(calls, b), ws, Some(after), now, b);
            var log := Log(calls, ws);
            && (outcome.SnapshotRequired? <==>
                 || log == []
                 || (after + 1 <= |log| && ws in m && !RetainsSequence(m[ws], after + 1)))
            && (outcome.Replay? ==>
                 outcome == Replay(if after < |log| then Numbered(log, after, |log|) else [], |log|))
  {
    RetainedIsContiguous(calls, b, ws);
    var m, log := Run(calls, b), Log(calls, ws);
    if ws in m {
      EvictedCoherent(m[ws], now, b, log);
      AnswerExact(Evicted(m[ws], now, b), log, after);
    }
  }

  /** A caller without an acknowledged sequence always gets a replay: the newest part of the log. */
  lemma ResumeWithoutAck(calls: seq<Call>, b: Bounds, ws: string, after: Option<nat>, now: nat)
    requires after == None || after == Some(0)
    ensures var (m, outcome) := Resume(Run(calls, b), ws, after, now, b);
            var log := Log(calls, ws);
            && outcome.Replay? && |outcome.events| <= |log|
            && outcome == Replay(Numbered(log, |log| - |outcome.events|, |log|), |log|)
            && (ws in m ==> |outcome.events| == |m[ws].events|)
  {
    RetainedIsContiguous(calls, b, ws);
    var m, log := Run(calls, b), Log(calls, ws);
    if ws in m {
      EvictedCoherent(m[ws], now, b, log);
    }
  }

  // ---- workspaces do not affect each other ----

  predicate Concerns(c: Call, ws: string) {
    match c
    case RecordCall(e, _) => e.workspace == Some(ws)
    case ResumeCall(w, _, _) => w == ws
  }

  function CallsFor(calls: seq<Call>, ws: string): seq<Call> {
    if calls == [] then []
    else
      var c := calls[|calls| - 1];
      CallsFor(calls[..|calls| - 1], ws) + (if Concerns(c, ws) then [c] else [])
  }

  /** One workspace's spool depends only on the calls that name that workspace. */
  lemma {:induction false} WorkspacesAreIsolated(calls: seq<Call>, b: Bounds, ws: string)
    ensures var all, own := Run(calls, b), Run(CallsFor(calls, ws), b);
            && (ws in all <==> ws in own)
            && (ws in all ==> all[ws] == own[ws])
            && own.Keys <= {ws}
  {
    if calls != [] {
      var before, c := calls[..|calls| - 1], calls[|calls| - 1];
      WorkspacesAreIsolated(before, b, ws);
      var own := CallsFor(before, ws);
      StepIsLocal(Run(before, b), Run(own, b), c, b, ws);
      if Concerns(c, ws) {
        assert CallsFor(calls, ws)[..|own|] == own;
      } else {
        assert CallsFor(calls, ws) == own;
      }
    }
  }

  /** Two spools that agree on a workspace still do after a call, if the second skips the calls that
      do not name it. */
  lemma StepIsLocal(all: Spools, own: Spools, c: Call, b: Bounds, ws: string)
    requires (ws in all <==> ws in own) && (ws in all ==> all[ws] == own[ws]) && own.Keys <= {ws}
    ensures var all', own' := Step(all, c, b), if Concerns(c, ws) then Step(own, c, b) else own;
            (ws in all' <==> ws in own') && (ws in all' ==> all'[ws] == own'[ws]) && own'.Keys <= {ws}
  {
  }

  // ---- a resuming client ----

  /** The phone side of `agent_events_resume`: the last acknowledged sequence (0 for none) and
      the events collected since the last baseline. */
  datatype Client = Client(ack: nat, held: seq<Sequenced>)

  /** `u64::try_from(after).ok().filter(|s| *s > 0)`. */
  function AckArgument(ack: int): Option<nat> {
    if ack > 0 then Some(ack) else None
  }

  function Fold(c: Client, outcome: ResumeOutcome): Client {
    match outcome
    case Replay(events, latest) => Client(latest, c.held + events)
    case SnapshotRequired => Client(0, [])
  }

  /** The client resumes, or anything else happens to the spool: a recording, another caller's
      resume, or this client's own resume whose answer was lost on the way. */
  datatype Action = Other(call: Call) | ClientResume(now: nat)

  datatype World = World(calls: seq<Call>, client: Client)

  function ClientCall(w: World, ws: string, now: nat): Call {
    ResumeCall(ws, AckArgument(w.client.ack), now)
  }

  function ClientAnswer(w: World, ws: string, now: nat, b: Bounds): ResumeOutcome {
    Resume(Run(w.calls, b), ws, AckArgument(w.client.ack), now, b).1
  }

  function Act(w: World, ws: string, a: Action, b: Bounds): World {
    match a
    case Other(c) => w.(calls := w.calls + [c])
    case ClientResume(now) =>
      World(w.calls + [ClientCall(w, ws, now)], Fold(w.client, ClientAnswer(w, ws, now, b)))
  }

  function Play(actions: seq<Action>, ws: string, b: Bounds): World {
    if actions == [] then World([], Client(0, []))
    else Act(Play(actions[..|actions| - 1], ws, b), ws, actions[|actions| - 1], b)
  }

  /** The client holds exactly the events numbered from just after its baseline up to its ack. */
  ghost predicate Complete(c: Client, log: seq<Event>) {
    |c.held| <= c.ack <= |log| && c.held == Numbered(log, c.ack - |c.held|, c.ack)
  }

  lemma LogExtend(calls: seq<Call>, c: Call, ws: string)
    ensures Log(calls, ws) <= Log(calls + [c], ws)
    ensures c.ResumeCall? ==> Log(calls + [c], ws) == Log(calls, ws)
  {
    assert (calls + [c])[..|calls|] == calls;
  }

  lemma NumberedPrefix(log: seq<Event>, longer: seq<Event>, from: nat, to: nat)
    requires log <= longer && from <= to <= |log|
    ensures Numbered(log, from, to) == Numbered(longer, from, to)
  {
    assert forall i :: 0 <= i < |log| ==> log[i] == longer[i];
  }

  lemma ReplayCompletes(c: Client, log: seq<Event>, from: nat, events: seq<Sequenced>)
    requires Complete(c, log) && c.ack <= from <= |log| && events == Numbered(log, from, |log|)
    requires from == c.ack || c.held == []
    ensures Complete(Fold(c, Replay(events, |log|)), log)
  {
    var start := if from == c.ack then c.ack - |c.held| else from;
    assert c.held + events == Numbered(log, start, |log|);
  }

  /** One resume keeps completeness; a replay leaves the client level with the latest event, and
      after a snapshot demand the very next resume is a replay. */
  lemma ResumeKeepsComplete(w: World, ws: string, now: nat, b: Bounds)
    requires Complete(w.client, Log(w.calls, ws))
    ensures var w' := Act(w, ws, ClientResume(now), b);
            && Complete(w'.client, Log(w'.calls, ws))
            && (ClientAnswer(w, ws, now, b).Replay? ==> w'.client.ack == |Log(w'.calls, ws)|)
            && (w.client.ack == 0 ==> ClientAnswer(w, ws, now, b).Replay?)
  {
    var log := Log(w.calls, ws);
    var ack := w.client.ack;
    var answer := ClientAnswer(w, ws, now, b);
    LogExtend(w.calls, ClientCall(w, ws, now), ws);
    if ack == 0 {
      ResumeWithoutAck(w.calls, b, ws, AckArgument(ack), now);
      ReplayCompletes(w.client, log, |log| - |answer.events|, answer.events);
    } else {
      ResumeExact(w.calls, b, ws, ack, now);
      if answer.Replay? {
        ReplayCompletes(w.client, log, ack, answer.events);
      }
    }
  }

  /** Client completeness over every run: whatever else happens between its resumes, the client
      holds consecutive recorded events, with no gap and no duplicate, up to its ack. */
  lemma {:induction false} ClientIsComplete(actions: seq<Action>, ws: string, b: Bounds)
    ensures var w := Play(actions, ws, b);
            Complete(w.client, Log(w.calls, ws))
  {
    if actions != [] {
      var before, a := actions[..|actions| - 1], actions[|actions| - 1];
      ClientIsComplete(before, ws, b);
      var w := Play(before, ws, b);
      match a
      case Other(c) =>
        LogExtend(w.calls, c, ws);
        NumberedPrefix(Log(w.calls, ws), Log(w.calls + [c], ws), w.client.ack - |w.client.held|, w.client.ack);
      case ClientResume(now) =>
        ResumeKeepsComplete(w, ws, now, b);
    }
  }

  // ---- where the module comment promises more ----

  /** The source's header comment expects a caller ahead of a restarted spool to be sent back for a
      snapshot. That is what happens exactly while nothing has been recorded for the workspace. */
  lemma AheadOfLatest(calls: seq<Call>, b: Bounds, ws: string, after: nat, now: nat)
    requires after > |Log(calls, ws)|
    ensures Resume(Run(calls, b), ws, Some(after), now, b).1.SnapshotRequired? <==> Log(calls, ws) == []
  {
    ResumeExact(calls, b, ws, after, now);
  }

  /** A concrete run where it does not: one event recorded since the restart, a caller at 5. */
  lemma AheadOfRestartedSpoolIsReplayed()
    ensures var e := Event(Some("ws"), "agent_status");
            Resume(Run([RecordCall(e, 0)], Bounds(500, 0)), "ws", Some(5), 0, Bounds(500, 0)).1 == Replay([], 1)
  {
    var calls := [RecordCall(Event(Some("ws"), "agent_status"), 0)];
    assert calls[..0] == [];
    assert Log(calls, "ws") == Log([], "ws") + [calls[0].event];
    AheadOfLatest(calls, Bounds(500, 0), "ws", 5, 0);
    ResumeExact(calls, Bounds(500, 0), "ws", 5, 0);
  }
}
