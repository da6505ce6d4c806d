/** Directory listing by pages (`list_dir` in choosh-hostd/src/fs_ops.rs). A listing is what
    `read_dir` yielded, in its own order, after entries without a UTF-8 name were dropped. */
module Pagination {
  import opened Wrappers

  datatype Entry = Entry(name: string, isDir: bool)

  datatype Target = Missing | AFile | Dir(listing: seq<Entry>)

  datatype ListError = NotFound | NotADirectory

  // ---- the order of names: `String` compares code point by code point ----

  predicate Leq(a: string, b: string)
    decreases |a|
  {
    a == "" || (b != "" && (a[0] < b[0] || (a[0] == b[0] && Leq(a[1..], b[1..]))))
  }

  predicate Less(a: string, b: string) {
    !Leq(b, a)
  }

  lemma {:induction false} LeqTotal(a: string, b: string)
    ensures Leq(a, b) || Leq(b, a)
    ensures Leq(a, b) && Leq(b, a) ==> a == b
    ensures Leq(a, a)
    decreases |a| + |b|
  {
    if a != "" && b != "" {
      LeqTotal(a[1..], b[1..]);
      assert a == [a[0]] + a[1..] && b == [b[0]] + b[1..];
    }
    LeqReflexive(a);
  }

  lemma {:induction false} LeqReflexive(a: string)
    ensures Leq(a, a)
  {
    if a != "" {
      LeqReflexive(a[1..]);
    }
  }

  lemma {:induction false} LeqTransitive(a: string, b: string, c: string)
    requires Leq(a, b) && Leq(b, c)
    ensures Leq(a, c)
  {
    if a != "" && a[0] == b[0] && b[0] == c[0] {
      LeqTransitive(a[1..], b[1..], c[1..]);
    }
  }

  lemma LessChain(a: string, b: string, c: string)
    ensures Less(a, b) && Leq(b, c) ==> Less(a, c)
    ensures Leq(a, b) && Less(b, c) ==> Less(a, c)
    ensures !Less(a, a) && (Less(a, b) ==> Leq(a, b))
  {
    LeqTotal(a, a);
    LeqTotal(a, b);
    if Leq(b, c) && Leq(c, a) { LeqTransitive(b, c, a); }
    if Leq(c, a) && Leq(a, b) { LeqTransitive(c, a, b); }
  }

  predicate BeforeAt(a: string, b: string, k: nat) {
    k <= |a| && k < |b| && a[..k] == b[..k] && (k == |a| || a[k] < b[k])
  }

  /** `a` stands before `b`: at the first place where they differ its character is the smaller one, or it
      ends there. */
  ghost predicate Before(a: string, b: string) {
    exists k: nat :: BeforeAt(a, b, k)
  }

  lemma BehindFirst(a: string, b: string, k: nat)
    requires a != "" && b != "" && a[0] == b[0]
    ensures BeforeAt(a, b, k + 1) <==> BeforeAt(a[1..], b[1..], k)
  {
    if k + 1 <= |a| && k + 1 < |b| {
      assert a[..k + 1] == [a[0]] + a[1..][..k] && b[..k + 1] == [b[0]] + b[1..][..k];
      assert a[1..][..k] == a[..k + 1][1..] && b[1..][..k] == b[..k + 1][1..];
    }
  }

  lemma {:induction false} LessIsBefore(a: string, b: string)
    ensures Less(a, b) <==> Before(a, b)
    decreases |a|
  {
    if a != "" && b != "" && a[0] == b[0] {
      LessIsBefore(a[1..], b[1..]);
      forall k: nat ensures BeforeAt(a, b, k + 1) <==> BeforeAt(a[1..], b[1..], k) {
        BehindFirst(a, b, k);
      }
      SameFirst(a, b);
    } else {
      OtherFirst(a, b);
    }
  }

  lemma SameFirst(a: string, b: string)
    requires a != "" && b != "" && a[0] == b[0]
    requires forall k: nat :: BeforeAt(a, b, k + 1) <==> BeforeAt(a[1..], b[1..], k)
    ensures Before(a, b) <==> Before(a[1..], b[1..])
  {
    if Before(a, b) {
      var k: nat :| BeforeAt(a, b, k);
      assert k > 0;
      assert BeforeAt(a, b, (k - 1) + 1);
      assert BeforeAt(a[1..], b[1..], k - 1);
    }
    if Before(a[1..], b[1..]) {
      var k: nat :| BeforeAt(a[1..], b[1..], k);
      assert BeforeAt(a, b, k + 1);
    }
  }

  lemma OtherFirst(a: string, b: string)
    requires a == "" || b == "" || a[0] != b[0]
    ensures Before(a, b) <==> b != "" && (a == "" || a[0] < b[0])
  {
    forall k: nat | k > 0 ensures !BeforeAt(a, b, k) {
      if k <= |a| && k < |b| {
        assert a[..k][0] == a[0] && b[..k][0] == b[0];
      }
    }
    assert BeforeAt(a, b, 0) <==> b != "" && (a == "" || a[0] < b[0]);
  }

  // ---- listing ----

  function Insert(e: Entry, sorted: seq<Entry>): seq<Entry> {
    if sorted == [] || Leq(e.name, sorted[0].name) then [e] + sorted
    else [sorted[0]] + Insert(e, sorted[1..])
  }

  function SortByName(listing: seq<Entry>): seq<Entry> {
    if listing == [] then [] else Insert(listing[0], SortByName(listing[1..]))
  }

  /** `partition_point(name <= after)` on sorted names. */
  function PartitionPoint(names: seq<Entry>, after: string): (r: nat)
    ensures r <= |names|
  {
    if names == [] || !Leq(names[0].name, after) then 0 else 1 + PartitionPoint(names[1..], after)
  }

  function Start(names: seq<Entry>, cursor: Option<string>): (r: nat)
    ensures r <= |names|
  {
    match cursor case Some(after) => PartitionPoint(names, after) case None => 0
  }

  /** The first `pageSize` entries, and the cursor when something is left. */
  function Take(rest: seq<Entry>, pageSize: nat): (seq<Entry>, Option<string>) {
    var page := if |rest| < pageSize then rest else rest[..pageSize];
    var next := if |page| < |rest| && |page| > 0 then Some(page[|page| - 1].name) else None;
    (page, next)
  }

  function Page(names: seq<Entry>, cursor: Option<string>, pageSize: nat): (seq<Entry>, Option<string>) {
    Take(names[Start(names, cursor)..], pageSize)
  }

  function ListDir(target: Target, cursor: Option<string>, pageSize: nat)
    : Result<(seq<Entry>, Option<string>), ListError>
  {
    match target
    case Missing => Err(NotFound)
    case AFile => Err(NotADirectory)
    case Dir(listing) => Ok(Page(SortByName(listing), cursor, pageSize))
  }

  // ---- sorting ----

  ghost predicate Increasing(s: seq<Entry>) {
    forall i, j :: 0 <= i < j < |s| ==> Less(s[i].name, s[j].name)
  }

  ghost predicate Distinct(listing: seq<Entry>) {
    forall i, j :: 0 <= i < j < |listing| ==> listing[i].name != listing[j].name
  }

  lemma IncreasingBehind(e: Entry, rest: seq<Entry>)
    requires Increasing(rest) && forall x :: x in rest ==> Less(e.name, x.name)
    ensures Increasing([e] + rest)
  {
  }

  lemma {:induction false} InsertSorted(e: Entry, sorted: seq<Entry>)
    requires Increasing(sorted) && forall x :: x in sorted ==> x.name != e.name
    ensures Increasing(Insert(e, sorted))
    ensures forall x :: x in Insert(e, sorted) <==> x == e || x in sorted
  {
    if sorted == [] {
    } else if Leq(e.name, sorted[0].name) {
      LeqTotal(e.name, sorted[0].name);
      assert sorted[0] in sorted;
      forall x | x in sorted ensures Less(e.name, x.name) {
        var j :| 0 <= j < |sorted| && sorted[j] == x;
        LessChain(e.name, sorted[0].name, x.name);
        if j > 0 { LessChain(sorted[0].name, x.name, x.name); }
      }
      IncreasingBehind(e, sorted);
    } else {
      var rest := Insert(e, sorted[1..]);
      InsertSorted(e, sorted[1..]);
      forall x | x in rest ensures Less(sorted[0].name, x.name) {
        if x != e {
          var k :| 0 <= k < |sorted[1..]| && sorted[1..][k] == x;
          assert sorted[k + 1] == x;
        }
      }
      IncreasingBehind(sorted[0], rest);
    }
  }

  /** The sorted names are strictly increasing and are the listing's entries, no more and no fewer. */
  lemma {:induction false} SortSorts(listing: seq<Entry>)
    requires Distinct(listing)
    ensures Increasing(SortByName(listing)) && |SortByName(listing)| == |listing|
    ensures forall x :: x in SortByName(listing) <==> x in listing
  {
    if listing != [] {
      SortSorts(listing[1..]);
      forall x | x in SortByName(listing[1..]) ensures x.name != listing[0].name {
        var i :| 0 <= i < |listing[1..]| && listing[1..][i] == x;
        assert listing[i + 1] == x;
      }
      InsertSorted(listing[0], SortByName(listing[1..]));
      InsertLength(listing[0], SortByName(listing[1..]));
    }
  }

  lemma {:induction false} InsertLength(e: Entry, sorted: seq<Entry>)
    ensures |Insert(e, sorted)| == |sorted| + 1
  {
    if sorted != [] && !Leq(e.name, sorted[0].name) {
      InsertLength(e, sorted[1..]);
    }
  }

  /** Two strictly increasing lists with the same entries are the same list. */
  lemma {:induction false} IncreasingIsUnique(a: seq<Entry>, b: seq<Entry>)
    requires Increasing(a) && Increasing(b) && forall x :: x in a <==> x in b
    ensures a == b
  {
    FirstIsIn(a);
    FirstIsIn(b);
    if a != [] && b != [] {
      FirstIsLeast(a, b);
      FirstIsLeast(b, a);
      LeqTotal(a[0].name, b[0].name);
      SameHead(a, b);
      forall x ensures x in a[1..] <==> x in b[1..] {
        InTail(a, x);
        InTail(b, x);
      }
      IncreasingTail(a);
      IncreasingTail(b);
      IncreasingIsUnique(a[1..], b[1..]);
      assert a == [a[0]] + a[1..] && b == [b[0]] + b[1..];
    }
  }

  lemma FirstIsIn(a: seq<Entry>)
    ensures a != [] ==> a[0] in a
  {
  }

  lemma IncreasingTail(a: seq<Entry>)
    requires Increasing(a) && a != []
    ensures Increasing(a[1..])
  {
    assert forall i :: 0 <= i < |a[1..]| ==> a[1..][i] == a[i + 1];
  }

  lemma FirstIsLeast(a: seq<Entry>, b: seq<Entry>)
    requires Increasing(a) && a != [] && b != [] && b[0] in a
    ensures Leq(a[0].name, b[0].name)
  {
    var i :| 0 <= i < |a| && a[i] == b[0];
    LeqTotal(a[0].name, a[0].name);
    if i > 0 { LessChain(a[0].name, a[i].name, a[i].name); }
  }

  lemma SameHead(a: seq<Entry>, b: seq<Entry>)
    requires Increasing(a) && a != [] && b != [] && a[0].name == b[0].name && b[0] in a
    ensures a[0] == b[0]
  {
    var i :| 0 <= i < |a| && a[i] == b[0];
    LessChain(a[0].name, a[0].name, a[0].name);
  }

  lemma InTail(a: seq<Entry>, x: Entry)
    requires Increasing(a) && a != []
    ensures x in a[1..] <==> x in a && x != a[0]
  {
    if x in a[1..] {
      var i :| 0 <= i < |a[1..]| && a[1..][i] == x;
      assert a[i + 1] == x;
      LessChain(a[0].name, a[0].name, a[0].name);
    }
    if x in a && x != a[0] {
      var i :| 0 <= i < |a| && a[i] == x;
      assert a[1..][i - 1] == x;
    }
  }

  /** The order in which `read_dir` happens to yield entries does not matter. */
  lemma ListingOrderIsIrrelevant(a: seq<Entry>, b: seq<Entry>, cursor: Option<string>, pageSize: nat)
    requires Distinct(a) && Distinct(b) && forall x :: x in a <==> x in b
    ensures ListDir(Dir(a), cursor, pageSize) == ListDir(Dir(b), cursor, pageSize)
  {
    SortSorts(a);
    SortSorts(b);
    IncreasingIsUnique(SortByName(a), SortByName(b));
  }

  // ---- one page ----

  /** A name is still to come behind a cursor. */
  predicate Behind(name: string, cursor: Option<string>) {
    cursor.None? || Less(cursor.value, name)
  }

  lemma {:induction false} StartSplits(names: seq<Entry>, after: string)
    requires Increasing(names)
    ensures forall i :: 0 <= i < |names| ==> (i < PartitionPoint(names, after) <==> !Less(after, names[i].name))
  {
    if names != [] {
      IncreasingTail(names);
      StartSplits(names[1..], after);
      forall i | 0 <= i < |names| ensures i < PartitionPoint(names, after) <==> !Less(after, names[i].name) {
        if i > 0 {
          assert names[i] == names[1..][i - 1];
          LessChain(after, names[0].name, names[i].name);
          LessChain(names[0].name, names[i].name, names[i].name);
        }
      }
    }
  }

  /** The entries behind the cursor, in order. */
  function Rest(names: seq<Entry>, cursor: Option<string>): seq<Entry> {
    names[Start(names, cursor)..]
  }

  lemma RestExact(names: seq<Entry>, cursor: Option<string>)
    requires Increasing(names)
    ensures Increasing(Rest(names, cursor))
    ensures forall x :: x in Rest(names, cursor) <==> x in names && Behind(x.name, cursor)
  {
    var start, rest := Start(names, cursor), Rest(names, cursor);
    if cursor.Some? { StartSplits(names, cursor.value); }
    assert forall i :: 0 <= i < |rest| ==> rest[i] == names[start + i];
    forall x | x in names && Behind(x.name, cursor) ensures x in rest {
      var i :| 0 <= i < |names| && names[i] == x;
      assert rest[i - start] == x;
    }
  }

  /** A page is the next entries behind the cursor, in order: no entry is skipped, a full page is
      followed by a cursor naming its last entry, and the last page carries none. */
  ghost predicate IsPage(page: seq<Entry>, next: Option<string>, all: seq<Entry>, cursor: Option<string>) {
    && Increasing(page)
    && (forall x :: x in page ==> x in all && Behind(x.name, cursor))
    && (next.None? ==> forall x :: x in all && Behind(x.name, cursor) ==> x in page)
    && (next.Some? ==> page != [] && next.value == page[|page| - 1].name)
    && (next.Some? ==> forall x :: x in all && Behind(x.name, cursor) ==> x in page || Less(next.value, x.name))
  }

  lemma TakeExact(rest: seq<Entry>, pageSize: nat)
    requires Increasing(rest) && pageSize >= 1
    ensures var (page, next) := Take(rest, pageSize); IsPage(page, next, rest, None)
  {
    var (page, next) := Take(rest, pageSize);
    forall x | x in rest ensures x in page || (next.Some? && Less(next.value, x.name)) {
      var i :| 0 <= i < |rest| && rest[i] == x;
      if i < |page| {
        assert page[i] == x;
      }
    }
  }

  lemma PageExact(listing: seq<Entry>, cursor: Option<string>, pageSize: nat)
    requires Distinct(listing) && pageSize >= 1
    ensures var (page, next) := Page(SortByName(listing), cursor, pageSize); IsPage(page, next, listing, cursor)
  {
    SortSorts(listing);
    var names := SortByName(listing);
    RestExact(names, cursor);
    TakeExact(Rest(names, cursor), pageSize);
  }

  /** Everything `list_dir` may answer: what is missing, what is no directory, and otherwise a page in which
      every name stands before the next, holding entries of the directory behind the cursor and
      nothing else. */
  lemma ListDirExact(target: Target, cursor: Option<string>, pageSize: nat)
    requires target.Dir? ==> Distinct(target.listing)
    ensures var r := ListDir(target, cursor, pageSize);
            && (r == Err(NotFound) <==> target.Missing?)
            && (r == Err(NotADirectory) <==> target.AFile?)
            && (r.Ok? <==> target.Dir?)
    ensures var r := ListDir(target, cursor, pageSize);
            r.Ok? && pageSize >= 1 ==>
              && |r.value.0| <= pageSize
              && (forall i, j :: 0 <= i < j < |r.value.0| ==> Before(r.value.0[i].name, r.value.0[j].name))
              && (forall x :: x in r.value.0 ==>
                    x in target.listing && (cursor.Some? ==> Before(cursor.value, x.name)))
  {
    if target.Dir? && pageSize >= 1 {
      PageExact(target.listing, cursor, pageSize);
      NamesIncrease([target.listing], cursor, pageSize);
      var page := Page(SortByName(target.listing), cursor, pageSize).0;
      PageAlone(target.listing, cursor, pageSize);
      forall i, j | 0 <= i < j < |page| ensures Before(page[i].name, page[j].name) {
        LessIsBefore(page[i].name, page[j].name);
      }
      forall x | x in page && cursor.Some? ensures Before(cursor.value, x.name) {
        LessIsBefore(cursor.value, x.name);
      }
    }
  }

  lemma PageAlone(listing: seq<Entry>, cursor: Option<string>, pageSize: nat)
    ensures Follow([listing], cursor, pageSize).0 == Page(SortByName(listing), cursor, pageSize).0
  {
    assert [listing][1..] == [];
    assert Page(SortByName(listing), cursor, pageSize).0 + [] == Page(SortByName(listing), cursor, pageSize).0;
  }

  // ---- following the cursor ----

  /** What a client collects that follows `next_cursor`, one listing per request, and whether it got
      to the end. The directory may be a different one at every request. */
  function Follow(listings: seq<seq<Entry>>, cursor: Option<string>, pageSize: nat): (seq<Entry>, bool) {
    if listings == [] then ([], false)
    else
      var (page, next) := Page(SortByName(listings[0]), cursor, pageSize);
      if next.None? then (page, true)
      else
        var (rest, finished) := Follow(listings[1..], next, pageSize);
        (page + rest, finished)
  }

  ghost predicate AllDistinct(listings: seq<seq<Entry>>) {
    forall l :: l in listings ==> Distinct(l)
  }

  ghost predicate AllBehind(s: seq<Entry>, cursor: Option<string>) {
    forall x :: x in s ==> Behind(x.name, cursor)
  }

  lemma IncreasingConcat(a: seq<Entry>, b: seq<Entry>, cursor: Option<string>)
    requires Increasing(a) && a != [] && Increasing(b) && AllBehind(b, Some(a[|a| - 1].name))
    requires AllBehind(a, cursor)
    ensures Increasing(a + b) && AllBehind(a + b, cursor)
  {
    var s, last := a + b, a[|a| - 1];
    forall i, j | 0 <= i < j < |s| ensures Less(s[i].name, s[j].name) {
      if i < |a| <= j {
        assert s[j] in b;
        LessChain(last.name, s[j].name, s[j].name);
        if i < |a| - 1 { LessChain(s[i].name, last.name, s[j].name); }
      }
    }
    forall x | x in s ensures Behind(x.name, cursor) {
      if x in b && cursor.Some? {
        assert last in a;
        LessChain(last.name, x.name, x.name);
        LessChain(cursor.value, last.name, x.name);
      }
    }
  }

  /** Whatever happens to the directory between pages: names strictly increase across the whole
      listing, so none is repeated, and every entry was in the directory when its page was read. */
  lemma {:induction false} NamesIncrease(listings: seq<seq<Entry>>, cursor: Option<string>, pageSize: nat)
    requires AllDistinct(listings) && pageSize >= 1
    ensures var (all, _) := Follow(listings, cursor, pageSize); Increasing(all) && AllBehind(all, cursor)
    ensures var (all, _) := Follow(listings, cursor, pageSize);
            forall x :: x in all ==> exists l :: l in listings && x in l
  {
    if listings != [] {
      PageExact(listings[0], cursor, pageSize);
      var (page, next) := Page(SortByName(listings[0]), cursor, pageSize);
      if next.Some? {
        NamesIncrease(listings[1..], next, pageSize);
        IncreasingConcat(page, Follow(listings[1..], next, pageSize).0, cursor);
      }
    }
  }

  ghost predicate Named(listing: seq<Entry>, name: string) {
    exists x :: x in listing && x.name == name
  }

  /** Every name that is in the directory at each request of a finished listing is listed, and by
      `NamesIncrease` only once, whatever it names at each of them. */
  lemma {:induction false} NoStableNameIsMissed(listings: seq<seq<Entry>>, cursor: Option<string>, pageSize: nat,
                                                name: string)
    requires AllDistinct(listings) && pageSize >= 1 && Follow(listings, cursor, pageSize).1
    requires Behind(name, cursor) && forall l :: l in listings ==> Named(l, name)
    ensures Named(Follow(listings, cursor, pageSize).0, name)
  {
    PageExact(listings[0], cursor, pageSize);
    var (page, next) := Page(SortByName(listings[0]), cursor, pageSize);
    assert listings[0] in listings && Named(listings[0], name);
    var x :| x in listings[0] && x.name == name;
    if x in page {
      assert x in Follow(listings, cursor, pageSize).0;
    } else {
      NoStableNameIsMissed(listings[1..], next, pageSize, name);
      var later := Follow(listings[1..], next, pageSize).0;
      assert Named(later, name);
      var y :| y in later && y.name == name;
      assert y in Follow(listings, cursor, pageSize).0;
    }
  }

  /** And an entry that stays the same is listed as it is. */
  lemma NothingStableIsMissed(listings: seq<seq<Entry>>, cursor: Option<string>, pageSize: nat, x: Entry)
    requires AllDistinct(listings) && pageSize >= 1 && Follow(listings, cursor, pageSize).1
    requires Behind(x.name, cursor) && forall l :: l in listings ==> x in l
    ensures x in Follow(listings, cursor, pageSize).0
  {
    NoStableNameIsMissed(listings, cursor, pageSize, x.name);
    NamesIncrease(listings, cursor, pageSize);
    var y :| y in Follow(listings, cursor, pageSize).0 && y.name == x.name;
    var l :| l in listings && y in l;
    assert Distinct(l) && x in l;
  }

  function Repeated(listing: seq<Entry>, times: nat): seq<seq<Entry>> {
    if times == 0 then [] else [listing] + Repeated(listing, times - 1)
  }

  /** How many requests `count` entries take. */
  function Requests(count: nat, pageSize: nat): nat
    requires pageSize >= 1
    decreases count
  {
    if count <= pageSize then 1 else 1 + Requests(count - pageSize, pageSize)
  }

  /** The cursor left by a full page starts the next page right behind it. */
  lemma NextRest(names: seq<Entry>, cursor: Option<string>, pageSize: nat)
    requires Increasing(names) && pageSize >= 1 && pageSize < |Rest(names, cursor)|
    ensures Rest(names, Some(Rest(names, cursor)[pageSize - 1].name)) == Rest(names, cursor)[pageSize..]
  {
    var last := Start(names, cursor) + pageSize - 1;
    StartSplits(names, names[last].name);
    LessChain(names[last].name, names[last].name, names[last].name);
    assert Less(names[last].name, names[last + 1].name);
  }

  lemma TakeShape(rest: seq<Entry>, pageSize: nat)
    requires pageSize >= 1
    ensures Take(rest, pageSize)
         == if |rest| <= pageSize then (rest, None) else (rest[..pageSize], Some(rest[pageSize - 1].name))
  {
    if |rest| == pageSize { assert rest[..pageSize] == rest; }
  }

  lemma FollowStep(listing: seq<Entry>, cursor: Option<string>, pageSize: nat, times: nat)
    requires pageSize >= 1 && times > 0
    ensures var rest := Rest(SortByName(listing), cursor);
            Follow(Repeated(listing, times), cursor, pageSize) ==
              if |rest| <= pageSize then (rest, true)
              else
                var later := Follow(Repeated(listing, times - 1), Some(rest[pageSize - 1].name), pageSize);
                (rest[..pageSize] + later.0, later.1)
  {
    TakeShape(Rest(SortByName(listing), cursor), pageSize);
    assert Repeated(listing, times)[1..] == Repeated(listing, times - 1);
  }

  /** A followed listing finishes exactly when it was given the requests it needs, and then it has
      all of `rest`. */
  ghost predicate Complete(followed: (seq<Entry>, bool), rest: seq<Entry>, pageSize: nat, times: nat)
    requires pageSize >= 1
  {
    && (followed.1 <==> Requests(|rest|, pageSize) <= times)
    && (followed.1 ==> followed.0 == rest)
  }

  lemma OneMorePage(later: (seq<Entry>, bool), rest: seq<Entry>, pageSize: nat, times: nat)
    requires 1 <= pageSize < |rest| && times > 0 && Complete(later, rest[pageSize..], pageSize, times - 1)
    ensures Complete((rest[..pageSize] + later.0, later.1), rest, pageSize, times)
  {
    assert rest == rest[..pageSize] + rest[pageSize..];
  }

  /** An unchanging directory: the pages concatenate to its whole sorted listing behind the cursor,
      in exactly the number of requests that many entries need. */
  lemma {:induction false} UnchangingDirectory(listing: seq<Entry>, cursor: Option<string>, pageSize: nat, times: nat)
    requires Distinct(listing) && pageSize >= 1
    ensures Complete(Follow(Repeated(listing, times), cursor, pageSize), Rest(SortByName(listing), cursor), pageSize,
                     times)
    decreases times
  {
    if times > 0 {
      SortSorts(listing);
      FollowStep(listing, cursor, pageSize, times);
      var rest := Rest(SortByName(listing), cursor);
      if pageSize < |rest| {
        var next := Some(rest[pageSize - 1].name);
        NextRest(SortByName(listing), cursor, pageSize);
        UnchangingDirectory(listing, next, pageSize, times - 1);
        OneMorePage(Follow(Repeated(listing, times - 1), next, pageSize), rest, pageSize, times);
      }
    }
  }
}
