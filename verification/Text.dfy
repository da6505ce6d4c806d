/** The slice of Rust's `str` and slice API the modelled files call: searching,
    splitting, trimming, `lines`, and the decimal forms of `u64`. */
module Text {
  import opened Wrappers

  // ---- searching ----

  predicate OccursAt<T(==)>(s: seq<T>, p: seq<T>, i: nat) {
    i + |p| <= |s| && s[i..i + |p|] == p
  }

  function FindFrom<T(==)>(s: seq<T>, p: seq<T>, i: nat): (r: Option<nat>)
    requires i <= |s|
    ensures r.Some? ==> i <= r.value && OccursAt(s, p, r.value)
    ensures r.Some? ==> forall j :: i <= j < r.value ==> !OccursAt(s, p, j)
    ensures r.None? ==> forall j :: i <= j ==> !OccursAt(s, p, j)
    decreases |s| - i
  {
    if OccursAt(s, p, i) then Some(i)
    else if i == |s| then None
    else FindFrom(s, p, i + 1)
  }

  /** `find`: the first occurrence of `p`. */
  function Find<T(==)>(s: seq<T>, p: seq<T>): (r: Option<nat>)
    ensures r.Some? ==> r.value + |p| <= |s|
  {
    FindFrom(s, p, 0)
  }

  lemma FindIsFirst<T>(s: seq<T>, p: seq<T>)
    ensures var r := Find(s, p);
            if r.Some? then OccursAt(s, p, r.value) && forall j :: 0 <= j < r.value ==> !OccursAt(s, p, j)
            else forall j: nat :: !OccursAt(s, p, j)
  {
  }

  /** The first occurrence is where `find` stops. */
  lemma FindAt<T>(s: seq<T>, p: seq<T>, k: nat)
    requires OccursAt(s, p, k) && forall j :: 0 <= j < k ==> !OccursAt(s, p, j)
    ensures Find(s, p) == Some(k)
  {
    FindIsFirst(s, p);
  }

  function RFindBefore(s: string, p: string, i: nat): (r: Option<nat>)
    ensures r.Some? ==> r.value < i && r.value + |p| <= |s|
  {
    if i == 0 then None
    else if OccursAt(s, p, i - 1) then Some(i - 1)
    else RFindBefore(s, p, i - 1)
  }

  lemma {:induction false} RFindBeforeIsLast(s: string, p: string, i: nat)
    ensures var r := RFindBefore(s, p, i);
            if r.Some? then OccursAt(s, p, r.value) && forall j :: r.value < j < i ==> !OccursAt(s, p, j)
            else forall j :: 0 <= j < i ==> !OccursAt(s, p, j)
  {
    if i > 0 && !OccursAt(s, p, i - 1) {
      RFindBeforeIsLast(s, p, i - 1);
    }
  }

  /** `rfind`: the last occurrence of `p`. */
  function RFind(s: string, p: string): (r: Option<nat>)
    ensures r.Some? ==> r.value + |p| <= |s|
  {
    RFindBefore(s, p, |s| + 1)
  }

  lemma RFindIsLast(s: string, p: string)
    ensures var r := RFind(s, p);
            if r.Some? then OccursAt(s, p, r.value) && forall j :: r.value < j ==> !OccursAt(s, p, j)
            else forall j: nat :: !OccursAt(s, p, j)
  {
    RFindBeforeIsLast(s, p, |s| + 1);
  }

  /** An occurrence that fits inside a prefix is an occurrence of the whole. */
  lemma OccursInPrefix<T>(s: seq<T>, x: seq<T>, p: seq<T>, i: nat)
    requires i + |p| <= |s|
    ensures OccursAt(s, p, i) <==> OccursAt(s + x, p, i)
  {
    assert (s + x)[i..i + |p|] == s[i..i + |p|];
  }

  /** Dropping a prefix shifts the occurrences behind it. */
  lemma OccursInSuffix<T>(x: seq<T>, s: seq<T>, p: seq<T>, i: nat)
    ensures OccursAt(x + s, p, |x| + i) <==> OccursAt(s, p, i)
  {
    if i + |p| <= |s| {
      assert (x + s)[|x| + i..|x| + i + |p|] == s[i..i + |p|];
    }
  }

  /** A text that differs from `p` at one place does not hold `p` there. */
  lemma NotAt<T>(s: seq<T>, p: seq<T>, i: nat, k: nat)
    requires k < |p| && (i + k >= |s| || s[i + k] != p[k])
    ensures !OccursAt(s, p, i)
  {
    if i + |p| <= |s| {
      assert s[i..i + |p|][k] == s[i + k];
    }
  }

  /** What `find` locates in a text it also locates in every extension. */
  lemma FindExtend<T>(s: seq<T>, x: seq<T>, p: seq<T>)
    requires Find(s, p).Some?
    ensures Find(s + x, p) == Find(s, p)
  {
    var k := Find(s, p).value;
    FindIsFirst(s, p);
    OccursInPrefix(s, x, p, k);
    forall j | 0 <= j < k ensures !OccursAt(s + x, p, j) {
      OccursInPrefix(s, x, p, j);
    }
    FindAt(s + x, p, k);
  }

  /** `a` holds no start of `p` when `p` follows it: the separator is unambiguous. */
  ghost predicate Clean<T>(a: seq<T>, p: seq<T>) {
    forall j :: 0 <= j < |a| ==> !OccursAt(a + p, p, j)
  }

  lemma CleanHasNone<T>(a: seq<T>, p: seq<T>)
    requires |p| > 0 && Clean(a, p)
    ensures Find(a, p).None?
  {
    forall k: nat | k + |p| <= |a| ensures !OccursAt(a, p, k) {
      OccursInPrefix(a, p, p, k);
    }
    FindIsFirst(a, p);
  }

  lemma FindAfterClean<T>(a: seq<T>, p: seq<T>, b: seq<T>)
    requires Clean(a, p)
    ensures Find(a + p + b, p) == Some(|a|)
  {
    var s := a + p;
    assert s[|a|..|a| + |p|] == p;
    FindAt(s, p, |a|);
    FindExtend(s, b, p);
  }

  lemma CleanOfChar<T>(a: seq<T>, c: T)
    requires c !in a
    ensures Clean(a, [c])
  {
    forall j | 0 <= j < |a| ensures !OccursAt(a + [c], [c], j) {
      assert (a + [c])[j..j + 1] == [a[j]];
    }
  }

  lemma FindChar<T>(s: seq<T>, c: T)
    ensures Find(s, [c]).None? <==> c !in s
    ensures Find(s, [c]).Some? ==>
              Find(s, [c]).value < |s| && s[Find(s, [c]).value] == c && c !in s[..Find(s, [c]).value]
  {
    forall j | 0 <= j < |s| ensures OccursAt(s, [c], j) <==> s[j] == c {
      assert s[j..j + 1] == [s[j]];
    }
    FindIsFirst(s, [c]);
    if c in s {
      var i :| 0 <= i < |s| && s[i] == c;
      assert OccursAt(s, [c], i);
    }
  }

  lemma Reassociate<T>(a: seq<T>, b: seq<T>, c: seq<T>)
    ensures (a + b) + c == a + (b + c)
  {
  }

  lemma DropExtend<T>(s: seq<T>, x: seq<T>, k: nat)
    requires k <= |s|
    ensures (s + x)[k..] == s[k..] + x && (s + x)[..k] == s[..k]
  {
  }

  lemma DropFront<T>(a: seq<T>, b: seq<T>)
    ensures (a + b)[|a|..] == b && (a + b)[..|a|] == a
  {
  }

  lemma CutTwice<T>(s: seq<T>, i: nat, j: nat)
    requires i <= j <= |s|
    ensures s == s[..i] + s[i..j] + s[j..]
  {
  }

  lemma TakeOfSlice<T>(s: seq<T>, i: nat, j: nat, n: nat)
    requires i + n <= j <= |s|
    ensures s[i..j][..n] == s[i..i + n]
  {
  }

  lemma TakeNext<T>(s: seq<T>, i: nat)
    requires i < |s|
    ensures s[..i + 1] == s[..i] + [s[i]]
  {
  }

  // ---- splitting ----

  function StripPrefix<T(==)>(s: seq<T>, p: seq<T>): (r: Option<seq<T>>)
    ensures r.Some? <==> p <= s
    ensures r.Some? ==> s == p + r.value
  {
    if p <= s then Some(s[|p|..]) else None
  }

  function StripSuffix(s: string, p: string): (r: Option<string>)
    ensures r.Some? ==> s == r.value + p
    ensures r.None? ==> forall t: string :: s != t + p
  {
    if |p| <= |s| && s[|s| - |p|..] == p then Some(s[..|s| - |p|]) else None
  }

  function SplitOnce<T(==)>(s: seq<T>, p: seq<T>): (r: Option<(seq<T>, seq<T>)>)
    ensures r.Some? ==> s == r.value.0 + p + r.value.1
  {
    FindIsFirst(s, p);
    match Find(s, p)
    case None => None
    case Some(k) => Some((s[..k], s[k + |p|..]))
  }

  lemma SplitOnceClean<T>(a: seq<T>, p: seq<T>, b: seq<T>)
    requires Clean(a, p)
    ensures SplitOnce(a + p + b, p) == Some((a, b))
  {
    FindAfterClean(a, p, b);
    assert (a + p + b)[..|a|] == a;
    assert (a + p + b)[|a| + |p|..] == b;
  }

  function Split<T(==)>(s: seq<T>, p: seq<T>): (r: seq<seq<T>>)
    requires |p| > 0
    ensures |r| > 0
    decreases |s|
  {
    match Find(s, p)
    case None => [s]
    case Some(k) => [s[..k]] + Split(s[k + |p|..], p)
  }

  function Join<T>(parts: seq<seq<T>>, p: seq<T>): seq<T> {
    if |parts| == 0 then []
    else if |parts| == 1 then parts[0]
    else parts[0] + p + Join(parts[1..], p)
  }

  /** Splitting undoes joining exactly when no part can be confused with the separator. */
  lemma {:induction false} SplitJoin<T>(parts: seq<seq<T>>, p: seq<T>)
    requires |p| > 0 && |parts| > 0
    requires forall q :: q in parts ==> Clean(q, p)
    ensures Split(Join(parts, p), p) == parts
  {
    if |parts| == 1 {
      assert parts[0] in parts;
      CleanHasNone(parts[0], p);
    } else {
      FindAfterClean(parts[0], p, Join(parts[1..], p));
      var s := Join(parts, p);
      assert s[..|parts[0]|] == parts[0];
      assert s[|parts[0]| + |p|..] == Join(parts[1..], p);
      SplitJoin(parts[1..], p);
    }
  }

  lemma {:induction false} JoinSplit<T>(s: seq<T>, p: seq<T>)
    requires |p| > 0
    ensures Join(Split(s, p), p) == s
    decreases |s|
  {
    FindIsFirst(s, p);
    match Find(s, p)
    case None =>
    case Some(k) =>
      var rest := s[k + |p|..];
      JoinSplit(rest, p);
      assert Split(s, p)[1..] == Split(rest, p);
      assert s == s[..k] + p + rest;
  }

  /** No part of a split contains the separator. */
  lemma {:induction false} SplitParts<T>(s: seq<T>, p: seq<T>, i: nat)
    requires |p| > 0 && i < |Split(s, p)|
    ensures forall j: nat :: !OccursAt(Split(s, p)[i], p, j)
    decreases |s|
  {
    FindIsFirst(s, p);
    match Find(s, p)
    case None =>
    case Some(k) =>
      var rest := s[k + |p|..];
      if i == 0 {
        forall j: nat ensures !OccursAt(s[..k], p, j) {
          if j + |p| <= k {
            assert s == s[..k] + s[k..];
            OccursInPrefix(s[..k], s[k..], p, j);
          }
        }
      } else {
        SplitParts(rest, p, i - 1);
      }
  }

  /** `str::lines`: a line loses its `\n` and then one `\r`; an unterminated last line loses nothing. */
  function Lines(s: string): seq<string>
    decreases |s|
  {
    if s == "" then []
    else
      match Find(s, "\n")
      case None => [s]
      case Some(k) => [DropCr(s[..k])] + Lines(s[k + 1..])
  }

  function DropCr(s: string): string {
    if |s| > 0 && s[|s| - 1] == '\r' then s[..|s| - 1] else s
  }

  function Unlines(lines: seq<string>): string {
    if lines == [] then "" else lines[0] + "\n" + Unlines(lines[1..])
  }

  function DropCrs(lines: seq<string>): (r: seq<string>)
    ensures |r| == |lines|
  {
    if lines == [] then [] else [DropCr(lines[0])] + DropCrs(lines[1..])
  }

  /** What `lines` gives back of a text that was written line by line: each line less one final CR. */
  lemma {:induction false} LinesUnlines(lines: seq<string>)
    requires forall l :: l in lines ==> '\n' !in l
    ensures Lines(Unlines(lines)) == DropCrs(lines)
  {
    if lines != [] {
      var l, rest := lines[0], Unlines(lines[1..]);
      assert l in lines;
      CleanOfChar(l, '\n');
      FindAfterClean(l, "\n", rest);
      var s := l + "\n" + rest;
      FirstLine(s, l, rest);
      LinesUnlines(lines[1..]);
    }
  }

  lemma FirstLine(s: string, l: string, rest: string)
    requires s == l + "\n" + rest && Find(s, "\n") == Some(|l|)
    ensures Lines(s) == [DropCr(l)] + Lines(rest)
  {
    assert s[..|l|] == l && s[|l| + 1..] == rest;
  }

  lemma {:induction false} DropCrsConcat(a: seq<string>, b: seq<string>)
    ensures DropCrs(a + b) == DropCrs(a) + DropCrs(b)
  {
    if a == [] {
      assert a + b == b;
    } else {
      DropCrsConcat(a[1..], b);
      DropExtend(a, b, 1);
    }
  }

  /** Only the end of a line can lose a CR. */
  lemma DropCrBehind(front: string, s: string)
    requires s != "" || front == "" || front[|front| - 1] != '\r'
    ensures DropCr(front + s) == front + DropCr(s)
  {
    if s != "" && s[|s| - 1] == '\r' {
      assert (front + s)[..|front + s| - 1] == front + s[..|s| - 1];
    }
    assert front + "" == front;
  }

  // ---- trimming ----

  /** Unicode `White_Space`, what `char::is_whitespace` and `str::trim` use. */
  predicate IsWhitespace(c: char) {
    var n := c as int;
    9 <= n <= 13 || n == 32 || n == 0x85 || n == 0xA0 || n == 0x1680 || 0x2000 <= n <= 0x200A
    || n == 0x2028 || n == 0x2029 || n == 0x202F || n == 0x205F || n == 0x3000
  }

  function Trim(s: string): string {
    if s == "" then ""
    else if IsWhitespace(s[0]) then Trim(s[1..])
    else if IsWhitespace(s[|s| - 1]) then Trim(s[..|s| - 1])
    else s
  }

  predicate Trimmed(s: string) {
    |s| > 0 ==> !IsWhitespace(s[0]) && !IsWhitespace(s[|s| - 1])
  }

  /** `trim` returns a substring without whitespace at either end; `at` is where it starts. */
  lemma {:induction false} TrimIsSubstring(s: string) returns (at: nat)
    ensures Trimmed(Trim(s)) && OccursAt(s, Trim(s), at)
    decreases |s|
  {
    at := 0;
    if s != "" && IsWhitespace(s[0]) {
      var i := TrimIsSubstring(s[1..]);
      at := i + 1;
    } else if s != "" && IsWhitespace(s[|s| - 1]) {
      at := TrimIsSubstring(s[..|s| - 1]);
    }
  }

  /** Leading whitespace in front of a trimmed text is all that `trim` removes. */
  lemma TrimLeading(c: char, s: string)
    requires IsWhitespace(c) && Trimmed(s)
    ensures Trim(s) == s
    ensures Trim([c] + s) == s
  {
    assert ([c] + s)[1..] == s;
  }

  // ---- decimal numbers ----

  const U64: nat := 0x1_0000_0000_0000_0000

  predicate IsDigit(c: char) {
    '0' <= c <= '9'
  }

  function Digit(d: nat): (c: char)
    requires d < 10
    ensures IsDigit(c) && c as int - '0' as int == d
  {
    (('0' as int) + d) as char
  }

  function DigitOf(c: char): (d: nat)
    requires IsDigit(c)
    ensures d < 10 && Digit(d) == c
  {
    c as int - '0' as int
  }

  function Decimal(n: nat): (s: string)
    ensures |s| > 0 && forall c :: c in s ==> IsDigit(c)
  {
    if n < 10 then [Digit(n)] else Decimal(n / 10) + [Digit(n % 10)]
  }

  function DigitsValue(s: string): nat
    requires forall c :: c in s ==> IsDigit(c)
  {
    if s == "" then 0 else 10 * DigitsValue(s[..|s| - 1]) + DigitOf(s[|s| - 1])
  }

  /** `str::parse::<u64>`: an optional `+`, at least one digit, no overflow. */
  function ParseU64(s: string): (r: Option<nat>)
    ensures r.Some? ==> r.value < U64
  {
    var digits := if |s| > 1 && s[0] == '+' then s[1..] else s;
    if digits == "" || (exists c :: c in digits && !IsDigit(c)) then None
    else
      var n := DigitsValue(digits);
      if n < U64 then Some(n) else None
  }

  lemma {:induction false} DecimalValue(n: nat)
    ensures DigitsValue(Decimal(n)) == n
  {
    if n >= 10 {
      DecimalValue(n / 10);
      assert Decimal(n)[..|Decimal(n)| - 1] == Decimal(n / 10);
    }
  }

  /** The round trip of `u64` through its decimal text. */
  lemma ParseDecimal(n: nat)
    requires n < U64
    ensures ParseU64(Decimal(n)) == Some(n)
  {
    DecimalValue(n);
    assert Decimal(n)[0] in Decimal(n);
  }
}

/** Folding a step that may fail over lines: the shape of a parser's line loop. */
module LineFold {
  import opened Wrappers

  function Fold<S, E>(step: (S, string) -> Result<S, E>, s: S, lines: seq<string>): Result<S, E>
    decreases |lines|
  {
    if lines == [] then Ok(s)
    else
      match step(s, lines[0])
      case Err(e) => Err(e)
      case Ok(s') => Fold(step, s', lines[1..])
  }

  lemma {:induction false} FoldConcat<S, E>(step: (S, string) -> Result<S, E>, s: S, a: seq<string>, b: seq<string>)
    ensures Fold(step, s, a + b) == match Fold(step, s, a) case Err(e) => Err(e) case Ok(s') => Fold(step, s', b)
    decreases |a|
  {
    if a == [] {
      assert a + b == b;
    } else {
      assert (a + b)[0] == a[0] && (a + b)[1..] == a[1..] + b;
      match step(s, a[0])
      case Err(_) =>
      case Ok(s') => FoldConcat(step, s', a[1..], b);
    }
  }

  lemma FoldOne<S, E>(step: (S, string) -> Result<S, E>, s: S, l: string)
    ensures Fold(step, s, [l]) == step(s, l)
  {
  }

  /** The fold one line further, and its result for good if that line fails. */
  lemma FoldNext<S, E>(step: (S, string) -> Result<S, E>, start: S, before: seq<string>, l: string,
                       after: seq<string>, s: S)
    requires Fold(step, start, before) == Ok(s)
    ensures Fold(step, start, before + [l]) == step(s, l)
    ensures step(s, l).Err? ==> Fold(step, start, before + [l] + after) == step(s, l)
  {
    FoldConcat(step, start, before, [l]);
    FoldOne(step, s, l);
    FoldConcat(step, start, before + [l], after);
  }
}

/** Concatenating a list of chunks. */
module Sequences {
  function Flatten<T>(parts: seq<seq<T>>): seq<T> {
    if parts == [] then [] else parts[0] + Flatten(parts[1..])
  }

  lemma {:induction false} FlattenAppend<T>(a: seq<seq<T>>, b: seq<seq<T>>)
    ensures Flatten(a + b) == Flatten(a) + Flatten(b)
  {
    if a == [] {
      assert a + b == b;
    } else {
      assert (a + b)[1..] == a[1..] + b;
      FlattenAppend(a[1..], b);
    }
  }

  lemma SplitLast<T>(s: seq<T>) returns (front: seq<T>, last: T)
    requires s != []
    ensures s == front + [last] && |front| == |s| - 1
  {
    front, last := s[..|s| - 1], s[|s| - 1];
  }

  lemma FlattenSnoc<T>(parts: seq<seq<T>>, last: seq<T>)
    ensures Flatten(parts + [last]) == Flatten(parts) + last
  {
    FlattenAppend(parts, [last]);
    assert Flatten([last]) == last + Flatten<T>([]);
  }
}
