/** UTF-8 as Rust's `String` and `from_utf8*` use it (RFC 3629): strict decoding,
    lossy decoding, and the facts that tie both to encoding. */
module Utf8 {
  import opened Wrappers

  type byte = b: int | 0 <= b < 256

  function EncodeChar(c: char): (r: seq<byte>)
    ensures 1 <= |r| <= 4
  {
    var n := c as int;
    var n1 := n / 0x40;
    var n2 := n1 / 0x40;
    if n < 0x80 then [n]
    else if n < 0x800 then [0xC0 + n1, 0x80 + n % 0x40]
    else if n < 0x10000 then [0xE0 + n2, 0x80 + n1 % 0x40, 0x80 + n % 0x40]
    else [0xF0 + n2 / 0x40, 0x80 + n2 % 0x40, 0x80 + n1 % 0x40, 0x80 + n % 0x40]
  }

  function Encode(s: string): seq<byte> {
    if s == "" then [] else EncodeChar(s[0]) + Encode(s[1..])
  }

  /** One decoding step: a scalar value and its width, or an ill-formed run
      (the maximal subpart that one U+FFFD replaces). */
  datatype Step = Scalar(c: char, width: nat) | IllFormed(width: nat)

  predicate Cont(b: byte) {
    0x80 <= b < 0xC0
  }

  /** The allowed second byte after lead `b` (Table 3-7 of the Unicode standard). */
  predicate SecondOk(b: byte, x: byte)
  {
    && Cont(x)
    && (b == 0xE0 ==> 0xA0 <= x)
    && (b == 0xED ==> x < 0xA0)
    && (b == 0xF0 ==> 0x90 <= x)
    && (b == 0xF4 ==> x < 0x90)
  }

  function DecodeStep(b: seq<byte>): (r: Step)
    requires |b| > 0
    ensures 1 <= r.width <= 4 && r.width <= |b|
    ensures r.Scalar? ==> b[..r.width] == EncodeChar(r.c)
  {
    var b0: int := b[0];
    if b0 < 0x80 then Scalar(b0 as char, 1)
    else if b0 < 0xC2 || 0xF4 < b0 then IllFormed(1)
    else if |b| < 2 || !SecondOk(b0, b[1]) then IllFormed(1)
    else if b0 < 0xE0 then
      Scalar(Bits(b0 - 0xC0, b[1]) as char, 2)
    else if |b| < 3 || !Cont(b[2]) then IllFormed(2)
    else if b0 < 0xF0 then
      Scalar(Bits(Bits(b0 - 0xE0, b[1]), b[2]) as char, 3)
    else if |b| < 4 || !Cont(b[3]) then IllFormed(3)
    else
      Scalar(Bits(Bits(Bits(b0 - 0xF0, b[1]), b[2]), b[3]) as char, 4)
  }

  /** Appends the six payload bits of a continuation byte. */
  function Bits(high: int, x: byte): (n: int)
    requires Cont(x)
    ensures n / 0x40 == high && n % 0x40 == x - 0x80
  {
    high * 0x40 + (x as int - 0x80)
  }

  /** `str::from_utf8`. */
  function Decode(b: seq<byte>): Option<string>
    decreases |b|
  {
    if b == [] then Some("")
    else
      match DecodeStep(b)
      case IllFormed(_) => None
      case Scalar(c, w) =>
        match Decode(b[w..])
        case None => None
        case Some(s) => Some([c] + s)
  }

  const REPLACEMENT: char := '\U{FFFD}'

  /** `String::from_utf8_lossy`. */
  function Lossy(b: seq<byte>): string
    decreases |b|
  {
    if b == [] then ""
    else
      match DecodeStep(b)
      case IllFormed(w) => [REPLACEMENT] + Lossy(b[w..])
      case Scalar(c, w) => [c] + Lossy(b[w..])
  }

  lemma StepOfEncoded(c: char, rest: seq<byte>)
    ensures DecodeStep(EncodeChar(c) + rest) == Scalar(c, |EncodeChar(c)|)
  {
    var n := c as int;
    var e := EncodeChar(c);
    var b := e + rest;
    assert forall i :: 0 <= i < |e| ==> b[i] == e[i];
  }

  lemma {:induction false} DecodeEncode(s: string)
    ensures Decode(Encode(s)) == Some(s)
    ensures Lossy(Encode(s)) == s
  {
    if s != "" {
      StepOfEncoded(s[0], Encode(s[1..]));
      assert Encode(s)[|EncodeChar(s[0])|..] == Encode(s[1..]);
      DecodeEncode(s[1..]);
      assert s == [s[0]] + s[1..];
    }
  }

  lemma {:induction false} EncodeConcat(s: string, t: string)
    ensures Encode(s + t) == Encode(s) + Encode(t)
  {
    if s == "" {
      assert s + t == t;
    } else {
      EncodeConcat(s[1..], t);
      assert (s + t)[1..] == s[1..] + t;
    }
  }

  predicate Ascii(s: string) {
    forall i :: 0 <= i < |s| ==> s[i] as int < 0x80
  }

  lemma {:induction false} EncodeAscii(s: string)
    requires Ascii(s)
    ensures |Encode(s)| == |s| && forall i :: 0 <= i < |s| ==> Encode(s)[i] == s[i] as int
  {
    if s != "" {
      EncodeAscii(s[1..]);
    }
  }
}

/** Searching encoded text for an ASCII pattern is searching the text. */
module Utf8Search {
  import opened Text
  import opened Utf8

  lemma {:induction false} AsciiPrefix(t: string, p: string)
    requires Ascii(p) && Encode(p) <= Encode(t)
    ensures p <= t
    decreases |p|
  {
    if p != "" {
      EncodeAscii(p);
      assert Encode(p)[0] == p[0] as int;
      assert t != "";
      assert Encode(t)[0] == EncodeChar(t[0])[0];
      assert t[0] == p[0];
      assert Encode(p)[1..] == Encode(p[1..]) && Encode(t)[1..] == Encode(t[1..]);
      AsciiPrefix(t[1..], p[1..]);
    }
  }

  /** An occurrence cannot start inside the first character's bytes, past its lead byte. */
  lemma NotInsideChar(c: char, rest: seq<byte>, p: string, j: nat)
    requires p != "" && Ascii(p) && OccursAt(EncodeChar(c) + rest, Encode(p), j) && 0 < j
    ensures |EncodeChar(c)| <= j
  {
    EncodeAscii(p);
    var e := EncodeChar(c) + rest;
    assert e[j..j + |p|][0] == e[j] == p[0] as int;
  }

  lemma {:induction false} OccursEncoded(t: string, p: string, j: nat) returns (i: nat)
    requires p != "" && Ascii(p) && OccursAt(Encode(t), Encode(p), j)
    ensures i <= |t| && |Encode(t[..i])| == j && OccursAt(t, p, i)
    decreases |t|
  {
    EncodeAscii(p);
    if j == 0 {
      i := 0;
      assert Encode(t)[0..|p|] == Encode(t)[..|p|];
      AsciiPrefix(t, p);
    } else {
      var first, rest := EncodeChar(t[0]), t[1..];
      NotInsideChar(t[0], Encode(rest), p, j);
      OccursInSuffix(first, Encode(rest), Encode(p), j - |first|);
      var k := OccursEncoded(rest, p, j - |first|);
      i := k + 1;
      BehindFirst(t, p, k);
    }
  }

  lemma BehindFirst(t: string, p: string, k: nat)
    requires t != "" && OccursAt(t[1..], p, k)
    ensures OccursAt(t, p, k + 1) && |Encode(t[..k + 1])| == |EncodeChar(t[0])| + |Encode(t[1..][..k])|
  {
    assert t[..k + 1][0] == t[0] && t[..k + 1][1..] == t[1..][..k];
    assert t[k + 1..k + 1 + |p|] == t[1..][k..k + |p|];
  }

  lemma EarlyOccurrence(a: string, p: string, j: nat)
    requires p != "" && Ascii(p) && j < |Encode(a)| && OccursAt(Encode(a) + Encode(p), Encode(p), j)
    ensures !Clean(a, p)
  {
    EncodeConcat(a, p);
    var i := OccursEncoded(a + p, p, j);
    assert (a + p)[..|a|] == a;
  }

  /** A separator that is unambiguous in a text is unambiguous in its encoding. */
  lemma CleanEncoded(a: string, p: string)
    requires p != "" && Ascii(p) && Clean(a, p)
    ensures Clean(Encode(a), Encode(p))
  {
    forall j | 0 <= j < |Encode(a)| && OccursAt(Encode(a) + Encode(p), Encode(p), j) ensures false {
      EarlyOccurrence(a, p, j);
    }
  }
}
