/** When cutting a terminal stream into reads changes what the scanner sees of it: only a cut inside an
    escape sequence or inside a character does, and each such cut does. */
module AuthCuts {
  import opened Text
  import opened Utf8
  import opened AuthDetect

  // ---- cuts inside escape sequences ----

  predicate CsiDone(s: string, i: nat)
    requires i <= |s|
    decreases |s| - i
  {
    i < |s| && ('\U{40}' <= s[i] <= '\U{7e}' || CsiDone(s, i + 1))
  }

  predicate OscDone(s: string, i: nat)
    requires i <= |s|
    decreases |s| - i
  {
    i < |s| && (s[i] == BEL || (s[i] == ESC && i + 1 < |s| && s[i + 1] == '\\') || OscDone(s, i + 1))
  }

  /** The escape sequence whose ESC is at `i - 1` is complete. */
  predicate EscapeDone(s: string, i: nat)
    requires i <= |s|
  {
    i < |s| && (s[i] == '[' ==> CsiDone(s, i + 1)) && (s[i] == ']' ==> OscDone(s, i + 1))
  }

  /** The text ends in the middle of an escape sequence. */
  predicate EndsInEscape(s: string, i: nat)
    requires i <= |s|
    decreases |s| - i
  {
    if i == |s| then false
    else if s[i] == ESC then !EscapeDone(s, i + 1) || EndsInEscape(s, EscapeEnd(s, i + 1))
    else EndsInEscape(s, i + 1)
  }

  lemma {:induction false} CsiEndExtend(s: string, x: string, i: nat)
    requires i <= |s| && CsiDone(s, i)
    ensures CsiEnd(s + x, i) == CsiEnd(s, i)
    decreases |s| - i
  {
    assert (s + x)[i] == s[i];
    if !('\U{40}' <= s[i] <= '\U{7e}') {
      CsiEndExtend(s, x, i + 1);
    }
  }

  lemma {:induction false} OscEndExtend(s: string, x: string, i: nat)
    requires i <= |s| && OscDone(s, i)
    ensures OscEnd(s + x, i) == OscEnd(s, i)
    decreases |s| - i
  {
    assert (s + x)[i] == s[i];
    if i + 1 < |s| { assert (s + x)[i + 1] == s[i + 1]; }
    if !(s[i] == BEL || (s[i] == ESC && i + 1 < |s| && s[i + 1] == '\\')) {
      OscEndExtend(s, x, i + 1);
    }
  }

  lemma EscapeEndExtend(s: string, x: string, i: nat)
    requires i <= |s| && EscapeDone(s, i)
    ensures EscapeEnd(s + x, i) == EscapeEnd(s, i)
  {
    assert (s + x)[i] == s[i];
    if s[i] == '[' {
      CsiEndExtend(s, x, i + 1);
    } else if s[i] == ']' {
      OscEndExtend(s, x, i + 1);
    }
  }

  lemma {:induction false} CsiEndShift(x: string, s: string, i: nat)
    requires i <= |s|
    ensures CsiEnd(x + s, |x| + i) == |x| + CsiEnd(s, i)
    decreases |s| - i
  {
    if i < |s| {
      assert (x + s)[|x| + i] == s[i];
      CsiEndShift(x, s, i + 1);
    }
  }

  lemma {:induction false} OscEndShift(x: string, s: string, i: nat)
    requires i <= |s|
    ensures OscEnd(x + s, |x| + i) == |x| + OscEnd(s, i)
    decreases |s| - i
  {
    if i < |s| {
      assert (x + s)[|x| + i] == s[i];
      if i + 1 < |s| { assert (x + s)[|x| + i + 1] == s[i + 1]; }
      OscEndShift(x, s, i + 1);
    }
  }

  lemma EscapeEndShift(x: string, s: string, i: nat)
    requires i <= |s|
    ensures EscapeEnd(x + s, |x| + i) == |x| + EscapeEnd(s, i)
  {
    if i < |s| {
      assert (x + s)[|x| + i] == s[i];
      CsiEndShift(x, s, i + 1);
      OscEndShift(x, s, i + 1);
    }
  }

  lemma {:induction false} StripShift(x: string, s: string, i: nat)
    requires i <= |s|
    ensures StripFrom(x + s, |x| + i) == StripFrom(s, i)
    decreases |s| - i
  {
    if i < |s| {
      assert (x + s)[|x| + i] == s[i];
      if s[i] == ESC {
        EscapeEndShift(x, s, i + 1);
        StripShift(x, s, EscapeEnd(s, i + 1));
      } else {
        StripShift(x, s, i + 1);
      }
    }
  }

  /** Stripping two texts separately is stripping them together, unless the first ends inside an escape. */
  lemma {:induction false} StripConcat(a: string, b: string, i: nat)
    requires i <= |a| && !EndsInEscape(a, i)
    ensures StripFrom(a + b, i) == StripFrom(a, i) + StripFrom(b, 0)
    decreases |a| - i
  {
    if i == |a| {
      StripShift(a, b, 0);
    } else {
      assert (a + b)[i] == a[i];
      if a[i] == ESC {
        EscapeEndExtend(a, b, i + 1);
        StripConcat(a, b, EscapeEnd(a, i + 1));
      } else {
        StripConcat(a, b, i + 1);
        if a[i] != '\r' {
          Reassociate([a[i]], StripFrom(a, i + 1), StripFrom(b, 0));
        }
      }
    }
  }

  /** A BEL behind an unfinished CSI sequence belongs to it. */
  lemma {:induction false} CsiOpen(s: string, i: nat)
    requires i <= |s| && !CsiDone(s, i)
    ensures CsiEnd(s, i) == |s| && CsiEnd(s + [BEL], i) == |s| + 1
    decreases |s| - i
  {
    if i < |s| {
      assert (s + [BEL])[i] == s[i];
      CsiOpen(s, i + 1);
    }
  }

  /** A BEL behind an unfinished OSC sequence ends it. */
  lemma {:induction false} OscOpen(s: string, i: nat)
    requires i <= |s| && !OscDone(s, i)
    ensures OscEnd(s, i) == |s| && OscEnd(s + [BEL], i) == |s| + 1
    decreases |s| - i
  {
    if i < |s| {
      assert (s + [BEL])[i] == s[i];
      if i + 1 < |s| { assert (s + [BEL])[i + 1] == s[i + 1]; }
      OscOpen(s, i + 1);
    }
  }

  lemma EscapeOpen(s: string, i: nat)
    requires i <= |s| && !EscapeDone(s, i)
    ensures EscapeEnd(s, i) == |s| && EscapeEnd(s + [BEL], i) == |s| + 1
  {
    if i < |s| {
      assert (s + [BEL])[i] == s[i];
      if s[i] == '[' {
        CsiOpen(s, i + 1);
      } else {
        OscOpen(s, i + 1);
      }
    }
  }

  /** Any unfinished escape sequence swallows a BEL. */
  lemma {:induction false} BelSwallowed(a: string, i: nat)
    requires i <= |a| && EndsInEscape(a, i)
    ensures StripFrom(a + [BEL], i) == StripFrom(a, i)
    decreases |a| - i
  {
    assert (a + [BEL])[i] == a[i];
    if a[i] != ESC {
      BelSwallowed(a, i + 1);
    } else if EscapeDone(a, i + 1) {
      EscapeEndExtend(a, [BEL], i + 1);
      BelSwallowed(a, EscapeEnd(a, i + 1));
    } else {
      EscapeOpen(a, i + 1);
    }
  }

  lemma StripBel()
    ensures StripFrom([BEL], 0) == [BEL]
  {
    assert StripFrom([BEL], 1) == "";
  }

  /** Exactly when a text can be stripped apart from whatever follows it. */
  lemma StripExact(a: string)
    ensures (forall b: string :: StripFrom(a + b, 0) == StripFrom(a, 0) + StripFrom(b, 0)) <==> !EndsInEscape(a, 0)
  {
    if EndsInEscape(a, 0) {
      BelSwallowed(a, 0);
      StripBel();
      assert |StripFrom(a, 0) + StripFrom([BEL], 0)| == |StripFrom(a, 0)| + 1;
    } else {
      forall b: string ensures StripFrom(a + b, 0) == StripFrom(a, 0) + StripFrom(b, 0) {
        StripConcat(a, b, 0);
      }
    }
  }

  // ---- what the stripping leaves out ----

  /** Anything but an escape is shown as it is, and a CR is not shown. */
  lemma CharacterShows(c: char, rest: string)
    requires c as int != 0x1B
    ensures StripFrom([c] + rest, 0) == (if c as int == 0x0D then "" else [c]) + StripFrom(rest, 0)
  {
    StripShift([c], rest, 0);
  }

  lemma {:induction false} CsiEndsAt(s: string, params: string, i: nat, k: nat)
    requires i <= k < |s| && s[i..k] == params && 0x40 <= s[k] as int <= 0x7E
    requires forall c :: c in params ==> !(0x40 <= c as int <= 0x7E)
    ensures CsiEnd(s, i) == k + 1
    decreases k - i
  {
    if i < k {
      assert s[i] == params[0] && params[0] in params;
      assert s[i + 1..k] == params[1..] && forall c :: c in params[1..] ==> c in params;
      CsiEndsAt(s, params[1..], i + 1, k);
    }
  }

  lemma {:induction false} OscEndsAt(s: string, body: string, i: nat, k: nat)
    requires i <= k < |s| && s[i..k] == body
    requires s[k] as int == 0x07 || (s[k] as int == 0x1B && k + 1 < |s| && s[k + 1] == '\\')
    requires forall c :: c in body ==> c as int != 0x07 && c as int != 0x1B
    ensures OscEnd(s, i) == if s[k] as int == 0x07 then k + 1 else k + 2
    decreases k - i
  {
    if i < k {
      assert s[i] == body[0] && body[0] in body;
      assert s[i + 1..k] == body[1..] && forall c :: c in body[1..] ==> c in body;
      OscEndsAt(s, body[1..], i + 1, k);
    }
  }

  /** A CSI sequence (`ESC [`, parameters, a final byte from `@` to `~`) shows nothing. */
  lemma CsiShowsNothing(params: string, final: char, rest: string)
    requires (forall c :: c in params ==> !(0x40 <= c as int <= 0x7E)) && 0x40 <= final as int <= 0x7E
    ensures StripFrom(['\U{1b}', '['] + params + [final] + rest, 0) == StripFrom(rest, 0)
  {
    var front := ['\U{1b}', '['] + params + [final];
    var s := front + rest;
    assert s[2..2 + |params|] == params;
    CsiEndsAt(s, params, 2, 2 + |params|);
    StripShift(front, rest, 0);
  }

  /** An OSC sequence (`ESC ]` up to a BEL or `ESC \`) shows nothing. */
  lemma OscShowsNothing(body: string, bell: bool, rest: string)
    requires forall c :: c in body ==> c as int != 0x07 && c as int != 0x1B
    ensures var end := if bell then ['\U{7}'] else ['\U{1b}', '\\'];
            StripFrom(['\U{1b}', ']'] + body + end + rest, 0) == StripFrom(rest, 0)
  {
    var front := ['\U{1b}', ']'] + body + if bell then ['\U{7}'] else ['\U{1b}', '\\'];
    var s := front + rest;
    assert s[2..2 + |body|] == body;
    OscEndsAt(s, body, 2, 2 + |body|);
    StripShift(front, rest, 0);
  }

  /** Any other escape takes one more character with it. */
  lemma ShortEscapeShowsNothing(c: char, rest: string)
    requires c != '[' && c != ']'
    ensures StripFrom(['\U{1b}', c] + rest, 0) == StripFrom(rest, 0)
  {
    StripShift(['\U{1b}', c], rest, 0);
  }

  // ---- cuts inside characters ----

  /** The front of one character, which later bytes may still complete. */
  predicate Unfinished(b: seq<byte>)
    requires b != []
  {
    DecodeStep(b) == IllFormed(|b|) && 0xC2 <= b[0] <= 0xF4
  }

  /** The bytes end inside a character. */
  predicate CutChar(b: seq<byte>)
    decreases |b|
  {
    b != [] && (Unfinished(b) || CutChar(b[DecodeStep(b).width..]))
  }

  /** Any other decoding step needs no later bytes. */
  lemma StepExtend(a: seq<byte>, b: seq<byte>)
    requires a != [] && !Unfinished(a)
    ensures DecodeStep(a + b) == DecodeStep(a)
  {
    var c := a + b;
    assert c[0] == a[0];
    assert |a| > 1 ==> c[1] == a[1];
    assert |a| > 2 ==> c[2] == a[2];
    assert |a| > 3 ==> c[3] == a[3];
  }

  lemma LossyCons(b: seq<byte>, w: nat, c: char)
    requires b != [] && DecodeStep(b).width == w && c == StepChar(DecodeStep(b))
    ensures Lossy(b) == [c] + Lossy(b[w..])
  {
  }

  function StepChar(step: Step): char {
    if step.Scalar? then step.c else REPLACEMENT
  }

  lemma {:induction false} LossyConcat(a: seq<byte>, b: seq<byte>)
    requires !CutChar(a)
    ensures Lossy(a + b) == Lossy(a) + Lossy(b)
    decreases |a|
  {
    if a == [] {
      assert a + b == b;
    } else {
      var w, c := DecodeStep(a).width, StepChar(DecodeStep(a));
      StepExtend(a, b);
      DropExtend(a, b, w);
      LossyConcat(a[w..], b);
      LossyCons(a, w, c);
      LossyCons(a + b, w, c);
      Reassociate([c], Lossy(a[w..]), Lossy(b));
    }
  }

  lemma {:induction false} EncodedIsWhole(s: string)
    ensures !CutChar(Encode(s))
  {
    if s != "" {
      StepOfEncoded(s[0], Encode(s[1..]));
      assert Encode(s)[|EncodeChar(s[0])|..] == Encode(s[1..]);
      EncodedIsWhole(s[1..]);
    }
  }

  /** A byte that starts no character, in the middle of a text, shows as one replacement character. */
  lemma StrayByteShows(s: string, stray: byte, t: string)
    requires 0x80 <= stray < 0xC2 || 0xF4 < stray
    ensures Lossy(Encode(s) + ([stray] + Encode(t))) == s + ['\U{FFFD}'] + t
  {
    EncodedIsWhole(s);
    LossyConcat(Encode(s), [stray] + Encode(t));
    assert [stray][1..] == [];
    LossyConcat([stray], Encode(t));
    LossyOne([stray]);
    DecodeEncode(s);
    DecodeEncode(t);
    Reassociate(s, ['\U{FFFD}'], t);
  }

  /** A byte that goes on with the cut character `t`. */
  function NextByte(t: seq<byte>): (x: byte)
    ensures Cont(x)
  {
    if t == [0xE0] then 0xA0 else if t == [0xF0] then 0x90 else 0x80
  }

  lemma StepGoesOn(t: seq<byte>)
    requires t != [] && Unfinished(t)
    ensures DecodeStep(t + [NextByte(t)]).width == |t| + 1
  {
    assert forall i :: 0 <= i < |t| ==> (t + [NextByte(t)])[i] == t[i];
    assert (t + [NextByte(t)])[|t|] == NextByte(t);
  }

  predicate Wide(c: char) {
    c as int >= 0x80
  }

  /** The cut character shows as one replacement character, and so does, or as one other character, the
      same with one more byte. */
  lemma {:induction false} OneMoreByte(a: seq<byte>) returns (p: string, c: char, x: byte)
    requires CutChar(a)
    ensures Cont(x) && Wide(c) && Lossy(a) == p + [REPLACEMENT] && Lossy(a + [x]) == p + [c]
    decreases |a|
  {
    if Unfinished(a) {
      x := NextByte(a);
      StepGoesOn(a);
      p, c := "", StepChar(DecodeStep(a + [x]));
      LossyOne(a);
      LossyOne(a + [x]);
      WideStep(a + [x]);
    } else {
      var w, d := DecodeStep(a).width, StepChar(DecodeStep(a));
      var q;
      q, c, x := OneMoreByte(a[w..]);
      StepExtend(a, [x]);
      DropExtend(a, [x], w);
      LossyCons(a, w, d);
      LossyCons(a + [x], w, d);
      p := [d] + q;
      Reassociate([d], q, [REPLACEMENT]);
      Reassociate([d], q, [c]);
    }
  }

  lemma WideStep(b: seq<byte>)
    requires |b| > 1 && DecodeStep(b).width == |b|
    ensures Wide(StepChar(DecodeStep(b)))
  {
    var step := DecodeStep(b);
    if step.Scalar? {
      assert |EncodeChar(step.c)| > 1;
    }
  }

  lemma LossyOne(b: seq<byte>)
    requires b != [] && DecodeStep(b).width == |b|
    ensures Lossy(b) == [StepChar(DecodeStep(b))]
  {
    assert b[|b|..] == [];
  }

  // ---- which cuts are clean ----

  /** What a terminal stream shows: decoded, without escapes and CRs. */
  function Shown(stream: seq<byte>): string {
    StripFrom(Lossy(stream), 0)
  }

  /** The stream so far ends outside characters and outside escape sequences. Bytes that are no UTF-8 at
      all are no obstacle. */
  predicate CleanCut(stream: seq<byte>) {
    !CutChar(stream) && !EndsInEscape(Lossy(stream), 0)
  }

  lemma ShownConcat(a: seq<byte>, b: seq<byte>)
    requires CleanCut(a)
    ensures Shown(a + b) == Shown(a) + Shown(b)
  {
    LossyConcat(a, b);
    StripConcat(Lossy(a), Lossy(b), 0);
  }

  lemma {:induction false} CsiEndLast(p: string, c: char, d: char, i: nat)
    requires Wide(c) && Wide(d) && i <= |p| + 1
    ensures CsiEnd(p + [c], i) == CsiEnd(p + [d], i)
    decreases |p| + 1 - i
  {
    if i <= |p| {
      assert i < |p| ==> (p + [c])[i] == p[i] && (p + [d])[i] == p[i];
      CsiEndLast(p, c, d, i + 1);
    }
  }

  lemma {:induction false} OscEndLast(p: string, c: char, d: char, i: nat)
    requires Wide(c) && Wide(d) && i <= |p| + 1
    ensures OscEnd(p + [c], i) == OscEnd(p + [d], i)
    decreases |p| + 1 - i
  {
    if i <= |p| {
      assert i < |p| ==> (p + [c])[i] == p[i] && (p + [d])[i] == p[i];
      assert i + 1 < |p| ==> (p + [c])[i + 1] == p[i + 1] && (p + [d])[i + 1] == p[i + 1];
      OscEndLast(p, c, d, i + 1);
    }
  }

  /** Characters beyond ASCII are all alike to the stripping. */
  lemma {:induction false} LastIsShown(p: string, c: char, d: char, i: nat)
    requires Wide(c) && Wide(d) && i <= |p| + 1
    ensures |StripFrom(p + [c], i)| == |StripFrom(p + [d], i)|
    decreases |p| + 1 - i
  {
    if i <= |p| {
      assert i < |p| ==> (p + [c])[i] == p[i] && (p + [d])[i] == p[i];
      if i < |p| && p[i] == ESC {
        assert i + 1 < |p| ==> (p + [c])[i + 1] == p[i + 1] && (p + [d])[i + 1] == p[i + 1];
        if i + 2 <= |p| + 1 {
          CsiEndLast(p, c, d, i + 2);
          OscEndLast(p, c, d, i + 2);
        }
        assert EscapeEnd(p + [c], i + 1) == EscapeEnd(p + [d], i + 1);
        LastIsShown(p, c, d, EscapeEnd(p + [c], i + 1));
      } else {
        LastIsShown(p, c, d, i + 1);
      }
    }
  }

  /** A continuation byte alone shows as one replacement character. */
  lemma ContShows(x: byte)
    requires Cont(x)
    ensures Shown([x]) == [REPLACEMENT]
  {
    LossyOne([x]);
    assert StripFrom([REPLACEMENT], 1) == "";
  }

  lemma BelShows()
    ensures Shown([0x07]) == [BEL] && Lossy([0x07]) == [BEL]
  {
    LossyOne([0x07]);
    StripBel();
  }

  /** Exactly which cuts are harmless whatever the stream goes on with. */
  lemma CleanCutExact(a: seq<byte>)
    ensures (forall b: seq<byte> :: Shown(a + b) == Shown(a) + Shown(b)) <==> CleanCut(a)
  {
    if CleanCut(a) {
      forall b: seq<byte> ensures Shown(a + b) == Shown(a) + Shown(b) {
        ShownConcat(a, b);
      }
    } else if CutChar(a) {
      var p, c, x := OneMoreByte(a);
      LastIsShown(p, c, REPLACEMENT, 0);
      ContShows(x);
      assert |Shown(a + [x])| < |Shown(a) + Shown([x])|;
    } else {
      LossyConcat(a, [0x07]);
      BelSwallowed(Lossy(a), 0);
      BelShows();
      assert |Shown(a + [0x07])| < |Shown(a) + Shown([0x07])|;
    }
  }
}
