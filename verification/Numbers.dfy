/** Which texts the 64-bit number parser of Rust's standard library accepts, and as which number. */
module Numbers {
  import opened Wrappers
  import opened Text

  predicate Zeros(s: string) {
    forall c :: c in s ==> c == '0'
  }

  predicate NumeralWith(s: string, zeros: string, n: nat) {
    Zeros(zeros) && (s == zeros + Decimal(n) || s == "+" + (zeros + Decimal(n)))
  }

  /** A numeral of `n`: perhaps a plus sign, perhaps zeros, and its digits. */
  ghost predicate NumeralOf(s: string, n: nat) {
    exists zeros :: NumeralWith(s, zeros, n)
  }

  lemma {:induction false} DigitsAre(digits: string) returns (zeros: string)
    requires digits != "" && forall c :: c in digits ==> IsDigit(c)
    ensures Zeros(zeros) && digits == zeros + Decimal(DigitsValue(digits))
    decreases |digits|
  {
    var front, last := digits[..|digits| - 1], digits[|digits| - 1];
    LastDigit(digits, front, last);
    if front == "" {
      zeros := "";
      OneMoreDigit("", 0, last);
    } else {
      zeros := DigitsAre(front);
      OneMoreDigit(zeros, DigitsValue(front), last);
      if DigitsValue(front) == 0 {
        zeros := front;
      }
    }
  }

  lemma LastDigit(digits: string, front: string, last: char)
    requires digits != "" && front == digits[..|digits| - 1] && last == digits[|digits| - 1]
    requires forall c :: c in digits ==> IsDigit(c)
    ensures IsDigit(last) && (forall c :: c in front ==> IsDigit(c)) && digits == front + [last]
    ensures DigitsValue(digits) == 10 * DigitsValue(front) + DigitOf(last)
  {
    assert last in digits && forall c :: c in front ==> c in digits;
  }

  lemma OneMoreDigit(zeros: string, m: nat, last: char)
    requires Zeros(zeros) && IsDigit(last)
    ensures m > 0 ==> (zeros + Decimal(m)) + [last] == zeros + Decimal(10 * m + DigitOf(last))
    ensures m == 0 ==> Zeros(zeros + Decimal(m)) && Decimal(DigitOf(last)) == [last]
  {
  }

  lemma {:induction false} ZerosInFront(zeros: string, digits: string)
    requires Zeros(zeros) && forall c :: c in digits ==> IsDigit(c)
    ensures forall c :: c in zeros + digits ==> IsDigit(c)
    ensures DigitsValue(zeros + digits) == DigitsValue(digits)
    decreases |digits|, |zeros|
  {
    var s := zeros + digits;
    if digits != "" {
      var front := digits[..|digits| - 1];
      LastDigit(digits, front, digits[|digits| - 1]);
      assert s[..|s| - 1] == zeros + front;
      ZerosInFront(zeros, front);
    } else if zeros != "" {
      var front := zeros[..|zeros| - 1];
      assert forall c :: c in front ==> c in zeros;
      assert zeros[|zeros| - 1] in zeros && s == front + ['0'] && s[..|s| - 1] == front + "";
      ZerosInFront(front, "");
    }
  }

  lemma NumeralParses(s: string, n: nat)
    requires n < U64 && NumeralOf(s, n)
    ensures ParseU64(s) == Some(n)
  {
    var zeros :| NumeralWith(s, zeros, n);
    ZerosInFront(zeros, Decimal(n));
    DecimalValue(n);
    DigitsParse(s, zeros + Decimal(n), n);
  }

  lemma DigitsParse(s: string, digits: string, n: nat)
    requires digits != "" && (forall c :: c in digits ==> IsDigit(c)) && DigitsValue(digits) == n < U64
    requires s == digits || s == "+" + digits
    ensures ParseU64(s) == Some(n)
  {
    assert digits[0] in digits;
    assert s != digits ==> s[0] == '+' && s[1..] == digits;
  }

  lemma ParsedIsNumeral(s: string)
    requires ParseU64(s).Some?
    ensures NumeralOf(s, ParseU64(s).value)
  {
    var digits := if |s| > 1 && s[0] == '+' then s[1..] else s;
    var zeros := DigitsAre(digits);
    if |s| > 1 && s[0] == '+' {
      assert s == "+" + digits;
    }
    assert NumeralWith(s, zeros, ParseU64(s).value);
  }

  /** Exactly which texts are read as a number of 64 bits, and as which. */
  lemma NumberExact(s: string, n: nat)
    ensures ParseU64(s) == Some(n) <==> n < 0x1_0000_0000_0000_0000 && NumeralOf(s, n)
  {
    if ParseU64(s) == Some(n) {
      ParsedIsNumeral(s);
    }
    if n < U64 && NumeralOf(s, n) {
      NumeralParses(s, n);
    }
  }
}
