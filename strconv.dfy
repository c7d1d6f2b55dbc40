/**
 * The part of Go's `strconv` the handlers rely on: `Atoi` on a 64-bit
 * platform.  It is modelled by the general path of `ParseInt(s, 10, 0)`
 * (sign, then a left-to-right digit loop that stops at the first non-digit
 * or at overflow of an unsigned 64-bit accumulator, then a signed range
 * check) for every length; the library's fast path for short inputs gives
 * the same value and error kind.  The model is proved equal to a grammar:
 * an optional `+`/`-` followed by one or more ASCII decimal digits, whose
 * value fits in int64.
 */
module Strconv {
  import opened Wrappers

  const MaxInt64: int := 0x7FFF_FFFF_FFFF_FFFF
  const MinInt64: int := -0x8000_0000_0000_0000
  const MaxUint64: int := 0xFFFF_FFFF_FFFF_FFFF

  predicate InInt64(n: int) { MinInt64 <= n <= MaxInt64 }

  /** The two kinds of `*NumError` that `Atoi` reports. */
  datatype NumError = ErrSyntax | ErrRange

  predicate IsDigit(c: char) { '0' <= c <= '9' }

  function DigitValue(c: char): (d: nat)
    requires IsDigit(c)
    ensures d < 10
  {
    c as int - '0' as int
  }

  function Pow10(n: nat): (p: nat)
    ensures p >= 1
  {
    if n == 0 then 1 else 10 * Pow10(n - 1)
  }

  // ---------------------------------------------------------------------
  // The reference grammar

  predicate AllDigits(s: string) { forall i :: 0 <= i < |s| ==> IsDigit(s[i]) }

  /** The value of a digit string, read from its last (least significant) digit. */
  function Magnitude(s: string): nat
    requires AllDigits(s)
  {
    if s == [] then 0 else Magnitude(s[..|s| - 1]) * 10 + DigitValue(s[|s| - 1])
  }

  predicate HasSign(s: string) { |s| > 0 && (s[0] == '+' || s[0] == '-') }

  function Unsigned(s: string): string { if HasSign(s) then s[1..] else s }

  /** An optional sign and at least one decimal digit; nothing else. */
  predicate IsDecimal(s: string) { |Unsigned(s)| > 0 && AllDigits(Unsigned(s)) }

  function Denotation(s: string): int
    requires IsDecimal(s)
  {
    var m: int := Magnitude(Unsigned(s));
    if s[0] == '-' then -m else m
  }

  // ---------------------------------------------------------------------
  // The library's computation

  /**
   * `ParseUint`'s loop: `acc` is the value of the digits consumed so far.
   * A non-digit is a syntax error; a step whose value exceeds 2^64 - 1 is a
   * range error, reported at once even when a non-digit follows.
   */
  function ParseUint(s: string, acc: nat): (r: Result<nat, NumError>)
    ensures r.Success? ==> acc <= r.value
    ensures acc <= MaxUint64 && r.Success? ==> r.value <= MaxUint64
  {
    if s == [] then Success(acc)
    else if !IsDigit(s[0]) then Failure(ErrSyntax)
    else if acc * 10 + DigitValue(s[0]) > MaxUint64 then Failure(ErrRange)
    else ParseUint(s[1..], acc * 10 + DigitValue(s[0]))
  }

  /** `strconv.Atoi`: empty input and a lone sign are syntax errors. */
  function Atoi(s: string): (r: Result<int, NumError>)
    ensures r.Success? ==> InInt64(r.value)
  {
    if s == [] then Failure(ErrSyntax)
    else
      var neg := s[0] == '-';
      var digits := if s[0] == '+' || s[0] == '-' then s[1..] else s;
      if digits == [] then Failure(ErrSyntax)
      else match ParseUint(digits, 0)
        case Failure(e) => Failure(e)
        case Success(u) =>
          if !neg && u > MaxInt64 then Failure(ErrRange)
          else if neg && u > -MinInt64 then Failure(ErrRange)
          else
            var v: int := if neg then -(u as int) else u;
            Success(v)
  }

  // ---------------------------------------------------------------------
  // The computation agrees with the grammar

  /** Splitting off the leading digit of a digit string. */
  lemma {:induction false} MagnitudeCons(c: char, t: string)
    requires IsDigit(c) && AllDigits(t)
    ensures AllDigits([c] + t)
    ensures Magnitude([c] + t) == DigitValue(c) * Pow10(|t|) + Magnitude(t)
  {
    var s := [c] + t;
    assert AllDigits(s) by {
      forall i | 0 <= i < |s| ensures IsDigit(s[i]) {
        if i > 0 { assert s[i] == t[i - 1]; }
      }
    }
    if t == [] {
      assert s[..|s| - 1] == [];
    } else {
      var t' := t[..|t| - 1];
      assert s[..|s| - 1] == [c] + t';
      assert s[|s| - 1] == t[|t| - 1];
      MagnitudeCons(c, t');
      calc {
        Magnitude(s);
        Magnitude([c] + t') * 10 + DigitValue(t[|t| - 1]);
        (DigitValue(c) * Pow10(|t'|) + Magnitude(t')) * 10 + DigitValue(t[|t| - 1]);
        DigitValue(c) * (Pow10(|t'|) * 10) + (Magnitude(t') * 10 + DigitValue(t[|t| - 1]));
        DigitValue(c) * Pow10(|t|) + Magnitude(t);
      }
    }
  }

  /** One loop step in closed form: `acc * 10 * p + d * p + m == (acc * 10 + d) * p + m`, which is at least `acc * 10 + d`. */
  lemma ShiftStep(acc: nat, d: nat, p: nat, m: nat)
    requires p >= 1
    ensures acc * (10 * p) + (d * p + m) == (acc * 10 + d) * p + m
    ensures (acc * 10 + d) * p + m >= acc * 10 + d
  {
    var a := acc * 10 + d;
    assert a * p == a * (p - 1) + a;
  }

  /**
   * `ParseUint(s, acc)` succeeds exactly when `s` is all digits and
   * `acc * 10^|s| + Magnitude(s)` fits in 64 unsigned bits, and then yields
   * that value.
   */
  lemma {:induction false} ParseUintCorrect(s: string, acc: nat)
    requires acc <= MaxUint64
    ensures ParseUint(s, acc).Success? ==>
              AllDigits(s) && ParseUint(s, acc).value == acc * Pow10(|s|) + Magnitude(s)
    ensures ParseUint(s, acc).Success? ==> acc * Pow10(|s|) + Magnitude(s) <= MaxUint64
    ensures AllDigits(s) && acc * Pow10(|s|) + Magnitude(s) <= MaxUint64 ==>
              ParseUint(s, acc).Success?
  {
    if s == [] {
    } else if !IsDigit(s[0]) {
    } else {
      var c, t := s[0], s[1..];
      assert s == [c] + t;
      var acc' := acc * 10 + DigitValue(c);
      assert AllDigits(s) ==> AllDigits(t) by {
        if AllDigits(s) {
          forall i | 0 <= i < |t| ensures IsDigit(t[i]) { assert t[i] == s[i + 1]; }
        }
      }
      if AllDigits(t) {
        MagnitudeCons(c, t);
        ShiftStep(acc, DigitValue(c), Pow10(|t|), Magnitude(t));
      }
      if acc' <= MaxUint64 {
        ParseUintCorrect(t, acc');
      }
    }
  }

  /** `Atoi` accepts exactly the decimal strings whose value fits in int64, and returns that value. */
  lemma AtoiCorrect(s: string)
    ensures Atoi(s).Success? <==> IsDecimal(s) && InInt64(Denotation(s))
    ensures Atoi(s).Success? ==> Atoi(s).value == Denotation(s)
  {
    if s != [] {
      var digits := if s[0] == '+' || s[0] == '-' then s[1..] else s;
      assert digits == Unsigned(s);
      if digits != [] {
        ParseUintCorrect(digits, 0);
      }
    }
  }

  /** A string that is all digits never draws a syntax error. */
  lemma DigitsNeverSyntaxError(s: string)
    requires |s| > 0 && AllDigits(s)
    ensures Atoi(s) != Failure(ErrSyntax)
  {
    assert !HasSign(s) by { assert IsDigit(s[0]); }
    AtoiCorrect(s);
    if !InInt64(Magnitude(s)) {
      ParseUintRangeError(s, 0);
    }
  }

  /** A digit string whose value is beyond 64 unsigned bits ends in a range error. */
  lemma {:induction false} ParseUintRangeError(s: string, acc: nat)
    requires AllDigits(s) && acc <= MaxUint64
    ensures ParseUint(s, acc).Failure? ==> ParseUint(s, acc).error == ErrRange
  {
    if s != [] && acc * 10 + DigitValue(s[0]) <= MaxUint64 {
      var t := s[1..];
      assert AllDigits(t) by {
        forall i | 0 <= i < |t| ensures IsDigit(t[i]) { assert t[i] == s[i + 1]; }
      }
      ParseUintRangeError(t, acc * 10 + DigitValue(s[0]));
    }
  }

  // ---------------------------------------------------------------------
  // A partner: decimal formatting (`strconv.Itoa`)

  function DigitChar(d: nat): (c: char)
    requires d < 10
    ensures IsDigit(c) && DigitValue(c) == d
  {
    ('0' as int + d) as char
  }

  function FormatNat(n: nat): (s: string)
    ensures |s| > 0 && AllDigits(s)
    ensures Magnitude(s) == n
    decreases n
  {
    if n < 10 then [DigitChar(n)]
    else
      var s := FormatNat(n / 10) + [DigitChar(n % 10)];
      assert s[..|s| - 1] == FormatNat(n / 10);
      assert AllDigits(s) by {
        forall i | 0 <= i < |s| ensures IsDigit(s[i]) {
          if i < |s| - 1 { assert s[i] == FormatNat(n / 10)[i]; }
        }
      }
      s
  }

  function Itoa(n: int): string
  {
    if n < 0 then "-" + FormatNat(-n) else FormatNat(n)
  }

  /** `Itoa(n)` is a decimal numeral denoting `n`. */
  lemma ItoaDenotes(n: int)
    ensures IsDecimal(Itoa(n)) && Denotation(Itoa(n)) == n
  {
    var s := Itoa(n);
    if n < 0 {
      assert Unsigned(s) == FormatNat(-n);
    } else {
      assert !HasSign(s) by { assert IsDigit(s[0]); }
    }
  }

  /** Every int64 value survives formatting and parsing back. */
  lemma AtoiItoa(n: int)
    requires InInt64(n)
    ensures Atoi(Itoa(n)) == Success(n)
  {
    ItoaDenotes(n);
    AtoiCorrect(Itoa(n));
  }
}
