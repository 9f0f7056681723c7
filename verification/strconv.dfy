/**
 Go's `strconv.Atoi` on a 64-bit platform, and the decimal rendering that
 `fmt`'s `%d` verb produces. Atoi accepts an optional `+` or `-` sign followed
 by one or more ASCII decimal digits (no underscores, no spaces), and rejects a
 value that does not fit in a signed 64-bit integer.
 */
module Strconv {
  import opened Wrappers

  const MinInt64: int := -0x8000_0000_0000_0000
  const MaxInt64: int := 0x7FFF_FFFF_FFFF_FFFF

  predicate IsDigit(c: char) {
    '0' <= c <= '9'
  }

  predicate AllDigits(s: string) {
    forall i :: 0 <= i < |s| ==> IsDigit(s[i])
  }

  predicate AllZeros(s: string) {
    forall i :: 0 <= i < |s| ==> s[i] == '0'
  }

  predicate InInt64(n: int) {
    MinInt64 <= n <= MaxInt64
  }

  function DigitValue(c: char): (d: nat)
    requires IsDigit(c)
    ensures d <= 9
  {
    (c as int) - ('0' as int)
  }

  function DigitChar(d: nat): (c: char)
    requires d <= 9
    ensures IsDigit(c) && DigitValue(c) == d
  {
    (('0' as int) + d) as char
  }

  /** The value of a string of decimal digits, most significant first. */
  function DigitsValue(s: string): nat
    requires AllDigits(s)
    decreases |s|
  {
    if |s| == 0 then 0
    else 10 * DigitsValue(s[..|s| - 1]) + DigitValue(s[|s| - 1])
  }

  /** Splits an optional leading sign off `s`: (negative?, rest). */
  function SplitSign(s: string): (r: (bool, string))
    requires |s| > 0
    ensures |r.1| + 1 >= |s|
    ensures r.1 == s || (r.1 == s[1..] && (s[0] == '+' || s[0] == '-'))
    ensures r.0 <==> s[0] == '-'
  {
    if s[0] == '-' then (true, s[1..])
    else if s[0] == '+' then (false, s[1..])
    else (false, s)
  }

  /** The numerals Atoi's syntax admits: an optional sign, then one or more digits. */
  predicate WellFormed(s: string) {
    && |s| > 0
    && if s[0] == '+' || s[0] == '-' then |s| > 1 && AllDigits(s[1..]) else AllDigits(s)
  }

  function Pow10(k: nat): (p: nat)
    ensures p >= 1
  {
    if k == 0 then 1 else 10 * Pow10(k - 1)
  }

  /** Horner's rule over a digit string read from the front, starting from `acc`. */
  function Horner(acc: int, s: string): int
    requires AllDigits(s)
    decreases |s|
  {
    if |s| == 0 then acc else Horner(10 * acc + DigitValue(s[0]), s[1..])
  }

  /** The integer a well-formed numeral denotes, whatever its size. */
  function ValueOf(s: string): int
    requires WellFormed(s)
  {
    if s[0] == '-' then -Horner(0, s[1..])
    else if s[0] == '+' then Horner(0, s[1..])
    else Horner(0, s)
  }

  /**
   `strconv.Atoi(s)`: a value exactly for a well-formed numeral whose value
   fits in 64 bits, and then that value; `None` is a syntax or range error.
   */
  function Atoi(s: string): (r: Option<int>)
    ensures r.Some? <==> WellFormed(s) && InInt64(ValueOf(s))
    ensures r.Some? ==> r.value == ValueOf(s)
    ensures r.Some? ==> InInt64(r.value)
    ensures r.Some? ==> |s| > 0 && forall i :: 0 < i < |s| ==> IsDigit(s[i])
    ensures r.Some? ==> IsDigit(s[0]) || s[0] == '+' || s[0] == '-'
    ensures |s| == 0 || s == "+" || s == "-" ==> r.None?
  {
    if |s| == 0 then None
    else
      var (negative, digits) := SplitSign(s);
      if |digits| == 0 || !AllDigits(digits) then None
      else
        HornerDigits(digits);
        var v: int := if negative then -(DigitsValue(digits) as int) else DigitsValue(digits);
        if InInt64(v) then Some(v) else None
  }

  /** Reading the digits from the back, as `DigitsValue` does, splits off the leading digit's place value. */
  lemma {:induction false} DigitsValueFront(s: string)
    requires |s| > 0 && AllDigits(s)
    ensures DigitsValue(s) == DigitValue(s[0]) * Pow10(|s| - 1) + DigitsValue(s[1..])
    decreases |s|
  {
    if |s| > 1 {
      var p, t := s[..|s| - 1], s[1..];
      var lead, last := DigitValue(s[0]), DigitValue(s[|s| - 1]);
      var place := Pow10(|s| - 2);
      DigitsValueFront(p);
      assert p[0] == s[0] && p[1..] == t[..|t| - 1];
      assert DigitsValue(p) == lead * place + DigitsValue(p[1..]);
      assert DigitsValue(t) == 10 * DigitsValue(p[1..]) + last;
      assert Pow10(|s| - 1) == 10 * place;
      ScalePlace(lead, place);
    }
  }

  lemma ScalePlace(a: int, place: int)
    ensures 10 * (a * place) == a * (10 * place)
  {
  }

  /** Horner's rule from the front and the value read from the back agree. */
  lemma {:induction false} HornerValue(acc: int, s: string)
    requires AllDigits(s)
    ensures Horner(acc, s) == acc * Pow10(|s|) + DigitsValue(s)
    decreases |s|
  {
    if |s| > 0 {
      var lead := DigitValue(s[0]);
      var place := Pow10(|s| - 1);
      HornerValue(10 * acc + lead, s[1..]);
      assert Horner(acc, s) == (10 * acc + lead) * place + DigitsValue(s[1..]);
      DigitsValueFront(s);
      assert Pow10(|s|) == 10 * place;
      Distribute(acc, lead, place);
    }
  }

  lemma Distribute(acc: int, lead: int, place: int)
    ensures (10 * acc + lead) * place == acc * (10 * place) + lead * place
  {
  }

  lemma HornerDigits(s: string)
    requires AllDigits(s)
    ensures Horner(0, s) == DigitsValue(s)
  {
    HornerValue(0, s);
  }

  /** Decimal digits of a natural number, without leading zeros. */
  function FormatNat(n: nat): (s: string)
    ensures |s| > 0 && AllDigits(s)
    decreases n
  {
    if n < 10 then [DigitChar(n)]
    else FormatNat(n / 10) + [DigitChar(n % 10)]
  }

  /** What `fmt`'s `%d` prints for an integer. */
  function FormatInt(n: int): (s: string)
    ensures |s| > 0
    ensures n < 0 <==> s[0] == '-'
  {
    if n < 0 then "-" + FormatNat(-n) else FormatNat(n)
  }

  lemma {:induction false} FormatNatValue(n: nat)
    ensures DigitsValue(FormatNat(n)) == n
    decreases n
  {
    if n >= 10 {
      var s := FormatNat(n);
      assert s[..|s| - 1] == FormatNat(n / 10);
      FormatNatValue(n / 10);
    }
  }

  /** Atoi reads back every 64-bit value that `%d` prints. */
  lemma AtoiFormatRoundTrip(n: int)
    requires InInt64(n)
    ensures Atoi(FormatInt(n)) == Some(n)
  {
    if n < 0 {
      AtoiFormatNegative(n);
    } else {
      FormatNatValue(n);
    }
  }

  lemma AtoiFormatNegative(n: int)
    requires InInt64(n) && n < 0
    ensures Atoi(FormatInt(n)) == Some(n)
  {
    var s := FormatInt(n);
    assert s[1..] == FormatNat(-n);
    FormatNatValue(-n);
  }

  lemma {:induction false} ZerosValue(s: string)
    requires AllDigits(s)
    ensures DigitsValue(s) == 0 <==> AllZeros(s)
    decreases |s|
  {
    if |s| > 0 {
      var p := s[..|s| - 1];
      ZerosValue(p);
      if AllZeros(p) && s[|s| - 1] == '0' {
        assert forall i :: 0 <= i < |s| ==> s[i] == '0' by {
          forall i | 0 <= i < |s| ensures s[i] == '0' {
            if i < |s| - 1 { assert s[i] == p[i]; }
          }
        }
      }
      if AllZeros(s) {
        assert forall i :: 0 <= i < |p| ==> p[i] == '0' by {
          forall i | 0 <= i < |p| ensures p[i] == '0' { assert p[i] == s[i]; }
        }
      }
    }
  }

  /** A digit string is worth at most 9 exactly when all but its last digit are zeros. */
  lemma SmallDigitsValue(s: string)
    requires |s| > 0 && AllDigits(s)
    ensures DigitsValue(s) <= 9 <==> AllZeros(s[..|s| - 1])
    ensures DigitsValue(s) <= 9 ==> DigitsValue(s) == DigitValue(s[|s| - 1])
  {
    ZerosValue(s[..|s| - 1]);
  }

  /**
   The strings that Atoi reads as a number between 0 and 9: a last digit d,
   preceded by any run of zeros, optionally preceded by `+`, or by `-` when d
   is `0`. This is the regular language `(+?0*[0-9]) | (-0*0)`.
   */
  predicate SingleDigitNumeral(s: string) {
    && |s| > 0
    && IsDigit(s[|s| - 1])
    && var body := s[..|s| - 1];
    || AllZeros(body)
    || (|body| > 0 && body[0] == '+' && AllZeros(body[1..]))
    || (|body| > 0 && body[0] == '-' && AllZeros(body[1..]) && s[|s| - 1] == '0')
  }

  /** The value a single-digit numeral denotes: its last digit. */
  function SingleDigitValue(s: string): (d: nat)
    requires SingleDigitNumeral(s)
    ensures d <= 9
  {
    DigitValue(s[|s| - 1])
  }

  lemma AtoiSingleDigit(s: string)
    ensures (Atoi(s).Some? && 0 <= Atoi(s).value <= 9) <==> SingleDigitNumeral(s)
    ensures SingleDigitNumeral(s) ==> Atoi(s) == Some(SingleDigitValue(s))
  {
    if |s| > 0 {
      var (negative, digits) := SplitSign(s);
      var body := s[..|s| - 1];
      if |digits| > 0 && AllDigits(digits) {
        SmallDigitsValue(digits);
        ZerosValue(digits);
        if digits == s {
          assert digits[..|digits| - 1] == body;
        } else {
          assert digits[..|digits| - 1] == body[1..];
          if negative && AllZeros(body[1..]) && s[|s| - 1] == '0' {
            assert forall i :: 0 <= i < |digits| ==> digits[i] == '0' by {
              forall i | 0 <= i < |digits| ensures digits[i] == '0' {
                if i < |digits| - 1 { assert digits[i] == body[1..][i]; }
              }
            }
          }
        }
      }
      if SingleDigitNumeral(s) {
        assert s[|s| - 1] == digits[|digits| - 1];
        if |body| > 0 && (body[0] == '+' || body[0] == '-') {
          assert digits == s[1..];
          assert AllDigits(digits) by {
            forall i | 0 <= i < |digits| ensures IsDigit(digits[i]) {
              if i < |digits| - 1 { assert digits[i] == body[1..][i]; }
            }
          }
        } else {
          assert AllZeros(body);
          assert digits == s;
          assert AllDigits(digits) by {
            forall i | 0 <= i < |digits| ensures IsDigit(digits[i]) {
              if i < |digits| - 1 { assert digits[i] == body[i]; }
            }
          }
        }
      }
    }
  }
}
