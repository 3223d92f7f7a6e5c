// Decimal text of integers: Rust's `Display` for integers and `str::parse::<i128>()`
// (`core::num::from_str_radix` with radix 10), including its error kinds.
module Decimal {
  import opened Wrappers

  predicate IsDigit(c: char) {
    '0' <= c <= '9'
  }

  function DigitValue(c: char): (d: nat)
    requires IsDigit(c)
    ensures d < 10
  {
    c as int - '0' as int
  }

  function DigitChar(d: nat): (c: char)
    requires d < 10
    ensures IsDigit(c) && DigitValue(c) == d
  {
    ('0' as int + d) as char
  }

  predicate AllDigits(s: string) {
    forall i :: 0 <= i < |s| ==> IsDigit(s[i])
  }

  /** The value of a digit string read left to right (no bound). */
  function DigitsValue(ds: string): nat
    requires AllDigits(ds)
  {
    if ds == [] then 0 else DigitsValue(ds[..|ds| - 1]) * 10 + DigitValue(ds[|ds| - 1])
  }

  /** `Display` of an unsigned integer: its decimal digits without leading zeros. */
  function NatToDecimal(n: nat): (s: string)
    ensures 0 < |s| && AllDigits(s)
  {
    if n < 10 then [DigitChar(n)] else NatToDecimal(n / 10) + [DigitChar(n % 10)]
  }

  /** `Display` of a signed integer. */
  function IntToDecimal(i: int): string {
    if i < 0 then "-" + NatToDecimal(-i) else NatToDecimal(i)
  }

  lemma {:induction false} NatToDecimalValue(n: nat)
    ensures DigitsValue(NatToDecimal(n)) == n
  {
    var s := NatToDecimal(n);
    if n >= 10 {
      NatToDecimalValue(n / 10);
      assert s[..|s| - 1] == NatToDecimal(n / 10);
    }
  }

  /** Different numbers have different decimal texts. */
  lemma NatToDecimalInjective(a: nat, b: nat)
    requires NatToDecimal(a) == NatToDecimal(b)
    ensures a == b
  {
    NatToDecimalValue(a);
    NatToDecimalValue(b);
  }

  /** A digit run ended by a non-digit separator can be split back off unambiguously. */
  lemma SplitAfterDigits(a: string, b: string, c: string, d: string, sep: char)
    requires AllDigits(a) && AllDigits(c) && !IsDigit(sep)
    requires a + [sep] + b == c + [sep] + d
    ensures a == c && b == d
  {
    var s := a + [sep] + b;
    DigitRunLength(a, sep, b);
    DigitRunLength(c, sep, d);
    assert a == s[..|a|] && c == s[..|c|];
    assert b == s[|a| + 1..] && d == s[|c| + 1..];
  }

  /** The length of the leading run of digits. */
  function DigitRun(s: string): (n: nat)
    ensures n <= |s|
  {
    if s == [] || !IsDigit(s[0]) then 0 else 1 + DigitRun(s[1..])
  }

  lemma {:induction false} DigitRunLength(a: string, sep: char, rest: string)
    requires AllDigits(a) && !IsDigit(sep)
    ensures DigitRun(a + [sep] + rest) == |a|
  {
    if a != [] {
      assert (a + [sep] + rest)[1..] == a[1..] + [sep] + rest;
      DigitRunLength(a[1..], sep, rest);
    }
  }

  const I128_MIN: int := -0x8000_0000_0000_0000_0000_0000_0000_0000
  const I128_MAX: int := 0x7fff_ffff_ffff_ffff_ffff_ffff_ffff_ffff

  type I128 = x: int | I128_MIN <= x <= I128_MAX

  /** `core::num::IntErrorKind` as far as radix-10 parsing can produce it. */
  datatype IntErrorKind = Empty | InvalidDigit | PosOverflow | NegOverflow

  /** `ParseIntError::to_string()`. */
  function IntErrorText(k: IntErrorKind): string {
    match k
    case Empty => "cannot parse integer from empty string"
    case InvalidDigit => "invalid digit found in string"
    case PosOverflow => "number too large to fit in target type"
    case NegOverflow => "number too small to fit in target type"
  }

  /** The digit loop of `from_str_radix`: digits are consumed left to right and the first
    * character that is not a digit, or the first digit that carries the magnitude past
    * `bound`, decides the error. */
  function Accumulate(ds: string, bound: nat, overflow: IntErrorKind): (r: Result<nat, IntErrorKind>)
    ensures r.Ok? ==> r.value <= bound
  {
    if ds == [] then Ok(0)
    else
      match Accumulate(ds[..|ds| - 1], bound, overflow)
      case Err(e) => Err(e)
      case Ok(a) =>
        var c := ds[|ds| - 1];
        if !IsDigit(c) then Err(InvalidDigit)
        else if a * 10 + DigitValue(c) > bound then Err(overflow)
        else Ok(a * 10 + DigitValue(c))
  }

  /** `str::parse::<i128>()`: an optional sign, then decimal digits. A lone sign is an
    * invalid digit; a magnitude outside the `i128` range overflows on the side of its sign. */
  function ParseI128(s: string): Result<I128, IntErrorKind> {
    if s == [] then Err(Empty)
    else if (s[0] == '+' || s[0] == '-') && |s| == 1 then Err(InvalidDigit)
    else if s[0] == '-' then
      match Accumulate(s[1..], -I128_MIN, NegOverflow)
      case Err(e) => Err(e)
      case Ok(m) => var v: I128 := -(m as int); Ok(v)
    else
      var ds := if s[0] == '+' then s[1..] else s;
      match Accumulate(ds, I128_MAX, PosOverflow)
      case Err(e) => Err(e)
      case Ok(m) => Ok(m)
  }

  /** The digit loop succeeds exactly on digit strings whose value is within the bound,
    * and then yields that value. */
  lemma {:induction false} AccumulateOk(ds: string, bound: nat, overflow: IntErrorKind)
    ensures Accumulate(ds, bound, overflow).Ok? <==> AllDigits(ds) && DigitsValue(ds) <= bound
    ensures Accumulate(ds, bound, overflow).Ok? ==> Accumulate(ds, bound, overflow).value == DigitsValue(ds)
  {
    if ds != [] {
      var p := ds[..|ds| - 1];
      AccumulateOk(p, bound, overflow);
      assert AllDigits(ds) ==> AllDigits(p) by {
        if AllDigits(ds) {
          forall i | 0 <= i < |p| ensures IsDigit(p[i]) { assert p[i] == ds[i]; }
        }
      }
    }
  }

  /** Parsing the decimal text of any `i128` gives it back. */
  lemma ParseI128OfDecimal(i: I128)
    ensures ParseI128(IntToDecimal(i)) == Ok(i)
  {
    var m: nat := if i < 0 then -(i as int) else i as int;
    var ds := NatToDecimal(m);
    NatToDecimalValue(m);
    if i < 0 {
      assert IntToDecimal(i)[1..] == ds;
      AccumulateOk(ds, -I128_MIN, NegOverflow);
    } else {
      AccumulateOk(ds, I128_MAX, PosOverflow);
    }
  }
}
