/** Rust's `str::parse` for the unsigned integer types `u32`, `u64` and
    `usize`: an optional leading `+`, then one or more decimal digits whose
    value fits the type. Everything else (the empty string, a lone `+`, a `-`,
    any other character, an overflow) is an error. `usize` is taken to be
    64 bits wide. */
module RustNum {
  import opened RustStr

  datatype Option<+T> = None | Some(value: T)

  const U32_MAX: nat := 0xFFFF_FFFF
  const U64_MAX: nat := 0xFFFF_FFFF_FFFF_FFFF
  const USIZE_MAX: nat := U64_MAX

  predicate IsDigit(c: char) {
    '0' <= c <= '9'
  }

  predicate AllDigits(s: string) {
    forall i :: 0 <= i < |s| ==> IsDigit(s[i])
  }

  /** The value of a string of decimal digits, most significant first. */
  function DecimalValue(digits: string): nat
    requires AllDigits(digits)
  {
    if digits == [] then 0
    else
      DecimalValue(digits[..|digits| - 1]) * 10
        + (digits[|digits| - 1] as int - '0' as int)
  }

  /** `s.parse::<T>()` for an unsigned `T` whose largest value is `max`. */
  function ParseUnsigned(s: string, max: nat): (r: Option<nat>)
    ensures r.Some? ==> r.value <= max
    ensures r.Some? ==> IsWord(s)
    ensures r.Some? ==> forall i :: 0 <= i < |s| ==> IsDigit(s[i]) || (i == 0 && s[i] == '+')
    ensures r.Some? ==> exists i :: 0 <= i < |s| && IsDigit(s[i])
  {
    var digits := if |s| > 0 && s[0] == '+' then s[1..] else s;
    if |digits| > 0 && AllDigits(digits) && DecimalValue(digits) <= max then
      assert IsDigit(s[|s| - 1]);
      assert forall i :: 0 <= i < |s| ==> IsDigit(s[i]) || (i == 0 && s[i] == '+') by {
        forall i | 0 <= i < |s| ensures IsDigit(s[i]) || (i == 0 && s[i] == '+') {
          if |s| > 0 && s[0] == '+' && i > 0 {
            assert s[i] == digits[i - 1];
          }
        }
      }
      Some(DecimalValue(digits))
    else None
  }

  /** `n.to_string()`: the shortest decimal rendering of `n`. */
  function Decimal(n: nat): (s: string)
    ensures |s| >= 1 && AllDigits(s)
  {
    var d := ['0' + (n % 10) as char];
    if n < 10 then d else Decimal(n / 10) + d
  }

  lemma {:induction false} DecimalValueOfDecimal(n: nat)
    ensures DecimalValue(Decimal(n)) == n
  {
    var s := Decimal(n);
    if n >= 10 {
      DecimalValueOfDecimal(n / 10);
      assert s[..|s| - 1] == Decimal(n / 10);
    }
  }

  /** Parsing the decimal rendering of `n` gives `n` back when it fits the
      type, and an overflow error when it does not. */
  lemma DecimalRoundTrip(n: nat, max: nat)
    ensures ParseUnsigned(Decimal(n), max) == if n <= max then Some(n) else None
  {
    DecimalValueOfDecimal(n);
  }

  /** A leading zero does not change the value of a digit string. */
  lemma {:induction false} DecimalValueLeadingZero(d: string)
    requires AllDigits(d)
    ensures AllDigits("0" + d) && DecimalValue("0" + d) == DecimalValue(d)
    decreases |d|
  {
    var z := "0" + d;
    assert forall i :: 1 <= i < |z| ==> z[i] == d[i - 1];
    if d != [] {
      assert z[..|z| - 1] == "0" + d[..|d| - 1];
      assert z[|z| - 1] == d[|d| - 1];
      DecimalValueLeadingZero(d[..|d| - 1]);
    } else {
      assert z[..|z| - 1] == [];
    }
  }

  /** Leading zeros are accepted and do not change the parsed value: with
      DecimalRoundTrip, this gives the result on every string of digits. */
  lemma LeadingZeroIgnored(d: string, max: nat)
    requires |d| >= 1 && AllDigits(d)
    ensures ParseUnsigned("0" + d, max) == ParseUnsigned(d, max)
  {
    DecimalValueLeadingZero(d);
  }

  /** A `+` in front of a string of digits is accepted and does not change
      the parsed value. */
  lemma PlusIgnored(d: string, max: nat)
    requires |d| >= 1 && AllDigits(d)
    ensures ParseUnsigned("+" + d, max) == ParseUnsigned(d, max)
  {
    assert ("+" + d)[1..] == d;
  }

  /** An explicit leading `+` is accepted and does not change the value. */
  lemma PlusSignAccepted(n: nat, max: nat)
    ensures ParseUnsigned("+" + Decimal(n), max) == if n <= max then Some(n) else None
  {
    DecimalValueOfDecimal(n);
    assert ("+" + Decimal(n))[1..] == Decimal(n);
  }
}
