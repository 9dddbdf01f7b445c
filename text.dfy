/** The few `java.lang.String` and `Integer` operations the core relies on,
    over ASCII: case-insensitive comparison, substring search, `trim().isEmpty()`,
    `split(":")[0]` and `Integer.parseInt`. */
module Text {
  import opened Outcomes

  const MinInt: int := -0x8000_0000
  const MaxInt: int := 0x7FFF_FFFF

  /** `Character.toLowerCase` restricted to ASCII letters. */
  function ToLower(c: char): (r: char)
    ensures 'A' <= c <= 'Z' ==> 'a' <= r <= 'z' && r as int - c as int == 32
    ensures !('A' <= c <= 'Z') ==> r == c
  {
    if 'A' <= c <= 'Z' then (c as int + 32) as char else c
  }

  /** `String.toLowerCase`. */
  function LowerCase(s: string): (r: string)
    ensures |r| == |s|
    ensures forall i :: 0 <= i < |s| ==> r[i] == ToLower(s[i])
  {
    seq(|s|, i requires 0 <= i < |s| => ToLower(s[i]))
  }

  /** `a.equalsIgnoreCase(b)`: same length, and equal once both are lower-cased. */
  predicate EqualsIgnoreCase(a: string, b: string)
  {
    |a| == |b| && LowerCase(a) == LowerCase(b)
  }

  /** `s.contains(sub)`: `sub` occurs at some position of `s`. */
  predicate Contains(s: string, sub: string)
    decreases |s|
  {
    (|sub| <= |s| && s[..|sub|] == sub) || (s != [] && Contains(s[1..], sub))
  }

  /** `s.toLowerCase().contains(sub.toLowerCase())`. */
  predicate ContainsIgnoreCase(s: string, sub: string)
  {
    Contains(LowerCase(s), LowerCase(sub))
  }

  /** A path variable in which the text `null`, in any letter case, stands
      for a missing value. */
  function NullableParameter(v: string): Option<string>
  {
    if EqualsIgnoreCase("null", v) then None else Some(v)
  }

  /** `s.trim().isEmpty()`: `trim` strips every character up to U+0020 from
      both ends, so the result is empty exactly when no other character occurs. */
  predicate IsBlank(s: string)
  {
    forall i :: 0 <= i < |s| ==> s[i] <= ' '
  }

  /** `s.split(":")[0]`: the text before the first colon, or all of `s`. */
  function BeforeColon(s: string): (r: string)
    ensures |r| <= |s| && r == s[..|r|]
    ensures ':' !in r
    ensures |r| < |s| ==> s[|r|] == ':'
  {
    if s == [] || s[0] == ':' then [] else [s[0]] + BeforeColon(s[1..])
  }

  predicate IsDigit(c: char)
  {
    '0' <= c <= '9'
  }

  predicate AllDigits(s: string)
  {
    forall i :: 0 <= i < |s| ==> IsDigit(s[i])
  }

  /** The decimal value of a string of digits. */
  function DigitsValue(s: string): nat
    requires AllDigits(s)
  {
    if s == [] then 0
    else DigitsValue(s[..|s| - 1]) * 10 + (s[|s| - 1] as int - '0' as int)
  }

  /** `s` without its leading sign, if it has one. */
  function Unsigned(s: string): string
  {
    if s != [] && (s[0] == '-' || s[0] == '+') then s[1..] else s
  }

  /** An optional sign followed by at least one digit. */
  predicate IsSignedDigits(s: string)
  {
    Unsigned(s) != [] && AllDigits(Unsigned(s))
  }

  /** `Integer.parseInt(s)`: an optional sign, then at least one digit, and a
      value that fits in 32 bits; anything else raises `NumberFormatException`
      (modelled as `None`). Up to nine digits always fit. */
  function ParseInt(s: string): (r: Option<int>)
    ensures r.Some? ==> MinInt <= r.value <= MaxInt
    ensures r.Some? ==> IsSignedDigits(s)
    ensures IsSignedDigits(s) && |Unsigned(s)| <= 9 ==> r.Some?
  {
    if s == [] then None
    else
      var digits := if s[0] == '-' || s[0] == '+' then s[1..] else s;
      if digits == [] || !AllDigits(digits) then None
      else
        DigitsBound(digits);
        assert |digits| <= 9 ==> Power10(|digits|) <= 1_000_000_000 by {
          if |digits| <= 9 {
            Power10Monotone(|digits|, 9);
          }
        }
        var v: int := if s[0] == '-' then -(DigitsValue(digits) as int) else DigitsValue(digits);
        if MinInt <= v <= MaxInt then Some(v) else None
  }

  /** A digit string of length `n` is below `10^n`. */
  lemma {:induction false} DigitsBound(s: string)
    requires AllDigits(s)
    ensures DigitsValue(s) < Power10(|s|)
    decreases |s|
  {
    if s != [] {
      DigitsBound(s[..|s| - 1]);
    }
  }

  lemma {:induction false} Power10Monotone(m: nat, n: nat)
    requires m <= n
    ensures Power10(m) <= Power10(n)
    decreases n
  {
    if m < n {
      Power10Monotone(m, n - 1);
    }
  }

  function Power10(n: nat): (r: nat)
    ensures r > 0
  {
    if n == 0 then 1 else 10 * Power10(n - 1)
  }

  /** `Integer.toString(n)`: a minus sign for a negative number, then the
      digits without leading zeros. */
  function IntToString(n: int): string
  {
    if n < 0 then ['-'] + Decimal(-n) else Decimal(n)
  }

  /** The decimal digits of `n`, without leading zeros. */
  function Decimal(n: nat): (r: string)
    ensures r != [] && AllDigits(r)
  {
    if n < 10 then [DigitChar(n)] else Decimal(n / 10) + [DigitChar(n % 10)]
  }

  /** The digits of `n` read back give `n`. */
  lemma {:induction false} DecimalValue(n: nat)
    ensures DigitsValue(Decimal(n)) == n
  {
    if n >= 10 {
      DecimalValue(n / 10);
      var r := Decimal(n);
      assert r[..|r| - 1] == Decimal(n / 10);
    }
  }

  /** `parseInt` reads back every 32-bit integer rendered by `toString`. */
  lemma ParseIntToString(n: int)
    requires MinInt <= n <= MaxInt
    ensures ParseInt(IntToString(n)) == Some(n)
  {
    var s := IntToString(n);
    if n < 0 {
      DecimalValue(-n);
      assert s[0] == '-' && s[1..] == Decimal(-n);
    } else {
      DecimalValue(n);
      assert IsDigit(s[0]);
    }
  }

  /** A leading zero does not change the value `parseInt` reads, so every
      digit string reads as the `toString` rendering it pads. */
  lemma {:induction false} LeadingZeroValue(d: string)
    requires AllDigits(d)
    ensures AllDigits(['0'] + d) && DigitsValue(['0'] + d) == DigitsValue(d)
    decreases |d|
  {
    var z := ['0'] + d;
    if d != [] {
      LeadingZeroValue(d[..|d| - 1]);
      assert z[..|z| - 1] == ['0'] + d[..|d| - 1];
    }
  }

  function DigitChar(d: nat): (c: char)
    requires d < 10
    ensures IsDigit(c) && c as int - '0' as int == d
  {
    ('0' as int + d) as char
  }

  /** The two-digit, zero-padded rendering of `n` (as in `08` or `23`). */
  function TwoDigits(n: nat): (r: string)
    requires n < 100
    ensures |r| == 2 && AllDigits(r)
  {
    [DigitChar(n / 10), DigitChar(n % 10)]
  }

  /** Reading back a two-digit rendering gives the number. */
  lemma ParseTwoDigits(n: nat)
    requires n < 100
    ensures ParseInt(TwoDigits(n)) == Some(n)
  {
    var s := TwoDigits(n);
    assert s[..1] == [s[0]];
    assert DigitsValue(s[..1]) == n / 10 by {
      assert [s[0]][..0] == [];
    }
  }

  /** Two-digit renderings are equal only for equal numbers. */
  lemma TwoDigitsInjective(m: nat, n: nat)
    requires m < 100 && n < 100
    ensures TwoDigits(m) == TwoDigits(n) <==> m == n
  {
    if TwoDigits(m) == TwoDigits(n) {
      assert m / 10 == n / 10 && m % 10 == n % 10 by {
        assert TwoDigits(m)[0] == TwoDigits(n)[0] && TwoDigits(m)[1] == TwoDigits(n)[1];
      }
    }
  }
}
