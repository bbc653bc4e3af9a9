/** The id codec every session, auth-session, share, secret and blob id goes
    through: fixed-width 32-digit upper-case hexadecimal formatting of a
    128-bit integer, the base-16 parser of Rust's `u128::from_str_radix`
    (with the "0 on failure" wrapper), and the decimal rendering that
    `u128::to_string` produces. */
module Hex {

  import opened Wrappers
  import opened Ints

  predicate IsHexDigit(c: char) {
    '0' <= c <= '9' || 'a' <= c <= 'f' || 'A' <= c <= 'F'
  }

  predicate IsUpperHexDigit(c: char) {
    '0' <= c <= '9' || 'A' <= c <= 'F'
  }

  predicate AllHex(s: string) {
    forall i :: 0 <= i < |s| ==> IsHexDigit(s[i])
  }

  function DigitValue(c: char): (d: nat)
    requires IsHexDigit(c)
    ensures d < 16
  {
    if '0' <= c <= '9' then c as int - '0' as int
    else if 'a' <= c <= 'f' then c as int - 'a' as int + 10
    else c as int - 'A' as int + 10
  }

  function UpperDigit(d: nat): (c: char)
    requires d < 16
    ensures IsUpperHexDigit(c) && DigitValue(c) == d
  {
    if d < 10 then ('0' as int + d) as char else ('A' as int + d - 10) as char
  }

  function Pow16(k: nat): (r: nat)
    ensures r > 0
  {
    if k == 0 then 1 else 16 * Pow16(k - 1)
  }

  /** The low `width` hexadecimal digits of `n`, most significant first. */
  function FixedHex(n: nat, width: nat): (s: string)
    ensures |s| == width
    ensures forall i :: 0 <= i < |s| ==> IsUpperHexDigit(s[i])
  {
    if width == 0 then [] else FixedHex(n / 16, width - 1) + [UpperDigit(n % 16)]
  }

  /** `u128_to_32_char_hex_string`: `format!("{:032X}", n)`. */
  function Hex32(n: U128): (s: string)
    ensures |s| == 32
    ensures forall i :: 0 <= i < |s| ==> IsUpperHexDigit(s[i])
    ensures TryParse(s) == Some(n)
  {
    HexRoundTrip(n);
    FixedHex(n, 32)
  }

  /** The value of a string of hexadecimal digits, most significant first. */
  function NumeralValue(s: string): nat
    requires AllHex(s)
  {
    if |s| == 0 then 0 else NumeralValue(s[..|s| - 1]) * 16 + DigitValue(s[|s| - 1])
  }

  /** `u128::from_str_radix(s, 16)`: an optional leading '+', then at least one
      digit of either case, and a value that fits in 128 bits. */
  function TryParse(s: string): Option<U128>
  {
    if |s| == 0 then None
    else
      var digits := if s[0] == '+' then s[1..] else s;
      if |digits| == 0 || !AllHex(digits) then None
      else if NumeralValue(digits) < U128_LIMIT then Some(NumeralValue(digits))
      else None
  }

  /** `char_hex_string_to_u128`: the parsed value, or 0 when parsing fails. */
  function ParseOrZero(s: string): (r: U128)
    ensures TryParse(s).Some? ==> r == TryParse(s).value
    ensures TryParse(s).None? ==> r == 0
  {
    match TryParse(s)
    case Some(v) => v
    case None => 0
  }

  /** `n.to_string()`: the decimal digits of `n`, most significant first. */
  function Decimal(n: nat): (s: string)
    ensures |s| > 0 && s[0] != '+'
    ensures forall i :: 0 <= i < |s| ==> '0' <= s[i] <= '9'
    ensures |s| == 1 <==> n < 10
  {
    if n < 10 then [('0' as int + n) as char]
    else Decimal(n / 10) + [('0' as int + n % 10) as char]
  }

  function UpperChar(c: char): char {
    if 'a' <= c <= 'z' then (c as int - 32) as char else c
  }

  /** ASCII upper-casing of a string. */
  function AsciiUpper(s: string): (r: string)
    ensures |r| == |s|
  {
    seq(|s|, i requires 0 <= i < |s| => UpperChar(s[i]))
  }

  // ---------------------------------------------------------------------------
  // Powers of sixteen

  lemma Pow16Is128Bits()
    ensures Pow16(32) == U128_LIMIT
  {
    assert Pow16(1) == 0x10;
    assert Pow16(2) == 0x100;
    assert Pow16(3) == 0x1000;
    assert Pow16(4) == 0x10000;
    assert Pow16(5) == 0x100000;
    assert Pow16(6) == 0x1000000;
    assert Pow16(7) == 0x10000000;
    assert Pow16(8) == 0x100000000;
    assert Pow16(9) == 0x1000000000;
    assert Pow16(10) == 0x10000000000;
    assert Pow16(11) == 0x100000000000;
    assert Pow16(12) == 0x1000000000000;
    assert Pow16(13) == 0x10000000000000;
    assert Pow16(14) == 0x100000000000000;
    assert Pow16(15) == 0x1000000000000000;
    assert Pow16(16) == 0x10000000000000000;
    assert Pow16(17) == 0x100000000000000000;
    assert Pow16(18) == 0x1000000000000000000;
    assert Pow16(19) == 0x10000000000000000000;
    assert Pow16(20) == 0x100000000000000000000;
    assert Pow16(21) == 0x1000000000000000000000;
    assert Pow16(22) == 0x10000000000000000000000;
    assert Pow16(23) == 0x100000000000000000000000;
    assert Pow16(24) == 0x1000000000000000000000000;
    assert Pow16(25) == 0x10000000000000000000000000;
    assert Pow16(26) == 0x100000000000000000000000000;
    assert Pow16(27) == 0x1000000000000000000000000000;
    assert Pow16(28) == 0x10000000000000000000000000000;
    assert Pow16(29) == 0x100000000000000000000000000000;
    assert Pow16(30) == 0x1000000000000000000000000000000;
    assert Pow16(31) == 0x10000000000000000000000000000000;
    assert Pow16(32) == 0x100000000000000000000000000000000;
  }

  lemma {:induction false} Pow16Monotone(a: nat, b: nat)
    requires a <= b
    ensures Pow16(a) <= Pow16(b)
  {
    if a < b {
      Pow16Monotone(a, b - 1);
    }
  }

  // ---------------------------------------------------------------------------
  // The round trip

  /** The digits written by FixedHex read back as `n` when `n` fits in
      `width` digits. */
  lemma {:induction false} FixedHexValue(n: nat, width: nat)
    requires n < Pow16(width)
    ensures AllHex(FixedHex(n, width))
    ensures NumeralValue(FixedHex(n, width)) == n
  {
    var s := FixedHex(n, width);
    if width > 0 {
      FixedHexValue(n / 16, width - 1);
      assert s[..|s| - 1] == FixedHex(n / 16, width - 1);
    }
  }

  /** Parsing the 32-digit rendering gives the number back. */
  lemma HexRoundTrip(n: U128)
    ensures TryParse(FixedHex(n, 32)) == Some(n)
  {
    var s := FixedHex(n, 32);
    Pow16Is128Bits();
    FixedHexValue(n, 32);
    assert IsUpperHexDigit(s[0]);
  }

  lemma ParseOrZeroOfHex32(n: U128)
    ensures ParseOrZero(Hex32(n)) == n
  {
  }

  /** Distinct ids have distinct renderings, so distinct blob paths. */
  lemma Hex32Injective(a: U128, b: U128)
    ensures Hex32(a) == Hex32(b) <==> a == b
  {
    if Hex32(a) == Hex32(b) {
      assert TryParse(Hex32(a)) == Some(a) && TryParse(Hex32(b)) == Some(b);
    }
  }

  // ---------------------------------------------------------------------------
  // Bounds and rejections

  /** A numeral of `k` digits is below 16^k. */
  lemma {:induction false} NumeralValueUpperBound(s: string)
    requires AllHex(s)
    ensures NumeralValue(s) < Pow16(|s|)
  {
    if |s| > 0 {
      var init := s[..|s| - 1];
      assert AllHex(init) by {
        forall i | 0 <= i < |init| ensures IsHexDigit(init[i]) {
          assert init[i] == s[i];
        }
      }
      NumeralValueUpperBound(init);
      assert NumeralValue(init) + 1 <= Pow16(|init|);
      assert NumeralValue(s) == NumeralValue(init) * 16 + DigitValue(s[|s| - 1]);
      assert NumeralValue(init) * 16 + 16 <= Pow16(|init|) * 16;
    }
  }

  /** Thirty-two hexadecimal digits always fit in 128 bits. */
  lemma ThirtyTwoDigitsParse(s: string)
    requires |s| == 32 && AllHex(s)
    ensures TryParse(s) == Some(NumeralValue(s))
  {
    NumeralValueUpperBound(s);
    Pow16Is128Bits();
  }

  /** A numeral with a non-zero leading digit is at least 16^(length - 1). */
  lemma {:induction false} NumeralValueLowerBound(s: string)
    requires AllHex(s) && |s| > 0 && s[0] != '0'
    ensures NumeralValue(s) >= Pow16(|s| - 1)
  {
    if |s| > 1 {
      var init := s[..|s| - 1];
      assert init[0] == s[0];
      NumeralValueLowerBound(init);
    } else {
      assert NumeralValue(s) == NumeralValue(s[..0]) * 16 + DigitValue(s[0]);
    }
  }

  /** More than 32 significant digits do not fit in 128 bits: the parser
      fails and the wrapper yields 0. */
  lemma LongNumeralRejected(s: string)
    requires AllHex(s) && |s| > 32 && s[0] != '0'
    ensures TryParse(s) == None && ParseOrZero(s) == 0
  {
    NumeralValueLowerBound(s);
    Pow16Is128Bits();
    Pow16Monotone(32, |s| - 1);
  }

  /** A character that is neither a digit nor the leading '+' makes the parse
      fail, and so does the empty string. */
  lemma NonDigitRejected(s: string, i: nat)
    requires i < |s| && !IsHexDigit(s[i]) && !(i == 0 && s[0] == '+')
    ensures TryParse(s) == None && ParseOrZero(s) == 0
  {
    if s[0] == '+' {
      assert s[1..][i - 1] == s[i];
    }
  }

  // ---------------------------------------------------------------------------
  // Case

  lemma {:induction false} NumeralValueIgnoresCase(s: string)
    requires AllHex(s)
    ensures AllHex(AsciiUpper(s))
    ensures NumeralValue(AsciiUpper(s)) == NumeralValue(s)
  {
    var u := AsciiUpper(s);
    assert forall i :: 0 <= i < |s| ==> IsHexDigit(u[i]) && DigitValue(u[i]) == DigitValue(s[i]);
    if |s| > 0 {
      var init := s[..|s| - 1];
      NumeralValueIgnoresCase(init);
      assert u[..|u| - 1] == AsciiUpper(init);
    }
  }

  /** Upper- and lower-case spellings of a number parse to the same value. */
  lemma ParseIgnoresCase(s: string)
    ensures TryParse(AsciiUpper(s)) == TryParse(s)
  {
    var u := AsciiUpper(s);
    if |s| > 0 {
      assert (u[0] == '+') == (s[0] == '+');
      var d := if s[0] == '+' then s[1..] else s;
      var du := if u[0] == '+' then u[1..] else u;
      assert du == AsciiUpper(d);
      assert AllHex(du) ==> AllHex(d) by {
        if AllHex(du) {
          forall i | 0 <= i < |d| ensures IsHexDigit(d[i]) {
            assert IsHexDigit(du[i]);
          }
        }
      }
      if AllHex(d) {
        NumeralValueIgnoresCase(d);
      }
    }
  }

  // ---------------------------------------------------------------------------
  // Decimal text read as hexadecimal

  lemma {:induction false} DecimalAsHexValue(n: nat)
    ensures AllHex(Decimal(n))
    ensures NumeralValue(Decimal(n)) >= n
    ensures n >= 10 ==> NumeralValue(Decimal(n)) > n
  {
    var s := Decimal(n);
    if n < 10 {
      assert NumeralValue(s) == NumeralValue([]) * 16 + DigitValue(s[0]);
    } else {
      DecimalAsHexValue(n / 10);
      assert s[..|s| - 1] == Decimal(n / 10);
      assert DigitValue(s[|s| - 1]) == n % 10;
    }
  }

  /** Decimal text handed to the hexadecimal parser reads back as the same
      number only for the single-digit numbers. */
  lemma DecimalReadAsHex(n: U128)
    ensures ParseOrZero(Decimal(n)) == n <==> n < 10
  {
    DecimalAsHexValue(n);
    var s := Decimal(n);
    if n < 10 {
      assert NumeralValue(s) == NumeralValue([]) * 16 + DigitValue(s[0]);
    }
  }
}
