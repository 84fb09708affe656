/** Decimal and hexadecimal numerals, as strchr() over a digit table reads
    them and as the sprintf() conversions %u and %x write them. */
module Numerals {
  predicate IsDigit(c: char) { '0' <= c <= '9' }

  predicate IsDigits(s: string) { forall c | c in s :: IsDigit(c) }

  function DigitVal(c: char): (d: nat)
    requires IsDigit(c)
    ensures d < 10
  {
    c as int - '0' as int
  }

  predicate IsHex(c: char) { IsDigit(c) || 'a' <= c <= 'f' || 'A' <= c <= 'F' }

  predicate IsHexDigits(s: string) { forall c | c in s :: IsHex(c) }

  function HexVal(c: char): (d: nat)
    requires IsHex(c)
    ensures d < 16
  {
    if IsDigit(c) then DigitVal(c)
    else if 'a' <= c <= 'f' then c as int - 'a' as int + 10
    else c as int - 'A' as int + 10
  }

  function DecValue(s: string): nat
    requires IsDigits(s)
  {
    if s == "" then 0 else DecValue(s[..|s| - 1]) * 10 + DigitVal(s[|s| - 1])
  }

  function HexValue(s: string): nat
    requires IsHexDigits(s)
  {
    if s == "" then 0 else HexValue(s[..|s| - 1]) * 16 + HexVal(s[|s| - 1])
  }

  /** The digit tables that the parsers search. */
  const LOWER := "0123456789abcdef"
  const UPPER := "0123456789ABCDEF"

  /** The value of a digit is its index in either table, and nothing else is a digit. */
  lemma DigitIsIndex(c: char)
    ensures IsHex(c) <==> c in LOWER || c in UPPER
    ensures IsDigit(c) <==> c in "0123456789"
    ensures forall d | 0 <= d < 16 && (LOWER[d] == c || UPPER[d] == c) :: IsHex(c) && HexVal(c) == d
    ensures forall d | 0 <= d < 10 && LOWER[d] == c :: IsDigit(c) && DigitVal(c) == d
  {
    if IsHex(c) {
      assert LOWER[HexVal(c)] == c || UPPER[HexVal(c)] == c;
    }
    if IsDigit(c) {
      assert "0123456789"[DigitVal(c)] == c;
    }
  }

  /** One more digit multiplies by the base and adds the digit's index. */
  lemma OneMorePlace(s: string, d: nat)
    ensures IsDigits(s) && d < 10 ==>
              IsDigits(s + [LOWER[d]]) && DecValue(s + [LOWER[d]]) == 10 * DecValue(s) + d
    ensures IsHexDigits(s) && d < 16 ==>
              && IsHexDigits(s + [LOWER[d]]) && HexValue(s + [LOWER[d]]) == 16 * HexValue(s) + d
              && IsHexDigits(s + [UPPER[d]]) && HexValue(s + [UPPER[d]]) == 16 * HexValue(s) + d
    ensures DecValue("") == HexValue("") == 0
  {
    if d < 16 {
      DigitIsIndex(LOWER[d]);
      DigitIsIndex(UPPER[d]);
      assert (s + [LOWER[d]])[..|s|] == s && (s + [UPPER[d]])[..|s|] == s;
    }
  }

  /** More digits never make a numeral smaller. */
  lemma {:induction false} DecGrows(s: string, i: nat)
    requires IsDigits(s) && i <= |s|
    ensures DecValue(s[..i]) <= DecValue(s)
    decreases |s|
  {
    if i == |s| {
      assert s[..i] == s;
    } else {
      DecGrows(s[..|s| - 1], i);
      assert s[..|s| - 1][..i] == s[..i];
    }
  }

  lemma {:induction false} HexGrows(s: string, i: nat)
    requires IsHexDigits(s) && i <= |s|
    ensures HexValue(s[..i]) <= HexValue(s)
    decreases |s|
  {
    if i == |s| {
      assert s[..i] == s;
    } else {
      HexGrows(s[..|s| - 1], i);
      assert s[..|s| - 1][..i] == s[..i];
    }
  }

  /** Read as hexadecimal, a short decimal numeral stays short, leading zeros or not. */
  lemma {:induction false} HexOfDec(s: string)
    requires IsDigits(s)
    ensures DecValue(s) <= 9 ==> HexValue(s) <= 0x9
    ensures DecValue(s) <= 99 ==> HexValue(s) <= 0x99
    ensures DecValue(s) <= 999 ==> HexValue(s) <= 0x999
    ensures DecValue(s) == 0 ==> HexValue(s) == 0
    decreases |s|
  {
    if s != "" {
      HexOfDec(s[..|s| - 1]);
    }
  }

  function DigitChar(d: nat): (c: char)
    requires d < 16
    ensures IsHex(c) && HexVal(c) == d
    ensures d < 10 ==> IsDigit(c)
  {
    if d < 10 then ('0' as int + d) as char else ('a' as int + d - 10) as char
  }

  /** The conversion %u. */
  function Dec(n: nat): string {
    if n < 10 then [DigitChar(n)] else Dec(n / 10) + [DigitChar(n % 10)]
  }

  /** The conversion %x. */
  function Hex(n: nat): string {
    if n < 16 then [DigitChar(n)] else Hex(n / 16) + [DigitChar(n % 16)]
  }

  lemma {:induction false} DecRoundTrip(n: nat)
    ensures |Dec(n)| >= 1 && IsDigits(Dec(n)) && DecValue(Dec(n)) == n
    ensures n != 0 ==> Dec(n)[0] != '0'
  {
    if n < 10 {
      assert DecValue("") == 0;
    } else {
      DecRoundTrip(n / 10);
      DecStep(Dec(n / 10), n % 10);
    }
  }

  lemma DecStep(s: string, d: nat)
    requires IsDigits(s) && d < 10
    ensures IsDigits(s + [DigitChar(d)])
    ensures DecValue(s + [DigitChar(d)]) == DecValue(s) * 10 + d
  {
    assert (s + [DigitChar(d)])[..|s|] == s;
  }

  lemma DecLength(n: nat)
    requires n < 1000
    ensures 1 <= |Dec(n)| <= 3
  {
    if n >= 100 {
      assert n / 10 >= 10 && n / 10 / 10 < 10;
      assert Dec(n / 10) == Dec(n / 10 / 10) + [DigitChar(n / 10 % 10)];
    } else if n >= 10 {
      assert n / 10 < 10;
    }
  }

  predicate IsLowerHex(s: string) {
    forall c | c in s :: IsDigit(c) || 'a' <= c <= 'f'
  }

  /** What %x writes: lower case, no leading zero, and read back exactly
      (sections 4.1 and 4.3 of RFC 5952). */
  lemma {:induction false} HexRoundTrip(n: nat)
    ensures IsHexDigits(Hex(n)) && HexValue(Hex(n)) == n && |Hex(n)| >= 1
    ensures IsLowerHex(Hex(n))
    ensures Hex(n)[0] == '0' ==> Hex(n) == "0"
    ensures n == 0 <==> Hex(n) == "0"
  {
    if n < 16 {
      assert HexValue("") == 0;
    } else {
      HexRoundTrip(n / 16);
      HexStep(Hex(n / 16), n % 16);
    }
  }

  lemma HexStep(s: string, d: nat)
    requires IsHexDigits(s) && d < 16
    ensures IsHexDigits(s + [DigitChar(d)])
    ensures HexValue(s + [DigitChar(d)]) == HexValue(s) * 16 + d
  {
    assert (s + [DigitChar(d)])[..|s|] == s;
  }

  lemma {:induction false} HexLength(n: nat, d: nat, bound: nat)
    requires d >= 1 && n < bound && bound == Pow16(d)
    ensures |Hex(n)| <= d
    decreases d
  {
    if n >= 16 {
      assert d >= 2;
      HexLength(n / 16, d - 1, Pow16(d - 1));
    }
  }

  function Pow16(d: nat): nat {
    if d == 0 then 1 else 16 * Pow16(d - 1)
  }
}
