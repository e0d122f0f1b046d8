/** Number formatting as done by `QString("%1").arg(value, width, base, QChar('0'))`:
    decimal for `int` values and lower-case, zero-padded hexadecimal for unsigned
    values. Each formatter comes with the parser that inverts it. */
module Format {
  import opened Text

  function Max(a: int, b: int): int { if a < b then b else a }

  function Pow16(n: nat): (p: nat)
    ensures p >= 1
  {
    if n == 0 then 1 else 16 * Pow16(n - 1)
  }

  lemma Pow16Monotone(a: nat, b: nat)
    requires a <= b
    ensures Pow16(a) <= Pow16(b)
  {
    if a < b {
      Pow16Monotone(a, b - 1);
    }
  }

  /* ---------------- hexadecimal ---------------- */

  predicate IsHexDigit(c: char)
  {
    ('0' <= c <= '9') || ('a' <= c <= 'f')
  }

  predicate IsHexString(s: string)
  {
    forall i :: 0 <= i < |s| ==> IsHexDigit(s[i])
  }

  function HexDigit(d: nat): (c: char)
    requires d < 16
    ensures IsHexDigit(c)
  {
    if d < 10 then ('0' as int + d) as char else ('a' as int + d - 10) as char
  }

  function HexDigitValue(c: char): (d: nat)
    requires IsHexDigit(c)
    ensures d < 16
  {
    if c <= '9' then c as int - '0' as int else c as int - 'a' as int + 10
  }

  lemma HexDigitRoundTrip(d: nat)
    requires d < 16
    ensures HexDigitValue(HexDigit(d)) == d
  {
  }

  /** The shortest hexadecimal spelling of `n`: "0" for zero, otherwise no leading zero. */
  function ToHex(n: nat): (s: string)
    ensures |s| >= 1
    ensures IsHexString(s)
    decreases n
  {
    if n < 16 then [HexDigit(n)] else ToHex(n / 16) + [HexDigit(n % 16)]
  }

  /** The value of a string of hexadecimal digits, most significant first. */
  function HexValue(s: string): nat
    requires IsHexString(s)
    decreases |s|
  {
    if |s| == 0 then 0 else 16 * HexValue(s[..|s| - 1]) + HexDigitValue(s[|s| - 1])
  }

  lemma {:induction false} HexValueBound(s: string)
    requires IsHexString(s)
    ensures HexValue(s) < Pow16(|s|)
  {
    if |s| > 0 {
      HexValueBound(s[..|s| - 1]);
    }
  }

  lemma {:induction false} ToHexRoundTrip(n: nat)
    ensures HexValue(ToHex(n)) == n
    decreases n
  {
    if n >= 16 {
      ToHexRoundTrip(n / 16);
      var s := ToHex(n);
      assert s[..|s| - 1] == ToHex(n / 16);
      HexDigitRoundTrip(n % 16);
    } else {
      HexDigitRoundTrip(n);
    }
  }

  /** `ToHex(n)` has at most `w` digits exactly when `n` is below 16^w. */
  lemma {:induction false} ToHexLength(n: nat, w: nat)
    requires w >= 1
    ensures |ToHex(n)| <= w <==> n < Pow16(w)
    decreases n
  {
    if n >= 16 {
      if w == 1 {
        Pow16Monotone(0, 0);
      } else {
        ToHexLength(n / 16, w - 1);
      }
    }
  }

  /** Zero padding on the left: `"0".repeat(width - |s|) + s`. */
  function PadZeros(s: string, width: nat): (r: string)
    ensures |r| == Max(width, |s|)
    ensures r == seq(|r| - |s|, _ => '0') + s
  {
    if width <= |s| then s else seq(width - |s|, _ => '0') + s
  }

  lemma {:induction false} LeadingZerosKeepValue(z: nat, s: string)
    requires IsHexString(s)
    ensures IsHexString(seq(z, _ => '0') + s)
    ensures HexValue(seq(z, _ => '0') + s) == HexValue(s)
    decreases |s|, z
  {
    var zs := seq(z, _ => '0');
    if |s| == 0 {
      assert zs + s == zs;
      if z > 0 {
        LeadingZerosKeepValue(z - 1, s);
        assert zs[..|zs| - 1] == seq(z - 1, _ => '0') + s;
      }
    } else {
      LeadingZerosKeepValue(z, s[..|s| - 1]);
      assert (zs + s)[..|zs + s| - 1] == zs + s[..|s| - 1];
    }
  }

  /** `QString("%1").arg(n, width, 16, QChar('0'))`: lower-case hexadecimal of `n`,
      zero-padded on the left to at least `width` characters. */
  function Hex(n: nat, width: nat): (r: string)
    ensures IsHexString(r)
    ensures |r| == Max(width, |ToHex(n)|)
    ensures HexValue(r) == n
  {
    var digits := ToHex(n);
    var r := PadZeros(digits, width);
    LeadingZerosKeepValue(|r| - |digits|, digits);
    ToHexRoundTrip(n);
    r
  }

  /** The padded form has exactly `width` digits whenever the value fits in them. */
  lemma HexExactWidth(n: nat, width: nat)
    requires width >= 1 && n < Pow16(width)
    ensures |Hex(n, width)| == width
  {
    ToHexLength(n, width);
  }

  /* ---------------- decimal ---------------- */

  predicate IsDecimalDigit(c: char)
  {
    '0' <= c <= '9'
  }

  predicate IsDigits(s: string)
  {
    forall i :: 0 <= i < |s| ==> IsDecimalDigit(s[i])
  }

  function NatToDecimal(n: nat): (s: string)
    ensures |s| >= 1
    ensures IsDigits(s)
    decreases n
  {
    if n < 10 then [('0' as int + n) as char]
    else NatToDecimal(n / 10) + [('0' as int + n % 10) as char]
  }

  function DigitsValue(s: string): nat
    requires IsDigits(s)
    decreases |s|
  {
    if |s| == 0 then 0 else 10 * DigitsValue(s[..|s| - 1]) + (s[|s| - 1] as int - '0' as int)
  }

  /** `QString("%1").arg(i)` for a signed integer: a leading '-' for negative values. */
  function Decimal(i: int): (s: string)
    ensures |s| >= 1
    ensures forall k :: 0 <= k < |s| ==> IsDecimalDigit(s[k]) || s[k] == '-'
  {
    if i < 0 then "-" + NatToDecimal(-i) else NatToDecimal(i)
  }

  /** An optional '-' followed by decimal digits. */
  predicate IsDecimalText(s: string)
  {
    && |s| >= 1
    && (s[0] == '-' ==> IsDigits(s[1..]))
    && (s[0] != '-' ==> IsDigits(s))
  }

  /** The integer a decimal text denotes. */
  function DecimalValue(s: string): int
    requires IsDecimalText(s)
  {
    if s[0] == '-' then 0 - DigitsValue(s[1..]) as int else DigitsValue(s) as int
  }

  lemma {:induction false} NatToDecimalRoundTrip(n: nat)
    ensures DigitsValue(NatToDecimal(n)) == n
    decreases n
  {
    if n >= 10 {
      NatToDecimalRoundTrip(n / 10);
      var s := NatToDecimal(n);
      assert s[..|s| - 1] == NatToDecimal(n / 10);
    }
  }

  /** Decimal formatting loses nothing: reading the text back gives the integer. */
  lemma DecimalRoundTrip(i: int)
    ensures IsDecimalText(Decimal(i)) && DecimalValue(Decimal(i)) == i
  {
    if i < 0 {
      NatToDecimalRoundTrip(-i);
      assert Decimal(i)[1..] == NatToDecimal(-i);
    } else {
      NatToDecimalRoundTrip(i);
    }
  }

  /** Printed numbers never contain a marker character. */
  lemma DecimalFree(i: int)
    ensures NoMarkerChars(Decimal(i))
  {
  }

  lemma HexStringFree(s: string)
    requires IsHexString(s)
    ensures NoMarkerChars(s)
  {
  }
}
