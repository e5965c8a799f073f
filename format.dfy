/** Number formatting as the encoder uses it: String.format("%X") with zero
    padding, and the decimal text of Integer.toString; with the parsers that read
    them back. */
module Format {

  // ---------------------------------------------------------------------------
  // Hexadecimal
  // ---------------------------------------------------------------------------

  predicate IsHexDigit(c: char) { '0' <= c <= '9' || 'A' <= c <= 'F' }

  predicate AllHexDigits(s: string) { forall i :: 0 <= i < |s| ==> IsHexDigit(s[i]) }

  function HexDigit(d: nat): (c: char)
    requires d < 16
    ensures IsHexDigit(c)
  {
    if d < 10 then ('0' as int + d) as char else ('A' as int + d - 10) as char
  }

  function HexDigitValue(c: char): (d: nat)
    requires IsHexDigit(c)
    ensures d < 16 && HexDigit(d) == c
  {
    if c <= '9' then c as int - '0' as int else c as int - 'A' as int + 10
  }

  /** The value of a string of upper-case hexadecimal digits. */
  function HexValue(s: string): nat
    requires AllHexDigits(s)
  {
    if s == [] then 0 else 16 * HexValue(s[..|s| - 1]) + HexDigitValue(s[|s| - 1])
  }

  /** Upper-case hexadecimal with no leading zero ("0" for zero): the %X conversion. */
  function Hex(n: nat): (r: string)
    ensures 1 <= |r| && AllHexDigits(r)
    decreases n
  {
    if n < 16 then [HexDigit(n)] else Hex(n / 16) + [HexDigit(n % 16)]
  }

  function Pow16(k: nat): (p: nat)
    ensures p >= 1
  {
    if k == 0 then 1 else 16 * Pow16(k - 1)
  }

  /** Reading the digits of Hex back gives the number, and Hex has at most k
      digits exactly when the number is below 16^k. */
  lemma {:induction false} HexRoundTrip(n: nat)
    ensures HexValue(Hex(n)) == n
    ensures forall k: nat :: k >= 1 ==> (|Hex(n)| <= k <==> n < Pow16(k))
    decreases n
  {
    if n >= 16 {
      HexRoundTrip(n / 16);
      var h := Hex(n);
      assert h[..|h| - 1] == Hex(n / 16);
      forall k: nat | k >= 1
        ensures |Hex(n)| <= k <==> n < Pow16(k)
      {
        if k == 1 {
          assert |Hex(n)| >= 2;
        } else {
          assert Pow16(k) == 16 * Pow16(k - 1);
        }
      }
    } else {
      forall k: nat | k >= 1
        ensures n < Pow16(k)
      {
        Pow16AtLeast16(k);
      }
    }
  }

  lemma {:induction false} Pow16AtLeast16(k: nat)
    requires k >= 1
    ensures Pow16(k) >= 16
  {
    if k > 1 {
      Pow16AtLeast16(k - 1);
    }
  }

  /** s preceded by as many '0' as it takes to reach width characters. */
  function PadZeros(s: string, width: nat): (r: string)
    ensures |r| == if |s| >= width then |s| else width
    ensures r[|r| - |s|..] == s
    ensures forall i :: 0 <= i < |r| - |s| ==> r[i] == '0'
  {
    if |s| >= width then s else seq(width - |s|, _ => '0') + s
  }

  /** Leading zeros do not change the value of a hexadecimal string. */
  lemma {:induction false} HexValueLeadingZeros(s: string, z: nat)
    requires AllHexDigits(s)
    ensures AllHexDigits(seq(z, _ => '0') + s)
    ensures HexValue(seq(z, _ => '0') + s) == HexValue(s)
    decreases |s|
  {
    var t := seq(z, _ => '0') + s;
    if s == [] {
      assert t == seq(z, _ => '0');
      ZerosValue(z);
    } else {
      assert t[..|t| - 1] == seq(z, _ => '0') + s[..|s| - 1];
      HexValueLeadingZeros(s[..|s| - 1], z);
    }
  }

  lemma {:induction false} ZerosValue(z: nat)
    ensures AllHexDigits(seq(z, _ => '0'))
    ensures HexValue(seq(z, _ => '0')) == 0
  {
    if z > 0 {
      assert seq(z, _ => '0')[..z - 1] == seq(z - 1, _ => '0');
      ZerosValue(z - 1);
    }
  }

  /** String.format("%0<width>X", n): upper-case hexadecimal, zero-padded to at
      least width digits and wider when the number needs it. Reading it back
      gives n. */
  function HexPadded(n: nat, width: nat): (r: string)
    ensures AllHexDigits(r) && HexValue(r) == n
    ensures |r| == if |Hex(n)| >= width then |Hex(n)| else width
  {
    HexRoundTrip(n);
    var h := Hex(n);
    HexValueLeadingZeros(h, if |h| < width then width - |h| else 0);
    assert |h| < width ==> PadZeros(h, width) == seq(width - |h|, _ => '0') + h;
    assert seq(0, _ => '0') + h == h;
    PadZeros(h, width)
  }

  // ---------------------------------------------------------------------------
  // Decimal
  // ---------------------------------------------------------------------------

  predicate AllDecimalDigits(s: string) { forall i :: 0 <= i < |s| ==> '0' <= s[i] <= '9' }

  /** The value of a string of decimal digits. */
  function DecimalValue(s: string): nat
    requires AllDecimalDigits(s)
  {
    if s == [] then 0 else 10 * DecimalValue(s[..|s| - 1]) + (s[|s| - 1] as int - '0' as int)
  }

  /** Integer.toString for a non-negative number: its decimal digits, no leading zero. */
  function Decimal(n: nat): (r: string)
    ensures 1 <= |r| && AllDecimalDigits(r)
    decreases n
  {
    if n < 10 then [('0' as int + n) as char]
    else Decimal(n / 10) + [('0' as int + n % 10) as char]
  }

  /** Reading the decimal digits back gives the number. */
  lemma {:induction false} DecimalRoundTrip(n: nat)
    ensures DecimalValue(Decimal(n)) == n
    decreases n
  {
    if n >= 10 {
      DecimalRoundTrip(n / 10);
      var d := Decimal(n);
      assert d[..|d| - 1] == Decimal(n / 10);
    }
  }
}
