/** The text that accel_read formats with `sprintf(reg_read, "%d %d %d %d %d\n", ...)`. */
module Decimal {
  import opened Registers
  import opened Sample

  function DigitChar(d: nat): (c: char)
    requires d < 10
    ensures '0' <= c <= '9' && c as int - '0' as int == d
  {
    (d + '0' as int) as char
  }

  predicate AllDigits(s: string)
  {
    forall i | 0 <= i < |s| :: '0' <= s[i] <= '9'
  }

  /** `%d` of a non-negative value: most significant digit first, no leading zeros. */
  function NatToString(n: nat): (s: string)
    ensures 1 <= |s| && AllDigits(s)
    ensures |s| > 1 ==> s[0] != '0'
    decreases n
  {
    if n < 10 then [DigitChar(n)] else NatToString(n / 10) + [DigitChar(n % 10)]
  }

  /** Digits as `%d` prints them: at least one, and no leading zero. */
  predicate Canonical(d: string)
  {
    1 <= |d| && AllDigits(d) && (|d| > 1 ==> d[0] != '0')
  }

  /** `%d` of any int: a minus sign for a negative value, then the digits of its magnitude. */
  function IntToString(n: int): (s: string)
    ensures 1 <= |s| && '\0' !in s
    ensures n >= 0 ==> Canonical(s) && DigitsValue(s) == n
    ensures n < 0 ==> s[0] == '-' && Canonical(s[1..]) && DigitsValue(s[1..]) == -n
  {
    if n < 0 then
      NatToStringValue(-n);
      assert ("-" + NatToString(-n))[1..] == NatToString(-n);
      "-" + NatToString(-n)
    else
      NatToStringValue(n);
      NatToString(n)
  }

  /** `%d` never pads with zeros: the first digit is '0' only for the value 0 itself. */
  lemma IntToStringNoLeadingZero(n: int)
    ensures n >= 0 ==> (|IntToString(n)| > 1 ==> IntToString(n)[0] != '0')
    ensures n < 0 ==> |IntToString(n)| >= 2 && IntToString(n)[1] != '0'
  {
    if n < 0 {
      var d := IntToString(n)[1..];
      assert d[0] == IntToString(n)[1];
      if |d| == 1 {
        assert DigitsValue(d) == DigitsValue(d[..0]) * 10 + (d[0] as int - '0' as int);
      }
    }
  }

  /** The number a string of decimal digits denotes (the inverse of NatToString). */
  function DigitsValue(s: string): nat
    requires AllDigits(s)
  {
    if s == [] then 0 else DigitsValue(s[..|s| - 1]) * 10 + (s[|s| - 1] as int - '0' as int)
  }

  lemma {:induction false} NatToStringValue(n: nat)
    ensures DigitsValue(NatToString(n)) == n
    decreases n
  {
    if n >= 10 {
      var s := NatToString(n);
      assert s[..|s| - 1] == NatToString(n / 10);
      NatToStringValue(n / 10);
    }
  }

  function Pow10(k: nat): (p: nat)
    ensures p >= 1
  {
    if k == 0 then 1 else 10 * Pow10(k - 1)
  }

  lemma {:induction false} NatToStringLength(n: nat, k: nat)
    requires 1 <= k && n < Pow10(k)
    ensures |NatToString(n)| <= k
    decreases k
  {
    if n >= 10 {
      NatToStringLength(n / 10, k - 1);
    }
  }

  /** An s16 prints in at most six characters ("-32768"). */
  lemma Int16Width(n: Int16)
    ensures |IntToString(n)| <= 6
  {
    assert Pow10(5) == 100000;
    if n < 0 {
      NatToStringLength(-(n as int), 5);
    } else {
      NatToStringLength(n, 5);
    }
  }

  /** The line "<new_data> <xmg> <ymg> <zmg> <mg_per_lsb>\n". */
  function FormatLine(newData: Int16, xmg: Int16, ymg: Int16, zmg: Int16, mgPerLsb: Byte): string
  {
    IntToString(newData) + " " + IntToString(xmg) + " " + IntToString(ymg) + " "
      + IntToString(zmg) + " " + IntToString(mgPerLsb) + "\n"
  }

  /** With a 0/1 flag and a one-digit scale the line has at most 25 characters and no NUL, so it
      and its terminating NUL fit in the 32-byte reg_read buffer. */
  lemma LineFits(newData: Int16, xmg: Int16, ymg: Int16, zmg: Int16, mgPerLsb: Byte)
    requires 0 <= newData <= 1 && mgPerLsb < 10
    ensures 10 <= |FormatLine(newData, xmg, ymg, zmg, mgPerLsb)| <= 25
    ensures '\0' !in FormatLine(newData, xmg, ymg, zmg, mgPerLsb)
  {
    var a, b, c := IntToString(newData), IntToString(xmg), IntToString(ymg);
    var d, e := IntToString(zmg), IntToString(mgPerLsb);
    Int16Width(xmg);
    Int16Width(ymg);
    Int16Width(zmg);
    assert |a| == 1 && |e| == 1;
    assert FormatLine(newData, xmg, ymg, zmg, mgPerLsb) == a + " " + b + " " + c + " " + d + " " + e + "\n";
  }
}
