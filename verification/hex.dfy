/** Number-to-text rendering used by the encoder: JavaScript's
    `toString(16)` on integers, the `0x` prefix test, and a reader that
    recovers the number from what the encoder writes. */
module HexFormat {
  import opened Wrappers

  predicate IsHexDigit(c: char) {
    '0' <= c <= '9' || 'a' <= c <= 'f'
  }

  /** A non-empty run of lower-case hexadecimal digits. */
  predicate IsHexNumeral(t: string) {
    |t| > 0 && forall i :: 0 <= i < |t| ==> IsHexDigit(t[i])
  }

  /** `s.startsWith("0x")`. */
  predicate HasHexPrefix(s: string) {
    |s| >= 2 && s[0] == '0' && s[1] == 'x'
  }

  function DigitChar(d: nat): (c: char)
    requires d < 16
    ensures IsHexDigit(c)
  {
    "0123456789abcdef"[d]
  }

  function DigitValue(c: char): nat
    requires IsHexDigit(c)
  {
    if c <= '9' then c as int - '0' as int else c as int - 'a' as int + 10
  }

  /** Each digit reads back as the value it was written for. */
  lemma DigitRoundTrip(d: nat)
    requires d < 16
    ensures DigitValue(DigitChar(d)) == d
  {
  }

  /** `n.toString(16)` for a non-negative integer: its base-16 digits,
      most significant first. */
  function HexNat(n: nat): string
    decreases n
  {
    if n < 16 then [DigitChar(n)] else HexNat(n / 16) + [DigitChar(n % 16)]
  }

  /** What `toString(16)` writes is a non-empty run of lower-case hex
      digits with no leading zero, except for zero itself. */
  lemma {:induction false} HexNatDigits(n: nat)
    ensures IsHexNumeral(HexNat(n))
    ensures |HexNat(n)| > 1 ==> HexNat(n)[0] != '0'
    decreases n
  {
    if n >= 16 {
      HexNatDigits(n / 16);
      var init := HexNat(n / 16);
      var t := init + [DigitChar(n % 16)];
      assert t[0] == init[0];
      if |init| == 1 {
        assert init == [DigitChar(n / 16)];
      }
    }
  }

  /** `n.toString(16)` for any integer: a negative number is rendered as a
      minus sign followed by the digits of its magnitude. */
  function Hex(n: int): string {
    if n < 0 then "-" + HexNat(-n) else HexNat(n)
  }

  /** The value of a run of hexadecimal digits. */
  function ParseHex(t: string): nat
    requires forall i :: 0 <= i < |t| ==> IsHexDigit(t[i])
  {
    if t == [] then 0 else ParseHex(t[..|t| - 1]) * 16 + DigitValue(t[|t| - 1])
  }

  /** Reads back a witness value written for a number: `0x`, an optional
      minus sign, then hexadecimal digits. */
  function DecodeScalar(s: string): Option<int> {
    if !HasHexPrefix(s) then None
    else
      var d := s[2..];
      if |d| > 0 && d[0] == '-' then
        if IsHexNumeral(d[1..]) then Some(0 - ParseHex(d[1..]) as int) else None
      else if IsHexNumeral(d) then Some(ParseHex(d))
      else None
  }

  lemma {:induction false} HexNatRoundTrip(n: nat)
    ensures IsHexNumeral(HexNat(n)) && ParseHex(HexNat(n)) == n
    decreases n
  {
    HexNatDigits(n);
    if n < 16 {
      DigitRoundTrip(n);
    } else {
      var init := HexNat(n / 16);
      var t := init + [DigitChar(n % 16)];
      assert t[..|t| - 1] == init;
      HexNatRoundTrip(n / 16);
      DigitRoundTrip(n % 16);
    }
  }

  /** `0x` followed by digits reads back as their value. */
  lemma DecodeNonNegative(h: string)
    requires IsHexNumeral(h)
    ensures DecodeScalar("0x" + h) == Some(ParseHex(h))
  {
    var s := "0x" + h;
    assert s[..2] == "0x";
    assert s[2..] == h;
    assert IsHexDigit(h[0]);
  }

  /** `0x-` followed by digits reads back as the negated value. */
  lemma DecodeNegative(h: string)
    requires IsHexNumeral(h)
    ensures DecodeScalar("0x" + ("-" + h)) == Some(0 - ParseHex(h) as int)
  {
    var s := "0x" + ("-" + h);
    assert s[..2] == "0x";
    assert s[2..] == "-" + h;
    assert s[2..][1..] == h;
  }

  /** Every number the encoder renders is read back exactly. */
  lemma ScalarRoundTrip(n: int)
    ensures DecodeScalar("0x" + Hex(n)) == Some(n)
  {
    if n < 0 {
      var m: nat := -n;
      HexNatRoundTrip(m);
      DecodeNegative(HexNat(m));
      assert Hex(n) == "-" + HexNat(m);
    } else {
      HexNatRoundTrip(n);
      DecodeNonNegative(HexNat(n));
    }
  }
}
