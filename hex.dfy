// Hexadecimal text as the Python code produces and reads it: `hex(n)`,
// `str.zfill`, `'%016x' % n` (the formatting behind ryu's dpid_to_str and
// port_no_to_str) and `int(text, 16)`.

module HexStrings {
  import opened Common

  predicate IsHexDigit(c: char)
  {
    '0' <= c <= '9' || 'a' <= c <= 'f' || 'A' <= c <= 'F'
  }

  predicate AllHex(s: string)
  {
    forall i :: 0 <= i < |s| ==> IsHexDigit(s[i])
  }

  function HexDigitValue(c: char): (d: nat)
    requires IsHexDigit(c)
    ensures d < 16
  {
    if '0' <= c <= '9' then c as int - 48 else if 'a' <= c <= 'f' then c as int - 87 else c as int - 55
  }

  /** The digit d in upper or lower case. */
  function HexChar(d: nat, upper: bool): (c: char)
    requires d < 16
    ensures IsHexDigit(c) && HexDigitValue(c) == d
    ensures d >= 10 ==> (if upper then 'A' <= c <= 'F' else 'a' <= c <= 'f')
  {
    if d < 10 then (48 + d) as char else if upper then (55 + d) as char else (87 + d) as char
  }

  /** The hexadecimal digits of n, most significant first, without leading zeros. */
  function NatToHex(n: nat, upper: bool): (s: string)
    ensures |s| >= 1 && AllHex(s)
    ensures |s| > 1 ==> s[0] != '0'
  {
    if n < 16 then [HexChar(n, upper)] else NatToHex(n / 16, upper) + [HexChar(n % 16, upper)]
  }

  /** The value of a string of hexadecimal digits in either case. */
  function HexValue(s: string): nat
    requires AllHex(s)
  {
    if s == [] then 0 else HexValue(s[..|s| - 1]) * 16 + HexDigitValue(s[|s| - 1])
  }

  lemma {:induction false} NatToHexRoundTrip(n: nat, upper: bool)
    ensures HexValue(NatToHex(n, upper)) == n
  {
    if n >= 16 {
      var s := NatToHex(n, upper);
      assert s[..|s| - 1] == NatToHex(n / 16, upper);
      NatToHexRoundTrip(n / 16, upper);
    }
  }

  function Pow16(k: nat): (p: nat)
    ensures p >= 1
  {
    if k == 0 then 1 else 16 * Pow16(k - 1)
  }

  /** n needs at most k hexadecimal digits exactly when it is below 16^k. */
  lemma {:induction false} NatToHexLength(n: nat, upper: bool, k: nat)
    requires k >= 1 && n < Pow16(k)
    ensures |NatToHex(n, upper)| <= k
  {
    if n >= 16 {
      assert k >= 2;
      assert n / 16 < Pow16(k - 1);
      NatToHexLength(n / 16, upper, k - 1);
    }
  }

  /** A run of k zero characters. */
  function Zeros(k: nat): (z: string)
    ensures |z| == k && forall i :: 0 <= i < k ==> z[i] == '0'
  {
    if k == 0 then [] else Zeros(k - 1) + ['0']
  }

  lemma {:induction false} HexValueLeadingZeros(k: nat, s: string)
    requires AllHex(s)
    ensures AllHex(Zeros(k) + s) && HexValue(Zeros(k) + s) == HexValue(s)
  {
    if s != [] {
      var init := s[..|s| - 1];
      HexValueLeadingZeros(k, init);
      assert (Zeros(k) + s)[..|Zeros(k) + s| - 1] == Zeros(k) + init;
    } else {
      ZerosValue(k);
      assert Zeros(k) + s == Zeros(k);
    }
  }

  lemma {:induction false} ZerosValue(k: nat)
    ensures AllHex(Zeros(k)) && HexValue(Zeros(k)) == 0
  {
    if k > 0 {
      ZerosValue(k - 1);
      assert Zeros(k)[..k - 1] == Zeros(k - 1);
    }
  }

  /**
   * `s.zfill(width)`: left-padded with '0' to width, the padding going after
   * a leading sign.
   */
  function ZFill(s: string, width: int): (t: string)
    ensures |t| == if |s| >= width then |s| else width
  {
    if |s| >= width then s
    else if s != [] && (s[0] == '-' || s[0] == '+') then [s[0]] + Zeros(width - |s|) + s[1..]
    else Zeros(width - |s|) + s
  }

  /** The hexadecimal digits of an integer with a '-' in front when it is negative. */
  function SignedHex(n: int, upper: bool): string
  {
    if n < 0 then "-" + NatToHex(-n, upper) else NatToHex(n, upper)
  }

  /** `'%016x' % n`, ryu's dpid_to_str. */
  function DpidToStr(n: int): string
  {
    ZFill(SignedHex(n, false), 16)
  }

  /** `'%08x' % n`, ryu's port_no_to_str. */
  function PortNoToStr(n: int): string
  {
    ZFill(SignedHex(n, false), 8)
  }

  /**
   * `int(s, 16)`: surrounding whitespace, an optional sign and at least one
   * hexadecimal digit; anything else is a ValueError (None). Python also
   * takes a `0x` prefix and underscores between digits; those strings are
   * rejected here.
   */
  function ParseHexInt(s: string): Option<int>
  {
    var t := TrimRight(TrimLeft(s));
    if |t| >= 1 && AllHex(t) then Some(HexValue(t))
    else if |t| >= 2 && (t[0] == '-' || t[0] == '+') && AllHex(t[1..]) then
      var v: int := HexValue(t[1..]);
      if t[0] == '-' then Some(-v) else Some(v)
    else None
  }

  lemma ParseUnsigned(t: string)
    requires |t| >= 1 && AllHex(t)
    ensures ParseHexInt(t) == Some(HexValue(t))
  {
    TrimOfNonSpace(t);
  }

  lemma ParseNegative(t: string)
    requires |t| >= 2 && t[0] == '-' && AllHex(t[1..])
    ensures ParseHexInt(t) == Some(-(HexValue(t[1..]) as int))
  {
    assert !IsHexDigit(t[0]);
    TrimOfNonSpace(t);
  }

  /** Zero-filling a digit string puts the zeros in front. */
  lemma ZFillDigits(d: string, width: int)
    requires |d| >= 1 && AllHex(d)
    ensures ZFill(d, width) == Zeros(if |d| >= width then 0 else width - |d|) + d
  {
    assert IsHexDigit(d[0]);
  }

  /** Zero-filling a negative rendering puts the zeros after the sign. */
  lemma ZFillNegative(d: string, width: int)
    requires AllHex(d)
    ensures var z := ZFill("-" + d, width);
      |z| >= 1 && z[0] == '-' && z[1..] == Zeros(if |d| + 1 >= width then 0 else width - |d| - 1) + d
  {
    var h := "-" + d;
    assert h[0] == '-' && h[1..] == d;
    if |h| < width {
      var z := [h[0]] + Zeros(width - |h|) + h[1..];
      assert ZFill(h, width) == z;
      assert z[1..] == Zeros(width - |h|) + d;
    } else {
      assert Zeros(0) + d == d;
    }
  }

  /** Reading back a zero-filled signed hexadecimal rendering gives the number. */
  lemma ParseFormatted(n: int, width: int, upper: bool)
    ensures ParseHexInt(ZFill(SignedHex(n, upper), width)) == Some(n)
  {
    if n < 0 {
      ParseFormattedNegative(n, width, upper);
    } else {
      var digits := NatToHex(n, upper);
      NatToHexRoundTrip(n, upper);
      var pad: nat := if |digits| >= width then 0 else width - |digits|;
      PaddedValue(pad, n, upper);
      ZFillDigits(digits, width);
      ParseUnsigned(Zeros(pad) + digits);
    }
  }

  lemma ParseFormattedNegative(n: int, width: int, upper: bool)
    requires n < 0
    ensures ParseHexInt(ZFill(SignedHex(n, upper), width)) == Some(n)
  {
    var m: nat := -n;
    var z := ZFill("-" + NatToHex(m, upper), width);
    assert SignedHex(n, upper) == "-" + NatToHex(m, upper);
    assert ZFill(SignedHex(n, upper), width) == z;
    NegativeFilled(m, width, upper);
    assert |z| >= 2 && z[0] == '-' && AllHex(z[1..]) && HexValue(z[1..]) == m;
    ParseNegative(z);
    assert ParseHexInt(z) == Some(n);
  }

  /** A zero-filled negative rendering is a '-' followed by digits worth the magnitude. */
  lemma NegativeFilled(m: nat, width: int, upper: bool)
    ensures var z := ZFill("-" + NatToHex(m, upper), width);
      |z| >= 2 && z[0] == '-' && AllHex(z[1..]) && HexValue(z[1..]) == m
  {
    var digits := NatToHex(m, upper);
    var pad: nat := if |digits| + 1 >= width then 0 else width - |digits| - 1;
    PaddedValue(pad, m, upper);
    ZFillNegative(digits, width);
  }

  /** Leading zeros do not change the value of a rendering. */
  lemma PaddedValue(pad: nat, m: nat, upper: bool)
    ensures AllHex(Zeros(pad) + NatToHex(m, upper)) && HexValue(Zeros(pad) + NatToHex(m, upper)) == m
  {
    NatToHexRoundTrip(m, upper);
    HexValueLeadingZeros(pad, NatToHex(m, upper));
  }

  /** Every dpid rendering reads back as the dpid. */
  lemma DpidToStrRoundTrip(n: int)
    ensures ParseHexInt(DpidToStr(n)) == Some(n)
  {
    ParseFormatted(n, 16, false);
  }

  /**
   * `int_to_16bit_hex_string(n)`: `hex(n)[2:].upper().zfill(16)`. For a
   * negative n, `hex(n)` is "-0x…", so the slice keeps the 'x' (upper-cased to 'X').
   */
  function Hex16Upper(n: int): string
  {
    ZFill(if n < 0 then "X" + NatToHex(-n, true) else NatToHex(n, true), 16)
  }

  /** For 0 <= n < 16^16 the string has 16 digits, upper-case ones, and reads back as n. */
  lemma Hex16UpperRoundTrip(n: int)
    requires 0 <= n < Pow16(16)
    ensures |Hex16Upper(n)| == 16
    ensures forall i :: 0 <= i < 16 ==> !('a' <= Hex16Upper(n)[i] <= 'f')
    ensures ParseHexInt(Hex16Upper(n)) == Some(n)
  {
    NatToHexLength(n, true, 16);
    assert Hex16Upper(n) == ZFill(SignedHex(n, true), 16);
    ParseFormatted(n, 16, true);
    UpperDigits(n);
    NoLowerPadded(NatToHex(n, true), 16);
  }

  /** Zero-filling adds no lower-case letters. */
  lemma NoLowerPadded(d: string, width: int)
    requires |d| >= 1 && AllHex(d)
    requires forall i :: 0 <= i < |d| ==> !('a' <= d[i] <= 'f')
    ensures forall i :: 0 <= i < |ZFill(d, width)| ==> !('a' <= ZFill(d, width)[i] <= 'f')
  {
    ZFillDigits(d, width);
    var k: nat := if |d| >= width then 0 else width - |d|;
    var z := Zeros(k) + d;
    forall i | 0 <= i < |z|
      ensures !('a' <= z[i] <= 'f')
    {
      if i >= k {
        assert z[i] == d[i - k];
      }
    }
  }

  lemma {:induction false} UpperDigits(n: nat)
    ensures forall i :: 0 <= i < |NatToHex(n, true)| ==> !('a' <= NatToHex(n, true)[i] <= 'f')
  {
    if n >= 16 {
      UpperDigits(n / 16);
    }
  }

  /** Distinct node numbers in range give distinct 16-digit dpid strings. */
  lemma Hex16UpperInjective(a: int, b: int)
    requires 0 <= a < Pow16(16) && 0 <= b < Pow16(16)
    requires Hex16Upper(a) == Hex16Upper(b)
    ensures a == b
  {
    Hex16UpperRoundTrip(a);
    Hex16UpperRoundTrip(b);
  }

  /** ASCII `str.lower()`. */
  function Lower(s: string): (t: string)
    ensures |t| == |s|
    ensures forall i :: 0 <= i < |s| ==> t[i] == (if 'A' <= s[i] <= 'Z' then (s[i] as int + 32) as char else s[i])
  {
    if s == [] then [] else Lower(s[..|s| - 1]) + [if 'A' <= s[|s| - 1] <= 'Z' then (s[|s| - 1] as int + 32) as char else s[|s| - 1]]
  }
}
