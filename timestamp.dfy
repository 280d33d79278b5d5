// The probe packets of the mobility experiment: the sender puts its clock
// reading, in microseconds, into the UDP payload as one byte per decimal
// digit; the receiver folds the digits back into a number and writes a
// record. The sender also derives the destination MAC from the multicast
// group address. Clocks and packets are parameters.

module Timestamps {
  import opened Common
  import opened HexStrings

  // ---------------------------------------------------------------------
  // get_nowtime

  /** The decimal digits of n, least significant first; none for 0. */
  function LowDigitsFirst(n: nat): seq<int>
  {
    if n == 0 then [] else [n % 10] + LowDigitsFirst(n / 10)
  }

  /** The decimal digits of n, most significant first; none for 0. */
  function Digits(n: nat): seq<int>
  {
    if n == 0 then [] else Digits(n / 10) + [n % 10]
  }

  function Reverse<T>(s: seq<T>): (r: seq<T>)
    ensures |r| == |s|
  {
    if s == [] then [] else Reverse(s[1..]) + [s[0]]
  }

  lemma {:induction false} ReverseLowDigits(n: nat)
    ensures Reverse(LowDigitsFirst(n)) == Digits(n)
  {
    if n != 0 {
      var s := LowDigitsFirst(n);
      assert s[1..] == LowDigitsFirst(n / 10);
      ReverseLowDigits(n / 10);
    }
  }

  /**
   * `get_nowtime()` with the clock reading as a parameter: push `n % 10`
   * while n is not zero, then `std::reverse` the vector.
   */
  method GetNowtime(clock: nat) returns (payload: seq<int>)
    ensures payload == Digits(clock)
  {
    var vec: seq<int> := [];
    var m := clock;
    while m != 0
      invariant LowDigitsFirst(clock) == vec + LowDigitsFirst(m)
      decreases m
    {
      var t := m % 10;
      vec := vec + [t];
      m := m / 10;
    }
    assert vec + LowDigitsFirst(m) == vec;
    ReverseLowDigits(clock);
    payload := Reverse(vec);
  }

  /** Every byte is a digit, a zero reading sends nothing, and a positive one has no leading zero. */
  lemma {:induction false} DigitsShape(n: nat)
    ensures forall i :: 0 <= i < |Digits(n)| ==> 0 <= Digits(n)[i] <= 9
    ensures n == 0 <==> Digits(n) == []
    ensures n > 0 ==> Digits(n)[0] != 0
  {
    if n != 0 {
      DigitsShape(n / 10);
      if n / 10 == 0 {
        assert Digits(n) == [n % 10];
      } else {
        assert Digits(n)[0] == Digits(n / 10)[0];
      }
    }
  }

  // ---------------------------------------------------------------------
  // The receiver

  /** `pre = pre * 10 + ele` over the payload, on unbounded integers. */
  function Decode(payload: seq<int>): int
  {
    if payload == [] then 0 else Decode(payload[..|payload| - 1]) * 10 + payload[|payload| - 1]
  }

  const ULONG_MODULUS: int := 0x1_0000_0000_0000_0000

  /** The same fold in `unsigned long`, which wraps modulo 2^64. */
  function DecodeULong(payload: seq<int>): (pre: int)
    ensures 0 <= pre < ULONG_MODULUS
  {
    if payload == [] then 0 else (DecodeULong(payload[..|payload| - 1]) * 10 + payload[|payload| - 1]) % ULONG_MODULUS
  }

  /** Decoding what the sender produced gives the clock reading back. */
  lemma {:induction false} DecodeDigits(n: nat)
    ensures Decode(Digits(n)) == n
  {
    if n != 0 {
      var d := Digits(n);
      assert d[..|d| - 1] == Digits(n / 10);
      DecodeDigits(n / 10);
    }
  }

  /** The fold never wraps on a payload of digits of a reading below 2^64, so the round trip holds in `unsigned long` too. */
  lemma {:induction false} DecodeULongDigits(n: nat)
    requires n < ULONG_MODULUS
    ensures DecodeULong(Digits(n)) == n
  {
    if n != 0 {
      var d := Digits(n);
      assert d != [] && d[..|d| - 1] == Digits(n / 10) && d[|d| - 1] == n % 10;
      DecodeULongDigits(n / 10);
      var q := DecodeULong(d[..|d| - 1]);
      assert q == n / 10;
      assert q * 10 + n % 10 == n;
      DecodeULongStep(d);
      SmallModulus(n);
    }
  }

  lemma DecodeULongStep(payload: seq<int>)
    requires payload != []
    ensures DecodeULong(payload) == (DecodeULong(payload[..|payload| - 1]) * 10 + payload[|payload| - 1]) % ULONG_MODULUS
  {
  }

  lemma SmallModulus(n: int)
    requires 0 <= n < ULONG_MODULUS
    ensures n % ULONG_MODULUS == n
  {
  }

  /** An empty payload decodes to 0. */
  lemma DecodeEmpty()
    ensures Decode([]) == 0 && DecodeULong([]) == 0
  {
  }

  /** A captured packet: the IP source when there is an IP layer, the raw payload when there is one, and the capture time. */
  datatype Packet = Packet(ipSrc: Option<string>, raw: Option<seq<int>>, seconds: int, microseconds: int)

  /** A line of the record file: the source address and the receive time; the float difference is not modelled. */
  datatype Record = Record(ip: string, now: int)

  /**
   * `Consumer::operator()`: decode the payload, compute the receive time in
   * microseconds, and write a record only when an IP source was captured.
   * The handler always returns true, so capture goes on.
   */
  method Consume(packet: Packet) returns (record: Option<Record>, pre: Option<int>, keepGoing: bool)
    ensures keepGoing
    ensures pre.Some? <==> packet.raw.Some?
    ensures packet.raw.Some? ==> pre.value == DecodeULong(packet.raw.value)
    ensures record.Some? <==> packet.raw.Some? && packet.ipSrc.Some? && packet.ipSrc.value != ""
    ensures record.Some? ==> record.value == Record(packet.ipSrc.value, packet.seconds * 1000000 + packet.microseconds)
  {
    var ipRecord := "";
    if packet.ipSrc.Some? {
      ipRecord := packet.ipSrc.value;
    }
    record, pre := None, None;
    if packet.raw.Some? {
      var val := packet.raw.value;
      var acc := 0;
      for i := 0 to |val|
        invariant acc == DecodeULong(val[..i])
      {
        assert val[..i + 1][..i] == val[..i];
        acc := (acc * 10 + val[i]) % ULONG_MODULUS;
      }
      assert val[..|val|] == val;
      pre := Some(acc);
      var now := packet.seconds * 1000000 + packet.microseconds;
      if ipRecord != "" {
        record := Some(Record(ipRecord, now));
      }
    }
    keepGoing := true;
  }

  /** A probe sent at time t and captured with its IP layer yields the reading t and a record. */
  lemma ProbeRoundTrip(t: nat, ip: string, seconds: int, microseconds: int)
    requires t < ULONG_MODULUS && ip != ""
    ensures DecodeULong(Digits(t)) == t
    ensures var p := Packet(Some(ip), Some(Digits(t)), seconds, microseconds);
      p.raw.Some? && p.ipSrc.Some? && p.ipSrc.value != ""
  {
    DecodeULongDigits(t);
  }

  // ---------------------------------------------------------------------
  // ipv4MulticastToMac

  /** The low k bits of v as '0'/'1' characters, most significant first. */
  function BitsN(v: nat, k: nat): (s: string)
    ensures |s| == k
  {
    if k == 0 then [] else BitsN(v / 2, k - 1) + [if v % 2 == 1 then '1' else '0']
  }

  /** `std::bitset<8>(octet).to_string()`: the octet's low eight bits. */
  function Bits8(octet: int): (s: string)
    ensures |s| == 8
  {
    BitsN(octet % 256, 8)
  }

  /** The concatenated renderings of the octets. */
  function OctetsBits(octets: seq<int>): (s: string)
    ensures |s| == 8 * |octets|
  {
    if octets == [] then [] else OctetsBits(octets[..|octets| - 1]) + Bits8(octets[|octets| - 1])
  }

  /** `binaryString += std::bitset<8>(octet).to_string()` for every octet read. */
  method BinaryString(octets: seq<int>) returns (b: string)
    ensures b == OctetsBits(octets)
  {
    b := "";
    for i := 0 to |octets|
      invariant b == OctetsBits(octets[..i])
    {
      assert octets[..i + 1][..i] == octets[..i];
      b := b + Bits8(octets[i]);
    }
    assert octets[..|octets|] == octets;
  }

  /** `s.substr(pos, len)`: out_of_range (None) when pos is past the end, else at most len characters. */
  function Substr(s: string, pos: nat, len: nat): (r: Option<string>)
    ensures r.Some? ==> |r.value| <= len
  {
    if pos > |s| then None
    else if pos + len <= |s| then Some(s[pos..pos + len])
    else Some(s[pos..])
  }

  /** The value of a string of '0'/'1' characters. */
  function BinValue(s: string): nat
  {
    if s == [] then 0 else BinValue(s[..|s| - 1]) * 2 + (if s[|s| - 1] == '1' then 1 else 0)
  }

  /** `std::stoi(s, nullptr, 2)` on a bit string: invalid_argument (None) when it is empty. */
  function Stoi2(s: string): Option<nat>
  {
    if s == [] then None else Some(BinValue(s))
  }

  /** `std::hex << std::setw(2) << std::setfill('0') << v` for v below 256. */
  function Hex2(v: nat): (s: string)
    requires v < 256
    ensures |s| == 2
  {
    [HexChar(v / 16, false), HexChar(v % 16, false)]
  }

  lemma Hex2Injective(v: nat, w: nat)
    requires v < 256 && w < 256 && Hex2(v) == Hex2(w)
    ensures v == w
  {
    assert HexDigitValue(Hex2(v)[0]) == v / 16 && HexDigitValue(Hex2(w)[0]) == w / 16;
    assert HexDigitValue(Hex2(v)[1]) == v % 16 && HexDigitValue(Hex2(w)[1]) == w % 16;
  }

  const MAC_PREFIX: string := "01:00:5E:"

  function MacFields(a: nat, b: nat, c: nat): string
    requires a < 256 && b < 256 && c < 256
  {
    MAC_PREFIX + Hex2(a) + ":" + Hex2(b) + ":" + Hex2(c)
  }

  /** Reading one two-bit field of the 23-bit string: substr, then stoi base 2. */
  function Field(low: string, pos: nat): (r: Option<nat>)
    ensures r.Some? ==> r.value < 4
  {
    var f := Substr(low, pos, 2);
    if f.None? then None
    else
      BinValueBound(f.value);
      Stoi2(f.value)
  }

  lemma {:induction false} BinValueBound(s: string)
    ensures BinValue(s) < Pow2(|s|)
  {
    if s != [] {
      BinValueBound(s[..|s| - 1]);
    }
  }

  function Pow2(k: nat): (p: nat)
    ensures p >= 1
  {
    if k == 0 then 1 else 2 * Pow2(k - 1)
  }

  /**
   * The MAC that `ipv4MulticastToMac` builds from the bit string: take the 23
   * characters from position 9, read three two-character fields of them at
   * 0, 2 and 4 in base 2, and print each as two hex digits after "01:00:5E:".
   * A substr or stoi that throws is None.
   */
  function MacFromBits(bits: string): Option<string>
  {
    var low := Substr(bits, 9, 23);
    if low.None? then None
    else
      var a, b, c := Field(low.value, 0), Field(low.value, 2), Field(low.value, 4);
      if a.None? || b.None? || c.None? then None
      else Some(MacFields(a.value, b.value, c.value))
  }

  /** `ipv4MulticastToMac` on the octets read from the dotted address. */
  method Ipv4MulticastToMac(octets: seq<int>) returns (mac: Option<string>)
    ensures mac == MacFromBits(OctetsBits(octets))
  {
    var bits := BinaryString(octets);
    mac := MacFromBits(bits);
  }

  /**
   * For a four-octet address the MAC is "01:00:5E:" and three fields, each
   * 00 to 03, since each is read from two bits.
   */
  lemma MacAsWrittenShape(octets: seq<int>)
    requires |octets| == 4
    ensures MacFromBits(OctetsBits(octets)).Some?
    ensures exists a: nat, b: nat, c: nat :: a < 4 && b < 4 && c < 4 && MacFromBits(OctetsBits(octets)) == Some(MacFields(a, b, c))
  {
    var low := OctetsBits(octets)[9..32];
    var a, b, c := Field(low, 0), Field(low, 2), Field(low, 4);
    assert a.Some? && b.Some? && c.Some?;
    assert MacFromBits(OctetsBits(octets)) == Some(MacFields(a.value, b.value, c.value));
  }

  /** The characters 9..15 of the bit string of four octets are bits 6..1 of the second octet. */
  lemma OctetsBitsSecond(octets: seq<int>, i: nat)
    requires |octets| == 4 && 9 <= i < 16
    ensures OctetsBits(octets)[i] == Bits8(octets[1])[i - 8]
  {
    var o := octets;
    assert o[..3][..2][..1][..0] == [];
    assert OctetsBits(o) == OctetsBits(o[..3]) + Bits8(o[3]);
    assert OctetsBits(o[..3]) == OctetsBits(o[..3][..2]) + Bits8(o[2]);
    assert OctetsBits(o[..3][..2]) == OctetsBits(o[..3][..2][..1]) + Bits8(o[1]);
    assert |OctetsBits(o[..3][..2][..1])| == 8;
  }

  /**
   * As written, the MAC of a four-octet address depends on the second octet
   * only: the third and fourth octets never reach it.
   */
  lemma MacAsWrittenIgnoresLowOctets(x: seq<int>, y: seq<int>)
    requires |x| == 4 && |y| == 4 && x[1] % 256 == y[1] % 256
    ensures MacFromBits(OctetsBits(x)) == MacFromBits(OctetsBits(y))
    ensures MacFromBits(OctetsBits(x)).Some?
  {
    var bx, bY := OctetsBits(x), OctetsBits(y);
    forall i | 9 <= i < 15
      ensures bx[i] == bY[i]
    {
      OctetsBitsSecond(x, i);
      OctetsBitsSecond(y, i);
    }
    assert bx[9..32][..6] == bx[9..15] == bY[9..15] == bY[9..32][..6];
    var lx, ly := bx[9..32], bY[9..32];
    assert lx[0..2] == ly[0..2] && lx[2..4] == ly[2..4] && lx[4..6] == ly[4..6] by {
      assert lx[..6] == ly[..6];
      assert lx[0..2] == lx[..6][0..2] && ly[0..2] == ly[..6][0..2];
      assert lx[2..4] == lx[..6][2..4] && ly[2..4] == ly[..6][2..4];
      assert lx[4..6] == lx[..6][4..6] && ly[4..6] == ly[..6][4..6];
    }
  }

  /** The group addresses 224.0.1.no all get the same MAC, so their frames cannot be told apart by address. */
  lemma GroupMacsCollide(no1: int, no2: int)
    ensures MacFromBits(OctetsBits([224, 0, 1, no1])) == MacFromBits(OctetsBits([224, 0, 1, no2]))
    ensures MacFromBits(OctetsBits([224, 0, 1, no1])).Some?
  {
    MacAsWrittenIgnoresLowOctets([224, 0, 1, no1], [224, 0, 1, no2]);
  }

  /**
   * Section 6.4 of RFC 1112: the low-order 23 bits of the group address go
   * into the low-order 23 bits of 01-00-5E-00-00-00.
   */
  function Rfc1112Mac(octets: seq<int>): string
    requires |octets| == 4
  {
    MacFields(octets[1] % 128, octets[2] % 256, octets[3] % 256)
  }

  /** Under that mapping, group addresses that differ in their low 23 bits get different MACs. */
  lemma Rfc1112MacInjective(x: seq<int>, y: seq<int>)
    requires |x| == 4 && |y| == 4
    requires Rfc1112Mac(x) == Rfc1112Mac(y)
    ensures x[1] % 128 == y[1] % 128 && x[2] % 256 == y[2] % 256 && x[3] % 256 == y[3] % 256
  {
    var mx, my := Rfc1112Mac(x), Rfc1112Mac(y);
    assert mx[9..11] == Hex2(x[1] % 128) && my[9..11] == Hex2(y[1] % 128);
    assert mx[12..14] == Hex2(x[2] % 256) && my[12..14] == Hex2(y[2] % 256);
    assert mx[15..17] == Hex2(x[3] % 256) && my[15..17] == Hex2(y[3] % 256);
    Hex2Injective(x[1] % 128, y[1] % 128);
    Hex2Injective(x[2] % 256, y[2] % 256);
    Hex2Injective(x[3] % 256, y[3] % 256);
  }

  /** So the groups 224.0.1.no for different no in 0..255 get different MACs. */
  lemma Rfc1112GroupMacsDistinct(no1: int, no2: int)
    requires 0 <= no1 < 256 && 0 <= no2 < 256 && no1 != no2
    ensures Rfc1112Mac([224, 0, 1, no1]) != Rfc1112Mac([224, 0, 1, no2])
  {
    var x, y := [224, 0, 1, no1], [224, 0, 1, no2];
    assert |x| == 4 && |y| == 4 && x[3] == no1 && y[3] == no2;
    assert no1 % 256 == no1 && no2 % 256 == no2;
    if Rfc1112Mac(x) == Rfc1112Mac(y) {
      Rfc1112MacInjective(x, y);
      assert false;
    }
  }
}
