/** The padding bytes, read as bits, are the suffix 01 followed by pad10*1 (section 5.1 and
    appendix B.2 of FIPS 202). */
module PaddingBits {
  import opened Prelude
  import opened Sponge

  /** Bit `j` of a byte, the least significant one first. */
  function Bit(b: Byte, j: nat): bool
    requires j < 8
  {
    (b >> j) & 1 == 1
  }

  function Bits(bytes: seq<Byte>): (bits: seq<bool>)
    ensures |bits| == 8 * |bytes|
  {
    seq(8 * |bytes|, k requires 0 <= k < 8 * |bytes| => Bit(bytes[k / 8], k % 8))
  }

  /** pad10*1(x, m) of section 5.1: a one, the fewest zeros that fill the last block of `x` bits
      after `m` bits, a one. */
  function Pad101(x: nat, m: nat): seq<bool>
    requires 1 <= x
  {
    var used: int := m + 2;
    var j := (-used) % x;
    [true] + seq(j, _ => false) + [true]
  }

  const SUFFIX := [false, true]

  lemma {:induction false} PadZeros(rate: nat, length: nat)
    requires 1 <= rate
    ensures (-(8 * length + 2) - 2) % (8 * rate) == 8 * (rate - length % rate) - 4
  {
    var q, k := rate - length % rate, length / rate + 1;
    assert length == (k - 1) * rate + length % rate;
    assert length + q == k * rate;
    EightTimes(k, rate);
    RemainderUnique(-(8 * length + 2) - 2, 8 * rate, -k, 8 * q - 4);
  }

  lemma {:induction false} EightTimes(k: int, rate: nat)
    ensures (-k) * (8 * rate) == -(8 * (k * rate))
  {
  }

  lemma {:induction false} RemainderUnique(x: int, c: nat, k: int, r: nat)
    requires r < c && x == k * c + r
    ensures x % c == r
  {
    var d := x / c - k;
    assert x == (x / c) * c + x % c;
    assert d * c == r - x % c;
    if 1 <= d {
      AtLeastOnce(d, c);
    } else if d <= -1 {
      AtLeastOnce(-d, c);
    }
  }

  lemma {:induction false} EdgeBits()
    ensures forall j :: 0 <= j < 8 ==> Bit(0, j) == false
    ensures forall j :: 0 <= j < 8 ==> (Bit(0x06, j) <==> 1 <= j <= 2)
    ensures forall j :: 0 <= j < 8 ==> (Bit(0x80, j) <==> j == 7)
    ensures forall j :: 0 <= j < 8 ==> (Bit(0x86, j) <==> 1 <= j <= 2 || j == 7)
  {
    assert Bit(0x06, 1) && Bit(0x06, 2) && Bit(0x86, 1) && Bit(0x86, 2) && Bit(0x86, 7) && Bit(0x80, 7);
    forall j | 0 <= j < 8
      ensures !Bit(0, j) && (Bit(0x06, j) <==> 1 <= j <= 2) && (Bit(0x80, j) <==> j == 7)
      ensures Bit(0x86, j) <==> 1 <= j <= 2 || j == 7
    {
      EdgeBit(j);
    }
  }

  lemma {:induction false} EdgeBit(j: nat)
    requires j < 8
    ensures !Bit(0, j) && (Bit(0x06, j) <==> 1 <= j <= 2) && (Bit(0x80, j) <==> j == 7)
    ensures Bit(0x86, j) <==> 1 <= j <= 2 || j == 7
  {
    assert j == 0 || j == 1 || j == 2 || j == 3 || j == 4 || j == 5 || j == 6 || j == 7;
  }

  lemma {:induction false} PaddingIsStandard(rate: nat, length: nat)
    requires 1 <= rate
    ensures Bits(Padding(rate, length)) == SUFFIX + Pad101(8 * rate, 8 * length + 2)
  {
    hide Bit;
    EdgeBits();
    PadZeros(rate, length);
    var pad, q := Padding(rate, length), rate - length % rate;
    var standard := SUFFIX + Pad101(8 * rate, 8 * length + 2);
    assert |standard| == 8 * q == |Bits(pad)|;
    forall k | 0 <= k < 8 * q
      ensures Bits(pad)[k] == standard[k]
    {
      assert standard[k] <==> 1 <= k <= 2 || k == 8 * q - 1;
    }
  }
}
