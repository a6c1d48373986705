/** The hash function as a sponge (sections 4 and 5.1 of FIPS 202) over 25 lanes of 64 bits, with
    an arbitrary permutation. Bytes enter a lane least significant first. */
module Sponge {
  import opened Prelude
  import opened Words

  const LANES := 25
  const DIGEST_BYTES := 20

  type Lanes = s: seq<bv64> | |s| == LANES witness seq(LANES, _ => 0)
  type Permutation = Lanes -> Lanes

  /** Bytes absorbed per application of the permutation, for a hash of `iSize` bits. */
  function Rate(iSize: nat): (rate: nat)
    ensures rate % 8 == 0 && 72 <= rate <= 168
  {
    if 128 <= iSize <= 512 then (1600 - ((iSize + 31) / 32 * 32) * 2) / 8
    else (1600 - 2 * 256) / 8
  }

  // ---------------------------------------------------------------- bytes in a lane

  /** Byte `k` of a block, zero past its end. */
  function Padded(block: seq<Byte>, k: nat): Byte {
    if k < |block| then block[k] else 0
  }

  /** The first `count` bytes of the lane that starts at byte `8 * i` of a block. */
  function LanePrefix(block: seq<Byte>, i: nat, count: nat): bv64
    requires count <= 8
  {
    if count == 0 then 0
    else Xor(LanePrefix(block, i, count - 1), At(Padded(block, 8 * i + count - 1), count - 1))
  }

  /** Lane `i` of a block: eight bytes, the first one least significant. */
  function LaneOf(block: seq<Byte>, i: nat): bv64 {
    LanePrefix(block, i, 8)
  }

  /** A block is absorbed lane by lane. */
  function XorBlock(s: Lanes, block: seq<Byte>): Lanes {
    seq(LANES, i requires 0 <= i < LANES => Xor(s[i], LaneOf(block, i)))
  }

  // ---------------------------------------------------------------- the block-wise definition

  function Zero(): Lanes {
    seq(LANES, _ => 0)
  }

  /** The state after absorbing whole blocks. */
  function Absorb(perm: Permutation, rate: nat, s: Lanes, blocks: seq<Byte>): Lanes
    requires 1 <= rate
    decreases |blocks|
  {
    if |blocks| < rate then s
    else Absorb(perm, rate, perm(XorBlock(s, blocks[..rate])), blocks[rate..])
  }

  function Zeros(n: nat): (z: seq<Byte>)
    ensures |z| == n
  {
    seq(n, _ => 0)
  }

  /** The suffix 01 and the padding pad10*1, in bytes (appendix B.2 of FIPS 202). */
  function Padding(rate: nat, length: nat): (pad: seq<Byte>)
    requires 1 <= rate
    ensures (length + |pad|) % rate == 0
  {
    var q := rate - length % rate;
    PaddingFits(rate, length);
    if q == 1 then [0x86] else [0x06] + Zeros(q - 2) + [0x80]
  }

  lemma {:induction false} PaddingFits(rate: nat, length: nat)
    requires 1 <= rate
    ensures (length + (rate - length % rate)) % rate == 0
  {
    var k := length / rate;
    assert length + (rate - length % rate) == (k + 1) * rate;
    ModuloUnique((k + 1) * rate, rate, k + 1, 0);
  }

  function Squeeze(s: Lanes): (digest: seq<Byte>)
    ensures |digest| == DIGEST_BYTES
  {
    seq(DIGEST_BYTES, i requires 0 <= i < DIGEST_BYTES => ByteOf(s[i / 8], i % 8))
  }

  /** The 20-byte hash of a message. */
  function SpongeHash(perm: Permutation, rate: nat, message: seq<Byte>): (digest: seq<Byte>)
    requires 1 <= rate
    ensures |digest| == DIGEST_BYTES
  {
    Squeeze(Absorb(perm, rate, Zero(), message + Padding(rate, |message|)))
  }
}
