/** Absorbing byte by byte: the state of a streaming hash, and how one more byte changes it. */
module Streaming {
  import opened Prelude
  import opened Words
  import opened Sponge

  /** The length of the last, incomplete block. */
  function Loaded(rate: nat, data: seq<Byte>): (n: nat)
    requires 1 <= rate
    ensures n < rate && n <= |data|
  {
    LoadedFits(rate, |data|);
    |data| % rate
  }

  lemma {:induction false} LoadedFits(rate: nat, length: nat)
    requires 1 <= rate
    ensures length % rate <= length
  {
    assert length == (length / rate) * rate + length % rate;
  }

  /** The state of a hash into which `data` was fed: whole blocks absorbed, the rest only
      exclusive-ored in. */
  function Streamed(perm: Permutation, rate: nat, data: seq<Byte>): Lanes
    requires 1 <= rate
  {
    var full := |data| - Loaded(rate, data);
    XorBlock(Absorb(perm, rate, Zero(), data[..full]), data[full..])
  }

  /** One byte goes into its lane. */
  function XorByte(s: Lanes, n: nat, b: Byte): Lanes
    requires n < 8 * LANES
  {
    s[n / 8 := Xor(s[n / 8], At(b, n % 8))]
  }

  // ---------------------------------------------------------------- the rate

  /** Of the state's 1600 bits the capacity is twice the hash size, rounded up to 32 bits; sizes out
      of range are treated as 256. */
  lemma {:induction false} RateAndCapacity(iSize: nat)
    ensures 64 * LANES == 1600
    ensures 128 <= iSize <= 512 ==>
      exists size: nat :: size % 32 == 0 && iSize <= size < iSize + 32 && 8 * Rate(iSize) + 2 * size == 1600
    ensures !(128 <= iSize <= 512) ==> 8 * Rate(iSize) + 2 * 256 == 1600
  {
    var size := (iSize + 31) / 32 * 32;
    if 128 <= iSize <= 512 {
      assert size % 32 == 0 && iSize <= size < iSize + 32;
      assert 8 * Rate(iSize) + 2 * size == 1600;
    }
  }

  // ---------------------------------------------------------------- inside a block

  lemma {:induction false} PaddedNext(block: seq<Byte>, b: Byte, k: nat)
    ensures Padded(block + [b], k) == if k == |block| then b else Padded(block, k)
    ensures k == |block| ==> Padded(block, k) == 0
  {
  }

  /** A block that grows by one byte changes one lane, in one byte. */
  lemma {:induction false} LanePrefixNext(block: seq<Byte>, b: Byte, i: nat, count: nat)
    requires count <= 8
    ensures LanePrefix(block + [b], i, count) ==
      if 8 * i <= |block| < 8 * i + count
      then Xor(LanePrefix(block, i, count), At(b, |block| - 8 * i))
      else LanePrefix(block, i, count)
    decreases count
  {
    hide Xor, At, Padded;
    if count > 0 {
      LanePrefixNext(block, b, i, count - 1);
      PaddedNext(block, b, 8 * i + count - 1);
      LanePrefixStep(block, b, i, count);
    }
  }

  lemma {:induction false} LanePrefixStep(block: seq<Byte>, b: Byte, i: nat, count: nat)
    requires 1 <= count <= 8
    requires LanePrefix(block + [b], i, count - 1) ==
      if 8 * i <= |block| < 8 * i + count - 1
      then Xor(LanePrefix(block, i, count - 1), At(b, |block| - 8 * i))
      else LanePrefix(block, i, count - 1)
    requires var k := 8 * i + count - 1; Padded(block + [b], k) == if k == |block| then b else Padded(block, k)
    requires |block| == 8 * i + count - 1 ==> Padded(block, |block|) == 0
    ensures LanePrefix(block + [b], i, count) ==
      if 8 * i <= |block| < 8 * i + count
      then Xor(LanePrefix(block, i, count), At(b, |block| - 8 * i))
      else LanePrefix(block, i, count)
  {
    hide Xor, At, Padded;
    var j, k := count - 1, 8 * i + count - 1;
    var before := LanePrefix(block, i, j);
    if k == |block| {
      AtZero(j);
      XorZero(before);
      assert LanePrefix(block, i, count) == before;
    } else if 8 * i <= |block| < k {
      XorSwap(before, At(b, |block| - 8 * i), At(Padded(block, k), j));
    }
  }

  lemma {:induction false} XorBlockNext(s: Lanes, block: seq<Byte>, b: Byte)
    requires |block| < 8 * LANES
    ensures XorBlock(s, block + [b]) == XorByte(XorBlock(s, block), |block|, b)
  {
    hide Xor, At, LanePrefix;
    var n := |block| / 8;
    forall i | 0 <= i < LANES
      ensures XorBlock(s, block + [b])[i] == XorByte(XorBlock(s, block), |block|, b)[i]
    {
      LanePrefixNext(block, b, i, 8);
      if i == n {
        assert |block| - 8 * i == |block| % 8;
        XorAssociates(s[i], LaneOf(block, i), At(b, |block| % 8));
      } else {
        assert !(8 * i <= |block| < 8 * i + 8);
      }
    }
  }

  /** Zero bytes at the end of a block leave no trace. */
  lemma {:induction false} LanePrefixZeros(block: seq<Byte>, n: nat, i: nat, count: nat)
    requires count <= 8
    ensures LanePrefix(block + Zeros(n), i, count) == LanePrefix(block, i, count)
    decreases count
  {
    hide Xor, At;
    if count > 0 {
      LanePrefixZeros(block, n, i, count - 1);
      assert Padded(block + Zeros(n), 8 * i + count - 1) == Padded(block, 8 * i + count - 1);
    }
  }

  lemma {:induction false} XorBlockZeros(s: Lanes, block: seq<Byte>, n: nat)
    ensures XorBlock(s, block + Zeros(n)) == XorBlock(s, block)
  {
    hide Xor, LanePrefix, Zeros;
    forall i | 0 <= i < LANES ensures XorBlock(s, block + Zeros(n))[i] == XorBlock(s, block)[i] {
      LanePrefixZeros(block, n, i, 8);
    }
  }

  lemma {:induction false} LanePrefixEmpty(i: nat, count: nat)
    requires count <= 8
    ensures LanePrefix([], i, count) == 0
    decreases count
  {
    if count > 0 {
      LanePrefixEmpty(i, count - 1);
      AtZero(count - 1);
    }
  }

  lemma {:induction false} XorBlockEmpty(s: Lanes)
    ensures XorBlock(s, []) == s
  {
    forall i | 0 <= i < LANES ensures XorBlock(s, [])[i] == s[i] {
      LanePrefixEmpty(i, 8);
      XorZero(s[i]);
    }
  }

  /** A word keeps every byte it was made of. */
  lemma {:induction false} BytesOfWord(block: seq<Byte>, i: nat, count: nat, k: nat)
    requires count <= 8 && k < 8
    ensures ByteOf(LanePrefix(block, i, count), k) == if k < count then Padded(block, 8 * i + k) else 0
    decreases count
  {
    hide Xor, At, Padded, Lift, Drop, Low;
    if count == 0 {
      ByteOfZero(k);
    } else {
      var j := count - 1;
      var b := Padded(block, 8 * i + j);
      BytesOfWord(block, i, j, k);
      ByteOfXor(LanePrefix(block, i, j), At(b, j), k);
      ByteOfAt(b, j, k);
      ByteXorZero(b);
      ByteXorZero(ByteOf(LanePrefix(block, i, j), k));
    }
  }

  lemma {:induction false} ByteOfZero(k: nat)
    requires k < 8
    ensures ByteOf(0, k) == 0
  {
    Zeroes();
    DropZero(k);
  }

  lemma {:induction false} ByteXorZero(b: Byte)
    ensures b ^ 0 == b && 0 ^ b == b
  {
  }

  /** A block changes the state byte by byte, in order: byte `k` of the block goes to byte `k % 8`
      of lane `k / 8`, and past the block's end nothing changes. */
  lemma {:induction false} XorBlockBytes(s: Lanes, block: seq<Byte>, k: nat)
    requires k < 8 * LANES
    ensures ByteOf(XorBlock(s, block)[k / 8], k % 8) ==
      ByteOf(s[k / 8], k % 8) ^ (if k < |block| then block[k] else 0)
  {
    hide Xor, ByteOf, LanePrefix;
    var i, j := k / 8, k % 8;
    ByteOfXor(s[i], LaneOf(block, i), j);
    BytesOfWord(block, i, 8, j);
    assert 8 * i + j == k;
  }

  /** The digest is the first 20 bytes of the state. */
  lemma {:induction false} SqueezeTakesFirst(block: seq<Byte>)
    requires 20 <= |block|
    ensures Squeeze(XorBlock(Zero(), block)) == block[..20]
  {
    hide Xor, ByteOf, XorBlock;
    forall k | 0 <= k < DIGEST_BYTES
      ensures Squeeze(XorBlock(Zero(), block))[k] == block[k]
    {
      XorBlockBytes(Zero(), block, k);
      ByteOfZero(k % 8);
      ByteXorZero(block[k]);
    }
  }

  // ---------------------------------------------------------------- blocks

  lemma {:induction false} AbsorbNothing(perm: Permutation, rate: nat, s: Lanes)
    requires 1 <= rate
    ensures Absorb(perm, rate, s, []) == s
  {
  }

  /** The last block is absorbed last. */
  lemma {:induction false} AbsorbLast(perm: Permutation, rate: nat, s: Lanes, blocks: seq<Byte>, last: seq<Byte>)
    requires 1 <= rate && |blocks| % rate == 0 && |last| == rate
    ensures Absorb(perm, rate, s, blocks + last) == perm(XorBlock(Absorb(perm, rate, s, blocks), last))
    decreases |blocks|
  {
    hide XorBlock;
    var all := blocks + last;
    if |blocks| < rate {
      ModuloUnique(|blocks|, rate, 0, |blocks|);
      assert all[..rate] == last && all[rate..] == [];
    } else {
      var next := perm(XorBlock(s, blocks[..rate]));
      assert all[..rate] == blocks[..rate];
      assert all[rate..] == blocks[rate..] + last;
      BlocksLess(rate, |blocks|);
      AbsorbLast(perm, rate, next, blocks[rate..], last);
    }
  }

  lemma {:induction false} AtLeastOnceOf(k: nat, rate: nat)
    requires rate <= k * rate && 1 <= rate
    ensures 1 <= k
  {
    if k == 0 {
      assert false;
    }
  }

  /** A message that fits into one block with its padding is permuted once. */
  lemma {:induction false} HashOfOneBlock(perm: Permutation, rate: nat, message: seq<Byte>)
    requires |message| < rate
    ensures SpongeHash(perm, rate, message) == Squeeze(perm(XorBlock(Zero(), message + Padding(rate, |message|))))
  {
    hide XorBlock, Squeeze;
    var block := message + Padding(rate, |message|);
    ModuloUnique(|message|, rate, 0, |message|);
    assert |block| == rate;
    AbsorbNothing(perm, rate, Zero());
    AbsorbLast(perm, rate, Zero(), [], block);
    assert [] + block == block;
  }

  lemma {:induction false} BlocksLess(rate: nat, n: nat)
    requires 1 <= rate <= n && n % rate == 0
    ensures (n - rate) % rate == 0
  {
    var k := n / rate;
    assert n - rate == (k - 1) * rate;
    assert n == k * rate;
    AtLeastOnceOf(k, rate);
    ModuloUnique(n - rate, rate, k - 1, 0);
  }

  /** One more byte: it goes into its lane, and a block that becomes complete is permuted. */
  lemma {:induction false} StreamNext(perm: Permutation, rate: nat, data: seq<Byte>, b: Byte)
    requires 1 <= rate < 8 * LANES
    ensures var n := Loaded(rate, data); var s := XorByte(Streamed(perm, rate, data), n, b);
      && Loaded(rate, data + [b]) == (if n + 1 == rate then 0 else n + 1)
      && Streamed(perm, rate, data + [b]) == (if n + 1 == rate then perm(s) else s)
  {
    hide XorBlock, XorByte;
    var n := Loaded(rate, data);
    var full := |data| - n;
    var blocks, block := data[..full], data[full..];
    var more := data + [b];
    ModuloNext(|data|, rate);
    XorBlockNext(Absorb(perm, rate, Zero(), blocks), block, b);
    if n + 1 == rate {
      assert more[..|more|] == blocks + (block + [b]);
      assert |blocks| == (|data| / rate) * rate + 0;
      ModuloUnique(|blocks|, rate, |data| / rate, 0);
      AbsorbLast(perm, rate, Zero(), blocks, block + [b]);
      assert more[|more|..] == [];
      XorBlockEmpty(Absorb(perm, rate, Zero(), more));
      assert more[..|more|] == more;
    } else {
      assert more[..full] == blocks;
      assert more[full..] == block + [b];
    }
  }

  /** Zero bytes that stay inside the block change only the count. */
  lemma {:induction false} StreamZeros(perm: Permutation, rate: nat, data: seq<Byte>, k: nat)
    requires 1 <= rate && Loaded(rate, data) + k < rate
    ensures Loaded(rate, data + Zeros(k)) == Loaded(rate, data) + k
    ensures Streamed(perm, rate, data + Zeros(k)) == Streamed(perm, rate, data)
  {
    hide XorBlock, Zeros;
    var n := Loaded(rate, data);
    var full := |data| - n;
    var more := data + Zeros(k);
    assert |more| == (|data| / rate) * rate + (n + k);
    ModuloUnique(|more|, rate, |data| / rate, n + k);
    assert more[..full] == data[..full];
    assert more[full..] == data[full..] + Zeros(k);
    XorBlockZeros(Absorb(perm, rate, Zero(), data[..full]), data[full..], k);
  }

  lemma {:induction false} StreamStart(perm: Permutation, rate: nat)
    requires 1 <= rate
    ensures Loaded(rate, []) == 0 && Streamed(perm, rate, []) == Zero()
  {
    XorBlockEmpty(Zero());
  }

  /** The padding, by how full the last block is. */
  lemma {:induction false} PaddingCases(rate: nat, length: nat)
    requires 1 <= rate
    ensures length % rate == rate - 1 ==> Padding(rate, length) == [0x86]
    ensures length % rate < rate - 1 ==> Padding(rate, length) == [0x06] + Zeros(rate - 2 - length % rate) + [0x80]
  {
  }

  /** The message followed by its padding consists of whole blocks: squeezing the stream gives the
      sponge's hash. */
  lemma {:induction false} StreamHash(perm: Permutation, rate: nat, message: seq<Byte>)
    requires 1 <= rate
    ensures Squeeze(Streamed(perm, rate, message + Padding(rate, |message|))) == SpongeHash(perm, rate, message)
  {
    hide XorBlock, Squeeze, Padding;
    var all := message + Padding(rate, |message|);
    assert all[..|all|] == all && all[|all|..] == [];
    XorBlockEmpty(Absorb(perm, rate, Zero(), all));
  }
}
