/** The hash engine of the C original. Its state is a union of 64-bit words and bytes, so what a
    byte address means depends on the machine's byte order. */
module CHash {
  import opened Prelude
  import opened Words
  import opened Sponge
  import opened Streaming

  const UNION_BYTES := 1600
  const STATE_BYTES := 8 * LANES

  /** Where the byte of significance `k % 8` of word `k / 8` lies in memory: the index `k ^ 7` on
      a big-endian machine, `k` on a little-endian one. */
  function Address(bigEndian: bool, k: nat): (a: nat)
    ensures a / 8 == k / 8
    ensures !bigEndian ==> a == k
    ensures bigEndian ==> a % 8 == 7 - k % 8
  {
    if bigEndian then k - k % 8 + (7 - k % 8) else k
  }

  /** Bit `i` of a number. */
  function BitOf(n: nat, i: nat): nat {
    if i == 0 then n % 2 else BitOf(n / 2, i - 1)
  }

  lemma {:induction false} HighBit(n: nat, i: nat)
    requires 3 <= i
    ensures BitOf(n, i) == BitOf(n / 8, i - 3)
  {
    assert BitOf(n, i) == BitOf(n / 2, i - 1) == BitOf(n / 2 / 2, i - 2) == BitOf(n / 2 / 2 / 2, i - 3);
  }

  /** On a big-endian machine the index is `k ^ 7`: the three low bits flipped, all others kept. */
  lemma {:induction false} AddressFlipsLowBits(k: nat, i: nat)
    ensures BitOf(Address(true, k), i) == if i < 3 then 1 - BitOf(k, i) else BitOf(k, i)
  {
    hide Address, BitOf;
    var a := Address(true, k);
    if 3 <= i {
      HighBit(a, i);
      HighBit(k, i);
    } else {
      LowBits(a);
      LowBits(k);
      Flipped(k % 8);
    }
  }

  lemma {:induction false} Flipped(d: nat)
    requires d < 8
    ensures (7 - d) % 2 == 1 - d % 2 && (7 - d) / 2 % 2 == 1 - d / 2 % 2 && (7 - d) / 4 == 1 - d / 4
  {
  }

  lemma {:induction false} LowBits(n: nat)
    ensures BitOf(n, 0) == n % 8 % 2 && BitOf(n, 1) == n % 8 / 2 % 2 && BitOf(n, 2) == n % 8 / 4
  {
    assert BitOf(n, 1) == BitOf(n / 2, 0);
    assert BitOf(n, 2) == BitOf(n / 2, 1) == BitOf(n / 2 / 2, 0);
    hide BitOf;
    Halves(n / 8, n % 8);
  }

  lemma {:induction false} Halves(q: nat, d: nat)
    requires d < 8
    ensures (8 * q + d) % 2 == d % 2
    ensures (8 * q + d) / 2 % 2 == d / 2 % 2
    ensures (8 * q + d) / 2 / 2 % 2 == d / 4
  {
    assert (8 * q + d) / 2 == 4 * q + d / 2;
    assert (4 * q + d / 2) / 2 == 2 * q + d / 4;
  }

  /** The state's bytes in the order of their significance. */
  function Canonical(x: seq<Byte>, bigEndian: bool): (c: seq<Byte>)
    requires STATE_BYTES <= |x|
    ensures |c| == STATE_BYTES
  {
    seq(STATE_BYTES, k requires 0 <= k < STATE_BYTES => x[Address(bigEndian, k)])
  }

  function LanesIn(canonical: seq<Byte>): Lanes {
    seq(LANES, i requires 0 <= i < LANES => LaneOf(canonical, i))
  }

  /** The state read as words of the machine. */
  function LanesOf(x: seq<Byte>, bigEndian: bool): Lanes
    requires STATE_BYTES <= |x|
  {
    LanesIn(Canonical(x, bigEndian))
  }

  lemma {:induction false} AddressOnce(bigEndian: bool, j: nat, k: nat)
    requires Address(bigEndian, j) == Address(bigEndian, k)
    ensures j == k
  {
  }

  /** A block of whole words is permuted within itself. */
  lemma {:induction false} AddressInBlock(bigEndian: bool, k: nat, rate: nat)
    requires rate % 8 == 0 && k < rate
    ensures Address(bigEndian, k) < rate
  {
    assert k / 8 < rate / 8;
  }

  // ---------------------------------------------------------------- words and their bytes

  /** Bytes put back together are the word they were taken from. */
  lemma {:induction false} WordOfBytes(block: seq<Byte>, i: nat, v: bv64, count: nat)
    requires count <= 8
    requires forall j :: 0 <= j < count ==> Padded(block, 8 * i + j) == ByteOf(v, j)
    ensures Xor(LanePrefix(block, i, count), Lift(Drop(v, count), count)) == v
    ensures count == 8 ==> LaneOf(block, i) == v
    decreases count
  {
    hide Xor, At, Padded, ByteOf, Lift, Drop;
    if count == 0 {
      LiftDropNothing(v);
      XorZero(v);
    } else {
      var j := count - 1;
      WordOfBytes(block, i, v, j);
      TakeByte(v, j);
      XorAssociates(LanePrefix(block, i, j), At(ByteOf(v, j), j), Lift(Drop(v, count), count));
      if count == 8 {
        DropAll(v);
        LiftZero(8);
        XorZero(LaneOf(block, i));
      }
    }
  }

  lemma {:induction false} LiftDropNothing(v: bv64)
    ensures Lift(Drop(v, 0), 0) == v
  {
  }

  /** Exclusive or with one byte of the state changes one byte of one word. */
  lemma {:induction false} PrefixXorByte(c: seq<Byte>, n: nat, b: Byte, i: nat, count: nat)
    requires count <= 8 && n < |c|
    ensures LanePrefix(c[n := c[n] ^ b], i, count) ==
      if 8 * i <= n < 8 * i + count then Xor(LanePrefix(c, i, count), At(b, n - 8 * i)) else LanePrefix(c, i, count)
    decreases count
  {
    hide Xor, At, Lift;
    if count > 0 {
      var j := count - 1;
      var k := 8 * i + j;
      var before := LanePrefix(c, i, j);
      PrefixXorByte(c, n, b, i, j);
      if k == n {
        AtXor(c[n], b, j);
        XorAssociates(before, At(c[n], j), At(b, j));
      } else if 8 * i <= n < k {
        XorSwap(before, At(b, n - 8 * i), At(Padded(c, k), j));
      }
    }
  }

  lemma {:induction false} CanonicalWrite(x: seq<Byte>, bigEndian: bool, n: nat, v: Byte)
    requires STATE_BYTES <= |x| && n < STATE_BYTES
    ensures Address(bigEndian, n) < STATE_BYTES
    ensures Canonical(x[Address(bigEndian, n) := v], bigEndian) == Canonical(x, bigEndian)[n := v]
  {
    var a := Address(bigEndian, n);
    forall k | 0 <= k < STATE_BYTES && k != n ensures Address(bigEndian, k) != a {
      if Address(bigEndian, k) == a {
        AddressOnce(bigEndian, k, n);
      }
    }
  }

  lemma {:induction false} LanesXorByte(c: seq<Byte>, n: nat, b: Byte)
    requires |c| == STATE_BYTES && n < STATE_BYTES
    ensures LanesIn(c[n := c[n] ^ b]) == XorByte(LanesIn(c), n, b)
  {
    hide Xor, At, LanePrefix;
    forall i | 0 <= i < LANES
      ensures LaneOf(c[n := c[n] ^ b], i) == XorByte(LanesIn(c), n, b)[i]
    {
      PrefixXorByte(c, n, b, i, 8);
      if i == n / 8 {
        assert n - 8 * i == n % 8;
      } else {
        assert !(8 * i <= n < 8 * i + 8);
      }
    }
  }

  /** Writing a byte of the union is `XorByte` on its words. */
  lemma {:induction false} WordsXorByte(x: seq<Byte>, bigEndian: bool, n: nat, b: Byte)
    requires STATE_BYTES <= |x| && n < STATE_BYTES
    ensures var a := Address(bigEndian, n);
      a < |x| && LanesOf(x[a := x[a] ^ b], bigEndian) == XorByte(LanesOf(x, bigEndian), n, b)
  {
    hide XorByte, LanesIn, Address;
    CanonicalWrite(x, bigEndian, n, x[Address(bigEndian, n)] ^ b);
    LanesXorByte(Canonical(x, bigEndian), n, b);
  }

  lemma {:induction false} WordStored(x: seq<Byte>, bigEndian: bool, v: bv64, i: nat)
    requires STATE_BYTES <= |x| && i < LANES
    requires forall j :: 0 <= j < 8 ==> x[Address(bigEndian, 8 * i + j)] == ByteOf(v, j)
    ensures LaneOf(Canonical(x, bigEndian), i) == v
  {
    hide Xor, At, ByteOf, LanePrefix, Address;
    WordOfBytes(Canonical(x, bigEndian), i, v, 8);
  }

  /** Bytes that are those of `lanes` read back as `lanes`. */
  lemma {:induction false} WordsStored(x: seq<Byte>, bigEndian: bool, lanes: Lanes)
    requires STATE_BYTES <= |x|
    requires forall k :: 0 <= k < STATE_BYTES ==> x[Address(bigEndian, k)] == ByteOf(lanes[k / 8], k % 8)
    ensures LanesOf(x, bigEndian) == lanes
  {
    hide Canonical, ByteOf, LaneOf, Address;
    forall i | 0 <= i < LANES ensures LaneOf(Canonical(x, bigEndian), i) == lanes[i] {
      forall j | 0 <= j < 8 ensures x[Address(bigEndian, 8 * i + j)] == ByteOf(lanes[i], j) {
        assert (8 * i + j) / 8 == i && (8 * i + j) % 8 == j;
      }
      WordStored(x, bigEndian, lanes[i], i);
    }
  }

  /** What the state's words squeeze out lies, byte by byte, in the union. */
  lemma {:induction false} SqueezedBytes(x: seq<Byte>, bigEndian: bool, k: nat)
    requires STATE_BYTES <= |x| && k < STATE_BYTES
    ensures x[Address(bigEndian, k)] == ByteOf(LanesOf(x, bigEndian)[k / 8], k % 8)
  {
    hide Xor, At, ByteOf, LanePrefix, Address;
    BytesOfWord(Canonical(x, bigEndian), k / 8, 8, k % 8);
    assert 8 * (k / 8) + k % 8 == k;
  }

  lemma {:induction false} ZeroMemory(x: seq<Byte>, bigEndian: bool)
    requires STATE_BYTES <= |x|
    requires forall k :: 0 <= k < STATE_BYTES ==> x[k] == 0
    ensures LanesOf(x, bigEndian) == Zero()
  {
    hide ByteOf;
    forall k | 0 <= k < STATE_BYTES
      ensures x[Address(bigEndian, k)] == ByteOf(Zero()[k / 8], k % 8)
    {
      ByteOfZero(k % 8);
    }
    WordsStored(x, bigEndian, Zero());
  }

  // ---------------------------------------------------------------- eight bytes at once

  /** Feeding the first `k` bytes of a chunk at a word boundary. */
  lemma {:induction false} StreamWordPrefix(perm: Permutation, rate: nat, data: seq<Byte>, chunk: seq<Byte>, k: nat)
    requires 1 <= rate < STATE_BYTES && rate % 8 == 0 && |chunk| == 8 && k < 8
    requires Loaded(rate, data) % 8 == 0
    ensures var n, s := Loaded(rate, data), Streamed(perm, rate, data);
      && Loaded(rate, data + chunk[..k]) == n + k
      && Streamed(perm, rate, data + chunk[..k]) == s[n / 8 := Xor(s[n / 8], LanePrefix(chunk, 0, k))]
    decreases k
  {
    hide Xor, At, XorBlock, Streamed, Loaded;
    var n, s := Loaded(rate, data), Streamed(perm, rate, data);
    if k == 0 {
      assert data + chunk[..0] == data;
      XorZero(s[n / 8]);
    } else {
      StreamWordPrefix(perm, rate, data, chunk, k - 1);
      StreamNext(perm, rate, data + chunk[..k - 1], chunk[k - 1]);
      assert data + chunk[..k] == data + chunk[..k - 1] + [chunk[k - 1]];
      WordGrows(s, n, chunk, k);
    }
  }

  lemma {:induction false} WordGrows(s: Lanes, n: nat, chunk: seq<Byte>, k: nat)
    requires n % 8 == 0 && n < STATE_BYTES && |chunk| == 8 && 1 <= k <= 8
    ensures XorByte(s[n / 8 := Xor(s[n / 8], LanePrefix(chunk, 0, k - 1))], n + k - 1, chunk[k - 1])
      == s[n / 8 := Xor(s[n / 8], LanePrefix(chunk, 0, k))]
  {
    hide Xor, At;
    assert (n + k - 1) / 8 == n / 8 && (n + k - 1) % 8 == k - 1;
    XorAssociates(s[n / 8], LanePrefix(chunk, 0, k - 1), At(chunk[k - 1], k - 1));
  }

  /** A whole word of input goes into a word of the state. */
  lemma {:induction false} StreamWord(perm: Permutation, rate: nat, data: seq<Byte>, chunk: seq<Byte>)
    requires 1 <= rate < STATE_BYTES && rate % 8 == 0 && |chunk| == 8
    requires Loaded(rate, data) % 8 == 0
    ensures var n, s := Loaded(rate, data), Streamed(perm, rate, data);
      var t := s[n / 8 := Xor(s[n / 8], LaneOf(chunk, 0))];
      && n + 8 <= rate
      && Loaded(rate, data + chunk) == (if n + 8 >= rate then 0 else n + 8)
      && Streamed(perm, rate, data + chunk) == (if n + 8 >= rate then perm(t) else t)
  {
    hide Xor, At, LanePrefix, XorBlock, Streamed, Loaded, XorByte;
    var n, s := Loaded(rate, data), Streamed(perm, rate, data);
    StreamWordPrefix(perm, rate, data, chunk, 7);
    StreamNext(perm, rate, data + chunk[..7], chunk[7]);
    assert data + chunk == data + chunk[..7] + [chunk[7]];
    WordGrows(s, n, chunk, 8);
  }

  // ---------------------------------------------------------------- the engine

  /** `ixMask` is 7 on a big-endian machine and 0 otherwise. The word-wise loop is compiled in only
      where the machine is known to be little-endian. */
  class HashContext {
    const perm: Permutation
    const bigEndian: bool
    const knownLittle: bool
    const x: array<Byte>
    var nRate: nat
    var nLoaded: nat
    var iSize: nat

    /** Everything fed to the hash since it was initialised. */
    ghost var absorbed: seq<Byte>

    ghost predicate Machine() {
      x.Length == UNION_BYTES && !(bigEndian && knownLittle)
    }

    ghost predicate Valid()
      reads this, x
    {
      && Machine()
      && nRate == Rate(iSize)
      && nLoaded == Loaded(nRate, absorbed)
      && LanesOf(x[..], bigEndian) == Streamed(perm, nRate, absorbed)
    }

    constructor (perm: Permutation, bigEndian: bool, knownLittle: bool)
      requires !(bigEndian && knownLittle)
      ensures this.perm == perm && this.bigEndian == bigEndian && this.knownLittle == knownLittle
      ensures Machine() && fresh(x)
    {
      this.perm, this.bigEndian, this.knownLittle := perm, bigEndian, knownLittle;
      x := new Byte[UNION_BYTES];
      nRate, nLoaded, iSize, absorbed := 0, 0, 0, [];
    }

    /** Words are assigned: their bytes go to where the machine keeps them. */
    method Store(lanes: Lanes)
      requires Machine()
      modifies x
      ensures LanesOf(x[..], bigEndian) == lanes
    {
      hide ByteOf, LanesOf;
      for k := 0 to STATE_BYTES
        invariant forall j :: 0 <= j < k ==> x[Address(bigEndian, j)] == ByteOf(lanes[j / 8], j % 8)
      {
        forall j | 0 <= j < k ensures Address(bigEndian, j) != Address(bigEndian, k) {
          if Address(bigEndian, j) == Address(bigEndian, k) {
            AddressOnce(bigEndian, j, k);
          }
        }
        x[Address(bigEndian, k)] := ByteOf(lanes[k / 8], k % 8);
      }
      WordsStored(x[..], bigEndian, lanes);
    }

    /** KeccakF1600Step. */
    method Permute()
      requires Machine()
      modifies x
      ensures LanesOf(x[..], bigEndian) == perm(old(LanesOf(x[..], bigEndian)))
    {
      Store(perm(LanesOf(x[..], bigEndian)));
    }

    method HashInit(iSize: nat)
      requires Machine()
      modifies this, x
      ensures Valid() && this.iSize == iSize && absorbed == []
    {
      for i := 0 to UNION_BYTES
        invariant forall k :: 0 <= k < i ==> x[k] == 0
      {
        x[i] := 0;
      }
      this.iSize, nLoaded, nRate, absorbed := iSize, 0, Rate(iSize), [];
      StreamStart(perm, nRate);
      ZeroMemory(x[..], bigEndian);
    }

    /** Eight bytes of input, taken as one word, go into one word of the state. */
    method AbsorbWord(chunk: seq<Byte>)
      requires Valid() && |chunk| == 8 && nLoaded % 8 == 0
      modifies this, x
      ensures Valid() && iSize == old(iSize) && nLoaded % 8 == 0
      ensures absorbed == old(absorbed) + chunk
    {
      hide Rate, Xor, LaneOf, LanesOf, Loaded, Streamed;
      StreamWord(perm, nRate, absorbed, chunk);
      absorbed := absorbed + chunk;
      var s := LanesOf(x[..], bigEndian);
      Store(s[nLoaded / 8 := Xor(s[nLoaded / 8], LaneOf(chunk, 0))]);
      nLoaded := nLoaded + 8;
      if nLoaded >= nRate {
        Permute();
        nLoaded := 0;
      }
    }

    /** p->u.x[n ^ ixMask] ^= b. */
    method XorInto(n: nat, b: Byte)
      requires Machine() && n < STATE_BYTES
      modifies x
      ensures LanesOf(x[..], bigEndian) == XorByte(old(LanesOf(x[..], bigEndian)), n, b)
    {
      hide XorByte, LanesOf, Address;
      WordsXorByte(x[..], bigEndian, n, b);
      ghost var before := x[..];
      var a := Address(bigEndian, n);
      var v := x[a] ^ b;
      x[a] := v;
      assert x[..] == before[a := v];
    }

    /** One byte of input goes into one byte of the state. */
    method AbsorbByte(b: Byte)
      requires Valid()
      modifies this, x
      ensures Valid() && iSize == old(iSize)
      ensures absorbed == old(absorbed) + [b]
    {
      hide Rate, XorByte, LanesOf, Loaded, Streamed;
      StreamNext(perm, nRate, absorbed, b);
      absorbed := absorbed + [b];
      XorInto(nLoaded, b);
      nLoaded := nLoaded + 1;
      if nLoaded == nRate {
        Permute();
        nLoaded := 0;
      }
    }

    /** `aligned` says whether the input's address is a multiple of 8. */
    method HashUpdate(data: seq<Byte>, aligned: bool)
      requires Valid()
      modifies this, x
      ensures Valid() && iSize == old(iSize) && absorbed == old(absorbed) + data
    {
      hide Rate, LanesOf, Loaded, Streamed;
      var i := 0;
      assert data[..0] == [];
      if knownLittle && nLoaded % 8 == 0 && aligned {
        while i + 7 < |data|
          invariant i <= |data| && Valid() && iSize == old(iSize) && nLoaded % 8 == 0
          invariant absorbed == old(absorbed) + data[..i]
        {
          AbsorbWord(data[i..i + 8]);
          assert data[..i + 8] == data[..i] + data[i..i + 8];
          i := i + 8;
        }
      }
      while i < |data|
        invariant i <= |data| && Valid() && iSize == old(iSize)
        invariant absorbed == old(absorbed) + data[..i]
      {
        AbsorbByte(data[i]);
        assert data[..i + 1] == data[..i] + [data[i]];
        i := i + 1;
      }
      assert data[..|data|] == data;
    }

    /** The message is completed to whole blocks, the zero bytes in between skipped. */
    method Pad()
      requires Valid()
      modifies this, x
      ensures Valid() && iSize == old(iSize)
      ensures absorbed == old(absorbed) + Padding(nRate, |old(absorbed)|)
    {
      hide Rate, LanesOf, Streamed, Padding;
      ghost var message := absorbed;
      PaddingCases(nRate, |message|);
      if nLoaded == nRate - 1 {
        HashUpdate([0x86], false);
      } else {
        ghost var k := nRate - 2 - nLoaded;
        StreamNext(perm, nRate, absorbed, 0x06);
        HashUpdate([0x06], false);
        StreamZeros(perm, nRate, absorbed, k);
        absorbed := absorbed + Zeros(k);
        nLoaded := nRate - 1;
        HashUpdate([0x80], false);
        assert absorbed == message + ([0x06] + Zeros(k) + [0x80]);
      }
    }

    /** The state's bytes are copied, in order of significance, behind the block they came from;
        the digest is the first 20 of them. */
    method CopyDigest() returns (digest: seq<Byte>)
      requires Machine() && nRate == Rate(iSize)
      modifies x
      ensures digest == Squeeze(old(LanesOf(x[..], bigEndian)))
    {
      hide Rate, LanesOf, ByteOf, Address;
      ghost var final := x[..];
      for i := 0 to nRate
        invariant forall k :: 0 <= k < nRate ==> x[k] == final[k]
        invariant forall k :: 0 <= k < i ==>
          Address(bigEndian, k) < nRate && x[nRate + k] == final[Address(bigEndian, k)]
      {
        AddressInBlock(bigEndian, i, nRate);
        x[i + nRate] := x[Address(bigEndian, i)];
      }
      digest := x[nRate..nRate + DIGEST_BYTES];
      forall k | 0 <= k < DIGEST_BYTES
        ensures digest[k] == ByteOf(LanesOf(final, bigEndian)[k / 8], k % 8)
      {
        SqueezedBytes(final, bigEndian, k);
      }
    }

    /** The digest of everything absorbed, by the same function as in the Go port. */
    method HashFinal() returns (digest: seq<Byte>)
      requires Valid()
      modifies this, x
      ensures digest == SpongeHash(perm, Rate(iSize), old(absorbed))
    {
      hide Rate, LanesOf, Streamed, Padding, Squeeze;
      StreamHash(perm, nRate, absorbed);
      Pad();
      digest := CopyDigest();
    }
  }
}
