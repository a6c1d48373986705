/** The hash engine of the Go port: lanes updated byte by byte, proved equal to the sponge. */
module HashEngine {
  import opened Prelude
  import opened Words
  import opened Sponge
  import opened Streaming

  class HashContext {
    const perm: Permutation
    const s: array<bv64>
    var nRate: nat
    var nLoaded: nat
    var iSize: nat

    /** Everything fed to the hash since it was initialised. */
    ghost var absorbed: seq<Byte>

    ghost predicate Valid()
      reads this, s
    {
      && s.Length == LANES
      && nRate == Rate(iSize)
      && nLoaded == Loaded(nRate, absorbed)
      && s[..] == Streamed(perm, nRate, absorbed)
    }

    constructor (perm: Permutation)
      ensures this.perm == perm && fresh(s) && s.Length == LANES
    {
      this.perm := perm;
      s := new bv64[LANES];
      nRate, nLoaded, iSize, absorbed := 0, 0, 0, [];
    }

    /** keccakF1600Step: the permutation, applied to the lanes in place. */
    method Permute()
      requires s.Length == LANES
      modifies s
      ensures s[..] == perm(old(s[..]))
    {
      var next := perm(s[..]);
      for i := 0 to LANES
        invariant forall k :: 0 <= k < i ==> s[k] == next[k]
      {
        s[i] := next[i];
      }
    }

    method HashInit(iSize: nat)
      requires s.Length == LANES
      modifies this, s
      ensures Valid() && this.iSize == iSize && absorbed == []
    {
      for i := 0 to LANES
        invariant forall k :: 0 <= k < i ==> s[k] == 0
      {
        s[i] := 0;
      }
      this.iSize, nLoaded, nRate, absorbed := iSize, 0, Rate(iSize), [];
      StreamStart(perm, nRate);
    }

    method HashUpdate(data: seq<Byte>)
      requires Valid()
      modifies this, s
      ensures Valid() && iSize == old(iSize) && absorbed == old(absorbed) + data
    {
      hide Rate, Xor, At, XorBlock, Loaded, Streamed;
      for i := 0 to |data|
        invariant s.Length == LANES && nRate == Rate(iSize) && iSize == old(iSize)
        invariant absorbed == old(absorbed) + data[..i]
        invariant nLoaded == Loaded(nRate, absorbed) && s[..] == Streamed(perm, nRate, absorbed)
      {
        StreamNext(perm, nRate, absorbed, data[i]);
        absorbed := absorbed + [data[i]];
        s[nLoaded / 8] := Xor(s[nLoaded / 8], At(data[i], nLoaded % 8));
        nLoaded := nLoaded + 1;
        if nLoaded == nRate {
          Permute();
          nLoaded := 0;
        }
      }
      assert data[..|data|] == data;
    }

    /** The message is completed to whole blocks. Setting the count to the last byte of the block
        passes over zero bytes, which change no lane. */
    method Pad()
      requires Valid()
      modifies this, s
      ensures Valid() && iSize == old(iSize)
      ensures absorbed == old(absorbed) + Padding(nRate, |old(absorbed)|)
    {
      hide Rate, XorBlock, Streamed, Padding;
      ghost var message := absorbed;
      PaddingCases(nRate, |message|);
      if nLoaded == nRate - 1 {
        HashUpdate([0x86]);
      } else {
        ghost var k := nRate - 2 - nLoaded;
        StreamNext(perm, nRate, absorbed, 0x06);
        HashUpdate([0x06]);
        StreamZeros(perm, nRate, absorbed, k);
        absorbed := absorbed + Zeros(k);
        nLoaded := nRate - 1;
        HashUpdate([0x80]);
        assert absorbed == message + ([0x06] + Zeros(k) + [0x80]);
      }
    }

    /** The digest of everything absorbed. Only the 160-bit variant is supported: for any other
        size the source panics. */
    method HashFinal() returns (digest: Option<seq<Byte>>)
      requires Valid()
      modifies this, s
      ensures Valid() && iSize == old(iSize)
      ensures iSize != 160 ==> digest == None && absorbed == old(absorbed)
      ensures iSize == 160 ==> digest == Some(SpongeHash(perm, 160, old(absorbed)))
      ensures iSize == 160 ==> absorbed == old(absorbed) + Padding(160, |old(absorbed)|)
    {
      hide XorBlock, Streamed, ByteOf;
      if iSize != 160 {
        return None;
      }
      assert nRate == 160;
      StreamHash(perm, nRate, absorbed);
      Pad();
      var out := new Byte[DIGEST_BYTES];
      for i := 0 to DIGEST_BYTES
        modifies out
        invariant forall k :: 0 <= k < i ==> out[k] == ByteOf(s[k / 8], k % 8)
      {
        out[i] := ByteOf(s[i / 8], i % 8);
      }
      assert out[..] == Squeeze(s[..]);
      digest := Some(out[..]);
    }
  }
}
