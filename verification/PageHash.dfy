/** The hashes the two sides exchange: `hash(data)` for one page, `agghash(hash(data))` for a
    range of pages. */
module PageHash {
  import opened Prelude
  import opened Database

  const DIGEST_LENGTH := 20

  type Digest = d: seq<Byte> | |d| == DIGEST_LENGTH witness seq(DIGEST_LENGTH, _ => 0)

  /** The 160-bit hash function, applied to page contents and to concatenated page hashes. */
  type Hash = seq<Byte> -> Digest

  /** What `agghash` absorbs: the hashes of the existing pages among lo..hi-1, ascending. */
  function Digests(hash: Hash, db: seq<Page>, lo: nat, hi: nat): seq<Byte>
    decreases hi - lo
  {
    if hi <= lo then []
    else (if Exists(db, lo) then hash(db[lo - 1]) else []) + Digests(hash, db, lo + 1, hi)
  }

  /** `agghash` over pages lo..hi-1: NULL when none of them exists. */
  function AggHash(hash: Hash, db: seq<Page>, lo: nat, hi: nat): Option<Digest> {
    var d := Digests(hash, db, lo, hi);
    if d == [] then None else Some(hash(d))
  }

  function SingleHash(hash: Hash, db: seq<Page>, p: nat): Option<Digest> {
    if Exists(db, p) then Some(hash(db[p - 1])) else None
  }

  /** The hash of one `sendHash` row on the replica. */
  function RowHash(hash: Hash, db: seq<Page>, fpg: nat, npg: nat): Option<Digest> {
    if npg == 1 then SingleHash(hash, db, fpg)
    else AggHash(hash, db, fpg, Max(fpg + npg, fpg + 1))
  }

  /** The origin's verdict on a received hash. */
  predicate Matches(hash: Hash, db: seq<Page>, iHash: nat, nHash: nat, received: Digest) {
    if nHash > 1 then AggHash(hash, db, iHash, iHash + nHash) == Some(received)
    else SingleHash(hash, db, iHash) == Some(received)
  }

  /** `agghash` absorbs 20 bytes for each page that exists. */
  lemma {:induction false} DigestsLength(hash: Hash, db: seq<Page>, lo: nat, hi: nat)
    requires 1 <= lo <= hi
    ensures |Digests(hash, db, lo, hi)| == DIGEST_LENGTH * Max(0, Min(hi, |db| + 1) - lo)
    decreases hi - lo
  {
    if lo < hi {
      DigestsLength(hash, db, lo + 1, hi);
    }
  }

  /** Page `p`, present in both databases, hashes alike in them. */
  predicate HashesAlike(hash: Hash, a: seq<Page>, b: seq<Page>, p: nat)
    requires Exists(a, p) && Exists(b, p)
  {
    hash(a[p - 1]) == hash(b[p - 1])
  }

  /** On pages both databases have, the absorbed bytes agree exactly when every page hash does. */
  lemma {:induction false} DigestsAgree(hash: Hash, a: seq<Page>, b: seq<Page>, lo: nat, hi: nat)
    requires 1 <= lo <= hi <= |a| + 1 && hi <= |b| + 1
    ensures Digests(hash, a, lo, hi) == Digests(hash, b, lo, hi)
      <==> forall p :: lo <= p < hi ==> HashesAlike(hash, a, b, p)
    decreases hi - lo
  {
    if lo < hi {
      DigestsAgree(hash, a, b, lo + 1, hi);
      var x, y := hash(a[lo - 1]), hash(b[lo - 1]);
      var xs: seq<Byte>, ys: seq<Byte> := Digests(hash, a, lo + 1, hi), Digests(hash, b, lo + 1, hi);
      assert x == (x + xs)[..DIGEST_LENGTH] && xs == (x + xs)[DIGEST_LENGTH..];
      assert y == (y + ys)[..DIGEST_LENGTH] && ys == (y + ys)[DIGEST_LENGTH..];
      assert x + xs == y + ys <==> HashesAlike(hash, a, b, lo) && xs == ys;
    }
  }

  /** None of the hash comparisons a run between these two databases can make is fooled by a
      collision: pages with one number that hash alike are alike, and so are the byte strings
      absorbed for one range of the replica's pages. */
  ghost predicate NoCollision(hash: Hash, origin: seq<Page>, replica: seq<Page>) {
    && (forall p :: 1 <= p <= |origin| && p <= |replica| && HashesAlike(hash, origin, replica, p)
          ==> origin[p - 1] == replica[p - 1])
    && (forall lo, hi {:trigger Digests(hash, replica, lo, hi)} ::
          1 <= lo < hi <= |replica| + 1
          && hash(Digests(hash, origin, lo, hi)) == hash(Digests(hash, replica, lo, hi))
          ==> Digests(hash, origin, lo, hi) == Digests(hash, replica, lo, hi))
  }

  /** The page is on the origin with the content the replica has. */
  predicate Same(origin: seq<Page>, replica: seq<Page>, p: nat)
    requires Exists(replica, p)
  {
    p <= |origin| && origin[p - 1] == replica[p - 1]
  }

  /** A range of equal pages is accepted, whatever the hash function: no page of it travels. */
  lemma {:induction false} EqualRangeMatches(hash: Hash, origin: seq<Page>, replica: seq<Page>, fpg: nat, npg: nat)
    requires 1 <= fpg && 1 <= npg && fpg + npg <= |replica| + 1
    requires forall p :: fpg <= p < fpg + npg ==> Same(origin, replica, p)
    ensures RowHash(hash, replica, fpg, npg).Some?
    ensures Matches(hash, origin, fpg, npg, RowHash(hash, replica, fpg, npg).value)
  {
    hide Digests;
    RowHashExists(hash, replica, fpg, npg);
    assert Same(origin, replica, fpg + npg - 1);
    if npg == 1 {
      assert Same(origin, replica, fpg);
    } else {
      DigestsAgree(hash, origin, replica, fpg, fpg + npg);
      forall p | fpg <= p < fpg + npg ensures HashesAlike(hash, origin, replica, p) {
        assert Same(origin, replica, p);
      }
    }
  }

  lemma {:induction false} RowHashExists(hash: Hash, db: seq<Page>, fpg: nat, npg: nat)
    requires 1 <= fpg && 1 <= npg && fpg + npg <= |db| + 1
    ensures RowHash(hash, db, fpg, npg).Some?
  {
    DigestsLength(hash, db, fpg, fpg + npg);
  }

  /** Without collisions the origin accepts the hash of a replica range exactly when the whole
      range exists on the origin and every page of it is equal. A range that sticks out past the
      origin's last page is rejected because fewer bytes are absorbed for it. */
  lemma {:induction false} RangeCheck(hash: Hash, origin: seq<Page>, replica: seq<Page>, fpg: nat, npg: nat)
    requires 1 <= fpg && 1 <= npg && fpg + npg <= |replica| + 1
    requires NoCollision(hash, origin, replica)
    ensures RowHash(hash, replica, fpg, npg).Some?
    ensures Matches(hash, origin, fpg, npg, RowHash(hash, replica, fpg, npg).value)
      <==> forall p :: fpg <= p < fpg + npg ==> Same(origin, replica, p)
  {
    RowHashExists(hash, replica, fpg, npg);
    var end := fpg + npg;
    if forall p :: fpg <= p < end ==> Same(origin, replica, p) {
      EqualRangeMatches(hash, origin, replica, fpg, npg);
    }
    if Matches(hash, origin, fpg, npg, RowHash(hash, replica, fpg, npg).value) {
      if npg == 1 {
        assert HashesAlike(hash, origin, replica, fpg);
        return;
      }
      assert Digests(hash, origin, fpg, end) == Digests(hash, replica, fpg, end);
      DigestsLength(hash, origin, fpg, end);
      DigestsLength(hash, replica, fpg, end);
      assert end <= |origin| + 1;
      DigestsAgree(hash, origin, replica, fpg, end);
      forall p | fpg <= p < end ensures Same(origin, replica, p) {
        assert HashesAlike(hash, origin, replica, p);
      }
    }
  }

  // ---------------------------------------------------------------- which bytes are hashed

  /** The hashes of some pages, one after the other. */
  function PageHashes(hash: Hash, pages: seq<Page>): seq<Byte>
    decreases |pages|
  {
    if pages == [] then [] else hash(pages[0]) + PageHashes(hash, pages[1..])
  }

  /** `agghash` over a range absorbs the hashes of those of its pages that exist. */
  lemma {:induction false} DigestsOfSlice(hash: Hash, db: seq<Page>, lo: nat, hi: nat)
    requires 1 <= lo <= hi && lo <= |db| + 1
    ensures Digests(hash, db, lo, hi) == PageHashes(hash, db[lo - 1..Min(hi - 1, |db|)])
    decreases hi - lo
  {
    var end := Min(hi - 1, |db|);
    if lo == hi {
      assert db[lo - 1..end] == [];
    } else if lo <= |db| {
      DigestsOfSlice(hash, db, lo + 1, hi);
      assert db[lo - 1..end][0] == db[lo - 1] && db[lo - 1..end][1..] == db[lo..end];
    } else {
      DigestsLength(hash, db, lo, hi);
      assert db[lo - 1..end] == [];
    }
  }

  /** What the replica sends for a range of its pages: of one page the hash of its content, of
      several the hash of their hashes one after the other. */
  lemma {:induction false} RowHashIs(hash: Hash, db: seq<Page>, fpg: nat, npg: nat)
    requires 1 <= fpg && 1 <= npg && fpg + npg <= |db| + 1
    ensures RowHash(hash, db, fpg, npg) ==
      Some(if npg == 1 then hash(db[fpg - 1]) else hash(PageHashes(hash, db[fpg - 1..fpg + npg - 1])))
  {
    RowHashExists(hash, db, fpg, npg);
    if npg > 1 {
      DigestsOfSlice(hash, db, fpg, fpg + npg);
    }
  }

  /** What the origin accepts: the same hash of its own pages, of as many of the range as it has,
      and nothing if it has none. */
  lemma {:induction false} MatchesIs(hash: Hash, db: seq<Page>, iHash: nat, nHash: nat, received: Digest)
    requires 1 <= iHash && 1 <= nHash
    ensures Matches(hash, db, iHash, nHash, received) <==>
      && iHash <= |db|
      && received == if nHash == 1 then hash(db[iHash - 1])
                     else hash(PageHashes(hash, db[iHash - 1..Min(iHash + nHash - 1, |db|)]))
  {
    DigestsLength(hash, db, iHash, iHash + nHash);
    if iHash <= |db| {
      DigestsOfSlice(hash, db, iHash, iHash + nHash);
    }
  }
}
