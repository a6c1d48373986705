/** A database file as `sqlite_dbpage` shows it: page `p` is element `p - 1`. */
module Database {
  import opened Prelude

  type Page = seq<Byte>

  function Blank(size: nat): (page: Page)
    ensures |page| == size && forall i :: 0 <= i < size ==> page[i] == 0
  {
    seq(size, _ => 0)
  }

  predicate Exists(db: seq<Page>, p: nat) {
    1 <= p <= |db|
  }

  /** INSERT INTO sqlite_dbpage(pgno, data): replaces the page; a page past the end extends the
      file, and the pages in between start out blank. */
  function WritePage(db: seq<Page>, p: nat, data: Page): (after: seq<Page>)
    requires 1 <= p
    ensures |after| == Max(|db|, p)
    ensures after[p - 1] == data
    ensures forall q :: 0 <= q < |db| && q != p - 1 ==> after[q] == db[q]
    ensures forall q :: |db| <= q < p - 1 ==> after[q] == Blank(|data|)
  {
    if p <= |db| then db[p - 1 := data]
    else db + seq(p - 1 - |db|, _ => Blank(|data|)) + [data]
  }

  /** INSERT of NULL at page `n + 1`: drops every page past `n`. */
  function Truncate(db: seq<Page>, n: nat): (after: seq<Page>)
    ensures |after| == Min(|db|, n)
    ensures forall q :: 0 <= q < |after| ==> after[q] == db[q]
  {
    if n < |db| then db[..n] else db
  }

  /** The page that holds SQLite's lock byte at file offset 2^30. */
  function LockBytePage(pageSize: nat): nat
    requires 1 <= pageSize
  {
    0x4000_0000 / pageSize + 1
  }

  /** Page 1 as the replica stores it: a database that was in WAL mode keeps the WAL version
      bytes when the origin's page carries the rollback ones. */
  function KeepWal(p: nat, wal: bool, data: Page): (kept: Page)
    ensures |kept| == |data|
    ensures p != 1 || !wal ==> kept == data
    ensures p == 1 && wal && 20 <= |data| ==>
      (if data[18] == 1 then kept[18] == kept[19] == 2 else kept == data)
    ensures forall i :: 0 <= i < |data| && i != 18 && i != 19 ==> kept[i] == data[i]
  {
    if p == 1 && wal && 20 <= |data| && data[18] == 1 then data[18 := 2][19 := 2] else data
  }

  /** Byte 2^30 of the file lies in page `p`. */
  predicate HoldsLockByte(p: nat, pageSize: nat) {
    1 <= p && (p - 1) * pageSize <= 0x4000_0000 < p * pageSize
  }

  /** The lock-byte page is the one page in which that byte lies. */
  lemma {:induction false} LockByteLies(pageSize: nat, p: nat)
    requires 1 <= pageSize
    ensures HoldsLockByte(p, pageSize) <==> p == LockBytePage(pageSize)
  {
    var q, r := 0x4000_0000 / pageSize, 0x4000_0000 % pageSize;
    assert 0x4000_0000 == q * pageSize + r;
    assert (q + 1) * pageSize == q * pageSize + pageSize;
    if HoldsLockByte(p, pageSize) {
      assert p * pageSize == (p - 1) * pageSize + pageSize;
      DivideUnique(0x4000_0000, pageSize, p - 1, 0x4000_0000 - (p - 1) * pageSize);
    }
  }
}
