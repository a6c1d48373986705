/** When the replica ends with the origin's page count, and two families of runs in which it does
    not. */
module PageCount {
  import opened Prelude
  import opened Database
  import opened PageHash
  import opened Protocol
  import opened Conversation
  import opened Invariant
  import opened Outcome
  import opened WireFormat

  // ---------------------------------------------------------------- files that count their pages

  /** The page count in the header on page 1, at bytes 28 to 31. */
  function HeaderCount(page: Page): nat
    requires 32 <= |page|
  {
    NumberAt(page, 28)
  }

  predicate CountsItself(db: seq<Page>) {
    db != [] && 32 <= |db[0]| && HeaderCount(db[0]) == |db|
  }

  /** Files whose headers hold their own page counts differ on page 1 if their lengths do. */
  lemma {:induction false} CountedFilesMatch(e: Scenario)
    requires Proper(e) && PageSize(e.pageSize)
    requires CountsItself(e.origin) && CountsItself(Base(e)) && |e.origin| != LockBytePage(e.pageSize)
    ensures SizeCondition(e)
  {
    hide Base, LockBytePage, HeaderCount, Halvings, Pow2;
    LockByteLies(e.pageSize, 1);
    if |Base(e)| > |e.origin| {
      assert 1 in Missing(e);
    }
  }

  /** Between such files the replica ends with exactly the origin's page count. */
  lemma {:induction false} CountedFilesConverge(e: Scenario, steps: seq<Step>)
    requires Proper(e) && PageSize(e.pageSize) && Compatible(e) && NoCollisions(e) && Uniform(e)
    requires CountsItself(e.origin) && CountsItself(Base(e)) && |e.origin| != LockBytePage(e.pageSize)
    requires Run(e, steps) && Over(After(e, steps))
    ensures |After(e, steps).r.committed| == |e.origin|
  {
    hide Run, After, Base, NoCollisions, Synced, Missing, CountsItself, SizeCondition;
    CountedFilesMatch(e);
    Convergence(e, steps);
  }

  // ---------------------------------------------------------------- nothing to send

  /** If nothing is missing the replica keeps every page it has, whatever collides. */
  lemma {:induction false} NothingMissing(e: Scenario, steps: seq<Step>)
    requires Proper(e) && Compatible(e) && Run(e, steps) && Over(After(e, steps))
    requires Missing(e) == {}
    ensures After(e, steps).r.committed == Base(e)
  {
    hide Run, After, Base, Budget, PageNumbers, Tally, Staged;
    var order := OverPhase(e, steps);
    NoneChosen(e, order);
    NothingStaged(e);
  }

  lemma {:induction false} NoneChosen(e: Scenario, order: seq<nat>)
    requires 1 <= e.pageSize && Chosen(e, order)
    ensures Missing(e) == {} ==> order == []
  {
    hide Missing;
    assert order != [] ==> order[0] in Missing(e);
  }

  const MAGIC: seq<Byte> :=
    [0x53, 0x51, 0x4c, 0x69, 0x74, 0x65, 0x20, 0x66, 0x6f, 0x72, 0x6d, 0x61, 0x74, 0x20, 0x33, 0x00]

  /** What SQLite checks on page 1 before it reads a file: the magic string, the page size at bytes
      16 and 17 (65536 as 1), versions at most 2, the payload fractions. */
  predicate Readable(page: Page) {
    && 512 <= |page|
    && page[..16] == MAGIC
    && (page[16] as nat * 256 + page[17] as nat == if |page| == 65536 then 1 else |page|)
    && page[18] <= 2 && page[19] <= 2 && page[21..24] == [64, 32, 32]
  }

  /** Page 1 of an empty database in rollback mode. Its header count is zero, as SQLite before 3.7.0
      leaves it; the length of the file counts then. */
  function FirstPage(size: nat): Page
    requires size == 512 || size == 65536
  {
    MAGIC + (if size == 512 then [2, 0] else [0, 1]) + [1, 1, 0, 64, 32, 32] + Blank(76)
    + [0x0d, 0, 0, 0, 0] + (if size == 512 then [2, 0] else [0, 0]) + Blank(size - 107)
  }

  lemma {:induction false} FirstPageReadable(size: nat)
    requires size == 512 || size == 65536
    ensures Readable(FirstPage(size)) && |FirstPage(size)| == size && HeaderCount(FirstPage(size)) == 0
  {
    var page := FirstPage(size);
    assert |page| == size;
    assert page[..16] == MAGIC;
    assert page[21..24] == [64, 32, 32];
    assert page[16] as nat == if size == 512 then 2 else 0;
    assert page[17] as nat == if size == 512 then 0 else 1;
    assert page[28] == 0 && page[29] == 0 && page[30] == 0 && page[31] == 0;
    assert page[28..32] == [0, 0, 0, 0];
  }

  /** An origin of one page and a replica of that page and an unused one. */
  function Longer(hash: Hash): Scenario {
    var page := FirstPage(512);
    Scenario([page], [page, Blank(512)], _ => DatabaseFile(512, false), _ => page, hash, 512, 2, 2)
  }

  /** With headers that do not count, the promise of exactly the origin's page count is not kept
      when no page differs, under any hash: the replica commits without truncating. Here it keeps
      two pages although the origin has one. */
  lemma {:induction false} PageCountCanDiffer(hash: Hash) returns (steps: seq<Step>)
    ensures Proper(Longer(hash)) && Compatible(Longer(hash)) && Uniform(Longer(hash))
    ensures Readable(Longer(hash).origin[0]) && Readable(Longer(hash).replica[0])
    ensures Run(Longer(hash), steps) && Over(After(Longer(hash), steps))
    ensures |After(Longer(hash), steps).r.committed| == 2 && |Longer(hash).origin| == 1
  {
    hide Run, After;
    var e := Longer(hash);
    FirstPageReadable(512);
    EmptyRun(e);
    steps := RunsComplete(e, []);
    assert Missing(e) == {};
    NothingMissing(e, steps);
  }

  lemma {:induction false} EmptyRun(e: Scenario)
    requires 1 <= e.pageSize
    ensures Run(e, [])
  {
  }

  // ---------------------------------------------------------------- the lock-byte page comes last

  /** An origin that ends with the lock-byte page leaves a shorter replica one page short, whatever
      collides: that page is never sent. */
  lemma {:induction false} LockBytePageLast(e: Scenario, steps: seq<Step>)
    requires Proper(e) && Compatible(e) && Uniform(e) && Run(e, steps) && Over(After(e, steps))
    requires |Base(e)| < |e.origin| == LockBytePage(e.pageSize)
    ensures |After(e, steps).r.committed| == |e.origin| - 1
  {
    hide Run, After, Base, Budget, PageNumbers, Tally, Staged, Overlay, NoCollisions;
    var order := OverPhase(e, steps);
    StagedPages(e, order);
    NothingStaged(e);
    var n, m := |Base(e)|, |e.origin|;
    assert n < m - 1 ==> m - 1 in order;
    assert forall i :: 0 <= i < |order| ==> order[i] <= m - 1;
    assert |Staged(e, order)| in order ==> |Staged(e, order)| <= m - 1;
  }

  /** An origin of 16385 pages of 65536 bytes, which ends with its lock-byte page. */
  function LockLast(hash: Hash): Scenario {
    var page := FirstPage(65536);
    Scenario([page] + seq(16384, _ => Blank(65536)), [page], _ => DatabaseFile(65536, false), _ => page, hash,
      65536, 2, 2)
  }

  lemma {:induction false} PageCountCanFallShort(hash: Hash) returns (steps: seq<Step>)
    ensures Proper(LockLast(hash)) && Compatible(LockLast(hash)) && Uniform(LockLast(hash))
    ensures Readable(LockLast(hash).origin[0]) && Readable(LockLast(hash).replica[0])
    ensures Run(LockLast(hash), steps) && Over(After(LockLast(hash), steps))
    ensures |After(LockLast(hash), steps).r.committed| == 16384 && |LockLast(hash).origin| == 16385
  {
    hide Run, After, Blank;
    var e := LockLast(hash);
    FirstPageReadable(65536);
    EmptyRun(e);
    BlankSize(65536);
    steps := RunsComplete(e, []);
    LockBytePageLast(e, steps);
  }

  lemma {:induction false} BlankSize(size: nat)
    ensures |Blank(size)| == size
  {
  }
}
