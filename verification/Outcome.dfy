/** What a run leaves behind: the pages that travelled and the database the replica committed. */
module Outcome {
  import opened Prelude
  import opened Ranges
  import opened Database
  import opened Protocol
  import opened Conversation
  import opened Invariant
  import opened Preservation
  import opened Theorems

  // ---------------------------------------------------------------- the staged pages

  ghost predicate AllExist(e: Scenario, pages: seq<nat>) {
    forall i :: 0 <= i < |pages| ==> Exists(e.origin, pages[i])
  }

  /** Page `p` of the origin as the replica stores it. */
  function Stored(e: Scenario, p: nat): Page
    requires Exists(e.origin, p)
  {
    KeepWal(p, KeptWal(e), e.origin[p - 1])
  }

  predicate Uniform(e: Scenario) {
    forall i :: 0 <= i < |e.origin| ==> |e.origin[i]| == e.pageSize
  }

  /** Page `p` after staging: the origin's if it was sent, else what the replica had, else blank. */
  function Overlay(e: Scenario, pages: set<nat>, p: nat): Page
    requires forall q :: q in pages ==> Exists(e.origin, q)
  {
    if p in pages then Stored(e, p)
    else if Exists(Base(e), p) then Base(e)[p - 1]
    else Blank(e.pageSize)
  }

  /** Staging pages in any order: the length is the replica's or the highest page sent, and each
      page is the overlay of the two databases. */
  lemma {:induction false} StagedPages(e: Scenario, pages: seq<nat>)
    requires Uniform(e) && AllExist(e, pages)
    ensures forall q :: q in Elements(pages) ==> Exists(e.origin, q)
    ensures |Base(e)| <= |Staged(e, pages)|
    ensures forall p :: p in pages ==> p <= |Staged(e, pages)|
    ensures |Staged(e, pages)| == |Base(e)| || |Staged(e, pages)| in pages
    ensures forall p: nat :: 1 <= p <= |Staged(e, pages)| ==>
      Staged(e, pages)[p - 1] == Overlay(e, Elements(pages), p)
    decreases |pages|
  {
    hide Base, KeepWal, Blank;
    if pages != [] {
      var k := |pages| - 1;
      var before, last := pages[..k], pages[k];
      StagedPages(e, before);
      assert pages == before + [last];
      assert Elements(pages) == Elements(before) + {last};
      StageOne(e, Staged(e, before), Elements(before), last);
    }
  }

  lemma {:induction false} StageOne(e: Scenario, db: seq<Page>, sent: set<nat>, last: nat)
    requires Uniform(e) && Exists(e.origin, last)
    requires forall q :: q in sent ==> Exists(e.origin, q)
    requires |Base(e)| <= |db| && (forall p :: p in sent ==> p <= |db|)
    requires forall p: nat :: 1 <= p <= |db| ==> db[p - 1] == Overlay(e, sent, p)
    ensures var after := WritePage(db, last, Stored(e, last));
      forall p: nat :: 1 <= p <= |after| ==> after[p - 1] == Overlay(e, sent + {last}, p)
  {
    hide Base, KeepWal, Blank;
    var after := WritePage(db, last, Stored(e, last));
    forall p: nat | 1 <= p <= |after| ensures after[p - 1] == Overlay(e, sent + {last}, p) {
      if p != last && p <= |db| {
        assert db[p - 1] == Overlay(e, sent, p);
      }
    }
  }

  // ---------------------------------------------------------------- the committed database

  /** The committed database has every page of the origin but the lock-byte page, as the replica
      stores it; a lock-byte page the replica had is left alone. */
  ghost predicate Synced(e: Scenario, db: seq<Page>)
    requires 1 <= e.pageSize
  {
    && (forall p :: Exists(e.origin, p) && p != LockBytePage(e.pageSize) ==>
          Exists(db, p) && db[p - 1] == if p in Missing(e) then Stored(e, p) else e.origin[p - 1])
    && (var lock := LockBytePage(e.pageSize);
        Exists(db, lock) && Exists(Base(e), lock) ==> db[lock - 1] == Base(e)[lock - 1])
  }

  lemma {:induction false} NothingStaged(e: Scenario)
    ensures Staged(e, []) == Base(e)
  {
  }

  lemma {:induction false} FinalSynced(e: Scenario, order: seq<nat>)
    requires Proper(e) && Uniform(e) && NoCollisions(e) && Chosen(e, order)
    ensures AllExist(e, order) && Synced(e, Final(e, order))
  {
    hide Base, NoCollisions, Stored, Staged, Blank;
    StagedPages(e, order);
    NothingStaged(e);
    var lock, db := LockBytePage(e.pageSize), Final(e, order);
    assert forall i :: 0 <= i < |db| ==> db[i] == Staged(e, order)[i];
    forall p | Exists(e.origin, p) && p != lock
      ensures Exists(db, p) && db[p - 1] == if p in Missing(e) then Stored(e, p) else e.origin[p - 1]
    {
      assert p in Missing(e) <==> p in Elements(order);
      assert p !in order ==> Alike(e, p);
      assert Staged(e, order)[p - 1] == Overlay(e, Elements(order), p);
    }
    assert lock !in Elements(order);
    if Exists(db, lock) && Exists(Base(e), lock) {
      assert Staged(e, order)[lock - 1] == Overlay(e, Elements(order), lock);
    }
  }

  /** The replica ends with exactly the origin's page count unless it was longer and no page was
      sent, or shorter and the origin's last page is the lock-byte page. */
  predicate SizeCondition(e: Scenario)
    requires 1 <= e.pageSize
  {
    || |Base(e)| == |e.origin|
    || (|Base(e)| < |e.origin| && |e.origin| != LockBytePage(e.pageSize))
    || (|Base(e)| > |e.origin| && Missing(e) != {})
  }

  lemma {:induction false} FinalSize(e: Scenario, order: seq<nat>)
    requires Proper(e) && Uniform(e) && NoCollisions(e) && Chosen(e, order)
    ensures AllExist(e, order) && (|Final(e, order)| == |e.origin| <==> SizeCondition(e))
  {
    hide Base, NoCollisions, Stored, Staged, Overlay;
    StagedPages(e, order);
    var n, m := |Base(e)|, |e.origin|;
    assert order == [] <==> Missing(e) == {} by {
      assert order != [] ==> order[0] in Elements(order);
      assert order == [] ==> Elements(order) == {};
    }
    if n < m && m != LockBytePage(e.pageSize) {
      assert m in order;
    }
    assert forall p :: p in order ==> p in Missing(e);
  }

  /** The order in which the pages were streamed does not matter. */
  lemma {:induction false} FinalUnique(e: Scenario, order: seq<nat>, other: seq<nat>)
    requires Proper(e) && Uniform(e) && Chosen(e, order) && Chosen(e, other)
    requires Elements(order) == Elements(other)
    ensures AllExist(e, order) && AllExist(e, other) && Final(e, order) == Final(e, other)
  {
    hide Base, NoCollisions, Stored, Staged, Overlay, Missing;
    StagedPages(e, order);
    StagedPages(e, other);
    var a, b := Staged(e, order), Staged(e, other);
    assert order == [] <==> other == [] by {
      assert order != [] ==> order[0] in Elements(other);
      assert other != [] ==> other[0] in Elements(order);
    }
    assert |a| == |b| by {
      assert |a| in Elements(order) ==> |a| in other;
      assert |b| in Elements(other) ==> |b| in order;
    }
    forall i | 0 <= i < |a| ensures a[i] == b[i] {
      assert a[i + 1 - 1] == Overlay(e, Elements(order), i + 1);
      assert b[i + 1 - 1] == Overlay(e, Elements(other), i + 1);
    }
    assert a == b;
  }

  // ---------------------------------------------------------------- all runs

  /** The phase of a run that is over. */
  lemma {:induction false} OverPhase(e: Scenario, steps: seq<Step>) returns (order: seq<nat>)
    requires Proper(e) && Compatible(e) && Run(e, steps) && Over(After(e, steps))
    ensures CommittedInv(e, After(e, steps), order, [], Ended, Ended)
  {
    hide Base, Budget, PageNumbers, Tally, Planned, NoLonger, Incoming, Reaching, Chosen, Staged, Final, Genuine,
      Version1, Ascending, Run, After, MaxRounds;
    var phase := RunInv(e, steps);
    order := if phase.Finished? then phase.order else [];
  }

  /** At any time of any run only missing pages have travelled, each at most once and with the
      origin's content, whatever collides; in a run that is over all pages past the replica's end
      have. */
  lemma {:induction false} OnlyMissingTravels(e: Scenario, steps: seq<Step>)
    requires Proper(e) && Run(e, steps)
    ensures var sent := After(e, steps).down.sent;
      && Distinct(PageNumbers(sent))
      && (forall p :: p in PageNumbers(sent) ==> p in Missing(e))
      && Genuine(e, sent)
  {
    hide Base, Budget, PageNumbers, Tally, Planned, NoLonger, Incoming, Reaching, Staged, Final, Genuine,
      Version1, Ascending, Run, After, MaxRounds, Missing;
    var phase := RunInv(e, steps);
  }

  /** Without collisions a run that is over has sent exactly the missing pages, each once, and
      both sides counted them. */
  lemma {:induction false} Exactness(e: Scenario, steps: seq<Step>)
    requires Proper(e) && Compatible(e) && NoCollisions(e)
    requires Run(e, steps) && Over(After(e, steps))
    ensures var s := After(e, steps);
      && Distinct(PageNumbers(s.down.sent))
      && Elements(PageNumbers(s.down.sent)) == Missing(e)
      && s.o.pageUpdates == s.r.pageUpdates == |Missing(e)|
  {
    hide Base, Budget, PageNumbers, Tally, Staged, Final, Genuine, Run, After, MaxRounds, NoCollisions;
    var order := OverPhase(e, steps);
    DistinctCardinality(order);
  }

  /** Convergence: without collisions a run that is over has committed a synced database; nothing
      changed if nothing was missing; and the page count is the origin's exactly under
      `SizeCondition`. */
  lemma {:induction false} Convergence(e: Scenario, steps: seq<Step>)
    requires Proper(e) && Compatible(e) && NoCollisions(e) && Uniform(e)
    requires Run(e, steps) && Over(After(e, steps))
    ensures var db := After(e, steps).r.committed;
      && Synced(e, db)
      && (Missing(e) == {} ==> db == Base(e))
      && (|db| == |e.origin| <==> SizeCondition(e))
  {
    hide Base, Budget, PageNumbers, Tally, Staged, Genuine, Run, After, MaxRounds, NoCollisions, Synced,
      SizeCondition, Missing;
    var order := OverPhase(e, steps);
    FinalSynced(e, order);
    FinalSize(e, order);
    assert order != [] ==> order[0] in Elements(order);
  }

  /** Any two runs between the same databases that are over commit the same pages, however rows
      were ordered and messages were buffered. */
  lemma {:induction false} Confluence(e: Scenario, steps: seq<Step>, others: seq<Step>)
    requires Proper(e) && Compatible(e) && NoCollisions(e) && Uniform(e)
    requires Run(e, steps) && Over(After(e, steps))
    requires Run(e, others) && Over(After(e, others))
    ensures After(e, steps).r.committed == After(e, others).r.committed
  {
    hide Base, Budget, PageNumbers, Tally, Staged, Final, Genuine, Run, After, MaxRounds, NoCollisions, Missing;
    var order := OverPhase(e, steps);
    var other := OverPhase(e, others);
    FinalUnique(e, order, other);
  }

  /** A run between databases of different page sizes changes nothing and sends no page. */
  lemma {:induction false} RefusalChangesNothing(e: Scenario, steps: seq<Step>)
    requires Proper(e) && !Compatible(e) && Run(e, steps)
    ensures After(e, steps).r.committed == e.replica
    ensures PageNumbers(After(e, steps).down.sent) == []
  {
    hide Base, Budget, PageNumbers, Tally, Planned, NoLonger, Incoming, Reaching, Staged, Final, Genuine,
      Version1, Ascending, Run, After, MaxRounds, Missing;
    var phase := RunInv(e, steps);
  }

  // ---------------------------------------------------------------- the same, spelled out

  /** The replica's pages when the comparison starts. */
  lemma {:induction false} BaseIs(e: Scenario)
    ensures Base(e) == if e.replica == [] then [e.header(e.pageSize)] else e.replica
  {
  }

  /** Without collisions a run that is over has sent page `p` if and only if the origin has it, byte
      2^30 of the file does not lie in it, and the replica had no such page or another content. */
  lemma {:induction false} ExactlyWhichPages(e: Scenario, steps: seq<Step>, p: nat)
    requires Proper(e) && Compatible(e) && NoCollisions(e)
    requires Run(e, steps) && Over(After(e, steps))
    ensures var before := if e.replica == [] then [e.header(e.pageSize)] else e.replica;
      p in PageNumbers(After(e, steps).down.sent) <==>
        && 1 <= p <= |e.origin|
        && !((p - 1) * e.pageSize <= 0x4000_0000 < p * e.pageSize)
        && (p > |before| || e.origin[p - 1] != before[p - 1])
  {
    hide Base, Run, After, PageNumbers, NoCollisions, LockBytePage;
    Exactness(e, steps);
    BaseIs(e);
    LockByteLies(e.pageSize, p);
    assert p in Elements(PageNumbers(After(e, steps).down.sent)) <==> p in Missing(e);
  }

  /** A replica file that is a database of page size `size`: the run cannot fail if that is the
      origin's; otherwise, when it is over, both sides have failed, no page was sent and the file is
      as it was. */
  lemma {:induction false} PageSizeDecides(e: Scenario, steps: seq<Step>, size: nat, wal: bool)
    requires Proper(e) && Run(e, steps)
    requires e.replica != [] && e.file(e.replica) == DatabaseFile(size, wal)
    ensures size == e.pageSize ==> !After(e, steps).o.status.Failed? && !After(e, steps).r.status.Failed?
    ensures size != e.pageSize ==>
      After(e, steps).r.committed == e.replica && PageNumbers(After(e, steps).down.sent) == []
    ensures size != e.pageSize && Over(After(e, steps)) ==>
      After(e, steps).o.status.Failed? && After(e, steps).r.status.Failed?
  {
    hide Run, After, PageNumbers;
    FailsIffIncompatible(e, steps);
    if size != e.pageSize {
      RefusalChangesNothing(e, steps);
    }
  }

  /** A replica file that SQLite cannot read as a database is refused and left as it is. */
  lemma {:induction false} UnreadableRefused(e: Scenario, steps: seq<Step>)
    requires Proper(e) && Run(e, steps) && e.file(e.replica) == NoDatabase
    ensures After(e, steps).r.committed == e.replica && PageNumbers(After(e, steps).down.sent) == []
    ensures Over(After(e, steps)) ==> After(e, steps).o.status.Failed? && After(e, steps).r.status.Failed?
  {
    hide Run, After, PageNumbers;
    FailsIffIncompatible(e, steps);
    RefusalChangesNothing(e, steps);
  }

  /** An empty replica file for which SQLite would choose page size `size`: it takes on the origin's
      if that is `size` or at least 512, and is refused otherwise. */
  lemma {:induction false} EmptyAdopts(e: Scenario, steps: seq<Step>, size: nat, wal: bool)
    requires Proper(e) && Run(e, steps)
    requires e.replica == [] && e.file([]) == DatabaseFile(size, wal)
    ensures size == e.pageSize || 512 <= e.pageSize ==>
      !After(e, steps).o.status.Failed? && !After(e, steps).r.status.Failed?
    ensures size != e.pageSize && e.pageSize < 512 ==>
      After(e, steps).r.committed == [] && PageNumbers(After(e, steps).down.sent) == []
    ensures size != e.pageSize && e.pageSize < 512 && Over(After(e, steps)) ==>
      After(e, steps).o.status.Failed? && After(e, steps).r.status.Failed?
  {
    hide Run, After, PageNumbers;
    FailsIffIncompatible(e, steps);
    if size != e.pageSize && e.pageSize < 512 {
      RefusalChangesNothing(e, steps);
    }
  }

  /** Each page of the origin that the lock byte does not lie in, as a run that is over commits it:
      the origin's content; only on page 1 of a replica that was in WAL mode, if it was sent with
      byte 18 at 1, bytes 18 and 19 become 2. */
  lemma {:induction false} CommittedPage(e: Scenario, steps: seq<Step>, size: nat, wal: bool, p: nat)
    requires Proper(e) && NoCollisions(e) && Uniform(e) && Run(e, steps) && Over(After(e, steps))
    requires e.replica != [] && e.file(e.replica) == DatabaseFile(size, wal) && size == e.pageSize
    requires 1 <= p <= |e.origin| && !((p - 1) * e.pageSize <= 0x4000_0000 < p * e.pageSize)
    requires 20 <= e.pageSize
    ensures var db, sent := After(e, steps).r.committed, e.origin[p - 1];
      && p <= |db| && |sent| == e.pageSize
      && db[p - 1] == if p == 1 && wal && sent[18] == 1 && sent != e.replica[0] then sent[18 := 2][19 := 2] else sent
  {
    hide Run, After, NoCollisions, LockBytePage, SizeCondition;
    Convergence(e, steps);
    BaseIs(e);
    hide Base;
    LockByteLies(e.pageSize, p);
    assert Exists(e.origin, p);
    assert |e.origin[p - 1]| == e.pageSize;
  }

  // ---------------------------------------------------------------- atomicity

  lemma {:induction false} CommitsOnce(e: Scenario, s: System, step: Step, phase: Phase)
    requires Proper(e) && Inv(e, s, phase) && Enabled(e, s, step)
    ensures s.r.committed == e.replica || Apply(e, s, step).r.committed == s.r.committed
  {
    hide Base, Budget, PageNumbers, Tally, Planned, NoLonger, Incoming, Reaching, Chosen, Staged, Final, Genuine,
      Version1, Ascending, MaxRounds, Missing, OriginReply;
    if step.ReplicaReads? && (phase.Parting? || phase.Closing? || phase.Finished?) {
      Taken(s.down);
    }
  }

  lemma {:induction false} RunPrefix(e: Scenario, steps: seq<Step>, k: nat)
    requires 1 <= e.pageSize && Run(e, steps) && k <= |steps|
    ensures Run(e, steps[..k])
    decreases |steps|
  {
    hide Enabled, Apply;
    if k < |steps| {
      RunPrefix(e, steps[..|steps| - 1], k);
      assert steps[..|steps| - 1][..k] == steps[..k];
    } else {
      assert steps[..k] == steps;
    }
  }

  /** Atomicity: if a run is cut short after any number of steps, what the replica has committed is
      either what it started with or what the whole run commits. */
  lemma {:induction false} Atomicity(e: Scenario, steps: seq<Step>, k: nat)
    requires Proper(e) && Run(e, steps) && k <= |steps|
    ensures Run(e, steps[..k])
    ensures var cut := After(e, steps[..k]).r.committed;
      cut == e.replica || cut == After(e, steps).r.committed
    decreases |steps|
  {
    hide Enabled, Apply, Inv;
    RunPrefix(e, steps, k);
    if k < |steps| {
      var before := steps[..|steps| - 1];
      Atomicity(e, before, k);
      assert before[..k] == steps[..k];
      var phase := RunInv(e, before);
      CommitsOnce(e, After(e, before), steps[|steps| - 1], phase);
    } else {
      assert steps[..k] == steps;
    }
  }

  /** While pages are on their way the transaction is open and nothing has been committed: no page
      follows the commit message. */
  lemma {:induction false} PagesBeforeCommit(e: Scenario, steps: seq<Step>)
    requires Proper(e) && Run(e, steps)
    requires PageNumbers(After(e, steps).down.Unread()) != []
    ensures After(e, steps).r.txn.Some? && After(e, steps).r.committed == e.replica
    ensures Tally(After(e, steps).down.sent[..After(e, steps).down.read], TxnKind) == 0
  {
    hide Base, Budget, PageNumbers, Tally, Planned, NoLonger, Incoming, Reaching, Chosen, Staged, Final, Genuine,
      Version1, Ascending, Run, After, MaxRounds;
    var phase := RunInv(e, steps);
    var s := After(e, steps);
    if phase.Paging? {
      var tail := [OTxn(|e.origin|), OEnd];
      ChosenExist(e, phase.order);
      var pages := PageMessages(e, phase.order[phase.done..]);
      TailCounted(|e.origin|);
      TallyAppend(pages, tail, TxnKind);
      TallyAppend(s.down.sent[..s.down.read], s.down.Unread(), TxnKind);
      assert s.down.sent == s.down.sent[..s.down.read] + s.down.Unread();
    } else {
      NoPageNumbers(s.down.Unread());
    }
  }

  // ---------------------------------------------------------------- completion

  /** Every run can be continued until both roles have left, and no run can be continued for ever. */
  lemma {:induction false} RunsComplete(e: Scenario, steps: seq<Step>) returns (full: seq<Step>)
    requires Proper(e) && Run(e, steps)
    ensures steps <= full && Run(e, full) && Over(After(e, full))
    decreases 16 * |Base(e)| + 2 * |e.origin| + 21 - |steps|
  {
    hide Base, Run, After;
    if Over(After(e, steps)) {
      full := steps;
    } else {
      var step := NoDeadlock(e, steps);
      RunsAreBounded(e, steps + [step]);
      full := RunsComplete(e, steps + [step]);
    }
  }
}
