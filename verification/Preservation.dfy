/** Every step of the pair of roles keeps the invariant and lowers the rank. */
module Preservation {
  import opened Prelude
  import opened Ranges
  import opened Database
  import opened PageHash
  import opened Protocol
  import opened Conversation
  import opened Invariant
  import opened Planning

  // ---------------------------------------------------------------- streams and batches

  lemma {:induction false} Taken<T>(stream: Stream<T>)
    requires stream.Ok() && stream.read < stream.shown
    ensures stream.Unread() != [] && stream.sent[stream.read] == stream.Unread()[0]
    ensures stream.(read := stream.read + 1).Ok()
    ensures stream.(read := stream.read + 1).Unread() == stream.Unread()[1..]
  {
  }

  lemma {:induction false} Written<T>(stream: Stream<T>, out: seq<T>)
    requires stream.Ok() && stream.Unread() == []
    ensures stream.Append(out).Ok()
    ensures stream.Append(out).Unread() == out
  {
    assert stream.read == |stream.sent|;
  }

  /** Reading a message lowers the rank if what it makes the reader write was accounted for. */
  lemma {:induction false} ReplicaReadRank(e: Scenario, s: System, s': System, phase: Phase, next: Phase)
    requires s.down.Ok() && s.up.Ok() && s.down.read < s.down.shown
    requires s'.down == s.down.(read := s.down.read + 1)
    requires s'.up.shown == s.up.shown && s'.up.read == s.up.read && |s.up.sent| <= |s'.up.sent|
    requires 2 * (|s'.up.sent| - |s.up.sent|) + Ahead(e, s', next) <= Ahead(e, s, phase)
    ensures s'.down.Ok() && s'.up.Ok()
    ensures Rank(e, s', next) < Rank(e, s, phase)
  {
  }

  lemma {:induction false} OriginReadRank(e: Scenario, s: System, s': System, phase: Phase, next: Phase)
    requires s.down.Ok() && s.up.Ok() && s.up.read < s.up.shown
    requires s'.up == s.up.(read := s.up.read + 1)
    requires s'.down.shown == s.down.shown && s'.down.read == s.down.read && |s.down.sent| <= |s'.down.sent|
    requires 2 * (|s'.down.sent| - |s.down.sent|) + Ahead(e, s', next) <= Ahead(e, s, phase)
    ensures s'.down.Ok() && s'.up.Ok()
    ensures Rank(e, s', next) < Rank(e, s, phase)
  {
  }

  lemma {:induction false} PageNumbersAppend(a: seq<OriginMsg>, b: seq<OriginMsg>)
    ensures PageNumbers(a + b) == PageNumbers(a) + PageNumbers(b)
    decreases |b|
  {
    if b == [] {
      assert a + b == a;
    } else {
      var m := b[|b| - 1];
      assert (a + b)[..|a + b| - 1] == a + b[..|b| - 1];
      PageNumbersAppend(a, b[..|b| - 1]);
    }
  }

  lemma {:induction false} NoPageNumbers(a: seq<OriginMsg>)
    requires forall m :: m in a ==> !m.OPage?
    ensures PageNumbers(a) == []
    decreases |a|
  {
    if a != [] {
      NoPageNumbers(a[..|a| - 1]);
    }
  }

  lemma {:induction false} TallyAppend(a: seq<OriginMsg>, b: seq<OriginMsg>, kind: OriginKind)
    ensures Tally(a + b, kind) == Tally(a, kind) + Tally(b, kind)
    decreases |b|
  {
    if b == [] {
      assert a + b == a;
    } else {
      assert (a + b)[..|a + b| - 1] == a + b[..|b| - 1];
      TallyAppend(a, b[..|b| - 1], kind);
    }
  }

  lemma {:induction false} TallyNone(a: seq<OriginMsg>, kind: OriginKind)
    requires forall m :: m in a ==> OriginKindOf(m) != kind
    ensures Tally(a, kind) == 0
    decreases |a|
  {
    if a != [] {
      TallyNone(a[..|a| - 1], kind);
    }
  }

  lemma {:induction false} StreamedNumbers(e: Scenario, order: seq<nat>)
    requires forall i :: 0 <= i < |order| ==> Exists(e.origin, order[i])
    ensures PageNumbers(PageMessages(e, order)) == order
    decreases |order|
  {
    if order != [] {
      var k := |order| - 1;
      assert PageMessages(e, order)[..k] == PageMessages(e, order[..k]);
      StreamedNumbers(e, order[..k]);
      assert order == order[..k] + [order[k]];
    }
  }

  /** The first message of a non-empty batch. */
  lemma {:induction false} EmitFirst(e: Scenario, rows: seq<Row>, iHash: nat, nHash: nat)
    requires rows != []
    requires 1 <= rows[0].fpg && 1 <= rows[0].npg && rows[0].End() <= |Base(e)| + 1
    requires |Base(e)| <= MAX_PAGES
    ensures var row, out := rows[0], Emit(e.hash, Base(e), rows, iHash, nHash);
      var h := RowHash(e.hash, Base(e), row.fpg, row.npg);
      && h.Some?
      && (row == Row(iHash, nHash) ==>
            out != [] && out[0] == RHash(h.value) && out[1..] == Emit(e.hash, Base(e), rows[1..], row.End(), row.npg))
      && (row != Row(iHash, nHash) ==>
            out != [] && out[0] == RConfig(row.fpg, row.npg) &&
            out[1..] == Emit(e.hash, Base(e), rows, row.fpg, row.npg))
  {
    var row := rows[0];
    RowHashExists(e.hash, Base(e), row.fpg, row.npg);
    var h := RowHash(e.hash, Base(e), row.fpg, row.npg);
    var tail := Emit(e.hash, Base(e), rows[1..], row.End(), row.npg);
    assert Emit(e.hash, Base(e), rows, row.fpg, row.npg) == [RHash(h.value)] + tail;
    if row != Row(iHash, nHash) {
      assert Emit(e.hash, Base(e), rows, iHash, nHash) == [RConfig(row.fpg, row.npg)] + ([RHash(h.value)] + tail);
    }
  }

  lemma {:induction false} EmitLength(hash: Hash, db: seq<Page>, rows: seq<Row>, iHash: nat, nHash: nat)
    ensures |Emit(hash, db, rows, iHash, nHash)| <= 2 * |rows| + 1
    decreases |rows|
  {
    if rows != [] {
      EmitLength(hash, db, rows[1..], Add32(rows[0].fpg, rows[0].npg), rows[0].npg);
    }
  }

  /** All rows inside the database are hashed. */
  lemma {:induction false} HashedAll(hash: Hash, db: seq<Page>, rows: seq<Row>)
    requires forall a :: a in rows ==> 1 <= a.fpg && 1 <= a.npg && a.End() <= |db| + 1
    ensures Hashed(hash, db, rows) == rows
    decreases |rows|
  {
    if rows != [] {
      RowHashExists(hash, db, rows[0].fpg, rows[0].npg);
      HashedAll(hash, db, rows[1..]);
    }
  }

  /** A batch of consecutive single pages, starting where the counter stands, needs no
      announcement. */
  lemma {:induction false} SinglesUnannounced(hash: Hash, db: seq<Page>, rows: seq<Row>, i: nat, end: nat)
    requires Tiles(rows, i, end) && end < U32_LIMIT
    requires forall a :: a in rows ==> a.npg == 1
    ensures forall m :: m in Emit(hash, db, rows, i, 1) ==> !m.RConfig?
    decreases |rows|
  {
    if rows != [] {
      TilesMeaning(rows, i, end);
      SinglesUnannounced(hash, db, rows[1..], rows[0].End(), end);
    }
  }

  // ---------------------------------------------------------------- greeting

  lemma {:induction false} ReadHello(e: Scenario, s: System) returns (next: Phase)
    requires Proper(e) && Always(e, s) && GreetingInv(e, s) && Enabled(e, s, ReplicaReads)
    ensures Inv(e, Apply(e, s, ReplicaReads), next)
    ensures Rank(e, Apply(e, s, ReplicaReads), next) < Rank(e, s, Greeting)
  {
    hide FirstRows, HashingInv, InitialRows, PageNumbers, Tally, Genuine, Put, Listing, SendHashes, Base;
    Taken(s.down);
    if s.o.protocol > e.replicaProtocol {
      next := Downgrading;
      Written(s.up, [RBegin(e.replicaProtocol)]);
    } else if !Compatible(e) {
      next := Refused;
      Written(s.up, [RError([])]);
    } else {
      next := Hashing(FirstRows(e));
      ReadAcceptedHello(e, s, FirstRows(e));
    }
  }

  function FirstRows(e: Scenario): seq<Row> {
    InitialRows(Agreed(e), |Base(e)|)
  }

  lemma {:induction false} FirstRowsShape(e: Scenario)
    requires Proper(e)
    ensures Ascending(FirstRows(e)) && FirstRows(e) != []
    ensures Tiles(FirstRows(e), 1, |Base(e)| + 1)
    ensures FirstRows(e)[|FirstRows(e)| - 1].End() == |Base(e)| + 1
    ensures NoLonger(Elements(FirstRows(e)), RowBound(MaxRounds(e) - 1))
    ensures Listing(Put(map[], FirstRows(e))) == FirstRows(e)
    ensures |FirstRows(e)| <= Budget(e, 1)
  {
    hide Chunks, InitialRows, Ascending, Tiles, Put, Base;
    InitialRowsTile(Agreed(e), |Base(e)|);
    TilesMeaning(FirstRows(e), 1, |Base(e)| + 1);
    ListingOfPut(FirstRows(e));
    assert Spent(MaxRounds(e), 1) == 0;
  }

  lemma {:induction false} TilesPlanned(e: Scenario, rows: seq<Row>)
    requires Tiles(rows, 1, |Base(e)| + 1)
    ensures Planned(e, {}, Elements(rows))
    ensures |rows| <= |Base(e)|
  {
    var n := |Base(e)|;
    TilesMeaning(rows, 1, n + 1);
    AscendingSeparate(rows);
    assert {} + Elements(rows) == Elements(rows);
    forall p | 1 <= p <= n ensures Open(Elements(rows), p) {
      assert Covered(rows, p);
      var i :| 0 <= i < |rows| && rows[i].Has(p);
      assert rows[i] in Elements(rows);
    }
    RowsBound(Elements(rows), n);
    DistinctCardinality(rows);
  }

  lemma {:induction false} TilesSent(e: Scenario, rows: seq<Row>)
    requires Proper(e) && Tiles(rows, 1, |Base(e)| + 1)
    ensures Hashed(e.hash, Base(e), rows) == rows
    ensures NoLonger(Elements(rows), 1) ==> forall m :: m in Emit(e.hash, Base(e), rows, 1, 1) ==> !m.RConfig?
  {
    var n := |Base(e)|;
    TilesMeaning(rows, 1, n + 1);
    HashedAll(e.hash, Base(e), rows);
    if NoLonger(Elements(rows), 1) {
      forall a | a in rows ensures a.npg == 1 {
        assert a in Elements(rows);
      }
      SinglesUnannounced(e.hash, Base(e), rows, 1, n + 1);
    }
  }

  /** The replica after its first batch. */
  function Hashing1(e: Scenario, rows: seq<Row>): ReplicaState {
    ReplicaStart(e).(protocol := Agreed(e), pageSize := e.pageSize, pageCount := |e.origin|, wal := KeptWal(e),
      txn := Some(Base(e)), sendHash := Some(map[]), hashMessages := |rows|, hashRounds := 1)
  }

  /** The replica's reply to a greeting at a version it speaks. */
  lemma {:induction false} HelloReply(e: Scenario, rows: seq<Row>)
    requires Compatible(e) && Agreed(e) <= e.replicaProtocol
    requires rows == FirstRows(e)
    requires Listing(Put(map[], rows)) == rows
    requires Hashed(e.hash, Base(e), rows) == rows
    ensures ReplicaReply(e, ReplicaStart(e), Hello(e, Agreed(e))) ==
      (Hashing1(e, rows), Emit(e.hash, Base(e), rows, 1, 1))
    ensures RowsHashedBy(e, ReplicaStart(e), Hello(e, Agreed(e))) == rows
  {
    assert Put(map[], InitialRows(Agreed(e), |Base(e)|)) == Put(map[], rows);
  }

  /** The state after the first batch was written. */
  ghost function AfterHello(e: Scenario, s: System, rows: seq<Row>): System {
    s.(r := Hashing1(e, rows), down := s.down.(read := s.down.read + 1),
       up := s.up.Append(Emit(e.hash, Base(e), rows, 1, 1)), hashed := s.hashed + rows)
  }

  lemma {:induction false} HelloStep(e: Scenario, s: System, rows: seq<Row>)
    requires Proper(e) && Enabled(e, s, ReplicaReads)
    requires s.r == ReplicaStart(e) && s.down.sent[s.down.read] == Hello(e, Agreed(e))
    requires Compatible(e) && Agreed(e) <= e.replicaProtocol
    requires rows == FirstRows(e)
    ensures Apply(e, s, ReplicaReads) == AfterHello(e, s, rows)
  {
    FirstRowsShape(e);
    TilesSent(e, rows);
    HelloReply(e, rows);
  }

  lemma {:induction false} ReadAcceptedHello(e: Scenario, s: System, rows: seq<Row>)
    requires Proper(e) && Always(e, s) && GreetingInv(e, s) && Enabled(e, s, ReplicaReads)
    requires s.o.protocol <= e.replicaProtocol && Compatible(e)
    requires rows == FirstRows(e)
    ensures Always(e, Apply(e, s, ReplicaReads)) && HashingInv(e, Apply(e, s, ReplicaReads), rows)
    ensures Rank(e, Apply(e, s, ReplicaReads), Hashing(rows)) < Rank(e, s, Greeting)
  {
    hide Always, HashingInv, Rank, AfterHello, Apply, InitialRows, Tiles, Ascending, NoLonger, Budget, Put, Listing;
    Taken(s.down);
    HelloStep(e, s, rows);
    FirstRowsShape(e);
    EnterHashing(e, s, rows);
    FirstBatchRank(e, s, rows);
  }

  lemma {:induction false} FirstBatchRank(e: Scenario, s: System, rows: seq<Row>)
    requires s.down.Ok() && s.up.Ok() && s.down.read < s.down.shown
    requires Tiles(rows, 1, |Base(e)| + 1)
    ensures AfterHello(e, s, rows).down.Ok() && AfterHello(e, s, rows).up.Ok()
    ensures Rank(e, AfterHello(e, s, rows), Hashing(rows)) < Rank(e, s, Greeting)
  {
    var s' := AfterHello(e, s, rows);
    EmitLength(e.hash, Base(e), rows, 1, 1);
    TilesPlanned(e, rows);
    FirstBatchAhead(e, s, s', rows);
    ReplicaReadRank(e, s, s', Greeting, Hashing(rows));
  }

  lemma {:induction false} FirstBatchAhead(e: Scenario, s: System, s': System, rows: seq<Row>)
    requires s'.r.hashRounds == 1
    ensures 4 * |Base(e)| + 2 + Ahead(e, s', Hashing(rows)) <= Ahead(e, s, Greeting)
  {
  }

  lemma {:induction false} EnterHashing(e: Scenario, s: System, rows: seq<Row>)
    requires Proper(e) && Always(e, s) && GreetingInv(e, s) && s.down.read < s.down.shown
    requires s.o.protocol == Agreed(e) && Compatible(e)
    requires Tiles(rows, 1, |Base(e)| + 1) && Ascending(rows) && rows != []
    requires rows[|rows| - 1].End() == |Base(e)| + 1
    requires NoLonger(Elements(rows), RowBound(MaxRounds(e) - 1))
    requires |rows| <= Budget(e, 1)
    ensures Always(e, AfterHello(e, s, rows)) && HashingInv(e, AfterHello(e, s, rows), rows)
  {
    hide Planned, NoLonger, Emit, Budget, Ascending, Tiles, InitialRows;
    Taken(s.down);
    Written(s.up, Emit(e.hash, Base(e), rows, 1, 1));
    TilesPlanned(e, rows);
    TilesSent(e, rows);
    assert TableRows(map[]) == {};
    assert {} + Elements(rows) == Elements(rows);
  }

  lemma {:induction false} ReadDowngrade(e: Scenario, s: System, order: seq<nat>)
    requires Proper(e) && Always(e, s) && DowngradingInv(e, s) && Enabled(e, s, OriginReads(order))
    ensures Inv(e, Apply(e, s, OriginReads(order)), Greeting)
    ensures Rank(e, Apply(e, s, OriginReads(order)), Greeting) < Rank(e, s, Downgrading)
  {
    Taken(s.up);
    var out := [Hello(e, e.replicaProtocol)];
    Written(s.down, out);
    PageNumbersAppend(s.down.sent, out);
    NoPageNumbers(out);
    TallyAppend(s.down.sent, out, TxnKind);
    TallyNone(out, TxnKind);
  }

  lemma {:induction false} ReadRefusal(e: Scenario, s: System, order: seq<nat>)
    requires Proper(e) && Always(e, s) && RefusedInv(e, s, [RError([])], Running) && Enabled(e, s, OriginReads(order))
    ensures Inv(e, Apply(e, s, OriginReads(order)), Aborted)
    ensures Rank(e, Apply(e, s, OriginReads(order)), Aborted) < Rank(e, s, Refused)
  {
    Taken(s.up);
    assert s.down.sent + [] == s.down.sent;
  }

  // ---------------------------------------------------------------- hashing

  /** The next unread message of a batch is the hash of the next row, under the origin's counter,
      or announces that row. */
  lemma {:induction false} NextOfBatch(e: Scenario, unread: seq<ReplicaMsg>, pending: seq<Row>, iHash: nat, nHash: nat)
    requires |Base(e)| <= MAX_PAGES
    requires pending != [] && 1 <= pending[0].fpg && 1 <= pending[0].npg && pending[0].End() <= |Base(e)| + 1
    requires Incoming(e, unread, pending, iHash, nHash)
    ensures unread != []
    ensures var row := pending[0]; var h := RowHash(e.hash, Base(e), row.fpg, row.npg);
      && h.Some?
      && ((unread[0] == RHash(h.value) && row == Row(iHash, nHash)
           && unread[1..] == Emit(e.hash, Base(e), pending[1..], row.End(), row.npg))
          || (unread[0] == RConfig(row.fpg, row.npg)
              && unread[1..] == Emit(e.hash, Base(e), pending, row.fpg, row.npg)))
  {
    hide Emit, Base, RowHash;
    EmitFirst(e, pending, iHash, nHash);
    EmitFirst(e, pending, 0, 0);
  }

  lemma {:induction false} BaseBounded(e: Scenario)
    requires Proper(e)
    ensures |Base(e)| <= MAX_PAGES
  {
  }

  lemma {:induction false} NextPendingRow(e: Scenario, s: System, pending: seq<Row>)
    requires HashingInv(e, s, pending) && pending != []
    ensures var a := pending[0];
      1 <= a.fpg && 1 <= a.npg && a.End() <= |Base(e)| + 1 && a in Elements(pending)
  {
    hide Emit, Base, RowHash, NoLonger, Incoming, Reaching, Comparing, Separate, Budget;
    assert pending[0] in TableRows(Bad(s.o)) + Elements(pending);
  }

  lemma {:induction false} ReadConfig(e: Scenario, s: System, pending: seq<Row>, order: seq<nat>)
    requires Proper(e) && Always(e, s) && HashingInv(e, s, pending) && Enabled(e, s, OriginReads(order))
    requires pending != [] && s.up.sent[s.up.read].RConfig?
    ensures Always(e, Apply(e, s, OriginReads(order)))
    ensures HashingInv(e, Apply(e, s, OriginReads(order)), pending)
    ensures Rank(e, Apply(e, s, OriginReads(order)), Hashing(pending)) < Rank(e, s, Hashing(pending))
  {
    hide Emit, Base, RowHash, NoLonger, Planned, Reaching, Ascending, Budget, OrderFor;
    Taken(s.up);
    BaseBounded(e);
    NextPendingRow(e, s, pending);
    NextOfBatch(e, s.up.Unread(), pending, s.o.iHash, s.o.nHash);
    assert s.down.sent + [] == s.down.sent;
  }

  lemma {:induction false} AscendingTail(rows: seq<Row>)
    requires Ascending(rows) && rows != []
    ensures Ascending(rows[1..])
    ensures Elements(rows[1..]) == Elements(rows) - {rows[0]}
  {
    AscendingSeparate(rows);
    assert rows == [rows[0]] + rows[1..];
    assert rows[0] !in rows[1..];
  }

  /** The origin after judging the hash of row `a`. */
  function Judged(s: OriginState, a: Row, matched: bool): OriginState {
    s.(badHash := Some(if matched then Bad(s) else Bad(s)[a.fpg := a.npg]),
       hashMessages := s.hashMessages + 1, mxHash := Max(s.mxHash, a.End()), iHash := a.End())
  }

  lemma {:induction false} JudgedPlan(e: Scenario, o: OriginState, pending: seq<Row>, matched: bool)
    requires pending != [] && Ascending(pending)
    requires Planned(e, TableRows(Bad(o)), Elements(pending))
    requires if matched then NoCollisions(e) ==> forall p :: pending[0].Has(p) ==> Alike(e, p)
             else Faulty(e, pending[0])
    ensures Planned(e, TableRows(Bad(Judged(o, pending[0], matched))), Elements(pending[1..]))
    ensures TableRows(Bad(Judged(o, pending[0], matched))) + Elements(pending[1..])
         <= TableRows(Bad(o)) + Elements(pending)
  {
    hide Planned, Faulty, Alike, NoCollisions;
    var a := pending[0];
    AscendingTail(pending);
    assert a in Elements(pending);
    FreshKey(e, Bad(o), Elements(pending), a);
    if matched {
      Accept(e, TableRows(Bad(o)), Elements(pending), a);
    } else {
      Reject(e, TableRows(Bad(o)), Elements(pending), a);
    }
  }

  lemma {:induction false} HashVerdict(e: Scenario, o: OriginState, pending: seq<Row>)
      returns (matched: bool)
    requires |Base(e)| <= MAX_PAGES
    requires pending != [] && Ascending(pending)
    requires 1 <= pending[0].fpg && 1 <= pending[0].npg && pending[0].End() <= |Base(e)| + 1
    requires pending[0] == Row(o.iHash, o.nHash)
    requires Planned(e, TableRows(Bad(o)), Elements(pending))
    ensures RowHash(e.hash, Base(e), o.iHash, o.nHash).Some?
    ensures OriginOnHash(e, o, RowHash(e.hash, Base(e), o.iHash, o.nHash).value)
         == (Judged(o, pending[0], matched), [])
    ensures if matched then NoCollisions(e) ==> forall p :: pending[0].Has(p) ==> Alike(e, p)
            else Faulty(e, pending[0])
  {
    hide Planned, Faulty, Alike, NoCollisions, RowHash, Matches, Base;
    var a := pending[0];
    assert a in Elements(pending);
    Verdict(e, a);
    FreshKey(e, Bad(o), Elements(pending), a);
    matched := Matches(e.hash, e.origin, a.fpg, a.npg, RowHash(e.hash, Base(e), a.fpg, a.npg).value);
  }

  lemma {:induction false} StillReaching(e: Scenario, mxHash: nat, pending: seq<Row>)
    requires pending != [] && Reaching(e, mxHash, pending) && pending[0].End() <= |Base(e)| + 1
    ensures Reaching(e, Max(mxHash, pending[0].End()), pending[1..])
  {
  }

  lemma {:induction false} ReadHash(e: Scenario, s: System, pending: seq<Row>, order: seq<nat>)
    requires Proper(e) && Always(e, s) && HashingInv(e, s, pending) && Enabled(e, s, OriginReads(order))
    requires pending != [] && s.up.sent[s.up.read].RHash?
    ensures Always(e, Apply(e, s, OriginReads(order)))
    ensures HashingInv(e, Apply(e, s, OriginReads(order)), pending[1..])
    ensures Rank(e, Apply(e, s, OriginReads(order)), Hashing(pending[1..])) < Rank(e, s, Hashing(pending))
  {
    hide Emit, Base, RowHash, Planned, Ascending, Reaching, NoLonger, Budget, OrderFor, OriginOnHash, Faulty,
      NoCollisions,
      Genuine, Version1, PageNumbers, Tally, Backlog, Rounds, MaxRounds, Compatible, TableRows;
    Taken(s.up);
    BaseBounded(e);
    NextPendingRow(e, s, pending);
    NextOfBatch(e, s.up.Unread(), pending, s.o.iHash, s.o.nHash);
    var matched := HashVerdict(e, s.o, pending);
    JudgedPlan(e, s.o, pending, matched);
    AscendingTail(pending);
    StillReaching(e, s.o.mxHash, pending);
    NoLongerSubset(TableRows(Bad(s.o)) + Elements(pending),
      TableRows(Bad(Judged(s.o, pending[0], matched))) + Elements(pending[1..]),
      RowBound(MaxRounds(e) - s.r.hashRounds));
    assert s.down.sent + [] == s.down.sent;
    assert s.checked + pending == (s.checked + [pending[0]]) + pending[1..];
    OriginReadRank(e, s, Apply(e, s, OriginReads(order)), Hashing(pending), Hashing(pending[1..]));
  }

  lemma {:induction false} NoLongerSubset(all: set<Row>, rows: set<Row>, bound: nat)
    requires rows <= all && NoLonger(all, bound)
    ensures NoLonger(rows, bound)
  {
  }

  // ---------------------------------------------------------------- the end of a batch

  /** `badHash` splits into the entries that stay and those that are asked about again. */
  lemma {:induction false} SplitTable(t: Table, order: seq<nat>)
    requires Enumerates(order, Multi(t).Keys)
    ensures forall i :: 0 <= i < |order| ==> order[i] in t
    ensures Distinct(DetailRows(t, order))
    ensures Elements(DetailRows(t, order)) == TableRows(Multi(t))
    ensures TableRows(t) == TableRows(Singles(t)) + TableRows(Multi(t))
    ensures TableRows(Singles(t)) !! TableRows(Multi(t))
    ensures |DetailRows(t, order)| == |order|
  {
    forall i | 0 <= i < |order| ensures order[i] in Multi(t) {
      assert order[i] in Elements(order);
    }
    var rows := DetailRows(t, order);
    forall a | a in TableRows(Multi(t)) ensures a in rows {
      assert a.fpg in Elements(order);
      var i :| 0 <= i < |order| && order[i] == a.fpg;
      assert rows[i] == a;
    }
    forall a | a in rows ensures a in TableRows(Multi(t)) {
      var i :| 0 <= i < |rows| && rows[i] == a;
    }
    forall i, j | 0 <= i < j < |rows| ensures rows[i] != rows[j] {
      assert order[i] != order[j];
    }
  }

  lemma {:induction false} MultiEmpty(t: Table)
    ensures Multi(t) == map[] <==> forall a :: a in TableRows(t) ==> a.npg <= 1
  {
    forall a | a in TableRows(t) && a.npg > 1 ensures a.fpg in Multi(t) {
    }
    forall k | k in Multi(t) ensures Row(k, t[k]) in TableRows(t) && t[k] > 1 {
    }
  }

  /** The ranges to be asked about are few: each holds a faulty page of its own. */
  lemma {:induction false} DetailsPlan(e: Scenario, t: Table, rows: seq<Row>)
    requires Planned(e, TableRows(t), {})
    requires Distinct(rows) && Elements(rows) == TableRows(Multi(t))
    requires TableRows(t) == TableRows(Singles(t)) + TableRows(Multi(t))
    requires TableRows(Singles(t)) !! TableRows(Multi(t))
    ensures Planned(e, TableRows(Singles(t)), Elements(rows))
    ensures |rows| <= |Faults(e)| && |rows| <= |Base(e)|
  {
    hide Faulty, Alike, NoCollisions, Multi, Singles, Open, Base, Faults;
    Reopen(e, TableRows(t), TableRows(Singles(t)), TableRows(Multi(t)));
    assert TableRows(t) + {} == TableRows(t);
    SubsetSeparate(Elements(rows), TableRows(t), |Base(e)|);
    FaultsBound(e, Elements(rows));
    RowsBound(Elements(rows), |Base(e)|);
    DistinctCardinality(rows);
  }

  /** The origin's state after it asked for detail. */
  function Asked(s: OriginState): OriginState {
    s.(hashRounds := s.hashRounds + 1, badHash := Some(Singles(Bad(s))))
  }

  lemma {:induction false} ReadReadyForDetail(e: Scenario, s: System, order: seq<nat>) returns (rows: seq<Row>)
    requires Proper(e) && Always(e, s) && HashingInv(e, s, []) && Enabled(e, s, OriginReads(order))
    requires s.up.sent[s.up.read].RReady? && Multi(Bad(s.o)) != map[]
    ensures Always(e, Apply(e, s, OriginReads(order)))
    ensures DetailingInv(e, Apply(e, s, OriginReads(order)), rows)
    ensures Rank(e, Apply(e, s, OriginReads(order)), Detailing(rows)) < Rank(e, s, Hashing([]))
  {
    hide Base, Planned, Budget, Enumerates, Incoming, Ahead, Multi, Singles, Spent, Faults, RowBound;
    Taken(s.up);
    var t := Bad(s.o);
    EndOfBatch(e, s.up.Unread(), s.o.iHash, s.o.nHash);
    SplitTable(t, order);
    rows := DetailRows(t, order);
    assert Elements<Row>([]) == {};
    DetailsPlan(e, t, rows);
    var s' := Apply(e, s, OriginReads(order));
    var out := Details(rows) + [OReady];
    assert s' == s.(o := Asked(s.o), down := s.down.Append(out), up := s.up.(read := s.up.read + 1));
    Written(s.down, out);
    DetailBounds(e, t, s.r.hashRounds);
    EnterDetailing(e, s, s', rows);
    DetailRank(e, s, s', rows);
  }

  lemma {:induction false} EndOfBatch(e: Scenario, unread: seq<ReplicaMsg>, iHash: nat, nHash: nat)
    requires Incoming(e, unread, [], iHash, nHash)
    ensures unread == [RReady]
  {
  }

  /** Only a round that is not the last leaves ranges to split. */
  lemma {:induction false} DetailBounds(e: Scenario, t: Table, round: nat)
    requires 1 <= round <= MaxRounds(e) && Multi(t) != map[]
    requires NoLonger(TableRows(t) + Elements<Row>([]), RowBound(MaxRounds(e) - round))
    ensures round < MaxRounds(e)
    ensures NoLonger(TableRows(Singles(t)), 1)
    ensures NoLonger(TableRows(Multi(t)), RowBound(MaxRounds(e) - round))
  {
    MultiEmpty(t);
  }

  lemma {:induction false} EnterDetailing(e: Scenario, s: System, s': System, rows: seq<Row>)
    requires Proper(e) && Always(e, s) && HashingInv(e, s, [])
    requires s.up.read < s.up.shown && s.up.Unread() == [RReady]
    requires s' == s.(o := Asked(s.o),
      down := s.down.Append(Details(rows) + [OReady]), up := s.up.(read := s.up.read + 1))
    requires s'.down.Ok() && s'.up.Ok() && s'.down.Unread() == Details(rows) + [OReady]
    requires s.r.hashRounds < MaxRounds(e)
    requires Distinct(rows) && Elements(rows) == TableRows(Multi(Bad(s.o)))
    requires Planned(e, TableRows(Singles(Bad(s.o))), Elements(rows))
    requires NoLonger(TableRows(Singles(Bad(s.o))), 1)
    requires NoLonger(TableRows(Multi(Bad(s.o))), RowBound(MaxRounds(e) - s.r.hashRounds))
    requires |rows| <= |Faults(e)|
    ensures Always(e, s') && DetailingInv(e, s', rows)
  {
    hide Base, Planned, Budget, Incoming, Multi, Singles, Faults, RowBound, Ascending, Fanout, MaxRounds, NoLonger,
      Always, PageNumbers, Tally;
    DetailsWritten(e, s, s', rows);
    assert TableRows(map[]) + Elements(rows) == Elements(rows);
    assert TableRows(map[]) !! Elements(rows);
    NoLongerNone(RowBound(MaxRounds(e) - s.r.hashRounds - 1));
    FewDetails(Fanout(MaxRounds(e) - s.r.hashRounds), |rows|, |Faults(e)|);
  }

  lemma {:induction false} NoLongerNone(bound: nat)
    ensures NoLonger(TableRows(map[]), bound)
  {
  }

  lemma {:induction false} DetailsCounted(sent: seq<OriginMsg>, rows: seq<Row>)
    ensures PageNumbers(sent + (Details(rows) + [OReady])) == PageNumbers(sent)
    ensures Tally(sent + (Details(rows) + [OReady]), TxnKind) == Tally(sent, TxnKind)
  {
    hide PageNumbers, Tally;
    var out := Details(rows) + [OReady];
    PageNumbersAppend(sent, out);
    NoPageNumbers(out);
    TallyAppend(sent, out, TxnKind);
    TallyNone(out, TxnKind);
  }

  lemma {:induction false} DetailsWritten(e: Scenario, s: System, s': System, rows: seq<Row>)
    requires Always(e, s) && 1 < MaxRounds(e)
    requires s.up.read < s.up.shown
    requires s' == s.(o := Asked(s.o),
      down := s.down.Append(Details(rows) + [OReady]), up := s.up.(read := s.up.read + 1))
    ensures Always(e, s') && PageNumbers(s'.down.sent) == PageNumbers(s.down.sent)
    ensures Tally(s'.down.sent, TxnKind) == Tally(s.down.sent, TxnKind)
  {
    hide MaxRounds, PageNumbers, Tally;
    DetailsCounted(s.down.sent, rows);
  }

  lemma {:induction false} FewDetails(factor: nat, a: nat, b: nat)
    requires a <= b
    ensures factor * a <= factor * b
  {
  }

  lemma {:induction false} DetailRank(e: Scenario, s: System, s': System, rows: seq<Row>)
    requires s.down.Ok() && s.up.Ok() && s.up.read < s.up.shown
    requires s' == s.(o := Asked(s.o),
      down := s.down.Append(Details(rows) + [OReady]), up := s.up.(read := s.up.read + 1))
    requires 1 <= s.r.hashRounds < MaxRounds(e) && |rows| <= |Base(e)|
    ensures Rank(e, s', Detailing(rows)) < Rank(e, s, Hashing([]))
  {
    hide Base, Backlog;
    DetailAhead(e, s, s', rows);
    hide Ahead, MaxRounds;
    OriginReadRank(e, s, s', Hashing([]), Detailing(rows));
  }

  lemma {:induction false} DetailAhead(e: Scenario, s: System, s': System, rows: seq<Row>)
    requires s'.r.hashRounds == s.r.hashRounds && 1 <= s.r.hashRounds < MaxRounds(e)
    ensures 2 * |Base(e)| + 2 + Ahead(e, s', Detailing(rows)) <= Ahead(e, s, Hashing([]))
  {
    hide Base;
  }

  // ---------------------------------------------------------------- choosing the pages

  /** The pages the origin streams once only single-page entries are left. */
  lemma {:induction false} ChosenPages(e: Scenario, t: Table, order: seq<nat>)
    requires Proper(e)
    requires Planned(e, TableRows(t), {})
    requires Multi(t) == map[]
    requires Enumerates(order, StreamedPages(e, Swept(e, t, |Base(e)| + 1)))
    ensures Chosen(e, order)
  {
    hide Base, NoCollisions;
    MultiEmpty(t);
    forall i | 0 <= i < |order| ensures Exists(e.origin, order[i]) && order[i] in Missing(e) {
      assert order[i] in Elements(order);
      SweptIsMissing(e, t, order[i]);
    }
    forall p | |Base(e)| < p <= |e.origin| && p != LockBytePage(e.pageSize) ensures p in order {
      assert p in Elements(order);
    }
    if NoCollisions(e) {
      forall p | p in Missing(e) ensures p in Elements(order) {
        MissingIsSwept(e, t, p);
      }
    }
  }

  lemma {:induction false} SweptIsMissing(e: Scenario, t: Table, p: nat)
    requires 1 <= e.pageSize
    requires Planned(e, TableRows(t), {})
    requires forall a :: a in TableRows(t) ==> a.npg <= 1
    requires p in StreamedPages(e, Swept(e, t, |Base(e)| + 1))
    ensures p in Missing(e)
  {
    hide NoCollisions, Base;
    if p in t {
      var a := Row(p, t[p]);
      assert a in TableRows(t) + {};
      assert Faulty(e, a);
      var q :| a.Has(q) && !Alike(e, q);
      assert q == p;
    }
  }

  lemma {:induction false} MissingIsSwept(e: Scenario, t: Table, p: nat)
    requires 1 <= e.pageSize
    requires Planned(e, TableRows(t), {}) && NoCollisions(e)
    requires forall a :: a in TableRows(t) ==> a.npg <= 1
    requires p in Missing(e)
    ensures p in StreamedPages(e, Swept(e, t, |Base(e)| + 1))
  {
    hide NoCollisions, Base, Separate, Within, Faulty, TableRows;
    if p <= |Base(e)| {
      assert Open(TableRows(t) + {}, p);
      var a :| a in TableRows(t) + {} && a.Has(p);
      assert a.fpg == p;
    }
  }

  /** Filling the gap meets no entry that is already there. */
  lemma {:induction false} GapIsFree(e: Scenario, t: Table)
    requires Planned(e, TableRows(t), {})
    ensures GapFits(t, |Base(e)| + 1, |e.origin|)
  {
    hide Base, Faulty;
    forall k | k in t ensures k <= |Base(e)| {
      assert Row(k, t[k]) in TableRows(t) + {};
    }
  }

  /** The origin's state after it streamed the pages. */
  ghost function Sent(e: Scenario, s: OriginState, order: seq<nat>): OriginState
    requires 1 <= e.pageSize
  {
    s.(hashRounds := s.hashRounds + 1, pageUpdates := s.pageUpdates + |order|,
       badHash := Some(Swept(e, Bad(s), s.mxHash)))
  }

  function Stream1(e: Scenario, order: seq<nat>): seq<OriginMsg>
    requires forall i :: 0 <= i < |order| ==> Exists(e.origin, order[i])
  {
    PageMessages(e, order) + [OTxn(|e.origin|), OEnd]
  }

  lemma {:induction false} ReadReadyForPages(e: Scenario, s: System, order: seq<nat>)
    requires Proper(e) && Always(e, s) && HashingInv(e, s, []) && Enabled(e, s, OriginReads(order))
    requires s.up.sent[s.up.read].RReady? && Multi(Bad(s.o)) == map[]
    ensures Always(e, Apply(e, s, OriginReads(order)))
    ensures PagingInv(e, Apply(e, s, OriginReads(order)), order, 0)
    ensures Rank(e, Apply(e, s, OriginReads(order)), Paging(order, 0)) < Rank(e, s, Hashing([]))
  {
    hide Base, Planned, Budget, Enumerates, Incoming, Ahead, Multi, Singles, Spent, Faults, RowBound, GapFits, Swept,
      PagingInv, Always, Chosen, StreamedPages;
    assert s.up.Ok() && s.down.Ok();
    Taken(s.up);
    var t := Bad(s.o);
    EndOfBatch(e, s.up.Unread(), s.o.iHash, s.o.nHash);
    assert Elements<Row>([]) == {};
    GapIsFree(e, t);
    ChosenPages(e, t, order);
    ChosenExist(e, order);
    var s' := Apply(e, s, OriginReads(order));
    assert s' == s.(o := Sent(e, s.o, order),
      down := s.down.Append(Stream1(e, order)), up := s.up.(read := s.up.read + 1));
    Written(s.down, Stream1(e, order));
    EnterPaging(e, s, s', order);
    PagesRank(e, s, s', order);
  }

  lemma {:induction false} ChosenExist(e: Scenario, order: seq<nat>)
    requires 1 <= e.pageSize && Chosen(e, order)
    ensures forall i :: 0 <= i < |order| ==> Exists(e.origin, order[i])
    ensures |order| <= |e.origin|
  {
    DistinctCardinality(order);
    IntervalCardinality(1, |e.origin| + 1, Elements(order));
  }

  lemma {:induction false} PagesCounted(e: Scenario, sent: seq<OriginMsg>, order: seq<nat>)
    requires forall i :: 0 <= i < |order| ==> Exists(e.origin, order[i])
    ensures PageNumbers(sent + Stream1(e, order)) == PageNumbers(sent) + order
    ensures Tally(sent + Stream1(e, order), TxnKind) == Tally(sent, TxnKind) + 1
  {
    hide PageNumbers, Tally;
    var pages, tail := PageMessages(e, order), [OTxn(|e.origin|), OEnd];
    PageNumbersAppend(sent, pages + tail);
    PageNumbersAppend(pages, tail);
    NoPageNumbers(tail);
    StreamedNumbers(e, order);
    TallyAppend(sent, pages + tail, TxnKind);
    TallyAppend(pages, tail, TxnKind);
    TallyNone(pages, TxnKind);
    TailCounted(|e.origin|);
  }

  lemma {:induction false} TailCounted(n: nat)
    ensures Tally([OTxn(n), OEnd], TxnKind) == 1
  {
    var tail, first := [OTxn(n), OEnd], [OTxn(n)];
    assert tail[..1] == first;
    assert Tally(tail, TxnKind) == Tally(first, TxnKind);
    assert first[..0] == [];
    assert Tally(first, TxnKind) == 1;
  }

  lemma {:induction false} PagesWritten(e: Scenario, s: System, s': System, order: seq<nat>)
    requires Proper(e) && Always(e, s) && PageNumbers(s.down.sent) == [] && Tally(s.down.sent, TxnKind) == 0
    requires s.up.read < s.up.shown
    requires forall i :: 0 <= i < |order| ==> Exists(e.origin, order[i])
    requires s' == s.(o := Sent(e, s.o, order),
      down := s.down.Append(Stream1(e, order)), up := s.up.(read := s.up.read + 1))
    ensures Always(e, s') && PageNumbers(s'.down.sent) == order && Tally(s'.down.sent, TxnKind) == 1
  {
    hide MaxRounds, Swept, PageNumbers, Tally;
    PagesCounted(e, s.down.sent, order);
    assert [] + order == order;
  }

  lemma {:induction false} EnterPaging(e: Scenario, s: System, s': System, order: seq<nat>)
    requires Proper(e) && Always(e, s) && HashingInv(e, s, [])
    requires s.up.read < s.up.shown && s.up.Unread() == [RReady]
    requires Chosen(e, order)
    requires forall i :: 0 <= i < |order| ==> Exists(e.origin, order[i])
    requires s' == s.(o := Sent(e, s.o, order),
      down := s.down.Append(Stream1(e, order)), up := s.up.(read := s.up.read + 1))
    requires s'.down.Unread() == Stream1(e, order)
    ensures Always(e, s') && PagingInv(e, s', order, 0)
  {
    hide Base, Planned, Budget, Incoming, Swept, Chosen, Always, PageNumbers, Tally, MaxRounds, NoLonger, Reaching;
    PagesWritten(e, s, s', order);
    assert order[0..] == order && order[..0] == [];
  }

  lemma {:induction false} PagesRank(e: Scenario, s: System, s': System, order: seq<nat>)
    requires s.down.Ok() && s.up.Ok() && s.up.read < s.up.shown
    requires forall i :: 0 <= i < |order| ==> Exists(e.origin, order[i])
    requires 1 <= e.pageSize && |order| <= |e.origin|
    requires s' == s.(o := Sent(e, s.o, order),
      down := s.down.Append(Stream1(e, order)), up := s.up.(read := s.up.read + 1))
    ensures Rank(e, s', Paging(order, 0)) < Rank(e, s, Hashing([]))
  {
    hide Base, Backlog, MaxRounds, Rounds, Swept;
    OriginReadRank(e, s, s', Hashing([]), Paging(order, 0));
  }

  // ---------------------------------------------------------------- detail requests

  /** A detail request adds the rows that tile its range to `sendHash`. */
  lemma {:induction false} DetailPlan(e: Scenario, bad: set<Row>, t: Table, pending: seq<Row>)
    requires pending != [] && Distinct(pending)
    requires Planned(e, bad, TableRows(t) + Elements(pending)) && TableRows(t) !! Elements(pending)
    ensures var a := pending[0]; var u := Put(t, Subdivision(a.fpg, a.npg));
      && 1 <= a.npg
      && TableRows(u) == TableRows(t) + Elements(Subdivision(a.fpg, a.npg))
      && Planned(e, bad, TableRows(u) + Elements(pending[1..]))
      && TableRows(u) !! Elements(pending[1..])
  {
    hide Faulty, Base, NoCollisions, Open;
    var a := pending[0];
    assert a in bad + (TableRows(t) + Elements(pending));
    assert pending == [a] + pending[1..];
    assert a !in pending[1..];
    assert Elements(pending[1..]) == Elements(pending) - {a};
    forall k | k in t ensures !a.Has(k) {
      var b := Row(k, t[k]);
      assert b in TableRows(t) && b in bad + (TableRows(t) + Elements(pending));
      assert Apart(a, b);
    }
    PutSubdivision(t, a);
    SubdivisionTiles(a.fpg, a.npg);
    hide Planned;
    Refine(e, bad, TableRows(t), Elements(pending), a, Subdivision(a.fpg, a.npg));
  }

  /** The rows made of a detail request obey the next round's bound and its budget. */
  lemma {:induction false} DetailSize(t: Table, a: Row, left: nat)
    requires 1 <= left <= 2 && 1 <= a.npg <= RowBound(left)
    ensures NoLonger(Elements(Subdivision(a.fpg, a.npg)), RowBound(left - 1))
    ensures |Put(t, Subdivision(a.fpg, a.npg))| <= |t| + Fanout(left)
  {
    hide Chunks;
    SubdivisionTiles(a.fpg, a.npg);
    SubdivisionCount(a.fpg, a.npg);
    hide Subdivision;
    PutSize(t, Subdivision(a.fpg, a.npg));
  }

  lemma {:induction false} ReadDetail(e: Scenario, s: System, pending: seq<Row>)
    requires Proper(e) && Always(e, s) && DetailingInv(e, s, pending) && Enabled(e, s, ReplicaReads)
    requires pending != []
    ensures Always(e, Apply(e, s, ReplicaReads))
    ensures DetailingInv(e, Apply(e, s, ReplicaReads), pending[1..])
    ensures Rank(e, Apply(e, s, ReplicaReads), Detailing(pending[1..])) < Rank(e, s, Detailing(pending))
  {
    hide Base, Planned, Budget, NoLonger, MaxRounds, RowBound, Fanout, Faults, Subdivision, Put, PageNumbers, Tally,
      Genuine, Version1, Compatible, Rounds, Backlog, DetailRows, TableRows;
    Taken(s.down);
    var a, t := pending[0], s.r.sendHash.value;
    DetailPlan(e, TableRows(Bad(s.o)), t, pending);
    BoundOf(Elements(pending), a, RowBound(MaxRounds(e) - s.r.hashRounds));
    FewRounds(e);
    DetailSize(t, a, MaxRounds(e) - s.r.hashRounds);
    NoLongerUnion(TableRows(t), Elements(Subdivision(a.fpg, a.npg)), RowBound(MaxRounds(e) - s.r.hashRounds - 1));
    NoLongerSubset(Elements(pending), Elements(pending[1..]), RowBound(MaxRounds(e) - s.r.hashRounds));
    OneLess(Fanout(MaxRounds(e) - s.r.hashRounds), |pending|);
    assert (Details(pending) + [OReady])[1..] == Details(pending[1..]) + [OReady];
    assert s.up.sent + [] == s.up.sent && s.hashed + [] == s.hashed;
    ReplicaReadRank(e, s, Apply(e, s, ReplicaReads), Detailing(pending), Detailing(pending[1..]));
  }

  lemma {:induction false} BoundOf(rows: set<Row>, a: Row, bound: nat)
    requires NoLonger(rows, bound) && a in rows
    ensures a.npg <= bound
  {
  }

  lemma {:induction false} FewRounds(e: Scenario)
    ensures 1 <= MaxRounds(e) <= 3
  {
  }

  lemma {:induction false} NoLongerUnion(a: set<Row>, b: set<Row>, bound: nat)
    requires NoLonger(a, bound) && NoLonger(b, bound)
    ensures NoLonger(a + b, bound)
  {
  }

  lemma {:induction false} OneLess(factor: nat, n: nat)
    requires 1 <= n
    ensures factor * n == factor + factor * (n - 1)
  {
  }

  // ---------------------------------------------------------------- the next batch

  lemma {:induction false} NextRows(e: Scenario, bad: set<Row>, t: Table)
    requires Planned(e, bad, TableRows(t))
    ensures Ascending(Listing(t)) && Elements(Listing(t)) == TableRows(t)
    ensures Hashed(e.hash, Base(e), Listing(t)) == Listing(t)
    ensures |Listing(t)| == |t| && |t| <= |Base(e)|
  {
    hide Faulty, Base, NoCollisions, Open, Hashed;
    assert TableRows(t) <= bad + TableRows(t);
    ListingAscends(t);
    ListingLength(t);
    forall a | a in Listing(t) ensures 1 <= a.fpg && 1 <= a.npg && a.End() <= |Base(e)| + 1 {
      assert a in TableRows(t);
    }
    HashedAll(e.hash, Base(e), Listing(t));
    AscendingSeparate(Listing(t));
    DistinctCardinality(Listing(t));
    RowsBound(TableRows(t), |Base(e)|);
  }

  /** The replica's state after it sent another batch. */
  function Resent(r: ReplicaState, count: nat): ReplicaState {
    r.(sendHash := Some(map[]), hashMessages := r.hashMessages + count, hashRounds := r.hashRounds + 1)
  }

  ghost function AfterGo(e: Scenario, s: System, rows: seq<Row>): System {
    s.(r := Resent(s.r, |rows|), down := s.down.(read := s.down.read + 1),
       up := s.up.Append(Emit(e.hash, Base(e), rows, 0, 0)), hashed := s.hashed + rows)
  }

  lemma {:induction false} BudgetGrows(e: Scenario, round: nat, used: nat, more: nat)
    requires 1 <= round < MaxRounds(e)
    requires used <= Budget(e, round)
    requires more <= Fanout(MaxRounds(e) - round) * |Faults(e)|
    ensures used + more <= Budget(e, round + 1)
  {
    hide MaxRounds, InitialRows, Fanout, Faults, Base;
    var max, d := MaxRounds(e), |Faults(e)|;
    assert Spent(max, round + 1) == Spent(max, round) + Fanout(max - round);
    assert Spent(max, round + 1) * d == Spent(max, round) * d + Fanout(max - round) * d;
  }

  lemma {:induction false} ReadGo(e: Scenario, s: System) returns (rows: seq<Row>)
    requires Proper(e) && Always(e, s) && DetailingInv(e, s, []) && Enabled(e, s, ReplicaReads)
    ensures Always(e, Apply(e, s, ReplicaReads))
    ensures HashingInv(e, Apply(e, s, ReplicaReads), rows)
    ensures Rank(e, Apply(e, s, ReplicaReads), Hashing(rows)) < Rank(e, s, Detailing([]))
  {
    hide Base, Planned, Budget, NoLonger, MaxRounds, RowBound, Fanout, Faults, PageNumbers, Tally, Emit, Hashed,
      Rank, Always, HashingInv;
    assert s.down.Ok() && s.up.Ok();
    Taken(s.down);
    var t := s.r.sendHash.value;
    rows := Listing(t);
    assert TableRows(t) + Elements<Row>([]) == TableRows(t);
    NextRows(e, TableRows(Bad(s.o)), t);
    assert Details([]) == [];
    assert Apply(e, s, ReplicaReads) == AfterGo(e, s, rows);
    Written(s.up, Emit(e.hash, Base(e), rows, 0, 0));
    EnterNextHashing(e, s, rows);
    GoRank(e, s, rows);
  }

  lemma {:induction false} EnterNextHashing(e: Scenario, s: System, rows: seq<Row>)
    requires Proper(e) && Always(e, s) && DetailingInv(e, s, [])
    requires s.down.read < s.down.shown && s.down.Unread() == [OReady]
    requires Ascending(rows) && Elements(rows) == TableRows(s.r.sendHash.value)
    requires Planned(e, TableRows(Bad(s.o)), Elements(rows))
    requires |rows| == |s.r.sendHash.value|
    requires AfterGo(e, s, rows).up.Unread() == Emit(e.hash, Base(e), rows, 0, 0)
    ensures Always(e, AfterGo(e, s, rows)) && HashingInv(e, AfterGo(e, s, rows), rows)
  {
    hide Base, Planned, Budget, NoLonger, MaxRounds, RowBound, Fanout, Faults, PageNumbers, Tally, Emit, Ascending;
    Taken(s.down);
    var left := MaxRounds(e) - s.r.hashRounds;
    BudgetGrows(e, s.r.hashRounds, |s.hashed|, |rows|);
    NextBound(TableRows(Bad(s.o)), Elements(rows), left - 1);
    FewRounds(e);
  }

  lemma {:induction false} NextBound(bad: set<Row>, rows: set<Row>, left: nat)
    requires NoLonger(bad, 1) && NoLonger(rows, RowBound(left))
    ensures NoLonger(bad + rows, RowBound(left))
  {
  }

  lemma {:induction false} GoRank(e: Scenario, s: System, rows: seq<Row>)
    requires s.down.Ok() && s.up.Ok() && s.down.read < s.down.shown
    requires 1 <= s.r.hashRounds < MaxRounds(e) && |rows| <= |Base(e)|
    ensures Rank(e, AfterGo(e, s, rows), Hashing(rows)) < Rank(e, s, Detailing([]))
  {
    hide Base, Backlog, MaxRounds, Rounds, Emit;
    EmitLength(e.hash, Base(e), rows, 0, 0);
    ReplicaReadRank(e, s, AfterGo(e, s, rows), Detailing([]), Hashing(rows));
  }

  // ---------------------------------------------------------------- pages and commit

  lemma {:induction false} PageStaged(e: Scenario, order: seq<nat>, done: nat)
    requires forall i :: 0 <= i < |order| ==> Exists(e.origin, order[i])
    requires done < |order|
    ensures Staged(e, order[..done + 1]) ==
      WritePage(Staged(e, order[..done]), order[done], KeepWal(order[done], KeptWal(e), e.origin[order[done] - 1]))
  {
    assert order[..done + 1][..done] == order[..done];
  }

  lemma {:induction false} ReadPage(e: Scenario, s: System, order: seq<nat>, done: nat)
    requires Proper(e) && Always(e, s) && PagingInv(e, s, order, done) && Enabled(e, s, ReplicaReads)
    requires done < |order|
    ensures Always(e, Apply(e, s, ReplicaReads))
    ensures PagingInv(e, Apply(e, s, ReplicaReads), order, done + 1)
    ensures Rank(e, Apply(e, s, ReplicaReads), Paging(order, done + 1)) < Rank(e, s, Paging(order, done))
  {
    hide Base, Budget, MaxRounds, PageNumbers, Tally, Staged, WritePage, KeepWal, Missing;
    Taken(s.down);
    PageStaged(e, order, done);
    assert PageMessages(e, order[done..])[1..] == PageMessages(e, order[done + 1..]);
    assert (PageMessages(e, order[done..]) + [OTxn(|e.origin|), OEnd])[1..]
        == PageMessages(e, order[done + 1..]) + [OTxn(|e.origin|), OEnd];
    assert s.up.sent + [] == s.up.sent && s.hashed + [] == s.hashed;
  }

  lemma {:induction false} ReadTxn(e: Scenario, s: System, order: seq<nat>)
    requires Proper(e) && Always(e, s) && PagingInv(e, s, order, |order|) && Enabled(e, s, ReplicaReads)
    ensures Always(e, Apply(e, s, ReplicaReads))
    ensures CommittedInv(e, Apply(e, s, ReplicaReads), order, [OEnd], Running, Running)
    ensures Rank(e, Apply(e, s, ReplicaReads), Parting(order)) < Rank(e, s, Paging(order, |order|))
  {
    hide Base, Budget, MaxRounds, PageNumbers, Tally, Truncate, Missing;
    Taken(s.down);
    assert order[..|order|] == order;
    assert PageMessages(e, order[|order|..]) == [];
    assert s.down.Unread() == [OTxn(|e.origin|), OEnd];
    assert s.up.sent + [] == s.up.sent && s.hashed + [] == s.hashed;
  }

  lemma {:induction false} ReadEnd(e: Scenario, s: System, order: seq<nat>)
    requires Proper(e) && Always(e, s) && CommittedInv(e, s, order, [OEnd], Running, Running)
    requires Enabled(e, s, ReplicaReads)
    ensures Always(e, Apply(e, s, ReplicaReads))
    ensures CommittedInv(e, Apply(e, s, ReplicaReads), order, [], Running, Ended)
    ensures Rank(e, Apply(e, s, ReplicaReads), Closing(order)) < Rank(e, s, Parting(order))
  {
    hide Base, Budget, MaxRounds, PageNumbers, Tally, Truncate, Missing, Staged;
    Taken(s.down);
    assert s.up.sent + [] == s.up.sent && s.hashed + [] == s.hashed;
  }

  lemma {:induction false} SeeClose(e: Scenario, s: System, order: seq<nat>)
    requires Proper(e) && Always(e, s) && CommittedInv(e, s, order, [], Running, Ended)
    requires Enabled(e, s, OriginSeesClose)
    ensures Always(e, Apply(e, s, OriginSeesClose))
    ensures CommittedInv(e, Apply(e, s, OriginSeesClose), order, [], Ended, Ended)
    ensures Rank(e, Apply(e, s, OriginSeesClose), Finished(order)) < Rank(e, s, Closing(order))
  {
    hide Base, Budget, MaxRounds, PageNumbers, Tally, Truncate, Missing, Staged;
  }

  // ---------------------------------------------------------------- all steps

  /** A write buffer that empties into the connection changes nothing else. */
  lemma {:induction false} Show(e: Scenario, s: System, step: Step, phase: Phase)
    requires Proper(e) && Inv(e, s, phase) && Enabled(e, s, step)
    requires step.OriginShows? || step.ReplicaShows?
    ensures Inv(e, Apply(e, s, step), phase)
    ensures Rank(e, Apply(e, s, step), phase) < Rank(e, s, phase)
  {
    hide Base, Budget, MaxRounds, PageNumbers, Tally, Planned, NoLonger, Incoming, Reaching, Chosen, Staged, Final,
      Genuine,
      Version1, Ascending, Compatible, OrderFor, Rounds, Emit;
  }

  lemma {:induction false} OriginRead(e: Scenario, s: System, order: seq<nat>, phase: Phase) returns (next: Phase)
    requires Proper(e) && Inv(e, s, phase) && Enabled(e, s, OriginReads(order))
    ensures Inv(e, Apply(e, s, OriginReads(order)), next)
    ensures Rank(e, Apply(e, s, OriginReads(order)), next) < Rank(e, s, phase)
  {
    hide Apply, Rank, HashingInv, DetailingInv, Settled, Always, OrderFor, GreetingInv, DowngradingInv;
    assert s.up.Ok() && !s.up.Drained();
    match phase
    case Downgrading =>
      ReadDowngrade(e, s, order);
      next := Greeting;
    case Hashing(pending) =>
      next := OriginReadHashing(e, s, order, pending);
    case Refused =>
      ReadRefusal(e, s, order);
      next := Aborted;
    case _ =>
      NothingUp(e, s, phase);
      assert false;
  }

  /** In every other phase the origin has read all the replica wrote. */
  lemma {:induction false} NothingUp(e: Scenario, s: System, phase: Phase)
    requires Proper(e) && Inv(e, s, phase)
    requires !phase.Downgrading? && !phase.Hashing? && !phase.Refused?
    ensures s.up.Drained()
  {
    hide Base, Budget, MaxRounds, PageNumbers, Tally, Planned, NoLonger, Chosen, Staged, Final, Genuine, Version1;
  }

  /** In these phases the replica has read all the origin wrote. */
  lemma {:induction false} NothingDown(e: Scenario, s: System, phase: Phase)
    requires Proper(e) && Inv(e, s, phase)
    requires !phase.Greeting? && !phase.Detailing? && !phase.Paging? && !phase.Parting?
    ensures s.down.Drained()
  {
    hide Base, Budget, MaxRounds, PageNumbers, Tally, Planned, NoLonger, Chosen, Staged, Final, Genuine, Version1;
  }

  lemma {:induction false} OriginReadHashing(e: Scenario, s: System, order: seq<nat>, pending: seq<Row>)
    returns (next: Phase)
    requires Proper(e) && Always(e, s) && HashingInv(e, s, pending) && Enabled(e, s, OriginReads(order))
    ensures Inv(e, Apply(e, s, OriginReads(order)), next)
    ensures Rank(e, Apply(e, s, OriginReads(order)), next) < Rank(e, s, Hashing(pending))
  {
    HashingMessage(e, s, pending);
    if pending != [] {
      if s.up.sent[s.up.read].RConfig? {
        ReadConfig(e, s, pending, order);
        next := Hashing(pending);
      } else {
        ReadHash(e, s, pending, order);
        next := Hashing(pending[1..]);
      }
    } else if Multi(Bad(s.o)) != map[] {
      var rows := ReadReadyForDetail(e, s, order);
      next := Detailing(rows);
    } else {
      ReadReadyForPages(e, s, order);
      next := Paging(order, 0);
    }
  }

  lemma {:induction false} HashingMessage(e: Scenario, s: System, pending: seq<Row>)
    requires Proper(e) && HashingInv(e, s, pending) && s.up.Ok() && s.up.read < s.up.shown
    ensures var m := s.up.sent[s.up.read];
      if pending == [] then m.RReady? else m.RConfig? || m.RHash?
  {
    hide Base, Budget, MaxRounds, PageNumbers, Tally, Planned, NoLonger, Emit, Comparing;
    Taken(s.up);
    if pending == [] {
      EndOfBatch(e, s.up.Unread(), s.o.iHash, s.o.nHash);
    } else {
      BaseBounded(e);
      NextPendingRow(e, s, pending);
      NextOfBatch(e, s.up.Unread(), pending, s.o.iHash, s.o.nHash);
    }
  }

  lemma {:induction false} ReplicaRead(e: Scenario, s: System, phase: Phase) returns (next: Phase)
    requires Proper(e) && Inv(e, s, phase) && Enabled(e, s, ReplicaReads)
    ensures Inv(e, Apply(e, s, ReplicaReads), next)
    ensures Rank(e, Apply(e, s, ReplicaReads), next) < Rank(e, s, phase)
  {
    hide Apply, Rank, HashingInv, DetailingInv, Settled, Always, GreetingInv, DowngradingInv;
    assert s.down.Ok() && !s.down.Drained();
    match phase
    case Greeting =>
      next := ReadHello(e, s);
    case Detailing(pending) =>
      if pending == [] {
        var rows := ReadGo(e, s);
        next := Hashing(rows);
      } else {
        ReadDetail(e, s, pending);
        next := Detailing(pending[1..]);
      }
    case Paging(order, done) =>
      if done < |order| {
        ReadPage(e, s, order, done);
        next := Paging(order, done + 1);
      } else {
        ReadTxn(e, s, order);
        next := Parting(order);
      }
    case Parting(order) =>
      ReadEnd(e, s, order);
      next := Closing(order);
    case _ =>
      NothingDown(e, s, phase);
      assert false;
  }

  /** Only the origin of a completed or refused run can be left waiting for a peer that is gone. */
  lemma {:induction false} Close(e: Scenario, s: System, step: Step, phase: Phase) returns (next: Phase)
    requires Proper(e) && Inv(e, s, phase) && Enabled(e, s, step)
    requires step.OriginSeesClose? || step.ReplicaSeesClose?
    ensures Inv(e, Apply(e, s, step), next)
    ensures Rank(e, Apply(e, s, step), next) < Rank(e, s, phase)
  {
    hide Apply, Rank, HashingInv, Settled, Always, Base, Budget, Planned, PageNumbers, Tally, Final;
    if step.OriginSeesClose? && phase.Closing? {
      SeeClose(e, s, phase.order);
      next := Finished(phase.order);
    } else {
      NoOtherClose(e, s, step, phase);
      assert false;
    }
  }

  lemma {:induction false} NoOtherClose(e: Scenario, s: System, step: Step, phase: Phase)
    requires Proper(e) && Inv(e, s, phase)
    requires step.OriginSeesClose? || step.ReplicaSeesClose?
    requires !(step.OriginSeesClose? && phase.Closing?)
    ensures !Enabled(e, s, step)
  {
    hide Base, Budget, MaxRounds, PageNumbers, Tally, Planned, NoLonger, Incoming, Reaching, Chosen, Staged, Final,
      Genuine,
      Version1, Ascending;
  }

  /** Every step leads from a state of the invariant to one of lower rank. */
  lemma {:induction false} Preserve(e: Scenario, s: System, step: Step, phase: Phase) returns (next: Phase)
    requires Proper(e) && Inv(e, s, phase) && Enabled(e, s, step)
    ensures Inv(e, Apply(e, s, step), next)
    ensures Rank(e, Apply(e, s, step), next) < Rank(e, s, phase)
  {
    hide Apply, Rank, Inv;
    match step
    case OriginReads(order) => next := OriginRead(e, s, order, phase);
    case ReplicaReads => next := ReplicaRead(e, s, phase);
    case OriginShows(_) | ReplicaShows(_) => Show(e, s, step, phase); next := phase;
    case OriginSeesClose | ReplicaSeesClose => next := Close(e, s, step, phase);
  }

  lemma {:induction false} StartInv(e: Scenario)
    requires Proper(e)
    ensures Inv(e, Start(e), Greeting)
    ensures Rank(e, Start(e), Greeting) <= 16 * |Base(e)| + 2 * |e.origin| + 21
  {
    hide Base;
    NoPageNumbers([Hello(e, e.originProtocol)]);
    TallyNone([Hello(e, e.originProtocol)], TxnKind);
  }
}
