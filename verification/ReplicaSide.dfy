/** The replica's message loop, with `subdivideHashRange` and `sendHashMessages`, over the state
    that `replicaSide` keeps in local variables, in the run's counters, in the `sendHash` table and
    in the open transaction. */
module ReplicaSide {
  import opened Prelude
  import opened Ranges
  import opened Database
  import opened PageHash
  import opened Protocol

  /** The row with the smallest key comes first in the listing. */
  lemma {:induction false} ListingHead(t: Table, k: nat)
    requires k in t && forall j :: j in t ==> k <= j
    ensures Listing(t) == [Row(k, t[k])] + Listing(t - {k})
  {
    ListingCons(t, k, Listing(t - {k}));
    ListingIs(t, [Row(k, t[k])] + Listing(t - {k}));
  }

  /** The messages for one row. */
  function RowMessages(hash: Hash, db: seq<Page>, row: Row, iHash: nat, nHash: nat): seq<ReplicaMsg> {
    (if row.fpg != iHash || row.npg != nHash then [RConfig(row.fpg, row.npg)] else [])
    + (var h := RowHash(hash, db, row.fpg, row.npg); if h.Some? then [RHash(h.value)] else [])
  }

  /** A batch is the messages of its first row followed by the batch of the other rows. */
  lemma {:induction false} EmitRow(hash: Hash, db: seq<Page>, t: Table, k: nat, iHash: nat, nHash: nat)
    requires k in t && forall j :: j in t ==> k <= j
    ensures Emit(hash, db, Listing(t), iHash, nHash) ==
      RowMessages(hash, db, Row(k, t[k]), iHash, nHash)
      + Emit(hash, db, Listing(t - {k}), Add32(k, t[k]), t[k])
  {
    ListingHead(t, k);
    assert Listing(t)[1..] == Listing(t - {k});
  }

  lemma {:induction false} OneFewer(t: Table, k: nat)
    requires k in t
    ensures |t - {k}| + 1 == |t|
  {
    assert t.Keys == (t - {k}).Keys + {k};
  }

  lemma {:induction false} EmitNothing(hash: Hash, db: seq<Page>, iHash: nat, nHash: nat)
    ensures Emit(hash, db, Listing(map[]), iHash, nHash) == [RReady]
  {
    ListingIs(map[], []);
  }

  method MinKey(s: set<nat>) returns (k: nat)
    requires s != {}
    ensures k in s && forall j :: j in s ==> k <= j
  {
    k :| k in s;
    var rest := s - {k};
    while rest != {}
      invariant k in s && rest <= s
      invariant forall j :: j in s && j !in rest ==> k <= j
      decreases rest
    {
      var j :| j in rest;
      if j < k {
        k := j;
      }
      rest := rest - {j};
    }
  }

  class Replica {
    const e: Scenario
    var protocol: nat
    var pageSize: nat
    var pageCount: nat
    var wal: bool
    var sendHash: Option<Table>
    var committed: seq<Page>
    var txn: Option<seq<Page>>
    var inserting: bool
    var hashMessages: nat
    var hashRounds: nat
    var pageUpdates: nat
    var status: Status

    ghost function State(): ReplicaState
      reads this
    {
      ReplicaState(protocol, pageSize, pageCount, wal, sendHash, committed, txn, inserting,
        hashMessages, hashRounds, pageUpdates, status)
    }

    constructor (e: Scenario)
      ensures this.e == e && State() == ReplicaStart(e)
    {
      this.e := e;
      protocol := e.replicaProtocol;
      pageSize, pageCount, wal := 0, 0, false;
      sendHash, txn, inserting := None, None, false;
      committed := e.replica;
      hashMessages, hashRounds, pageUpdates := 0, 0, 0;
      status := Running;
    }

    /** The recursive query of `subdivideHashRange`: REPLACE INTO sendHash, chunk by chunk. */
    method SubdivideHashRange(fpg: nat, npg: nat)
      requires sendHash.Some?
      modifies this`sendHash
      ensures sendHash == Some(Put(old(sendHash.value), Subdivision(fpg, npg)))
    {
      var chunk := if npg <= 30 then 1 else if npg <= 1000 then 30 else 1000;
      var end := fpg + npg;
      var n := fpg;
      var table: Table := sendHash.value[n := Min(end - n, chunk)];
      while n + chunk < end
        invariant fpg <= n <= end
        invariant Put(table, if n + chunk < end then Chunks(n + chunk, end, chunk) else [])
               == Put(old(sendHash.value), Chunks(fpg, end, chunk))
        decreases end - n
      {
        n := n + chunk;
        table := table[n := Min(end - n, chunk)];
      }
      sendHash := Some(table);
    }

    /** The cursor over the rows of `sendHash` in page order. */
    method WriteRows(db: seq<Page>, t: Table, iHash0: nat, nHash0: nat) returns (out: seq<ReplicaMsg>)
      modifies this`hashMessages
      ensures out + [RReady] == Emit(e.hash, db, Listing(t), iHash0, nHash0)
      ensures hashMessages == old(hashMessages) + |t|
    {
      hide Emit, RowHash, Lists, KeysAscend;
      out := [];
      var iHash, nHash := iHash0, nHash0;
      ghost var batch := Emit(e.hash, db, Listing(t), iHash0, nHash0);
      var rest := t;
      while rest != map[]
        invariant hashMessages + |rest| == old(hashMessages) + |t|
        invariant batch == out + Emit(e.hash, db, Listing(rest), iHash, nHash)
        decreases |rest|
      {
        assert rest.Keys != {};
        var fpg := MinKey(rest.Keys);
        var npg := rest[fpg];
        EmitRow(e.hash, db, rest, fpg, iHash, nHash);
        OneFewer(rest, fpg);
        hashMessages := hashMessages + 1;
        var messages := [];
        if fpg != iHash || npg != nHash {
          messages := [RConfig(fpg, npg)];
        }
        var h := RowHash(e.hash, db, fpg, npg);
        if h.Some? {
          messages := messages + [RHash(h.value)];
        }
        out := out + messages;
        iHash, nHash := Add32(fpg, npg), npg;
        rest := rest - {fpg};
      }
      EmitNothing(e.hash, db, iHash, nHash);
    }

    /** Writes one batch: the rows of `sendHash`, then REPLICA_READY; empties the table. */
    method SendHashMessages(iHash: nat, nHash: nat) returns (out: seq<ReplicaMsg>)
      requires sendHash.Some?
      modifies this`sendHash, this`hashMessages, this`hashRounds
      ensures (State(), out) == SendHashes(e, old(State()), iHash, nHash)
    {
      hide Emit;
      ListingLength(sendHash.value);
      out := WriteRows(if txn.Some? then txn.value else committed, sendHash.value, iHash, nHash);
      sendHash := Some(map[]);
      out := out + [RReady];
      hashRounds := hashRounds + 1;
    }

    /** Closes a previous connection, then opens the database, unless the origin speaks a newer
        version or the page sizes differ. */
    method OnBegin(proto: nat, szOPage: nat, nOPage: nat) returns (out: seq<ReplicaMsg>)
      modifies this
      ensures (State(), out) == ReplicaOnBegin(e, old(State()), proto, szOPage, nOPage)
    {
      hide InitialRows, Emit, Put, Lists;
      txn, inserting := None, false;
      if proto > protocol {
        sendHash := None;
        out := [RBegin(protocol)];
        return;
      }
      protocol, pageCount, pageSize := proto, nOPage, szOPage;
      sendHash := Some(map[]);
      var pages := OpenedPages(e, committed, szOPage);
      txn := Some(pages);
      wal := InWalMode(e, committed);
      if Refuses(e, committed, szOPage) {
        Leaves(Failed);
        out := [RError([])];
        return;
      }
      FillSendHash(|pages|);
      out := SendHashMessages(1, 1);
    }

    /** The first batch: single pages, or page 1 and chunks of the rest. */
    method FillSendHash(nRPage: nat)
      requires sendHash == Some(map[])
      modifies this`sendHash
      ensures sendHash == Some(Put(map[], InitialRows(protocol, nRPage)))
    {
      if protocol < 2 || nRPage <= 100 {
        InsertSingles(Max(nRPage, 1));
      } else {
        sendHash := Some(map[1 := 1]);
        SubdivideHashRange(2, nRPage - 1);
        PutOne(Subdivision(2, nRPage - 1));
      }
    }

    /** INSERT INTO sendHash of one row for each of the pages 1..last, at least one. */
    method InsertSingles(last: nat)
      requires 1 <= last && sendHash == Some(map[])
      modifies this`sendHash
      ensures sendHash == Some(Put(map[], Chunks(1, last + 1, 1)))
    {
      var n := 1;
      var table: Table := map[1 := 1];
      while n < last
        invariant 1 <= n <= last
        invariant Put(table, if n + 1 < last + 1 then Chunks(n + 1, last + 1, 1) else [])
               == Put(map[], Chunks(1, last + 1, 1))
      {
        n := n + 1;
        table := table[n := 1];
      }
      sendHash := Some(table);
    }

    /** Leaving rolls back whatever the open transaction holds. */
    method Leaves(how: Status)
      modifies this`status, this`txn
      ensures State() == Leave(old(State()), how)
    {
      status, txn := how, None;
    }

    method OnTxn(nOPage: nat) returns (out: seq<ReplicaMsg>)
      modifies this
      ensures (State(), out) == ReplicaOnTxn(old(State()), nOPage)
    {
      out := [];
      if inserting {
        if nOPage == 0 {
          Leaves(Failed);
          out := [RError([])];
          return;
        }
        if nOPage < 0xffff_ffff {
          if txn.Some? {
            txn := Some(Truncate(txn.value, nOPage));
          } else {
            committed := Truncate(committed, nOPage);
          }
        }
        pageCount := nOPage;
      }
      if txn.Some? {
        committed, txn := txn.value, None;
      } else {
        Leaves(Failed);
        out := [RError([])];
      }
    }

    method OnPage(pgno: nat, data: Page) returns (out: seq<ReplicaMsg>)
      modifies this
      ensures (State(), out) == ReplicaOnPage(old(State()), pgno, data)
    {
      out := [];
      inserting := true;
      var page := data;
      if pgno == 1 && wal && 20 <= |page| && page[18] == 1 {
        page := page[18 := 2][19 := 2];
      }
      pageUpdates := pageUpdates + 1;
      if pgno == 0 {
        Leaves(Failed);
        out := [RError([])];
      } else if txn.Some? {
        txn := Some(WritePage(txn.value, pgno, page));
      } else {
        committed := WritePage(committed, pgno, page);
      }
    }

    /** One turn of the message loop. */
    method Handle(m: OriginMsg) returns (out: seq<ReplicaMsg>)
      modifies this
      ensures (State(), out) == ReplicaReply(e, old(State()), m)
    {
      out := [];
      match m
      case OBegin(proto, szOPage, nOPage) => out := OnBegin(proto, szOPage, nOPage);
      case OEnd => Leaves(Ended);
      case OError(_) => Leaves(Failed);
      case OInfo(_) =>
      case ODetail(fpg, npg) =>
        if sendHash.None? {
          out := Crash();
        } else {
          SubdivideHashRange(fpg, npg);
        }
      case OReady =>
        if sendHash.None? {
          out := Crash();
        } else {
          out := SendHashMessages(0, 0);
        }
      case OTxn(nOPage) =>
        if sendHash.None? {
          out := Crash();
        } else {
          out := OnTxn(nOPage);
        }
      case OPage(pgno, data) =>
        if sendHash.None? {
          out := Crash();
        } else {
          out := OnPage(pgno, data);
        }
    }

    /** The database connection is used although there is none. */
    method Crash() returns (out: seq<ReplicaMsg>)
      modifies this
      ensures (State(), out) == Unopened(old(State()))
    {
      Leaves(Crashed);
      out := [];
    }
  }

  lemma {:induction false} PutOne(rows: seq<Row>)
    ensures Put(map[1 := 1], rows) == Put(map[], [Row(1, 1)] + rows)
  {
    assert ([Row(1, 1)] + rows)[1..] == rows;
    var empty: Table := map[];
    assert empty[1 := 1] == map[1 := 1];
  }
}
