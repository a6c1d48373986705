/** What holds of every run of an origin and a replica. */
module Theorems {
  import opened Prelude
  import opened Ranges
  import opened PageHash
  import opened Protocol
  import opened Conversation
  import opened Invariant
  import opened Planning
  import opened Preservation

  /** Every state of a run satisfies the invariant of some phase, and each step used up rank. */
  lemma {:induction false} RunInv(e: Scenario, steps: seq<Step>) returns (phase: Phase)
    requires Proper(e) && Run(e, steps)
    ensures Inv(e, After(e, steps), phase)
    ensures Rank(e, After(e, steps), phase) + |steps| <= Rank(e, Start(e), Greeting)
    decreases |steps|
  {
    hide Inv, Rank, Apply, Enabled;
    StartInv(e);
    if steps == [] {
      phase := Greeting;
    } else {
      var before := steps[..|steps| - 1];
      var was := RunInv(e, before);
      phase := Preserve(e, After(e, before), steps[|steps| - 1], was);
    }
  }

  // ---------------------------------------------------------------- termination

  /** Every run is finite: its length is bounded by the sizes of the two databases. */
  lemma {:induction false} RunsAreBounded(e: Scenario, steps: seq<Step>)
    requires Proper(e) && Run(e, steps)
    ensures |steps| <= 16 * |Base(e)| + 2 * |e.origin| + 21
  {
    hide Base, Run, Start, Ahead, PhaseInv;
    var phase := RunInv(e, steps);
    StartInv(e);
    assert 0 <= Rank(e, After(e, steps), phase);
  }

  /** The hash rounds of a run number at most three, two up to 1001 replica pages, and one up to
      100 pages or under protocol version 1. */
  lemma {:induction false} RoundsAreBounded(e: Scenario, steps: seq<Step>)
    requires Proper(e) && Run(e, steps)
    ensures After(e, steps).r.hashRounds <=
      if Agreed(e) == 1 || |Base(e)| <= 100 then 1 else if |Base(e)| <= 1001 then 2 else 3
  {
    hide Base, Budget, PageNumbers, Tally, Planned, NoLonger, Incoming, Reaching, Chosen, Staged, Final, Genuine,
      Version1, Ascending, Run, After;
    var phase := RunInv(e, steps);
  }

  // ---------------------------------------------------------------- no deadlock, no failure

  /** A batch always ends with REPLICA_READY, so some order for the answer exists. */
  lemma {:induction false} SomeOrder(keys: set<nat>) returns (order: seq<nat>)
    ensures Enumerates(order, keys)
    decreases |keys|
  {
    if keys == {} {
      order := [];
      assert Elements(order) == {};
    } else {
      var k :| k in keys;
      var rest := SomeOrder(keys - {k});
      order := [k] + rest;
      assert k !in Elements(rest);
      assert Elements(order) == keys;
    }
  }

  lemma {:induction false} SomeOrderFor(e: Scenario, o: OriginState, m: ReplicaMsg) returns (order: seq<nat>)
    requires 1 <= e.pageSize
    ensures OrderFor(e, o, m, order)
  {
    hide Enumerates, Multi, Swept, StreamedPages;
    if m.RReady? && o.badHash.Some? {
      var t := o.badHash.value;
      if Multi(t) != map[] {
        order := SomeOrder(Multi(t).Keys);
      } else {
        order := SomeOrder(StreamedPages(e, Swept(e, t, o.mxHash)));
      }
    } else {
      order := [];
    }
  }

  /** In a phase of the conversation either both roles have left or a step can be taken. */
  lemma {:induction false} StepOrOver(e: Scenario, s: System, phase: Phase) returns (step: Step)
    requires Proper(e) && Inv(e, s, phase)
    ensures Over(s) || Enabled(e, s, step)
    ensures (step.OriginShows? ==> step.n <= s.down.due) && (step.ReplicaShows? ==> step.n <= s.up.due)
  {
    hide OrderFor, Base, Budget, PageNumbers, Tally, Planned, NoLonger, Reaching, Chosen, Staged, Final, Genuine,
      Version1, Ascending, MaxRounds, Emit, Incoming;
    if s.down.shown < |s.down.sent| {
      step := OriginShows(|s.down.sent|);
    } else if s.up.shown < |s.up.sent| {
      step := ReplicaShows(|s.up.sent|);
    } else if phase.Downgrading? || phase.Hashing? || phase.Refused? {
      if phase.Hashing? {
        SomethingUp(e, s, phase.pending);
      }
      var order := SomeOrderFor(e, s.o, s.up.sent[s.up.read]);
      step := OriginReads(order);
    } else if phase.Closing? {
      step := OriginSeesClose;
    } else {
      step := ReplicaReads;
    }
  }

  lemma {:induction false} SomethingUp(e: Scenario, s: System, pending: seq<Row>)
    requires Proper(e) && HashingInv(e, s, pending) && s.up.Ok()
    ensures !s.up.Drained()
  {
    hide Base, Budget, MaxRounds, PageNumbers, Tally, Planned, NoLonger, Emit, Comparing, Reaching;
    if pending == [] {
      EndOfBatch(e, s.up.Unread(), s.o.iHash, s.o.nHash);
    } else {
      BaseBounded(e);
      NextPendingRow(e, s, pending);
      NextOfBatch(e, s.up.Unread(), pending, s.o.iHash, s.o.nHash);
    }
  }

  /** No run gets stuck: until both roles have left, some step is enabled that needs no buffer to
      spill by itself: a role reads, leaves, or passes on what it has flushed. */
  lemma {:induction false} NoDeadlock(e: Scenario, steps: seq<Step>) returns (step: Step)
    requires Proper(e) && Run(e, steps) && !Over(After(e, steps))
    ensures Enabled(e, After(e, steps), step) && Run(e, steps + [step])
    ensures step.OriginShows? ==> step.n <= After(e, steps).down.due
    ensures step.ReplicaShows? ==> step.n <= After(e, steps).up.due
  {
    hide Inv, Enabled;
    var phase := RunInv(e, steps);
    step := StepOrOver(e, After(e, steps), phase);
    assert (steps + [step])[..|steps + [step]| - 1] == steps;
  }

  /** In every run a role that reads on, or finds its stream closed, has an empty write buffer: what
      it has written it has flushed. */
  lemma {:induction false} EmptyBufferAtHead(e: Scenario, steps: seq<Step>, step: Step)
    requires Proper(e) && Run(e, steps) && Enabled(e, After(e, steps), step)
    ensures step.OriginReads? || step.OriginSeesClose? ==>
      After(e, steps).down.shown == |After(e, steps).down.sent|
    ensures step.ReplicaReads? || step.ReplicaSeesClose? ==>
      After(e, steps).up.shown == |After(e, steps).up.sent|
  {
    hide PhaseInv, Rank, Run, After, Genuine, Version1, OrderFor;
    var phase := RunInv(e, steps);
  }

  /** No role ever crashes. Between databases of one page size neither role ever fails: every INSERT into `badHash`
      meets a new key, the table exists when REPLICA_READY arrives, the commit finds its
      transaction. Between databases of different page sizes a run that is over has failed on
      both sides. */
  lemma {:induction false} FailsIffIncompatible(e: Scenario, steps: seq<Step>)
    requires Proper(e) && Run(e, steps)
    ensures Compatible(e) ==> !After(e, steps).o.status.Failed? && !After(e, steps).r.status.Failed?
    ensures !After(e, steps).o.status.Crashed? && !After(e, steps).r.status.Crashed?
    ensures !Compatible(e) && Over(After(e, steps)) ==>
      After(e, steps).o.status.Failed? && After(e, steps).r.status.Failed?
  {
    hide Base, Budget, PageNumbers, Tally, Planned, NoLonger, Incoming, Reaching, Chosen, Staged, Final, Genuine,
      Version1, Ascending, Run, After, MaxRounds;
    var phase := RunInv(e, steps);
  }

  /** The conversation is half-duplex: at any time at most one direction holds unread messages,
      in a write buffer or on the connection. */
  lemma {:induction false} HalfDuplex(e: Scenario, steps: seq<Step>)
    requires Proper(e) && Run(e, steps)
    ensures After(e, steps).down.Drained() || After(e, steps).up.Drained()
  {
    hide Base, Budget, PageNumbers, Tally, Planned, NoLonger, Incoming, Reaching, Chosen, Staged, Final, Genuine,
      Version1, Ascending, Run, After, MaxRounds;
    var phase := RunInv(e, steps);
  }

  // ---------------------------------------------------------------- the counter

  /** Hashes carry no page number, yet the origin always checks a hash against the range it was
      made of: its counter names the row the replica hashed, the digest is that row's, and the
      32-bit sum does not wrap. */
  lemma {:induction false} CounterAgreement(e: Scenario, steps: seq<Step>, digest: Digest)
    requires Proper(e) && Run(e, steps)
    requires var s := After(e, steps);
      s.up.read < s.up.shown <= |s.up.sent| && s.up.sent[s.up.read] == RHash(digest)
    ensures var s := After(e, steps);
      && |s.checked| < |s.hashed| && s.checked == s.hashed[..|s.checked|]
      && s.hashed[|s.checked|] == Row(s.o.iHash, s.o.nHash)
      && RowHash(e.hash, Base(e), s.o.iHash, s.o.nHash) == Some(digest)
      && 1 <= s.o.iHash && 1 <= s.o.nHash
      && s.o.iHash + s.o.nHash <= |Base(e)| + 1 < U32_LIMIT
  {
    hide Base, Budget, PageNumbers, Tally, Planned, NoLonger, Reaching, Chosen, Staged, Final, Genuine,
      Version1, Ascending, Run, After, MaxRounds, Emit, Incoming, RowHash;
    var s := After(e, steps);
    var phase := RunInv(e, steps);
    Taken(s.up);
    BaseBounded(e);
    if phase.Hashing? {
      if phase.pending == [] {
        EndOfBatch(e, s.up.Unread(), s.o.iHash, s.o.nHash);
      } else {
        NextPendingRow(e, s, phase.pending);
        NextOfBatch(e, s.up.Unread(), phase.pending, s.o.iHash, s.o.nHash);
        assert s.hashed[|s.checked|] == phase.pending[0];
      }
    } else if !phase.Downgrading? && !phase.Refused? {
      NothingUp(e, s, phase);
    }
  }

  /** Every REPLICA_HASH, when the origin takes it, is about the pages that the origin's counter
      names: of one page it is the hash of the replica's content, of several the hash of their
      hashes one after the other. */
  lemma {:induction false} HashOnTheWire(e: Scenario, steps: seq<Step>, digest: Digest)
    requires Proper(e) && Run(e, steps)
    requires var s := After(e, steps);
      s.up.read < s.up.shown <= |s.up.sent| && s.up.sent[s.up.read] == RHash(digest)
    ensures var o, pages := After(e, steps).o, Base(e);
      && 1 <= o.iHash && 1 <= o.nHash && o.iHash + o.nHash <= |pages| + 1
      && digest == if o.nHash == 1 then e.hash(pages[o.iHash - 1])
                   else e.hash(PageHashes(e.hash, pages[o.iHash - 1..o.iHash + o.nHash - 1]))
  {
    hide Base, Run, After, RowHash;
    CounterAgreement(e, steps, digest);
    RowHashIs(e.hash, Base(e), After(e, steps).o.iHash, After(e, steps).o.nHash);
  }

  /** And the origin's verdict on it: the range enters `badHash` exactly if the same hash of the
      origin's pages is another one, or the origin has none of them. */
  lemma {:induction false} VerdictOnTheWire(e: Scenario, steps: seq<Step>, digest: Digest)
    requires Proper(e) && Compatible(e) && Run(e, steps)
    requires var s := After(e, steps);
      s.up.read < s.up.shown <= |s.up.sent| && s.up.sent[s.up.read] == RHash(digest)
    ensures var o := After(e, steps).o; var o' := OriginOnHash(e, o, digest).0;
      && 1 <= o.iHash && 1 <= o.nHash && o'.badHash.Some?
      && (o.iHash in o'.badHash.value <==>
           !(&& o.iHash <= |e.origin|
             && digest == if o.nHash == 1 then e.hash(e.origin[o.iHash - 1])
                  else e.hash(PageHashes(e.hash, e.origin[o.iHash - 1..Min(o.iHash + o.nHash - 1, |e.origin|)]))))
  {
    hide Base, Run, After, RowHash, Matches, PageHashes, Budget, PageNumbers, Tally, NoLonger, Reaching, Chosen, Staged,
      Final, Genuine, Version1, Ascending, MaxRounds, Emit, Incoming, Planned;
    CounterAgreement(e, steps, digest);
    var s := After(e, steps);
    MatchesIs(e.hash, e.origin, s.o.iHash, s.o.nHash, digest);
    FreshAtHead(e, steps, digest);
  }

  /** The range about to be judged has no entry yet. */
  lemma {:induction false} FreshAtHead(e: Scenario, steps: seq<Step>, digest: Digest)
    requires Proper(e) && Compatible(e) && Run(e, steps)
    requires var s := After(e, steps);
      s.up.read < s.up.shown <= |s.up.sent| && s.up.sent[s.up.read] == RHash(digest)
    ensures After(e, steps).o.iHash !in Bad(After(e, steps).o)
  {
    hide Base, Budget, PageNumbers, Tally, NoLonger, Reaching, Chosen, Staged, Final, Genuine,
      Version1, Ascending, Run, After, MaxRounds, Emit, Incoming, RowHash, Planned;
    var s := After(e, steps);
    var phase := RunInv(e, steps);
    Taken(s.up);
    BaseBounded(e);
    if phase.Hashing? {
      var pending := phase.pending;
      if pending == [] {
        EndOfBatch(e, s.up.Unread(), s.o.iHash, s.o.nHash);
      } else {
        NextPendingRow(e, s, pending);
        NextOfBatch(e, s.up.Unread(), pending, s.o.iHash, s.o.nHash);
        assert pending[0] in Elements(pending);
        FreshKey(e, Bad(s.o), Elements(pending), pending[0]);
      }
    } else if !phase.Downgrading? && !phase.Refused? {
      NothingUp(e, s, phase);
    }
  }

  // ---------------------------------------------------------------- the partition

  /** The ranges of the detail requests among some messages. */
  function AskedRows(msgs: seq<OriginMsg>): seq<Row>
    decreases |msgs|
  {
    if msgs == [] then []
    else (if msgs[0].ODetail? then [Row(msgs[0].fpg, msgs[0].npg)] else []) + AskedRows(msgs[1..])
  }

  lemma {:induction false} AskedRowsOf(rows: seq<Row>)
    ensures AskedRows(Details(rows) + [OReady]) == rows
    decreases |rows|
  {
    if rows == [] {
      assert Details(rows) + [OReady] == [OReady];
    } else {
      assert (Details(rows) + [OReady])[1..] == Details(rows[1..]) + [OReady];
      AskedRowsOf(rows[1..]);
      assert rows == [rows[0]] + rows[1..];
    }
  }

  /** The ranges whose hashes are on their way. */
  function InFlight(s: System): seq<Row> {
    if |s.checked| <= |s.hashed| then s.hashed[|s.checked|..] else []
  }

  /** From the first batch until the page stream, the replica's pages split into ranges the origin
      has rejected, ranges to be hashed, detail requests and hashes on their way, all disjoint, and
      pages that are equal on both sides. Each rejected range does hold a faulty page. */
  lemma {:induction false} Partition(e: Scenario, steps: seq<Step>)
    requires Proper(e) && Run(e, steps)
    requires After(e, steps).r.hashRounds > 0 && Tally(After(e, steps).down.sent, TxnKind) == 0
    ensures var s := After(e, steps);
      && s.r.sendHash.Some?
      && var table, asked, flying :=
           TableRows(s.r.sendHash.value), Elements(AskedRows(s.down.Unread())), Elements(InFlight(s));
      && table !! asked !! flying
      && Planned(e, TableRows(Bad(s.o)), table + asked + flying)
  {
    hide Base, Budget, PageNumbers, Tally, NoLonger, Reaching, Chosen, Staged, Final, Genuine,
      Version1, Ascending, Run, After, MaxRounds, Emit, Incoming, Planned;
    var s := After(e, steps);
    var phase := RunInv(e, steps);
    if phase.Hashing? {
      assert InFlight(s) == phase.pending;
      assert TableRows(map[]) == {};
      assert AskedRows([]) == [];
      assert s.down.Unread() == [];
      assert TableRows(s.r.sendHash.value) + Elements(AskedRows(s.down.Unread())) + Elements(InFlight(s))
          == Elements(phase.pending);
    } else if phase.Detailing? {
      AskedRowsOf(phase.pending);
      assert InFlight(s) == [];
      assert TableRows(s.r.sendHash.value) + Elements(AskedRows(s.down.Unread())) + Elements(InFlight(s))
          == TableRows(s.r.sendHash.value) + Elements(phase.pending);
    }
  }

  // ---------------------------------------------------------------- traffic

  /** The number of rows the replica hashes in a run. With `d` replica pages that differ or lie past the
      origin's end: beyond 1001 pages one for page 1, one per 1000 pages, and at most 64 for each
      such page; up to 1001 pages one for page 1, one per 30 pages, and at most 30 for each. */
  lemma {:induction false} RowsHashedBound(e: Scenario, steps: seq<Step>)
    requires Proper(e) && Run(e, steps)
    ensures var n, d := |Base(e)|, |Faults(e)|;
      |After(e, steps).hashed| <=
        if Agreed(e) == 1 || n <= 100 then n
        else if n <= 1001 then 1 + (n - 1 + 29) / 30 + 30 * d
        else 1 + (n - 1 + 999) / 1000 + 64 * d
  {
    var n := |Base(e)|;
    var sent := HashedWithinBudget(e, steps);
    InitialRowsCount(Agreed(e), n);
    SpentAtMost(e, sent);
  }

  lemma {:induction false} HashedWithinBudget(e: Scenario, steps: seq<Step>) returns (round: nat)
    requires Proper(e) && Run(e, steps)
    ensures round <= MaxRounds(e) && |After(e, steps).hashed| <= Budget(e, round)
  {
    hide Base, Budget, PageNumbers, Tally, Planned, NoLonger, Incoming, Reaching, Chosen, Staged, Final, Genuine,
      Version1, Ascending, Run, After;
    var phase := RunInv(e, steps);
    round := After(e, steps).r.hashRounds;
  }

  lemma {:induction false} SpentAtMost(e: Scenario, round: nat)
    requires round <= MaxRounds(e)
    ensures var max := MaxRounds(e);
      Spent(max, round) * |Faults(e)| <= (if max == 1 then 0 else if max == 2 then 30 else 64) * |Faults(e)|
  {
    hide Faults;
    var max, d := MaxRounds(e), |Faults(e)|;
    assert Spent(max, 0) == Spent(max, 1) == 0;
    assert max == 2 ==> Spent(max, 2) == 30;
    assert max == 3 ==> Spent(max, 2) == 34 && Spent(max, 3) == 64;
  }
}
