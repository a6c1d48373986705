/** The inductive invariant of honest runs, one clause per phase of the conversation. */
module Invariant {
  import opened Prelude
  import opened Ranges
  import opened Database
  import opened PageHash
  import opened Protocol
  import opened Conversation

  // ---------------------------------------------------------------- the scenario

  const MAX_PAGES := 4294967294

  /** The replica's pages when it starts hashing. */
  function Base(e: Scenario): (pages: seq<Page>)
    ensures 1 <= |pages|
  {
    OpenedPages(e, e.replica, e.pageSize)
  }

  /** What the callers of the two roles guarantee: page counts below 2^32 - 1 and the protocol
      versions the options can select. */
  predicate Proper(e: Scenario) {
    && 1 <= e.pageSize
    && |e.origin| <= MAX_PAGES && |e.replica| <= MAX_PAGES
    && 1 <= e.originProtocol <= 2 && 1 <= e.replicaProtocol <= 2
  }

  /** The two files have one page size; an empty replica adopts the origin's, if it is one a
      database file can have. */
  predicate Compatible(e: Scenario) {
    !Refuses(e, e.replica, e.pageSize)
  }

  function Agreed(e: Scenario): nat {
    Min(e.originProtocol, e.replicaProtocol)
  }

  predicate KeptWal(e: Scenario) {
    InWalMode(e, e.replica)
  }

  ghost predicate NoCollisions(e: Scenario) {
    NoCollision(e.hash, e.origin, Base(e))
  }

  /** Both databases have page `p`, with one content. */
  predicate Alike(e: Scenario, p: nat) {
    Exists(e.origin, p) && Exists(Base(e), p) && e.origin[p - 1] == Base(e)[p - 1]
  }

  /** The pages a sync has to carry: on the origin, not the lock-byte page, and missing or
      different on the replica. */
  function Missing(e: Scenario): set<nat>
    requires 1 <= e.pageSize
  {
    set p: nat | 1 <= p <= |e.origin| && p != LockBytePage(e.pageSize) && !Alike(e, p)
  }

  /** The replica's pages that differ from the origin's or lie past its end. */
  function Faults(e: Scenario): set<nat> {
    set p: nat | 1 <= p <= |Base(e)| && !Alike(e, p)
  }

  // ---------------------------------------------------------------- ranges still in question

  ghost predicate Faulty(e: Scenario, a: Row) {
    exists p :: a.Has(p) && !Alike(e, p)
  }

  /** The ranges in question are disjoint and lie within the replica; without collisions a page
      outside all of them is equal on both sides. */
  ghost predicate Plan(e: Scenario, rows: set<Row>) {
    && Separate(rows)
    && Within(rows, |Base(e)|)
    && (NoCollisions(e) ==> forall p :: 1 <= p <= |Base(e)| && !Open(rows, p) ==> Alike(e, p))
  }

  /** `bad` are the ranges the origin has rejected, `pending` those it has still to judge. */
  ghost predicate Planned(e: Scenario, bad: set<Row>, pending: set<Row>) {
    && bad !! pending
    && Plan(e, bad + pending)
    && (forall a :: a in bad ==> Faulty(e, a))
  }

  ghost predicate NoLonger(rows: set<Row>, bound: nat) {
    forall a :: a in rows ==> a.npg <= bound
  }

  function Bad(o: OriginState): Table {
    if o.badHash.None? then map[] else o.badHash.value
  }

  // ---------------------------------------------------------------- rounds and budgets

  /** The number of hash rounds a run can have. */
  function MaxRounds(e: Scenario): nat {
    if Agreed(e) < 2 || |Base(e)| <= 100 then 1
    else if |Base(e)| <= 1001 then 2
    else 3
  }

  /** The longest range hashed in a round that leaves `left` more rounds. */
  function RowBound(left: nat): nat {
    if left == 0 then 1 else if left == 1 then 30 else 1000
  }

  /** The most rows one detail request turns into, when `left` rounds are still to come. */
  function Fanout(left: nat): nat {
    if left == 0 then 0 else if left == 1 then 30 else 34
  }

  /** Extra hashes per faulty page after `round` rounds of `max`. */
  function Spent(max: nat, round: nat): nat {
    if round <= 1 || max < round then 0
    else Spent(max, round - 1) + Fanout(max - (round - 1))
  }

  function Budget(e: Scenario, round: nat): nat {
    |InitialRows(Agreed(e), |Base(e)|)| + Spent(MaxRounds(e), round) * |Faults(e)|
  }

  // ---------------------------------------------------------------- what has been sent

  function PageNumbers(sent: seq<OriginMsg>): seq<nat>
    decreases |sent|
  {
    if sent == [] then []
    else
      var m := sent[|sent| - 1];
      PageNumbers(sent[..|sent| - 1]) + (if m.OPage? then [m.pgno] else [])
  }

  datatype OriginKind = BeginKind | DetailKind | ReadyKind | PageKind | TxnKind | EndKind | TextKind

  function OriginKindOf(m: OriginMsg): OriginKind {
    match m
    case OBegin(_, _, _) => BeginKind
    case ODetail(_, _) => DetailKind
    case OReady => ReadyKind
    case OPage(_, _) => PageKind
    case OTxn(_) => TxnKind
    case OEnd => EndKind
    case OError(_) | OInfo(_) => TextKind
  }

  /** How many messages of a kind the origin has sent. */
  function Tally(sent: seq<OriginMsg>, kind: OriginKind): nat
    decreases |sent|
  {
    if sent == [] then 0
    else Tally(sent[..|sent| - 1], kind) + (if OriginKindOf(sent[|sent| - 1]) == kind then 1 else 0)
  }

  /** No message of protocol version 2. */
  ghost predicate Version1(down: seq<OriginMsg>, up: seq<ReplicaMsg>) {
    && (forall m :: m in down ==> !m.ODetail? && !m.OReady?)
    && (forall m :: m in up ==> !m.RConfig?)
  }

  /** Every page message carries the origin's page. */
  ghost predicate Genuine(e: Scenario, sent: seq<OriginMsg>) {
    forall m :: m in sent && m.OPage? ==> Exists(e.origin, m.pgno) && m.data == e.origin[m.pgno - 1]
  }

  // ---------------------------------------------------------------- the replica's pages

  /** The replica's transaction after it staged the given pages, in that order. */
  function Staged(e: Scenario, pages: seq<nat>): (db: seq<Page>)
    requires forall i :: 0 <= i < |pages| ==> Exists(e.origin, pages[i])
    decreases |pages|
  {
    if pages == [] then Base(e)
    else
      var p := pages[|pages| - 1];
      assert Exists(e.origin, p);
      WritePage(Staged(e, pages[..|pages| - 1]), p, KeepWal(p, KeptWal(e), e.origin[p - 1]))
  }

  /** What the replica commits. */
  function Final(e: Scenario, order: seq<nat>): seq<Page>
    requires forall i :: 0 <= i < |order| ==> Exists(e.origin, order[i])
  {
    if order == [] then Base(e) else Truncate(Staged(e, order), |e.origin|)
  }

  /** The pages of the stream: each once, only missing ones, all that the replica never had, and
      without collisions exactly the missing ones. */
  ghost predicate Chosen(e: Scenario, order: seq<nat>)
    requires 1 <= e.pageSize
  {
    && Distinct(order)
    && (forall i :: 0 <= i < |order| ==> Exists(e.origin, order[i]) && order[i] in Missing(e))
    && (forall p :: |Base(e)| < p <= |e.origin| && p != LockBytePage(e.pageSize) ==> p in order)
    && (NoCollisions(e) ==> Elements(order) == Missing(e))
  }

  // ---------------------------------------------------------------- phases

  /** Where the conversation stands. `pending` are the rows whose hashes, or the ranges whose
      detail requests, are unread; `done` pages of `order` have been staged. */
  datatype Phase =
    | Greeting
    | Downgrading
    | Hashing(pending: seq<Row>)
    | Detailing(pending: seq<Row>)
    | Paging(order: seq<nat>, done: nat)
    | Parting(order: seq<nat>)
    | Closing(order: seq<nat>)
    | Finished(order: seq<nat>)
    | Refused
    | Aborted

  ghost predicate Untouched(e: Scenario, s: System) {
    && s.r == ReplicaStart(e)
    && s.hashed == [] && s.checked == []
    && PageNumbers(s.down.sent) == [] && Tally(s.down.sent, TxnKind) == 0
  }

  ghost predicate GreetingInv(e: Scenario, s: System) {
    && Untouched(e, s)
    && s.o == OriginStart(e).(protocol := s.o.protocol)
    && (s.o.protocol == e.originProtocol
        || (s.o.protocol == e.replicaProtocol && e.replicaProtocol < e.originProtocol))
    && s.down.Unread() == [Hello(e, s.o.protocol)]
    && s.up.Unread() == []
  }

  ghost predicate DowngradingInv(e: Scenario, s: System) {
    && Untouched(e, s)
    && s.o == OriginStart(e)
    && e.replicaProtocol < e.originProtocol
    && s.down.Unread() == []
    && s.up.Unread() == [RBegin(e.replicaProtocol)]
  }

  /** Both roles run at the agreed version; the replica's transaction is open. */
  ghost predicate AtWork(e: Scenario, s: System) {
    && Compatible(e)
    && s.o.status.Running? && s.r.status.Running?
    && s.o.protocol == Agreed(e) && s.r.protocol == Agreed(e)
    && s.r.sendHash.Some?
    && s.r.wal == KeptWal(e)
    && s.r.committed == e.replica
    && s.r.txn.Some?
  }

  /** Nothing has been staged, and no page has been sent. */
  ghost predicate Comparing(e: Scenario, s: System) {
    && AtWork(e, s)
    && s.r.txn == Some(Base(e))
    && !s.r.inserting
    && s.o.pageUpdates == 0 && s.r.pageUpdates == 0
    && PageNumbers(s.down.sent) == [] && Tally(s.down.sent, TxnKind) == 0
  }

  /** The unread hashes belong to `pending`, under the counter the origin holds; the first batch
      after a detail request is announced anew. */
  predicate Incoming(e: Scenario, unread: seq<ReplicaMsg>, pending: seq<Row>, iHash: nat, nHash: nat) {
    || unread == Emit(e.hash, Base(e), pending, iHash, nHash)
    || unread == Emit(e.hash, Base(e), pending, 0, 0)
  }

  /** `mxHash` is past the replica's last page, or will be once the pending rows are checked. */
  predicate Reaching(e: Scenario, mxHash: nat, pending: seq<Row>) {
    && mxHash <= |Base(e)| + 1
    && (mxHash == |Base(e)| + 1 || (pending != [] && pending[|pending| - 1].End() == |Base(e)| + 1))
  }

  ghost predicate HashingInv(e: Scenario, s: System, pending: seq<Row>) {
    && Comparing(e, s)
    && s.r.sendHash == Some(map[])
    && s.down.Drained()
    && 1 <= s.r.hashRounds <= MaxRounds(e)
    && s.r.hashRounds == s.o.hashRounds + 1
    && s.hashed == s.checked + pending
    && |s.hashed| <= Budget(e, s.r.hashRounds)
    && Ascending(pending)
    && Planned(e, TableRows(Bad(s.o)), Elements(pending))
    && NoLonger(TableRows(Bad(s.o)) + Elements(pending), RowBound(MaxRounds(e) - s.r.hashRounds))
    && Reaching(e, s.o.mxHash, pending)
    && (s.o.badHash.None? ==> pending != [])
    && Incoming(e, s.up.Unread(), pending, s.o.iHash, s.o.nHash)
  }

  ghost predicate DetailingInv(e: Scenario, s: System, pending: seq<Row>) {
    && Comparing(e, s)
    && s.up.Drained()
    && 1 <= s.r.hashRounds < MaxRounds(e)
    && s.r.hashRounds == s.o.hashRounds
    && s.hashed == s.checked
    && |s.hashed| <= Budget(e, s.r.hashRounds)
    && s.o.badHash.Some?
    && s.o.mxHash == |Base(e)| + 1
    && Distinct(pending)
    && Planned(e, TableRows(Bad(s.o)), TableRows(s.r.sendHash.value) + Elements(pending))
    && TableRows(s.r.sendHash.value) !! Elements(pending)
    && NoLonger(TableRows(Bad(s.o)), 1)
    && NoLonger(Elements(pending), RowBound(MaxRounds(e) - s.r.hashRounds))
    && NoLonger(TableRows(s.r.sendHash.value), RowBound(MaxRounds(e) - s.r.hashRounds - 1))
    && |s.r.sendHash.value| + Fanout(MaxRounds(e) - s.r.hashRounds) * |pending|
       <= Fanout(MaxRounds(e) - s.r.hashRounds) * |Faults(e)|
    && s.down.Unread() == Details(pending) + [OReady]
  }

  /** The page stream has been chosen and written. */
  ghost predicate Settled(e: Scenario, s: System, order: seq<nat>)
    requires Proper(e)
  {
    && Compatible(e)
    && s.o.protocol == Agreed(e) && s.r.protocol == Agreed(e)
    && 1 <= s.r.hashRounds <= MaxRounds(e)
    && s.r.hashRounds == s.o.hashRounds
    && s.hashed == s.checked
    && |s.hashed| <= Budget(e, s.r.hashRounds)
    && Chosen(e, order)
    && PageNumbers(s.down.sent) == order && Tally(s.down.sent, TxnKind) == 1
    && s.o.pageUpdates == |order|
    && s.up.Drained()
  }

  ghost predicate PagingInv(e: Scenario, s: System, order: seq<nat>, done: nat)
    requires Proper(e)
  {
    && Settled(e, s, order)
    && AtWork(e, s)
    && done <= |order|
    && s.down.Unread() == PageMessages(e, order[done..]) + [OTxn(|e.origin|), OEnd]
    && s.r.txn == Some(Staged(e, order[..done]))
    && s.r.inserting == (0 < done)
    && s.r.pageUpdates == done
  }

  ghost predicate CommittedInv(e: Scenario, s: System, order: seq<nat>, unread: seq<OriginMsg>, o: Status, r: Status)
    requires Proper(e)
  {
    && Settled(e, s, order)
    && s.o.status == o && s.r.status == r
    && s.down.Unread() == unread
    && s.r.txn == None
    && s.r.committed == Final(e, order)
    && s.r.pageUpdates == |order|
  }

  ghost predicate RefusedInv(e: Scenario, s: System, unread: seq<ReplicaMsg>, o: Status) {
    && !Compatible(e)
    && s.o.status == o && s.r.status.Failed?
    && s.r.txn == None && s.r.committed == e.replica
    && s.hashed == [] && s.checked == []
    && PageNumbers(s.down.sent) == [] && Tally(s.down.sent, TxnKind) == 0
    && s.r.hashRounds == 0 && s.o.hashRounds == 0
    && s.down.Unread() == [] && s.up.Unread() == unread
  }

  ghost predicate PhaseInv(e: Scenario, s: System, phase: Phase)
    requires Proper(e)
  {
    match phase
    case Greeting => GreetingInv(e, s)
    case Downgrading => DowngradingInv(e, s)
    case Hashing(pending) => HashingInv(e, s, pending)
    case Detailing(pending) => DetailingInv(e, s, pending)
    case Paging(order, done) => PagingInv(e, s, order, done)
    case Parting(order) => CommittedInv(e, s, order, [OEnd], Running, Running)
    case Closing(order) => CommittedInv(e, s, order, [], Running, Ended)
    case Finished(order) => CommittedInv(e, s, order, [], Ended, Ended)
    case Refused => RefusedInv(e, s, [RError([])], Running)
    case Aborted => RefusedInv(e, s, [], Failed)
  }

  /** What holds in every phase. */
  ghost predicate Always(e: Scenario, s: System) {
    && s.down.Ok() && s.up.Ok()
    && s.down.due == |s.down.sent| && s.up.due == |s.up.sent|
    && s.o.hashMessages == |s.checked| && s.r.hashMessages == |s.hashed|
    && Genuine(e, s.down.sent)
    && (MaxRounds(e) == 1 ==> Version1(s.down.sent, s.up.sent))
  }

  ghost predicate Inv(e: Scenario, s: System, phase: Phase)
    requires Proper(e)
  {
    Always(e, s) && PhaseInv(e, s, phase)
  }

  // ---------------------------------------------------------------- progress

  /** What the messages already written still cost: two steps each, one to leave the write buffer
      and one to be read. */
  function Backlog(s: System): int {
    (2 * |s.down.sent| - s.down.shown - s.down.read) + (2 * |s.up.sent| - s.up.shown - s.up.read)
  }

  /** What the messages still to be written can cost at most. */
  function Ahead(e: Scenario, s: System, phase: Phase): nat {
    var n, max := |Base(e)|, MaxRounds(e);
    var tail := 2 * |e.origin| + 5;
    match phase
    case Greeting => (if s.o.protocol > e.replicaProtocol then 4 else 0) + 4 * n + 2 + Rounds(n, max - 1) + tail
    case Downgrading => 2 + 4 * n + 2 + Rounds(n, max - 1) + tail
    case Hashing(_) => Rounds(n, max - s.r.hashRounds) + tail
    case Detailing(_) => 4 * n + 2 + Rounds(n, max - s.r.hashRounds - 1) + tail
    case Paging(_, _) | Parting(_) | Closing(_) => 1
    case _ => 0
  }

  /** Detail requests and hashes of the given number of rounds. */
  function Rounds(n: nat, count: int): nat {
    if count <= 0 then 0 else if count == 1 then 6 * n + 4 else 12 * n + 8
  }

  function Rank(e: Scenario, s: System, phase: Phase): int {
    Backlog(s) + Ahead(e, s, phase)
  }
}
