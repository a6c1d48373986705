/** What each role does with one message: its new state and the messages it writes.
    `OriginReply` and `ReplicaReply` specify the methods of `OriginSide` and `ReplicaSide` and are
    the steps of the two-party system. */
module Protocol {
  import opened Prelude
  import opened Ranges
  import opened Database
  import opened PageHash

  /** What SQLite reports about a file: it is no database it can read, or one with a page size and
      a journal mode. */
  datatype File = NoDatabase | DatabaseFile(pageSize: nat, wal: bool)

  /** The two databases, the options and the hash function of one run. `file` is what SQLite reports
      about a replica file with given pages; `header` is the page that initialising an empty file
      with a given page size creates. */
  datatype Scenario = Scenario(
    origin: seq<Page>,
    replica: seq<Page>,
    file: seq<Page> -> File,
    header: nat -> Page,
    hash: Hash,
    pageSize: nat,
    originProtocol: nat,
    replicaProtocol: nat)

  datatype OriginMsg =
    | OBegin(protocol: nat, pageSize: nat, pageCount: nat)
    | ODetail(fpg: nat, npg: nat)
    | OReady
    | OPage(pgno: nat, data: Page)
    | OTxn(pageCount: nat)
    | OEnd
    | OError(text: seq<Byte>)
    | OInfo(text: seq<Byte>)

  datatype ReplicaMsg =
    | RBegin(protocol: nat)
    | RConfig(fpg: nat, npg: nat)
    | RHash(digest: Digest)
    | RReady
    | REnd
    | RError(text: seq<Byte>)
    | RInfo(text: seq<Byte>)

  /** A role runs on, has left without an error, has left with one, or has crashed. */
  datatype Status = Running | Ended | Failed | Crashed

  // ---------------------------------------------------------------- the origin

  /** `badHash` is created by the first hash. */
  datatype OriginState = OriginState(
    protocol: nat,
    iHash: nat,
    nHash: nat,
    mxHash: nat,
    badHash: Option<Table>,
    hashMessages: nat,
    hashRounds: nat,
    pageUpdates: nat,
    status: Status)

  function OriginStart(e: Scenario): OriginState {
    OriginState(e.originProtocol, 1, 1, 0, None, 0, 0, 0, Running)
  }

  function Hello(e: Scenario, protocol: nat): OriginMsg {
    OBegin(protocol, e.pageSize, |e.origin|)
  }

  function OriginOnBegin(e: Scenario, s: OriginState, protocol: nat): (OriginState, seq<OriginMsg>) {
    if protocol < s.protocol then (s.(protocol := protocol), [Hello(e, protocol)])
    else (s.(status := Failed), [OError([])])
  }

  function OriginOnHash(e: Scenario, s: OriginState, received: Digest): (OriginState, seq<OriginMsg>) {
    var bad := if s.badHash.None? then map[] else s.badHash.value;
    var counted := s.(badHash := Some(bad), hashMessages := s.hashMessages + 1);
    var match_ := Matches(e.hash, e.origin, s.iHash, s.nHash, received);
    if !match_ && s.iHash in bad then (counted.(status := Failed), [OError([])])
    else
      var next := Add32(s.iHash, s.nHash);
      (counted.(
         badHash := Some(if match_ then bad else bad[s.iHash := s.nHash]),
         mxHash := Max(s.mxHash, next),
         iHash := next), [])
  }

  /** SELECT pgno, sz FROM badHash WHERE sz > 1. */
  function Multi(t: Table): Table {
    map k | k in t && t[k] > 1 :: t[k]
  }

  /** What DELETE FROM badHash WHERE sz > 1 leaves. */
  function Singles(t: Table): Table {
    map k | k in t && t[k] <= 1 :: t[k]
  }

  /** The single-page entries for the pages first..last that the replica never hashed. */
  function Gap(first: nat, last: nat): (t: Table)
    ensures forall k :: k in t <==> first <= k <= last
    ensures forall k :: k in t ==> t[k] == 1
    decreases last
  {
    if last < first then map[]
    else if last == 0 then map[0 := 1]
    else Gap(first, last - 1)[last := 1]
  }

  predicate GapFits(t: Table, first: nat, last: nat) {
    forall k :: first <= k <= last ==> k !in t
  }

  /** `badHash` after the final sweep: the gap filled in, the lock-byte page dropped. */
  function Swept(e: Scenario, t: Table, mxHash: nat): Table
    requires 1 <= e.pageSize
  {
    (t + Gap(mxHash, |e.origin|)) - {LockBytePage(e.pageSize)}
  }

  /** The pages that the join of `badHash` with the origin's pages yields. */
  function StreamedPages(e: Scenario, t: Table): set<nat> {
    set k | k in t && Exists(e.origin, k)
  }

  ghost predicate Enumerates(order: seq<nat>, keys: set<nat>) {
    Distinct(order) && Elements(order) == keys
  }

  /** The order in which a query without ORDER BY returns its rows is the database's choice. */
  ghost predicate OrderFor(e: Scenario, s: OriginState, m: ReplicaMsg, order: seq<nat>)
    requires 1 <= e.pageSize
  {
    m.RReady? && s.badHash.Some? ==>
      var t := s.badHash.value;
      if Multi(t) != map[] then Enumerates(order, Multi(t).Keys)
      else GapFits(t, s.mxHash, |e.origin|) ==> Enumerates(order, StreamedPages(e, Swept(e, t, s.mxHash)))
  }

  function DetailRows(t: Table, order: seq<nat>): (rows: seq<Row>)
    requires forall i :: 0 <= i < |order| ==> order[i] in t
  {
    seq(|order|, i requires 0 <= i < |order| => Row(order[i], t[order[i]]))
  }

  function Details(rows: seq<Row>): (out: seq<OriginMsg>) {
    seq(|rows|, i requires 0 <= i < |rows| => ODetail(rows[i].fpg, rows[i].npg))
  }

  function PageMessages(e: Scenario, order: seq<nat>): (out: seq<OriginMsg>)
    requires forall i :: 0 <= i < |order| ==> Exists(e.origin, order[i])
  {
    seq(|order|, i requires 0 <= i < |order| =>
      assert Exists(e.origin, order[i]);
      OPage(order[i], e.origin[order[i] - 1]))
  }

  ghost function OriginOnReady(e: Scenario, s: OriginState, order: seq<nat>): (OriginState, seq<OriginMsg>)
    requires 1 <= e.pageSize
    requires OrderFor(e, s, RReady, order)
  {
    var counted := s.(hashRounds := s.hashRounds + 1);
    if s.badHash.None? then (counted.(status := Failed), [OError([])])
    else
      var t := s.badHash.value;
      if Multi(t) != map[] then
        assert forall i :: 0 <= i < |order| ==> order[i] in Elements(order);
        (counted.(badHash := Some(Singles(t))), Details(DetailRows(t, order)) + [OReady])
      else if !GapFits(t, s.mxHash, |e.origin|) then (counted.(status := Failed), [OError([])])
      else
        assert forall i :: 0 <= i < |order| ==> order[i] in Elements(order);
        (counted.(badHash := Some(Swept(e, t, s.mxHash)), pageUpdates := s.pageUpdates + |order|),
         PageMessages(e, order) + [OTxn(|e.origin|), OEnd])
  }

  ghost function OriginReply(e: Scenario, s: OriginState, m: ReplicaMsg, order: seq<nat>): (OriginState, seq<OriginMsg>)
    requires 1 <= e.pageSize
    requires OrderFor(e, s, m, order)
  {
    match m
    case RBegin(protocol) => OriginOnBegin(e, s, protocol)
    case RConfig(fpg, npg) => (s.(iHash := fpg, nHash := npg), [])
    case RHash(digest) => OriginOnHash(e, s, digest)
    case RReady => OriginOnReady(e, s, order)
    case REnd => (s.(status := Ended), [])
    case RError(_) => (s.(status := Failed), [])
    case RInfo(_) => (s, [])
  }

  predicate EndsInError(out: seq<OriginMsg>) {
    out != [] && out[|out| - 1].OError?
  }

  /** The handlers that flush: of REPLICA_BEGIN, of REPLICA_READY, and whatever writes an error. */
  predicate OriginFlushes(m: ReplicaMsg, out: seq<OriginMsg>) {
    m.RBegin? || m.RReady? || EndsInError(out)
  }

  // ---------------------------------------------------------------- the replica

  /** `sendHash` exists once an ORIGIN_BEGIN was accepted; `txn` is the database as the open
      transaction sees it; `inserting` says that the page-insert statement was prepared. */
  datatype ReplicaState = ReplicaState(
    protocol: nat,
    pageSize: nat,
    pageCount: nat,
    wal: bool,
    sendHash: Option<Table>,
    committed: seq<Page>,
    txn: Option<seq<Page>>,
    inserting: bool,
    hashMessages: nat,
    hashRounds: nat,
    pageUpdates: nat,
    status: Status)

  function ReplicaStart(e: Scenario): ReplicaState {
    ReplicaState(e.replicaProtocol, 0, 0, false, None, e.replica, None, false, 0, 0, 0, Running)
  }

  /** The replica's pages once its transaction is open: an empty file gets its header page. */
  function OpenedPages(e: Scenario, committed: seq<Page>, pageSize: nat): seq<Page> {
    if committed == [] then [e.header(pageSize)] else committed
  }

  /** The replica's file is a database in WAL mode. */
  predicate InWalMode(e: Scenario, committed: seq<Page>) {
    committed != [] && e.file(committed).DatabaseFile? && e.file(committed).wal
  }

  /** Leaving the run closes the connection, which rolls back an open transaction. */
  function Leave(s: ReplicaState, status: Status): ReplicaState {
    s.(status := status, txn := None)
  }

  /** The rows of the first batch: one per page, or page 1 alone and the rest in chunks. */
  function InitialRows(protocol: nat, pages: nat): seq<Row> {
    if protocol < 2 || pages <= 100 then Chunks(1, Max(pages, 1) + 1, 1)
    else [Row(1, 1)] + Subdivision(2, pages - 1)
  }

  /** The messages of one batch: a REPLICA_CONFIG where a row is not what (iHash, nHash) predicts,
      a REPLICA_HASH for every row with an existing page, and REPLICA_READY at the end. */
  function Emit(hash: Hash, db: seq<Page>, rows: seq<Row>, iHash: nat, nHash: nat): seq<ReplicaMsg>
    decreases |rows|
  {
    if rows == [] then [RReady]
    else
      var row := rows[0];
      var h := RowHash(hash, db, row.fpg, row.npg);
      (if row.fpg != iHash || row.npg != nHash then [RConfig(row.fpg, row.npg)] else [])
      + (if h.Some? then [RHash(h.value)] else [])
      + Emit(hash, db, rows[1..], Add32(row.fpg, row.npg), row.npg)
  }

  /** The rows of a batch that a hash goes out for. */
  function Hashed(hash: Hash, db: seq<Page>, rows: seq<Row>): seq<Row>
    decreases |rows|
  {
    if rows == [] then []
    else (if RowHash(hash, db, rows[0].fpg, rows[0].npg).Some? then [rows[0]] else [])
         + Hashed(hash, db, rows[1..])
  }

  function View(s: ReplicaState): seq<Page> {
    if s.txn.Some? then s.txn.value else s.committed
  }

  ghost function SendHashes(e: Scenario, s: ReplicaState, iHash: nat, nHash: nat): (ReplicaState, seq<ReplicaMsg>)
    requires s.sendHash.Some?
  {
    var rows := Listing(s.sendHash.value);
    (s.(sendHash := Some(map[]),
        hashMessages := s.hashMessages + |rows|,
        hashRounds := s.hashRounds + 1),
     Emit(e.hash, View(s), rows, iHash, nHash))
  }

  /** The replica after opening its database for an accepted ORIGIN_BEGIN, `sendHash` filled. */
  function Opened(e: Scenario, s: ReplicaState, protocol: nat, pageSize: nat, pageCount: nat): ReplicaState {
    var pages := OpenedPages(e, s.committed, pageSize);
    s.(protocol := protocol, pageSize := pageSize, pageCount := pageCount, inserting := false,
       wal := InWalMode(e, s.committed),
       txn := Some(pages),
       sendHash := Some(Put(map[], InitialRows(protocol, |pages|))))
  }

  const SMALLEST_PAGE := 512

  /** The replica's file is no database, or has another page size; an empty one takes on the
      announced size, if a database can have it. Each ORIGIN_BEGIN looks at the file anew. */
  predicate Refuses(e: Scenario, committed: seq<Page>, pageSize: nat) {
    match e.file(committed)
    case NoDatabase => true
    case DatabaseFile(size, _) => size != pageSize && (committed != [] || pageSize < SMALLEST_PAGE)
  }

  ghost function ReplicaOnBegin(e: Scenario, s: ReplicaState, protocol: nat, pageSize: nat, pageCount: nat)
    : (ReplicaState, seq<ReplicaMsg>)
  {
    if protocol > s.protocol then
      (s.(txn := None, inserting := false, sendHash := None), [RBegin(s.protocol)])
    else
      var begun := Opened(e, s, protocol, pageSize, pageCount);
      if Refuses(e, s.committed, pageSize) then
        (Leave(begun.(sendHash := Some(map[])), Failed), [RError([])])
      else SendHashes(e, begun, 1, 1)
  }

  /** A commit, after truncation if pages were inserted. Nothing can be truncated to no page. With
      no transaction open the truncation commits by itself, and the commit fails. */
  function ReplicaOnTxn(s: ReplicaState, pageCount: nat): (ReplicaState, seq<ReplicaMsg>) {
    if s.inserting && pageCount == 0 then (Leave(s, Failed), [RError([])])
    else
      var pages := if s.inserting && pageCount < 0xffff_ffff then Truncate(View(s), pageCount) else View(s);
      var count := if s.inserting then pageCount else s.pageCount;
      if s.txn.Some? then (s.(committed := pages, txn := None, pageCount := count), [])
      else (Leave(s.(committed := pages, pageCount := count), Failed), [RError([])])
  }

  /** An insert outside a transaction commits by itself. */
  function ReplicaOnPage(s: ReplicaState, pgno: nat, data: Page): (ReplicaState, seq<ReplicaMsg>) {
    var counted := s.(inserting := true, pageUpdates := s.pageUpdates + 1);
    if pgno == 0 then (Leave(counted, Failed), [RError([])])
    else
      var pages := WritePage(View(s), pgno, KeepWal(pgno, s.wal, data));
      (if s.txn.Some? then counted.(txn := Some(pages)) else counted.(committed := pages), [])
  }

  /** Without an accepted ORIGIN_BEGIN the role holds no database connection. Using it all the
      same crashes the role: no error message goes out. */
  function Unopened(s: ReplicaState): (ReplicaState, seq<ReplicaMsg>) {
    (Leave(s, Crashed), [])
  }

  /** The messages that use the database connection. */
  predicate NeedsDatabase(m: OriginMsg) {
    m.ODetail? || m.OReady? || m.OTxn? || m.OPage?
  }

  /** How many bytes of page data the replica reads behind a page number: with no connection it
      does not get that far. */
  function PageLength(s: ReplicaState): nat {
    if s.sendHash.Some? then s.pageSize else 0
  }

  ghost function ReplicaReply(e: Scenario, s: ReplicaState, m: OriginMsg): (ReplicaState, seq<ReplicaMsg>) {
    match m
    case OBegin(protocol, pageSize, pageCount) => ReplicaOnBegin(e, s, protocol, pageSize, pageCount)
    case OEnd => (Leave(s, Ended), [])
    case OError(_) => (Leave(s, Failed), [])
    case OInfo(_) => (s, [])
    case ODetail(fpg, npg) =>
      if s.sendHash.None? then Unopened(s)
      else (s.(sendHash := Some(Put(s.sendHash.value, Subdivision(fpg, npg)))), [])
    case OReady => if s.sendHash.None? then Unopened(s) else SendHashes(e, s, 0, 0)
    case OTxn(pageCount) => if s.sendHash.None? then Unopened(s) else ReplicaOnTxn(s, pageCount)
    case OPage(pgno, data) => if s.sendHash.None? then Unopened(s) else ReplicaOnPage(s, pgno, data)
  }

  predicate EndsInRefusal(out: seq<ReplicaMsg>) {
    out != [] && out[|out| - 1].RError?
  }

  /** The handlers that flush: of ORIGIN_BEGIN, of ORIGIN_READY, and whatever writes an error. */
  predicate ReplicaFlushes(m: OriginMsg, out: seq<ReplicaMsg>) {
    m.OBegin? || m.OReady? || EndsInRefusal(out)
  }

  /** The rows whose hashes the replica writes while it handles `m`. */
  ghost function RowsHashedBy(e: Scenario, s: ReplicaState, m: OriginMsg): seq<Row> {
    match m
    case OBegin(protocol, pageSize, pageCount) =>
      if protocol > s.protocol || Refuses(e, s.committed, pageSize) then []
      else
        var begun := Opened(e, s, protocol, pageSize, pageCount);
        Hashed(e.hash, View(begun), Listing(begun.sendHash.value))
    case OReady =>
      if s.sendHash.None? then [] else Hashed(e.hash, View(s), Listing(s.sendHash.value))
    case _ => []
  }
}
