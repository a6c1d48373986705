/** How many messages of each kind a run sends. */
module Tallies {
  import opened Prelude
  import opened Ranges
  import opened Database
  import opened PageHash
  import opened Protocol
  import opened Conversation
  import opened Invariant
  import opened Preservation
  import opened Theorems

  datatype ReplyKind = BeginReply | ConfigReply | HashReply | ReadyReply | EndReply | TextReply

  function ReplyKindOf(m: ReplicaMsg): ReplyKind {
    match m
    case RBegin(_) => BeginReply
    case RConfig(_, _) => ConfigReply
    case RHash(_) => HashReply
    case RReady => ReadyReply
    case REnd => EndReply
    case RError(_) | RInfo(_) => TextReply
  }

  /** How many messages of a kind the replica has sent. */
  function Replies(sent: seq<ReplicaMsg>, kind: ReplyKind): nat
    decreases |sent|
  {
    if sent == [] then 0
    else (if ReplyKindOf(sent[0]) == kind then 1 else 0) + Replies(sent[1..], kind)
  }

  lemma {:induction false} RepliesAppend(a: seq<ReplicaMsg>, b: seq<ReplicaMsg>, kind: ReplyKind)
    ensures Replies(a + b, kind) == Replies(a, kind) + Replies(b, kind)
    decreases |a|
  {
    if a == [] {
      assert a + b == b;
    } else {
      RepliesAppend(a[1..], b, kind);
      assert (a + b)[1..] == a[1..] + b;
    }
  }

  lemma {:induction false} TallyFirst(msgs: seq<OriginMsg>, kind: OriginKind)
    requires msgs != []
    ensures Tally(msgs, kind) == (if OriginKindOf(msgs[0]) == kind then 1 else 0) + Tally(msgs[1..], kind)
  {
    TallyAppend([msgs[0]], msgs[1..], kind);
    assert msgs == [msgs[0]] + msgs[1..];
    assert [msgs[0]][..0] == [];
    assert Tally([msgs[0]], kind) == (if OriginKindOf(msgs[0]) == kind then 1 else 0) + Tally([], kind);
  }

  lemma {:induction false} PagesTallied(sent: seq<OriginMsg>)
    ensures Tally(sent, PageKind) == |PageNumbers(sent)|
    decreases |sent|
  {
    if sent != [] {
      PagesTallied(sent[..|sent| - 1]);
    }
  }

  // ---------------------------------------------------------------- what one step sends

  lemma {:induction false} DetailTallies(rows: seq<Row>)
    ensures var out := Details(rows) + [OReady];
      && Tally(out, TextKind) == Tally(out, EndKind) == Tally(out, TxnKind) == Tally(out, BeginKind) == 0
      && Tally(out, ReadyKind) == 1 && Tally(out, DetailKind) == |rows| && Tally(out, PageKind) == 0
    decreases |rows|
  {
    hide Tally;
    var out := Details(rows) + [OReady];
    forall kind: OriginKind
      ensures Tally(out, kind) == (if OriginKindOf(out[0]) == kind then 1 else 0) + Tally(out[1..], kind)
    {
      TallyFirst(out, kind);
    }
    if rows == [] {
      assert out[1..] == [];
      NothingTallied();
    } else {
      assert out[1..] == Details(rows[1..]) + [OReady];
      DetailTallies(rows[1..]);
    }
  }

  lemma {:induction false} NothingTallied()
    ensures forall kind :: Tally([], kind) == 0
  {
  }

  lemma {:induction false} PageTallies(e: Scenario, order: seq<nat>, n: nat)
    requires forall i :: 0 <= i < |order| ==> Exists(e.origin, order[i])
    ensures var out := PageMessages(e, order) + [OTxn(n), OEnd];
      && Tally(out, TextKind) == Tally(out, ReadyKind) == Tally(out, BeginKind) == Tally(out, DetailKind) == 0
      && Tally(out, TxnKind) == Tally(out, EndKind) == 1 && Tally(out, PageKind) == |order|
    decreases |order|
  {
    hide Tally;
    var out := PageMessages(e, order) + [OTxn(n), OEnd];
    forall kind: OriginKind
      ensures Tally(out, kind) == (if OriginKindOf(out[0]) == kind then 1 else 0) + Tally(out[1..], kind)
    {
      TallyFirst(out, kind);
    }
    if order == [] {
      assert out[1..] == [OEnd] && [OEnd][1..] == [];
      forall kind: OriginKind ensures Tally([OEnd], kind) == (if kind == EndKind then 1 else 0) + Tally([], kind) {
        TallyFirst([OEnd], kind);
      }
      NothingTallied();
    } else {
      assert forall i :: 0 <= i < |order[1..]| ==> Exists(e.origin, order[1..][i]);
      assert out[1..] == PageMessages(e, order[1..]) + [OTxn(n), OEnd];
      PageTallies(e, order[1..], n);
    }
  }

  /** Each REPLICA_READY is answered by one ORIGIN_READY or one commit and end; each REPLICA_BEGIN
      by one ORIGIN_BEGIN. */
  lemma {:induction false} OriginTallies(e: Scenario, o: OriginState, m: ReplicaMsg, order: seq<nat>)
    requires 1 <= e.pageSize && OrderFor(e, o, m, order)
    requires !OriginReply(e, o, m, order).0.status.Failed?
    ensures var (o', out) := OriginReply(e, o, m, order);
      && Tally(out, TextKind) == 0 && Tally(out, EndKind) == Tally(out, TxnKind)
      && Tally(out, BeginKind) == (if m.RBegin? then 1 else 0)
      && o.hashRounds + Tally(out, ReadyKind) + Tally(out, TxnKind) == o'.hashRounds
  {
    hide Tally, Swept, Multi, Singles, Matches, GapFits, StreamedPages;
    NothingTallied();
    if m.RReady? && o.badHash.Some? {
      var t := o.badHash.value;
      assert forall i :: 0 <= i < |order| ==> order[i] in Elements(order);
      if Multi(t) != map[] {
        MultiKeys(t, order);
        DetailTallies(DetailRows(t, order));
      } else {
        StreamedExist(e, Swept(e, t, o.mxHash), order);
        PageTallies(e, order, |e.origin|);
      }
    } else if m.RBegin? {
      var hello := [Hello(e, m.protocol)];
      assert hello[1..] == [];
      TallyFirst(hello, TextKind);
      TallyFirst(hello, EndKind);
      TallyFirst(hello, TxnKind);
      TallyFirst(hello, ReadyKind);
      TallyFirst(hello, BeginKind);
    }
  }

  lemma {:induction false} MultiKeys(t: Table, order: seq<nat>)
    requires Enumerates(order, Multi(t).Keys)
    ensures forall i :: 0 <= i < |order| ==> order[i] in t
  {
    assert forall i :: 0 <= i < |order| ==> order[i] in Elements(order);
  }

  lemma {:induction false} StreamedExist(e: Scenario, t: Table, order: seq<nat>)
    requires Enumerates(order, StreamedPages(e, t))
    ensures forall i :: 0 <= i < |order| ==> Exists(e.origin, order[i])
  {
    assert forall i :: 0 <= i < |order| ==> order[i] in Elements(order);
  }

  lemma {:induction false} NoReply(kind: ReplyKind)
    ensures Replies([], kind) == 0
  {
  }

  /** A batch carries one hash for each row that has one, and one REPLICA_READY. */
  lemma {:induction false} EmitReplies(hash: Hash, db: seq<Page>, rows: seq<Row>, iHash: nat, nHash: nat)
    ensures var out := Emit(hash, db, rows, iHash, nHash);
      && Replies(out, ReadyReply) == 1 && Replies(out, HashReply) == |Hashed(hash, db, rows)|
      && Replies(out, BeginReply) == Replies(out, EndReply) == Replies(out, TextReply) == 0
    decreases |rows|
  {
    hide RowHash, Replies;
    if rows == [] {
      forall kind: ReplyKind ensures Replies([RReady], kind) == if kind == ReadyReply then 1 else 0 {
        OneReply(RReady, kind);
      }
    } else {
      var row := rows[0];
      var h := RowHash(hash, db, row.fpg, row.npg);
      var a := if row.fpg != iHash || row.npg != nHash then [RConfig(row.fpg, row.npg)] else [];
      var b := if h.Some? then [RHash(h.value)] else [];
      var rest := Emit(hash, db, rows[1..], Add32(row.fpg, row.npg), row.npg);
      EmitReplies(hash, db, rows[1..], Add32(row.fpg, row.npg), row.npg);
      forall kind: ReplyKind
        ensures Replies(a + b + rest, kind) == Replies(a, kind) + Replies(b, kind) + Replies(rest, kind)
      {
        RepliesAppend(a + b, rest, kind);
        RepliesAppend(a, b, kind);
      }
      forall kind: ReplyKind
        ensures Replies(a, kind) == (if a != [] && kind == ConfigReply then 1 else 0)
        ensures Replies(b, kind) == (if b != [] && kind == HashReply then 1 else 0)
      {
        NoReply(kind);
        OneReply(RConfig(row.fpg, row.npg), kind);
        if h.Some? {
          OneReply(RHash(h.value), kind);
        }
      }
    }
  }

  /** Each row hashed is one REPLICA_HASH, whatever the message and the outcome. */
  lemma {:induction false} ReplicaHashes(e: Scenario, r: ReplicaState, m: OriginMsg)
    ensures Replies(ReplicaReply(e, r, m).1, HashReply) == |RowsHashedBy(e, r, m)|
  {
    hide Emit, Hashed, Listing, InitialRows, Put, Subdivision, Truncate, WritePage, KeepWal, OpenedPages, Refuses,
      Replies;
    NoReply(HashReply);
    OneReply(RError([]), HashReply);
    OneReply(RBegin(r.protocol), HashReply);
    if m.OBegin? && m.protocol <= r.protocol {
      var begun := Opened(e, r, m.protocol, m.pageSize, m.pageCount);
      EmitReplies(e.hash, View(begun), Listing(begun.sendHash.value), 1, 1);
    } else if m.OReady? && r.sendHash.Some? {
      EmitReplies(e.hash, View(r), Listing(r.sendHash.value), 0, 0);
    }
  }

  lemma {:induction false} ReplicaReplies(e: Scenario, r: ReplicaState, m: OriginMsg)
    requires !ReplicaReply(e, r, m).0.status.Failed?
    ensures var (r', out) := ReplicaReply(e, r, m);
      && Replies(out, EndReply) == Replies(out, TextReply) == 0
      && r.hashRounds + Replies(out, ReadyReply) == r'.hashRounds
  {
    hide Emit, Hashed, Listing, InitialRows, Put, Subdivision, Truncate, WritePage, KeepWal, OpenedPages, Refuses,
      Replies;
    forall kind: ReplyKind ensures Replies([], kind) == 0 {
      NoReply(kind);
    }
    if m.OBegin? {
      if m.protocol > r.protocol {
        forall kind: ReplyKind ensures Replies([RBegin(r.protocol)], kind) == if kind == BeginReply then 1 else 0 {
          OneReply(RBegin(r.protocol), kind);
        }
      } else {
        var begun := Opened(e, r, m.protocol, m.pageSize, m.pageCount);
        EmitReplies(e.hash, View(begun), Listing(begun.sendHash.value), 1, 1);
      }
    } else if m.OReady? && r.sendHash.Some? {
      EmitReplies(e.hash, View(r), Listing(r.sendHash.value), 0, 0);
    }
  }

  // ---------------------------------------------------------------- every run

  /** The tallies of both streams follow the counters of the two roles. */
  ghost predicate Books(s: System) {
    && s.up.Ok()
    && Tally(s.down.sent, TextKind) == 0
    && Tally(s.down.sent, EndKind) == Tally(s.down.sent, TxnKind)
    && Tally(s.down.sent, ReadyKind) + Tally(s.down.sent, TxnKind) == s.o.hashRounds
    && Tally(s.down.sent, BeginKind) == 1 + Replies(s.up.sent[..s.up.read], BeginReply)
    && Replies(s.up.sent, ReadyReply) == s.r.hashRounds
    && Replies(s.up.sent, EndReply) == Replies(s.up.sent, TextReply) == 0
  }

  lemma {:induction false} OriginKeepsBooks(e: Scenario, s: System, order: seq<nat>)
    requires 1 <= e.pageSize && Books(s) && Enabled(e, s, OriginReads(order))
    requires !Apply(e, s, OriginReads(order)).o.status.Failed?
    ensures Books(Apply(e, s, OriginReads(order)))
  {
    hide Tally, Replies, OriginReply, OrderFor;
    var m, k := s.up.sent[s.up.read], s.up.read;
    var out := OriginReply(e, s.o, m, order).1;
    OriginTallies(e, s.o, m, order);
    forall kind: OriginKind ensures Tally(s.down.sent + out, kind) == Tally(s.down.sent, kind) + Tally(out, kind) {
      TallyAppend(s.down.sent, out, kind);
    }
    assert s.up.sent[..k + 1] == s.up.sent[..k] + [m];
    RepliesAppend(s.up.sent[..k], [m], BeginReply);
    OneReply(m, BeginReply);
  }

  lemma {:induction false} OneReply(m: ReplicaMsg, kind: ReplyKind)
    ensures Replies([m], kind) == if ReplyKindOf(m) == kind then 1 else 0
  {
    assert [m][1..] == [];
  }

  lemma {:induction false} ReplicaKeepsBooks(e: Scenario, s: System)
    requires 1 <= e.pageSize && Books(s) && Enabled(e, s, ReplicaReads)
    requires !Apply(e, s, ReplicaReads).r.status.Failed?
    ensures Books(Apply(e, s, ReplicaReads))
  {
    hide Tally, Replies, ReplicaReply, RowsHashedBy;
    var m := s.down.sent[s.down.read];
    var out := ReplicaReply(e, s.r, m).1;
    ReplicaReplies(e, s.r, m);
    forall kind: ReplyKind ensures Replies(s.up.sent + out, kind) == Replies(s.up.sent, kind) + Replies(out, kind) {
      RepliesAppend(s.up.sent, out, kind);
    }
    assert (s.up.sent + out)[..s.up.read] == s.up.sent[..s.up.read];
  }

  lemma {:induction false} RunBooks(e: Scenario, steps: seq<Step>)
    requires Proper(e) && Compatible(e) && Run(e, steps)
    ensures Books(After(e, steps))
    decreases |steps|
  {
    hide ReplicaReply, OriginReply, RowsHashedBy, OrderFor, Tally, Replies, Compatible;
    if steps == [] {
      StartBooks(e);
    } else {
      var before, step := steps[..|steps| - 1], steps[|steps| - 1];
      RunBooks(e, before);
      FailsIffIncompatible(e, steps);
      match step
      case OriginReads(order) => OriginKeepsBooks(e, After(e, before), order);
      case ReplicaReads => ReplicaKeepsBooks(e, After(e, before));
      case _ =>
    }
  }

  lemma {:induction false} StartBooks(e: Scenario)
    ensures Books(Start(e))
  {
    var hello := [Hello(e, e.originProtocol)];
    hide Tally;
    NothingTallied();
    assert hello[1..] == [];
    forall kind: OriginKind ensures Tally(hello, kind) == (if kind == BeginKind then 1 else 0) + Tally([], kind) {
      TallyFirst(hello, kind);
    }
  }

  // ---------------------------------------------------------------- hashes

  lemma {:induction false} HashesSent(e: Scenario, steps: seq<Step>)
    requires 1 <= e.pageSize && Run(e, steps)
    ensures Replies(After(e, steps).up.sent, HashReply) == |After(e, steps).hashed|
    decreases |steps|
  {
    hide ReplicaReply, OriginReply, RowsHashedBy, OrderFor, Replies;
    NoReply(HashReply);
    if steps != [] {
      var before, step := steps[..|steps| - 1], steps[|steps| - 1];
      HashesSent(e, before);
      var s := After(e, before);
      if step.ReplicaReads? {
        var m := s.down.sent[s.down.read];
        ReplicaHashes(e, s.r, m);
        RepliesAppend(s.up.sent, ReplicaReply(e, s.r, m).1, HashReply);
      }
    }
  }

  /** The number of REPLICA_HASH messages of a run. With `d` replica pages that differ or lie past
      the origin's end: beyond 1001 pages one for page 1, one per 1000 pages, and at most 64 for
      each such page; up to 1001 pages one for page 1, one per 30 pages, and at most 30 for each. */
  lemma {:induction false} TrafficBound(e: Scenario, steps: seq<Step>)
    requires Proper(e) && Run(e, steps)
    ensures var n, d := |Base(e)|, |Faults(e)|;
      Replies(After(e, steps).up.sent, HashReply) <=
        if Agreed(e) == 1 || n <= 100 then n
        else if n <= 1001 then 1 + (n - 1 + 29) / 30 + 30 * d
        else 1 + (n - 1 + 999) / 1000 + 64 * d
  {
    hide Base, Faults, Run, After;
    HashesSent(e, steps);
    RowsHashedBound(e, steps);
  }

  // ---------------------------------------------------------------- negotiation

  /** The origin's first word names its own version, all later ones a version the replica speaks;
      the replica has asked for an older one exactly if it has read a newer first word. */
  ghost predicate Announced(e: Scenario, s: System) {
    && s.down.Ok() && s.up.Ok()
    && s.down.sent != [] && s.down.sent[0] == Hello(e, e.originProtocol)
    && (forall i :: 1 <= i < |s.down.sent| && s.down.sent[i].OBegin? ==> s.down.sent[i].protocol <= e.replicaProtocol)
    && (forall m :: m in s.up.sent && m.RBegin? ==> m.protocol <= e.replicaProtocol)
    && s.r.protocol <= e.replicaProtocol
    && (s.down.read == 0 ==> s.r.protocol == e.replicaProtocol && s.r.hashRounds == 0)
    && Replies(s.up.sent, BeginReply) == if 1 <= s.down.read && e.replicaProtocol < e.originProtocol then 1 else 0
  }

  lemma {:induction false} OriginBegins(e: Scenario, o: OriginState, m: ReplicaMsg, order: seq<nat>)
    requires 1 <= e.pageSize && OrderFor(e, o, m, order)
    ensures forall i :: 0 <= i < |OriginReply(e, o, m, order).1| && OriginReply(e, o, m, order).1[i].OBegin? ==>
      m.RBegin? && OriginReply(e, o, m, order).1[i].protocol == m.protocol
  {
    hide Swept, Multi, Singles, Matches, GapFits, StreamedPages;
  }

  lemma {:induction false} ReplicaBegins(e: Scenario, r: ReplicaState, m: OriginMsg)
    ensures var (r', out) := ReplicaReply(e, r, m);
      && Replies(out, BeginReply) == (if m.OBegin? && m.protocol > r.protocol then 1 else 0)
      && (forall a :: a in out && a.RBegin? ==> a.protocol == r.protocol)
      && r'.protocol <= r.protocol
  {
    hide Emit, Hashed, Listing, InitialRows, Put, Subdivision, Truncate, WritePage, KeepWal, OpenedPages, Refuses,
      Replies;
    NoReply(BeginReply);
    OneReply(RError([]), BeginReply);
    OneReply(RBegin(r.protocol), BeginReply);
    if m.OBegin? && m.protocol <= r.protocol {
      var begun := Opened(e, r, m.protocol, m.pageSize, m.pageCount);
      var rows := Listing(begun.sendHash.value);
      EmitReplies(e.hash, View(begun), rows, 1, 1);
      NoneReplied(Emit(e.hash, View(begun), rows, 1, 1), BeginReply);
    } else if m.OReady? && r.sendHash.Some? {
      EmitReplies(e.hash, View(r), Listing(r.sendHash.value), 0, 0);
      NoneReplied(Emit(e.hash, View(r), Listing(r.sendHash.value), 0, 0), BeginReply);
    }
  }

  lemma {:induction false} NoneReplied(out: seq<ReplicaMsg>, kind: ReplyKind)
    requires Replies(out, kind) == 0
    ensures forall m :: m in out ==> ReplyKindOf(m) != kind
    decreases |out|
  {
    if out != [] {
      NoneReplied(out[1..], kind);
      assert out == [out[0]] + out[1..];
    }
  }

  /** While an ORIGIN_BEGIN is unread the replica is as it started. */
  lemma {:induction false} UntouchedBeforeBegin(e: Scenario, s: System, phase: Phase)
    requires Proper(e) && Inv(e, s, phase)
    requires s.down.read < |s.down.sent| && s.down.sent[s.down.read].OBegin?
    ensures s.r.protocol == e.replicaProtocol
  {
    hide Base, Budget, PageNumbers, Tally, Planned, NoLonger, Incoming, Reaching, Chosen, Staged, Final, Genuine,
      Version1, Ascending, MaxRounds;
    assert s.down.Unread()[0] == s.down.sent[s.down.read];
  }

  lemma {:induction false} OriginKeepsAnnounced(e: Scenario, s: System, order: seq<nat>)
    requires 1 <= e.pageSize && Announced(e, s) && Enabled(e, s, OriginReads(order))
    ensures Announced(e, Apply(e, s, OriginReads(order)))
  {
    hide Replies, OriginReply, OrderFor;
    OriginBegins(e, s.o, s.up.sent[s.up.read], order);
  }

  lemma {:induction false} ReplicaKeepsAnnounced(e: Scenario, s: System, phase: Phase)
    requires Proper(e) && Announced(e, s) && Enabled(e, s, ReplicaReads) && Inv(e, s, phase)
    ensures Announced(e, Apply(e, s, ReplicaReads))
  {
    hide Replies, ReplicaReply, RowsHashedBy, Inv;
    var m := s.down.sent[s.down.read];
    ReplicaBegins(e, s.r, m);
    RepliesAppend(s.up.sent, ReplicaReply(e, s.r, m).1, BeginReply);
    if m.OBegin? {
      UntouchedBeforeBegin(e, s, phase);
    }
  }

  lemma {:induction false} RunAnnounced(e: Scenario, steps: seq<Step>)
    requires Proper(e) && Run(e, steps)
    ensures Announced(e, After(e, steps))
    decreases |steps|
  {
    hide ReplicaReply, OriginReply, RowsHashedBy, OrderFor, Replies, Inv;
    NoReply(BeginReply);
    if steps != [] {
      var before, step := steps[..|steps| - 1], steps[|steps| - 1];
      RunAnnounced(e, before);
      var phase := RunInv(e, before);
      match step
      case OriginReads(order) => OriginKeepsAnnounced(e, After(e, before), order);
      case ReplicaReads => ReplicaKeepsAnnounced(e, After(e, before), phase);
      case _ =>
    }
  }

  /** Both sides settle on the older version after at most one REPLICA_BEGIN, which is sent exactly
      if the origin speaks the newer version, and a run at version 1, or with at most 100 replica
      pages, carries no REPLICA_CONFIG, ORIGIN_DETAIL or ORIGIN_READY. */
  lemma {:induction false} Negotiation(e: Scenario, steps: seq<Step>)
    requires Proper(e) && Run(e, steps)
    ensures After(e, steps).r.hashRounds > 0 ==>
      After(e, steps).o.protocol == After(e, steps).r.protocol == Agreed(e)
    ensures Replies(After(e, steps).up.sent, BeginReply) <= 1
    ensures After(e, steps).r.hashRounds > 0 ==>
      (Replies(After(e, steps).up.sent, BeginReply) == 1 <==> e.replicaProtocol < e.originProtocol)
    ensures Agreed(e) == 1 || |Base(e)| <= 100 ==> Version1(After(e, steps).down.sent, After(e, steps).up.sent)
  {
    hide Base, Budget, PageNumbers, Tally, Planned, NoLonger, Incoming, Reaching, Chosen, Staged, Final, Genuine,
      Version1, Ascending, Run, After, Replies;
    RunAnnounced(e, steps);
    var phase := RunInv(e, steps);
  }

  // ---------------------------------------------------------------- pages come last

  lemma {:induction false} NothingUpAfterPages(e: Scenario, s: System, phase: Phase)
    requires Proper(e) && Inv(e, s, phase) && PageNumbers(s.down.sent) != []
    ensures s.up.Drained()
  {
    hide Base, Budget, PageNumbers, Tally, Planned, NoLonger, Incoming, Reaching, Chosen, Staged, Final, Genuine,
      Version1, Ascending, MaxRounds;
  }

  /** Pages are sent only when no multi-page entry is in `badHash`, and none is added with them. */
  lemma {:induction false} PagesMeanSingles(e: Scenario, o: OriginState, m: ReplicaMsg, order: seq<nat>)
    requires 1 <= e.pageSize && OrderFor(e, o, m, order)
    requires PageNumbers(OriginReply(e, o, m, order).1) != []
    ensures Multi(Bad(o)) == map[] && Multi(Bad(OriginReply(e, o, m, order).0)) == map[]
  {
    hide PageNumbers, Matches, GapFits, StreamedPages, Enumerates;
    var out := OriginReply(e, o, m, order).1;
    if forall a :: a in out ==> !a.OPage? {
      NoPageNumbers(out);
    }
  }

  /** In every run: once a page has been sent, no multi-page entry is left in `badHash`. */
  lemma {:induction false} PagesAfterDetails(e: Scenario, steps: seq<Step>)
    requires Proper(e) && Run(e, steps)
    ensures PageNumbers(After(e, steps).down.sent) != [] ==> Multi(Bad(After(e, steps).o)) == map[]
    decreases |steps|
  {
    hide ReplicaReply, OriginReply, RowsHashedBy, OrderFor, Inv, Multi, PageNumbers;
    if steps == [] {
      NoPageNumbers(Start(e).down.sent);
    } else {
      var before, step := steps[..|steps| - 1], steps[|steps| - 1];
      PagesAfterDetails(e, before);
      if step.OriginReads? {
        var s := After(e, before);
        var phase := RunInv(e, before);
        if PageNumbers(s.down.sent) != [] {
          NothingUpAfterPages(e, s, phase);
          assert false;
        }
        var m, order := s.up.sent[s.up.read], step.order;
        PageNumbersAppend(s.down.sent, OriginReply(e, s.o, m, order).1);
        if PageNumbers(OriginReply(e, s.o, m, order).1) != [] {
          PagesMeanSingles(e, s.o, m, order);
        }
      }
    }
  }

  // ---------------------------------------------------------------- what each side reports

  /** The origin announces its own page size and page count, and asks to be followed to that count. */
  ghost predicate Truthful(e: Scenario, sent: seq<OriginMsg>) {
    && (forall i :: 0 <= i < |sent| && sent[i].OBegin? ==>
          sent[i].pageSize == e.pageSize && sent[i].pageCount == |e.origin|)
    && (forall i :: 0 <= i < |sent| && sent[i].OTxn? ==> sent[i].pageCount == |e.origin|)
  }

  lemma {:induction false} OriginTruthful(e: Scenario, o: OriginState, m: ReplicaMsg, order: seq<nat>)
    requires 1 <= e.pageSize && OrderFor(e, o, m, order)
    ensures Truthful(e, OriginReply(e, o, m, order).1)
  {
    hide Swept, Multi, Singles, Matches, GapFits, StreamedPages;
    if m.RReady? && o.badHash.Some? {
      var t := o.badHash.value;
      if Multi(t) != map[] {
        MultiKeys(t, order);
        assert Truthful(e, Details(DetailRows(t, order)) + [OReady]);
      } else if GapFits(t, o.mxHash, |e.origin|) {
        StreamedExist(e, Swept(e, t, o.mxHash), order);
        assert Truthful(e, PageMessages(e, order) + [OTxn(|e.origin|), OEnd]);
      }
    }
  }

  /** What the replica knows of the origin's database. */
  ghost predicate Informed(e: Scenario, r: ReplicaState) {
    r.hashRounds > 0 || r.sendHash.Some? ==> r.pageSize == e.pageSize && r.pageCount == |e.origin|
  }

  lemma {:induction false} ReplicaInformed(e: Scenario, r: ReplicaState, m: OriginMsg)
    requires Informed(e, r)
    requires m.OBegin? ==> m.pageSize == e.pageSize && m.pageCount == |e.origin|
    requires m.OTxn? ==> m.pageCount == |e.origin|
    ensures Informed(e, ReplicaReply(e, r, m).0)
  {
    hide Emit, Hashed, Listing, InitialRows, Put, Subdivision, Truncate, WritePage, KeepWal, OpenedPages, Refuses;
  }

  lemma {:induction false} RunInformed(e: Scenario, steps: seq<Step>)
    requires 1 <= e.pageSize && Run(e, steps)
    ensures Truthful(e, After(e, steps).down.sent) && Informed(e, After(e, steps).r)
    decreases |steps|
  {
    hide ReplicaReply, OriginReply, RowsHashedBy, OrderFor;
    if steps != [] {
      var before, step := steps[..|steps| - 1], steps[|steps| - 1];
      RunInformed(e, before);
      var s := After(e, before);
      match step
      case OriginReads(order) => OriginTruthful(e, s.o, s.up.sent[s.up.read], order);
      case ReplicaReads =>
        ReplicaInformed(e, s.r, s.down.sent[s.down.read]);
      case _ =>
    }
  }

  /** What both sides report of a run that is over, between databases of one page size: hash
      messages, hash rounds, pages, the version, and on the replica the origin's page size and page
      count. */
  lemma {:induction false} StatsAgree(e: Scenario, steps: seq<Step>)
    requires Proper(e) && Compatible(e) && Run(e, steps) && Over(After(e, steps))
    ensures var o, r, sent := After(e, steps).o, After(e, steps).r, After(e, steps).up.sent;
      && o.hashMessages == r.hashMessages == Replies(sent, HashReply)
      && 1 <= o.hashRounds == r.hashRounds == Replies(sent, ReadyReply)
      && o.pageUpdates == r.pageUpdates == |PageNumbers(After(e, steps).down.sent)|
      && o.protocol == r.protocol == Min(e.originProtocol, e.replicaProtocol)
      && r.pageSize == e.pageSize && r.pageCount == |e.origin|
  {
    hide Run, After, Replies, Base, Budget, PageNumbers, Tally, Planned, NoLonger, Incoming, Reaching, Chosen, Staged,
      Final, Genuine, Version1, Ascending, MaxRounds, Missing;
    HashesSent(e, steps);
    RunBooks(e, steps);
    RunInformed(e, steps);
    var phase := RunInv(e, steps);
  }

  /** A commit with no transaction open fails; what it truncated before stays truncated. */
  lemma {:induction false} CommitAlone(s: ReplicaState, pageCount: nat)
    requires s.txn.None? && pageCount < 0x1_0000_0000
    ensures var (s', out) := ReplicaOnTxn(s, pageCount);
      && s'.status == Failed && out == [RError([])] && s'.committed <= s.committed
      && |s'.committed| == if s.inserting && 1 <= pageCount < 0xffff_ffff then Min(pageCount, |s.committed|)
                           else |s.committed|
  {
  }

  /** The commit: with pages inserted the file is cut to the count named, if it was longer. */
  lemma {:induction false} CommitCuts(s: ReplicaState, pageCount: nat)
    requires s.txn.Some? && s.inserting && 1 <= pageCount < 0x1_0000_0000
    ensures var s' := ReplicaOnTxn(s, pageCount).0;
      && s'.committed <= s.txn.value && s'.txn.None? && s'.status == s.status
      && |s'.committed| == if pageCount < 0xffff_ffff && pageCount < |s.txn.value| then pageCount else |s.txn.value|
  {
  }
}
