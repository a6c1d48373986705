/** The messages of every run survive the byte streams: each fits its encoding, and each role
    reads back exactly what its peer wrote. */
module Transport {
  import opened Prelude
  import opened Ranges
  import opened Database
  import opened PageHash
  import opened Protocol
  import opened Conversation
  import opened Invariant
  import opened Theorems
  import opened Outcome
  import opened WireFormat

  /** The origin's file as SQLite makes it: a page size the wire can carry, and pages of it. */
  predicate Framed(e: Scenario) {
    Proper(e) && PageSize(e.pageSize) && Uniform(e)
  }

  /** The replica's knowledge before the first message. */
  function Untold(e: Scenario): Context {
    Context(e.replicaProtocol, 0)
  }

  /** A message of this scenario that the encoding can carry. */
  predicate Sound(e: Scenario, m: OriginMsg) {
    && OriginFits(m)
    && (m.OBegin? ==> m.pageSize == e.pageSize)
    && (m.OPage? ==> |m.data| == e.pageSize)
  }

  ghost predicate AllSound(e: Scenario, msgs: seq<OriginMsg>) {
    forall i :: 0 <= i < |msgs| ==> Sound(e, msgs[i])
  }

  ghost predicate NoneIs(msgs: seq<OriginMsg>, kind: OriginKind) {
    forall i :: 0 <= i < |msgs| ==> OriginKindOf(msgs[i]) != kind
  }

  // ---------------------------------------------------------------- what is unread is sound

  lemma {:induction false} SmallNumbers(e: Scenario)
    requires Proper(e)
    ensures |Base(e)| < U32_LIMIT && |e.origin| < U32_LIMIT
  {
  }

  /** Detail requests name ranges of the replica. */
  lemma {:induction false} DetailsSound(e: Scenario, bad: set<Row>, rest: set<Row>, pending: seq<Row>)
    requires Proper(e) && Planned(e, bad, rest + Elements(pending))
    ensures AllSound(e, Details(pending) + [OReady])
    ensures NoneIs(Details(pending) + [OReady], BeginKind) && NoneIs(Details(pending) + [OReady], PageKind)
  {
    hide Base;
    SmallNumbers(e);
    forall i | 0 <= i < |pending| ensures Word(pending[i].fpg) && Word(pending[i].npg) {
      assert pending[i] in bad + (rest + Elements(pending));
    }
  }

  lemma {:induction false} PagesSound(e: Scenario, order: seq<nat>)
    requires Framed(e) && forall i :: 0 <= i < |order| ==> Exists(e.origin, order[i])
    ensures AllSound(e, PageMessages(e, order) + [OTxn(|e.origin|), OEnd])
    ensures NoneIs(PageMessages(e, order) + [OTxn(|e.origin|), OEnd], BeginKind)
  {
    hide PageSize;
    SmallNumbers(e);
    forall i | 0 <= i < |order| ensures Sound(e, PageMessages(e, order)[i]) {
      assert Exists(e.origin, order[i]);
    }
  }

  /** What the replica has not read yet is sound; pages are unread only while the replica has the
      origin's page size, and then no ORIGIN_BEGIN is. */
  lemma {:induction false} UnreadSound(e: Scenario, s: System, phase: Phase)
    requires Framed(e) && Inv(e, s, phase)
    ensures AllSound(e, s.down.Unread())
    ensures NoneIs(s.down.Unread(), PageKind) || (NoneIs(s.down.Unread(), BeginKind) && s.r.sendHash.Some?)
  {
    hide Base, Budget, PageNumbers, Tally, Planned, NoLonger, Incoming, Reaching, Staged, Final, Genuine,
      Version1, Ascending, MaxRounds, PageSize, Uniform, Missing;
    if phase.Greeting? {
      SmallNumbers(e);
    } else if phase.Detailing? {
      DetailsSound(e, TableRows(Bad(s.o)), TableRows(s.r.sendHash.value), phase.pending);
    } else if phase.Paging? {
      assert Chosen(e, phase.order);
      PagesSound(e, phase.order[phase.done..]);
    }
  }

  lemma {:induction false} EmitFits(hash: Hash, db: seq<Page>, rows: seq<Row>, iHash: nat, nHash: nat)
    requires forall i :: 0 <= i < |rows| ==> Word(rows[i].fpg) && Word(rows[i].npg)
    ensures Answerable(Emit(hash, db, rows, iHash, nHash))
    decreases |rows|
  {
    hide RowHash;
    if rows != [] {
      EmitFits(hash, db, rows[1..], Add32(rows[0].fpg, rows[0].npg), rows[0].npg);
    }
  }

  lemma {:induction false} UnreadAnswerable(e: Scenario, s: System, phase: Phase)
    requires Framed(e) && Inv(e, s, phase)
    ensures Answerable(s.up.Unread())
  {
    hide Base, Budget, PageNumbers, Tally, NoLonger, Reaching, Staged, Final, Genuine, Chosen,
      Version1, Ascending, MaxRounds, PageSize, Uniform, Missing, Emit;
    if phase.Hashing? {
      SmallNumbers(e);
      var pending := phase.pending;
      forall i | 0 <= i < |pending| ensures Word(pending[i].fpg) && Word(pending[i].npg) {
        assert pending[i] in TableRows(Bad(s.o)) + Elements(pending);
      }
      EmitFits(e.hash, Base(e), pending, s.o.iHash, s.o.nHash);
      EmitFits(e.hash, Base(e), pending, 0, 0);
    }
  }

  // ---------------------------------------------------------------- streams grow

  lemma {:induction false} AcceptAllAppend(c: Context, msgs: seq<OriginMsg>, more: seq<OriginMsg>)
    ensures AcceptAll(c, msgs + more) == AcceptAll(AcceptAll(c, msgs), more)
    decreases |msgs|
  {
    if msgs == [] {
      assert msgs + more == more;
    } else {
      AcceptAllAppend(Accept(c, msgs[0]), msgs[1..], more);
      assert (msgs + more)[1..] == msgs[1..] + more;
    }
  }

  lemma {:induction false} SendableAppend(c: Context, msgs: seq<OriginMsg>, more: seq<OriginMsg>)
    requires Sendable(c, msgs) && Sendable(AcceptAll(c, msgs), more)
    ensures Sendable(c, msgs + more)
    decreases |msgs|
  {
    hide OriginFits, InPage;
    if msgs == [] {
      assert msgs + more == more;
    } else {
      SendableAppend(Accept(c, msgs[0]), msgs[1..], more);
      assert (msgs + more)[1..] == msgs[1..] + more;
    }
  }

  lemma {:induction false} SendablePages(c: Context, e: Scenario, msgs: seq<OriginMsg>)
    requires AllSound(e, msgs)
    requires NoneIs(msgs, PageKind) || (NoneIs(msgs, BeginKind) && c.pageSize == e.pageSize)
    ensures Sendable(c, msgs)
    decreases |msgs|
  {
    hide OriginFits;
    if msgs != [] {
      assert Sound(e, msgs[0]);
      assert OriginKindOf(msgs[0]) == BeginKind <==> msgs[0].OBegin?;
      assert OriginKindOf(msgs[0]) == PageKind <==> msgs[0].OPage?;
      SendablePages(Accept(c, msgs[0]), e, msgs[1..]);
    }
  }

  // ---------------------------------------------------------------- every run

  /** Both streams can be encoded, and the replica's state is the context its reading needs. */
  ghost predicate Wired(e: Scenario, s: System) {
    && s.down.Ok()
    && AllSound(e, s.down.sent)
    && Sendable(Untold(e), s.down.sent)
    && Answerable(s.up.sent)
    && AcceptAll(Untold(e), s.down.sent[..s.down.read]) == Context(s.r.protocol, PageLength(s.r))
    && (s.r.sendHash.Some? ==> s.r.pageSize == e.pageSize)
  }

  lemma {:induction false} OriginKeepsWired(e: Scenario, s: System, order: seq<nat>, next: Phase)
    requires Framed(e) && Wired(e, s) && Enabled(e, s, OriginReads(order))
    requires s.down.Drained()
    requires Inv(e, Apply(e, s, OriginReads(order)), next)
    ensures Wired(e, Apply(e, s, OriginReads(order)))
  {
    hide Inv, OriginReply, OrderFor, PageSize, Uniform, Sound, OriginFits;
    var s' := Apply(e, s, OriginReads(order));
    UnreadSound(e, s', next);
    var out := s'.down.Unread();
    assert s'.down.sent == s.down.sent + out;
    var c := AcceptAll(Untold(e), s.down.sent);
    assert s.down.sent[..s.down.read] == s.down.sent;
    SendablePages(c, e, out);
    SendableAppend(Untold(e), s.down.sent, out);
    assert s'.down.sent[..s'.down.read] == s.down.sent;
  }

  /** One message read: the replica's fields follow the stream's context. */
  lemma {:induction false} ReplicaFollows(e: Scenario, r: ReplicaState, m: OriginMsg)
    requires Sound(e, m)
    requires r.sendHash.Some? ==> r.pageSize == e.pageSize
    ensures var r' := ReplicaReply(e, r, m).0;
      && Context(r'.protocol, PageLength(r')) == Accept(Context(r.protocol, PageLength(r)), m)
      && (r'.sendHash.Some? ==> r'.pageSize == e.pageSize)
  {
    hide OriginFits, Emit, Listing, InitialRows, Put, Subdivision, Truncate, WritePage, KeepWal;
  }

  lemma {:induction false} ReplicaKeepsWired(e: Scenario, s: System, phase: Phase, next: Phase)
    requires Framed(e) && Wired(e, s) && Enabled(e, s, ReplicaReads) && Inv(e, s, phase)
    requires s.up.Drained() && s.up.Ok()
    requires Inv(e, Apply(e, s, ReplicaReads), next)
    ensures Wired(e, Apply(e, s, ReplicaReads))
  {
    hide Inv, ReplicaReply, RowsHashedBy, PageSize, Uniform, Sound, OriginFits, Sendable;
    var s' := Apply(e, s, ReplicaReads);
    UnreadSound(e, s, phase);
    assert s.down.Unread()[0] == s.down.sent[s.down.read];
    ReplicaFollows(e, s.r, s.down.sent[s.down.read]);
    var k := s.down.read;
    assert s.down.sent[..k + 1] == s.down.sent[..k] + [s.down.sent[k]];
    AcceptAllAppend(Untold(e), s.down.sent[..k], [s.down.sent[k]]);
    assert [s.down.sent[k]][1..] == [];
    UnreadAnswerable(e, s', next);
    assert s'.up.sent == s.up.sent + s'.up.Unread();
  }

  lemma {:induction false} RunWired(e: Scenario, steps: seq<Step>)
    requires Framed(e) && Run(e, steps)
    ensures Wired(e, After(e, steps))
    decreases |steps|
  {
    hide Inv, ReplicaReply, OriginReply, RowsHashedBy, OrderFor, PageSize, Uniform, Sendable, Answerable;
    if steps == [] {
      StartWired(e);
    } else {
      var before, step := steps[..|steps| - 1], steps[|steps| - 1];
      RunWired(e, before);
      HalfDuplex(e, before);
      var phase := RunInv(e, before);
      var next := RunInv(e, steps);
      match step
      case OriginReads(order) => OriginKeepsWired(e, After(e, before), order, next);
      case ReplicaReads => ReplicaKeepsWired(e, After(e, before), phase, next);
      case _ =>
    }
  }

  lemma {:induction false} StartWired(e: Scenario)
    requires Framed(e)
    ensures Wired(e, Start(e))
  {
    hide PageSize, Uniform;
    var hello := [Hello(e, e.originProtocol)];
    SmallNumbers(e);
    assert hello[1..] == [] && hello[..0] == [];
    assert OriginFits(hello[0]);
    assert Sendable(Untold(e), hello);
    assert AcceptAll(Untold(e), hello[..0]) == Untold(e);
  }

  /** At any time of any run, each direction's bytes can be taken apart in one way only, and that
      gives exactly the messages written. */
  lemma {:induction false} BytesCarryTheRun(e: Scenario, steps: seq<Step>)
    requires Framed(e) && Run(e, steps)
    ensures var s := After(e, steps); Sendable(Untold(e), s.down.sent) && Answerable(s.up.sent)
    ensures var s := After(e, steps); ParseDown(Untold(e), DownBytes(s.down.sent)) == s.down.sent
    ensures var s := After(e, steps); ParseUp(UpBytes(s.up.sent)) == s.up.sent
  {
    hide Run, After, Sendable, Answerable, ParseDown, ParseUp, PageSize, Uniform;
    RunWired(e, steps);
    var s := After(e, steps);
    var down, up := DownBytes(s.down.sent), UpBytes(s.up.sent);
    var j := DownStream(Untold(e), s.down.sent, |down|);
    assert down[..|down|] == down && s.down.sent[..|s.down.sent|] == s.down.sent;
    var i := UpStream(s.up.sent, |up|);
    assert up[..|up|] == up && s.up.sent[..|s.up.sent|] == s.up.sent;
  }

  lemma {:induction false} SendableRest(c: Context, msgs: seq<OriginMsg>, j: nat)
    requires Sendable(c, msgs) && j <= |msgs|
    ensures Sendable(AcceptAll(c, msgs[..j]), msgs[j..])
    decreases j
  {
    hide OriginFits, InPage, Accept;
    if j == 0 {
      assert msgs[0..] == msgs;
    } else {
      SendableRest(Accept(c, msgs[0]), msgs[1..], j - 1);
      assert msgs[..j][1..] == msgs[1..][..j - 1];
      assert msgs[1..][j - 1..] == msgs[j..];
    }
  }

  /** The replica reads with the page size in its own state. At the byte position it has reached,
      that is the right one: it takes exactly the next message off the stream. */
  lemma {:induction false} NextOnTheWire(e: Scenario, steps: seq<Step>)
    requires Framed(e) && Run(e, steps)
    requires After(e, steps).down.read < |After(e, steps).down.sent|
    ensures var s := After(e, steps); var c, k := Untold(e), s.down.read;
      && Writable(s.down.sent) && Writable(s.down.sent[..k])
      && var at := |DownBytes(s.down.sent[..k])|;
      && at <= |DownBytes(s.down.sent)|
      && OriginFits(s.down.sent[k])
      && ParseOrigin(DownBytes(s.down.sent)[at..], PageLength(s.r))
         == Parsed(s.down.sent[k], |OriginBytes(s.down.sent[k])|)
  {
    hide Run, After, PageSize, Uniform, OriginFits, OriginBytes, ParseOrigin, InPage;
    RunWired(e, steps);
    var s := After(e, steps);
    var c, k := Untold(e), s.down.read;
    assert s.down.sent == s.down.sent[..k] + s.down.sent[k..];
    DownBytesAppend(s.down.sent[..k], s.down.sent[k..]);
    SendableRest(c, s.down.sent, k);
    var here := AcceptAll(c, s.down.sent[..k]);
    var rest := s.down.sent[k..];
    OriginInverse(rest[0], here.pageSize, DownBytes(rest[1..]));
    var at := |DownBytes(s.down.sent[..k])|;
    assert DownBytes(s.down.sent)[at..] == DownBytes(rest);
  }
}
