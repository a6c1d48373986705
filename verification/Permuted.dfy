/** The origin's loop on the bytes of a run. Its database may return rows in another order than in
    the run; then the same messages go out in another order. */
module Permuted {
  import opened Prelude
  import opened Ranges
  import opened Database
  import opened PageHash
  import opened Protocol
  import opened Conversation
  import opened Invariant
  import opened Preservation
  import opened Outcome
  import opened WireFormat
  import opened Framing
  import opened Transport
  import opened Tallies
  import opened Accounting
  import opened Loops
  import opened Refinement

  // ---------------------------------------------------------------- sequences in another order

  lemma {:induction false} DistinctOnce<T>(s: seq<T>)
    requires Distinct(s)
    ensures forall x :: multiset(s)[x] == if x in s then 1 else 0
  {
    if s != [] {
      var k := |s| - 1;
      DistinctOnce(s[..k]);
      assert s == s[..k] + [s[k]];
      assert s[k] !in s[..k];
    }
  }

  lemma {:induction false} SameOnce<T(!new)>(a: seq<T>, b: seq<T>)
    requires Distinct(a) && Distinct(b) && Elements(a) == Elements(b)
    ensures multiset(a) == multiset(b)
  {
    DistinctOnce(a);
    DistinctOnce(b);
    forall x ensures multiset(a)[x] == multiset(b)[x] {
      assert x in Elements(a) <==> x in Elements(b);
    }
  }

  lemma {:induction false} TwiceThere<T>(s: seq<T>, i: nat, j: nat)
    requires i < j < |s| && s[i] == s[j]
    ensures 2 <= multiset(s)[s[i]]
  {
    assert s == s[..j] + s[j..];
    assert s[..j][i] == s[i] && s[j..][0] == s[j];
  }

  lemma {:induction false} StillDistinct<T(!new)>(a: seq<T>, b: seq<T>)
    requires Distinct(a) && multiset(a) == multiset(b)
    ensures Distinct(b) && Elements(b) == Elements(a)
  {
    DistinctOnce(a);
    forall i, j | 0 <= i < j < |b| ensures b[i] != b[j] {
      if b[i] == b[j] {
        TwiceThere(b, i, j);
      }
    }
    forall x ensures x in Elements(a) <==> x in Elements(b) {
      assert x in multiset(a) <==> x in multiset(b);
    }
  }

  /** The same messages, pages and kinds, in some order. */
  ghost predicate Shuffled(a: seq<OriginMsg>, b: seq<OriginMsg>) {
    && multiset(a) == multiset(b)
    && multiset(PageNumbers(a)) == multiset(PageNumbers(b))
    && (forall kind: OriginKind :: Tally(a, kind) == Tally(b, kind))
  }

  lemma {:induction false} ShuffledAppend(a: seq<OriginMsg>, b: seq<OriginMsg>, c: seq<OriginMsg>, d: seq<OriginMsg>)
    requires Shuffled(a, b) && Shuffled(c, d)
    ensures Shuffled(a + c, b + d)
  {
    hide PageNumbers, Tally;
    PageNumbersAppend(a, c);
    PageNumbersAppend(b, d);
    forall kind: OriginKind ensures Tally(a + c, kind) == Tally(b + d, kind) {
      TallyAppend(a, c, kind);
      TallyAppend(b, d, kind);
    }
  }

  // ---------------------------------------------------------------- one reply in another order

  lemma {:induction false} DetailsShuffled(t: Table, a: seq<nat>, b: seq<nat>)
    requires Enumerates(a, Multi(t).Keys) && Enumerates(b, Multi(t).Keys)
    ensures (forall i :: 0 <= i < |a| ==> a[i] in t) && (forall i :: 0 <= i < |b| ==> b[i] in t)
    ensures Shuffled(Details(DetailRows(t, a)) + [OReady], Details(DetailRows(t, b)) + [OReady])
  {
    hide PageNumbers, Tally;
    MultiKeys(t, a);
    MultiKeys(t, b);
    var x, y := Details(DetailRows(t, a)), Details(DetailRows(t, b));
    DetailsDistinct(t, a, b);
    DetailsDistinct(t, b, a);
    SameOnce(x, y);
    DetailTallies(DetailRows(t, a));
    DetailTallies(DetailRows(t, b));
    DistinctCardinality(a);
    DistinctCardinality(b);
    NoPageNumbers(x + [OReady]);
    NoPageNumbers(y + [OReady]);
    forall kind: OriginKind ensures Tally(x + [OReady], kind) == Tally(y + [OReady], kind) {
      assert kind == BeginKind || kind == DetailKind || kind == ReadyKind || kind == PageKind || kind == TxnKind
        || kind == EndKind || kind == TextKind;
    }
  }

  lemma {:induction false} DetailsDistinct(t: Table, a: seq<nat>, b: seq<nat>)
    requires Enumerates(a, Multi(t).Keys) && Enumerates(b, Multi(t).Keys)
    requires (forall i :: 0 <= i < |a| ==> a[i] in t) && (forall i :: 0 <= i < |b| ==> b[i] in t)
    ensures Distinct(Details(DetailRows(t, a)))
    ensures Elements(Details(DetailRows(t, a))) <= Elements(Details(DetailRows(t, b)))
  {
    var x, y := Details(DetailRows(t, a)), Details(DetailRows(t, b));
    forall m | m in x ensures m in y {
      var i :| 0 <= i < |x| && x[i] == m;
      assert a[i] in Elements(b);
      var j :| 0 <= j < |b| && b[j] == a[i];
      assert y[j] == m;
    }
  }

  lemma {:induction false} PagesShuffled(e: Scenario, keys: set<nat>, a: seq<nat>, b: seq<nat>, n: nat)
    requires Enumerates(a, keys) && Enumerates(b, keys) && forall k :: k in keys ==> Exists(e.origin, k)
    ensures forall i :: 0 <= i < |a| ==> Exists(e.origin, a[i])
    ensures forall i :: 0 <= i < |b| ==> Exists(e.origin, b[i])
    ensures Shuffled(PageMessages(e, a) + [OTxn(n), OEnd], PageMessages(e, b) + [OTxn(n), OEnd])
  {
    hide PageNumbers, Tally;
    assert forall i :: 0 <= i < |a| ==> a[i] in Elements(a);
    assert forall i :: 0 <= i < |b| ==> b[i] in Elements(b);
    var x, y := PageMessages(e, a), PageMessages(e, b);
    var tail := [OTxn(n), OEnd];
    PagesDistinct(e, a, b);
    PagesDistinct(e, b, a);
    SameOnce(x, y);
    PageTallies(e, a, n);
    PageTallies(e, b, n);
    DistinctCardinality(a);
    DistinctCardinality(b);
    forall kind: OriginKind ensures Tally(x + tail, kind) == Tally(y + tail, kind) {
      assert kind == BeginKind || kind == DetailKind || kind == ReadyKind || kind == PageKind || kind == TxnKind
        || kind == EndKind || kind == TextKind;
    }
    StreamedNumbers(e, a);
    StreamedNumbers(e, b);
    PageNumbersAppend(x, tail);
    PageNumbersAppend(y, tail);
    SameOnce(a, b);
    NoPageNumbers(tail);
  }

  lemma {:induction false} PagesDistinct(e: Scenario, a: seq<nat>, b: seq<nat>)
    requires Distinct(a) && Elements(a) == Elements(b)
    requires forall i :: 0 <= i < |a| ==> Exists(e.origin, a[i])
    requires forall i :: 0 <= i < |b| ==> Exists(e.origin, b[i])
    ensures Distinct(PageMessages(e, a))
    ensures Elements(PageMessages(e, a)) <= Elements(PageMessages(e, b))
  {
    var x, y := PageMessages(e, a), PageMessages(e, b);
    forall m | m in x ensures m in y {
      var i :| 0 <= i < |x| && x[i] == m;
      assert a[i] in Elements(b);
      var j :| 0 <= j < |b| && b[j] == a[i];
      assert y[j] == m;
    }
  }

  /** The origin's new state does not depend on the order of its rows, and its messages do so only
      in their order. */
  lemma {:induction false} ReplyShuffled(e: Scenario, o: OriginState, m: ReplicaMsg, a: seq<nat>, b: seq<nat>)
    requires 1 <= e.pageSize && OrderFor(e, o, m, a) && OrderFor(e, o, m, b)
    ensures OriginReply(e, o, m, a).0 == OriginReply(e, o, m, b).0
    ensures Shuffled(OriginReply(e, o, m, a).1, OriginReply(e, o, m, b).1)
  {
    hide PageNumbers, Tally, Matches, GapFits, Swept, Multi, Singles, Shuffled;
    if m.RReady? && o.badHash.Some? {
      var t := o.badHash.value;
      if Multi(t) != map[] {
        DetailsShuffled(t, a, b);
      } else if GapFits(t, o.mxHash, |e.origin|) {
        var keys := StreamedPages(e, Swept(e, t, o.mxHash));
        DistinctCardinality(a);
        DistinctCardinality(b);
        PagesShuffled(e, keys, a, b, |e.origin|);
      } else {
        ShuffledSame(OriginReply(e, o, m, a).1);
      }
    } else {
      ShuffledSame(OriginReply(e, o, m, a).1);
    }
  }

  lemma {:induction false} ShuffledSame(a: seq<OriginMsg>)
    ensures Shuffled(a, a)
  {
  }

  lemma {:induction false} PlayedShuffled(e: Scenario, msgs: seq<ReplicaMsg>, a: seq<seq<nat>>, b: seq<seq<nat>>)
    requires 1 <= e.pageSize && OriginPlays(e, msgs, a) && OriginPlays(e, msgs, b)
    ensures OriginPlayed(e, msgs, a).0 == OriginPlayed(e, msgs, b).0
    ensures Shuffled(OriginPlayed(e, msgs, a).1, OriginPlayed(e, msgs, b).1)
    decreases |msgs|
  {
    hide OriginReply, OrderFor, Shuffled;
    if msgs == [] {
      ShuffledSame([Hello(e, e.originProtocol)]);
    } else {
      var k := |msgs| - 1;
      PlayedShuffled(e, msgs[..k], a[..k], b[..k]);
      var (o, x) := OriginPlayed(e, msgs[..k], a[..k]);
      var y := OriginPlayed(e, msgs[..k], b[..k]).1;
      ReplyShuffled(e, o, msgs[k], a[k], b[k]);
      ShuffledAppend(x, y, OriginReply(e, o, msgs[k], a[k]).1, OriginReply(e, o, msgs[k], b[k]).1);
    }
  }

  // ---------------------------------------------------------------- the loop on a run's bytes

  /** Replies whose bytes begin another stream's bytes begin that stream. */
  lemma {:induction false} OneAnswer(a: seq<ReplicaMsg>, b: seq<ReplicaMsg>)
    requires Answerable(a) && Answerable(b) && UpBytes(a) <= UpBytes(b)
    ensures a <= b
    decreases |a|
  {
    hide ReplicaFits, ReplicaBytes, ParseReplica;
    if a != [] {
      var m, input := a[0], UpBytes(b);
      assert input == ReplicaBytes(m) + input[|ReplicaBytes(m)|..];
      ReplicaInverse(m, input[|ReplicaBytes(m)|..]);
      if b == [] {
        assert false;
      } else {
        ReplicaInverse(b[0], UpBytes(b[1..]));
        assert UpBytes(a[1..]) <= UpBytes(b[1..]) by {
          assert UpBytes(a[1..]) == UpBytes(a)[|ReplicaBytes(m)|..];
          assert UpBytes(b[1..]) == input[|ReplicaBytes(m)|..];
        }
        OneAnswer(a[1..], b[1..]);
        assert a == [m] + a[1..] && b == [m] + b[1..];
      }
    }
  }

  lemma {:induction false} PlayedPrefixOrigin(e: Scenario, msgs: seq<ReplicaMsg>, orders: seq<seq<nat>>, j: nat)
    requires 1 <= e.pageSize && OriginPlays(e, msgs, orders) && j <= |msgs|
    ensures |orders| == |msgs| && OriginPlays(e, msgs[..j], orders[..j])
    ensures j < |msgs| ==> OriginPlayed(e, msgs[..j], orders[..j]).0.status.Running?
    decreases |msgs|
  {
    hide OriginReply, OrderFor;
    if j < |msgs| {
      var k := |msgs| - 1;
      PlayedPrefixOrigin(e, msgs[..k], orders[..k], j);
      assert msgs[..k][..j] == msgs[..j] && orders[..k][..j] == orders[..j];
    } else {
      assert msgs[..j] == msgs && orders[..j] == orders;
    }
  }

  lemma {:induction false} NextAnswer(sent: seq<ReplicaMsg>, j: nat)
    requires Answerable(sent) && j < |sent|
    ensures Answerable(sent[..j]) && |UpBytes(sent[..j])| <= |UpBytes(sent)|
    ensures ParseReplica(UpBytes(sent)[|UpBytes(sent[..j])|..]).Parsed?
  {
    hide ReplicaFits, ReplicaBytes, ParseReplica;
    assert sent == sent[..j] + sent[j..];
    UpBytesAppend(sent[..j], sent[j..]);
    ReplicaInverse(sent[j], UpBytes(sent[j..][1..]));
    assert UpBytes(sent)[|UpBytes(sent[..j])|..] == UpBytes(sent[j..]);
  }

  lemma {:induction false} NoAnswerLeft(sent: seq<ReplicaMsg>)
    requires Answerable(sent)
    ensures UpBytes(sent)[|UpBytes(sent)|..] == [] && ParseReplica([]) == Closed
  {
  }

  /** The state of a run that is over, seen from the origin. */
  lemma {:induction false} AllAnswered(e: Scenario, steps: seq<Step>) returns (orders: seq<seq<nat>>)
    requires Framed(e) && Compatible(e) && Run(e, steps) && Over(After(e, steps))
    ensures var s := After(e, steps);
      && Answerable(s.up.sent) && Writable(s.down.sent) && AllSound(e, s.down.sent)
      && OriginPlays(e, s.up.sent, orders)
      && OriginPlayed(e, s.up.sent, orders).1 == s.down.sent
      && (OriginPlayed(e, s.up.sent, orders).0.status.Running? || OriginPlayed(e, s.up.sent, orders).0.status.Ended?)
  {
    hide Run, After, PageSize, Sendable, Answerable, Base, Budget, PageNumbers, Tally, Chosen, Final, OriginPlays,
      OriginPlayed, AllSound;
    RunWired(e, steps);
    orders := OriginOfRun(e, steps);
    var s := After(e, steps);
    var order := OverPhase(e, steps);
    assert s.up.sent[..s.up.read] == s.up.sent;
  }

  /** The origin's loop, given the bytes that the replica wrote in a run that is over, reads the
      run's messages, ends without error and sends what it sent in the run, whatever order its
      database returns rows in: the same messages, and the same pages, each once. */
  lemma {:induction false} OriginLoopFollowsRun(e: Scenario, steps: seq<Step>, msgs: seq<ReplicaMsg>,
      orders: seq<seq<nat>>, status: Status, t: Traffic)
    requires Framed(e) && Compatible(e) && Run(e, steps) && Over(After(e, steps))
    requires Answerable(After(e, steps).up.sent)
    requires OriginLeft(e, UpBytes(After(e, steps).up.sent), msgs, orders, status, t)
    ensures var s := After(e, steps);
      && msgs == s.up.sent && status == Ended
      && var out := OriginPlayed(e, msgs, orders).1;
      && Shuffled(out, s.down.sent)
      && Distinct(PageNumbers(out)) && Elements(PageNumbers(out)) == Elements(PageNumbers(s.down.sent))
      && t == Traffic(DownBytes(out), DownCounted(out), |UpBytes(s.up.sent)|)
  {
    hide Run, After, PageSize, Answerable, OriginPlays, OriginPlayed, ParseReplica, Shuffled, UpBytes, DownBytes,
      DownCounted, PageNumbers, Writable, AllSound;
    var s := After(e, steps);
    var sent := s.up.sent;
    var taken := AllAnswered(e, steps);
    OneAnswer(msgs, sent);
    var j := |msgs|;
    assert sent[..j] == msgs;
    PlayedPrefixOrigin(e, sent, taken, j);
    PlayedShuffled(e, msgs, orders, taken[..j]);
    if j < |sent| {
      NextAnswer(sent, j);
      assert false;
    }
    assert msgs == sent && taken[..j] == taken;
    NoAnswerLeft(sent);
    OnlyMissingTravels(e, steps);
    ShuffledPages(s.down.sent, OriginPlayed(e, msgs, orders).1);
  }

  lemma {:induction false} ShuffledPages(a: seq<OriginMsg>, b: seq<OriginMsg>)
    requires Shuffled(b, a) && Distinct(PageNumbers(a))
    ensures Distinct(PageNumbers(b)) && Elements(PageNumbers(b)) == Elements(PageNumbers(a))
  {
    StillDistinct(PageNumbers(a), PageNumbers(b));
  }

  /** So, without collisions, it streams exactly the missing pages. */
  lemma {:induction false} OriginStreamsMissing(e: Scenario, steps: seq<Step>, msgs: seq<ReplicaMsg>,
      orders: seq<seq<nat>>, status: Status, t: Traffic)
    requires Framed(e) && Compatible(e) && NoCollisions(e) && Run(e, steps) && Over(After(e, steps))
    requires Answerable(After(e, steps).up.sent)
    requires OriginLeft(e, UpBytes(After(e, steps).up.sent), msgs, orders, status, t)
    ensures OriginPlays(e, msgs, orders)
    ensures var pages := PageNumbers(OriginPlayed(e, msgs, orders).1);
      Distinct(pages) && Elements(pages) == Missing(e)
  {
    hide Run, After, PageSize, Answerable, OriginPlays, OriginPlayed, OriginReply, ParseReplica, Shuffled, PageNumbers,
      Missing, NoCollisions;
    OriginLoopFollowsRun(e, steps, msgs, orders, status, t);
    Exactness(e, steps);
  }

  // ---------------------------------------------------------------- the counters

  lemma {:induction false} ShuffledSize(e: Scenario, a: seq<OriginMsg>, b: seq<OriginMsg>)
    requires Framed(e) && Writable(a) && Writable(b) && Shuffled(a, b) && AllSound(e, b) && Tally(b, TextKind) == 0
    ensures |DownBytes(a)| == |DownBytes(b)| == DownCounted(a)
  {
    hide PageSize, Tally, Sound, OriginFits;
    forall i | 0 <= i < |a| ensures Sound(e, a[i]) {
      assert a[i] in multiset(b);
      var j :| 0 <= j < |b| && b[j] == a[i];
    }
    DownSize(e, a);
    DownSize(e, b);
    OriginTextUncounted(a);
  }

  /** The counters of the two loops, each fed the bytes of the other side of a run that is over:
      what one side's writer counted is what the other side's reader counted, in both directions,
      and both are given by the run's messages. */
  lemma {:induction false} CountersAgree(e: Scenario, steps: seq<Step>,
      asked: seq<ReplicaMsg>, orders: seq<seq<nat>>, originStatus: Status, down: Traffic,
      told: seq<OriginMsg>, replicaStatus: Status, committed: seq<Page>, up: Traffic)
    requires Framed(e) && Compatible(e) && Run(e, steps) && Over(After(e, steps))
    requires Answerable(After(e, steps).up.sent) && Writable(After(e, steps).down.sent)
    requires OriginLeft(e, UpBytes(After(e, steps).up.sent), asked, orders, originStatus, down)
    requires ReplicaLeft(e, DownBytes(After(e, steps).down.sent), told, replicaStatus, committed, up)
    ensures var s := After(e, steps);
      var begins, details := Tally(s.down.sent, BeginKind), Tally(s.down.sent, DetailKind);
      var configs, rounds := Replies(s.up.sent, ConfigReply), s.r.hashRounds;
      && 1 <= rounds && begins == (if e.replicaProtocol < e.originProtocol then 2 else 1)
      && down.written == up.read
         == 7 * begins + 9 * details + (rounds - 1) + (5 + e.pageSize) * s.o.pageUpdates + 6
      && up.written == down.read
         == 21 * s.r.hashMessages + 9 * configs + rounds + 2 * (begins - 1)
  {
    hide Run, After, PageSize, Answerable, Writable, OriginPlays, OriginPlayed, OriginReply, ParseReplica, Shuffled,
      UpBytes, DownBytes, DownCounted, UpCounted, PageNumbers, Tally, Replies, AllSound, OriginLeft, ReplicaLeft;
    var s := After(e, steps);
    OriginLoopFollowsRun(e, steps, asked, orders, originStatus, down);
    LoopFollowsRun(e, steps, told, replicaStatus, committed, up);
    ByteTotals(e, steps);
    var taken := AllAnswered(e, steps);
    NoText(e, steps);
    OutWritable(e, UpBytes(s.up.sent), asked, orders, originStatus, down);
    ShuffledSize(e, OriginPlayed(e, asked, orders).1, s.down.sent);
  }

  lemma {:induction false} NoText(e: Scenario, steps: seq<Step>)
    requires Proper(e) && Compatible(e) && Run(e, steps)
    ensures Tally(After(e, steps).down.sent, TextKind) == 0
  {
    hide Run, After, Tally, Replies;
    RunBooks(e, steps);
  }

  lemma {:induction false} OutWritable(e: Scenario, input: seq<Byte>, msgs: seq<ReplicaMsg>, orders: seq<seq<nat>>,
      status: Status, t: Traffic)
    requires 1 <= e.pageSize && OriginLeft(e, input, msgs, orders, status, t)
    ensures OriginPlays(e, msgs, orders) && Writable(OriginPlayed(e, msgs, orders).1)
  {
    hide OriginPlays, OriginPlayed, Writable, ParseReplica;
  }
}
