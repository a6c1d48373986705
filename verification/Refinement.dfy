/** The runs of the two-party system and the loops of the two roles are about one thing: in every
    run each role plays, and the replica's loop, given the bytes of a run, does what the run says. */
module Refinement {
  import opened Database
  import opened Protocol
  import opened Conversation
  import opened Invariant
  import opened Preservation
  import opened Theorems
  import opened Outcome
  import opened WireFormat
  import opened Framing
  import opened Transport
  import opened Loops

  /** The replica's part of a run. */
  ghost predicate ReplicaPart(e: Scenario, s: System) {
    && s.down.Ok() && s.up.Ok()
    && ReplicaPlays(e, s.down.sent[..s.down.read])
    && var (r, out) := ReplicaPlayed(e, s.down.sent[..s.down.read]);
    out == s.up.sent && s.r == r
  }

  /** The origin's part of a run, with the row orders its database chose. */
  ghost predicate OriginPart(e: Scenario, s: System, orders: seq<seq<nat>>)
    requires 1 <= e.pageSize
  {
    && s.down.Ok() && s.up.Ok()
    && OriginPlays(e, s.up.sent[..s.up.read], orders)
    && var (o, out) := OriginPlayed(e, s.up.sent[..s.up.read], orders);
    out == s.down.sent && (s.o == o || (o.status.Running? && s.o == o.(status := Ended)))
  }

  lemma {:induction false} Append<T>(s: seq<T>, more: seq<T>, k: nat)
    requires k <= |s|
    ensures (s + more)[..k] == s[..k]
  {
  }

  lemma {:induction false} ReplicaPartStep(e: Scenario, s: System, step: Step)
    requires 1 <= e.pageSize && Enabled(e, s, step) && ReplicaPart(e, s)
    requires !step.ReplicaSeesClose?
    ensures ReplicaPart(e, Apply(e, s, step))
  {
    hide ReplicaReply, OriginReply, RowsHashedBy, OrderFor, ReplicaPlays, ReplicaPlayed;
    match step
    case ReplicaReads =>
      Next(s.down.sent, s.down.read);
      ReplicaPlaysOn(e, s.down.sent[..s.down.read], s.down.sent[s.down.read]);
    case OriginReads(order) =>
      Append(s.down.sent, OriginReply(e, s.o, s.up.sent[s.up.read], order).1, s.down.read);
    case _ =>
  }

  lemma {:induction false} OriginPartStep(e: Scenario, s: System, step: Step, orders: seq<seq<nat>>)
    returns (next: seq<seq<nat>>)
    requires 1 <= e.pageSize && Enabled(e, s, step) && OriginPart(e, s, orders)
    ensures OriginPart(e, Apply(e, s, step), next)
  {
    hide ReplicaReply, OriginReply, RowsHashedBy, OrderFor, OriginPlays, OriginPlayed;
    next := orders;
    match step
    case OriginReads(order) =>
      Next(s.up.sent, s.up.read);
      OriginPlaysOn(e, s.up.sent[..s.up.read], orders, s.up.sent[s.up.read], order);
      next := orders + [order];
    case ReplicaReads =>
      Append(s.up.sent, ReplicaReply(e, s.r, s.down.sent[s.down.read]).1, s.up.read);
    case _ =>
  }

  /** In every run the replica is where its loop would be after the messages it has read, and has
      written what its loop would have written. */
  lemma {:induction false} ReplicaOfRun(e: Scenario, steps: seq<Step>)
    requires Proper(e) && Run(e, steps)
    ensures ReplicaPart(e, After(e, steps))
    decreases |steps|
  {
    hide Apply, Enabled, Inv;
    if steps == [] {
      assert Start(e).down.sent[..0] == [];
    } else {
      var before, step := steps[..|steps| - 1], steps[|steps| - 1];
      ReplicaOfRun(e, before);
      var phase := RunInv(e, before);
      if step.ReplicaSeesClose? {
        NoOtherClose(e, After(e, before), step, phase);
        assert false;
      }
      ReplicaPartStep(e, After(e, before), step);
    }
  }

  /** And so is the origin. */
  lemma {:induction false} OriginOfRun(e: Scenario, steps: seq<Step>) returns (orders: seq<seq<nat>>)
    requires 1 <= e.pageSize && Run(e, steps)
    ensures OriginPart(e, After(e, steps), orders)
    decreases |steps|
  {
    hide Apply, Enabled;
    if steps == [] {
      orders := [];
      assert Start(e).up.sent[..0] == [];
    } else {
      orders := OriginOfRun(e, steps[..|steps| - 1]);
      orders := OriginPartStep(e, After(e, steps[..|steps| - 1]), steps[|steps| - 1], orders);
    }
  }

  // ---------------------------------------------------------------- one reading of the bytes

  /** Messages whose bytes begin another stream's bytes begin that stream. */
  lemma {:induction false} OneReading(c: Context, a: seq<OriginMsg>, b: seq<OriginMsg>)
    requires Sendable(c, a) && Sendable(c, b) && DownBytes(a) <= DownBytes(b)
    ensures a <= b
    decreases |a|
  {
    hide OriginFits, OriginBytes, ParseOrigin, InPage, Accept;
    if a != [] {
      var m, input := a[0], DownBytes(b);
      assert input == OriginBytes(m) + input[|OriginBytes(m)|..];
      OriginInverse(m, c.pageSize, input[|OriginBytes(m)|..]);
      if b == [] {
        assert false;
      } else {
        OriginInverse(b[0], c.pageSize, DownBytes(b[1..]));
        assert DownBytes(a[1..]) <= DownBytes(b[1..]) by {
          assert DownBytes(a[1..]) == DownBytes(a)[|OriginBytes(m)|..];
          assert DownBytes(b[1..]) == input[|OriginBytes(m)|..];
        }
        OneReading(Accept(c, m), a[1..], b[1..]);
        assert a == [m] + a[1..] && b == [m] + b[1..];
      }
    }
  }

  /** From bytes to pages: whatever way the replica's loop takes through the bytes that the origin
      wrote in a run that is over, it reads the run's messages, answers as in the run, ends without
      error, and commits the database of the run. */
  lemma {:induction false} LoopFollowsRun(e: Scenario, steps: seq<Step>, msgs: seq<OriginMsg>, status: Status,
      committed: seq<Page>, t: Traffic)
    requires Framed(e) && Compatible(e) && Run(e, steps) && Over(After(e, steps))
    requires Writable(After(e, steps).down.sent)
    requires ReplicaLeft(e, DownBytes(After(e, steps).down.sent), msgs, status, committed, t)
    ensures var s := After(e, steps);
      && msgs == s.down.sent && status == Ended && committed == s.r.committed
      && Answerable(s.up.sent)
      && t == Traffic(UpBytes(s.up.sent), UpCounted(s.up.sent), |DownBytes(s.down.sent)|)
  {
    hide Run, After, PageSize, Sendable, Answerable, ReplicaPlays, ReplicaPlayed, ReplicaReply, ParseOrigin, Sayable,
      BrokenOff, Wired, ReplicaError, PageLength;
    var s := After(e, steps);
    var sent := s.down.sent;
    AllRead(e, steps);
    OneReading(Untold(e), msgs, sent);
    if |msgs| < |sent| {
      var j := |msgs|;
      assert sent[..j] == msgs;
      PlayedPrefix(e, sent, j);
      NextReplyIncluded(e, sent, j);
      NextParsed(e, sent, j);
      assert false;
    }
    assert msgs == sent;
    NothingLeft(sent);
  }

  lemma {:induction false} NothingLeft(sent: seq<OriginMsg>)
    requires Writable(sent)
    ensures DownBytes(sent)[|DownBytes(sent)|..] == [] && forall n :: ParseOrigin([], n) == Closed
  {
  }

  /** The same, with what the run commits spelled out: fed the origin's bytes, the replica's loop
      ends with a synced database. */
  lemma {:induction false} EndToEnd(e: Scenario, steps: seq<Step>, msgs: seq<OriginMsg>, status: Status,
      committed: seq<Page>, t: Traffic)
    requires Framed(e) && Compatible(e) && NoCollisions(e) && Run(e, steps) && Over(After(e, steps))
    requires Writable(After(e, steps).down.sent)
    requires ReplicaLeft(e, DownBytes(After(e, steps).down.sent), msgs, status, committed, t)
    ensures status == Ended && Synced(e, committed)
    ensures Missing(e) == {} ==> committed == Base(e)
    ensures |committed| == |e.origin| <==> SizeCondition(e)
  {
    hide Run, After, PageSize, ReplicaLeft, Synced, SizeCondition, Missing, NoCollisions, Base;
    LoopFollowsRun(e, steps, msgs, status, committed, t);
    Convergence(e, steps);
  }

  lemma {:induction false} AllRead(e: Scenario, steps: seq<Step>)
    requires Framed(e) && Compatible(e) && Run(e, steps) && Over(After(e, steps))
    ensures var s := After(e, steps);
      && Sendable(Untold(e), s.down.sent) && Answerable(s.up.sent)
      && ReplicaPlays(e, s.down.sent) && ReplicaPlayed(e, s.down.sent) == (s.r, s.up.sent) && s.r.status == Ended
  {
    hide Run, After, PageSize, Sendable, Answerable, Base, Budget, PageNumbers, Tally, Chosen, Final, ReplicaPlays;
    RunWired(e, steps);
    ReplicaOfRun(e, steps);
    var s := After(e, steps);
    var order := OverPhase(e, steps);
    assert s.down.Unread() == [];
    assert s.down.sent[..s.down.read] == s.down.sent;
  }

  lemma {:induction false} NextParsed(e: Scenario, sent: seq<OriginMsg>, j: nat)
    requires Sendable(Untold(e), sent) && j < |sent|
    requires ReplicaPlays(e, sent[..j])
    ensures Writable(sent[..j]) && |DownBytes(sent[..j])| <= |DownBytes(sent)|
    ensures var p := ParseOrigin(DownBytes(sent)[|DownBytes(sent[..j])|..], PageLength(ReplicaPlayed(e, sent[..j]).0));
      p.Parsed? && p.message == sent[j]
  {
    hide OriginFits, OriginBytes, ParseOrigin, InPage, ReplicaPlays, ReplicaPlayed, Accept;
    var c := Untold(e);
    assert sent == sent[..j] + sent[j..];
    DownBytesAppend(sent[..j], sent[j..]);
    SendableRest(c, sent, j);
    PlayedContext(e, sent[..j]);
    OriginInverse(sent[j], AcceptAll(c, sent[..j]).pageSize, DownBytes(sent[j..][1..]));
    assert DownBytes(sent)[|DownBytes(sent[..j])|..] == DownBytes(sent[j..]);
  }

  /** The page size in the replica's state is the one the stream has announced. */
  lemma {:induction false} PlayedContext(e: Scenario, msgs: seq<OriginMsg>)
    requires ReplicaPlays(e, msgs)
    ensures var r := ReplicaPlayed(e, msgs).0; Context(r.protocol, PageLength(r)) == AcceptAll(Untold(e), msgs)
    decreases |msgs|
  {
    hide ReplicaReply;
    if msgs != [] {
      var k := |msgs| - 1;
      var before := AcceptAll(Untold(e), msgs[..k]);
      assert AcceptAll(before, [msgs[k]]) == Accept(before, msgs[k]);
      hide Accept;
      PlayedContext(e, msgs[..k]);
      FieldsFollow(e, ReplicaPlayed(e, msgs[..k]).0, msgs[k]);
      assert msgs == msgs[..k] + [msgs[k]];
      AcceptAllAppend(Untold(e), msgs[..k], [msgs[k]]);
      assert [msgs[k]][1..] == [];
    }
  }

  // ---------------------------------------------------------------- streams cut anywhere

  /** A run reads its messages one by one: at some time it had read exactly `j` of them. */
  lemma {:induction false} ReadReached(e: Scenario, steps: seq<Step>, j: nat) returns (k: nat)
    requires 1 <= e.pageSize && Run(e, steps) && j <= After(e, steps).down.read
    ensures k <= |steps| && Run(e, steps[..k])
    ensures var s, whole := After(e, steps[..k]), After(e, steps);
      && s.down.Ok() && whole.down.Ok()
      && s.down.read == j && s.down.sent <= whole.down.sent
    decreases |steps|
  {
    hide ReplicaReply, OriginReply, RowsHashedBy, OrderFor;
    StreamOk(e, steps);
    if j == After(e, steps).down.read {
      k := |steps|;
      assert steps[..k] == steps;
    } else {
      var before := steps[..|steps| - 1];
      k := ReadReached(e, before, j);
      assert before[..k] == steps[..k];
    }
  }

  lemma {:induction false} StreamOk(e: Scenario, steps: seq<Step>)
    requires 1 <= e.pageSize && Run(e, steps)
    ensures After(e, steps).down.Ok()
  {
    hide ReplicaReply, OriginReply, RowsHashedBy, OrderFor;
  }

  /** What the replica has committed after any number of the messages of a complete run. */
  lemma {:induction false} CommittedAlong(e: Scenario, steps: seq<Step>, j: nat)
    requires Framed(e) && Compatible(e) && Run(e, steps) && Over(After(e, steps))
    requires j <= |After(e, steps).down.sent|
    ensures var s := After(e, steps);
      && ReplicaPlays(e, s.down.sent[..j])
      && var committed := ReplicaPlayed(e, s.down.sent[..j]).0.committed;
      committed == e.replica || committed == s.r.committed
  {
    hide Run, After, PageSize, ReplicaPlays, ReplicaPlayed, Base, Budget, PageNumbers, Tally, Chosen, Final;
    var order := OverPhase(e, steps);
    StreamOk(e, steps);
    assert After(e, steps).down.Unread() == [];
    var k := ReadReached(e, steps, j);
    ReplicaOfRun(e, steps[..k]);
    assert After(e, steps[..k]).down.sent[..j] == After(e, steps).down.sent[..j];
    Atomicity(e, steps, k);
  }

  /** Atomicity in bytes: if the origin's stream of a complete run is cut after any number of bytes,
      the replica's loop leaves what the file held before or what the whole run commits. */
  lemma {:induction false} CutAnywhere(e: Scenario, steps: seq<Step>, n: nat, msgs: seq<OriginMsg>, status: Status,
      committed: seq<Page>, t: Traffic)
    requires Framed(e) && Compatible(e) && Run(e, steps) && Over(After(e, steps))
    requires Writable(After(e, steps).down.sent) && n <= |DownBytes(After(e, steps).down.sent)|
    requires ReplicaLeft(e, DownBytes(After(e, steps).down.sent)[..n], msgs, status, committed, t)
    ensures committed == e.replica || committed == After(e, steps).r.committed
    ensures msgs <= After(e, steps).down.sent
  {
    hide Run, After, PageSize, Sendable, Answerable, ReplicaPlays, ReplicaPlayed, ReplicaReply, ParseOrigin, Sayable,
      BrokenOff, Wired, ReplicaError, PageLength, Parted;
    var sent := After(e, steps).down.sent;
    var input := DownBytes(sent)[..n];
    AllRead(e, steps);
    assert input <= DownBytes(sent);
    OneReading(Untold(e), msgs, sent);
    var j := |msgs|;
    assert sent[..j] == msgs;
    CommittedAlong(e, steps, j);
    var s := ReplicaPlayed(e, msgs).0;
    var next := ParseOrigin(input[|DownBytes(msgs)|..], PageLength(s));
    if s.status.Running? && next.Parsed? {
      NextOfCut(e, sent, n, msgs);
      NextReplyIncluded(e, sent, j);
    }
  }

  /** A message that is complete in a cut stream is the next one of the whole stream. */
  lemma {:induction false} NextOfCut(e: Scenario, sent: seq<OriginMsg>, n: nat, msgs: seq<OriginMsg>)
    requires Sendable(Untold(e), sent) && Sendable(Untold(e), msgs) && n <= |DownBytes(sent)|
    requires DownBytes(msgs) <= DownBytes(sent)[..n] && ReplicaPlays(e, msgs)
    requires ParseOrigin(DownBytes(sent)[..n][|DownBytes(msgs)|..], PageLength(ReplicaPlayed(e, msgs).0)).Parsed?
    ensures |msgs| < |sent|
    ensures ParseOrigin(DownBytes(sent)[..n][|DownBytes(msgs)|..], PageLength(ReplicaPlayed(e, msgs).0)).message
      == sent[|msgs|]
  {
    hide OriginFits, OriginBytes, ParseOrigin, InPage, ReplicaPlays, ReplicaPlayed, PageLength, Sendable, AcceptAll,
      DownBytes;
    var c, input := Untold(e), DownBytes(sent)[..n];
    var rest := input[|DownBytes(msgs)|..];
    OpenAfter(e, msgs);
    var p := ParseOrigin(rest, AcceptAll(c, msgs).pageSize);
    OriginCanonical(rest, AcceptAll(c, msgs).pageSize);
    DownBytesNext(c, msgs, p.message);
    assert DownBytes(msgs + [p.message]) <= DownBytes(sent) by {
      assert input == DownBytes(msgs) + rest;
      assert rest == OriginBytes(p.message) + rest[p.used..];
      assert input == (DownBytes(msgs) + OriginBytes(p.message)) + rest[p.used..];
    }
    OneReading(c, msgs + [p.message], sent);
  }
}
