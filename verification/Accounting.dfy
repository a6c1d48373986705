/** How many bytes a run puts on the connection, and how each side counts them. */
module Accounting {
  import opened Protocol
  import opened Conversation
  import opened Invariant
  import opened Theorems
  import opened Outcome
  import opened WireFormat
  import opened Framing
  import opened Transport
  import opened Tallies

  /** The reader counts every byte; the writer misses exactly one per text message. */
  lemma {:induction false} OriginTextUncounted(msgs: seq<OriginMsg>)
    requires Writable(msgs)
    ensures |DownBytes(msgs)| == DownCounted(msgs) + Tally(msgs, TextKind)
    decreases |msgs|
  {
    hide OriginBytes, Tally, OriginFits, InPage;
    if msgs == [] {
      NothingTallied();
    } else {
      TallyFirst(msgs, TextKind);
      OriginTextUncounted(msgs[1..]);
    }
  }

  lemma {:induction false} ReplicaTextUncounted(msgs: seq<ReplicaMsg>)
    requires Answerable(msgs)
    ensures |UpBytes(msgs)| == UpCounted(msgs) + Replies(msgs, TextReply)
    decreases |msgs|
  {
    hide ReplicaBytes, ReplicaFits;
    if msgs != [] {
      ReplicaTextUncounted(msgs[1..]);
    }
  }

  lemma {:induction false} DownSize(e: Scenario, msgs: seq<OriginMsg>)
    requires AllSound(e, msgs) && Writable(msgs) && Tally(msgs, TextKind) == 0
    ensures |DownBytes(msgs)| ==
      7 * Tally(msgs, BeginKind) + 9 * Tally(msgs, DetailKind) + Tally(msgs, ReadyKind)
      + (5 + e.pageSize) * Tally(msgs, PageKind) + 5 * Tally(msgs, TxnKind) + Tally(msgs, EndKind)
    decreases |msgs|
  {
    hide Tally, OriginFits, Uint32, PageSize;
    if msgs == [] {
      NothingTallied();
    } else {
      var m, rest := msgs[0], msgs[1..];
      forall kind: OriginKind
        ensures Tally(msgs, kind) == (if OriginKindOf(m) == kind then 1 else 0) + Tally(rest, kind)
      {
        TallyFirst(msgs, kind);
      }
      assert Sound(e, m);
      DownSize(e, rest);
      assert (5 + e.pageSize) * (1 + Tally(rest, PageKind))
          == (5 + e.pageSize) + (5 + e.pageSize) * Tally(rest, PageKind);
    }
  }

  lemma {:induction false} UpSize(msgs: seq<ReplicaMsg>)
    requires Answerable(msgs) && Replies(msgs, TextReply) == 0
    ensures |UpBytes(msgs)| ==
      2 * Replies(msgs, BeginReply) + 9 * Replies(msgs, ConfigReply) + 21 * Replies(msgs, HashReply)
      + Replies(msgs, ReadyReply) + Replies(msgs, EndReply)
    decreases |msgs|
  {
    hide ReplicaFits, Uint32;
    if msgs != [] {
      UpSize(msgs[1..]);
    }
  }

  /** The bytes of a run that is over, between databases of one page size: what each side wrote,
      what its writer counted, and what its peer has read, are one number in each direction. */
  lemma {:induction false} ByteTotals(e: Scenario, steps: seq<Step>)
    requires Framed(e) && Compatible(e) && Run(e, steps) && Over(After(e, steps))
    ensures var s := After(e, steps); Writable(s.down.sent) && Answerable(s.up.sent)
    ensures var s := After(e, steps); s.down.Drained() && s.up.Drained()
    ensures var s := After(e, steps);
      var begins, details := Tally(s.down.sent, BeginKind), Tally(s.down.sent, DetailKind);
      var configs, rounds := Replies(s.up.sent, ConfigReply), s.r.hashRounds;
      && 1 <= rounds == s.o.hashRounds
      && begins == (if e.replicaProtocol < e.originProtocol then 2 else 1)
      && DownCounted(s.down.sent) == |DownBytes(s.down.sent)|
         == 7 * begins + 9 * details + (rounds - 1) + (5 + e.pageSize) * s.o.pageUpdates + 6
      && UpCounted(s.up.sent) == |UpBytes(s.up.sent)|
         == 21 * s.r.hashMessages + 9 * configs + rounds + 2 * (begins - 1)
  {
    hide Run, After, Tally, Replies, Sendable, Answerable, AllSound, Uniform, PageSize, PageNumbers, Budget, Base,
      Chosen, Final, OriginBytes, ReplicaBytes, Missing, DownCounted, UpCounted, DownBytes, UpBytes;
    RunWired(e, steps);
    RunBooks(e, steps);
    HashesSent(e, steps);
    Negotiation(e, steps);
    var order := OverPhase(e, steps);
    var phase := RunInv(e, steps);
    var s := After(e, steps);
    OriginTextUncounted(s.down.sent);
    ReplicaTextUncounted(s.up.sent);
    DownSize(e, s.down.sent);
    UpSize(s.up.sent);
    PagesTallied(s.down.sent);
    assert s.up.sent[..s.up.read] == s.up.sent;
    assert s.down.Drained();
  }
}
