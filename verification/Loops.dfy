/** The two message loops from bytes to bytes, against any peer: take a message off the stream,
    handle it, write the replies, flush before reading on. */
module Loops {
  import opened Prelude
  import opened Ranges
  import opened Database
  import opened PageHash
  import opened Protocol
  import opened OriginSide
  import opened ReplicaSide
  import opened WireFormat
  import opened Framing
  import opened Invariant
  import opened Transport

  // ---------------------------------------------------------------- playing one role

  /** The origin can take these messages one after the other, with these row orders. */
  ghost predicate OriginPlays(e: Scenario, msgs: seq<ReplicaMsg>, orders: seq<seq<nat>>)
    requires 1 <= e.pageSize
    decreases |msgs|, 0
  {
    && |orders| == |msgs|
    && (msgs == [] ||
        var k := |msgs| - 1;
        && OriginPlays(e, msgs[..k], orders[..k])
        && var s := OriginPlayed(e, msgs[..k], orders[..k]).0;
        s.status.Running? && OrderFor(e, s, msgs[k], orders[k]))
  }

  /** Its state after them, and all it has written. */
  ghost function OriginPlayed(e: Scenario, msgs: seq<ReplicaMsg>, orders: seq<seq<nat>>): (OriginState, seq<OriginMsg>)
    requires 1 <= e.pageSize && OriginPlays(e, msgs, orders)
    decreases |msgs|, 1
  {
    if msgs == [] then (OriginStart(e), [Hello(e, e.originProtocol)])
    else
      var k := |msgs| - 1;
      var (s, out) := OriginPlayed(e, msgs[..k], orders[..k]);
      var (s', more) := OriginReply(e, s, msgs[k], orders[k]);
      (s', out + more)
  }

  ghost predicate ReplicaPlays(e: Scenario, msgs: seq<OriginMsg>)
    decreases |msgs|, 0
  {
    msgs == [] ||
    var k := |msgs| - 1;
    ReplicaPlays(e, msgs[..k]) && ReplicaPlayed(e, msgs[..k]).0.status.Running?
  }

  ghost function ReplicaPlayed(e: Scenario, msgs: seq<OriginMsg>): (ReplicaState, seq<ReplicaMsg>)
    requires ReplicaPlays(e, msgs)
    decreases |msgs|, 1
  {
    if msgs == [] then (ReplicaStart(e), [])
    else
      var k := |msgs| - 1;
      var (s, out) := ReplicaPlayed(e, msgs[..k]);
      var (s', more) := ReplicaReply(e, s, msgs[k]);
      (s', out + more)
  }

  lemma {:induction false} OriginPlaysOn(e: Scenario, msgs: seq<ReplicaMsg>, orders: seq<seq<nat>>, m: ReplicaMsg,
      order: seq<nat>)
    requires 1 <= e.pageSize && OriginPlays(e, msgs, orders)
    requires var s := OriginPlayed(e, msgs, orders).0; s.status.Running? && OrderFor(e, s, m, order)
    ensures OriginPlays(e, msgs + [m], orders + [order])
    ensures var (s, out) := OriginPlayed(e, msgs, orders); var (s', more) := OriginReply(e, s, m, order);
      OriginPlayed(e, msgs + [m], orders + [order]) == (s', out + more)
  {
    hide OriginReply, OrderFor;
    assert (msgs + [m])[..|msgs|] == msgs && (orders + [order])[..|orders|] == orders;
  }

  lemma {:induction false} ReplicaPlaysOn(e: Scenario, msgs: seq<OriginMsg>, m: OriginMsg)
    requires ReplicaPlays(e, msgs) && ReplicaPlayed(e, msgs).0.status.Running?
    ensures ReplicaPlays(e, msgs + [m])
    ensures var (s, out) := ReplicaPlayed(e, msgs); var (s', more) := ReplicaReply(e, s, m);
      ReplicaPlayed(e, msgs + [m]) == (s', out + more)
  {
    hide ReplicaReply;
    assert (msgs + [m])[..|msgs|] == msgs;
  }

  lemma {:induction false} Next<T>(s: seq<T>, k: nat)
    requires k < |s|
    ensures s[..k + 1] == s[..k] + [s[k]]
  {
  }

  /** Every shorter prefix of what the replica has read leaves it running, with replies that its
      later ones only add to. */
  lemma {:induction false} PlayedPrefix(e: Scenario, msgs: seq<OriginMsg>, j: nat)
    requires ReplicaPlays(e, msgs) && j <= |msgs|
    ensures ReplicaPlays(e, msgs[..j]) && ReplicaPlayed(e, msgs[..j]).1 <= ReplicaPlayed(e, msgs).1
    ensures j < |msgs| ==> ReplicaPlayed(e, msgs[..j]).0.status.Running?
    decreases |msgs|
  {
    hide ReplicaReply;
    if j < |msgs| {
      PlayedPrefix(e, msgs[..|msgs| - 1], j);
      assert msgs[..|msgs| - 1][..j] == msgs[..j];
    } else {
      assert msgs[..j] == msgs;
    }
  }

  lemma {:induction false} NextReplyIncluded(e: Scenario, msgs: seq<OriginMsg>, j: nat)
    requires ReplicaPlays(e, msgs) && j < |msgs| && Answerable(ReplicaPlayed(e, msgs).1)
    ensures ReplicaPlays(e, msgs[..j]) && Answerable(ReplicaReply(e, ReplicaPlayed(e, msgs[..j]).0, msgs[j]).1)
  {
    hide ReplicaReply, ReplicaPlays, ReplicaPlayed, ReplicaFits;
    PlayedPrefix(e, msgs, j);
    PlayedPrefix(e, msgs, j + 1);
    Next(msgs, j);
    ReplicaPlaysOn(e, msgs[..j], msgs[j]);
    var out, more := ReplicaPlayed(e, msgs[..j]).1, ReplicaReply(e, ReplicaPlayed(e, msgs[..j]).0, msgs[j]).1;
    var all := ReplicaPlayed(e, msgs).1;
    assert forall i :: 0 <= i < |more| ==> all[|out| + i] == (out + more)[|out| + i] == more[i];
  }

  // ---------------------------------------------------------------- what the origin writes fits

  /** Every number the origin keeps fits 32 bits, whatever its peer sends. */
  ghost predicate Bounded(e: Scenario, s: OriginState) {
    && s.protocol <= e.originProtocol
    && Word(s.iHash) && Word(s.nHash)
    && (s.badHash.Some? ==> Small(s.badHash.value))
  }

  ghost predicate Small(t: Table) {
    forall k :: k in t ==> Word(k) && Word(t[k])
  }

  lemma {:induction false} DetailsFit(t: Table, order: seq<nat>)
    requires Small(t) && forall i :: 0 <= i < |order| ==> order[i] in t
    ensures Writable(Details(DetailRows(t, order)) + [OReady])
  {
    assert OriginFits(OReady);
  }

  lemma {:induction false} PagesFit(e: Scenario, order: seq<nat>)
    requires Proper(e) && forall i :: 0 <= i < |order| ==> Exists(e.origin, order[i])
    ensures Writable(PageMessages(e, order) + [OTxn(|e.origin|), OEnd])
  {
    forall i | 0 <= i < |order| ensures OriginFits(PageMessages(e, order)[i]) {
      assert Exists(e.origin, order[i]);
    }
  }

  lemma {:induction false} ReadyFits(e: Scenario, s: OriginState, order: seq<nat>)
    requires Framed(e) && Bounded(e, s) && OrderFor(e, s, RReady, order)
    ensures var (s', out) := OriginOnReady(e, s, order); Bounded(e, s') && Writable(out)
  {
    hide PageSize, GapFits;
    if s.badHash.Some? {
      var t := s.badHash.value;
      assert forall i :: 0 <= i < |order| ==> order[i] in Elements(order);
      if Multi(t) != map[] {
        DetailsFit(t, order);
      } else if GapFits(t, s.mxHash, |e.origin|) {
        PagesFit(e, order);
        assert Small(Swept(e, t, s.mxHash));
      }
    }
  }

  lemma {:induction false} ReplyFits(e: Scenario, s: OriginState, m: ReplicaMsg, order: seq<nat>)
    requires Framed(e) && Bounded(e, s) && ReplicaFits(m) && OrderFor(e, s, m, order)
    ensures var (s', out) := OriginReply(e, s, m, order); Bounded(e, s') && Writable(out)
  {
    hide OriginOnReady, OrderFor, PageSize, Matches;
    if m.RReady? {
      ReadyFits(e, s, order);
    }
  }

  // ---------------------------------------------------------------- writing replies

  method SendAll(w: Writer, out: seq<OriginMsg>)
    requires w.Valid() && Writable(out)
    modifies w
    ensures w.Valid() && w.Sent() == old(w.Sent()) + DownBytes(out)
    ensures w.bytesWritten == old(w.bytesWritten) + DownCounted(out)
    ensures old(w.delivered) <= w.delivered
    ensures out == [] ==> w.pending == old(w.pending)
    ensures EndsInError(out) ==> w.pending == []
  {
    hide OriginFits, OriginBytes, Counted;
    assert out[..0] == [] && out[..|out|] == out;
    for i := 0 to |out|
      invariant w.Valid() && w.Sent() == old(w.Sent()) + DownBytes(out[..i])
      invariant w.bytesWritten == old(w.bytesWritten) + DownCounted(out[..i])
      invariant old(w.delivered) <= w.delivered
      invariant i == 0 ==> w.pending == old(w.pending)
      invariant 0 < i && out[i - 1].OError? ==> w.pending == []
    {
      assert out[..i + 1] == out[..i] + [out[i]];
      DownBytesAppend(out[..i], [out[i]]);
      DownCountedAppend(out[..i], [out[i]]);
      assert [out[i]][1..] == [];
      w.SendOrigin(out[i]);
    }
  }

  /** What reaches the connection of a batch of replies: a number that does not fit 32 bits cannot
      be scanned, and the rest of the batch becomes an error message. */
  function Sayable(out: seq<ReplicaMsg>): (said: seq<ReplicaMsg>)
    ensures Answerable(said)
    ensures Answerable(out) <==> said == out && Answerable(out)
    decreases |out|
  {
    if out == [] then []
    else if ReplicaFits(out[0]) then [out[0]] + Sayable(out[1..])
    else [RError([])]
  }

  method SendReplies(w: Writer, out: seq<ReplicaMsg>) returns (sent: bool)
    requires w.Valid()
    modifies w
    ensures w.Valid() && w.Sent() == old(w.Sent()) + UpBytes(Sayable(out))
    ensures w.bytesWritten == old(w.bytesWritten) + UpCounted(Sayable(out))
    ensures sent == Answerable(out)
    ensures old(w.delivered) <= w.delivered
    ensures out == [] ==> w.pending == old(w.pending)
    ensures EndsInRefusal(out) || !sent ==> w.pending == []
  {
    hide ReplicaFits, ReplicaBytes, CountedReply, UpBytes, UpCounted, Sayable;
    ghost var before, counted := w.Sent(), w.bytesWritten;
    assert out[0..] == out;
    for i := 0 to |out|
      invariant w.Valid() && forall k :: 0 <= k < i ==> ReplicaFits(out[k])
      invariant w.Sent() + UpBytes(Sayable(out[i..])) == before + UpBytes(Sayable(out))
      invariant w.bytesWritten + UpCounted(Sayable(out[i..])) == counted + UpCounted(Sayable(out))
      invariant old(w.delivered) <= w.delivered
      invariant i == 0 ==> w.pending == old(w.pending)
      invariant 0 < i && out[i - 1].RError? ==> w.pending == []
    {
      SayOne(out, i);
      ghost var soFar := w.Sent();
      if !ReplicaFits(out[i]) {
        w.SendReplica(RError([]));
        return false;
      }
      w.SendReplica(out[i]);
      Regroup(soFar, ReplicaBytes(out[i]), UpBytes(Sayable(out[i + 1..])));
    }
    SayNothing(out);
    sent := true;
  }

  lemma {:induction false} Regroup(a: seq<Byte>, b: seq<Byte>, c: seq<Byte>)
    ensures (a + b) + c == a + (b + c)
  {
  }

  lemma {:induction false} SayNothing(out: seq<ReplicaMsg>)
    ensures UpBytes(Sayable(out[|out|..])) == [] && UpCounted(Sayable(out[|out|..])) == 0
  {
    assert out[|out|..] == [];
  }

  lemma {:induction false} SayOne(out: seq<ReplicaMsg>, i: nat)
    requires i < |out|
    ensures ReplicaFits(RError([]))
    ensures UpBytes(Sayable(out[i..])) ==
      if ReplicaFits(out[i]) then ReplicaBytes(out[i]) + UpBytes(Sayable(out[i + 1..])) else ReplicaBytes(RError([]))
    ensures UpCounted(Sayable(out[i..])) ==
      if ReplicaFits(out[i]) then CountedReply(out[i]) + UpCounted(Sayable(out[i + 1..])) else CountedReply(RError([]))
  {
    hide ReplicaBytes, CountedReply;
    assert out[i..][0] == out[i] && out[i..][1..] == out[i + 1..];
    if ReplicaFits(out[i]) {
      assert Sayable(out[i..])[1..] == Sayable(out[i + 1..]);
    } else {
      assert [RError([])][1..] == [];
    }
  }

  // ---------------------------------------------------------------- the loops

  /** How a role leaves when its stream holds no further message. */
  function Departure<T>(p: Parse<T>): Status {
    if p.Closed? then Ended else Failed
  }

  /** What a role has put on its connection, and its two byte counters. */
  datatype Traffic = Traffic(delivered: seq<Byte>, written: nat, read: nat)

  ghost function TrafficOf(w: Writer, r: Reader): Traffic
    reads w, r
  {
    Traffic(w.delivered, w.bytesWritten, r.bytesRead)
  }

  /** What the origin answers to an unknown type byte. */
  function OriginError(): (bytes: seq<Byte>) {
    ErrorFits();
    OriginBytes(OError([]))
  }

  function ReplicaError(): (bytes: seq<Byte>) {
    ErrorFits();
    ReplicaBytes(RError([]))
  }

  /** The role's traffic after it found no message: nothing was there, or one byte that is no type
      and is answered by an error message, or a message that breaks off or has a bad field. */
  ghost predicate Parted<T>(p: Parse<T>, error: seq<Byte>, before: Traffic, after: Traffic, left: nat) {
    if p.Closed? then (after == before)
    else if p.Unknown? then
      (after.delivered == before.delivered + error && after.written + 1 == before.written + |error|
       && after.read == before.read + 1)
    else
      (after.delivered == before.delivered && after.written == before.written
       && before.read <= after.read <= before.read + left)
  }

  /** The origin's traffic when it has answered `msgs` with `out`. */
  ghost predicate OriginTraffic(msgs: seq<ReplicaMsg>, out: seq<OriginMsg>, t: Traffic) {
    && Answerable(msgs) && Writable(out)
    && t == Traffic(DownBytes(out), DownCounted(out), |UpBytes(msgs)|)
  }

  /** The origin has taken `msgs` off its input, leaving `rest`, is in state `s` and has delivered
      all its replies. */
  ghost predicate OriginAt(e: Scenario, input: seq<Byte>, msgs: seq<ReplicaMsg>, orders: seq<seq<nat>>,
      rest: seq<Byte>, s: OriginState, t: Traffic)
    requires 1 <= e.pageSize
  {
    && Answerable(msgs) && input == UpBytes(msgs) + rest
    && Bounded(e, s)
    && OriginPlays(e, msgs, orders)
    && OriginPlayed(e, msgs, orders).0 == s
    && OriginTraffic(msgs, OriginPlayed(e, msgs, orders).1, t)
  }

  lemma {:induction false} OriginTurn(e: Scenario, input: seq<Byte>, msgs: seq<ReplicaMsg>, orders: seq<seq<nat>>,
      rest: seq<Byte>, s: OriginState, t: Traffic, order: seq<nat>)
    requires Framed(e) && OriginAt(e, input, msgs, orders, rest, s, t)
    requires s.status.Running? && ParseReplica(rest).Parsed?
    requires OrderFor(e, s, ParseReplica(rest).message, order)
    ensures var p := ParseReplica(rest); var (s', out) := OriginReply(e, s, p.message, order);
      && Writable(out)
      && OriginAt(e, input, msgs + [p.message], orders + [order], rest[p.used..], s',
           Traffic(t.delivered + DownBytes(out), t.written + DownCounted(out), t.read + p.used))
  {
    hide OriginReply, ReplicaFits, ReplicaBytes, ParseReplica, PageSize, OrderFor, OriginPlays, OriginPlayed, Bounded,
      Writable, UpBytes, DownBytes, DownCounted, Answerable, Uint32;
    var p := ParseReplica(rest);
    var m := p.message;
    ReplicaCanonical(rest);
    UpBytesMore(msgs, m);
    ReplyFits(e, s, m, order);
    OriginPlaysOn(e, msgs, orders, m, order);
    DownBytesMore(OriginPlayed(e, msgs, orders).1, OriginReply(e, s, m, order).1);
    DownCountedAppend(OriginPlayed(e, msgs, orders).1, OriginReply(e, s, m, order).1);
    assert rest == ReplicaBytes(m) + rest[p.used..];
    Regroup(UpBytes(msgs), ReplicaBytes(m), rest[p.used..]);
  }

  /** Whatever the origin writes while it runs on, it writes in the handlers that flush at their
      end; all else is an error message. */
  lemma {:induction false} OriginWritesFlushed(e: Scenario, s: OriginState, m: ReplicaMsg, order: seq<nat>)
    requires 1 <= e.pageSize && OrderFor(e, s, m, order) && s.status.Running?
    ensures var (s', out) := OriginReply(e, s, m, order);
      out == [] || EndsInError(out) || ((m.RBegin? || m.RReady?) && s'.status.Running?)
  {
    hide Swept, Multi, Singles, Matches, GapFits, StreamedPages, Enumerates;
  }

  /** One turn of the origin's loop, entered with an empty write buffer. It flushes only at the end
      of the handlers of REPLICA_BEGIN and REPLICA_READY, and with an error message; the buffer is
      empty all the same when it reads on. */
  method OriginTake(e: Scenario, w: Writer, r: Reader, o: Origin, ghost input: seq<Byte>,
      ghost msgs: seq<ReplicaMsg>, ghost orders: seq<seq<nat>>) returns (p: Parse<ReplicaMsg>, ghost order: seq<nat>)
    requires Framed(e) && o.e == e && o.status.Running? && r.Valid()
    requires OriginAt(e, input, msgs, orders, r.Rest(), o.State(), TrafficOf(w, r))
    requires w.Valid() && w.pending == []
    modifies w, r, o
    ensures w.Valid() && w.pending == [] && r.Valid()
    ensures p == ParseReplica(old(r.Rest()))
    ensures p.Parsed? ==>
      && |r.Rest()| < |old(r.Rest())|
      && OriginAt(e, input, msgs + [p.message], orders + [order], r.Rest(), o.State(), TrafficOf(w, r))
    ensures !p.Parsed? ==> Parted(p, OriginError(), old(TrafficOf(w, r)), TrafficOf(w, r), |old(r.Rest())|)
  {
    hide OriginReply, OriginFits, OriginBytes, ParseReplica, PageSize, OrderFor, OriginAt, Writable, DownBytes,
      DownCounted;
    ghost var rest, before, t := r.Rest(), o.State(), TrafficOf(w, r);
    assert w.Sent() == t.delivered;
    p := r.NextReplica();
    order := [];
    if p.Parsed? {
      var out;
      out, order := o.Handle(p.message);
      OriginTurn(e, input, msgs, orders, rest, before, t, order);
      OriginWritesFlushed(e, before, p.message, order);
      SendAll(w, out);
      if o.status.Running? && (p.message.RBegin? || p.message.RReady?) {
        w.Flush();
      }
      assert w.pending == [] && w.delivered == w.Sent();
    } else if p.Unknown? {
      ErrorFits();
      w.SendOrigin(OError([]));
      assert w.delivered == w.Sent();
    }
  }

  /** The loop was left: by the origin's own state, or because the input holds no further message. */
  ghost predicate OriginLeft(e: Scenario, input: seq<Byte>, msgs: seq<ReplicaMsg>, orders: seq<seq<nat>>,
      status: Status, t: Traffic)
    requires 1 <= e.pageSize
  {
    && Answerable(msgs) && UpBytes(msgs) <= input && OriginPlays(e, msgs, orders)
    && var (s, out) := OriginPlayed(e, msgs, orders);
    var rest := input[|UpBytes(msgs)|..];
    var next := ParseReplica(rest);
    && Writable(out)
    && var answered := Traffic(DownBytes(out), DownCounted(out), |UpBytes(msgs)|);
    if s.status.Running? then
      !next.Parsed? && status == Departure(next) && Parted(next, OriginError(), answered, t, |rest|)
    else status == s.status && t == answered
  }

  /** The origin's run on the bytes `input`, after which its peer is silent. Whatever these bytes
      are: every reply to the messages in them has been delivered, none is left in the buffer, both
      counters are exact; the loop stops only when it has left or the rest of the input holds no
      message. */
  method OriginLoop(e: Scenario, input: seq<Byte>)
    returns (w: Writer, r: Reader, status: Status, ghost msgs: seq<ReplicaMsg>, ghost orders: seq<seq<nat>>)
    requires Framed(e)
    ensures OriginLeft(e, input, msgs, orders, status, TrafficOf(w, r))
    ensures w.Valid() && w.pending == []
  {
    hide PageSize, OriginAt, ParseReplica, OriginLeft, Writable, DownBytes, DownCounted, Parted, OriginError, Departure,
      OriginStart;
    msgs, orders := [], [];
    w := new Writer();
    r := new Reader(input);
    var o := new Origin(e);
    StartFits(e, input);
    ghost var hello := DownBytes([Hello(e, e.originProtocol)]);
    SendAll(w, [Hello(e, e.originProtocol)]);
    w.Flush();
    assert TrafficOf(w, r) == Traffic(hello, DownCounted([Hello(e, e.originProtocol)]), 0) by {
      assert w.delivered == [] + hello == hello;
    }
    assert r.Rest() == input;
    while o.status.Running?
      invariant fresh(w) && fresh(r) && fresh(o) && o.e == e
      invariant r.Valid() && OriginAt(e, input, msgs, orders, r.Rest(), o.State(), TrafficOf(w, r))
      invariant w.Valid() && w.pending == []
      decreases |r.Rest()|
    {
      ghost var rest, before, t := r.Rest(), o.State(), TrafficOf(w, r);
      ghost var order;
      var p;
      p, order := OriginTake(e, w, r, o, input, msgs, orders);
      if !p.Parsed? {
        OriginSeen(e, input, msgs, orders, rest, before, t, TrafficOf(w, r));
        status := Departure(p);
        return;
      }
      msgs, orders := msgs + [p.message], orders + [order];
    }
    OriginSeen(e, input, msgs, orders, r.Rest(), o.State(), TrafficOf(w, r), TrafficOf(w, r));
    status := o.status;
  }

  lemma {:induction false} OriginSeen(e: Scenario, input: seq<Byte>, msgs: seq<ReplicaMsg>, orders: seq<seq<nat>>,
      rest: seq<Byte>, s: OriginState, t: Traffic, t': Traffic)
    requires 1 <= e.pageSize && OriginAt(e, input, msgs, orders, rest, s, t)
    ensures var p := ParseReplica(rest);
      s.status.Running? && !p.Parsed? && Parted(p, OriginError(), t, t', |rest|) ==>
      OriginLeft(e, input, msgs, orders, Departure(p), t')
    ensures !s.status.Running? ==> OriginLeft(e, input, msgs, orders, s.status, t)
  {
    hide OriginPlays, OriginPlayed, ParseReplica, Parted;
    assert input[|UpBytes(msgs)|..] == rest;
  }

  lemma {:induction false} StartFits(e: Scenario, input: seq<Byte>)
    requires Framed(e)
    ensures var hello := [Hello(e, e.originProtocol)];
      && Writable(hello)
      && OriginAt(e, input, [], [], input, OriginStart(e), Traffic(DownBytes(hello), DownCounted(hello), 0))
  {
    hide PageSize;
  }

  lemma {:induction false} ErrorFits()
    ensures OriginFits(OError([])) && ReplicaFits(RError([]))
  {
  }

  lemma {:induction false} UpBytesMore(msgs: seq<ReplicaMsg>, m: ReplicaMsg)
    requires Answerable(msgs) && ReplicaFits(m)
    ensures Answerable(msgs + [m]) && UpBytes(msgs + [m]) == UpBytes(msgs) + ReplicaBytes(m)
  {
    hide ReplicaFits, ReplicaBytes;
    UpBytesAppend(msgs, [m]);
    assert [m][1..] == [];
  }

  lemma {:induction false} DownBytesMore(out: seq<OriginMsg>, more: seq<OriginMsg>)
    requires Writable(out) && Writable(more)
    ensures Writable(out + more) && DownBytes(out + more) == DownBytes(out) + DownBytes(more)
  {
    hide OriginFits;
    DownBytesAppend(out, more);
  }

  // ---------------------------------------------------------------- the replica's loop

  /** The replica has taken `msgs` off its input, leaving `rest`, is in state `s` and has delivered
      all its replies. The page length it reads is the one the stream has announced. */
  ghost predicate ReplicaAt(e: Scenario, input: seq<Byte>, msgs: seq<OriginMsg>, rest: seq<Byte>, s: ReplicaState,
      t: Traffic)
  {
    && Sendable(Untold(e), msgs) && input == DownBytes(msgs) + rest
    && AcceptAll(Untold(e), msgs) == Context(s.protocol, PageLength(s))
    && ReplicaPlays(e, msgs)
    && ReplicaPlayed(e, msgs).0 == s
    && ReplicaTraffic(msgs, ReplicaPlayed(e, msgs).1, t)
  }

  /** The replica's traffic when it has answered `msgs` with `out`. */
  ghost predicate ReplicaTraffic(msgs: seq<OriginMsg>, out: seq<ReplicaMsg>, t: Traffic) {
    && Writable(msgs) && Answerable(out)
    && t == Traffic(UpBytes(out), UpCounted(out), |DownBytes(msgs)|)
  }

  lemma {:induction false} UpBytesJoined(out: seq<ReplicaMsg>, more: seq<ReplicaMsg>)
    requires Answerable(out) && Answerable(more)
    ensures Answerable(out + more) && UpBytes(out + more) == UpBytes(out) + UpBytes(more)
  {
    hide ReplicaFits;
    UpBytesAppend(out, more);
  }

  lemma {:induction false} DownBytesNext(c: Context, msgs: seq<OriginMsg>, m: OriginMsg)
    requires Sendable(c, msgs) && OriginFits(m) && InPage(m, AcceptAll(c, msgs).pageSize)
    ensures Sendable(c, msgs + [m]) && DownBytes(msgs + [m]) == DownBytes(msgs) + OriginBytes(m)
    ensures AcceptAll(c, msgs + [m]) == Accept(AcceptAll(c, msgs), m)
  {
    hide OriginFits, OriginBytes, InPage, Accept;
    assert [m][1..] == [];
    SendableAppend(c, msgs, [m]);
    AcceptAllAppend(c, msgs, [m]);
    DownBytesAppend(msgs, [m]);
  }

  /** The replica's fields follow ORIGIN_BEGIN, whoever sends it. */
  lemma {:induction false} FieldsFollow(e: Scenario, s: ReplicaState, m: OriginMsg)
    ensures var s' := ReplicaReply(e, s, m).0;
      Context(s'.protocol, PageLength(s')) == Accept(Context(s.protocol, PageLength(s)), m)
  {
    hide Emit, Listing, InitialRows, Put, Subdivision, Truncate, WritePage, KeepWal;
  }

  lemma {:induction false} ReplicaTurn(e: Scenario, input: seq<Byte>, msgs: seq<OriginMsg>, rest: seq<Byte>,
      s: ReplicaState, t: Traffic)
    requires ReplicaAt(e, input, msgs, rest, s, t)
    requires s.status.Running? && ParseOrigin(rest, PageLength(s)).Parsed?
    requires Answerable(ReplicaReply(e, s, ParseOrigin(rest, PageLength(s)).message).1)
    ensures var p := ParseOrigin(rest, PageLength(s)); var (s', out) := ReplicaReply(e, s, p.message);
      ReplicaAt(e, input, msgs + [p.message], rest[p.used..], s',
        Traffic(t.delivered + UpBytes(out), t.written + UpCounted(out), t.read + p.used))
  {
    hide ReplicaReply, OriginFits, OriginBytes, ParseOrigin, InPage, Accept, ReplicaPlays, ReplicaPlayed, Answerable,
      Sendable, AcceptAll, UpBytes, UpCounted, DownBytes, PageLength;
    var p := ParseOrigin(rest, PageLength(s));
    var m := p.message;
    OriginCanonical(rest, PageLength(s));
    DownBytesNext(Untold(e), msgs, m);
    FieldsFollow(e, s, m);
    ReplicaPlaysOn(e, msgs, m);
    UpBytesJoined(ReplicaPlayed(e, msgs).1, ReplicaReply(e, s, m).1);
    UpCountedAppend(ReplicaPlayed(e, msgs).1, ReplicaReply(e, s, m).1);
    assert rest == OriginBytes(m) + rest[p.used..];
    Regroup(DownBytes(msgs), OriginBytes(m), rest[p.used..]);
  }

  /** The role's traffic after a batch that could not be written out in full. */
  function BrokenOff(t: Traffic, more: seq<ReplicaMsg>, used: nat): Traffic {
    Traffic(t.delivered + UpBytes(Sayable(more)), t.written + UpCounted(Sayable(more)), t.read + used)
  }

  /** Whatever the replica writes while it runs on, it writes in the handlers that flush at their
      end; all else is an error message. */
  lemma {:induction false} ReplicaWritesFlushed(e: Scenario, s: ReplicaState, m: OriginMsg)
    requires s.status.Running?
    ensures var (s', out) := ReplicaReply(e, s, m);
      out == [] || EndsInRefusal(out) || ((m.OBegin? || m.OReady?) && s'.status.Running?)
  {
    hide Emit, Listing, InitialRows, Put, Subdivision, Truncate, WritePage, KeepWal, Refuses, OpenedPages;
  }

  /** One turn of the replica's loop, entered with an empty write buffer. It flushes only at the end
      of the handlers of ORIGIN_BEGIN and ORIGIN_READY, and with an error message; the buffer is
      empty all the same when it reads on. A batch that
      could not be written out ends the run. Behind a page number, page data is read only if there
      is a database to store it in. */
  method ReplicaTake(e: Scenario, w: Writer, r: Reader, replica: Replica, ghost input: seq<Byte>,
      ghost msgs: seq<OriginMsg>) returns (p: Parse<OriginMsg>, sent: bool)
    requires replica.e == e && replica.status.Running? && r.Valid()
    requires ReplicaAt(e, input, msgs, r.Rest(), replica.State(), TrafficOf(w, r))
    requires w.Valid() && w.pending == []
    modifies w, r, replica
    ensures w.Valid() && w.pending == [] && r.Valid()
    ensures p == ParseOrigin(old(r.Rest()), old(PageLength(replica.State())))
    ensures p.Parsed? ==>
      var (s', out) := ReplicaReply(e, old(replica.State()), p.message);
      && |r.Rest()| < |old(r.Rest())| && replica.State() == s' && sent == Answerable(out)
      && (sent ==> ReplicaAt(e, input, msgs + [p.message], r.Rest(), s', TrafficOf(w, r)))
      && (!sent ==> TrafficOf(w, r) == BrokenOff(old(TrafficOf(w, r)), out, p.used))
    ensures !p.Parsed? ==>
      && Parted(p, ReplicaError(), old(TrafficOf(w, r)), TrafficOf(w, r), |old(r.Rest())|)
      && replica.State() == old(replica.State())
  {
    hide ReplicaReply, ReplicaFits, ReplicaBytes, ParseOrigin, ReplicaAt, Answerable, Sayable, UpBytes, UpCounted;
    ghost var rest, before, t := r.Rest(), replica.State(), TrafficOf(w, r);
    assert w.Sent() == t.delivered;
    p := r.NextOrigin(if replica.sendHash.Some? then replica.pageSize else 0);
    sent := true;
    if p.Parsed? {
      var out := replica.Handle(p.message);
      ReplicaWritesFlushed(e, before, p.message);
      sent := SendReplies(w, out);
      if sent {
        ReplicaTurn(e, input, msgs, rest, before, t);
        if replica.status.Running? && (p.message.OBegin? || p.message.OReady?) {
          w.Flush();
        }
      }
      assert w.pending == [] && w.delivered == w.Sent();
    } else if p.Unknown? {
      ErrorFits();
      w.SendReplica(RError([]));
      assert w.delivered == w.Sent();
    }
  }

  /** The loop was left: by the replica's own state, because the input holds no further message, or
      because a number of the next batch does not fit. `committed` is then the database. */
  ghost predicate ReplicaLeft(e: Scenario, input: seq<Byte>, msgs: seq<OriginMsg>, status: Status,
      committed: seq<Page>, t: Traffic)
  {
    && Sendable(Untold(e), msgs) && DownBytes(msgs) <= input && ReplicaPlays(e, msgs)
    && var (s, out) := ReplicaPlayed(e, msgs);
    var rest := input[|DownBytes(msgs)|..];
    var next := ParseOrigin(rest, PageLength(s));
    && Answerable(out)
    && var answered := Traffic(UpBytes(out), UpCounted(out), |DownBytes(msgs)|);
    if !s.status.Running? then status == s.status && committed == s.committed && t == answered
    else if next.Parsed? then
      var (s', more) := ReplicaReply(e, s, next.message);
      && !Answerable(more)
      && status == Failed && committed == s'.committed && t == BrokenOff(answered, more, next.used)
    else
      && status == Departure(next) && committed == s.committed
      && Parted(next, ReplicaError(), answered, t, |rest|)
  }

  lemma {:induction false} ReplicaSeen(e: Scenario, input: seq<Byte>, msgs: seq<OriginMsg>, rest: seq<Byte>,
      s: ReplicaState, t: Traffic, t': Traffic)
    requires ReplicaAt(e, input, msgs, rest, s, t)
    ensures var p := ParseOrigin(rest, PageLength(s));
      s.status.Running? && !p.Parsed? && Parted(p, ReplicaError(), t, t', |rest|) ==>
      ReplicaLeft(e, input, msgs, Departure(p), s.committed, t')
    ensures var p := ParseOrigin(rest, PageLength(s)); s.status.Running? && p.Parsed? ==>
      var (s', more) := ReplicaReply(e, s, p.message);
      !Answerable(more) ==> ReplicaLeft(e, input, msgs, Failed, s'.committed, BrokenOff(t, more, p.used))
    ensures !s.status.Running? ==> ReplicaLeft(e, input, msgs, s.status, s.committed, t)
  {
    hide ReplicaPlays, ReplicaPlayed, ParseOrigin, ReplicaError, ReplicaReply, Answerable, Sayable, Sendable, BrokenOff,
      Parted, PageLength;
    assert input[|DownBytes(msgs)|..] == rest;
  }

  lemma {:induction false} ReplicaBegins(e: Scenario, input: seq<Byte>)
    ensures ReplicaAt(e, input, [], input, ReplicaStart(e), Traffic([], 0, 0))
  {
  }

  /** The replica's run on the bytes `input`, after which its peer is silent. */
  method ReplicaLoop(e: Scenario, input: seq<Byte>)
    returns (w: Writer, r: Reader, status: Status, committed: seq<Page>, ghost msgs: seq<OriginMsg>)
    ensures ReplicaLeft(e, input, msgs, status, committed, TrafficOf(w, r))
    ensures w.Valid() && w.pending == []
  {
    hide ReplicaReply, ReplicaAt, ReplicaLeft, ParseOrigin, Answerable, Sayable, ReplicaError, Parted, BrokenOff,
      PageLength;
    msgs := [];
    w := new Writer();
    r := new Reader(input);
    var replica := new Replica(e);
    ReplicaBegins(e, input);
    assert TrafficOf(w, r) == Traffic([], 0, 0);
    assert r.Rest() == input;
    while replica.status.Running?
      invariant fresh(w) && fresh(r) && fresh(replica) && replica.e == e
      invariant r.Valid() && ReplicaAt(e, input, msgs, r.Rest(), replica.State(), TrafficOf(w, r))
      invariant w.Valid() && w.pending == []
      decreases |r.Rest()|
    {
      ghost var rest, before, t := r.Rest(), replica.State(), TrafficOf(w, r);
      var p, sent := ReplicaTake(e, w, r, replica, input, msgs);
      if !p.Parsed? || !sent {
        ReplicaSeen(e, input, msgs, rest, before, t, TrafficOf(w, r));
        status := if p.Parsed? then Failed else Departure(p);
        committed := replica.committed;
        return;
      }
      msgs := msgs + [p.message];
    }
    ReplicaSeen(e, input, msgs, r.Rest(), replica.State(), TrafficOf(w, r), TrafficOf(w, r));
    status, committed := replica.status, replica.committed;
  }

  // ---------------------------------------------------------------- how the loops end

  /** The error frames, with their empty texts. */
  lemma {:induction false} ErrorFrames()
    ensures OriginError() == [0x43, 0, 0, 0, 0] && ReplicaError() == [0x62, 0, 0, 0, 0]
  {
    hide Uint32;
    SmallBytes();
    SmallNumber(0, 0, 0, 0);
  }

  /** Only the end message ends a role that still runs, and an error message fails it. */
  lemma {:induction false} EndsOnEnd(e: Scenario, s: ReplicaState, m: OriginMsg)
    requires s.status.Running?
    ensures ReplicaReply(e, s, m).0.status.Ended? <==> m.OEnd?
    ensures m.OError? ==> ReplicaReply(e, s, m).0.status.Failed?
    ensures m.OInfo? ==> ReplicaReply(e, s, m) == (s, [])
  {
    hide Emit, Listing, InitialRows, Put, Subdivision, Truncate, WritePage, KeepWal, Refuses, OpenedPages;
  }

  lemma {:induction false} EndsOnReplicaEnd(e: Scenario, s: OriginState, m: ReplicaMsg, order: seq<nat>)
    requires 1 <= e.pageSize && OrderFor(e, s, m, order) && s.status.Running?
    ensures OriginReply(e, s, m, order).0.status.Ended? <==> m.REnd?
    ensures m.RError? ==> OriginReply(e, s, m, order).0.status.Failed?
    ensures m.RInfo? ==> OriginReply(e, s, m, order) == (s, [])
    ensures m.RBegin? ==> (OriginReply(e, s, m, order).0.status.Failed? <==> s.protocol <= m.protocol)
  {
    hide Swept, Multi, Singles, Matches, GapFits, StreamedPages;
  }

  /** On any input the replica's loop ends without an error exactly if the last message it took is
      ORIGIN_END, or it is still running and its input ends with the last whole message. */
  lemma {:induction false} ReplicaEndsIff(e: Scenario, input: seq<Byte>, msgs: seq<OriginMsg>, status: Status,
      committed: seq<Page>, t: Traffic)
    requires ReplicaLeft(e, input, msgs, status, committed, t)
    ensures ReplicaPlays(e, msgs)
    ensures status == Ended <==>
      || (msgs != [] && msgs[|msgs| - 1] == OEnd)
      || (ReplicaPlayed(e, msgs).0.status.Running? && input == DownBytes(msgs))
  {
    hide ReplicaReply, ParseOrigin, Answerable, Sendable, Parted, BrokenOff, DownBytes;
    if msgs != [] {
      EndsOnEnd(e, ReplicaPlayed(e, msgs[..|msgs| - 1]).0, msgs[|msgs| - 1]);
    }
    var rest := input[|DownBytes(msgs)|..];
    assert input == DownBytes(msgs) + rest;
    ClosedIffEmpty(rest, PageLength(ReplicaPlayed(e, msgs).0));
  }

  lemma {:induction false} ClosedIffEmpty(input: seq<Byte>, pageSize: nat)
    ensures ParseOrigin(input, pageSize).Closed? <==> input == []
    ensures ParseReplica(input).Closed? <==> input == []
  {
  }

  /** And so does the origin's loop, with REPLICA_END. */
  lemma {:induction false} OriginEndsIff(e: Scenario, input: seq<Byte>, msgs: seq<ReplicaMsg>, orders: seq<seq<nat>>,
      status: Status, t: Traffic)
    requires 1 <= e.pageSize && OriginLeft(e, input, msgs, orders, status, t)
    ensures OriginPlays(e, msgs, orders)
    ensures status == Ended <==>
      || (msgs != [] && msgs[|msgs| - 1] == REnd)
      || (OriginPlayed(e, msgs, orders).0.status.Running? && input == UpBytes(msgs))
  {
    hide OriginReply, OrderFor, ParseReplica, Answerable, Writable, Parted, UpBytes, DownBytes, DownCounted;
    if msgs != [] {
      var k := |msgs| - 1;
      EndsOnReplicaEnd(e, OriginPlayed(e, msgs[..k], orders[..k]).0, msgs[k], orders[k]);
    }
    var rest := input[|UpBytes(msgs)|..];
    assert input == UpBytes(msgs) + rest;
    ClosedIffEmpty(rest, 0);
  }

  // ---------------------------------------------------------------- the crash

  /** The last ORIGIN_BEGIN among the messages was accepted: there is one, and its version is not
      newer than the replica's at that time. */
  function DatabaseOpen(e: Scenario, msgs: seq<OriginMsg>): bool
    decreases |msgs|
  {
    if msgs == [] then false
    else
      var before, m := msgs[..|msgs| - 1], msgs[|msgs| - 1];
      if m.OBegin? then m.protocol <= AcceptAll(Untold(e), before).protocol else DatabaseOpen(e, before)
  }

  lemma {:induction false} OpenAfter(e: Scenario, msgs: seq<OriginMsg>)
    requires ReplicaPlays(e, msgs)
    ensures var s := ReplicaPlayed(e, msgs).0;
      && (s.sendHash.Some? <==> DatabaseOpen(e, msgs))
      && AcceptAll(Untold(e), msgs) == Context(s.protocol, PageLength(s))
    decreases |msgs|
  {
    hide ReplicaReply, Accept;
    if msgs != [] {
      var before, m := msgs[..|msgs| - 1], msgs[|msgs| - 1];
      OpenAfter(e, before);
      FieldsFollow(e, ReplicaPlayed(e, before).0, m);
      OpensOn(e, ReplicaPlayed(e, before).0, m);
      assert msgs == before + [m];
      AcceptAllAppend(Untold(e), before, [m]);
      AcceptOne(AcceptAll(Untold(e), before), m);
    }
  }

  lemma {:induction false} AcceptOne(c: Context, m: OriginMsg)
    ensures AcceptAll(c, [m]) == Accept(c, m)
  {
    assert [m][1..] == [];
  }

  lemma {:induction false} OpensOn(e: Scenario, s: ReplicaState, m: OriginMsg)
    requires s.status.Running?
    ensures var s' := ReplicaReply(e, s, m).0;
      s'.sendHash.Some? <==> if m.OBegin? then m.protocol <= s.protocol else s.sendHash.Some?
    ensures ReplicaReply(e, s, m).0.status.Crashed? <==> NeedsDatabase(m) && s.sendHash.None?
  {
    hide Emit, Listing, InitialRows, Put, Subdivision, Truncate, WritePage, KeepWal;
  }

  /** The replica crashes exactly when ORIGIN_DETAIL, ORIGIN_READY, ORIGIN_TXN or ORIGIN_PAGE comes
      although the last ORIGIN_BEGIN, if there was any, was not accepted. */
  lemma {:induction false} CrashesIff(e: Scenario, msgs: seq<OriginMsg>)
    requires ReplicaPlays(e, msgs)
    ensures ReplicaPlayed(e, msgs).0.status.Crashed? <==>
      msgs != [] && NeedsDatabase(msgs[|msgs| - 1]) && !DatabaseOpen(e, msgs[..|msgs| - 1])
  {
    hide ReplicaReply;
    if msgs != [] {
      var before := msgs[..|msgs| - 1];
      OpenAfter(e, before);
      OpensOn(e, ReplicaPlayed(e, before).0, msgs[|msgs| - 1]);
    }
  }

  /** The loop takes messages off the front of what its input holds. */
  lemma {:induction false} TakenInOrder(c: Context, msgs: seq<OriginMsg>, rest: seq<Byte>)
    requires Sendable(c, msgs)
    ensures ParseDown(c, DownBytes(msgs) + rest) == msgs + ParseDown(AcceptAll(c, msgs), rest)
    decreases |msgs|
  {
    hide OriginFits, OriginBytes, ParseOrigin, InPage, Accept;
    if msgs == [] {
      assert DownBytes(msgs) + rest == rest;
    } else {
      var m, tail := msgs[0], DownBytes(msgs[1..]) + rest;
      Regroup(OriginBytes(m), DownBytes(msgs[1..]), rest);
      TakeOne(c, m, tail);
      TakenInOrder(Accept(c, m), msgs[1..], rest);
      hide ParseDown, DownBytes, AcceptAll;
      var more := ParseDown(AcceptAll(Accept(c, m), msgs[1..]), rest);
      assert [m] + (msgs[1..] + more) == msgs + more;
    }
  }

  lemma {:induction false} TakeOne(c: Context, m: OriginMsg, tail: seq<Byte>)
    requires OriginFits(m) && InPage(m, c.pageSize)
    ensures ParseDown(c, OriginBytes(m) + tail) == [m] + ParseDown(Accept(c, m), tail)
  {
    hide OriginFits, OriginBytes, ParseOrigin, InPage, Accept;
    OriginInverse(m, c.pageSize, tail);
    assert (OriginBytes(m) + tail)[|OriginBytes(m)|..] == tail;
  }

  /** What the loop took is the beginning of what its input holds; if it holds more, then the next
      message was there to be taken. */
  lemma {:induction false} TakenOf(e: Scenario, input: seq<Byte>, msgs: seq<OriginMsg>, status: Status,
      committed: seq<Page>, t: Traffic)
    requires ReplicaLeft(e, input, msgs, status, committed, t)
    ensures msgs <= ParseDown(Untold(e), input)
    ensures |msgs| < |ParseDown(Untold(e), input)| ==>
      var p := ParseOrigin(input[|DownBytes(msgs)|..], PageLength(ReplicaPlayed(e, msgs).0));
      p.Parsed? && p.message == ParseDown(Untold(e), input)[|msgs|]
  {
    hide ParseOrigin, Sendable, Answerable, ReplicaPlays, ReplicaPlayed, ReplicaReply, Parted, BrokenOff, PageLength;
    var rest := input[|DownBytes(msgs)|..];
    assert input == DownBytes(msgs) + rest;
    TakenInOrder(Untold(e), msgs, rest);
    OpenAfter(e, msgs);
  }

  /** Message `j` of an input crashes the replica: it is still running then, could write out all its
      replies, and has no database for this message. */
  ghost predicate CrashesAt(e: Scenario, all: seq<OriginMsg>, j: nat) {
    && j < |all|
    && ReplicaPlays(e, all[..j]) && ReplicaPlayed(e, all[..j]).0.status.Running?
    && Answerable(ReplicaPlayed(e, all[..j]).1)
    && NeedsDatabase(all[j]) && !DatabaseOpen(e, all[..j])
  }

  /** On any bytes, the loop crashes exactly if some message they hold finds the replica running
      without a database that this message needs: it is ORIGIN_DETAIL, ORIGIN_READY, ORIGIN_TXN or
      ORIGIN_PAGE, and the last ORIGIN_BEGIN before it, if any, was not accepted. That message is the
      last one taken, and it is answered by nothing. */
  lemma {:induction false} LoopCrashesIff(e: Scenario, input: seq<Byte>, msgs: seq<OriginMsg>, status: Status,
      committed: seq<Page>, t: Traffic)
    requires ReplicaLeft(e, input, msgs, status, committed, t)
    ensures msgs <= ParseDown(Untold(e), input)
    ensures status == Crashed <==> exists j: nat :: CrashesAt(e, ParseDown(Untold(e), input), j)
    ensures forall j: nat :: CrashesAt(e, ParseDown(Untold(e), input), j) ==>
      && |msgs| == j + 1
      && t.delivered == UpBytes(ReplicaPlayed(e, ParseDown(Untold(e), input)[..j]).1)
  {
    hide ReplicaReply, ParseOrigin, Answerable, Sendable, Parted, BrokenOff, ReplicaLeft, ReplicaPlays, ReplicaPlayed,
      ParseDown, DatabaseOpen;
    var all := ParseDown(Untold(e), input);
    TakenOf(e, input, msgs, status, committed, t);
    if status == Crashed {
      CrashTaken(e, input, msgs, status, committed, t);
      assert all[..|msgs| - 1] == msgs[..|msgs| - 1];
      assert CrashesAt(e, all, |msgs| - 1);
    }
    forall j: nat | CrashesAt(e, all, j)
      ensures status == Crashed && |msgs| == j + 1 && t.delivered == UpBytes(ReplicaPlayed(e, all[..j]).1)
    {
      CrashReached(e, input, msgs, status, committed, t, j);
      CrashTaken(e, input, msgs, status, committed, t);
      assert all[..j] == msgs[..|msgs| - 1];
    }
  }

  /** The loop crashes exactly if the last message it took needed a database and had none. */
  lemma {:induction false} CrashTaken(e: Scenario, input: seq<Byte>, msgs: seq<OriginMsg>, status: Status,
      committed: seq<Page>, t: Traffic)
    requires ReplicaLeft(e, input, msgs, status, committed, t)
    ensures ReplicaPlays(e, msgs)
    ensures status == Crashed <==>
      msgs != [] && NeedsDatabase(msgs[|msgs| - 1]) && !DatabaseOpen(e, msgs[..|msgs| - 1])
    ensures status == Crashed ==>
      && ReplicaPlays(e, msgs[..|msgs| - 1]) && ReplicaPlayed(e, msgs[..|msgs| - 1]).0.status.Running?
      && var out := ReplicaPlayed(e, msgs[..|msgs| - 1]).1; Answerable(out) && t.delivered == UpBytes(out)
  {
    hide ReplicaReply, ParseOrigin, Answerable, Sendable, Parted, BrokenOff;
    CrashesIff(e, msgs);
    if status == Crashed {
      var before := msgs[..|msgs| - 1];
      OpenAfter(e, before);
      CrashIsSilent(e, ReplicaPlayed(e, before).0, msgs[|msgs| - 1]);
      assert ReplicaPlayed(e, msgs).1 == ReplicaPlayed(e, before).1 + [] == ReplicaPlayed(e, before).1;
    }
  }

  /** The loop gets to a message that crashes it, and no further. */
  lemma {:induction false} CrashReached(e: Scenario, input: seq<Byte>, msgs: seq<OriginMsg>, status: Status,
      committed: seq<Page>, t: Traffic, j: nat)
    requires ReplicaLeft(e, input, msgs, status, committed, t)
    requires CrashesAt(e, ParseDown(Untold(e), input), j)
    ensures |msgs| == j + 1
  {
    hide ReplicaReply, ParseOrigin, Answerable, Sendable, Parted, BrokenOff, ParseDown, ReplicaPlays, ReplicaPlayed,
      DatabaseOpen;
    var all := ParseDown(Untold(e), input);
    TakenOf(e, input, msgs, status, committed, t);
    var k := |msgs|;
    assert msgs == all[..k];
    if k < j {
      NextReplyIncluded(e, all[..j], k);
      assert all[..j][..k] == msgs && all[..j][k] == all[k];
      PlayedPrefix(e, all[..j], k);
    } else if k == j {
      OpenAfter(e, msgs);
      CrashIsSilent(e, ReplicaPlayed(e, msgs).0, all[k]);
      NoneAnswerable();
    } else if j + 1 < k {
      PlayedPrefix(e, msgs, j + 1);
      assert msgs[..j + 1] == all[..j + 1] && all[..j + 1][..j] == all[..j] && all[..j + 1][j] == all[j];
      CrashesIff(e, all[..j + 1]);
    }
  }

  lemma {:induction false} NoneAnswerable()
    ensures Answerable([])
  {
  }

  lemma {:induction false} CrashIsSilent(e: Scenario, s: ReplicaState, m: OriginMsg)
    requires NeedsDatabase(m) && s.sendHash.None?
    ensures ReplicaReply(e, s, m) == (Leave(s, Crashed), [])
  {
  }

  /** A single ORIGIN_READY byte crashes the replica: it leaves without an answer. */
  lemma {:induction false} ReadyAloneCrashes(e: Scenario, msgs: seq<OriginMsg>, status: Status, committed: seq<Page>,
      t: Traffic)
    requires ReplicaLeft(e, [0x48], msgs, status, committed, t)
    ensures msgs == [OReady] && status == Crashed && t == Traffic([], 0, 1) && committed == e.replica
  {
    hide ReplicaReply, ParseOrigin, UpBytes, UpCounted;
    ReadyByte();
    CrashIsSilent(e, ReplicaStart(e), OReady);
    assert [0x48][0..] == [0x48];
    assert [OReady][..0] == [] && [OReady][1..] == [];
    if msgs != [] {
      OneByte(msgs);
    }
  }

  lemma {:induction false} ReadyByte()
    ensures ParseOrigin([0x48], 0) == Parsed(OReady, 1)
    ensures UpBytes([]) == [] && UpCounted([]) == 0
  {
  }

  lemma {:induction false} OneByte(msgs: seq<OriginMsg>)
    requires Writable(msgs) && msgs != [] && DownBytes(msgs) <= [0x48]
    ensures msgs == [OReady]
  {
    var first, rest := OriginBytes(msgs[0]), DownBytes(msgs[1..]);
    assert |first| == 1 && first[0] == 0x48 && rest == [];
    NoBytes(msgs[1..]);
  }

  lemma {:induction false} NoBytes(msgs: seq<OriginMsg>)
    requires Writable(msgs) && DownBytes(msgs) == []
    ensures msgs == []
  {
  }
}
