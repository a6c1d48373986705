/** The two roles joined by two FIFO streams, and all runs of the pair. */
module Conversation {
  import opened Ranges
  import opened Protocol

  /** Everything a role has written to its stream. The first `shown` messages have left the write
      buffer, the first `read` have been taken by the peer. The role's last flush has to pass on the
      first `due` messages; what was written after it may stay in the buffer. */
  datatype Stream<T> = Stream(sent: seq<T>, due: nat, shown: nat, read: nat) {
    predicate Ok() {
      read <= shown <= |sent|
    }

    /** Nothing that was flushed is still in the buffer. */
    predicate FlushDone() {
      due <= shown
    }

    predicate Drained() {
      read == |sent|
    }

    /** What the peer still has to take, buffered or not. */
    function Unread(): seq<T> {
      if read <= |sent| then sent[read..] else []
    }

    /** Messages written, and flushed. */
    function Append(out: seq<T>): Stream<T> {
      this.(sent := sent + out, due := |sent + out|)
    }

    function Write(out: seq<T>, flush: bool): Stream<T> {
      if flush then Append(out) else this.(sent := sent + out)
    }
  }

  /** `hashed` and `checked` are observations only: the rows the replica hashed, and the ranges
      the origin took the received hashes to be about. */
  datatype System = System(
    o: OriginState,
    r: ReplicaState,
    down: Stream<OriginMsg>,
    up: Stream<ReplicaMsg>,
    hashed: seq<Row>,
    checked: seq<Row>)

  /** A role handles a message, a write buffer passes `n` messages on to the connection (a spill
      or a flush), or a role finds its stream closed because the peer has left. */
  datatype Step =
    | OriginReads(order: seq<nat>)
    | ReplicaReads
    | OriginShows(n: nat)
    | ReplicaShows(n: nat)
    | OriginSeesClose
    | ReplicaSeesClose

  function Start(e: Scenario): System {
    System(OriginStart(e), ReplicaStart(e), Stream([Hello(e, e.originProtocol)], 1, 0, 0), Stream([], 0, 0, 0), [], [])
  }

  /** A role goes on reading when its last flush is done. A write buffer that is full may pass on
      any part of what it holds at any time. */
  ghost predicate Enabled(e: Scenario, s: System, step: Step)
    requires 1 <= e.pageSize
  {
    && s.down.Ok() && s.up.Ok()
    && match step
       case OriginReads(order) =>
         s.o.status.Running? && s.down.FlushDone() && s.up.read < s.up.shown
         && OrderFor(e, s.o, s.up.sent[s.up.read], order)
       case ReplicaReads =>
         s.r.status.Running? && s.up.FlushDone() && s.down.read < s.down.shown
       case OriginShows(n) => s.down.shown < n <= |s.down.sent|
       case ReplicaShows(n) => s.up.shown < n <= |s.up.sent|
       case OriginSeesClose =>
         s.o.status.Running? && s.down.FlushDone() && !s.r.status.Running? && s.up.Drained()
       case ReplicaSeesClose =>
         s.r.status.Running? && s.up.FlushDone() && !s.o.status.Running? && s.down.Drained()
  }

  ghost function Apply(e: Scenario, s: System, step: Step): System
    requires 1 <= e.pageSize
    requires Enabled(e, s, step)
  {
    match step
    case OriginReads(order) =>
      var m := s.up.sent[s.up.read];
      var (o, out) := OriginReply(e, s.o, m, order);
      s.(o := o, down := s.down.Write(out, OriginFlushes(m, out)), up := s.up.(read := s.up.read + 1),
         checked := if m.RHash? then s.checked + [Row(s.o.iHash, s.o.nHash)] else s.checked)
    case ReplicaReads =>
      var m := s.down.sent[s.down.read];
      var (r, out) := ReplicaReply(e, s.r, m);
      s.(r := r, up := s.up.Write(out, ReplicaFlushes(m, out)), down := s.down.(read := s.down.read + 1),
         hashed := s.hashed + RowsHashedBy(e, s.r, m))
    case OriginShows(n) => s.(down := s.down.(shown := n))
    case ReplicaShows(n) => s.(up := s.up.(shown := n))
    case OriginSeesClose => s.(o := s.o.(status := Ended))
    case ReplicaSeesClose => s.(r := Leave(s.r, Ended))
  }

  /** The steps can be taken one after the other from the start. */
  ghost predicate Run(e: Scenario, steps: seq<Step>)
    requires 1 <= e.pageSize
    decreases |steps|, 0
  {
    steps == [] ||
    var before := steps[..|steps| - 1];
    Run(e, before) && Enabled(e, After(e, before), steps[|steps| - 1])
  }

  /** The state a run leads to. */
  ghost function After(e: Scenario, steps: seq<Step>): System
    requires 1 <= e.pageSize
    requires Run(e, steps)
    decreases |steps|, 1
  {
    if steps == [] then Start(e)
    else Apply(e, After(e, steps[..|steps| - 1]), steps[|steps| - 1])
  }

  /** Both roles have left. */
  predicate Over(s: System) {
    !s.o.status.Running? && !s.r.status.Running?
  }
}
