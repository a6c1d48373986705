/** The origin's message loop, one method per message, over the state that `originSide` keeps in
    local variables, in the run's counters and in its temporary table. */
module OriginSide {
  import opened Prelude
  import opened Ranges
  import opened Database
  import opened PageHash
  import opened Protocol

  class Origin {
    const e: Scenario
    var protocol: nat
    var iHash: nat
    var nHash: nat
    var mxHash: nat
    var badHash: Option<Table>
    var hashMessages: nat
    var hashRounds: nat
    var pageUpdates: nat
    var status: Status

    ghost function State(): OriginState
      reads this
    {
      OriginState(protocol, iHash, nHash, mxHash, badHash, hashMessages, hashRounds, pageUpdates, status)
    }

    /** Opens the run and greets the replica. */
    constructor (e: Scenario)
      ensures this.e == e && State() == OriginStart(e)
    {
      this.e := e;
      protocol := e.originProtocol;
      iHash, nHash, mxHash := 1, 1, 0;
      badHash := None;
      hashMessages, hashRounds, pageUpdates := 0, 0, 0;
      status := Running;
    }

    method OnBegin(newProtocol: nat) returns (out: seq<OriginMsg>)
      modifies this
      ensures (State(), out) == OriginOnBegin(e, old(State()), newProtocol)
    {
      if newProtocol < protocol {
        protocol := newProtocol;
        out := [OBegin(protocol, e.pageSize, |e.origin|)];
      } else {
        status := Failed;
        out := [OError([])];
      }
    }

    method OnConfig(fpg: nat, npg: nat)
      modifies this
      ensures State() == old(State()).(iHash := fpg, nHash := npg)
    {
      iHash := fpg;
      nHash := npg;
    }

    method OnHash(received: Digest) returns (out: seq<OriginMsg>)
      modifies this
      ensures (State(), out) == OriginOnHash(e, old(State()), received)
    {
      out := [];
      if badHash.None? {
        badHash := Some(map[]);
      }
      hashMessages := hashMessages + 1;
      var bMatch := Matches(e.hash, e.origin, iHash, nHash, received);
      if !bMatch {
        if iHash in badHash.value {
          status := Failed;
          out := [OError([])];
          return;
        }
        badHash := Some(badHash.value[iHash := nHash]);
      }
      if Add32(iHash, nHash) > mxHash {
        mxHash := Add32(iHash, nHash);
      }
      iHash := Add32(iHash, nHash);
    }

    /** The cursor over the multi-page entries: one ORIGIN_DETAIL per row, in the order in which the
        rows come. */
    method WriteDetails(t: Table) returns (out: seq<OriginMsg>, ghost order: seq<nat>)
      ensures Enumerates(order, Multi(t).Keys)
      ensures forall i :: 0 <= i < |order| ==> order[i] in t
      ensures out == Details(DetailRows(t, order))
      ensures forall k, n :: ODetail(k, n) in out <==> k in t && t[k] == n && n > 1
    {
      out, order := [], [];
      var multi := Multi(t);
      var rest := multi.Keys;
      while rest != {}
        invariant Distinct(order)
        invariant Elements(order) !! rest && Elements(order) + rest == multi.Keys
        invariant forall i :: 0 <= i < |order| ==> order[i] in t
        invariant out == Details(DetailRows(t, order))
        decreases rest
      {
        var k :| k in rest;
        assert k !in Elements(order);
        out := out + [ODetail(k, t[k])];
        order := order + [k];
        rest := rest - {k};
      }
      forall k, n ensures ODetail(k, n) in out <==> k in t && t[k] == n && n > 1 {
        assert k in Multi(t) <==> k in Elements(order);
        if k in order {
          var i :| 0 <= i < |order| && order[i] == k;
          assert out[i] == ODetail(k, t[k]);
        }
      }
    }

    /** INSERT INTO badHash of the pages from mxHash to the origin's last one, all or none. */
    method FillGap(t: Table) returns (ok: bool, filled: Table)
      ensures ok == GapFits(t, mxHash, |e.origin|)
      ensures ok ==> filled == t + Gap(mxHash, |e.origin|)
    {
      ok, filled := true, t;
      var n := mxHash;
      while n <= |e.origin|
        invariant mxHash <= n
        invariant n <= |e.origin| + 1 || n == mxHash
        invariant forall k :: mxHash <= k < n ==> k !in t
        invariant forall k :: k in filled <==> k in t || mxHash <= k < n
        invariant forall k :: k in filled ==> filled[k] == if k in t then t[k] else 1
      {
        if n in t {
          ok := false;
          return;
        }
        filled := filled[n := 1];
        n := n + 1;
      }
      assert filled == t + Gap(mxHash, |e.origin|);
    }

    /** The cursor over the join of `badHash` with the origin's pages. */
    method WritePages(t: Table) returns (out: seq<OriginMsg>, ghost order: seq<nat>)
      modifies this`pageUpdates
      ensures Enumerates(order, StreamedPages(e, t))
      ensures forall i :: 0 <= i < |order| ==> Exists(e.origin, order[i])
      ensures out == PageMessages(e, order)
      ensures pageUpdates == old(pageUpdates) + |order|
    {
      out, order := [], [];
      var rest := StreamedPages(e, t);
      while rest != {}
        invariant Distinct(order)
        invariant Elements(order) !! rest && Elements(order) + rest == StreamedPages(e, t)
        invariant forall i :: 0 <= i < |order| ==> Exists(e.origin, order[i])
        invariant out == PageMessages(e, order)
        invariant pageUpdates == old(pageUpdates) + |order|
        decreases rest
      {
        var k :| k in rest;
        assert k !in Elements(order);
        pageUpdates := pageUpdates + 1;
        out := out + [OPage(k, e.origin[k - 1])];
        order := order + [k];
        rest := rest - {k};
      }
    }

    method OnReady() returns (out: seq<OriginMsg>, ghost order: seq<nat>)
      requires 1 <= e.pageSize
      modifies this
      ensures OrderFor(e, old(State()), RReady, order)
      ensures (State(), out) == OriginOnReady(e, old(State()), order)
    {
      order := [];
      hashRounds := hashRounds + 1;
      if badHash.None? {
        status := Failed;
        out := [OError([])];
        return;
      }
      var t := badHash.value;
      out, order := WriteDetails(t);
      if Multi(t) != map[] {
        badHash := Some(Singles(t));
        out := out + [OReady];
      } else {
        var ok, filled := FillGap(t);
        if !ok {
          status := Failed;
          out := [OError([])];
          return;
        }
        var swept := filled - {LockBytePage(e.pageSize)};
        out, order := WritePages(swept);
        badHash := Some(swept);
        out := out + [OTxn(|e.origin|), OEnd];
      }
    }

    /** One turn of the message loop. */
    method Handle(m: ReplicaMsg) returns (out: seq<OriginMsg>, ghost order: seq<nat>)
      requires 1 <= e.pageSize
      modifies this
      ensures OrderFor(e, old(State()), m, order)
      ensures (State(), out) == OriginReply(e, old(State()), m, order)
    {
      out, order := [], [];
      match m
      case RBegin(newProtocol) => out := OnBegin(newProtocol);
      case RConfig(fpg, npg) => OnConfig(fpg, npg);
      case RHash(digest) => out := OnHash(digest);
      case RReady => out, order := OnReady();
      case REnd => status := Ended;
      case RError(_) => status := Failed;
      case RInfo(_) =>
    }
  }
}
