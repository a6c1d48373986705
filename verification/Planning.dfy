/** How the set of ranges in question changes: a range is accepted, rejected or cut up. */
module Planning {
  import opened Prelude
  import opened Ranges
  import opened PageHash
  import opened Protocol
  import opened Invariant

  /** A rejected range moves to the bad ones. */
  lemma {:induction false} Reject(e: Scenario, bad: set<Row>, pending: set<Row>, a: Row)
    requires Planned(e, bad, pending) && a in pending && Faulty(e, a)
    ensures Planned(e, bad + {a}, pending - {a})
  {
    assert (bad + {a}) + (pending - {a}) == bad + pending;
  }

  /** An accepted range is settled. */
  lemma {:induction false} Accept(e: Scenario, bad: set<Row>, pending: set<Row>, a: Row)
    requires Planned(e, bad, pending) && a in pending
    requires NoCollisions(e) ==> forall p :: a.Has(p) ==> Alike(e, p)
    ensures Planned(e, bad, pending - {a})
  {
    var before, after := bad + pending, bad + (pending - {a});
    if NoCollisions(e) {
      forall p | 1 <= p <= |Base(e)| && !Open(after, p) ensures Alike(e, p) {
        if Open(before, p) {
          var b :| b in before && b.Has(p);
          assert b == a;
        }
      }
    }
  }

  /** In a set of disjoint ranges, one can be replaced by rows that tile it. */
  lemma {:induction false} ReplaceByTiles(all: set<Row>, a: Row, rows: seq<Row>, last: nat)
    requires Separate(all) && Within(all, last)
    requires a in all && Tiles(rows, a.fpg, a.End())
    ensures Separate((all - {a}) + Elements(rows)) && Within((all - {a}) + Elements(rows), last)
    ensures (all - {a}) !! Elements(rows)
    ensures forall p :: Open((all - {a}) + Elements(rows), p) <==> Open(all, p)
  {
    TilesMeaning(rows, a.fpg, a.End());
    AscendingSeparate(rows);
    var after := (all - {a}) + Elements(rows);
    assert forall b :: b in rows ==> a.fpg <= b.fpg && b.End() <= a.End() && 1 <= b.npg;
    forall b, c | b in rows && c in all - {a} ensures Apart(b, c) && b != c {
      assert Apart(a, c);
    }
    forall b, c | b in after && c in after && b != c ensures Apart(b, c) {
      if c in rows && b !in rows {
        assert Apart(c, b);
      }
    }
    forall p ensures Open(after, p) <==> Open(all, p) {
      OpenAfterTiling(all, a, rows, p);
    }
  }

  lemma {:induction false} OpenAfterTiling(all: set<Row>, a: Row, rows: seq<Row>, p: nat)
    requires a in all
    requires forall q: nat :: Covered(rows, q) <==> a.fpg <= q < a.End()
    ensures Open((all - {a}) + Elements(rows), p) <==> Open(all, p)
  {
    var after := (all - {a}) + Elements(rows);
    if Open(all, p) {
      var b :| b in all && b.Has(p);
      if b == a {
        assert Covered(rows, p);
        var i :| 0 <= i < |rows| && rows[i].Has(p);
        assert rows[i] in after;
      } else {
        assert b in after;
      }
    }
    if Open(after, p) {
      var b :| b in after && b.Has(p);
      if b in rows {
        var i :| 0 <= i < |rows| && rows[i] == b;
        assert Covered(rows, p);
        assert a.Has(p);
      }
    }
  }

  /** A pending range gives way to rows that tile it. */
  lemma {:induction false} Refine(e: Scenario, bad: set<Row>, kept: set<Row>, pending: set<Row>, a: Row, rows: seq<Row>)
    requires Planned(e, bad, kept + pending) && kept !! pending
    requires a in pending && Tiles(rows, a.fpg, a.End())
    ensures Planned(e, bad, (kept + Elements(rows)) + (pending - {a}))
    ensures (kept + Elements(rows)) !! (pending - {a})
  {
    var all := bad + (kept + pending);
    ReplaceByTiles(all, a, rows, |Base(e)|);
    assert bad + ((kept + Elements(rows)) + (pending - {a})) == (all - {a}) + Elements(rows);
  }

  /** Some of the bad ranges are put in question again. */
  lemma {:induction false} Reopen(e: Scenario, bad: set<Row>, kept: set<Row>, reopened: set<Row>)
    requires Planned(e, bad, {})
    requires bad == kept + reopened && kept !! reopened
    ensures Planned(e, kept, reopened)
  {
    assert kept + reopened == bad + {};
  }

  /** A pending range's first page is not a key of the bad ones: the INSERT succeeds. */
  lemma {:induction false} FreshKey(e: Scenario, t: Table, pending: set<Row>, a: Row)
    requires Planned(e, TableRows(t), pending) && a in pending
    ensures a.fpg !in t
    ensures TableRows(t[a.fpg := a.npg]) == TableRows(t) + {a}
  {
    var all := TableRows(t) + pending;
    assert a in all;
    forall k | k in t ensures k != a.fpg {
      var b := Row(k, t[k]);
      assert b in TableRows(t) && b in all;
      assert Apart(a, b);
    }
  }

  /** Disjoint ranges with a faulty page each number no more than the faulty pages. */
  lemma {:induction false} FaultsBound(e: Scenario, rows: set<Row>)
    requires Separate(rows) && Within(rows, |Base(e)|)
    requires forall a :: a in rows ==> Faulty(e, a)
    ensures |rows| <= |Faults(e)|
  {
    var witness_ := map a | a in rows :: FaultyPage(e, a);
    forall a | a in rows ensures witness_[a] in Faults(e) {
    }
    forall a, b | a in rows && b in rows && a != b ensures witness_[a] != witness_[b] {
      assert Apart(a, b);
      assert a.Has(witness_[a]) && b.Has(witness_[b]);
    }
    InjectionBound(rows, Faults(e), witness_);
  }

  ghost function FaultyPage(e: Scenario, a: Row): (p: nat)
    requires Faulty(e, a)
    ensures a.Has(p) && !Alike(e, p)
  {
    var p :| a.Has(p) && !Alike(e, p);
    p
  }

  /** There are at most as many disjoint ranges as pages. */
  lemma {:induction false} RowsBound(rows: set<Row>, last: nat)
    requires Separate(rows) && Within(rows, last)
    ensures |rows| <= last
  {
    var starts := set a | a in rows :: a.fpg;
    var first := map a | a in rows :: a.fpg;
    forall a, b | a in rows && b in rows && a != b ensures first[a] != first[b] {
      assert Apart(a, b);
    }
    InjectionBound(rows, starts, first);
    IntervalCardinality(1, last + 1, starts);
  }

  lemma {:induction false} SubsetSeparate(rows: set<Row>, all: set<Row>, last: nat)
    requires rows <= all && Separate(all) && Within(all, last)
    ensures Separate(rows) && Within(rows, last)
  {
  }

  /** The origin's verdict on a pending row: accepted only if, barring collisions, all its pages
      are equal; rejected only if one of them is not. */
  lemma {:induction false} Verdict(e: Scenario, a: Row)
    requires 1 <= a.fpg && 1 <= a.npg && a.End() <= |Base(e)| + 1
    ensures RowHash(e.hash, Base(e), a.fpg, a.npg).Some?
    ensures var h := RowHash(e.hash, Base(e), a.fpg, a.npg).value;
      if Matches(e.hash, e.origin, a.fpg, a.npg, h)
      then NoCollisions(e) ==> forall p :: a.Has(p) ==> Alike(e, p)
      else Faulty(e, a)
  {
    RowHashExists(e.hash, Base(e), a.fpg, a.npg);
    var h := RowHash(e.hash, Base(e), a.fpg, a.npg).value;
    forall p | a.Has(p) ensures Same(e.origin, Base(e), p) <==> Alike(e, p) {
    }
    if Matches(e.hash, e.origin, a.fpg, a.npg, h) {
      if NoCollisions(e) {
        RangeCheck(e.hash, e.origin, Base(e), a.fpg, a.npg);
      }
    } else if !Faulty(e, a) {
      EqualRangeMatches(e.hash, e.origin, Base(e), a.fpg, a.npg);
    }
  }

  /** The rows of the first batch tile the replica's pages. */
  lemma {:induction false} InitialRowsTile(protocol: nat, pages: nat)
    requires 1 <= pages
    ensures Tiles(InitialRows(protocol, pages), 1, pages + 1)
    ensures InitialRows(protocol, pages) != [] && InitialRows(protocol, pages)[0] == Row(1, 1)
    ensures NoLonger(Elements(InitialRows(protocol, pages)),
      if protocol < 2 || pages <= 100 then 1 else if pages <= 1001 then 30 else 1000)
  {
    var rows := InitialRows(protocol, pages);
    if protocol < 2 || pages <= 100 {
      ChunksTile(1, pages + 1, 1);
    } else {
      SubdivisionTiles(2, pages - 1);
      assert rows[1..] == Subdivision(2, pages - 1);
    }
  }

  /** How many rows the first batch has. */
  lemma {:induction false} InitialRowsCount(protocol: nat, pages: nat)
    requires 1 <= pages
    ensures |InitialRows(protocol, pages)| ==
      if protocol < 2 || pages <= 100 then pages
      else if pages <= 1001 then 1 + (pages - 1 + 29) / 30
      else 1 + (pages - 1 + 999) / 1000
  {
    if protocol < 2 || pages <= 100 {
      ChunksCount(1, pages + 1, 1);
    } else {
      SubdivisionSize(2, pages - 1);
      assert ChunkSize(pages - 1) == if pages <= 1001 then 30 else 1000;
      hide Subdivision, ChunkSize;
    }
  }
}
