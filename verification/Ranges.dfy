/** Page ranges: the rows of the `sendHash` and `badHash` tables, the chunking of
    `subdivideHashRange`, and sets of pairwise disjoint ranges. */
module Ranges {
  import opened Prelude

  /** `npg` pages starting at page `fpg`. */
  datatype Row = Row(fpg: nat, npg: nat) {
    function End(): nat {
      fpg + npg
    }

    predicate Has(p: nat) {
      fpg <= p < fpg + npg
    }
  }

  predicate Apart(a: Row, b: Row) {
    a.End() <= b.fpg || b.End() <= a.fpg
  }

  // ---------------------------------------------------------------- chunking

  /** The chunk length `subdivideHashRange` picks for a range of `npg` pages. */
  function ChunkSize(npg: nat): (c: nat) {
    if npg <= 30 then 1 else if npg <= 1000 then 30 else 1000
  }

  /** The recursive query of `subdivideHashRange`, one row at a time: the row at `n`, then the
      row one chunk further on while `n` is below `end - c`. */
  function Chunks(n: nat, end: nat, c: nat): seq<Row>
    requires 1 <= c && n <= end
    decreases end - n
  {
    [Row(n, Min(end - n, c))] + (if n + c < end then Chunks(n + c, end, c) else [])
  }

  function Subdivision(fpg: nat, npg: nat): seq<Row> {
    Chunks(fpg, fpg + npg, ChunkSize(npg))
  }

  /** The rows follow one another without gap or overlap from `lo` up to `hi`. */
  predicate Tiles(rows: seq<Row>, lo: nat, hi: nat) {
    if rows == [] then lo == hi
    else rows[0].fpg == lo && 1 <= rows[0].npg && Tiles(rows[1..], rows[0].End(), hi)
  }

  /** Rows in ascending order, disjoint and non-empty. */
  ghost predicate Ascending(rows: seq<Row>) {
    && (forall i :: 0 <= i < |rows| ==> 1 <= rows[i].npg)
    && (forall i, j :: 0 <= i < j < |rows| ==> rows[i].End() <= rows[j].fpg)
  }

  ghost predicate Covered(rows: seq<Row>, p: nat) {
    exists i :: 0 <= i < |rows| && rows[i].Has(p)
  }

  /** Tiling rows are ascending, stay inside the range, reach its end, and cover each of its
      pages and no other. */
  lemma {:induction false} TilesMeaning(rows: seq<Row>, lo: nat, hi: nat)
    requires Tiles(rows, lo, hi)
    ensures lo <= hi
    ensures Ascending(rows)
    ensures forall i :: 0 <= i < |rows| ==> lo <= rows[i].fpg && rows[i].End() <= hi
    ensures rows != [] ==> rows[0].fpg == lo && rows[|rows| - 1].End() == hi
    ensures forall p: nat :: Covered(rows, p) <==> lo <= p < hi
    decreases |rows|
  {
    if rows != [] {
      var rest := rows[1..];
      var mid := rows[0].End();
      TilesMeaning(rest, mid, hi);
      forall p: nat ensures Covered(rows, p) <==> lo <= p < hi {
        if Covered(rest, p) {
          var i :| 0 <= i < |rest| && rest[i].Has(p);
          assert rows[i + 1].Has(p);
        }
        if lo <= p < mid {
          assert rows[0].Has(p);
        }
        if Covered(rows, p) {
          var i :| 0 <= i < |rows| && rows[i].Has(p);
          if i > 0 {
            assert rest[i - 1].Has(p);
          }
        }
      }
    }
  }

  /** The chunks of a non-empty range tile it; none is longer than `c`. */
  lemma {:induction false} ChunksTile(n: nat, end: nat, c: nat)
    requires 1 <= c && n < end
    ensures Tiles(Chunks(n, end, c), n, end)
    ensures forall i :: 0 <= i < |Chunks(n, end, c)| ==> Chunks(n, end, c)[i].npg <= c
    decreases end - n
  {
    var rows := Chunks(n, end, c);
    if n + c < end {
      ChunksTile(n + c, end, c);
      assert rows[1..] == Chunks(n + c, end, c);
    } else {
      assert rows[1..] == [];
    }
  }

  /** There are exactly ceil((end - n) / c) chunks. */
  lemma {:induction false} ChunksCount(n: nat, end: nat, c: nat)
    requires 1 <= c && n < end
    ensures |Chunks(n, end, c)| == (end - n + c - 1) / c
    decreases end - n
  {
    if n + c < end {
      ChunksCount(n + c, end, c);
      DivideStep(end - n - c + c - 1, c);
    } else {
      DivideOnce(end - n + c - 1, c);
    }
  }

  /** `subdivideHashRange` on a non-empty range: the rows are consecutive, disjoint and non-empty
      and cover the range exactly; a range longer than one page is cut into strictly shorter
      rows, and one of at most 30 pages into single pages. */
  lemma {:induction false} SubdivisionTiles(fpg: nat, npg: nat)
    requires 1 <= npg
    ensures Tiles(Subdivision(fpg, npg), fpg, fpg + npg)
    ensures forall row :: row in Subdivision(fpg, npg) ==>
      && 1 <= row.npg <= ChunkSize(npg)
      && (1 < npg ==> row.npg < npg)
      && (npg <= 30 ==> row.npg == 1)
  {
    hide Chunks, Tiles;
    ChunksTile(fpg, fpg + npg, ChunkSize(npg));
    TilesMeaning(Subdivision(fpg, npg), fpg, fpg + npg);
  }

  /** Every row of a subdivision but the last has one length: one page for up to 30 pages, 30 for up
      to 1000, 1000 beyond. */
  lemma {:induction false} SubdivisionLengths(fpg: nat, npg: nat, i: nat)
    requires 1 <= npg && i + 1 < |Subdivision(fpg, npg)|
    ensures Subdivision(fpg, npg)[i].npg == if npg <= 30 then 1 else if npg <= 1000 then 30 else 1000
    ensures Subdivision(fpg, npg)[i].fpg == fpg + i * (if npg <= 30 then 1 else if npg <= 1000 then 30 else 1000)
  {
    hide Chunks;
    ChunkAt(fpg, fpg + npg, ChunkSize(npg), i);
  }

  lemma {:induction false} ChunkAt(n: nat, end: nat, c: nat, i: nat)
    requires 1 <= c && n < end && i + 1 < |Chunks(n, end, c)|
    ensures Chunks(n, end, c)[i] == Row(n + i * c, c)
    decreases i
  {
    if i > 0 {
      ChunkAt(n + c, end, c, i - 1);
      assert n + c + (i - 1) * c == n + i * c;
    }
  }

  lemma {:induction false} SubdivisionSize(fpg: nat, npg: nat)
    requires 1 <= npg
    ensures |Subdivision(fpg, npg)| == (npg + ChunkSize(npg) - 1) / ChunkSize(npg)
  {
    hide Chunks;
    ChunksCount(fpg, fpg + npg, ChunkSize(npg));
  }

  /** A range of at most 1000 pages is cut into at most 34 rows, one of at most 30 into at
      most 30. */
  lemma {:induction false} SubdivisionCount(fpg: nat, npg: nat)
    requires 1 <= npg <= 1000
    ensures |Subdivision(fpg, npg)| <= 34
    ensures npg <= 30 ==> |Subdivision(fpg, npg)| <= 30
  {
    SubdivisionSize(fpg, npg);
    hide Subdivision;
  }

  // ---------------------------------------------------------------- sets of disjoint ranges

  ghost predicate Separate(rows: set<Row>) {
    forall a, b :: a in rows && b in rows && a != b ==> Apart(a, b)
  }

  /** Non-empty ranges inside pages 1..last. */
  ghost predicate Within(rows: set<Row>, last: nat) {
    forall a :: a in rows ==> 1 <= a.fpg && 1 <= a.npg && a.End() <= last + 1
  }

  ghost predicate Open(rows: set<Row>, p: nat) {
    exists a :: a in rows && a.Has(p)
  }

  lemma {:induction false} AscendingSeparate(rows: seq<Row>)
    requires Ascending(rows)
    ensures Separate(Elements(rows))
    ensures Distinct(rows)
  {
    forall a, b | a in rows && b in rows && a != b ensures Apart(a, b) {
      var i :| 0 <= i < |rows| && rows[i] == a;
      var j :| 0 <= j < |rows| && rows[j] == b;
      assert i < j || j < i;
    }
    forall i, j | 0 <= i < j < |rows| ensures rows[i] != rows[j] {
      assert rows[i].End() <= rows[j].fpg;
    }
  }

  // ---------------------------------------------------------------- tables

  /** A table with an integer primary key: first page to page count. */
  type Table = map<nat, nat>

  ghost function TableRows(t: Table): (rows: set<Row>)
    ensures forall a :: a in rows <==> a.fpg in t && t[a.fpg] == a.npg
  {
    var rows := set k | k in t :: Row(k, t[k]);
    assert forall a :: a in rows <==> a.fpg in t && t[a.fpg] == a.npg by {
      forall a: Row | a.fpg in t && t[a.fpg] == a.npg ensures a in rows {
        assert a == Row(a.fpg, t[a.fpg]);
      }
    }
    rows
  }

  /** REPLACE INTO the table, row by row. */
  function Put(t: Table, rows: seq<Row>): Table
    decreases |rows|
  {
    if rows == [] then t else Put(t[rows[0].fpg := rows[0].npg], rows[1..])
  }

  /** Rows with new, pairwise different keys are simply added. */
  lemma {:induction false} PutFresh(t: Table, rows: seq<Row>)
    requires forall i :: 0 <= i < |rows| ==> rows[i].fpg !in t
    requires forall i, j :: 0 <= i < j < |rows| ==> rows[i].fpg != rows[j].fpg
    ensures TableRows(Put(t, rows)) == TableRows(t) + Elements(rows)
    ensures |Put(t, rows)| == |t| + |rows|
    decreases |rows|
  {
    if rows != [] {
      PutOneFresh(t, rows[0]);
      PutFresh(t[rows[0].fpg := rows[0].npg], rows[1..]);
      ElementsHead(rows);
      hide TableRows, Elements;
    }
  }

  lemma {:induction false} ElementsHead(rows: seq<Row>)
    requires rows != []
    ensures Elements(rows) == {rows[0]} + Elements(rows[1..])
  {
    assert rows == [rows[0]] + rows[1..];
  }

  lemma {:induction false} PutOneFresh(t: Table, a: Row)
    requires a.fpg !in t
    ensures TableRows(t[a.fpg := a.npg]) == TableRows(t) + {a}
    ensures |t[a.fpg := a.npg]| == |t| + 1
  {
    hide TableRows;
    OneMore(t, a);
    forall b: Row ensures b in TableRows(t[a.fpg := a.npg]) <==> b in TableRows(t) + {a} {
      if b.fpg == a.fpg {
        assert b in TableRows(t[a.fpg := a.npg]) <==> b == a;
      }
    }
  }

  lemma {:induction false} OneMore(t: Table, a: Row)
    requires a.fpg !in t
    ensures |t[a.fpg := a.npg]| == |t| + 1
  {
    var u := t[a.fpg := a.npg];
    assert u.Keys == t.Keys + {a.fpg};
    assert |u| == |u.Keys| && |t| == |t.Keys|;
  }

  lemma {:induction false} PutSize(t: Table, rows: seq<Row>)
    ensures |Put(t, rows)| <= |t| + |rows|
    decreases |rows|
  {
    if rows != [] {
      var u := t[rows[0].fpg := rows[0].npg];
      assert |u| <= |t| + 1 by {
        assert u.Keys == t.Keys + {rows[0].fpg};
        assert |u.Keys| == |t.Keys + {rows[0].fpg}|;
      }
      PutSize(u, rows[1..]);
    }
  }

  // ---------------------------------------------------------------- ORDER BY fpg

  ghost predicate KeysAscend(rows: seq<Row>) {
    forall i, j :: 0 <= i < j < |rows| ==> rows[i].fpg < rows[j].fpg
  }

  /** The rows of the table in ascending key order. */
  ghost predicate Lists(rows: seq<Row>, t: Table) {
    KeysAscend(rows) && Elements(rows) == TableRows(t)
  }

  lemma {:induction false} LeastKey(s: set<nat>) returns (k: nat)
    requires s != {}
    ensures k in s && forall j :: j in s ==> k <= j
  {
    var x :| x in s;
    if s == {x} {
      k := x;
    } else {
      var rest := s - {x};
      assert s == rest + {x};
      var m := LeastKey(rest);
      k := if x < m then x else m;
      forall j | j in s ensures k <= j {
        if j != x {
          assert j in rest;
        }
      }
    }
  }

  lemma {:induction false} ListingExists(t: Table)
    ensures exists rows :: Lists(rows, t)
    decreases |t|
  {
    if t == map[] {
      assert Lists([], t);
    } else {
      assert t.Keys != {};
      var k := LeastKey(t.Keys);
      var u := t - {k};
      assert t.Keys == u.Keys + {k};
      ListingExists(u);
      var rest: seq<Row> :| Lists(rest, u);
      ListingCons(t, k, rest);
    }
  }

  lemma {:induction false} ListingCons(t: Table, k: nat, rest: seq<Row>)
    requires k in t && forall j :: j in t ==> k <= j
    requires Lists(rest, t - {k})
    ensures Lists([Row(k, t[k])] + rest, t)
  {
    var rows := [Row(k, t[k])] + rest;
    forall a ensures a in Elements(rows) <==> a in TableRows(t) {
      assert a in rest <==> a in TableRows(t - {k});
    }
    forall i, j | 0 <= i < j < |rows| ensures rows[i].fpg < rows[j].fpg {
      assert rest[j - 1] in TableRows(t - {k});
    }
  }

  lemma {:induction false} ListingUnique(a: seq<Row>, b: seq<Row>)
    requires KeysAscend(a) && KeysAscend(b)
    requires Elements(a) == Elements(b)
    ensures a == b
    decreases |a|
  {
    if a == [] {
      assert forall i :: 0 <= i < |b| ==> b[i] in Elements(b);
    } else {
      SameLeast(a, b);
      WithoutLeast(a);
      WithoutLeast(b);
      ListingUnique(a[1..], b[1..]);
      assert a == [a[0]] + a[1..] && b == [b[0]] + b[1..];
    }
  }

  lemma {:induction false} SameLeast(a: seq<Row>, b: seq<Row>)
    requires KeysAscend(a) && KeysAscend(b) && Elements(a) == Elements(b) && a != []
    ensures b != [] && a[0] == b[0]
  {
    assert a[0] in Elements(b);
    assert b[0] in Elements(a);
    var i :| 0 <= i < |b| && b[i] == a[0];
    var j :| 0 <= j < |a| && a[j] == b[0];
  }

  lemma {:induction false} WithoutLeast(a: seq<Row>)
    requires KeysAscend(a) && a != []
    ensures KeysAscend(a[1..]) && Elements(a[1..]) == Elements(a) - {a[0]}
  {
    assert a == [a[0]] + a[1..];
    assert a[0] !in a[1..];
  }

  /** SELECT fpg, npg FROM t ORDER BY fpg. */
  ghost function Listing(t: Table): (rows: seq<Row>)
    ensures Lists(rows, t)
  {
    ListingExists(t);
    var rows :| Lists(rows, t);
    rows
  }

  lemma {:induction false} ListingIs(t: Table, rows: seq<Row>)
    requires Lists(rows, t)
    ensures Listing(t) == rows
  {
    ListingUnique(Listing(t), rows);
  }

  lemma {:induction false} ListingLength(t: Table)
    ensures |Listing(t)| == |t|
  {
    var rows := Listing(t);
    var keys := seq(|rows|, i requires 0 <= i < |rows| => rows[i].fpg);
    assert Distinct(keys);
    DistinctCardinality(keys);
    assert Elements(keys) == t.Keys by {
      forall k | k in t ensures k in keys {
        assert Row(k, t[k]) in TableRows(t);
        var i :| 0 <= i < |rows| && rows[i] == Row(k, t[k]);
        assert keys[i] == k;
      }
      forall k | k in keys ensures k in t {
        var i :| 0 <= i < |keys| && keys[i] == k;
        assert rows[i] in TableRows(t);
      }
    }
  }

  /** Disjoint ranges listed by first page are ascending. */
  lemma {:induction false} ListingAscends(t: Table)
    requires Separate(TableRows(t))
    requires forall a :: a in TableRows(t) ==> 1 <= a.npg
    ensures Ascending(Listing(t))
  {
    var rows := Listing(t);
    forall i | 0 <= i < |rows| ensures 1 <= rows[i].npg {
      assert rows[i] in TableRows(t);
    }
    forall i, j | 0 <= i < j < |rows| ensures rows[i].End() <= rows[j].fpg {
      assert rows[i] in TableRows(t) && rows[j] in TableRows(t);
      assert rows[i].fpg < rows[j].fpg;
      assert Apart(rows[i], rows[j]);
    }
  }

  /** An ascending sequence of rows written into an empty table comes back unchanged. */
  lemma {:induction false} ListingOfPut(rows: seq<Row>)
    requires Ascending(rows)
    ensures Listing(Put(map[], rows)) == rows
  {
    assert KeysAscend(rows) by {
      forall i, j | 0 <= i < j < |rows| ensures rows[i].fpg < rows[j].fpg {
        assert rows[i].End() <= rows[j].fpg;
      }
    }
    PutFresh(map[], rows);
    assert TableRows(map[]) == {};
    ListingIs(Put(map[], rows), rows);
  }

  /** Two disjoint detail requests build the same table in either order. */
  lemma {:induction false} TwoCommute(t: Table, a: Row, b: Row)
    requires 1 <= a.npg && 1 <= b.npg && Apart(a, b)
    requires forall k :: k in t ==> !a.Has(k) && !b.Has(k)
    ensures Put(Put(t, Subdivision(a.fpg, a.npg)), Subdivision(b.fpg, b.npg))
         == Put(Put(t, Subdivision(b.fpg, b.npg)), Subdivision(a.fpg, a.npg))
  {
    var ab := PutTwo(t, a, b);
    var ba := PutTwo(t, b, a);
    assert TableRows(ab) == TableRows(ba);
    TableRowsInjective(ab, ba);
  }

  lemma {:induction false} PutTwo(t: Table, a: Row, b: Row) returns (u: Table)
    requires 1 <= a.npg && 1 <= b.npg && Apart(a, b)
    requires forall k :: k in t ==> !a.Has(k) && !b.Has(k)
    ensures u == Put(Put(t, Subdivision(a.fpg, a.npg)), Subdivision(b.fpg, b.npg))
    ensures TableRows(u) ==
      TableRows(t) + Elements(Subdivision(a.fpg, a.npg)) + Elements(Subdivision(b.fpg, b.npg))
  {
    PutSubdivision(t, a);
    var v := Put(t, Subdivision(a.fpg, a.npg));
    PutSubdivision(v, b);
    u := Put(v, Subdivision(b.fpg, b.npg));
  }

  /** A burst of detail requests, one after the other. */
  function PutAll(t: Table, requests: seq<Row>): Table
    decreases |requests|
  {
    if requests == [] then t
    else PutAll(Put(t, Subdivision(requests[0].fpg, requests[0].npg)), requests[1..])
  }

  /** Non-empty ranges, pairwise disjoint, none of which holds a key of the table. */
  ghost predicate Askable(t: Table, requests: seq<Row>) {
    && (forall i :: 0 <= i < |requests| ==> 1 <= requests[i].npg)
    && (forall i, j :: 0 <= i < j < |requests| ==> Apart(requests[i], requests[j]))
    && (forall i, k :: 0 <= i < |requests| && k in t ==> !requests[i].Has(k))
  }

  lemma {:induction false} AskableRest(t: Table, requests: seq<Row>)
    requires Askable(t, requests) && requests != []
    ensures Askable(Put(t, Subdivision(requests[0].fpg, requests[0].npg)), requests[1..])
  {
    var a, rest := requests[0], requests[1..];
    PutSubdivision(t, a);
    var u := Put(t, Subdivision(a.fpg, a.npg));
    forall i, k | 0 <= i < |rest| && k in u ensures !rest[i].Has(k) {
      assert Apart(requests[0], requests[i + 1]);
      assert k in t ==> !requests[i + 1].Has(k);
    }
  }

  /** Any request of the burst may come first. */
  lemma {:induction false} AnyFirst(t: Table, requests: seq<Row>, n: nat)
    requires Askable(t, requests) && n < |requests|
    ensures Askable(t, [requests[n]] + requests[..n] + requests[n + 1..])
    ensures PutAll(t, requests) == PutAll(t, [requests[n]] + requests[..n] + requests[n + 1..])
    decreases n
  {
    hide Put, Subdivision, Askable, PutAll;
    var a, b := requests[0], requests[n];
    MovedAskable(t, requests, n);
    if n == 0 {
      assert [b] + requests[..n] + requests[n + 1..] == requests;
    } else {
      var u := Put(t, Subdivision(a.fpg, a.npg));
      var between := requests[1..n] + requests[n + 1..];
      AskableRest(t, requests);
      AnyFirst(u, requests[1..], n - 1);
      BringForward(requests, n);
      PutFirst(t, requests);
      PutFirst(u, [b] + between);
      PutFirst(t, [b, a] + between);
      PutFirst(Put(t, Subdivision(b.fpg, b.npg)), [a] + between);
      AskedApart(t, requests, n);
      TwoCommute(t, a, b);
    }
  }

  lemma {:induction false} PutFirst(t: Table, requests: seq<Row>)
    requires requests != []
    ensures PutAll(t, requests) == PutAll(Put(t, Subdivision(requests[0].fpg, requests[0].npg)), requests[1..])
  {
  }

  lemma {:induction false} AskedApart(t: Table, requests: seq<Row>, n: nat)
    requires Askable(t, requests) && 1 <= n < |requests|
    ensures 1 <= requests[0].npg && 1 <= requests[n].npg && Apart(requests[0], requests[n])
    ensures forall k :: k in t ==> !requests[0].Has(k) && !requests[n].Has(k)
  {
  }

  lemma {:induction false} BringForward(requests: seq<Row>, n: nat)
    requires 1 <= n < |requests|
    ensures var a, b, rest, between := requests[0], requests[n], requests[1..], requests[1..n] + requests[n + 1..];
      && rest[n - 1] == b
      && [b] + rest[..n - 1] + rest[n..] == [b] + between
      && [b] + requests[..n] + requests[n + 1..] == [b, a] + between
      && ([b] + between)[1..] == between
      && ([b, a] + between)[1..] == [a] + between && ([a] + between)[1..] == between
  {
  }

  lemma {:induction false} MovedAskable(t: Table, requests: seq<Row>, n: nat)
    requires Askable(t, requests) && n < |requests|
    ensures Askable(t, [requests[n]] + requests[..n] + requests[n + 1..])
  {
    var moved := [requests[n]] + requests[..n] + requests[n + 1..];
    forall i, j | 0 <= i < j < |moved| ensures Apart(moved[i], moved[j]) {
      var p, q := if i == 0 then n else if i <= n then i - 1 else i, if j <= n then j - 1 else j;
      assert moved[i] == requests[p] && moved[j] == requests[q] && p != q;
      if p < q {
        assert Apart(requests[p], requests[q]);
      } else {
        assert Apart(requests[q], requests[p]);
      }
    }
    forall i | 0 <= i < |moved| ensures 1 <= moved[i].npg && forall k :: k in t ==> !moved[i].Has(k) {
      var p := if i == 0 then n else if i <= n then i - 1 else i;
      assert moved[i] == requests[p];
    }
  }

  /** Detail requests for pairwise disjoint ranges build the same table in whatever order they
      come. */
  lemma {:induction false} SubdivisionsCommute(t: Table, requests: seq<Row>, others: seq<Row>)
    requires Askable(t, requests) && multiset(requests) == multiset(others)
    ensures PutAll(t, requests) == PutAll(t, others)
    decreases |requests|
  {
    hide Put, Subdivision, Askable;
    SameLength(requests, others);
    if requests != [] {
      var b := others[0];
      var n := FindIn(requests, others);
      var moved := [b] + requests[..n] + requests[n + 1..];
      AnyFirst(t, requests, n);
      AskableRest(t, moved);
      MovedRest(requests, others, n);
      SubdivisionsCommute(Put(t, Subdivision(b.fpg, b.npg)), moved[1..], others[1..]);
    }
  }

  lemma {:induction false} SameLength(a: seq<Row>, b: seq<Row>)
    requires multiset(a) == multiset(b)
    ensures |a| == |b|
  {
    assert |multiset(a)| == |a| && |multiset(b)| == |b|;
  }

  lemma {:induction false} FindIn(a: seq<Row>, b: seq<Row>) returns (n: nat)
    requires b != [] && multiset(a) == multiset(b)
    ensures n < |a| && a[n] == b[0]
  {
    assert b[0] in multiset(b);
    assert b[0] in a;
    n :| 0 <= n < |a| && a[n] == b[0];
  }

  lemma {:induction false} MovedRest(a: seq<Row>, b: seq<Row>, n: nat)
    requires b != [] && multiset(a) == multiset(b) && n < |a| && a[n] == b[0]
    ensures var moved := [b[0]] + a[..n] + a[n + 1..];
      moved[0] == b[0] && multiset(moved[1..]) == multiset(b[1..])
  {
    var moved := [b[0]] + a[..n] + a[n + 1..];
    assert a == a[..n] + [a[n]] + a[n + 1..];
    assert b == [b[0]] + b[1..];
    assert moved[1..] == a[..n] + a[n + 1..];
    var x, y, z := multiset(a[..n]), multiset{b[0]}, multiset(a[n + 1..]);
    assert multiset(a) == x + y + z;
    assert multiset(moved[1..]) == x + z;
    assert multiset(b) == y + multiset(b[1..]);
    assert x + z == multiset(a) - y;
    assert multiset(b[1..]) == multiset(b) - y;
  }

  /** `subdivideHashRange` adds its rows to a table that holds no row in the range. */
  lemma {:induction false} PutSubdivision(t: Table, a: Row)
    requires 1 <= a.npg
    requires forall k :: k in t ==> !a.Has(k)
    ensures TableRows(Put(t, Subdivision(a.fpg, a.npg)))
         == TableRows(t) + Elements(Subdivision(a.fpg, a.npg))
    ensures forall k :: k in Put(t, Subdivision(a.fpg, a.npg)) ==> k in t || a.Has(k)
  {
    var rows := Subdivision(a.fpg, a.npg);
    SubdivisionTiles(a.fpg, a.npg);
    TilesMeaning(rows, a.fpg, a.End());
    AscendingKeys(rows);
    assert forall i :: 0 <= i < |rows| ==> a.Has(rows[i].fpg);
    PutFresh(t, rows);
    var u := Put(t, rows);
    forall k | k in u ensures k in t || a.Has(k) {
      assert Row(k, u[k]) in TableRows(u);
    }
  }

  lemma {:induction false} AscendingKeys(rows: seq<Row>)
    requires Ascending(rows)
    ensures KeysAscend(rows)
  {
    forall i, j | 0 <= i < j < |rows| ensures rows[i].fpg < rows[j].fpg {
      assert rows[i].End() <= rows[j].fpg;
    }
  }

  lemma {:induction false} TableRowsInjective(t: Table, u: Table)
    requires TableRows(t) == TableRows(u)
    ensures t == u
  {
    forall k | k in t ensures k in u && u[k] == t[k] {
      assert Row(k, t[k]) in TableRows(u);
    }
    forall k | k in u ensures k in t {
      assert Row(k, u[k]) in TableRows(t);
    }
  }
}
