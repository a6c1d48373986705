/** Shared vocabulary: bytes, 32-bit counters and optional values. */
module Prelude {
  type Byte = bv8

  datatype Option<+T> = None | Some(value: T)

  const U32_LIMIT := 0x1_0000_0000

  function Min(a: int, b: int): int {
    if a <= b then a else b
  }

  function Max(a: int, b: int): int {
    if a <= b then b else a
  }

  /** Unsigned 32-bit addition as Go performs it on `uint32`: it wraps. */
  function Add32(a: nat, b: nat): (sum: nat)
    ensures sum < U32_LIMIT
    ensures a + b < U32_LIMIT ==> sum == a + b
    ensures U32_LIMIT <= a + b < 2 * U32_LIMIT ==> sum == a + b - U32_LIMIT
  {
    (a + b) % U32_LIMIT
  }

  /** The elements of a sequence. */
  ghost function Elements<T(!new)>(s: seq<T>): (elements: set<T>)
    ensures forall x :: x in elements <==> x in s
  {
    set x | x in s
  }

  ghost predicate Distinct<T>(s: seq<T>) {
    forall i, j :: 0 <= i < j < |s| ==> s[i] != s[j]
  }

  lemma {:induction false} DistinctCardinality<T(!new)>(s: seq<T>)
    requires Distinct(s)
    ensures |Elements(s)| == |s|
  {
    if s == [] {
      assert Elements(s) == {};
    } else {
      var k := |s| - 1;
      var rest := s[..k];
      assert s == rest + [s[k]];
      DistinctCardinality(rest);
      assert s[k] !in rest;
      assert Elements(s) == Elements(rest) + {s[k]};
    }
  }

  /** An injective image into `b` is no larger than `b`. */
  lemma {:induction false} InjectionBound<T(!new), U>(a: set<T>, b: set<U>, f: map<T, U>)
    requires forall x :: x in a ==> x in f && f[x] in b
    requires forall x, y :: x in a && y in a && x != y ==> f[x] != f[y]
    ensures |a| <= |b|
    decreases |a|
  {
    if a != {} {
      var x :| x in a;
      InjectionBound(a - {x}, b - {f[x]}, f);
    }
  }

  /** The pages lo..hi-1 number hi - lo. */
  lemma {:induction false} IntervalCardinality(lo: int, hi: int, s: set<nat>)
    requires lo <= hi
    requires forall p :: p in s ==> lo <= p < hi
    ensures |s| <= hi - lo
    decreases hi - lo
  {
    if lo == hi {
      assert s == {};
    } else {
      var rest := s - {hi - 1};
      IntervalCardinality(lo, hi - 1, rest);
      if hi - 1 in s {
        assert s == rest + {hi - 1};
      } else {
        assert s == rest;
      }
    }
  }

  // ---------------------------------------------------------------- division

  lemma {:induction false} DivideStep(x: nat, c: nat)
    requires 1 <= c
    ensures (x + c) / c == x / c + 1
  {
    var q, r := x / c, x % c;
    assert x + c == (q + 1) * c + r;
    DivideUnique(x + c, c, q + 1, r);
  }

  lemma {:induction false} DivideOnce(x: nat, c: nat)
    requires 1 <= c <= x < 2 * c
    ensures x / c == 1
  {
    DivideUnique(x, c, 1, x - c);
  }

  lemma {:induction false} DivideUnique(x: nat, c: nat, q: nat, r: nat)
    requires 1 <= c && r < c && x == q * c + r
    ensures x / c == q
  {
    var d := x / c - q;
    assert d * c == r - x % c;
    if 1 <= d {
      AtLeastOnce(d, c);
    } else if d <= -1 {
      AtLeastOnce(-d, c);
    }
  }

  lemma {:induction false} AtLeastOnce(d: int, c: nat)
    requires 1 <= d
    ensures c <= d * c
  {
  }

  lemma {:induction false} ModuloUnique(x: nat, c: nat, q: nat, r: nat)
    requires 1 <= c && r < c && x == q * c + r
    ensures x % c == r
  {
    DivideUnique(x, c, q, r);
  }

  /** One more than a number, modulo `c`. */
  lemma {:induction false} ModuloNext(x: nat, c: nat)
    requires 1 <= c
    ensures (x + 1) % c == if x % c + 1 == c then 0 else x % c + 1
    ensures (x + 1) / c == if x % c + 1 == c then x / c + 1 else x / c
  {
    var q, r := x / c, x % c;
    if r + 1 == c {
      assert x + 1 == (q + 1) * c + 0;
      DivideUnique(x + 1, c, q + 1, 0);
    } else {
      assert x + 1 == q * c + (r + 1);
      DivideUnique(x + 1, c, q, r + 1);
    }
  }
}
