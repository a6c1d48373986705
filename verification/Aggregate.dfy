/** The SQL functions `hash` and `agghash` over the hash engine, and the range query built from
    them. */
module Aggregate {
  import opened Prelude
  import opened Database
  import opened Sponge
  import opened Streaming
  import PageHash
  import opened HashEngine

  const HASH_BITS := 160

  datatype Value = Null | Blob(bytes: seq<Byte>) | Text(bytes: seq<Byte>) | Numeric

  datatype Answer = Answer(value: Option<PageHash.Digest>) | Unsupported

  /** The 160-bit sponge, with its rate of 160 bytes, as the hash of a scenario. */
  function Hash160(perm: Permutation): PageHash.Hash {
    message => SpongeHash(perm, 160, message)
  }

  /** hash(X): NULL for NULL, the hash of the bytes of a BLOB or TEXT, an error for a number. */
  method HashFunc(perm: Permutation, arg: Value) returns (answer: Answer)
    ensures arg.Null? ==> answer == Answer(None)
    ensures arg.Blob? || arg.Text? ==> answer == Answer(Some(Hash160(perm)(arg.bytes)))
    ensures arg.Numeric? ==> answer == Unsupported
  {
    hide Rate, SpongeHash, Streamed, Loaded;
    if arg.Null? {
      return Answer(None);
    }
    var cx := new HashContext(perm);
    cx.HashInit(HASH_BITS);
    match arg {
      case Blob(bytes) => cx.HashUpdate(bytes);
      case Text(bytes) => cx.HashUpdate(bytes);
      case Numeric => return Unsupported;
    }
    assert cx.absorbed == arg.bytes;
    var digest := cx.HashFinal();
    answer := Answer(digest);
  }

  /** One evaluation of agghash(X). */
  class AgghashAggregate {
    const cx: HashContext
    var started: bool
    var done: bool
    var result: Option<PageHash.Digest>

    /** The bytes of the rows stepped before the value was first asked for. */
    ghost var fed: seq<Byte>

    ghost predicate Valid()
      reads this, cx, cx.s
    {
      && cx.s.Length == LANES
      && (!started ==> fed == [] && !done)
      && (started ==> cx.Valid() && cx.iSize == HASH_BITS)
      && (started && !done ==> cx.absorbed == fed)
      && (done ==> result == Some(Hash160(cx.perm)(fed)))
    }

    constructor (perm: Permutation)
      ensures Valid() && fresh(cx) && fresh(cx.s) && cx.perm == perm
      ensures fed == [] && !started && !done
    {
      cx := new HashContext(perm);
      started, done, result, fed := false, false, None, [];
    }

    /** One row: NULL is skipped, a number is an error, anything else is absorbed. A value that
        was already given out stays. */
    method Step(arg: Value) returns (ok: bool)
      requires Valid()
      modifies this, cx, cx.s
      ensures Valid() && done == old(done)
      ensures ok == !arg.Numeric?
      ensures started == (old(started) || !arg.Null?)
      ensures fed == if (arg.Blob? || arg.Text?) && !done then old(fed) + arg.bytes else old(fed)
    {
      hide Rate, SpongeHash, Streamed, Loaded;
      if arg.Null? {
        return true;
      }
      if !started {
        cx.HashInit(HASH_BITS);
        started := true;
      }
      match arg {
        case Blob(bytes) => cx.HashUpdate(bytes);
        case Text(bytes) => cx.HashUpdate(bytes);
        case Numeric => return false;
      }
      fed := if done then fed else fed + arg.bytes;
      ok := true;
    }

    /** The hash of the concatenation, NULL when no row was absorbed. It can be asked for again. */
    method WindowValue() returns (value: Option<PageHash.Digest>)
      requires Valid()
      modifies this, cx, cx.s
      ensures Valid() && fed == old(fed) && started == old(started) && done == (old(done) || started)
      ensures value == if started then Some(Hash160(cx.perm)(fed)) else None
    {
      hide SpongeHash, Streamed, Loaded;
      if !started {
        return None;
      }
      if !done {
        var digest := cx.HashFinal();
        result := digest;
        done := true;
      }
      value := result;
    }
  }

  /** The range query: the recursive table starts with page `first` and goes on while it is below
      `last`; agghash(hash(data)) absorbs those of its pages that exist. */
  method RangeQuery(perm: Permutation, db: seq<Page>, first: nat, last: nat) returns (value: Option<PageHash.Digest>)
    ensures value == PageHash.AggHash(Hash160(perm), db, first, Max(first, last) + 1)
  {
    hide Rate, SpongeHash, Streamed, Loaded, Hash160;
    var hash := Hash160(perm);
    var aggregate := new AgghashAggregate(perm);
    var n, end := first, Max(first, last) + 1;
    var more := true;
    while more
      invariant fresh(aggregate) && fresh(aggregate.cx) && fresh(aggregate.cx.s)
      invariant aggregate.Valid() && aggregate.cx.perm == perm && !aggregate.done
      invariant n < end || (n == end && !more)
      invariant more <==> n < end
      invariant PageHash.Digests(hash, db, first, end) == aggregate.fed + PageHash.Digests(hash, db, n, end)
      invariant aggregate.started <==> aggregate.fed != []
      decreases end - n
    {
      if Exists(db, n) {
        var answer := HashFunc(perm, Blob(db[n - 1]));
        assert answer.value.value == hash(db[n - 1]);
        var ok := aggregate.Step(Blob(answer.value.value));
      }
      more := n < last;
      n := n + 1;
    }
    assert aggregate.fed == PageHash.Digests(hash, db, first, end);
    value := aggregate.WindowValue();
  }

  /** The single-page query: hash(data) of page `p`, no row if there is no such page. */
  method PageQuery(perm: Permutation, db: seq<Page>, p: nat) returns (value: Option<PageHash.Digest>)
    ensures value == if 1 <= p <= |db| then Some(Hash160(perm)(db[p - 1])) else None
    ensures value == PageHash.SingleHash(Hash160(perm), db, p)
  {
    hide Hash160;
    if !Exists(db, p) {
      return None;
    }
    var answer := HashFunc(perm, Blob(db[p - 1]));
    value := answer.value;
  }
}
