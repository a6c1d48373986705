/** Bytes as numbers. */
module Octets {
  import opened Prelude

  const BYTE_LIMIT := 256

  /** The byte reached from zero in `n` steps. */
  function ToByte(n: nat): Byte
    requires n < BYTE_LIMIT
  {
    if n == 0 then 0 else ToByte(n - 1) + 1
  }

  function Value(b: Byte): (n: nat)
    ensures n < BYTE_LIMIT
  {
    b as nat
  }

  lemma {:induction false} Successor(b: Byte)
    requires b != 255
    ensures Value(b + 1) == Value(b) + 1
  {
  }

  lemma {:induction false} Predecessor(b: Byte)
    requires b != 0
    ensures b - 1 != 255 && b - 1 + 1 == b
  {
  }

  lemma {:induction false} Edges()
    ensures Value(0) == 0 && Value(255) == 255
    ensures forall b :: Value(b) == 0 ==> b == 0
  {
  }

  lemma {:induction false} ByteValue(n: nat)
    requires n < BYTE_LIMIT
    ensures Value(ToByte(n)) == n
  {
    hide Value;
    Edges();
    if n > 0 {
      ByteValue(n - 1);
      Successor(ToByte(n - 1));
    }
  }

  lemma {:induction false} ValueByte(b: Byte)
    ensures ToByte(Value(b)) == b
    decreases Value(b)
  {
    hide Value;
    Edges();
    if b != 0 {
      Predecessor(b);
      Successor(b - 1);
      ValueByte(b - 1);
    }
  }
}
