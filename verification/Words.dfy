/** 64-bit words and the bytes in them, the first byte least significant. */
module Words {
  import opened Prelude

  /** Exclusive or of two words. */
  function Xor(x: bv64, y: bv64): bv64 {
    x ^ y
  }

  function Up(w: bv64): bv64 {
    w << 8
  }

  function Down(w: bv64): bv64 {
    w >> 8
  }

  function Low(w: bv64): Byte {
    (w & 0xff) as Byte
  }

  function Widen(b: Byte): bv64 {
    b as bv64
  }

  /** A word shifted up by `j` bytes. */
  function Lift(w: bv64, j: nat): bv64 {
    if j == 0 then w else Up(Lift(w, j - 1))
  }

  /** A word shifted down by `j` bytes. */
  function Drop(w: bv64, j: nat): bv64 {
    if j == 0 then w else Drop(Down(w), j - 1)
  }

  /** A byte at position `j` of a word, counted from the least significant one. */
  function At(b: Byte, j: nat): bv64
    requires j < 8
  {
    Lift(Widen(b), j)
  }

  /** The byte of a word at position `j`. */
  function ByteOf(w: bv64, j: nat): Byte
    requires j < 8
  {
    Low(Drop(w, j))
  }

  /** Shifting byte by byte is shifting by that many bits. */
  lemma {:induction false} LiftIsShift(w: bv64)
    ensures Lift(w, 0) == w && Lift(w, 1) == w << 8 && Lift(w, 2) == w << 16 && Lift(w, 3) == w << 24
    ensures Lift(w, 4) == w << 32 && Lift(w, 5) == w << 40 && Lift(w, 6) == w << 48 && Lift(w, 7) == w << 56
  {
    hide Up, Lift;
    LiftSteps(w);
    UpByBits(w);
  }

  lemma {:induction false} LiftSteps(w: bv64)
    ensures Lift(w, 0) == w && Lift(w, 1) == Up(w) && Lift(w, 2) == Up(Up(w)) && Lift(w, 3) == Up(Up(Up(w)))
    ensures Lift(w, 4) == Up(Up(Up(Up(w)))) && Lift(w, 5) == Up(Up(Up(Up(Up(w)))))
    ensures Lift(w, 6) == Up(Up(Up(Up(Up(Up(w)))))) && Lift(w, 7) == Up(Up(Up(Up(Up(Up(Up(w)))))))
  {
    hide Up;
    assert Lift(w, 3) == Up(Lift(w, 2)) && Lift(w, 4) == Up(Lift(w, 3));
    assert Lift(w, 5) == Up(Lift(w, 4)) && Lift(w, 6) == Up(Lift(w, 5)) && Lift(w, 7) == Up(Lift(w, 6));
  }

  lemma {:induction false} UpByBits(w: bv64)
    ensures Up(w) == w << 8 && Up(Up(w)) == w << 16 && Up(Up(Up(w))) == w << 24
    ensures Up(Up(Up(Up(w)))) == w << 32 && Up(Up(Up(Up(Up(w))))) == w << 40
    ensures Up(Up(Up(Up(Up(Up(w)))))) == w << 48 && Up(Up(Up(Up(Up(Up(Up(w))))))) == w << 56
  {
  }

  lemma {:induction false} DropIsShift(w: bv64)
    ensures Drop(w, 0) == w && Drop(w, 1) == w >> 8 && Drop(w, 2) == w >> 16 && Drop(w, 3) == w >> 24
    ensures Drop(w, 4) == w >> 32 && Drop(w, 5) == w >> 40 && Drop(w, 6) == w >> 48 && Drop(w, 7) == w >> 56
  {
    hide Down, Drop;
    DropSteps(w);
    DownByBits(w);
  }

  lemma {:induction false} DropSteps(w: bv64)
    ensures Drop(w, 0) == w && Drop(w, 1) == Down(w) && Drop(w, 2) == Down(Down(w)) && Drop(w, 3) == Down(Down(Down(w)))
    ensures Drop(w, 4) == Down(Down(Down(Down(w)))) && Drop(w, 5) == Down(Down(Down(Down(Down(w)))))
    ensures Drop(w, 6) == Down(Down(Down(Down(Down(Down(w))))))
    ensures Drop(w, 7) == Down(Down(Down(Down(Down(Down(Down(w)))))))
  {
    hide Down, Drop;
    DropStart(w);
    DropOnce(w, 0);
    DropOnce(w, 1);
    DropOnce(w, 2);
    DropOnce(w, 3);
    DropOnce(w, 4);
    DropOnce(w, 5);
    DropOnce(w, 6);
  }

  lemma {:induction false} DropStart(w: bv64)
    ensures Drop(w, 0) == w
  {
  }

  lemma {:induction false} DownByBits(w: bv64)
    ensures Down(w) == w >> 8 && Down(Down(w)) == w >> 16 && Down(Down(Down(w))) == w >> 24
    ensures Down(Down(Down(Down(w)))) == w >> 32 && Down(Down(Down(Down(Down(w))))) == w >> 40
    ensures Down(Down(Down(Down(Down(Down(w)))))) == w >> 48
    ensures Down(Down(Down(Down(Down(Down(Down(w))))))) == w >> 56
  {
  }

  /** A byte goes to bits 8j to 8j + 7 of its word, its lowest bit to bit 8j. */
  lemma {:induction false} AtIsShift(b: Byte)
    ensures At(b, 0) == b as bv64 && At(b, 1) == (b as bv64) << 8
    ensures At(b, 2) == (b as bv64) << 16 && At(b, 3) == (b as bv64) << 24
    ensures At(b, 4) == (b as bv64) << 32 && At(b, 5) == (b as bv64) << 40
    ensures At(b, 6) == (b as bv64) << 48 && At(b, 7) == (b as bv64) << 56
  {
    hide Lift, Up;
    LiftIsShift(b as bv64);
  }

  /** And is read from there. */
  lemma {:induction false} ByteOfIsShift(w: bv64)
    ensures ByteOf(w, 0) == (w & 0xff) as Byte && ByteOf(w, 1) == ((w >> 8) & 0xff) as Byte
    ensures ByteOf(w, 2) == ((w >> 16) & 0xff) as Byte && ByteOf(w, 3) == ((w >> 24) & 0xff) as Byte
    ensures ByteOf(w, 4) == ((w >> 32) & 0xff) as Byte && ByteOf(w, 5) == ((w >> 40) & 0xff) as Byte
    ensures ByteOf(w, 6) == ((w >> 48) & 0xff) as Byte && ByteOf(w, 7) == ((w >> 56) & 0xff) as Byte
  {
    hide Drop, Down;
    DropIsShift(w);
  }

  // ---------------------------------------------------------------- exclusive or

  lemma {:induction false} XorZero(x: bv64)
    ensures Xor(x, 0) == x && Xor(0, x) == x
  {
  }

  lemma {:induction false} XorCommutes(x: bv64, y: bv64)
    ensures Xor(x, y) == Xor(y, x)
  {
  }

  lemma {:induction false} XorAssociates(x: bv64, y: bv64, z: bv64)
    ensures Xor(x, Xor(y, z)) == Xor(Xor(x, y), z)
  {
    calc {
      Xor(x, Xor(y, z));
      Xor(x, y ^ z);
      x ^ (y ^ z);
      (x ^ y) ^ z;
      Xor(x ^ y, z);
      Xor(Xor(x, y), z);
    }
  }

  lemma {:induction false} XorSwap(x: bv64, y: bv64, z: bv64)
    ensures Xor(Xor(x, y), z) == Xor(Xor(x, z), y)
  {
    hide *;
    XorAssociates(x, y, z);
    XorAssociates(x, z, y);
    XorCommutes(y, z);
  }

  // ---------------------------------------------------------------- one shift

  lemma {:induction false} Zeroes()
    ensures Up(0) == 0 && Down(0) == 0 && Low(0) == 0 && Widen(0) == 0
  {
  }

  lemma {:induction false} UpXor(x: bv64, y: bv64)
    ensures Up(Xor(x, y)) == Xor(Up(x), Up(y))
  {
  }

  lemma {:induction false} DownXor(x: bv64, y: bv64)
    ensures Down(Xor(x, y)) == Xor(Down(x), Down(y))
  {
  }

  lemma {:induction false} LowXor(x: bv64, y: bv64)
    ensures Low(Xor(x, y)) == Low(x) ^ Low(y)
  {
  }

  lemma {:induction false} WidenXor(a: Byte, b: Byte)
    ensures Widen(a ^ b) == Xor(Widen(a), Widen(b))
  {
  }

  lemma {:induction false} LowOf(b: Byte, w: bv64)
    ensures Low(Widen(b)) == b && Down(Widen(b)) == 0 && Low(Up(w)) == 0
  {
  }

  /** A word is its lowest byte and the rest. */
  lemma {:induction false} LowAndRest(w: bv64)
    ensures w == Xor(Widen(Low(w)), Up(Down(w)))
  {
  }

  lemma {:induction false} DropOnce(w: bv64, j: nat)
    ensures Drop(w, j + 1) == Down(Drop(w, j))
    decreases j
  {
    if j > 0 {
      DropOnce(Down(w), j - 1);
    }
  }

  /** A word shifted down eight bytes is gone. */
  lemma {:induction false} DropAll(w: bv64)
    ensures Drop(w, 8) == 0
  {
    DropOnce(w, 7);
    DropIsShift(w);
    hide Drop;
  }

  lemma {:induction false} DownUp(w: bv64)
    requires Drop(w, 7) == 0
    ensures Down(Up(w)) == w
  {
    DropIsShift(w);
    hide Drop;
  }

  // ---------------------------------------------------------------- many shifts

  lemma {:induction false} LiftXor(x: bv64, y: bv64, j: nat)
    ensures Lift(Xor(x, y), j) == Xor(Lift(x, j), Lift(y, j))
  {
    hide Xor, Up;
    if j > 0 {
      LiftXor(x, y, j - 1);
      UpXor(Lift(x, j - 1), Lift(y, j - 1));
    }
  }

  lemma {:induction false} DropXor(x: bv64, y: bv64, j: nat)
    ensures Drop(Xor(x, y), j) == Xor(Drop(x, j), Drop(y, j))
    decreases j
  {
    hide Xor, Down;
    if j > 0 {
      DownXor(x, y);
      DropXor(Down(x), Down(y), j - 1);
    }
  }

  lemma {:induction false} LiftUp(w: bv64, j: nat)
    ensures Lift(Up(w), j) == Up(Lift(w, j))
  {
    if j > 0 {
      LiftUp(w, j - 1);
    }
  }

  lemma {:induction false} LiftZero(j: nat)
    ensures Lift(0, j) == 0
  {
    Zeroes();
    if j > 0 {
      LiftZero(j - 1);
    }
  }

  lemma {:induction false} DropZero(j: nat)
    ensures Drop(0, j) == 0
  {
    Zeroes();
    if j > 0 {
      DropZero(j - 1);
    }
  }

  lemma {:induction false} AtZero(j: nat)
    requires j < 8
    ensures At(0, j) == 0
  {
    Zeroes();
    LiftZero(j);
  }

  lemma {:induction false} AtXor(a: Byte, b: Byte, j: nat)
    requires j < 8
    ensures At(a ^ b, j) == Xor(At(a, j), At(b, j))
  {
    hide Xor, Widen, Lift;
    WidenXor(a, b);
    LiftXor(Widen(a), Widen(b), j);
  }

  lemma {:induction false} ByteOfXor(x: bv64, y: bv64, j: nat)
    requires j < 8
    ensures ByteOf(Xor(x, y), j) == ByteOf(x, j) ^ ByteOf(y, j)
  {
    hide Xor, Drop, Low;
    DropXor(x, y, j);
    LowXor(Drop(x, j), Drop(y, j));
  }

  /** What is lifted by `j` bytes fits into `j + 1`. */
  lemma {:induction false} AtFits(b: Byte, j: nat)
    requires j < 8
    ensures Drop(At(b, j), j + 1) == 0
  {
    hide Down, Up, Widen;
    if j == 0 {
      LowOf(b, 0);
    } else {
      AtFits(b, j - 1);
      DropMore(At(b, j - 1), j, 7);
      DownUp(At(b, j - 1));
    }
  }

  lemma {:induction false} DropMore(w: bv64, j: nat, k: nat)
    requires j <= k && Drop(w, j) == 0
    ensures Drop(w, k) == 0
    decreases k
  {
    hide Down;
    if j < k {
      DropMore(w, j, k - 1);
      DropOnce(w, k - 1);
      Zeroes();
    }
  }

  /** A byte at one position shows there and nowhere else. */
  lemma {:induction false} ByteOfAt(b: Byte, j: nat, k: nat)
    requires j < 8 && k < 8
    ensures ByteOf(At(b, j), k) == if j == k then b else 0
    decreases j
  {
    hide Down, Up, Widen, Low;
    Zeroes();
    if j == 0 {
      LowOf(b, 0);
      if k > 0 {
        DropZero(k - 1);
      }
    } else if k == 0 {
      LowOf(b, At(b, j - 1));
    } else {
      AtFits(b, j - 1);
      DropMore(At(b, j - 1), j, 7);
      DownUp(At(b, j - 1));
      ByteOfAt(b, j - 1, k - 1);
    }
  }

  /** One more byte of a word taken out of what is left of it. */
  lemma {:induction false} TakeByte(w: bv64, j: nat)
    requires j < 8
    ensures Lift(Drop(w, j), j) == Xor(At(ByteOf(w, j), j), Lift(Drop(w, j + 1), j + 1))
  {
    hide Xor, Down, Up, Widen, Low;
    var rest := Drop(w, j);
    DropOnce(w, j);
    LowAndRest(rest);
    LiftXor(Widen(Low(rest)), Up(Down(rest)), j);
    LiftUp(Down(rest), j);
  }
}
