/** The bytes of each message, and how the peer takes them apart again. */
module WireFormat {
  import opened Prelude
  import opened Octets
  import opened PageHash
  import opened Protocol

  const MAX_MESSAGE_LENGTH := 0x10_0000
  const MAX_EXPONENT := 16

  // ---------------------------------------------------------------- numbers

  /** A 32-bit number, the most significant byte first. */
  function Uint32(x: nat): (bytes: seq<Byte>)
    requires x < U32_LIMIT
    ensures |bytes| == 4
  {
    [ToByte(x / 0x100_0000), ToByte(x / 0x1_0000 % 256), ToByte(x / 0x100 % 256), ToByte(x % 256)]
  }

  function Number(bytes: seq<Byte>): (x: nat)
    requires |bytes| == 4
    ensures x < U32_LIMIT
  {
    Value(bytes[0]) * 0x100_0000 + Value(bytes[1]) * 0x1_0000 + Value(bytes[2]) * 0x100 + Value(bytes[3])
  }

  lemma {:induction false} NumberOfUint32(x: nat)
    requires x < U32_LIMIT
    ensures Number(Uint32(x)) == x
  {
    hide ToByte, Value;
    Digits(x);
    ByteValue(x / 0x100_0000);
    ByteValue(x / 0x1_0000 % 256);
    ByteValue(x / 0x100 % 256);
    ByteValue(x % 256);
  }

  lemma {:induction false} Digits(x: nat)
    ensures x == x / 0x100_0000 * 0x100_0000 + x / 0x1_0000 % 256 * 0x1_0000 + x / 0x100 % 256 * 0x100 + x % 256
  {
    var q := x / 0x100;
    var r := q / 0x100;
    assert q == x / 0x100 && x == q * 0x100 + x % 256;
    assert x / 0x1_0000 == r && q == r * 0x100 + q % 256;
    assert x / 0x100_0000 == r / 0x100 && r == r / 0x100 * 0x100 + r % 256;
  }

  lemma {:induction false} Uint32OfNumber(bytes: seq<Byte>)
    requires |bytes| == 4
    ensures Uint32(Number(bytes)) == bytes
  {
    hide ToByte, Value;
    var a, b, c, d := Value(bytes[0]), Value(bytes[1]), Value(bytes[2]), Value(bytes[3]);
    DigitsOf(a, b, c, d);
    ValueByte(bytes[0]);
    ValueByte(bytes[1]);
    ValueByte(bytes[2]);
    ValueByte(bytes[3]);
  }

  /** The most significant byte comes first: where the bytes of two numbers first differ, the
      smaller number has the smaller byte. */
  lemma {:induction false} Uint32Ordered(x: nat, y: nat) returns (i: nat)
    requires x < y && Word(y)
    ensures i < 4 && Uint32(x)[..i] == Uint32(y)[..i] && Value(Uint32(x)[i]) < Value(Uint32(y)[i])
  {
    hide ToByte, Value, Uint32;
    NumberOfUint32(x);
    NumberOfUint32(y);
    i := FirstDifference(Uint32(x), Uint32(y));
  }

  lemma {:induction false} FirstDifference(a: seq<Byte>, b: seq<Byte>) returns (i: nat)
    requires |a| == |b| == 4 && Number(a) < Number(b)
    ensures i < 4 && a[..i] == b[..i] && Value(a[i]) < Value(b[i])
  {
    hide ToByte, Value;
    i := if a[0] != b[0] then 0 else if a[1] != b[1] then 1 else if a[2] != b[2] then 2 else 3;
    if Value(a[i]) == Value(b[i]) {
      ValueByte(a[i]);
      ValueByte(b[i]);
    }
  }

  lemma {:induction false} DigitsOf(a: nat, b: nat, c: nat, d: nat)
    requires a < 256 && b < 256 && c < 256 && d < 256
    ensures var x := a * 0x100_0000 + b * 0x1_0000 + c * 0x100 + d;
      x / 0x100_0000 == a && x / 0x1_0000 % 256 == b && x / 0x100 % 256 == c && x % 256 == d
  {
    var x := a * 0x100_0000 + b * 0x1_0000 + c * 0x100 + d;
    assert x / 0x1_0000 == a * 256 + b;
    assert x / 0x100 == (a * 256 + b) * 256 + c;
  }

  // ---------------------------------------------------------------- page sizes

  function Pow2(n: nat): (p: nat)
    ensures 1 <= p
  {
    if n == 0 then 1 else 2 * Pow2(n - 1)
  }

  /** How often `v` can be halved until it is at most one. */
  function Halvings(v: nat): nat {
    if v <= 1 then 0 else 1 + Halvings(v / 2)
  }

  lemma {:induction false} HalvingsOfPow2(n: nat)
    ensures Halvings(Pow2(n)) == n
  {
    if n > 0 {
      HalvingsOfPow2(n - 1);
      assert Pow2(n) / 2 == Pow2(n - 1);
    }
  }

  /** The page sizes the wire can carry: powers of two up to 65536. */
  predicate PageSize(v: nat) {
    1 <= v <= 65536 && v == Pow2(Halvings(v))
  }

  lemma {:induction false} Pow2Grows(n: nat, k: nat)
    requires n <= k
    ensures Pow2(n) <= Pow2(k)
    decreases k
  {
    if n < k {
      Pow2Grows(n, k - 1);
    }
  }

  lemma {:induction false} ExponentFits(v: nat)
    requires PageSize(v)
    ensures Halvings(v) <= MAX_EXPONENT
  {
    assert Pow2(8) == 256;
    assert Pow2(12) == 16 * Pow2(8);
    assert Pow2(17) == 32 * Pow2(12);
    if MAX_EXPONENT < Halvings(v) {
      Pow2Grows(MAX_EXPONENT + 1, Halvings(v));
      assert false;
    }
  }

  lemma {:induction false} SizeOfExponent(n: nat)
    requires n <= MAX_EXPONENT
    ensures PageSize(Pow2(n)) && Halvings(Pow2(n)) == n
  {
    HalvingsOfPow2(n);
    Pow2Grows(n, MAX_EXPONENT);
    assert Pow2(8) == 256;
    assert Pow2(12) == 16 * Pow2(8);
    assert Pow2(16) == 16 * Pow2(12);
  }

  /** Bitwise and. */
  function BitAnd(a: nat, b: nat): nat
    decreases a
  {
    if a == 0 || b == 0 then 0 else 2 * BitAnd(a / 2, b / 2) + (if a % 2 == 1 && b % 2 == 1 then 1 else 0)
  }

  /** The writer's test: no bit of v survives in v & (v-1). */
  predicate WritableSize(v: int) {
    0 <= v <= 65536 && (v == 0 || BitAnd(v, v - 1) == 0)
  }

  lemma {:induction false} AndSelf(v: nat)
    ensures BitAnd(v, v) == v
  {
    if v > 0 {
      AndSelf(v / 2);
    }
  }

  lemma {:induction false} AndBelow(v: nat)
    requires 1 <= v
    ensures BitAnd(v, v - 1) == 0 <==> v == Pow2(Halvings(v))
    decreases v
  {
    if v > 1 {
      var w := v / 2;
      if v % 2 == 0 {
        assert (v - 1) / 2 == w - 1 && (v - 1) % 2 == 1;
        AndBelow(w);
        AndEven(v);
      } else {
        assert (v - 1) / 2 == w && (v - 1) % 2 == 0;
        AndSelf(w);
        AndOdd(v);
      }
    }
  }

  lemma {:induction false} AndEven(v: nat)
    requires 2 <= v && v % 2 == 0
    ensures BitAnd(v, v - 1) == 2 * BitAnd(v / 2, v / 2 - 1)
    ensures v == Pow2(Halvings(v)) <==> v / 2 == Pow2(Halvings(v / 2))
  {
    assert (v - 1) / 2 == v / 2 - 1;
    assert Halvings(v) == 1 + Halvings(v / 2);
    assert Pow2(Halvings(v)) == 2 * Pow2(Halvings(v / 2));
  }

  lemma {:induction false} AndOdd(v: nat)
    requires 3 <= v && v % 2 == 1
    ensures BitAnd(v, v - 1) == 2 * BitAnd(v / 2, v / 2)
    ensures v != Pow2(Halvings(v))
  {
    assert (v - 1) / 2 == v / 2;
    assert Halvings(v) == 1 + Halvings(v / 2);
    assert Pow2(Halvings(v)) == 2 * Pow2(Halvings(v / 2));
  }

  /** The writer accepts exactly the page sizes the wire can carry, and zero. */
  lemma {:induction false} WritableSizes(v: int)
    ensures WritableSize(v) <==> v == 0 || (0 < v && PageSize(v))
  {
    if 1 <= v {
      AndBelow(v);
    }
  }

  // ---------------------------------------------------------------- one message

  /** A message taken off the stream and the bytes it used; or the stream closed before it, or
      inside it; or a field out of range; or an unknown type byte. */
  datatype Parse<T> = Parsed(message: T, used: nat) | Closed | Truncated | Malformed | Unknown {
    function As<U>(f: T -> U): Parse<U> {
      match this
      case Parsed(m, n) => Parsed(f(m), n)
      case Closed => Closed
      case Truncated => Truncated
      case Malformed => Malformed
      case Unknown => Unknown
    }
  }

  predicate Word(x: nat) {
    x < U32_LIMIT
  }

  /** What each field can carry, and what the peer accepts. */
  predicate OriginFits(m: OriginMsg) {
    match m
    case OBegin(protocol, pageSize, pageCount) => protocol < BYTE_LIMIT && PageSize(pageSize) && Word(pageCount)
    case ODetail(fpg, npg) => Word(fpg) && Word(npg)
    case OPage(pgno, _) => Word(pgno)
    case OTxn(pageCount) => Word(pageCount)
    case OError(text) => |text| <= MAX_MESSAGE_LENGTH
    case OInfo(text) => |text| <= MAX_MESSAGE_LENGTH
    case OReady | OEnd => true
  }

  predicate ReplicaFits(m: ReplicaMsg) {
    match m
    case RBegin(protocol) => protocol < BYTE_LIMIT
    case RConfig(fpg, npg) => Word(fpg) && Word(npg)
    case RError(text) => |text| <= MAX_MESSAGE_LENGTH
    case RInfo(text) => |text| <= MAX_MESSAGE_LENGTH
    case RHash(_) | RReady | REnd => true
  }

  function Text(kind: Byte, text: seq<Byte>): seq<Byte>
    requires Word(|text|)
  {
    [kind] + Uint32(|text|) + text
  }

  function Exponent(pageSize: nat): Byte
    requires PageSize(pageSize)
  {
    ExponentFits(pageSize);
    ToByte(Halvings(pageSize))
  }

  function OriginBytes(m: OriginMsg): (bytes: seq<Byte>)
    requires OriginFits(m)
    ensures bytes != []
  {
    match m
    case OBegin(protocol, pageSize, pageCount) => [0x41, ToByte(protocol), Exponent(pageSize)] + Uint32(pageCount)
    case OEnd => [0x42]
    case OError(text) => Text(0x43, text)
    case OPage(pgno, data) => [0x44] + Uint32(pgno) + data
    case OTxn(pageCount) => [0x45] + Uint32(pageCount)
    case OInfo(text) => Text(0x46, text)
    case ODetail(fpg, npg) => [0x47] + Uint32(fpg) + Uint32(npg)
    case OReady => [0x48]
  }

  function ReplicaBytes(m: ReplicaMsg): (bytes: seq<Byte>)
    requires ReplicaFits(m)
    ensures bytes != []
  {
    match m
    case RBegin(protocol) => [0x61, ToByte(protocol)]
    case RError(text) => Text(0x62, text)
    case REnd => [0x63]
    case RHash(digest) => [0x64] + digest
    case RReady => [0x65]
    case RInfo(text) => Text(0x66, text)
    case RConfig(fpg, npg) => [0x67] + Uint32(fpg) + Uint32(npg)
  }

  /** The 32-bit number at offset `i`. */
  function NumberAt(input: seq<Byte>, i: nat): (x: nat)
    requires i + 4 <= |input|
    ensures Word(x)
  {
    Number(input[i..i + 4])
  }

  /** The text of a text message, after its type byte. */
  function ParseText(input: seq<Byte>): Parse<seq<Byte>> {
    if |input| < 4 then Truncated
    else
      var n := NumberAt(input, 0);
      if n > MAX_MESSAGE_LENGTH then Malformed
      else if |input| < 4 + n then Truncated
      else Parsed(input[4..4 + n], 5 + n)
  }

  /** A message from the origin, when the last accepted ORIGIN_BEGIN named `pageSize`. */
  function ParseOrigin(input: seq<Byte>, pageSize: nat): (p: Parse<OriginMsg>)
    ensures p.Parsed? ==> 1 <= p.used <= |input|
  {
    if input == [] then Closed
    else
      match input[0]
      case 0x41 =>
        if |input| < 3 then Truncated
        else if MAX_EXPONENT < Value(input[2]) then Malformed
        else if |input| < 7 then Truncated
        else Parsed(OBegin(Value(input[1]), Pow2(Value(input[2])), NumberAt(input, 3)), 7)
      case 0x42 => Parsed(OEnd, 1)
      case 0x43 => ParseText(input[1..]).As(text => OError(text))
      case 0x44 =>
        if |input| < 5 + pageSize then Truncated
        else Parsed(OPage(NumberAt(input, 1), input[5..5 + pageSize]), 5 + pageSize)
      case 0x45 =>
        if |input| < 5 then Truncated else Parsed(OTxn(NumberAt(input, 1)), 5)
      case 0x46 => ParseText(input[1..]).As(text => OInfo(text))
      case 0x47 =>
        if |input| < 9 then Truncated else Parsed(ODetail(NumberAt(input, 1), NumberAt(input, 5)), 9)
      case 0x48 => Parsed(OReady, 1)
      case _ => Unknown
  }

  /** A message from the replica. */
  function ParseReplica(input: seq<Byte>): (p: Parse<ReplicaMsg>)
    ensures p.Parsed? ==> 1 <= p.used <= |input|
  {
    if input == [] then Closed
    else
      match input[0]
      case 0x61 =>
        if |input| < 2 then Truncated else Parsed(RBegin(Value(input[1])), 2)
      case 0x62 => ParseText(input[1..]).As(text => RError(text))
      case 0x63 => Parsed(REnd, 1)
      case 0x64 =>
        if |input| < 1 + DIGEST_LENGTH then Truncated
        else Parsed(RHash(input[1..1 + DIGEST_LENGTH]), 1 + DIGEST_LENGTH)
      case 0x65 => Parsed(RReady, 1)
      case 0x66 => ParseText(input[1..]).As(text => RInfo(text))
      case 0x67 =>
        if |input| < 9 then Truncated else Parsed(RConfig(NumberAt(input, 1), NumberAt(input, 5)), 9)
      case _ => Unknown
  }

  // ---------------------------------------------------------------- frames, byte by byte

  lemma {:induction false} SmallBytes()
    ensures ToByte(0) == 0 && ToByte(1) == 1 && ToByte(2) == 2 && ToByte(3) == 3 && ToByte(4) == 4 && ToByte(5) == 5
    ensures ToByte(12) == 12
  {
    assert ToByte(3) == ToByte(2) + 1 && ToByte(6) == ToByte(5) + 1 && ToByte(9) == ToByte(8) + 1;
    assert ToByte(8) == ToByte(7) + 1 && ToByte(11) == ToByte(10) + 1;
    ValueByte(12);
  }

  /** A number whose digits in base 256 are small. */
  lemma {:induction false} SmallNumber(a: nat, b: nat, c: nat, d: nat)
    requires a <= 5 && b <= 5 && c <= 5 && d <= 5
    ensures Uint32(a * 0x100_0000 + b * 0x1_0000 + c * 0x100 + d) == [ToByte(a), ToByte(b), ToByte(c), ToByte(d)]
  {
    hide ToByte, Value;
    DigitsOf(a, b, c, d);
  }

  /** One frame of each kind of origin message: its type byte, and its fields in their order. */
  lemma {:induction false} OriginFrames(page: seq<Byte>)
    ensures OriginBytes(OEnd) == [0x42]
    ensures OriginBytes(OPage(0x0102_0304, page)) == [0x44, 1, 2, 3, 4] + page
    ensures OriginBytes(OTxn(0x0102_0304)) == [0x45, 1, 2, 3, 4]
    ensures OriginBytes(OReady) == [0x48]
  {
    hide ToByte, Value, Uint32, PageSize, Exponent, Text;
    SmallBytes();
    SmallNumber(1, 2, 3, 4);
  }

  lemma {:induction false} DetailFrame()
    ensures OriginBytes(ODetail(0x0102_0304, 0x0005_0001)) == [0x47, 1, 2, 3, 4, 0, 5, 0, 1]
  {
    hide ToByte, Value, Uint32, PageSize, Exponent, Text;
    SmallBytes();
    SmallNumber(1, 2, 3, 4);
    SmallNumber(0, 5, 0, 1);
  }

  lemma {:induction false} TextFrames(text: seq<Byte>)
    requires |text| == 3
    ensures OriginBytes(OError(text)) == [0x43, 0, 0, 0, 3] + text
    ensures OriginBytes(OInfo(text)) == [0x46, 0, 0, 0, 3] + text
    ensures ReplicaBytes(RError(text)) == [0x62, 0, 0, 0, 3] + text
    ensures ReplicaBytes(RInfo(text)) == [0x66, 0, 0, 0, 3] + text
  {
    hide ToByte, Value, Uint32, PageSize, Exponent, OriginBytes, ReplicaBytes;
    SmallBytes();
    SmallNumber(0, 0, 0, 3);
    TextsAre(text);
  }

  lemma {:induction false} TextsAre(text: seq<Byte>)
    requires |text| <= MAX_MESSAGE_LENGTH
    ensures OriginBytes(OError(text)) == Text(0x43, text) && OriginBytes(OInfo(text)) == Text(0x46, text)
    ensures ReplicaBytes(RError(text)) == Text(0x62, text) && ReplicaBytes(RInfo(text)) == Text(0x66, text)
  {
    hide Text, Uint32;
  }

  /** ORIGIN_BEGIN: the version, the exponent of the page size, the page count. */
  lemma {:induction false} BeginFrame()
    ensures PageSize(4096) && OriginBytes(OBegin(2, 4096, 0x0102_0304)) == [0x41, 2, 12, 1, 2, 3, 4]
  {
    hide ToByte, Value, Uint32;
    SizeOfExponent(12);
    PowerTwelve();
    hide Pow2, Halvings;
    SmallBytes();
    SmallNumber(1, 2, 3, 4);
  }

  lemma {:induction false} PowerTwelve()
    ensures Pow2(12) == 4096
  {
    assert Pow2(4) == 16;
    assert Pow2(8) == 16 * Pow2(4);
    assert Pow2(12) == 16 * Pow2(8);
  }

  /** One frame of each other kind of replica message. */
  lemma {:induction false} ReplicaFrames(digest: Digest)
    ensures ReplicaBytes(RBegin(1)) == [0x61, 1]
    ensures ReplicaBytes(REnd) == [0x63]
    ensures ReplicaBytes(RHash(digest)) == [0x64] + digest && |ReplicaBytes(RHash(digest))| == 21
    ensures ReplicaBytes(RReady) == [0x65]
    ensures ReplicaBytes(RConfig(0x0102_0304, 0x0005_0001)) == [0x67, 1, 2, 3, 4, 0, 5, 0, 1]
  {
    hide ToByte, Value, Uint32, Text;
    SmallBytes();
    SmallNumber(1, 2, 3, 4);
    SmallNumber(0, 5, 0, 1);
  }

  /** A text is accepted up to 1 MiB, and refused beyond before any of it is read. */
  lemma {:induction false} TextLimit(n: nat, rest: seq<Byte>)
    requires Word(n) && n <= |rest|
    ensures ParseText(Uint32(n) + rest) == if n <= 1048576 then Parsed(rest[..n], 5 + n) else Malformed
  {
    hide Uint32, Number;
    var input := Uint32(n) + rest;
    assert input[0..4] == Uint32(n);
    NumberThere(input, 0, n);
    assert n <= 1048576 ==> input[4..4 + n] == rest[..n];
  }

  // ---------------------------------------------------------------- round trips

  lemma {:induction false} NumberThere(input: seq<Byte>, i: nat, x: nat)
    requires i + 4 <= |input| && Word(x) && input[i..i + 4] == Uint32(x)
    ensures NumberAt(input, i) == x
  {
    NumberOfUint32(x);
  }

  lemma {:induction false} TextInverse(kind: Byte, text: seq<Byte>, rest: seq<Byte>)
    requires |text| <= MAX_MESSAGE_LENGTH
    ensures ParseText((Text(kind, text) + rest)[1..]) == Parsed(text, |Text(kind, text)|)
  {
    hide Uint32, Number;
    var input := (Text(kind, text) + rest)[1..];
    assert input[0..4] == Uint32(|text|);
    NumberThere(input, 0, |text|);
    assert input[4..4 + |text|] == text;
  }

  predicate InPage(m: OriginMsg, pageSize: nat) {
    m.OPage? ==> |m.data| == pageSize
  }

  /** What the origin wrote the replica reads, whatever follows it on the stream. */
  lemma {:induction false} OriginInverse(m: OriginMsg, pageSize: nat, rest: seq<Byte>)
    requires OriginFits(m) && InPage(m, pageSize)
    ensures ParseOrigin(OriginBytes(m) + rest, pageSize) == Parsed(m, |OriginBytes(m)|)
  {
    hide Uint32, Number, ToByte, Value, Pow2, Halvings;
    var input := OriginBytes(m) + rest;
    match m {
      case OBegin(protocol, size, pageCount) =>
        ExponentFits(size);
        ByteValue(protocol);
        ByteValue(Halvings(size));
        assert input[3..7] == Uint32(pageCount);
        NumberThere(input, 3, pageCount);
      case ODetail(fpg, npg) =>
        assert input[1..5] == Uint32(fpg) && input[5..9] == Uint32(npg);
        NumberThere(input, 1, fpg);
        NumberThere(input, 5, npg);
      case OPage(pgno, data) =>
        assert input[1..5] == Uint32(pgno) && input[5..5 + pageSize] == data;
        NumberThere(input, 1, pgno);
      case OTxn(pageCount) =>
        assert input[1..5] == Uint32(pageCount);
        NumberThere(input, 1, pageCount);
      case OError(text) => TextInverse(0x43, text, rest);
      case OInfo(text) => TextInverse(0x46, text, rest);
      case OReady | OEnd =>
    }
  }

  lemma {:induction false} ReplicaInverse(m: ReplicaMsg, rest: seq<Byte>)
    requires ReplicaFits(m)
    ensures ParseReplica(ReplicaBytes(m) + rest) == Parsed(m, |ReplicaBytes(m)|)
  {
    hide Uint32, Number, ToByte, Value;
    var input := ReplicaBytes(m) + rest;
    match m {
      case RBegin(protocol) => ByteValue(protocol);
      case RConfig(fpg, npg) =>
        assert input[1..5] == Uint32(fpg) && input[5..9] == Uint32(npg);
        NumberThere(input, 1, fpg);
        NumberThere(input, 5, npg);
      case RHash(digest) => assert input[1..1 + DIGEST_LENGTH] == digest;
      case RError(text) => TextInverse(0x62, text, rest);
      case RInfo(text) => TextInverse(0x66, text, rest);
      case RReady | REnd =>
    }
  }

  /** A stream that ends inside a message is noticed, and nothing is made up for it. */
  lemma {:induction false} OriginCut(m: OriginMsg, pageSize: nat, k: nat)
    requires OriginFits(m) && InPage(m, pageSize) && k < |OriginBytes(m)|
    ensures ParseOrigin(OriginBytes(m)[..k], pageSize) == if k == 0 then Closed else Truncated
  {
    hide Uint32, Number, ToByte, Value, Pow2, Halvings;
    var input := OriginBytes(m)[..k];
    match m {
      case OBegin(protocol, size, pageCount) =>
        ExponentFits(size);
        ByteValue(Halvings(size));
      case OError(text) => TextCut(0x43, text, k);
      case OInfo(text) => TextCut(0x46, text, k);
      case ODetail(_, _) | OPage(_, _) | OTxn(_) | OReady | OEnd =>
    }
  }

  lemma {:induction false} ReplicaCut(m: ReplicaMsg, k: nat)
    requires ReplicaFits(m) && k < |ReplicaBytes(m)|
    ensures ParseReplica(ReplicaBytes(m)[..k]) == if k == 0 then Closed else Truncated
  {
    hide Uint32, Number, ToByte, Value;
    match m {
      case RError(text) => TextCut(0x62, text, k);
      case RInfo(text) => TextCut(0x66, text, k);
      case RBegin(_) | RConfig(_, _) | RHash(_) | RReady | REnd =>
    }
  }

  lemma {:induction false} TextCut(kind: Byte, text: seq<Byte>, k: nat)
    requires |text| <= MAX_MESSAGE_LENGTH && k < |Text(kind, text)|
    ensures 1 <= k ==> ParseText(Text(kind, text)[..k][1..]) == Truncated
  {
    hide Uint32, Number;
    if 5 <= k {
      var input := Text(kind, text)[..k][1..];
      assert input[0..4] == Uint32(|text|);
      NumberThere(input, 0, |text|);
    }
  }

  /** There is one encoding: what was read, written again, gives the bytes it was read from. */
  lemma {:induction false} OriginCanonical(input: seq<Byte>, pageSize: nat)
    requires ParseOrigin(input, pageSize).Parsed?
    ensures var p := ParseOrigin(input, pageSize);
      OriginFits(p.message) && InPage(p.message, pageSize) && OriginBytes(p.message) == input[..p.used]
  {
    hide Uint32, Number, ToByte, Value, Pow2, Halvings;
    var p := ParseOrigin(input, pageSize);
    match p.message {
      case OBegin(_, _, _) =>
        SizeOfExponent(Value(input[2]));
        ValueByte(input[1]);
        ValueByte(input[2]);
        Uint32OfNumber(input[3..7]);
        assert input[..7] == [input[0], input[1], input[2]] + input[3..7];
      case ODetail(_, _) =>
        Uint32OfNumber(input[1..5]);
        Uint32OfNumber(input[5..9]);
        assert input[..9] == [input[0]] + input[1..5] + input[5..9];
      case OPage(_, data) =>
        Uint32OfNumber(input[1..5]);
        assert input[..p.used] == [input[0]] + input[1..5] + data;
      case OTxn(_) =>
        Uint32OfNumber(input[1..5]);
        assert input[..5] == [input[0]] + input[1..5];
      case OError(_) => TextCanonical(input);
      case OInfo(_) => TextCanonical(input);
      case OReady | OEnd =>
    }
  }

  lemma {:induction false} ReplicaCanonical(input: seq<Byte>)
    requires ParseReplica(input).Parsed?
    ensures var p := ParseReplica(input);
      ReplicaFits(p.message) && ReplicaBytes(p.message) == input[..p.used]
  {
    hide Uint32, Number, ToByte, Value;
    var p := ParseReplica(input);
    match p.message {
      case RBegin(_) => ValueByte(input[1]);
      case RConfig(_, _) =>
        Uint32OfNumber(input[1..5]);
        Uint32OfNumber(input[5..9]);
        assert input[..9] == [input[0]] + input[1..5] + input[5..9];
      case RHash(digest) => assert input[..p.used] == [input[0]] + digest;
      case RError(_) => TextCanonical(input);
      case RInfo(_) => TextCanonical(input);
      case RReady | REnd =>
    }
  }

  lemma {:induction false} TextCanonical(input: seq<Byte>)
    requires input != [] && ParseText(input[1..]).Parsed?
    ensures var p := ParseText(input[1..]);
      p.used <= |input| && |p.message| <= MAX_MESSAGE_LENGTH && Text(input[0], p.message) == input[..p.used]
  {
    hide Uint32, Number;
    var rest := input[1..];
    var p := ParseText(rest);
    Uint32OfNumber(rest[0..4]);
    assert input[..p.used] == [input[0]] + rest[0..4] + p.message;
  }

  // ---------------------------------------------------------------- a stream of messages

  /** What the replica keeps from ORIGIN_BEGIN: its version, and the page size of the last one
      unless that was refused as too new. Then no database is open, and no page is read. */
  datatype Context = Context(protocol: nat, pageSize: nat)

  function Accept(c: Context, m: OriginMsg): Context {
    if !m.OBegin? then c
    else if m.protocol <= c.protocol then Context(m.protocol, m.pageSize)
    else c.(pageSize := 0)
  }

  function AcceptAll(c: Context, msgs: seq<OriginMsg>): Context
    decreases |msgs|
  {
    if msgs == [] then c else AcceptAll(Accept(c, msgs[0]), msgs[1..])
  }

  predicate Writable(msgs: seq<OriginMsg>) {
    forall i :: 0 <= i < |msgs| ==> OriginFits(msgs[i])
  }

  /** Each message fits its fields, and each page has the length the stream has announced. */
  predicate Sendable(c: Context, msgs: seq<OriginMsg>): (sendable: bool)
    ensures sendable ==> Writable(msgs)
    decreases |msgs|
  {
    msgs == []
    || (OriginFits(msgs[0]) && InPage(msgs[0], c.pageSize) && Sendable(Accept(c, msgs[0]), msgs[1..]))
  }

  predicate Answerable(msgs: seq<ReplicaMsg>) {
    forall i :: 0 <= i < |msgs| ==> ReplicaFits(msgs[i])
  }

  function DownBytes(msgs: seq<OriginMsg>): seq<Byte>
    requires Writable(msgs)
    decreases |msgs|
  {
    if msgs == [] then [] else OriginBytes(msgs[0]) + DownBytes(msgs[1..])
  }

  lemma {:induction false} DownBytesAppend(a: seq<OriginMsg>, b: seq<OriginMsg>)
    requires Writable(a + b)
    ensures Writable(a) && Writable(b) && DownBytes(a + b) == DownBytes(a) + DownBytes(b)
    decreases |a|
  {
    hide OriginFits, OriginBytes;
    assert forall i :: 0 <= i < |a| ==> (a + b)[i] == a[i];
    assert forall i :: 0 <= i < |b| ==> (a + b)[|a| + i] == b[i];
    if a == [] {
      assert a + b == b;
    } else {
      assert (a + b)[1..] == a[1..] + b;
      DownBytesAppend(a[1..], b);
    }
  }

  function UpBytes(msgs: seq<ReplicaMsg>): seq<Byte>
    requires Answerable(msgs)
    decreases |msgs|
  {
    if msgs == [] then [] else ReplicaBytes(msgs[0]) + UpBytes(msgs[1..])
  }

  lemma {:induction false} UpBytesAppend(a: seq<ReplicaMsg>, b: seq<ReplicaMsg>)
    requires Answerable(a + b)
    ensures Answerable(a) && Answerable(b) && UpBytes(a + b) == UpBytes(a) + UpBytes(b)
    decreases |a|
  {
    hide ReplicaFits, ReplicaBytes;
    assert forall i :: 0 <= i < |a| ==> (a + b)[i] == a[i];
    assert forall i :: 0 <= i < |b| ==> (a + b)[|a| + i] == b[i];
    if a == [] {
      assert a + b == b;
    } else {
      assert (a + b)[1..] == a[1..] + b;
      UpBytesAppend(a[1..], b);
    }
  }

  /** The replica's reading of a byte stream, message by message, up to the first that is not
      complete. */
  function ParseDown(c: Context, input: seq<Byte>): seq<OriginMsg>
    decreases |input|
  {
    match ParseOrigin(input, c.pageSize)
    case Parsed(m, used) => [m] + ParseDown(Accept(c, m), input[used..])
    case _ => []
  }

  function ParseUp(input: seq<Byte>): seq<ReplicaMsg>
    decreases |input|
  {
    match ParseReplica(input)
    case Parsed(m, used) => [m] + ParseUp(input[used..])
    case _ => []
  }

  lemma {:induction false} SendablePrefix(c: Context, msgs: seq<OriginMsg>, j: nat)
    requires Sendable(c, msgs) && j <= |msgs|
    ensures Sendable(c, msgs[..j])
    decreases |msgs|
  {
    if j > 0 {
      SendablePrefix(Accept(c, msgs[0]), msgs[1..], j - 1);
      assert msgs[..j][1..] == msgs[1..][..j - 1];
    }
  }

  lemma {:induction false} CutSum(first: seq<Byte>, tail: seq<Byte>, k: nat)
    requires k <= |first + tail|
    ensures k < |first| ==> (first + tail)[..k] == first[..k]
    ensures |first| <= k ==> (first + tail)[..k] == first + tail[..k - |first|]
    ensures |first| <= k ==> (first + tail)[..k][|first|..] == tail[..k - |first|]
  {
  }

  /** However a stream is cut, the replica reads exactly the messages that arrived in full. The
      uncut stream gives back all messages. */
  lemma {:induction false} DownStream(c: Context, msgs: seq<OriginMsg>, k: nat) returns (j: nat)
    requires Sendable(c, msgs) && k <= |DownBytes(msgs)|
    ensures j <= |msgs| && ParseDown(c, DownBytes(msgs)[..k]) == msgs[..j]
    ensures k == |DownBytes(msgs)| ==> j == |msgs|
    ensures Sendable(c, msgs[..j]) && |DownBytes(msgs[..j])| <= k
    ensures j < |msgs| ==> Sendable(c, msgs[..j + 1]) && k < |DownBytes(msgs[..j + 1])|
    decreases |msgs|
  {
    hide OriginBytes, ParseOrigin, OriginFits, InPage, Accept;
    if msgs == [] {
      j := 0;
      EmptyInput(c.pageSize);
    } else {
      var m, rest := msgs[0], msgs[1..];
      var first, tail := OriginBytes(m), DownBytes(rest);
      CutSum(first, tail, k);
      if k < |first| {
        j := 0;
        OriginCut(m, c.pageSize, k);
        assert msgs[..1][1..] == [];
      } else {
        var i := DownStream(Accept(c, m), rest, k - |first|);
        j := i + 1;
        OriginInverse(m, c.pageSize, tail[..k - |first|]);
        assert msgs[..j][1..] == rest[..i];
        assert msgs[..j] == [m] + rest[..i];
        if i < |rest| {
          assert msgs[..j + 1][1..] == rest[..i + 1];
        }
      }
    }
  }

  lemma {:induction false} EmptyInput(pageSize: nat)
    ensures ParseOrigin([], pageSize) == Closed && ParseReplica([]) == Closed
  {
  }

  lemma {:induction false} UpStream(msgs: seq<ReplicaMsg>, k: nat) returns (j: nat)
    requires Answerable(msgs) && k <= |UpBytes(msgs)|
    ensures j <= |msgs| && ParseUp(UpBytes(msgs)[..k]) == msgs[..j]
    ensures k == |UpBytes(msgs)| ==> j == |msgs|
    ensures |UpBytes(msgs[..j])| <= k
    ensures j < |msgs| ==> k < |UpBytes(msgs[..j + 1])|
    decreases |msgs|
  {
    hide ReplicaBytes, ParseReplica, ReplicaFits;
    if msgs == [] {
      j := 0;
      EmptyInput(0);
    } else {
      var m, rest := msgs[0], msgs[1..];
      var first, tail := ReplicaBytes(m), UpBytes(rest);
      CutSum(first, tail, k);
      if k < |first| {
        j := 0;
        ReplicaCut(m, k);
        assert msgs[..1][1..] == [];
      } else {
        var i := UpStream(rest, k - |first|);
        j := i + 1;
        ReplicaInverse(m, tail[..k - |first|]);
        assert msgs[..j][1..] == rest[..i];
        assert msgs[..j] == [m] + rest[..i];
        if i < |rest| {
          assert msgs[..j + 1][1..] == rest[..i + 1];
        }
      }
    }
  }
}
