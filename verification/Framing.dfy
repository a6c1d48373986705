/** The buffered, counting reader and writer of message fields. */
module Framing {
  import opened Prelude
  import opened Octets
  import opened PageHash
  import opened Protocol
  import opened WireFormat

  /** The size of the write buffer. */
  const BUFFER := 4096

  datatype ReadError = EndOfStream | UnexpectedEnd | NegativeCount | BadExponent | TooLong

  datatype Result<+T> = Ok(value: T) | Err(error: ReadError)

  /** What the writer counts for a message: the type byte of a text message goes out uncounted. */
  function Counted(m: OriginMsg): (n: nat)
    requires OriginFits(m)
  {
    |OriginBytes(m)| - (if m.OError? || m.OInfo? then 1 else 0)
  }

  function CountedReply(m: ReplicaMsg): (n: nat)
    requires ReplicaFits(m)
  {
    |ReplicaBytes(m)| - (if m.RError? || m.RInfo? then 1 else 0)
  }

  /** What the origin's writer has counted after some messages. */
  function DownCounted(msgs: seq<OriginMsg>): nat
    requires Writable(msgs)
    decreases |msgs|
  {
    if msgs == [] then 0 else Counted(msgs[0]) + DownCounted(msgs[1..])
  }

  /** What the replica's writer has counted. */
  function UpCounted(msgs: seq<ReplicaMsg>): nat
    requires Answerable(msgs)
    decreases |msgs|
  {
    if msgs == [] then 0 else CountedReply(msgs[0]) + UpCounted(msgs[1..])
  }

  lemma {:induction false} DownCountedAppend(a: seq<OriginMsg>, b: seq<OriginMsg>)
    requires Writable(a) && Writable(b)
    ensures Writable(a + b) && DownCounted(a + b) == DownCounted(a) + DownCounted(b)
    decreases |a|
  {
    hide OriginFits, Counted;
    if a == [] {
      assert a + b == b;
    } else {
      assert (a + b)[1..] == a[1..] + b;
      DownCountedAppend(a[1..], b);
    }
  }

  lemma {:induction false} UpCountedAppend(a: seq<ReplicaMsg>, b: seq<ReplicaMsg>)
    requires Answerable(a) && Answerable(b)
    ensures Answerable(a + b) && UpCounted(a + b) == UpCounted(a) + UpCounted(b)
    decreases |a|
  {
    hide ReplicaFits, CountedReply;
    if a == [] {
      assert a + b == b;
    } else {
      assert (a + b)[1..] == a[1..] + b;
      UpCountedAppend(a[1..], b);
    }
  }

  // ---------------------------------------------------------------- writing

  class Writer {
    /** What the connection has been given, and what the buffer still holds. */
    var delivered: seq<Byte>
    var pending: seq<Byte>
    var bytesWritten: nat

    ghost predicate Valid()
      reads this
    {
      |pending| <= BUFFER
    }

    ghost function Sent(): seq<Byte>
      reads this
    {
      delivered + pending
    }

    constructor ()
      ensures Valid() && Sent() == [] && bytesWritten == 0
    {
      delivered, pending, bytesWritten := [], [], 0;
    }

    /** Bytes enter the buffer; when it is full it spills, and a long write to an empty buffer
        passes it by. */
    method Write(p: seq<Byte>)
      requires Valid()
      modifies this`delivered, this`pending
      ensures Valid() && Sent() == old(Sent()) + p
      ensures old(delivered) <= delivered
    {
      var rest := p;
      while |rest| > BUFFER - |pending|
        invariant Valid() && Sent() + rest == old(Sent()) + p
        invariant old(delivered) <= delivered
        decreases |rest|, |pending|
      {
        if pending == [] {
          delivered, rest := delivered + rest, [];
        } else {
          var n := BUFFER - |pending|;
          delivered, pending, rest := delivered + (pending + rest[..n]), [], rest[n..];
        }
      }
      pending := pending + rest;
    }

    method Flush()
      requires Valid()
      modifies this`delivered, this`pending
      ensures Valid() && Sent() == old(Sent()) && pending == [] && delivered == Sent()
    {
      delivered, pending := delivered + pending, [];
    }

    method WriteByte(b: Byte)
      requires Valid()
      modifies this
      ensures Valid() && Sent() == old(Sent()) + [b] && bytesWritten == old(bytesWritten) + 1
      ensures old(delivered) <= delivered
    {
      Write([b]);
      bytesWritten := bytesWritten + 1;
    }

    method WriteBytes(p: seq<Byte>)
      requires Valid()
      modifies this
      ensures Valid() && Sent() == old(Sent()) + p && bytesWritten == old(bytesWritten) + |p|
      ensures old(delivered) <= delivered
    {
      Write(p);
      bytesWritten := bytesWritten + |p|;
    }

    method WriteUint32(x: nat)
      requires Valid() && Word(x)
      modifies this
      ensures Valid() && Sent() == old(Sent()) + Uint32(x) && bytesWritten == old(bytesWritten) + 4
      ensures old(delivered) <= delivered
    {
      WriteBytes([ToByte(x / 0x100_0000), ToByte(x / 0x1_0000 % 256), ToByte(x / 0x100 % 256), ToByte(x % 256)]);
    }

    /** The exponent of a page size goes out; what is not one is refused before anything is
        written. Zero is let through as if it were one. */
    method WritePow2(v: int) returns (ok: bool)
      requires Valid()
      modifies this
      ensures Valid() && old(delivered) <= delivered
      ensures ok <==> v == 0 || (0 < v && PageSize(v))
      ensures !ok ==> Sent() == old(Sent()) && bytesWritten == old(bytesWritten)
      ensures ok ==> bytesWritten == old(bytesWritten) + 1
      ensures ok ==> PageSize(Max(v, 1)) && Sent() == old(Sent()) + [Exponent(Max(v, 1))]
    {
      WritableSizes(v);
      if !WritableSize(v) {
        return false;
      }
      var n, u: nat := 0, v;
      while u > 1
        invariant n + Halvings(u) == Halvings(v)
      {
        u := u / 2;
        n := n + 1;
      }
      assert PageSize(1) && Halvings(1) == Halvings(0) == 0;
      ExponentFits(Max(v, 1));
      WriteByte(ToByte(n));
      ok := true;
    }

    /** A text message, flushed. Its type byte is not counted. */
    method WriteMessage(kind: Byte, payload: seq<Byte>)
      requires Valid() && Word(|payload|)
      modifies this
      ensures Valid() && Sent() == old(Sent()) + Text(kind, payload) && pending == []
      ensures bytesWritten == old(bytesWritten) + |Text(kind, payload)| - 1
      ensures old(delivered) <= delivered
    {
      Write([kind]);
      WriteUint32(|payload|);
      WriteBytes(payload);
      Flush();
    }

    /** ORIGIN_BEGIN, field by field. */
    method SendBegin(protocol: nat, pageSize: nat, pageCount: nat)
      requires Valid() && OriginFits(OBegin(protocol, pageSize, pageCount))
      modifies this
      ensures Valid() && Sent() == old(Sent()) + OriginBytes(OBegin(protocol, pageSize, pageCount))
      ensures bytesWritten == old(bytesWritten) + 7
      ensures old(delivered) <= delivered
    {
      hide Uint32, Exponent, ToByte, Pow2, Halvings;
      ghost var before := Sent();
      WriteByte(0x41);
      WriteByte(ToByte(protocol));
      var ok := WritePow2(pageSize);
      WriteUint32(pageCount);
      assert Sent() == before + ([0x41, ToByte(protocol), Exponent(pageSize)] + Uint32(pageCount));
    }

    /** The origin's messages, field by field. */
    method SendOrigin(m: OriginMsg)
      requires Valid() && OriginFits(m)
      modifies this
      ensures Valid() && Sent() == old(Sent()) + OriginBytes(m)
      ensures bytesWritten == old(bytesWritten) + Counted(m)
      ensures old(delivered) <= delivered
      ensures m.OError? || m.OInfo? ==> pending == []
    {
      hide Uint32, Exponent, ToByte, Pow2, Halvings;
      ghost var before := Sent();
      match m {
        case OBegin(protocol, pageSize, pageCount) =>
          SendBegin(protocol, pageSize, pageCount);
        case ODetail(fpg, npg) =>
          WriteByte(0x47);
          WriteUint32(fpg);
          WriteUint32(npg);
          assert Sent() == before + ([0x47] + Uint32(fpg) + Uint32(npg));
        case OReady => WriteByte(0x48);
        case OPage(pgno, data) =>
          WriteByte(0x44);
          WriteUint32(pgno);
          WriteBytes(data);
          assert Sent() == before + ([0x44] + Uint32(pgno) + data);
        case OTxn(pageCount) =>
          WriteByte(0x45);
          WriteUint32(pageCount);
          assert Sent() == before + ([0x45] + Uint32(pageCount));
        case OEnd => WriteByte(0x42);
        case OError(text) => WriteMessage(0x43, text);
        case OInfo(text) => WriteMessage(0x46, text);
      }
    }

    /** The replica's messages, field by field. */
    method SendReplica(m: ReplicaMsg)
      requires Valid() && ReplicaFits(m)
      modifies this
      ensures Valid() && Sent() == old(Sent()) + ReplicaBytes(m)
      ensures bytesWritten == old(bytesWritten) + CountedReply(m)
      ensures old(delivered) <= delivered
      ensures m.RError? || m.RInfo? ==> pending == []
    {
      hide Uint32;
      ghost var before := Sent();
      match m {
        case RBegin(protocol) =>
          WriteByte(0x61);
          WriteByte(ToByte(protocol));
          assert Sent() == before + [0x61, ToByte(protocol)];
        case RConfig(fpg, npg) =>
          WriteByte(0x67);
          WriteUint32(fpg);
          WriteUint32(npg);
          assert Sent() == before + ([0x67] + Uint32(fpg) + Uint32(npg));
        case RHash(digest) =>
          WriteByte(0x64);
          WriteBytes(digest);
          assert Sent() == before + ([0x64] + digest);
        case RReady => WriteByte(0x65);
        case REnd => WriteByte(0x63);
        case RError(text) => WriteMessage(0x62, text);
        case RInfo(text) => WriteMessage(0x66, text);
      }
    }
  }

  // ---------------------------------------------------------------- reading

  class Reader {
    /** Everything that arrives before the stream is closed. */
    const input: seq<Byte>
    var pos: nat
    var bytesRead: nat

    ghost predicate Valid()
      reads this
    {
      pos <= |input|
    }

    ghost function Rest(): seq<Byte>
      reads this
      requires Valid()
    {
      input[pos..]
    }

    constructor (input: seq<Byte>)
      ensures Valid() && Rest() == input && this.input == input && bytesRead == 0
    {
      this.input, pos, bytesRead := input, 0, 0;
    }

    /** `n` bytes, or the end of the stream before or among them; what there was is consumed. */
    method ReadFull(n: nat) returns (r: Result<seq<Byte>>)
      requires Valid()
      modifies this`pos
      ensures Valid()
      ensures r.Ok? <==> n <= |old(Rest())|
      ensures r.Ok? ==> r.value == old(Rest())[..n] && Rest() == old(Rest())[n..]
      ensures r.Err? ==> Rest() == []
      ensures r.Err? ==> r.error == if old(Rest()) == [] then EndOfStream else UnexpectedEnd
      ensures old(pos) <= pos
    {
      if n <= |input| - pos {
        r := Ok(input[pos..pos + n]);
        pos := pos + n;
      } else {
        r := Err(if pos == |input| then EndOfStream else UnexpectedEnd);
        pos := |input|;
      }
    }

    /** Only a field that was read in full is counted. */
    method ReadBytes(nByte: int) returns (r: Result<seq<Byte>>)
      requires Valid()
      modifies this
      ensures Valid()
      ensures nByte < 0 ==> r == Err(NegativeCount) && pos == old(pos) && bytesRead == old(bytesRead)
      ensures nByte >= 0 ==> (r.Ok? <==> nByte <= |old(Rest())|)
      ensures r.Ok? ==> nByte >= 0 && r.value == old(Rest())[..nByte] && Rest() == old(Rest())[nByte..]
      ensures nByte >= 0 && r.Err? ==> Rest() == [] && (r.error.EndOfStream? || r.error.UnexpectedEnd?)
      ensures bytesRead == old(bytesRead) + if r.Ok? then nByte else 0
    {
      if nByte < 0 {
        return Err(NegativeCount);
      }
      r := ReadFull(nByte);
      if r.Ok? {
        bytesRead := bytesRead + nByte;
      }
    }

    method ReadByte() returns (r: Result<Byte>)
      requires Valid()
      modifies this
      ensures Valid()
      ensures r.Ok? <==> old(Rest()) != []
      ensures r.Ok? ==> r.value == old(Rest())[0] && Rest() == old(Rest())[1..]
      ensures r.Err? ==> r.error == EndOfStream && Rest() == []
      ensures bytesRead == old(bytesRead) + if r.Ok? then 1 else 0
    {
      var b := ReadBytes(1);
      r := if b.Ok? then Ok(b.value[0]) else Err(EndOfStream);
    }

    method ReadUint32() returns (r: Result<nat>)
      requires Valid()
      modifies this
      ensures Valid()
      ensures r.Ok? <==> 4 <= |old(Rest())|
      ensures r.Ok? ==> r.value == NumberAt(old(Rest()), 0) && Rest() == old(Rest())[4..]
      ensures r.Err? ==> Rest() == [] && (r.error.EndOfStream? || r.error.UnexpectedEnd?)
      ensures bytesRead == old(bytesRead) + if r.Ok? then 4 else 0
    {
      var b := ReadBytes(4);
      if b.Err? {
        return Err(b.error);
      }
      var x := b.value;
      r := Ok(Value(x[0]) * 0x100_0000 + Value(x[1]) * 0x1_0000 + Value(x[2]) * 0x100 + Value(x[3]));
    }

    /** A byte that is no exponent up to 16 is counted and refused. */
    method ReadPow2() returns (r: Result<nat>)
      requires Valid()
      modifies this
      ensures Valid()
      ensures old(Rest()) == [] ==> r == Err(EndOfStream) && Rest() == [] && bytesRead == old(bytesRead)
      ensures old(Rest()) != [] ==> Rest() == old(Rest())[1..] && bytesRead == old(bytesRead) + 1
      ensures old(Rest()) != [] ==>
        var x := Value(old(Rest())[0]); r == if x > MAX_EXPONENT then Err(BadExponent) else Ok(Pow2(x))
      ensures r.Ok? ==> PageSize(r.value)
    {
      var b := ReadByte();
      if b.Err? {
        return Err(b.error);
      }
      if Value(b.value) > MAX_EXPONENT {
        return Err(BadExponent);
      }
      SizeOfExponent(Value(b.value));
      r := Ok(Pow2(Value(b.value)));
    }

    /** The text of a text message whose type byte has been read. */
    method ReadMessage() returns (r: Result<seq<Byte>>)
      requires Valid()
      modifies this
      ensures Valid()
      ensures match r
        case Ok(text) =>
          && ParseText(old(Rest())) == Parsed(text, 5 + |text|)
          && Rest() == old(Rest())[4 + |text|..] && bytesRead == old(bytesRead) + 4 + |text|
        case Err(error) =>
          && ParseText(old(Rest())) == (Failure<seq<Byte>>(error))
          && old(bytesRead) <= bytesRead <= old(bytesRead) + |old(Rest())|
    {
      hide Number;
      ghost var rest := Rest();
      var n := ReadUint32();
      if n.Err? {
        return Err(n.error);
      }
      if n.value > MAX_MESSAGE_LENGTH {
        return Err(TooLong);
      }
      r := ReadBytes(n.value);
      assert r.Ok? ==> rest[4..4 + n.value] == rest[4..][..n.value];
    }

    /** What a field that could not be read means for its message. */
    function Failure<T>(error: ReadError): Parse<T> {
      if error.TooLong? || error.BadExponent? then Malformed else Truncated
    }

    /** The fields of ORIGIN_BEGIN, its type byte read. */
    method NextBegin() returns (p: Parse<OriginMsg>)
      requires Valid()
      modifies this
      ensures Valid() && p == ParseOrigin([0x41] + old(Rest()), 0)
      ensures p.Parsed? ==> p.used == 7 && Rest() == old(Rest())[6..] && bytesRead == old(bytesRead) + 6
      ensures old(bytesRead) <= bytesRead <= old(bytesRead) + |old(Rest())|
    {
      hide Number, Value, Pow2, ParseText;
      ghost var rest := Rest();
      var protocol := ReadByte();
      if protocol.Err? {
        return Truncated;
      }
      var size := ReadPow2();
      if size.Err? {
        return Failure(size.error);
      }
      var pageCount := ReadUint32();
      if pageCount.Err? {
        return Truncated;
      }
      assert ([0x41] + rest)[3..7] == rest[1..][1..][0..4];
      p := Parsed(OBegin(Value(protocol.value), size.value, pageCount.value), 7);
    }

    /** The fields of ORIGIN_PAGE. */
    method NextPage(pageSize: nat) returns (p: Parse<OriginMsg>)
      requires Valid()
      modifies this
      ensures Valid() && p == ParseOrigin([0x44] + old(Rest()), pageSize)
      ensures p.Parsed? ==> Rest() == old(Rest())[p.used - 1..] && bytesRead == old(bytesRead) + p.used - 1
      ensures old(bytesRead) <= bytesRead <= old(bytesRead) + |old(Rest())|
    {
      hide Number;
      ghost var rest := Rest();
      var pgno := ReadUint32();
      if pgno.Err? {
        return Truncated;
      }
      var data := ReadBytes(pageSize);
      if data.Err? {
        return Truncated;
      }
      assert ([0x44] + rest)[1..5] == rest[0..4];
      assert ([0x44] + rest)[5..5 + pageSize] == rest[4..][..pageSize];
      p := Parsed(OPage(pgno.value, data.value), 5 + pageSize);
    }

    /** The fields of ORIGIN_DETAIL. */
    method NextDetail() returns (p: Parse<OriginMsg>)
      requires Valid()
      modifies this
      ensures Valid() && p == ParseOrigin([0x47] + old(Rest()), 0)
      ensures p.Parsed? ==> p.used == 9 && Rest() == old(Rest())[8..] && bytesRead == old(bytesRead) + 8
      ensures old(bytesRead) <= bytesRead <= old(bytesRead) + |old(Rest())|
    {
      hide Number;
      ghost var rest := Rest();
      var fpg := ReadUint32();
      if fpg.Err? {
        return Truncated;
      }
      var npg := ReadUint32();
      if npg.Err? {
        return Truncated;
      }
      assert ([0x47] + rest)[1..5] == rest[0..4] && ([0x47] + rest)[5..9] == rest[4..][0..4];
      p := Parsed(ODetail(fpg.value, npg.value), 9);
    }

    /** The field of ORIGIN_TXN. */
    method NextTxn() returns (p: Parse<OriginMsg>)
      requires Valid()
      modifies this
      ensures Valid() && p == ParseOrigin([0x45] + old(Rest()), 0)
      ensures p.Parsed? ==> p.used == 5 && Rest() == old(Rest())[4..] && bytesRead == old(bytesRead) + 4
      ensures old(bytesRead) <= bytesRead <= old(bytesRead) + |old(Rest())|
    {
      hide Number;
      ghost var rest := Rest();
      var pageCount := ReadUint32();
      assert pageCount.Ok? ==> ([0x45] + rest)[1..5] == rest[0..4];
      p := if pageCount.Ok? then Parsed(OTxn(pageCount.value), 5) else Truncated;
    }

    /** One message from the origin, as the replica's loop takes it off the stream. */
    method NextOrigin(pageSize: nat) returns (p: Parse<OriginMsg>)
      requires Valid()
      modifies this
      ensures Valid() && p == ParseOrigin(old(Rest()), pageSize)
      ensures p.Parsed? ==> Rest() == old(Rest())[p.used..] && bytesRead == old(bytesRead) + p.used
      ensures !p.Parsed? ==> old(bytesRead) <= bytesRead <= old(bytesRead) + |old(Rest())|
      ensures p.Closed? ==> bytesRead == old(bytesRead)
      ensures p.Unknown? ==> bytesRead == old(bytesRead) + 1
    {
      hide Number, NumberAt, Value, Pow2, ParseText;
      ghost var rest := Rest();
      var kind := ReadByte();
      if kind.Err? {
        return Closed;
      }
      assert rest == [kind.value] + rest[1..];
      match kind.value
      case 0x41 => p := NextBegin();
      case 0x42 => p := Parsed(OEnd, 1);
      case 0x43 =>
        var text := ReadMessage();
        p := if text.Ok? then Parsed(OError(text.value), 5 + |text.value|) else Failure(text.error);
      case 0x44 => p := NextPage(pageSize);
      case 0x45 => p := NextTxn();
      case 0x46 =>
        var text := ReadMessage();
        p := if text.Ok? then Parsed(OInfo(text.value), 5 + |text.value|) else Failure(text.error);
      case 0x47 => p := NextDetail();
      case 0x48 => p := Parsed(OReady, 1);
      case _ => p := Unknown;
    }

    /** One message from the replica, as the origin's loop takes it off the stream. */
    method NextReplica() returns (p: Parse<ReplicaMsg>)
      requires Valid()
      modifies this
      ensures Valid() && p == ParseReplica(old(Rest()))
      ensures p.Parsed? ==> Rest() == old(Rest())[p.used..] && bytesRead == old(bytesRead) + p.used
      ensures !p.Parsed? ==> old(bytesRead) <= bytesRead <= old(bytesRead) + |old(Rest())|
      ensures p.Closed? ==> bytesRead == old(bytesRead)
      ensures p.Unknown? ==> bytesRead == old(bytesRead) + 1
    {
      hide Number, Value, ParseText;
      ghost var rest := Rest();
      var kind := ReadByte();
      if kind.Err? {
        return Closed;
      }
      match kind.value
      case 0x61 =>
        var protocol := ReadByte();
        p := if protocol.Ok? then Parsed(RBegin(Value(protocol.value)), 2) else Truncated;
      case 0x62 =>
        var text := ReadMessage();
        p := if text.Ok? then Parsed(RError(text.value), 5 + |text.value|) else Failure(text.error);
      case 0x63 => p := Parsed(REnd, 1);
      case 0x64 =>
        var digest := ReadBytes(DIGEST_LENGTH);
        assert digest.Ok? ==> rest[1..1 + DIGEST_LENGTH] == rest[1..][..DIGEST_LENGTH];
        p := if digest.Ok? then Parsed(RHash(digest.value), 1 + DIGEST_LENGTH) else Truncated;
      case 0x65 => p := Parsed(RReady, 1);
      case 0x66 =>
        var text := ReadMessage();
        p := if text.Ok? then Parsed(RInfo(text.value), 5 + |text.value|) else Failure(text.error);
      case 0x67 =>
        var fpg := ReadUint32();
        if fpg.Err? {
          return Truncated;
        }
        var npg := ReadUint32();
        if npg.Err? {
          return Truncated;
        }
        assert rest[1..5] == rest[1..][0..4] && rest[5..9] == rest[1..][4..][0..4];
        p := Parsed(RConfig(fpg.value, npg.value), 9);
      case _ => p := Unknown;
    }
  }
}
