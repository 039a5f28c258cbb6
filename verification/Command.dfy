/** CEC frames: the command record with its bounded parameter buffer, and serialisation. */
module Command {
  import opened Wrappers
  import opened LogicalAddress
  import opened Lookup

  const MAX_DATA_SIZE := 64

  type Byte = x: int | 0 <= x < 0x100

  /** A command as a value. */
  datatype Frame = Frame(initiator: Address, destination: Address, opcode: Option<Byte>, params: seq<Byte>)

  const CLEAR_FRAME := Frame(UNKNOWN, UNKNOWN, None, [])

  function Formatted(initiator: Address, destination: Address, opcode: Opcode): (f: Frame) {
    Frame(initiator, destination, if opcode == OPCODE_UNKNOWN then None else Some(opcode), [])
  }

  // ----- serialisation -----

  /** The low byte of (initiator << 4) | destination; an unknown address has all bits set. */
  function Header(initiator: Address, destination: Address): (byte: Byte) {
    if destination == UNKNOWN then 0xFF
    else if initiator == UNKNOWN then 0xF0 + destination
    else initiator * 16 + destination
  }

  /** The bytes a large enough buffer is filled with. */
  function Serialize(f: Frame): (bytes: seq<Byte>) {
    [Header(f.initiator, f.destination)] + (if f.opcode.Some? then [f.opcode.value] else []) + f.params
  }

  /** The size that is reported, whatever the buffer. */
  function FrameSize(f: Frame): (size: nat) {
    |f.params| + 2
  }

  /** How receivers take a frame apart; a frame of one byte is a ping. */
  function Decode(bytes: seq<Byte>): (f: Option<Frame>) {
    if bytes == [] then None
    else if |bytes| == 1 then Some(Frame(bytes[0] / 16 % 16, bytes[0] % 16, None, []))
    else Some(Frame(bytes[0] / 16 % 16, bytes[0] % 16, Some(bytes[1]), bytes[2..]))
  }

  /**
    Decoding gives back the command exactly when both addresses are known and the opcode is
    set, or there is nothing but the header.
  */
  lemma DecodeSerialize(f: Frame)
    ensures Decode(Serialize(f)) == Some(f)
       <==> f.initiator != UNKNOWN && f.destination != UNKNOWN && (f.opcode.Some? || f.params == [])
  {
    var bytes := Serialize(f);
    if f.opcode.Some? {
      assert bytes[2..] == f.params;
    } else if f.params == [] {
      assert |bytes| == 1;
    }
    if f.initiator != UNKNOWN && f.destination != UNKNOWN {
      assert bytes[0] == f.initiator * 16 + f.destination;
    }
  }

  /**
    Whatever the addresses: an unknown initiator is received as 15, and an unknown destination
    makes both addresses 15.
  */
  lemma ReceivedAs(f: Frame)
    requires f.opcode.Some?
    ensures Decode(Serialize(f)) ==
            Some(Frame(if f.initiator == -1 || f.destination == -1 then 15 else f.initiator,
                       if f.destination == -1 then 15 else f.destination, f.opcode, f.params))
  {
    var bytes := Serialize(f);
    assert bytes[2..] == f.params;
  }

  /** So serialisation is injective on commands with known addresses and an opcode. */
  lemma SerializeInjective(f: Frame, g: Frame)
    requires f.initiator != UNKNOWN && f.destination != UNKNOWN && f.opcode.Some?
    requires g.initiator != UNKNOWN && g.destination != UNKNOWN && g.opcode.Some?
    ensures Serialize(f) == Serialize(g) <==> f == g
  {
    DecodeSerialize(f);
    DecodeSerialize(g);
  }

  /** The reported size is the number of bytes written exactly when the opcode is set. */
  lemma SizeIsExact(f: Frame)
    ensures FrameSize(f) == |Serialize(f)| <==> f.opcode.Some?
  {
  }

  // ----- filling the parameter buffer -----

  /** One call that appends parameters: a byte, or an array that may be missing. */
  datatype Push = PushByte(data: Byte) | PushArray(bytes: Option<seq<Byte>>)

  /** What a push offers to the buffer: an array longer than the buffer is turned down whole. */
  function Offered(p: Push): (bytes: seq<Byte>) {
    match p
    case PushByte(b) => [b]
    case PushArray(None) => []
    case PushArray(Some(bytes)) => if |bytes| > MAX_DATA_SIZE then [] else bytes
  }

  function Truncated(bytes: seq<Byte>): (kept: seq<Byte>) {
    if |bytes| <= MAX_DATA_SIZE then bytes else bytes[..MAX_DATA_SIZE]
  }

  /** One byte is stored if there is room for it. */
  function Stored(params: seq<Byte>, b: Byte): (stored: seq<Byte>) {
    if |params| < MAX_DATA_SIZE then params + [b] else params
  }

  /** Bytes are stored one at a time. */
  function StoredAll(params: seq<Byte>, bytes: seq<Byte>): (stored: seq<Byte>) {
    if bytes == [] then params
    else Stored(StoredAll(params, bytes[..|bytes| - 1]), bytes[|bytes| - 1])
  }

  function Pushed(params: seq<Byte>, pushes: seq<Push>): (stored: seq<Byte>) {
    if pushes == [] then params
    else StoredAll(Pushed(params, pushes[..|pushes| - 1]), Offered(pushes[|pushes| - 1]))
  }

  function AllOffered(pushes: seq<Push>): (bytes: seq<Byte>) {
    if pushes == [] then []
    else AllOffered(pushes[..|pushes| - 1]) + Offered(pushes[|pushes| - 1])
  }

  lemma {:induction false} StoredAllTruncates(params: seq<Byte>, bytes: seq<Byte>)
    requires |params| <= MAX_DATA_SIZE
    ensures StoredAll(params, bytes) == Truncated(params + bytes)
  {
    if bytes == [] {
      assert params + bytes == params;
    } else {
      var n := |bytes| - 1;
      StoredAllTruncates(params, bytes[..n]);
      assert params + bytes == params + bytes[..n] + [bytes[n]];
    }
  }

  lemma TruncateTwice(a: seq<Byte>, b: seq<Byte>)
    ensures Truncated(Truncated(a) + b) == Truncated(a + b)
  {
  }

  /** After any pushes, a cleared buffer holds the first 64 bytes of everything offered. */
  lemma {:induction false} PushesKeepPrefix(pushes: seq<Push>)
    ensures Pushed([], pushes) == Truncated(AllOffered(pushes))
  {
    if pushes != [] {
      var n := |pushes| - 1;
      PushesKeepPrefix(pushes[..n]);
      StoredAllTruncates(Pushed([], pushes[..n]), Offered(pushes[n]));
      TruncateTwice(AllOffered(pushes[..n]), Offered(pushes[n]));
    }
  }

  lemma PushedLast(params: seq<Byte>, pushes: seq<Push>, p: Push)
    ensures Pushed(params, pushes + [p]) == StoredAll(Pushed(params, pushes), Offered(p))
  {
    assert (pushes + [p])[..|pushes|] == pushes;
  }

  /** Pushing two arrays is pushing their concatenation, if that fits in one push. */
  lemma PushConcat(params: seq<Byte>, a: seq<Byte>, b: seq<Byte>)
    requires |a| + |b| <= MAX_DATA_SIZE
    ensures Pushed(params, [PushArray(Some(a))] + [PushArray(Some(b))]) == Pushed(params, [] + [PushArray(Some(a + b))])
  {
    var first := PushArray(Some(a));
    PushedLast(params, [], first);
    assert [] + [first] == [first];
    PushedLast(params, [first], PushArray(Some(b)));
    PushedLast(params, [], PushArray(Some(a + b)));
    StoreConcat(params, a, b);
  }

  lemma {:induction false} StoreConcat(params: seq<Byte>, a: seq<Byte>, b: seq<Byte>)
    ensures StoredAll(StoredAll(params, a), b) == StoredAll(params, a + b)
  {
    if b == [] {
      assert a + b == a;
    } else {
      var n := |b| - 1;
      StoreConcat(params, a, b[..n]);
      assert (a + b)[..|a| + n] == a + b[..n];
    }
  }

  /** A 64-byte buffer takes the frame exactly when at most 62 parameter bytes were offered. */
  lemma SixtyFourSuffices(initiator: Address, destination: Address, opcode: Byte, pushes: seq<Push>)
    ensures FrameSize(Frame(initiator, destination, Some(opcode), Pushed([], pushes))) <= MAX_DATA_SIZE
       <==> |AllOffered(pushes)| <= MAX_DATA_SIZE - 2
  {
    PushesKeepPrefix(pushes);
  }

  // ----- the command record -----

  class Record {
    var initiator: Address
    var destination: Address
    var opcode: Opcode
    var opcodeSet: bool
    const parameterData: array<Byte>
    var parameterSize: nat

    ghost predicate Valid()
      reads this
    {
      parameterData.Length == MAX_DATA_SIZE && parameterSize <= MAX_DATA_SIZE
      && opcodeSet == (opcode != OPCODE_UNKNOWN)
    }

    ghost function Value(): (f: Frame)
      requires Valid()
      reads this, parameterData
    {
      Frame(initiator, destination, if opcode == OPCODE_UNKNOWN then None else Some(opcode), parameterData[..parameterSize])
    }

    constructor ()
      ensures Valid() && Value() == CLEAR_FRAME && fresh(parameterData)
    {
      initiator, destination, opcode, opcodeSet := UNKNOWN, UNKNOWN, OPCODE_UNKNOWN, false;
      parameterData := new Byte[MAX_DATA_SIZE];
      parameterSize := 0;
    }

    method Clear()
      requires Valid()
      modifies this, parameterData
      ensures Valid() && Value() == CLEAR_FRAME
    {
      initiator := UNKNOWN;
      destination := UNKNOWN;
      opcode := OPCODE_UNKNOWN;
      opcodeSet := false;
      forall i | 0 <= i < MAX_DATA_SIZE {
        parameterData[i] := 0;
      }
      parameterSize := 0;
    }

    method Format(initiator: Address, destination: Address, opcode: Opcode)
      requires Valid()
      modifies this, parameterData
      ensures Valid() && Value() == Formatted(initiator, destination, opcode)
    {
      Clear();
      this.initiator := initiator;
      this.destination := destination;
      if opcode != OPCODE_UNKNOWN {
        this.opcode := opcode;
        opcodeSet := true;
      }
    }

    method PushBackByte(data: Byte)
      requires Valid()
      modifies this`parameterSize, parameterData
      ensures Valid() && Value() == old(Value()).(params := Stored(old(Value()).params, data))
    {
      if parameterSize < MAX_DATA_SIZE {
        parameterData[parameterSize] := data;
        parameterSize := parameterSize + 1;
      }
    }

    /** `len` bytes at `data` are readable unless they are turned down unread. */
    method PushBackArray(data: array?<Byte>, len: nat)
      requires Valid() && data != parameterData
      requires data != null && len <= MAX_DATA_SIZE ==> len <= data.Length
      modifies this`parameterSize, parameterData
      ensures Valid()
      ensures data == null || len > MAX_DATA_SIZE ==> Value() == old(Value())
      ensures data != null && len <= MAX_DATA_SIZE ==>
                Value() == old(Value()).(params := StoredAll(old(Value()).params, data[..len]))
    {
      if data == null || len > MAX_DATA_SIZE {
        return;
      }
      for i := 0 to len
        invariant Valid()
        invariant Value() == old(Value()).(params := StoredAll(old(Value()).params, data[..i]))
      {
        PushBackByte(data[i]);
        assert data[..i + 1][..i] == data[..i];
      }
    }

    /** A missing or short buffer is left alone; otherwise the frame is written at its start. */
    method GetRawBytes(buf: array?<Byte>, bufLen: nat) returns (size: nat)
      requires Valid() && buf != parameterData
      requires buf != null ==> bufLen <= buf.Length
      modifies if buf == null then {} else {buf}
      ensures size == FrameSize(Value())
      ensures buf != null && bufLen < size ==> buf[..] == old(buf[..])
      ensures buf != null && size <= bufLen ==>
                var written := Serialize(Value());
                && |written| <= size && buf[..|written|] == written
                && buf[|written|..] == old(buf[|written|..])
    {
      size := parameterSize + 2;
      if buf == null || bufLen < size {
        return;
      }
      var at := 0;
      buf[at] := Header(initiator, destination);
      at := at + 1;
      if opcodeSet {
        buf[at] := opcode;
        at := at + 1;
      }
      ghost var head := buf[..at];
      for i := 0 to parameterSize
        invariant at == |head| + i && buf[..at] == head + parameterData[..i]
        invariant buf[at..] == old(buf[at..])
      {
        buf[at] := parameterData[i];
        at := at + 1;
      }
      assert buf[..at] == Serialize(Value());
    }
  }
}
