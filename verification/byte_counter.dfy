/** The counting buffer that measures a message by letting it write itself, and the messages. */
module ByteCounters {
  import opened Words
  import opened Codec
  import opened ChunkedQueue
  import opened ByteBuffers
  import VarInts

  const BYTE_SIZE: nat := 1
  const SHORT_SIZE: nat := 2
  const MEDIUM_SIZE: nat := 3
  const INT_SIZE: nat := 4
  const LONG_SIZE: nat := 8
  const BOOLEAN_SIZE: nat := 1
  const UUID_SIZE: nat := 16

  /** Counts the bytes each write would have produced. */
  class ByteCounter {
    var writerIndex: nat

    constructor ()
      ensures writerIndex == 0
    {
      writerIndex := 0;
    }

    method WriteByte(input: byte)
      modifies this
      ensures writerIndex == old(writerIndex) + |EncodeField(Byte(input))|
    {
      writerIndex := writerIndex + BYTE_SIZE;
    }

    method WriteBoolean(input: bool)
      modifies this
      ensures writerIndex == old(writerIndex) + |EncodeField(Bool(input))|
    {
      writerIndex := writerIndex + BOOLEAN_SIZE;
    }

    method WriteShort(input: uint16)
      modifies this
      ensures writerIndex == old(writerIndex) + |EncodeField(Short(input))|
    {
      writerIndex := writerIndex + SHORT_SIZE;
    }

    method WriteMedium(input: uint32)
      modifies this
      ensures writerIndex == old(writerIndex) + |BigEndian(input, 3)|
    {
      writerIndex := writerIndex + MEDIUM_SIZE;
    }

    method WriteInt(input: uint32)
      modifies this
      ensures writerIndex == old(writerIndex) + |EncodeField(Int(input))|
    {
      writerIndex := writerIndex + INT_SIZE;
    }

    method WriteVarInt(input: uint32)
      modifies this
      ensures writerIndex == old(writerIndex) + |EncodeField(VarInt(input))|
    {
      VarInts.VarIntBytesExact(input);
      writerIndex := writerIndex + VarInts.VarIntBytes(input);
    }

    method WriteLong(input: uint64)
      modifies this
      ensures writerIndex == old(writerIndex) + |EncodeField(Long(input))|
    {
      writerIndex := writerIndex + LONG_SIZE;
    }

    method WriteVarLong(input: uint64)
      modifies this
      ensures writerIndex == old(writerIndex) + |EncodeField(VarLong(input))|
    {
      VarInts.VarLongBytesExact(input);
      writerIndex := writerIndex + VarInts.VarLongBytes(input);
    }

    method WriteUUID(input: UUID)
      modifies this
      ensures writerIndex == old(writerIndex) + |EncodeField(UUIDWords(input))|
    {
      writerIndex := writerIndex + UUID_SIZE;
    }

    method WriteUUIDIntArray(input: UUID)
      modifies this
      ensures writerIndex == old(writerIndex) + |EncodeField(UUIDInts(input))|
    {
      writerIndex := writerIndex + UUID_SIZE;
    }

    method WriteString(input: seq<byte>)
      modifies this
      ensures writerIndex == old(writerIndex) + |EncodeField(Text(input))|
    {
      VarInts.VarIntBytesExact(Truncated(|input|));
      writerIndex := writerIndex + VarInts.VarIntBytes(Truncated(|input|));
      writerIndex := writerIndex + |input|;
    }

    method WriteBytes(input: seq<byte>)
      modifies this
      ensures writerIndex == old(writerIndex) + |input|
    {
      writerIndex := writerIndex + |input|;
    }

    /** Counts without reading from the other buffer. */
    method WriteBytesOf(input: ByteBufferImpl, size: nat)
      modifies this
      ensures writerIndex == old(writerIndex) + size
    {
      writerIndex := writerIndex + size;
    }

    /** Inherited: the prefix and the bytes through the counting overrides. */
    method WriteByteArray(input: ByteBufferImpl)
      requires input.Valid()
      modifies this
      ensures writerIndex == old(writerIndex) + |EncodeField(Bytes(old(input.Queued())))|
    {
      ghost var q := input.Queued();
      WriteVarInt(Truncated(input.readableBytes));
      WriteBytesOf(input, input.readableBytes);
      assert |Prefixed(q)| == |VarInts.Encode(Truncated(|q|))| + |q|;
    }

    /** As written: counts nothing, though the buffer it stands for writes the bytes. */
    method WriteBytesAndDelete(input: array<byte>)
      modifies this
      ensures writerIndex == old(writerIndex)
    {
    }
  }

  // ---------- messages ----------

  /** One write of a message: a typed field, bytes without a length, or `size` bytes out of a buffer that
      holds `held`, which go through a scratch array. */
  datatype Write = Typed(field: Field) | Raw(input: seq<byte>) | Moved(held: seq<byte>, size: nat, scratch: seq<byte>)

  /** The scratch array is long enough. */
  predicate Possible(w: Write) {
    w.Moved? ==> w.size <= |w.scratch|
  }

  /** The bytes written. When the other buffer holds too few, they are those the scratch array held before. */
  function BytesOf(w: Write): seq<byte>
    requires Possible(w)
  {
    match w
    case Typed(field) => EncodeField(field)
    case Raw(input) => input
    case Moved(held, size, scratch) => if size <= |held| then held[..size] else scratch[..size]
  }

  /** Whether the last thing written is a bulk write of no bytes, which opens a chunk if the last is full. */
  predicate EndsOpen(w: Write) {
    match w
    case Typed(field) => field == Text([]) || field == Bytes([])
    case Raw(input) => input == []
    case Moved(_, size, _) => size == 0
  }

  function AllBytes(writes: seq<Write>): seq<byte>
    requires forall i :: 0 <= i < |writes| ==> Possible(writes[i])
  {
    if writes == [] then [] else BytesOf(writes[0]) + AllBytes(writes[1..])
  }

  function AllTyped(fields: seq<Field>): (writes: seq<Write>)
    ensures |writes| == |fields| && forall i :: 0 <= i < |writes| ==> writes[i] == Typed(fields[i])
  {
    if fields == [] then [] else [Typed(fields[0])] + AllTyped(fields[1..])
  }

  lemma {:induction false} TypedBytes(fields: seq<Field>)
    ensures AllBytes(AllTyped(fields)) == EncodeAll(fields)
  {
    if fields != [] {
      hide EncodeField;
      TypedBytes(fields[1..]);
      assert AllTyped(fields)[1..] == AllTyped(fields[1..]);
    }
  }

  /** A message writes itself as a list of writes, to whichever buffer it is given. Writing it to a buffer
      appends their bytes. */
  method WriteTo(writes: seq<Write>, buffer: ByteBufferImpl)
    requires buffer.Valid() && forall i :: 0 <= i < |writes| ==> Possible(writes[i])
    modifies buffer.Repr
    ensures buffer.Valid() && fresh(buffer.Repr - old(buffer.Repr))
    ensures buffer.Queued() == old(buffer.Queued()) + AllBytes(writes)
    ensures writes != [] && EndsOpen(writes[|writes| - 1]) ==> buffer.localWriterIndex < buffer.singleCapacity
  {
    for i := 0 to |writes|
      invariant buffer.Valid() && fresh(buffer.Repr - old(buffer.Repr))
      invariant i > 0 && EndsOpen(writes[i - 1]) ==> buffer.localWriterIndex < buffer.singleCapacity
      invariant old(buffer.Queued()) + AllBytes(writes) == buffer.Queued() + AllBytes(writes[i..])
    {
      hide *;
      FirstWrite(writes, i);
      ghost var q := buffer.Queued();
      WriteOneTo(writes[i], buffer);
      JoinAssociates(q, BytesOf(writes[i]), AllBytes(writes[i + 1..]));
    }
    assert writes[|writes|..] == [];
  }

  lemma FirstWrite(writes: seq<Write>, i: nat)
    requires i < |writes| && forall j :: 0 <= j < |writes| ==> Possible(writes[j])
    ensures AllBytes(writes[i..]) == BytesOf(writes[i]) + AllBytes(writes[i + 1..])
  {
    assert writes[i..][1..] == writes[i + 1..];
  }

  /** A byte array field is held in a buffer of its own. */
  method Holding(bytes: seq<byte>) returns (held: ByteBufferImpl)
    ensures held.Valid() && held.Queued() == bytes && fresh(held.Repr)
  {
    hide *;
    held := new ByteBufferImpl(|bytes| + 1);
    EmptyHolds(|bytes| + 1, bytes);
    held.WriteBytes(bytes);
  }

  lemma EmptyHolds(cap: nat, bytes: seq<byte>)
    requires cap >= 1
    ensures WF(PutBulk(Empty(cap), bytes)) && Contents(PutBulk(Empty(cap), bytes)) == bytes
  {
    FlatSingle([]);
    PutBulkAppends(Empty(cap), bytes);
    assert Contents(Empty(cap)) + bytes == bytes;
  }

  method WriteOneTo(w: Write, buffer: ByteBufferImpl)
    requires buffer.Valid() && Possible(w)
    modifies buffer.Repr
    ensures buffer.Valid() && fresh(buffer.Repr - old(buffer.Repr))
    ensures buffer.Queued() == old(buffer.Queued()) + BytesOf(w)
    ensures EndsOpen(w) ==> buffer.localWriterIndex < buffer.singleCapacity
  {
    hide *;
    WriteAppends(buffer.View(), w);
    MovedBytes(w);
    match w
    case Raw(input) => buffer.WriteBytes(input);
    case Moved(bytes, size, before) =>
      var held := Holding(bytes);
      var scratch := new byte[|before|](i requires 0 <= i < |before| => before[i]);
      assert scratch[..] == before;
      buffer.WriteBytesOf(held, size, scratch);
    case Typed(field) =>
      match field
      case Bool(flag) => buffer.WriteBoolean(flag);
      case Byte(b) => buffer.WriteByte(b);
      case Short(x) => buffer.WriteShort(x);
      case Medium(x) => buffer.WriteMedium(x);
      case Int(x) => buffer.WriteInt(x);
      case Long(x) => buffer.WriteLong(x);
      case VarInt(x) => buffer.WriteVarInt(x);
      case VarLong(x) => buffer.WriteVarLong(x);
      case UUIDWords(u) => buffer.WriteUUID(u);
      case UUIDInts(u) => buffer.WriteUUIDIntArray(u);
      case Text(s) => buffer.WriteString(s);
      case Bytes(s) =>
        var held := Holding(s);
        var scratch := new byte[|s|];
        buffer.WriteByteArray(held, scratch);
  }

  lemma MovedBytes(w: Write)
    requires Possible(w)
    ensures w.Moved? ==>
            && w.size <= |w.scratch|
            && BytesOf(w) == if w.size <= |w.held| then w.held[..w.size] else w.scratch[..w.size]
  {
  }

  /** What each write leaves is the queue with its bytes appended. */
  lemma WriteAppends(d: Deque, w: Write)
    requires WF(d) && Possible(w)
    ensures var e := match w
              case Raw(input) => PutBulk(d, input)
              case Moved(_, _, _) => PutBulk(d, BytesOf(w))
              case Typed(Bool(flag)) => PutByte(d, if flag then 1 else 0)
              case Typed(Byte(b)) => PutByte(d, b)
              case Typed(Short(x)) => PutAll(d, BigEndian(x, 2))
              case Typed(Medium(x)) => PutAll(d, BigEndian(x, 3))
              case Typed(Int(x)) => PutAll(d, BigEndian(x, 4))
              case Typed(Long(x)) => PutAll(d, BigEndian(x, 8))
              case Typed(VarInt(x)) => PutAll(d, VarInts.Encode(x))
              case Typed(VarLong(x)) => PutAll(d, VarInts.Encode(x))
              case Typed(UUIDWords(u)) => PutAll(d, UUIDLongBytes(u))
              case Typed(UUIDInts(u)) => PutAll(d, UUIDIntBytes(u))
              case Typed(Text(s)) => PutBulk(PutAll(d, VarInts.Encode(Truncated(|s|))), s)
              case Typed(Bytes(s)) => PutBulk(PutAll(d, VarInts.Encode(Truncated(|s|))), s);
            && WF(e) && Contents(e) == Contents(d) + BytesOf(w) && e.cap == d.cap
            && (EndsOpen(w) ==> Writer(e) < e.cap)
  {
    hide PutAll, PutByte, PutBulk, BigEndian, VarInts.Encode, WF, Contents, UUIDLongBytes, UUIDIntBytes, Writer;
    match w {
      case Raw(input) => PutBulkAppends(d, input); EmptyBulkOpens(d);
      case Moved(_, _, _) => PutBulkAppends(d, BytesOf(w)); EmptyBulkOpens(d);
      case Typed(Bool(flag)) => PutByteKeepsQueue(d, if flag then 1 else 0);
      case Typed(Byte(b)) => PutByteKeepsQueue(d, b);
      case Typed(Text(s)) => PrefixedAppends(d, s);
      case Typed(Bytes(s)) => PrefixedAppends(d, s);
      case Typed(field) => PutAllAppends(d, EncodeField(field));
    }
  }

  lemma PrefixedAppends(d: Deque, s: seq<byte>)
    requires WF(d)
    ensures var e := PutBulk(PutAll(d, VarInts.Encode(Truncated(|s|))), s);
            && WF(e) && Contents(e) == Contents(d) + Prefixed(s) && e.cap == d.cap
            && (s == [] ==> Writer(e) < e.cap)
  {
    hide PutAll, PutBulk, Writer, Flat;
    var prefix := VarInts.Encode(Truncated(|s|));
    PutAllAppends(d, prefix);
    EmptyBulkOpens(PutAll(d, prefix));
    PutBulkAppends(PutAll(d, prefix), s);
    JoinAssociates(Contents(d), prefix, s);
  }

  lemma EmptyBulkOpens(d: Deque)
    requires WF(d)
    ensures Writer(PutBulk(d, [])) < d.cap
  {
    RefreshWriterKeepsQueue(d);
  }

  /** The same writes into a counter, the byte arrays through the inherited writer. */
  method CountWrites(writes: seq<Write>, counter: ByteCounter)
    requires forall i :: 0 <= i < |writes| ==> Possible(writes[i])
    modifies counter
    ensures counter.writerIndex == old(counter.writerIndex) + |AllBytes(writes)|
  {
    for i := 0 to |writes|
      invariant counter.writerIndex + |AllBytes(writes[i..])| == old(counter.writerIndex) + |AllBytes(writes)|
    {
      FirstWrite(writes, i);
      CountOne(writes[i], counter);
    }
  }

  method CountOne(w: Write, counter: ByteCounter)
    requires Possible(w)
    modifies counter
    ensures counter.writerIndex == old(counter.writerIndex) + |BytesOf(w)|
  {
    match w
    case Raw(input) => counter.WriteBytes(input);
    case Moved(bytes, size, _) =>
      var held := Holding(bytes);
      counter.WriteBytesOf(held, size);
    case Typed(field) =>
      match field
      case Bool(flag) => counter.WriteBoolean(flag);
      case Byte(b) => counter.WriteByte(b);
      case Short(x) => counter.WriteShort(x);
      case Medium(x) => counter.WriteMedium(x);
      case Int(x) => counter.WriteInt(x);
      case Long(x) => counter.WriteLong(x);
      case VarInt(x) => counter.WriteVarInt(x);
      case VarLong(x) => counter.WriteVarLong(x);
      case UUIDWords(u) => counter.WriteUUID(u);
      case UUIDInts(u) => counter.WriteUUIDIntArray(u);
      case Text(s) => counter.WriteString(s);
      case Bytes(s) =>
        var held := Holding(s);
        counter.WriteByteArray(held);
  }

  /** A message's size: what a fresh counter holds after the message has written itself, as 32 bits.
      It is the length of what `WriteTo` appends exactly when that length fits. */
  method Size(writes: seq<Write>) returns (size: uint32)
    requires forall i :: 0 <= i < |writes| ==> Possible(writes[i])
    ensures size == |AllBytes(writes)| % 0x1_0000_0000
    ensures size == |AllBytes(writes)| <==> |AllBytes(writes)| < 0x1_0000_0000
  {
    var counter := new ByteCounter();
    CountWrites(writes, counter);
    size := Truncated(counter.writerIndex);
  }
}
