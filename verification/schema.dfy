/** Reading a message back from a segmented buffer, field by field. */
module Schemas {
  import opened Words
  import opened Codec
  import opened ChunkedQueue
  import opened ByteBuffers
  import opened ByteCounters
  import QueueTheorems
  import VarInts

  /** A buffer that reads can work on: a queue, or one whose last chunk has been dropped. */
  ghost predicate Readable(d: Deque)
    ensures Readable(d) ==> Covered(d) && (d.readable > 0 ==> WF(d))
  {
    WF(d) || (d.cap >= 1 && d == Deque(d.cap, [], 0, 0))
  }

  predicate IsPrefixed(k: Kind) {
    k.StringKind? || k.ByteArrayKind?
  }

  function SizeError(k: Kind): ErrorKind {
    if k.StringKind? then InvalidStringSize else InvalidByteArraySize
  }

  /** The state that reading one field leaves, and reading fields up to the first that fails. */
  ghost function AfterField(d: Deque, k: Kind, beyond: seq<byte>): Deque
    requires Readable(d)
  {
    if IsPrefixed(k) then AfterPrefixed(d, k.max, SizeError(k))
    else DropAll(d, DecodeField(k, Contents(d), beyond).used)
  }

  ghost function AfterFields(d: Deque, ks: seq<Kind>, beyond: seq<byte>): Deque
    requires Readable(d)
    decreases |ks|
  {
    if ks == [] then d
    else
      FieldStep(d, ks[0], beyond);
      var e := AfterField(d, ks[0], beyond);
      if DecodeField(ks[0], Contents(d), beyond).outcome.Failure? then e else AfterFields(e, ks[1..], beyond)
  }

  /** Whether the field in front is an empty array. */
  predicate EmptyArray(k: Kind, s: seq<byte>) {
    IsPrefixed(k) && ReadPrefixed(s, k.max, SizeError(k)).outcome == Success([])
  }

  /** Reading a field takes what decoding it says, and leaves the rest; it ruins the buffer exactly when it
      is an empty array, nothing follows it and the last chunk is full. */
  lemma FieldStep(d: Deque, k: Kind, beyond: seq<byte>)
    requires Readable(d)
    ensures var r, e := DecodeField(k, Contents(d), beyond), AfterField(d, k, beyond);
            && r.used <= d.readable && Readable(e) && Contents(e) == Contents(d)[r.used..] && e.cap == d.cap
            && (WF(d) ==>
                  (WF(e) <==> !(EmptyArray(k, Contents(d)) && r.used == d.readable && Writer(d) == d.cap)))
            && (WF(e) ==> d.chunks != [] && Writer(e) == Writer(d))
            && (!WF(e) ==> r.used == d.readable)
            && (r.outcome.Failure? && WF(d) ==> WF(e))
  {
    hide DropAll, Flat, Contents, Segmented, ReadPrefixed, ReadWord, ReadVarInt, ReadVarLong, ReadUUID, ReadUUIDInts;
    var r := DecodeField(k, Contents(d), beyond);
    if WF(d) {
      DropAllRemoves(d, r.used);
      QueueTheorems.DropAllEnd(d, r.used);
      if IsPrefixed(k) {
        AfterPrefixedExact(d, k.max, SizeError(k));
      }
    } else {
      NothingToRead(k, beyond);
      PrefixedOfNothing(d, if IsPrefixed(k) then k.max else 0, SizeError(k));
      assert Contents(d) == [];
    }
  }

  /** Every field has at least one byte. */
  lemma NothingToRead(k: Kind, beyond: seq<byte>)
    ensures DecodeField(k, [], beyond).used == 0 && DecodeField(k, [], beyond).outcome.Failure?
  {
    ReadVarOf([], VarInts.VARINT_LIMIT, TWO_32, IncompleteVarInt, InvalidVarInt, 0);
    ReadVarOf([], VarInts.VARLONG_LIMIT, TWO_64, IncompleteVarLong, InvalidVarLong, 0);
  }

  /** Whether the fields read from a string take all of it, the last of them being an empty array. */
  predicate EndsEmpty(ks: seq<Kind>, s: seq<byte>, beyond: seq<byte>)
    decreases |ks|
  {
    ks != [] && DecodeField(ks[0], s, beyond).outcome.Success?
    && (var rest := s[DecodeField(ks[0], s, beyond).used..];
        if rest == [] then EmptyArray(ks[0], s) else EndsEmpty(ks[1..], rest, beyond))
  }

  lemma DecodeAllUnfolds(ks: seq<Kind>, s: seq<byte>, beyond: seq<byte>)
    ensures ks == [] ==> DecodeAll(ks, s, beyond) == Read(Success([]), 0)
    ensures ks != [] ==>
            var first := DecodeField(ks[0], s, beyond);
            var rest := DecodeAll(ks[1..], s[first.used..], beyond);
            && (first.outcome.Failure? ==>
                  DecodeAll(ks, s, beyond) == Read(Failure(first.outcome.kind, first.outcome.code), first.used))
            && (first.outcome.Success? ==>
                  && DecodeAll(ks, s, beyond).used == first.used + rest.used
                  && DecodeAll(ks, s, beyond).outcome == Prepended([first.outcome.value], rest.outcome))
  {
    hide DecodeField;
  }

  /** Fields read before others. */
  function Prepended(fields: seq<Field>, more: Errorable<seq<Field>>): Errorable<seq<Field>> {
    match more
    case Success(fs) => Success(fields + fs)
    case Failure(kind, code) => Failure(kind, code)
  }

  lemma AfterFieldsUnfolds(d: Deque, ks: seq<Kind>, beyond: seq<byte>)
    requires Readable(d)
    ensures ks == [] ==> AfterFields(d, ks, beyond) == d
    ensures ks != [] ==>
            var e := AfterField(d, ks[0], beyond);
            && Readable(e)
            && AfterFields(d, ks, beyond) == if DecodeField(ks[0], Contents(d), beyond).outcome.Failure? then e
                                             else AfterFields(e, ks[1..], beyond)
  {
    hide AfterField, DecodeField;
    if ks != [] {
      FieldStep(d, ks[0], beyond);
    }
  }

  lemma NothingLeft(d: Deque, ks: seq<Kind>, beyond: seq<byte>)
    requires Readable(d) && d.readable == 0
    ensures AfterFields(d, ks, beyond) == d && DecodeAll(ks, [], beyond).used == 0 && Contents(d) == []
  {
    hide DecodeField, DropAll, DecodeAll, AfterFields;
    assert Contents(d) == [];
    DecodeAllUnfolds(ks, [], beyond);
    AfterFieldsUnfolds(d, ks, beyond);
    if ks != [] {
      NothingToRead(ks[0], beyond);
      DropNone(d);
      PrefixedOfNothing(d, if IsPrefixed(ks[0]) then ks[0].max else 0, SizeError(ks[0]));
    }
  }

  /** Reading fields takes what decoding them says and leaves the rest, wherever chunks end. Only the last
      field can ruin the buffer: it does so exactly when it is an empty array, nothing follows it, and the
      last chunk is full. */
  lemma {:induction false} AfterFieldsExact(d: Deque, ks: seq<Kind>, beyond: seq<byte>)
    requires WF(d)
    ensures var e, used := AfterFields(d, ks, beyond), DecodeAll(ks, Contents(d), beyond).used;
            && Readable(e) && Contents(e) == Contents(d)[used..] && (!WF(e) ==> used == d.readable)
            && (WF(e) <==> !(EndsEmpty(ks, Contents(d), beyond) && Writer(d) == d.cap))
    decreases |ks|
  {
    hide *;
    QueueIsReadable(d);
    var q := Contents(d);
    AfterFieldsUnfolds(d, ks, beyond);
    DecodeAllUnfolds(ks, q, beyond);
    EndsEmptyUnfolds(ks, q, beyond);
    assert q[0..] == q;
    if ks != [] {
      var k, later := ks[0], ks[1..];
      var r, e := DecodeField(k, q, beyond), AfterField(d, k, beyond);
      FieldStep(d, k, beyond);
      if r.outcome.Success? {
        if r.used == d.readable {
          NothingLeft(e, later, beyond);
        } else {
          AfterFieldsExact(e, later, beyond);
          assert q[r.used..][DecodeAll(later, q[r.used..], beyond).used..]
              == q[r.used + DecodeAll(later, q[r.used..], beyond).used..];
        }
      }
    }
  }

  lemma QueueIsReadable(d: Deque)
    requires WF(d)
    ensures Readable(d)
  {
  }

  lemma EndsEmptyUnfolds(ks: seq<Kind>, s: seq<byte>, beyond: seq<byte>)
    ensures ks == [] ==> !EndsEmpty(ks, s, beyond)
    ensures ks != [] ==>
            var r := DecodeField(ks[0], s, beyond);
            EndsEmpty(ks, s, beyond)
            <==> r.outcome.Success? && (if r.used == |s| then EmptyArray(ks[0], s)
                                        else EndsEmpty(ks[1..], s[r.used..], beyond))
  {
    hide DecodeField, EmptyArray;
  }

  // ---------- the reads themselves ----------

  /** What decoding a field comes to, kind by kind. */
  lemma FieldIs(k: Kind, s: seq<byte>, beyond: seq<byte>)
    ensures k == BoolKind ==>
            var r := ReadWord(s, 1, IncompleteBoolean);
            DecodeField(k, s, beyond) == Read(AsField(r.outcome, k), r.used)
    ensures k == ByteKind ==>
            var r := ReadWord(s, 1, IncompleteByte);
            DecodeField(k, s, beyond) == Read(AsField(r.outcome, k), r.used)
    ensures k == ShortKind ==>
            var r := ReadWord(s, 2, IncompleteShort);
            DecodeField(k, s, beyond) == Read(AsField(r.outcome, k), r.used)
    ensures k == MediumKind ==>
            var r := ReadWord(s, 3, IncompleteMedium);
            DecodeField(k, s, beyond) == Read(AsField(r.outcome, k), r.used)
    ensures k == IntKind ==>
            var r := ReadWord(s, 4, IncompleteInt);
            DecodeField(k, s, beyond) == Read(AsField(r.outcome, k), r.used)
    ensures k == LongKind ==>
            var r := ReadWord(s, 8, IncompleteLong);
            DecodeField(k, s, beyond) == Read(AsField(r.outcome, k), r.used)
    ensures k == VarIntKind ==>
            var r := Codec.ReadVarInt(s);
            DecodeField(k, s, beyond) == Read(AsField(r.outcome, k), r.used)
    ensures k == VarLongKind ==>
            var r := Codec.ReadVarLong(s);
            DecodeField(k, s, beyond) == Read(AsField(r.outcome, k), r.used)
    ensures k == UUIDKind ==>
            var r := Codec.ReadUUID(s);
            DecodeField(k, s, beyond) == Read(AsUUID(r.outcome, k), r.used)
    ensures k == UUIDIntArrayKind ==>
            var r := ReadUUIDInts(s);
            DecodeField(k, s, beyond) == Read(AsUUID(r.outcome, k), r.used)
    ensures k.StringKind? ==>
            var r := ReadPrefixed(s, k.max, InvalidStringSize);
            DecodeField(k, s, beyond)
            == Read(if r.outcome.Success? then Success(Text(CString(r.outcome.value + beyond)))
                    else Failure(r.outcome.kind, r.outcome.code), r.used)
    ensures k.ByteArrayKind? ==>
            var r := ReadPrefixed(s, k.max, InvalidByteArraySize);
            DecodeField(k, s, beyond)
            == Read(if r.outcome.Success? then Success(Bytes([]))
                    else Failure(r.outcome.kind, r.outcome.code), r.used)
  {
    hide ReadWord, ReadVar, Codec.ReadVarInt, Codec.ReadVarLong, Codec.ReadUUID, ReadUUIDInts, ReadPrefixed, CString;
  }

  function WordField(k: Kind, x: nat): Field {
    match k
    case BoolKind => Bool(x != 0)
    case ByteKind => Byte(x % TWO_8)
    case ShortKind => Short(x % TWO_16)
    case MediumKind => Medium(x % TWO_24)
    case IntKind => Int(x % TWO_32)
    case LongKind => Long(x % TWO_64)
    case VarIntKind => VarInt(x % TWO_32)
    case _ => VarLong(x % TWO_64)
  }

  /** The outcomes of the buffer's readers, as fields. */
  function AsField(r: Errorable<nat>, k: Kind): Errorable<Field> {
    if r.Success? then Success(WordField(k, r.value)) else Failure(r.kind, r.code)
  }

  function AsUUID(r: Errorable<UUID>, k: Kind): Errorable<Field> {
    if r.Failure? then Failure(r.kind, r.code)
    else Success(if k == UUIDKind then UUIDWords(r.value) else UUIDInts(r.value))
  }

  lemma AfterFieldIs(d: Deque, k: Kind, beyond: seq<byte>)
    requires Readable(d)
    ensures IsPrefixed(k) <==> k.StringKind? || k.ByteArrayKind?
    ensures k.StringKind? ==> AfterField(d, k, beyond) == AfterPrefixed(d, k.max, InvalidStringSize)
    ensures k.ByteArrayKind? ==> AfterField(d, k, beyond) == AfterPrefixed(d, k.max, InvalidByteArraySize)
    ensures !k.StringKind? && !k.ByteArrayKind? ==>
            AfterField(d, k, beyond) == DropAll(d, DecodeField(k, Contents(d), beyond).used)
  {
  }

  lemma ReadyIsReadable(buffer: ByteBufferImpl)
    requires buffer.Ready()
    ensures Readable(buffer.View())
  {
  }

  lemma BooleanWord(d: Deque)
    requires Readable(d)
    ensures var q := Contents(d);
            && (d.readable < 1 ==> ReadWord(q, 1, IncompleteBoolean) == Read(Failure(IncompleteBoolean, 0), 0))
            && (d.readable >= 1 ==> ReadWord(q, 1, IncompleteBoolean) == Read(Success(q[0]), 1))
            && DropAll(d, 0) == d
    ensures forall x: nat :: AsField(Success(x), BoolKind) == Success(Bool(x != 0))
    ensures AsField(Failure(IncompleteBoolean, 0), BoolKind) == Failure(IncompleteBoolean, 0)
  {
    if d.readable >= 1 {
      OrFirst(Contents(d), 0);
      ShlZero(Assembled(Contents(d), 1));
      ShlZero(Contents(d)[0]);
    }
  }

  /** Reads one field with the buffer's own reader for its kind. */
  method ReadField(k: Kind, buffer: ByteBufferImpl, beyond: seq<byte>) returns (r: Errorable<Field>)
    requires buffer.Ready()
    modifies buffer
    ensures buffer.Ready() && buffer.Repr == old(buffer.Repr) && Readable(old(buffer.View()))
    ensures buffer.View() == AfterField(old(buffer.View()), k, beyond)
    ensures r == DecodeField(k, old(buffer.Queued()), beyond).outcome
  {
    hide *;
    ReadyIsReadable(buffer);
    AfterFieldIs(buffer.View(), k, beyond);
    FieldIs(k, buffer.Queued(), beyond);
    match k
    case BoolKind =>
      BooleanWord(buffer.View());
      var flag := buffer.ReadBoolean();
      r := if flag.Success? then Success(Bool(flag.value)) else Failure(flag.kind, flag.code);
    case ByteKind => var x := buffer.ReadByte(); r := AsField(x, k);
    case ShortKind => var x := buffer.ReadShort(); r := AsField(x, k);
    case MediumKind => var x := buffer.ReadMedium(); r := AsField(x, k);
    case IntKind => var x := buffer.ReadInt(); r := AsField(x, k);
    case LongKind => var x := buffer.ReadLong(); r := AsField(x, k);
    case VarIntKind => var x := buffer.ReadVarInt(); r := AsField(x, k);
    case VarLongKind => var x := buffer.ReadVarLong(); r := AsField(x, k);
    case UUIDKind => var u := buffer.ReadUUID(); r := AsUUID(u, k);
    case UUIDIntArrayKind => var u := buffer.ReadUUIDIntArray(); r := AsUUID(u, k);
    case StringKind(max) =>
      buffer.MappedString(ReadPrefixed(buffer.Queued(), max, InvalidStringSize), beyond);
      var t := buffer.ReadString(max, beyond);
      r := if t.Success? then Success(Text(t.value)) else Failure(t.kind, t.code);
    case ByteArrayKind(max) => 
      var held := buffer.ReadByteArray(max);
      if held.Failure? {
        return Failure(held.kind, held.code);
      }
      assert held.value.readableBytes == 0;
      r := Success(Bytes([]));
  }

  /** Reads fields one after the other, up to the first that fails. */
  method ReadFrom(ks: seq<Kind>, buffer: ByteBufferImpl, beyond: seq<byte>) returns (r: Errorable<seq<Field>>)
    requires buffer.Ready()
    modifies buffer
    ensures buffer.Ready() && buffer.Repr == old(buffer.Repr) && Readable(old(buffer.View()))
    ensures buffer.View() == AfterFields(old(buffer.View()), ks, beyond)
    ensures var expected := DecodeAll(ks, old(buffer.Queued()), beyond);
            r == expected.outcome && buffer.Queued() == old(buffer.Queued())[expected.used..]
    ensures old(buffer.Valid()) ==>
            (buffer.Valid() <==> !(EndsEmpty(ks, old(buffer.Queued()), beyond)
                                   && old(buffer.localWriterIndex) == buffer.singleCapacity))
  {
    hide *;
    ghost var d, q := buffer.View(), buffer.Queued();
    ReadyIsReadable(buffer);
    FieldsTaken(d, ks, beyond);
    var fields: seq<Field> := [];
    NonePrepended(DecodeAll(ks, q, beyond).outcome);
    assert ks[0..] == ks;
    for i := 0 to |ks|
      invariant buffer.Ready() && buffer.Repr == old(buffer.Repr) && Readable(buffer.View())
      invariant AfterFields(d, ks, beyond) == AfterFields(buffer.View(), ks[i..], beyond)
      invariant DecodeAll(ks, q, beyond).outcome
                == Prepended(fields, DecodeAll(ks[i..], buffer.Queued(), beyond).outcome)
    {
      ghost var e, s := buffer.View(), buffer.Queued();
      assert ks[i..][0] == ks[i] && ks[i..][1..] == ks[i + 1..];
      AfterFieldsUnfolds(e, ks[i..], beyond);
      DecodeAllUnfolds(ks[i..], s, beyond);
      FieldStep(e, ks[i], beyond);
      var field := ReadField(ks[i], buffer, beyond);
      ReadyIsReadable(buffer);
      if field.Failure? {
        PrependedFailure(fields, field.kind, field.code);
        return Failure(field.kind, field.code);
      }
      PrependedTwice(fields, field.value, DecodeAll(ks[i + 1..], buffer.Queued(), beyond).outcome);
      fields := fields + [field.value];
    }
    assert ks[|ks|..] == [];
    AfterFieldsUnfolds(buffer.View(), [], beyond);
    DecodeAllUnfolds([], buffer.Queued(), beyond);
    NothingAfter(fields);
    r := Success(fields);
  }

  /** The whole of `AfterFieldsExact`, for a buffer that may have been spent before. */
  lemma FieldsTaken(d: Deque, ks: seq<Kind>, beyond: seq<byte>)
    requires Readable(d)
    ensures var e, used := AfterFields(d, ks, beyond), DecodeAll(ks, Contents(d), beyond).used;
            Readable(e) && used <= d.readable && Contents(e) == Contents(d)[used..]
    ensures WF(d) ==> (WF(AfterFields(d, ks, beyond))
                       <==> !(EndsEmpty(ks, Contents(d), beyond) && Writer(d) == d.cap))
  {
    hide *;
    if WF(d) {
      AfterFieldsExact(d, ks, beyond);
    } else {
      SpentIsEmpty(d);
      NothingLeft(d, ks, beyond);
    }
  }

  lemma SpentIsEmpty(d: Deque)
    requires Readable(d) && !WF(d)
    ensures d.readable == 0
  {
  }

  lemma NonePrepended(more: Errorable<seq<Field>>)
    ensures Prepended([], more) == more
  {
    if more.Success? {
      assert [] + more.value == more.value;
    }
  }

  lemma PrependedFailure(fields: seq<Field>, kind: ErrorKind, code: int)
    ensures Prepended(fields, Failure(kind, code)) == Failure(kind, code)
  {
  }

  lemma PrependedTwice(fields: seq<Field>, f: Field, more: Errorable<seq<Field>>)
    ensures Prepended(fields, Prepended([f], more)) == Prepended(fields + [f], more)
  {
    if more.Success? {
      JoinAssociates(fields, [f], more.value);
    }
  }

  lemma NothingAfter(fields: seq<Field>)
    ensures Prepended(fields, Success([])) == Success(fields)
  {
    assert fields + [] == fields;
  }

  // ---------- round trips over chunks ----------

  /** A message's fields in a buffer of any capacity, followed by anything: every field that survives comes
      back as it was, and no other, exactly the message is consumed, and the buffer is ruined only if nothing
      follows, the last field is an empty array and the last chunk is full. */
  lemma SchemaOverChunks(d: Deque, fs: seq<Field>, ks: seq<Kind>, tail: seq<byte>, beyond: seq<byte>)
    requires WF(d) && Contents(d) == EncodeAll(fs) + tail && beyond != []
    requires |fs| == |ks| && forall i :: 0 <= i < |fs| ==> Fits(fs[i], ks[i])
    ensures var r, e := DecodeAll(ks, Contents(d), beyond), AfterFields(d, ks, beyond);
            && r.outcome.Success? && |r.outcome.value| == |fs|
            && (forall i :: 0 <= i < |fs| ==> (r.outcome.value[i] == fs[i] <==> Survives(fs[i], beyond)))
            && Readable(e) && Contents(e) == tail
            && (WF(e) <==> !(tail == [] && fs != [] && (fs[|fs| - 1] == Text([]) || fs[|fs| - 1] == Bytes([]))
                             && Writer(d) == d.cap))
  {
    hide *;
    SchemaRoundTrip(fs, ks, tail, beyond);
    AfterFieldsExact(d, ks, beyond);
    EndsEmptyMeans(fs, ks, tail, beyond);
    AfterTail(EncodeAll(fs), tail);
  }

  lemma AfterTail(s: seq<byte>, tail: seq<byte>)
    ensures (s + tail)[|s|..] == tail
  {
  }

  lemma {:induction false} EndsEmptyMeans(fs: seq<Field>, ks: seq<Kind>, tail: seq<byte>, beyond: seq<byte>)
    requires |fs| == |ks| && beyond != [] && forall i :: 0 <= i < |fs| ==> Fits(fs[i], ks[i])
    ensures EndsEmpty(ks, EncodeAll(fs) + tail, beyond)
            <==> tail == [] && fs != [] && (fs[|fs| - 1] == Text([]) || fs[|fs| - 1] == Bytes([]))
    decreases |fs|
  {
    hide *;
    var s := EncodeAll(fs) + tail;
    EndsEmptyUnfolds(ks, s, beyond);
    if fs != [] {
      var f, k, rest := fs[0], ks[0], EncodeAll(fs[1..]);
      EncodeAllFirst(fs, tail);
      FieldRoundTrip(f, k, rest + tail, beyond);
      AfterTail(EncodeField(f), rest + tail);
      EmptyArrayMeans(f, k, rest + tail);
      EndsEmptyMeans(fs[1..], ks[1..], tail, beyond);
      FieldsHaveBytes(fs[1..]);
    }
  }

  lemma EncodeAllFirst(fs: seq<Field>, tail: seq<byte>)
    requires fs != []
    ensures EncodeAll(fs) + tail == EncodeField(fs[0]) + (EncodeAll(fs[1..]) + tail)
  {
    JoinAssociates(EncodeField(fs[0]), EncodeAll(fs[1..]), tail);
  }

  lemma FieldsHaveBytes(fs: seq<Field>)
    ensures fs != [] ==> |EncodeAll(fs)| > 0
    ensures fs == [] ==> EncodeAll(fs) == []
  {
  }

  lemma EmptyArrayMeans(f: Field, k: Kind, tail: seq<byte>)
    requires Fits(f, k)
    ensures EmptyArray(k, EncodeField(f) + tail) <==> f == Text([]) || f == Bytes([])
  {
    hide ReadPrefixed, Prefixed, BigEndian, VarInts.Encode;
    match f
    case Text(s) => PrefixedRoundTrip(s, k.max, SizeError(k), tail);
    case Bytes(s) => PrefixedRoundTrip(s, k.max, SizeError(k), tail);
    case _ =>
  }

  /** A message written to an empty buffer of any capacity, with anything after it, and read back. As
      written here the read never ruins the buffer: the writer of an empty array ends with a bulk write of
      no bytes, which opens a chunk when the last one is full. */
  method WriteThenRead(fs: seq<Field>, ks: seq<Kind>, buffer: ByteBufferImpl, tail: seq<byte>, beyond: seq<byte>)
    returns (r: Errorable<seq<Field>>)
    requires buffer.Valid() && buffer.Queued() == [] && beyond != []
    requires |fs| == |ks| && forall i :: 0 <= i < |fs| ==> Fits(fs[i], ks[i])
    modifies buffer.Repr
    ensures buffer.Valid() && buffer.Queued() == tail
    ensures r.Success? && |r.value| == |fs|
    ensures forall i :: 0 <= i < |fs| ==> (r.value[i] == fs[i] <==> Survives(fs[i], beyond))
  {
    hide *;
    TypedBytes(fs);
    AllPossible(AllTyped(fs));
    WriteTo(AllTyped(fs), buffer);
    ghost var q := buffer.Queued();
    assert [] + EncodeAll(fs) == EncodeAll(fs) && q + [] == q;
    if tail != [] {
      OneRaw(tail);
      WriteTo([Raw(tail)], buffer);
    }
    SchemaOverChunks(buffer.View(), fs, ks, tail, beyond);
    if fs != [] {
      OpenAtEnd(fs);
    }
    r := ReadFrom(ks, buffer, beyond);
  }

  lemma AllPossible(writes: seq<Write>)
    requires forall i :: 0 <= i < |writes| ==> writes[i].Typed?
    ensures forall i :: 0 <= i < |writes| ==> Possible(writes[i])
  {
  }

  lemma OpenAtEnd(fs: seq<Field>)
    requires fs != []
    ensures var last := fs[|fs| - 1];
            (last == Text([]) || last == Bytes([])) && |AllTyped(fs)| == |fs| ==> EndsOpen(AllTyped(fs)[|fs| - 1])
  {
  }

  lemma OneRaw(tail: seq<byte>)
    ensures Possible(Raw(tail)) && AllBytes([Raw(tail)]) == tail
  {
    assert [Raw(tail)][1..] == [] && tail + [] == tail;
  }
}
