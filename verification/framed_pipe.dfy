/** The framed pipes as objects on real buffers. */
module FramedPipes {
  import opened Words
  import opened Codec
  import opened Framing
  import opened Pipes
  import opened ChunkedQueue
  import opened ByteBuffers
  import QueueTheorems

  /** Takes up to `size` bytes from a buffer, the way a frame decoder or encoder reads its frame. */
  method TakeFrame(source: ByteBufferImpl, size: nat) returns (frame: seq<byte>)
    requires source.Valid()
    modifies source
    ensures source.Valid() && source.Repr == old(source.Repr)
    ensures frame == Piece(old(source.Queued()), 0, Min(size, old(source.readableBytes)))
    ensures source.Queued() == old(source.Queued())[|frame|..]
  {
    hide *;
    var taken := Min(size, source.readableBytes);
    ghost var d := source.View();
    var bytes := new byte[taken];
    TakenBytes(d, taken);
    if taken > 0 {
      var outcome := source.ReadBytes(bytes, taken);
    }
    assert bytes[..taken] == bytes[..];
    frame := bytes[..];
  }

  lemma TakenBytes(d: Deque, k: nat)
    requires WF(d) && k <= d.readable
    ensures Piece(Contents(d), 0, k) == Contents(d)[..k]
    ensures k > 0 ==> WF(DropBulk(d, k)) && Contents(DropBulk(d, k)) == Contents(d)[k..]
  {
    QueueTheorems.BulkReadExact(d, k);
  }

  lemma EmptyContents(cap: nat)
    requires cap >= 1
    ensures Covered(Empty(cap)) && Contents(Empty(cap)) == []
  {
    FlatSingle([]);
  }

  /** Appends bytes to a buffer. */
  method Append(target: ByteBufferImpl, bytes: seq<byte>)
    requires target.Valid()
    modifies target.Repr
    ensures target.Valid() && fresh(target.Repr - old(target.Repr)) && target.Queued() == old(target.Queued()) + bytes
  {
    hide *;
    PutBulkAppends(target.View(), bytes);
    target.WriteBytes(bytes);
  }

  class FramedByteBytePipe {
    const codec: FrameCodec
    const maxReadSize: uint32
    const readerBuffer: ByteBufferImpl
    const writerBuffer: ByteBufferImpl
    var nextReadFrameLength: uint32
    var nextWriteFrameLength: uint32

    ghost function Footprint(): (f: set<object>)
      reads this, readerBuffer, writerBuffer
      ensures f == {this} + readerBuffer.Repr + writerBuffer.Repr
    {
      {this} + readerBuffer.Repr + writerBuffer.Repr
    }

    ghost predicate Valid()
      reads this, readerBuffer, writerBuffer, Footprint()
      ensures Valid() <==>
              && readerBuffer.Valid() && writerBuffer.Valid()
              && readerBuffer.Repr !! writerBuffer.Repr && this !in readerBuffer.Repr && this !in writerBuffer.Repr
    {
      && readerBuffer.Valid() && writerBuffer.Valid()
      && readerBuffer.Repr !! writerBuffer.Repr && this !in readerBuffer.Repr && this !in writerBuffer.Repr
    }

    /** The pipe as a value. */
    ghost function State(): (p: Pipe)
      reads this, readerBuffer, writerBuffer, Footprint()
      requires Valid()
      ensures p == Pipe(codec, maxReadSize, nextReadFrameLength, nextWriteFrameLength,
                        readerBuffer.Queued(), writerBuffer.Queued())
    {
      Pipe(codec, maxReadSize, nextReadFrameLength, nextWriteFrameLength, readerBuffer.Queued(), writerBuffer.Queued())
    }

    constructor (frameCodec: FrameCodec, readerLength: nat, writerLength: nat, max: uint32)
      requires readerLength >= 1 && writerLength >= 1
      ensures Valid() && fresh(Footprint())
      ensures State() == Pipe(frameCodec, max, 0, 0, [], [])
    {
      hide *;
      EmptyContents(readerLength);
      EmptyContents(writerLength);
      codec, maxReadSize := frameCodec, max;
      nextReadFrameLength, nextWriteFrameLength := 0, 0;
      readerBuffer := new ByteBufferImpl(readerLength);
      writerBuffer := new ByteBufferImpl(writerLength);
    }

    /** The frame decoder: takes the frame and appends its decoding to the reader's buffer. */
    method DecodeFrame(source: ByteBufferImpl, size: uint32) returns (r: Errorable<nat>)
      requires Valid() && source.Valid() && source.Repr !! Footprint() && size <= source.readableBytes
      modifies source, readerBuffer.Repr
      ensures Valid() && source.Valid() && source.Repr == old(source.Repr)
      ensures fresh(readerBuffer.Repr - old(readerBuffer.Repr)) && writerBuffer.Repr == old(writerBuffer.Repr)
      ensures source.Queued() == old(source.Queued())[size..]
      ensures var c := Decoded(old(State()), Piece(old(source.Queued()), 0, size), 0);
              State() == c.pipe.(readPending := nextReadFrameLength) && r == c.outcome
    {
      hide *;
      DecodedIs(State(), Piece(source.Queued(), 0, size), 0);
      var frame := TakeFrame(source, size);
      match codec.decode(frame)
      case Failure(kind, code) =>
        r := Failure(kind, code);
      case Success(out) =>
        Append(readerBuffer, out);
        r := Success(|out|);
    }

    lemma DecodedIs(p: Pipe, frame: seq<byte>, used: nat)
      ensures p.codec.decode(frame).Failure? ==>
              Decoded(p, frame, used)
              == PipeCall(p.(readPending := 0), used, Failure(p.codec.decode(frame).kind, p.codec.decode(frame).code))
      ensures p.codec.decode(frame).Success? ==>
              Decoded(p, frame, used)
              == PipeCall(p.(readPending := 0, readerQueue := p.readerQueue + p.codec.decode(frame).value), used,
                          Success(|p.codec.decode(frame).value|))
    {
    }

    /** The frame encoder, which appends to the writer's buffer. It may be started on too few bytes. */
    method EncodeFrame(source: ByteBufferImpl, size: uint32) returns (r: Errorable<nat>)
      requires Valid() && source.Valid() && source.Repr !! Footprint()
      modifies source, writerBuffer.Repr
      ensures Valid() && source.Valid() && source.Repr == old(source.Repr)
      ensures fresh(writerBuffer.Repr - old(writerBuffer.Repr)) && readerBuffer.Repr == old(readerBuffer.Repr)
      ensures var taken := Min(size, old(source.readableBytes));
              && source.Queued() == old(source.Queued())[taken..]
              && var c := Encoded(old(State()), Piece(old(source.Queued()), 0, taken), 0);
                 State() == c.pipe.(writePending := nextWriteFrameLength) && r == c.outcome
    {
      hide *;
      EncodedIs(State(), Piece(source.Queued(), 0, Min(size, source.readableBytes)), 0);
      var frame := TakeFrame(source, size);
      match codec.encode(frame)
      case Failure(kind, code) =>
        r := Failure(kind, code);
      case Success(out) =>
        Append(writerBuffer, out);
        r := Success(|out|);
    }

    lemma EncodedIs(p: Pipe, frame: seq<byte>, used: nat)
      ensures p.codec.encode(frame).Failure? ==>
              Encoded(p, frame, used)
              == PipeCall(p.(writePending := 0), used, Failure(p.codec.encode(frame).kind, p.codec.encode(frame).code))
      ensures p.codec.encode(frame).Success? ==>
              Encoded(p, frame, used)
              == PipeCall(p.(writePending := 0, writerQueue := p.writerQueue + p.codec.encode(frame).value), used,
                          Success(|p.codec.encode(frame).value|))
    {
    }

    /** The body of a read, from the bytes left after `used` of them. */
    lemma DecodeBodyIs(p: Pipe, length: uint32, s: seq<byte>, used: nat)
      requires used <= |s|
      ensures |s| - used < length ==>
              DecodeBody(p, length, s, used)
              == PipeCall(p.(readPending := length), used, Failure(IncompleteByteFrame, length))
      ensures |s| - used >= length ==>
              var c := DecodeBody(p, length, s, used);
              && c.used == used + length && s[used..][length..] == s[c.used..]
              && c.pipe == Decoded(p.(readPending := length), Piece(s[used..], 0, length), 0).pipe.(readPending := 0)
              && c.outcome == Decoded(p.(readPending := length), Piece(s[used..], 0, length), 0).outcome
    {
      if |s| - used >= length {
        assert Piece(s[used..], 0, length) == Piece(s, used, used + length);
      }
    }

    lemma EncodeBodyIs(p: Pipe, length: uint32, s: seq<byte>, used: nat)
      requires used <= |s|
      ensures |s| < length ==>
              EncodeBody(p, length, s, used)
              == PipeCall(p.(writePending := length), used, Failure(IncompleteByteFrame, length))
      ensures |s| >= length ==>
              var c := EncodeBody(p, length, s, used);
              var taken := Min(length, |s| - used);
              && c.used == used + taken && s[used..][taken..] == s[c.used..]
              && c.pipe == Encoded(p.(writePending := length), Piece(s[used..], 0, taken), 0).pipe.(writePending := 0)
              && c.outcome == Encoded(p.(writePending := length), Piece(s[used..], 0, taken), 0).outcome
    {
      if |s| >= length {
        var taken := Min(length, |s| - used);
        assert Piece(s[used..], 0, taken) == Piece(s, used, used + taken);
      }
    }

    /** The end of a read: decodes the pending frame if all of it is there. */
    method FinishRead(source: ByteBufferImpl) returns (r: Errorable<nat>)
      requires Valid() && source.Valid() && source.Repr !! Footprint()
      modifies this, source, readerBuffer.Repr
      ensures Valid() && source.Valid() && source.Repr == old(source.Repr)
      ensures fresh(readerBuffer.Repr - old(readerBuffer.Repr)) && writerBuffer.Repr == old(writerBuffer.Repr)
      ensures var p, s, length := old(State()), old(source.Queued()), old(nextReadFrameLength);
              && (|s| < length ==> State() == p && source.Queued() == s && r == Failure(IncompleteByteFrame, length))
              && (|s| >= length ==>
                    var c := Decoded(p, Piece(s, 0, length), 0);
                    State() == c.pipe.(readPending := 0) && r == c.outcome && source.Queued() == s[length..])
    {
      hide *;
      var frameLength := nextReadFrameLength;
      if source.readableBytes >= frameLength {
        r := DecodeFrame(source, frameLength);
        nextReadFrameLength := 0;
      } else {
        r := Failure(IncompleteByteFrame, frameLength);
      }
    }

    /** Reads the length when none is pending, and decodes the frame once all of it is there. */
    method Read(source: ByteBufferImpl) returns (r: Errorable<nat>)
      requires Valid() && source.Valid() && source.Repr !! Footprint()
      modifies this, source, readerBuffer.Repr
      ensures Valid() && source.Valid() && source.Repr == old(source.Repr)
      ensures fresh(readerBuffer.Repr - old(readerBuffer.Repr)) && writerBuffer.Repr == old(writerBuffer.Repr)
      ensures var c := PipeRead(old(State()), old(source.Queued()));
              State() == c.pipe && r == c.outcome && source.Queued() == old(source.Queued())[c.used..]
    {
      hide *;
      ghost var p, s := State(), source.Queued();
      PipeReadSteps(p, s);
      if nextReadFrameLength == 0 {
        var length := source.ReadVarInt();
        if length.Failure? {
          if length.kind == IncompleteVarInt {
            return Failure(IncompleteByteFrame, 0);
          }
          return Failure(InvalidByteFrame, 0);
        }
        if length.value > maxReadSize {
          return Failure(InvalidByteFrame, length.value);
        }
        DecodeBodyIs(p, length.value, s, ReadVarInt(s).used);
        nextReadFrameLength := length.value;
      } else {
        DecodeBodyIs(p, nextReadFrameLength, s, 0);
        assert s[0..] == s;
      }
      r := FinishRead(source);
    }

    /** The end of a write, with the count taken at its start. */
    method FinishWrite(source: ByteBufferImpl, readableBytes: nat) returns (r: Errorable<nat>)
      requires Valid() && source.Valid() && source.Repr !! Footprint()
      modifies this, source, writerBuffer.Repr
      ensures Valid() && source.Valid() && source.Repr == old(source.Repr)
      ensures fresh(writerBuffer.Repr - old(writerBuffer.Repr)) && readerBuffer.Repr == old(readerBuffer.Repr)
      ensures var p, s, length := old(State()), old(source.Queued()), old(nextWriteFrameLength);
              && (readableBytes < length ==>
                    State() == p && source.Queued() == s && r == Failure(IncompleteByteFrame, length))
              && (readableBytes >= length ==>
                    var taken := Min(length, |s|);
                    var c := Encoded(p, Piece(s, 0, taken), 0);
                    State() == c.pipe.(writePending := 0) && r == c.outcome && source.Queued() == s[taken..])
    {
      hide *;
      var frameLength := nextWriteFrameLength;
      if readableBytes >= frameLength {
        r := EncodeFrame(source, frameLength);
        nextWriteFrameLength := 0;
      } else {
        r := Failure(IncompleteByteFrame, frameLength);
      }
    }

    /** As written: whether the frame is all there is judged by the count taken at the start, before the
        length was read. */
    method Write(source: ByteBufferImpl) returns (r: Errorable<nat>)
      requires Valid() && source.Valid() && source.Repr !! Footprint()
      modifies this, source, writerBuffer.Repr
      ensures Valid() && source.Valid() && source.Repr == old(source.Repr)
      ensures fresh(writerBuffer.Repr - old(writerBuffer.Repr)) && readerBuffer.Repr == old(readerBuffer.Repr)
      ensures var c := PipeWrite(old(State()), old(source.Queued()));
              State() == c.pipe && r == c.outcome && source.Queued() == old(source.Queued())[c.used..]
    {
      hide *;
      ghost var p, s := State(), source.Queued();
      PipeWriteSteps(p, s);
      var readableBytes := source.readableBytes;
      if nextWriteFrameLength == 0 {
        if readableBytes == 0 {
          assert s[0..] == s;
          return Failure(IncompleteByteFrame, 0);
        }
        var length := source.ReadVarInt();
        if length.Failure? {
          if length.kind == IncompleteVarInt {
            return Failure(IncompleteByteFrame, 0);
          }
          return Failure(InvalidByteFrame, 0);
        }
        EncodeBodyIs(p, length.value, s, ReadVarInt(s).used);
        nextWriteFrameLength := length.value;
      } else {
        EncodeBodyIs(p, nextWriteFrameLength, s, 0);
        assert s[0..] == s;
      }
      r := FinishWrite(source, readableBytes);
    }
  }

  /** The last stage of an incoming pipeline: frames become packets. A packet is represented by the bytes
      the packet reader took for it. */
  class FramedBytePacketPipe {
    const maxReadSize: uint32
    var nextReadFrameLength: uint32

    constructor (max: uint32)
      ensures maxReadSize == max && nextReadFrameLength == 0
    {
      maxReadSize := max;
      nextReadFrameLength := 0;
    }

    /** As written: the packet reader is started by the count taken before the length was read. */
    method Read(source: ByteBufferImpl) returns (r: Errorable<seq<byte>>)
      requires source.Valid() && this !in source.Repr
      modifies this, source
      ensures source.Valid() && source.Repr == old(source.Repr)
      ensures var c := ReadPacketFrame(old(nextReadFrameLength), old(source.Queued()), maxReadSize);
              nextReadFrameLength == c.pending && r == c.outcome && source.Queued() == old(source.Queued())[c.used..]
    {
      hide *;
      ghost var s := source.Queued();
      var readableBytes := source.readableBytes;
      ReadPacketSteps(nextReadFrameLength, s, maxReadSize);
      assert s[0..] == s;
      if nextReadFrameLength == 0 {
        if readableBytes == 0 {
          return Failure(IncompleteFrame, readableBytes);
        }
        var length := source.ReadVarInt();
        if length.Success? {
          if length.value > maxReadSize {
            return Failure(InvalidFrame, length.value);
          }
          nextReadFrameLength := length.value;
          PacketBodySteps(length.value, s, ReadVarInt(s).used);
        } else if length.kind != IncompleteVarInt {
          return Failure(InvalidFrame, 0);
        }
      } else {
        PacketBodySteps(nextReadFrameLength, s, 0);
      }

      if nextReadFrameLength != 0 && readableBytes >= nextReadFrameLength {
        var packet := TakeFrame(source, nextReadFrameLength);
        nextReadFrameLength := 0;
        return Success(packet);
      }
      r := Failure(IncompleteFrame, readableBytes);
    }
  }
}
