/** The segmented byte buffer itself. */
module ByteBuffers {
  import opened Words
  import opened ChunkedQueue
  import opened Codec
  import QueueTheorems
  import VarInts

  /** The state a length-prefixed read leaves: an array of no bytes is still read with a bulk read,
      which drops a used-up front chunk. */
  ghost function AfterPrefixed(d: Deque, max: uint32, error: ErrorKind): Deque
    requires Covered(d)
  {
    var r := ReadPrefixed(Contents(d), max, error);
    if r.outcome == Success([]) then RefreshReader(DropAll(d, r.used)) else DropAll(d, r.used)
  }

  /** A length-prefixed read ruins the buffer exactly when the array is empty, its prefix is the last thing
      queued and the last chunk is full; otherwise what it took is gone and the rest is still queued. */
  lemma AfterPrefixedExact(d: Deque, max: uint32, error: ErrorKind)
    requires WF(d)
    ensures var r, e := ReadPrefixed(Contents(d), max, error), AfterPrefixed(d, max, error);
            && r.used <= d.readable
            && (WF(e) <==> !(r.outcome == Success([]) && r.used == d.readable && Writer(d) == d.cap))
            && (WF(e) ==> Contents(e) == Contents(d)[r.used..] && Writer(e) == Writer(d))
            && (!WF(e) ==> e == Deque(d.cap, [], 0, 0))
  {
    hide DropAll, Flat, Contents, ReadPrefixed;
    var r := ReadPrefixed(Contents(d), max, error);
    DropAllRemoves(d, r.used);
    QueueTheorems.DropAllEnd(d, r.used);
    QueueTheorems.UsedUpExact(DropAll(d, r.used));
    QueueTheorems.EmptyReadExact(DropAll(d, r.used));
  }

  /** The two steps of a length-prefixed read, from the state before them. */
  lemma PrefixedSteps(d: Deque, max: uint32, error: ErrorKind)
    requires WF(d)
    ensures var q := Contents(d);
            var prefix, r := Codec.ReadVarInt(q), ReadPrefixed(q, max, error);
            var e := DropAll(d, prefix.used);
            && WF(e) && e.readable == d.readable - prefix.used
            && (prefix.outcome.Failure? ==>
                  r == Read(Failure(error, 0xFFFF_FFFF_FFFF_FFFF), prefix.used) && AfterPrefixed(d, max, error) == e)
            && (prefix.outcome.Success? ==>
                  var length := prefix.outcome.value;
                  && (length > max || e.readable < length ==> r == Read(Failure(error, length), prefix.used))
                  && (length > max ==> AfterPrefixed(d, max, error) == e)
                  && (length <= max ==> DropBulk(e, length) == AfterPrefixed(d, max, error))
                  && (length <= max && e.readable >= length ==> r.outcome == Success(Contents(e)[..length])))
  {
    hide DropAll, Codec.ReadVarInt, ReadPrefixed, Contents, WF, Segmented, Flat, RefreshReader, Piece;
    var q := Contents(d);
    var prefix := Codec.ReadVarInt(q);
    ReadPrefixedOf(q, max, error);
    DropAllRemoves(d, prefix.used);
    if prefix.outcome.Success? && prefix.outcome.value <= d.readable - prefix.used {
      DropAllSplits(d, prefix.used, prefix.outcome.value);
      PieceOfRest(q, prefix.used, prefix.outcome.value);
    }
  }

  /** With nothing readable, such a read fails at its prefix. */
  lemma PrefixedOfNothing(d: Deque, max: uint32, error: ErrorKind)
    requires Covered(d) && d.readable == 0
    ensures Codec.ReadVarInt(Contents(d)) == Read(Failure(IncompleteVarInt, 0), 0)
    ensures ReadPrefixed(Contents(d), max, error) == Read(Failure(error, 0xFFFF_FFFF_FFFF_FFFF), 0)
    ensures AfterPrefixed(d, max, error) == d && DropAll(d, 0) == d
  {
    ReadVarOf([], VarInts.VARINT_LIMIT, TWO_32, IncompleteVarInt, InvalidVarInt, 0);
  }

  /** std::copy into a chunk. */
  method Copy(src: seq<byte>, dst: array<byte>, at: nat)
    requires at + |src| <= dst.Length
    modifies dst
    ensures dst[..] == old(dst[..at]) + src + old(dst[at + |src|..])
  {
    forall i | 0 <= i < |src| {
      dst[at + i] := src[i];
    }
  }

  class ByteBufferImpl {
    var buffers: seq<array<byte>>
    const singleCapacity: nat
    var currentReadBuffer: array<byte>
    var currentWriteBuffer: array<byte>
    var localReaderIndex: nat
    var localWriterIndex: nat
    var readableBytes: nat
    ghost var Repr: set<object>

    /** The chunks are distinct arrays of the one capacity, and both offsets are inside a chunk. */
    ghost predicate Shaped()
      reads this, Repr
      ensures Shaped() ==> this in Repr && singleCapacity >= 1
    {
      && singleCapacity >= 1
      && localReaderIndex <= singleCapacity
      && localWriterIndex <= singleCapacity
      && this in Repr
      && (forall i :: 0 <= i < |buffers| ==> buffers[i] in Repr && buffers[i].Length == singleCapacity)
      && (forall i, j :: 0 <= i < j < |buffers| ==> buffers[i] != buffers[j])
    }

    /** The read pointer is the front chunk and the write pointer the back one. */
    ghost predicate Live()
      reads this, Repr
      ensures Live() ==> Shaped() && buffers != [] && currentWriteBuffer in Repr
    {
      && Shaped()
      && buffers != []
      && currentReadBuffer == buffers[0]
      && currentWriteBuffer == buffers[|buffers| - 1]
    }

    ghost function Chunks(): (cs: seq<seq<byte>>)
      reads this, Repr
      requires Shaped()
      ensures |cs| == |buffers|
      ensures forall i :: 0 <= i < |cs| - 1 ==> cs[i] == buffers[i][..]
      ensures cs != [] ==> cs[|cs| - 1] == buffers[|cs| - 1][..localWriterIndex]
    {
      seq(|buffers|, i requires 0 <= i < |buffers| && Shaped() reads this, Repr =>
        if i == |buffers| - 1 then buffers[i][..localWriterIndex] else buffers[i][..])
    }

    /** The value the buffer stands for: its chunks, the last one cut at the writer offset. */
    ghost function View(): (d: Deque)
      reads this, Repr
      requires Shaped()
      ensures d.cap == singleCapacity >= 1 && d.reader == localReaderIndex <= d.cap && d.readable == readableBytes
      ensures |d.chunks| == |buffers| && (buffers != [] ==> Writer(d) == localWriterIndex <= d.cap)
    {
      Deque(singleCapacity, Chunks(), localReaderIndex, readableBytes)
    }

    ghost predicate Valid()
      reads this, Repr
      ensures Valid() ==> Live() && WF(View())
      ensures Live() && WF(View()) ==> Valid()
    {
      Live() && WF(View())
    }

    /** The only chunk has been dropped: nothing is readable, and there is no chunk to read from. */
    ghost predicate Spent()
      reads this, Repr
      ensures Spent() <==> Shaped() && View() == Deque(singleCapacity, [], 0, 0)
    {
      Shaped() && buffers == [] && localReaderIndex == 0 && readableBytes == 0
    }

    /** Reads that look at the readable count first work on a spent buffer too: they refuse. */
    ghost predicate Ready()
      reads this, Repr
      ensures Ready() <==> Valid() || Spent()
      ensures Ready() ==> Shaped() && Covered(View()) && (readableBytes > 0 ==> Valid())
    {
      Valid() || Spent()
    }

    ghost function Queued(): (q: seq<byte>)
      reads this, Repr
      requires Ready()
      ensures q == Contents(View()) && |q| == readableBytes
    {
      Contents(View())
    }

    constructor (cap: nat)
      requires cap >= 1
      ensures Valid() && View() == Empty(cap) && fresh(Repr)
    {
      singleCapacity := cap;
      var buffer := new byte[cap];
      currentReadBuffer := buffer;
      currentWriteBuffer := buffer;
      buffers := [buffer];
      localReaderIndex, localWriterIndex, readableBytes := 0, 0, 0;
      Repr := {this, buffer};
      new;
      FlatSingle([]);
      assert View().chunks == [[]];
    }

    /** The constructor over an existing array: the array becomes the only chunk, but none of it counts
        as written. An empty array makes a buffer without room for a chunk. */
    constructor FromArray(buffer: array<byte>, cap: nat)
      requires buffer.Length == cap
      ensures singleCapacity == cap && buffers == [buffer] && Repr == {this, buffer}
      ensures localReaderIndex == 0 && localWriterIndex == 0 && readableBytes == 0
      ensures cap >= 1 ==> Valid() && View() == Empty(cap)
    {
      singleCapacity := cap;
      currentReadBuffer := buffer;
      currentWriteBuffer := buffer;
      buffers := [buffer];
      localReaderIndex, localWriterIndex, readableBytes := 0, 0, 0;
      Repr := {this, buffer};
      new;
      FlatSingle([]);
      assert cap >= 1 ==> View().chunks == [[]];
    }

    /** Writing into the last chunk leaves the others as they were. */
    twostate lemma FrontKept()
      requires old(Live()) && Live() && buffers == old(buffers)
      requires forall b :: b in buffers && b != currentWriteBuffer ==> b[..] == old(b[..])
      ensures View().chunks[..|buffers| - 1] == old(View()).chunks[..|buffers| - 1]
    {
      forall i | 0 <= i < |buffers| - 1
        ensures View().chunks[i] == old(View()).chunks[i]
      {
        assert buffers[i] in buffers && buffers[i] != currentWriteBuffer;
      }
    }

    /** Storing bytes at the write position extends the last chunk of the view by them. */
    twostate lemma StoredInPlace(part: seq<byte>)
      requires old(Live()) && Live() && buffers == old(buffers)
      requires localReaderIndex == old(localReaderIndex) && readableBytes == old(readableBytes) + |part|
      requires localWriterIndex == old(localWriterIndex) + |part|
      requires forall b :: b in buffers && b != currentWriteBuffer ==> b[..] == old(b[..])
      requires currentWriteBuffer[..localWriterIndex] == old(currentWriteBuffer[..localWriterIndex]) + part
      ensures View() == Extend(old(View()), part)
    {
      FrontKept();
      assert View().chunks == old(View()).chunks[..|buffers| - 1] + [Last(old(View()).chunks) + part];
    }

    /** Filling the last chunk and opening a new one. */
    twostate lemma FilledAndOpened(part: seq<byte>)
      requires old(Live()) && Live() && buffers == old(buffers) + [currentWriteBuffer]
      requires old(localWriterIndex) + |part| == singleCapacity && localWriterIndex == 0
      requires localReaderIndex == old(localReaderIndex) && readableBytes == old(readableBytes) + |part|
      requires forall b :: b in old(buffers) && b != old(currentWriteBuffer) ==> b[..] == old(b[..])
      requires old(currentWriteBuffer)[..] == old(currentWriteBuffer[..localWriterIndex]) + part
      ensures View() == RefreshWriter(Extend(old(View()), part))
    {
      var n := |old(buffers)| - 1;
      forall i | 0 <= i < n
        ensures View().chunks[i] == old(View()).chunks[i]
      {
        assert old(buffers)[i] in old(buffers) && old(buffers)[i] != old(currentWriteBuffer);
      }
      assert View().chunks == Extend(old(View()), part).chunks + [[]];
    }

    /** Opening a new chunk takes the last one into the view as a whole. */
    twostate lemma Opened()
      requires old(Live()) && Live() && buffers == old(buffers) + [currentWriteBuffer] && localWriterIndex == 0
      requires localReaderIndex == old(localReaderIndex) && readableBytes == old(readableBytes)
      requires forall b :: b in old(buffers) ==> b[..] == old(b[..])
      ensures View() == old(View()).(chunks := old(View()).chunks[..|old(buffers)| - 1]
                                               + [old(currentWriteBuffer[..]), []])
    {
      var n := |old(buffers)| - 1;
      forall i | 0 <= i < n
        ensures View().chunks[i] == old(View()).chunks[i]
      {
        assert old(buffers)[i] in old(buffers);
      }
      assert old(currentWriteBuffer) in old(buffers);
      assert View().chunks == old(View()).chunks[..n] + [old(currentWriteBuffer[..]), []];
    }

    method AppendBuffer()
      requires Live()
      modifies this
      ensures Live() && fresh(currentWriteBuffer) && buffers == old(buffers) + [currentWriteBuffer]
      ensures Repr == old(Repr) + {currentWriteBuffer} && localWriterIndex == 0
      ensures localReaderIndex == old(localReaderIndex) && readableBytes == old(readableBytes)
      ensures View() == old(View()).(chunks := old(View()).chunks[..|old(buffers)| - 1]
                                               + [old(currentWriteBuffer[..]), []])
    {
      hide Flat, Segmented, Covered, WF, Contents, RefreshWriter, RefreshReader, Extend, PopChunk, View, Chunks;
      localWriterIndex := 0;
      currentWriteBuffer := new byte[singleCapacity];
      buffers := buffers + [currentWriteBuffer];
      Repr := Repr + {currentWriteBuffer};
      Opened();
    }

    /** Dropping the only chunk leaves no front for the read pointer to move to; it is then dangling. */
    method PopBuffer()
      requires Live()
      modifies this
      ensures Shaped() && Repr == old(Repr) && (|old(buffers)| > 1 ==> Live()) && localReaderIndex == 0
      ensures View() == PopChunk(old(View()))
    {
      localReaderIndex := 0;
      buffers := buffers[1..];
      if buffers != [] {
        currentReadBuffer := buffers[0];
      }
      assert View().chunks == old(View()).chunks[1..];
    }

    method TryRefreshWriterBuffer()
      requires Live()
      modifies this
      ensures Live() && View() == RefreshWriter(old(View())) && fresh(Repr - old(Repr))
      ensures localWriterIndex < singleCapacity
    {
      if localWriterIndex >= singleCapacity {
        assert currentWriteBuffer[..localWriterIndex] == currentWriteBuffer[..];
        AppendBuffer();
        assert View().chunks == old(View()).chunks + [[]];
      }
    }

    method TryRefreshReaderBuffer()
      requires Live()
      modifies this
      ensures Shaped() && Repr == old(Repr)
      ensures View() == RefreshReader(old(View())) && (View().chunks != [] ==> Live())
    {
      if localReaderIndex >= singleCapacity {
        PopBuffer();
      }
    }

    method StoreByte(input: byte)
      requires Live() && localWriterIndex < singleCapacity
      modifies Repr
      ensures Live() && View() == Extend(old(View()), [input]) && Repr == old(Repr)
    {
      readableBytes := readableBytes + 1;
      currentWriteBuffer[localWriterIndex] := input;
      localWriterIndex := localWriterIndex + 1;
      StoredInPlace([input]);
    }

    method WriteByte(input: byte)
      requires Valid()
      modifies Repr
      ensures Valid() && View() == PutByte(old(View()), input) && fresh(Repr - old(Repr))
    {
      hide *;
      PutOne(View(), input);
      TryRefreshWriterBuffer();
      StoreByte(input);
    }

    method TakeByte() returns (r: byte)
      requires Live() && readableBytes > 0 && localReaderIndex < |View().chunks[0]|
      modifies this
      ensures Live() && View() == Advance(old(View()), 1) && Repr == old(Repr)
      ensures r == old(View().chunks[0][localReaderIndex])
    {
      readableBytes := readableBytes - 1;
      r := currentReadBuffer[localReaderIndex];
      localReaderIndex := localReaderIndex + 1;
      assert View().chunks == old(View().chunks);
    }

    method ReadByteUnsafe() returns (r: byte)
      requires Valid() && readableBytes > 0
      modifies this
      ensures Valid() && View() == DropByte(old(View())) && r == old(Queued())[0] && Repr == old(Repr)
    {
      DropByteKeepsQueue(View());
      TryRefreshReaderBuffer();
      r := TakeByte();
    }

    /** Fills the rest of the last chunk and opens a new one. */
    method FillChunk(part: seq<byte>)
      requires Live() && localWriterIndex + |part| == singleCapacity
      modifies Repr
      ensures Live() && View() == RefreshWriter(Extend(old(View()), part))
      ensures fresh(Repr - old(Repr)) && localWriterIndex == 0
    {
      label before:
      Copy(part, currentWriteBuffer, localWriterIndex);
      readableBytes := readableBytes + |part|;
      localWriterIndex := 0;
      AppendBuffer();
      FilledAndOpened@before(part);
    }

    /** Stores bytes that fit into the last chunk. */
    method StoreRest(part: seq<byte>)
      requires Live() && localWriterIndex + |part| <= singleCapacity
      modifies Repr
      ensures Live() && View() == Extend(old(View()), part) && Repr == old(Repr)
    {
      Copy(part, currentWriteBuffer, localWriterIndex);
      localWriterIndex := localWriterIndex + |part|;
      readableBytes := readableBytes + |part|;
      StoredInPlace(part);
    }

    /** The chunk-filling part of a bulk write: `d` is the buffer before the write began. */
    method FillChunks(input: seq<byte>, ghost d: Deque) returns (bytesIndex: nat)
      requires Live() && localWriterIndex < singleCapacity && localWriterIndex + |input| > singleCapacity
      requires d.chunks != [] && d.cap == singleCapacity && View() == RefreshWriter(d)
      modifies Repr
      ensures Live() && localWriterIndex == 0 && 0 < bytesIndex < |input| <= bytesIndex + singleCapacity
      ensures View() == RefreshWriter(PutAll(d, Piece(input, 0, bytesIndex)))
      ensures fresh(Repr - old(Repr))
    {
      hide *;
      PutNone(d);
      bytesIndex := 0;
      var copiedBytes := singleCapacity - localWriterIndex;
      PiecesJoin(input, 0, copiedBytes);
      BulkWriteStep(d, [], Piece(input, 0, copiedBytes));
      FillChunk(Piece(input, 0, copiedBytes));
      bytesIndex := copiedBytes;

      while |input| - bytesIndex > singleCapacity
        invariant Live() && 0 < bytesIndex < |input| && localWriterIndex == 0 && fresh(Repr - old(Repr))
        invariant View() == RefreshWriter(PutAll(d, Piece(input, 0, bytesIndex)))
      {
        var next := bytesIndex + singleCapacity;
        PiecesJoin(input, bytesIndex, next);
        BulkWriteStep(d, Piece(input, 0, bytesIndex), Piece(input, bytesIndex, next));
        FillChunk(Piece(input, bytesIndex, next));
        bytesIndex := next;
      }
    }

    /** Writing does not look at the reader, so it also works on a buffer whose reader has lost its place. */
    method WriteBytes(input: seq<byte>)
      requires Live()
      modifies Repr
      ensures Live() && View() == PutBulk(old(View()), input) && fresh(Repr - old(Repr))
      ensures old(Valid()) ==> Valid()
    {
      hide *;
      ghost var d := View();
      if Valid() {
        PutBulkAppends(d, input);
      }
      PutNone(d);
      var bytesIndex := 0;
      PiecesJoin(input, 0, 0);
      TryRefreshWriterBuffer();

      if localWriterIndex + |input| > singleCapacity {
        bytesIndex := FillChunks(input, d);
      }

      PiecesJoin(input, bytesIndex, |input|);
      BulkWriteEnd(d, Piece(input, 0, bytesIndex), Piece(input, bytesIndex, |input|));
      StoreRest(Piece(input, bytesIndex, |input|));
    }

    lemma FrontBytes(count: nat)
      requires Live() && localReaderIndex + count <= |View().chunks[0]|
      ensures localReaderIndex + count <= singleCapacity
      ensures currentReadBuffer[localReaderIndex..localReaderIndex + count]
              == Piece(View().chunks[0], localReaderIndex, localReaderIndex + count)
    {
      var w := if |buffers| == 1 then localWriterIndex else singleCapacity;
      assert View().chunks[0] == currentReadBuffer[..w];
    }

    /** The bytes at the direct read address. */
    method DirectRead(count: nat) returns (data: seq<byte>)
      requires Live() && localReaderIndex + count <= |View().chunks[0]|
      ensures data == Piece(View().chunks[0], localReaderIndex, localReaderIndex + count)
    {
      FrontBytes(count);
      data := currentReadBuffer[localReaderIndex..localReaderIndex + count];
    }

    /** Copies bytes of the front chunk out and passes them. */
    method TakeFront(output: array<byte>, at: nat, count: nat)
      requires Live() && count <= readableBytes && localReaderIndex + count <= |View().chunks[0]|
      requires output !in Repr && at + count <= output.Length
      modifies this, output
      ensures Live() && View() == Advance(old(View()), count) && Repr == old(Repr)
      ensures output[..] == Piece(old(output[..]), 0, at)
                            + Piece(old(View()).chunks[0], old(localReaderIndex), old(localReaderIndex) + count)
                            + Piece(old(output[..]), at + count, output.Length)
    {
      FrontBytes(count);
      ghost var part := Piece(View().chunks[0], localReaderIndex, localReaderIndex + count);
      Copy(currentReadBuffer[localReaderIndex..localReaderIndex + count], output, at);
      assert output[..] == Piece(old(output[..]), 0, at) + part + Piece(old(output[..]), at + count, output.Length);
      localReaderIndex := localReaderIndex + count;
      readableBytes := readableBytes - count;
      assert View().chunks == old(View().chunks);
    }

    /** Copies the rest of the front chunk out and drops it. */
    method DrainFront(output: array<byte>, at: nat)
      requires Live() && |buffers| > 1 && |View().chunks[0]| == singleCapacity
      requires singleCapacity - localReaderIndex <= readableBytes
      requires output !in Repr && at + (singleCapacity - localReaderIndex) <= output.Length
      modifies this, output
      ensures Live() && View() == RefreshReader(Advance(old(View()), singleCapacity - old(localReaderIndex)))
      ensures Repr == old(Repr) && localReaderIndex == 0
      ensures output[..] == Piece(old(output[..]), 0, at)
                            + Piece(old(View()).chunks[0], old(localReaderIndex), singleCapacity)
                            + Piece(old(output[..]), at + singleCapacity - old(localReaderIndex), output.Length)
    {
      TakeFront(output, at, singleCapacity - localReaderIndex);
      PopBuffer();
    }

    /** The output holds the first `count` bytes that were queued in `d`. */
    ghost predicate Copied(output: array<byte>, count: nat, d: Deque)
      reads output
    {
      Covered(d) && count <= d.readable && count <= output.Length
      && Piece(output[..], 0, count) == Piece(Contents(d), 0, count)
    }

    /** One chunk of a bulk read: `d` is the buffer before the read began. */
    method DrainOne(output: array<byte>, at: nat, total: nat, ghost d: Deque) returns (next: nat)
      requires Live() && WF(d) && d.cap == singleCapacity
      requires output !in Repr && at + singleCapacity - localReaderIndex < total <= output.Length && total <= d.readable
      requires View() == RefreshReader(DropAll(d, at)) && Copied(output, at, d)
      modifies this, output
      ensures Live() && Repr == old(Repr) && localReaderIndex == 0
      ensures next == at + singleCapacity - old(localReaderIndex)
      ensures at < next && View() == RefreshReader(DropAll(d, next)) && Copied(output, next, d)
      ensures Piece(output[..], total, output.Length) == old(Piece(output[..], total, output.Length))
    {
      hide RefreshReader, DropAll, Contents, WF, Covered, Segmented, Flat, Shaped, Live, View, Piece, Advance;
      ghost var o := output[..];
      next := at + singleCapacity - localReaderIndex;
      BulkReadStep(d, at, next - at);
      DrainFront(output, at);
      PieceOverwritten(o, Piece(Contents(d), at, next), output[..], Contents(d), at, total);
    }

    /** The copying part of a non-empty bulk read: `d` is the buffer before the read began. */
    method CopyOut(output: array<byte>, size: nat, ghost d: Deque)
      requires Live() && WF(d) && d.cap == singleCapacity && View() == RefreshReader(d)
      requires output !in Repr && 0 < size <= output.Length && size <= d.readable
      modifies this, output
      ensures Live() && Repr == old(Repr) && View() == DropAll(d, size) && Copied(output, size, d)
      ensures Piece(output[..], size, output.Length) == old(Piece(output[..], size, output.Length))
    {
      hide *;
      DropNone(d);
      var bytesIndex := 0;
      CopiedNothing(output, d);

      if localReaderIndex + size > singleCapacity {
        bytesIndex := DrainOne(output, 0, size, d);
        while size - bytesIndex > singleCapacity
          invariant Live() && Repr == old(Repr) && localReaderIndex == 0 && bytesIndex < size
          invariant View() == RefreshReader(DropAll(d, bytesIndex)) && Copied(output, bytesIndex, d)
          invariant Piece(output[..], size, output.Length) == old(Piece(output[..], size, output.Length))
          decreases size - bytesIndex
        {
          bytesIndex := DrainOne(output, bytesIndex, size, d);
        }
      }

      TakeLast(output, bytesIndex, size, d);
    }

    lemma CopiedNothing(output: array<byte>, d: Deque)
      requires WF(d)
      ensures Copied(output, 0, d)
    {
    }

    /** The last copy of a bulk read. */
    method TakeLast(output: array<byte>, at: nat, total: nat, ghost d: Deque)
      requires Live() && WF(d) && d.cap == singleCapacity
      requires output !in Repr && at < total <= output.Length && total <= d.readable
      requires localReaderIndex + total - at <= singleCapacity
      requires View() == RefreshReader(DropAll(d, at)) && Copied(output, at, d)
      modifies this, output
      ensures Live() && Repr == old(Repr) && View() == DropAll(d, total) && Copied(output, total, d)
      ensures Piece(output[..], total, output.Length) == old(Piece(output[..], total, output.Length))
    {
      hide RefreshReader, DropAll, Contents, WF, Covered, Segmented, Flat, Shaped, Live, View, Piece, Advance;
      ghost var o := output[..];
      BulkReadStep(d, at, total - at);
      TakeFront(output, at, total - at);
      PieceOverwritten(o, Piece(Contents(d), at, total), output[..], Contents(d), at, total);
    }

    method ReadBytes(output: array<byte>, size: nat) returns (r: Errorable<array<byte>>)
      requires Valid() && output !in Repr && size <= output.Length
      modifies this, output
      ensures Shaped() && Repr == old(Repr) && View() == DropBulk(old(View()), size)
      ensures Valid() <==> size > 0 || old(localReaderIndex) < singleCapacity || |old(buffers)| > 1
      ensures Ready()
      ensures old(readableBytes) < size ==>
              r == Failure(IncompleteByteArray, old(readableBytes)) && output[..] == old(output[..])
      ensures old(readableBytes) >= size ==>
              r == Success(output) && output[..size] == old(Queued())[..size] && output[size..] == old(output[size..])
    {
      hide *;
      ghost var d, before := View(), output[..];
      QueueTheorems.BulkReadExact(d, size);
      BulkReadCases(d, size);
      if readableBytes < size {
        return Failure(IncompleteByteArray, readableBytes);
      }

      TryRefreshReaderBuffer();
      if size > 0 {
        CopyOut(output, size, d);
        CopiedMeans(output, size, d, before);
      } else {
        // The copy is empty and the offset does not move, even when no chunk is left.
        assert output[..size] == Contents(d)[..size];
      }
      r := Success(output);
    }

    lemma BulkReadCases(d: Deque, size: nat)
      requires WF(d)
      ensures d.readable < size ==> DropBulk(d, size) == d
      ensures size == 0 ==> DropBulk(d, size) == RefreshReader(d)
      ensures 0 < size <= d.readable ==>
              DropBulk(d, size) == DropAll(d, size) && RefreshReader(d).chunks != []
    {
      if d.readable > 0 {
        RefreshReaderKeepsQueue(d);
      }
    }

    lemma CopiedMeans(output: array<byte>, size: nat, d: Deque, before: seq<byte>)
      requires Copied(output, size, d) && size <= output.Length == |before|
      requires Piece(output[..], size, output.Length) == Piece(before, size, output.Length)
      ensures Covered(d) && size <= d.readable
      ensures output[..size] == Contents(d)[..size] && output[size..] == before[size..]
    {
      assert output[..size] == Piece(output[..], 0, size) && output[size..] == Piece(output[..], size, output.Length);
    }

    /** The pops of a skip. */
    method PopSkipped(skipped: nat) returns (count: nat)
      requires Live() && CanSkip(View(), skipped)
      modifies this
      ensures Live() && Repr == old(Repr) && count <= singleCapacity - localReaderIndex
      ensures SkipLoop(old(View()), skipped) == RefreshReader(View().(reader := count))
      ensures SkipLeftover(old(View()), skipped) == count
    {
      hide *;
      ghost var d := View();
      count := skipped;
      SkipUnfolds(d, count);
      while count > singleCapacity - localReaderIndex
        invariant Live() && Repr == old(Repr) && CanSkip(View(), count)
        invariant SkipLoop(View(), count) == SkipLoop(d, skipped)
        invariant SkipLeftover(View(), count) == SkipLeftover(d, skipped)
        decreases count, localReaderIndex
      {
        SkipUnfolds(View(), count);
        count := count - (singleCapacity - localReaderIndex);
        PopBuffer();
      }
      SkipUnfolds(View(), count);
    }

    /** As written: the offset is assigned, not advanced, and the refresh may drop the only chunk.
        `QueueTheorems.SkipExact` says when the result is still a queue. */
    method SkipReadBytes(skipped: nat) returns (r: Errorable<nat>)
      requires Live() && Covered(View())
      modifies this
      ensures Shaped() && Repr == old(Repr) && Covered(View())
      ensures skipped > old(readableBytes) ==>
              Live() && View() == old(View()) && r == Failure(InvalidReadSkipRequest, skipped)
      ensures skipped <= old(readableBytes) ==>
              View() == SkipRead(old(View()), skipped) && r == Success(SkipReport(old(View()), skipped))
      ensures View().chunks != [] ==> Live()
      ensures View().chunks == [] ==> readableBytes == 0
    {
      hide *;
      if skipped > readableBytes {
        return Failure(InvalidReadSkipRequest, skipped);
      }

      SkipReadStaysCovered(View(), skipped);
      SpendReadable(skipped);
      var count := PopSkipped(skipped);
      SetReader(count);
      TryRefreshReaderBuffer();
      r := Success(count);
    }

    method SpendReadable(count: nat)
      requires Live() && count <= readableBytes
      modifies this`readableBytes
      ensures Live() && View() == old(View()).(readable := old(readableBytes) - count)
    {
      readableBytes := readableBytes - count;
      assert View().chunks == old(View().chunks);
    }

    method SetReader(index: nat)
      requires Live() && index <= singleCapacity
      modifies this`localReaderIndex
      ensures Live() && View() == old(View()).(reader := index)
    {
      localReaderIndex := index;
      assert View().chunks == old(View().chunks);
    }

    method SetWriter(index: nat)
      requires Live() && index <= singleCapacity
      modifies this`localWriterIndex
      ensures Live() && |buffers| == old(|buffers|) && localWriterIndex == index
      ensures View() == old(View()).(chunks := View().chunks)
      ensures View().chunks[..|buffers| - 1] == old(View().chunks)[..|buffers| - 1]
      ensures QueueTheorems.WriteEnd(View()) == old(QueueTheorems.WriteEnd(View()) - localWriterIndex) + index
    {
      localWriterIndex := index;
    }

    /** A full-capacity step of a forward skip, which opens a chunk wherever the writer was. */
    method SkipChunk()
      requires Live()
      modifies this
      ensures Live() && fresh(Repr - old(Repr)) && localWriterIndex == 0 && |buffers| == old(|buffers|) + 1
      ensures View() == old(View()).(chunks := View().chunks)
      ensures View().chunks[..old(|buffers|) - 1] == old(View().chunks)[..old(|buffers|) - 1]
      ensures QueueTheorems.WriteEnd(View())
              == old(QueueTheorems.WriteEnd(View())) - old(localWriterIndex) + singleCapacity
    {
      AppendBuffer();
      Distributes(1, |buffers| - 2, singleCapacity);
    }

    lemma LiveIsSegmented()
      requires Live()
      ensures Segmented(View())
    {
    }

    lemma PrefixStays(a: seq<seq<byte>>, b: seq<seq<byte>>, m: nat, n: nat)
      requires n <= m <= |a| && m <= |b| && a[..m] == b[..m]
      ensures a[..n] == b[..n]
    {
      assert a[..n] == a[..m][..n] && b[..n] == b[..m][..n];
    }

    /** As written: each step takes a whole capacity off the count, in size_t arithmetic, and the rest is
        assigned to the writer offset. `QueueTheorems.SkipWriteExact` is the reason for the condition. */
    method SkipWriteBytes(skipped: uint64) returns (count: nat)
      requires Valid() && singleCapacity < 0x1_0000_0000_0000_0000
      modifies this
      ensures Live() && fresh(Repr - old(Repr))
      ensures readableBytes == old(readableBytes) + skipped && localReaderIndex == old(localReaderIndex)
      ensures QueueTheorems.WriteEnd(View())
              == old(QueueTheorems.WriteEnd(View()) - localWriterIndex) + skipped
                 + (if singleCapacity - old(localWriterIndex) < skipped < singleCapacity
                    then 0x1_0000_0000_0000_0000 else 0)
      ensures count <= singleCapacity && localWriterIndex == if count == singleCapacity then 0 else count
      ensures Valid() <==> old(localWriterIndex) == 0
      ensures Valid() ==> Queued()[..old(readableBytes)] == old(Queued())
    {
      hide *;
      ghost var d, n, w, wrap := View(), |buffers| - 1, localWriterIndex, 0;
      ghost var jump := if singleCapacity - w < skipped < singleCapacity then 0x1_0000_0000_0000_0000 else 0;
      AddReadable(skipped);
      count := skipped;
      while count > singleCapacity - localWriterIndex
        invariant Live() && fresh(Repr - old(Repr)) && n < |buffers|
        invariant View() == d.(chunks := View().chunks, readable := d.readable + skipped)
        invariant View().chunks[..n] == d.chunks[..n]
        invariant if localWriterIndex == w && count == skipped then wrap == 0 else localWriterIndex == 0 && wrap == jump
        invariant QueueTheorems.WriteEnd(View()) - localWriterIndex + count
                  == QueueTheorems.WriteEnd(d) - w + skipped + wrap
        decreases localWriterIndex > 0, count
      {
        if count >= singleCapacity {
          count := count - singleCapacity;
        } else {
          count := count + 0x1_0000_0000_0000_0000 - singleCapacity;
          wrap := 0x1_0000_0000_0000_0000;
        }
        ghost var m, before := |buffers| - 1, View().chunks;
        SkipChunk();
        PrefixStays(View().chunks, before, m, n);
      }
      ghost var m, before := |buffers| - 1, View().chunks;
      SetWriter(count);
      PrefixStays(View().chunks, before, m, n);
      LiveIsSegmented();
      QueueTheorems.RefreshKeepsEnd(View());
      RefreshedWriter(View());
      TryRefreshWriterBuffer();
      QueueTheorems.SkipWriteExact(d, View(), skipped, wrap);
    }

    lemma RefreshedWriter(d: Deque)
      requires d.chunks != [] && d.cap >= 1
      ensures Writer(RefreshWriter(d)) == if Writer(d) >= d.cap then 0 else Writer(d)
    {
    }

    method AddReadable(count: nat)
      requires Live()
      modifies this`readableBytes
      ensures Live() && View() == old(View()).(readable := old(readableBytes) + count)
      ensures QueueTheorems.WriteEnd(View()) == old(QueueTheorems.WriteEnd(View()))
    {
      readableBytes := readableBytes + count;
      assert View().chunks == old(View().chunks);
    }

    method ResetReaderIndex()
      requires Valid()
      modifies this
      ensures Valid() && Repr == old(Repr) && View() == ResetReader(old(View()))
    {
      QueueTheorems.ResetReaderRewinds(View());
      localReaderIndex := 0;
      readableBytes := (|buffers| - 1) * singleCapacity + localWriterIndex;
      assert View().chunks == old(View().chunks);
    }

    /** As written: `QueueTheorems.ResetWriterExact` says when the result is still a queue. */
    method ResetWriterIndex()
      requires Valid()
      modifies this
      ensures Live() && Repr == old(Repr) && View() == ResetWriter(old(View()))
      ensures buffers == old(buffers) && localReaderIndex == old(localReaderIndex)
      ensures localWriterIndex == 0 && readableBytes == 0
    {
      localWriterIndex := 0;
      readableBytes := 0;
      assert View().chunks == ResetWriter(old(View())).chunks;
    }

    // ---------- typed writes ----------

    /** A word shifted right by whole bytes, and its lowest byte then. */
    static function Shr(x: nat, bytes: nat): nat {
      if bytes == 0 then x else Shr(x, bytes - 1) / 0x100
    }

    static function ByteAt(x: nat, at: nat): byte { Shr(x, at) % 0x100 }

    /** One more byte of a word written most significant byte first. */
    lemma PutNext(d: Deque, x: nat, at: nat, n: nat)
      requires d.chunks != []
      ensures PutByte(PutAll(d, BigEndian(Shr(x, at + 1), n)), ByteAt(x, at)) == PutAll(d, BigEndian(Shr(x, at), n + 1))
    {
      hide PutAll, PutByte;
      var y := Shr(x, at);
      PutAllSnoc(d, BigEndian(y / 0x100, n), y % 0x100);
    }

    lemma ShrNone(x: nat)
      ensures Shr(x, 0) == x
    {
    }

    lemma PutNothing(d: Deque, x: nat)
      requires d.chunks != []
      ensures PutAll(d, BigEndian(x, 0)) == d
    {
    }

    method WriteBoolean(input: bool)
      requires Valid()
      modifies Repr
      ensures Valid() && View() == PutByte(old(View()), if input then 1 else 0) && fresh(Repr - old(Repr))
    {
      WriteByte(if input then 1 else 0);
    }

    method WriteShort(input: uint16)
      requires Valid()
      modifies Repr
      ensures Valid() && View() == PutAll(old(View()), BigEndian(input, 2)) && fresh(Repr - old(Repr))
    {
      hide *;
      ghost var d := View();
      ShrNone(input);
      PutNothing(d, Shr(input, 2));
      PutNext(d, input, 1, 0);
      PutNext(d, input, 0, 1);
      WriteByte(ByteAt(input, 1));
      WriteByte(ByteAt(input, 0));
    }

    method WriteMedium(input: uint32)
      requires Valid()
      modifies Repr
      ensures Valid() && View() == PutAll(old(View()), BigEndian(input, 3)) && fresh(Repr - old(Repr))
    {
      hide *;
      ghost var d := View();
      ShrNone(input);
      PutNothing(d, Shr(input, 3));
      PutNext(d, input, 2, 0);
      PutNext(d, input, 1, 1);
      PutNext(d, input, 0, 2);
      WriteByte(ByteAt(input, 2));
      WriteByte(ByteAt(input, 1));
      WriteByte(ByteAt(input, 0));
    }

    method WriteInt(input: uint32)
      requires Valid()
      modifies Repr
      ensures Valid() && View() == PutAll(old(View()), BigEndian(input, 4)) && fresh(Repr - old(Repr))
    {
      hide *;
      ghost var d := View();
      ShrNone(input);
      PutNothing(d, Shr(input, 4));
      PutNext(d, input, 3, 0);
      PutNext(d, input, 2, 1);
      PutNext(d, input, 1, 2);
      PutNext(d, input, 0, 3);
      WriteByte(ByteAt(input, 3));
      WriteByte(ByteAt(input, 2));
      WriteByte(ByteAt(input, 1));
      WriteByte(ByteAt(input, 0));
    }

    method WriteLong(input: uint64)
      requires Valid()
      modifies Repr
      ensures Valid() && View() == PutAll(old(View()), BigEndian(input, 8)) && fresh(Repr - old(Repr))
    {
      hide *;
      ghost var d := View();
      ShrNone(input);
      PutNothing(d, Shr(input, 8));
      PutNext(d, input, 7, 0);
      PutNext(d, input, 6, 1);
      PutNext(d, input, 5, 2);
      PutNext(d, input, 4, 3);
      PutNext(d, input, 3, 4);
      PutNext(d, input, 2, 5);
      PutNext(d, input, 1, 6);
      PutNext(d, input, 0, 7);
      WriteByte(ByteAt(input, 7));
      WriteByte(ByteAt(input, 6));
      WriteByte(ByteAt(input, 5));
      WriteByte(ByteAt(input, 4));
      WriteByte(ByteAt(input, 3));
      WriteByte(ByteAt(input, 2));
      WriteByte(ByteAt(input, 1));
      WriteByte(ByteAt(input, 0));
    }

    /** One group of a variable-length number with more groups to come. */
    lemma PutGroup(d: Deque, input: nat)
      requires d.chunks != []
      ensures input >= 128 ==>
              PutAll(d, VarInts.Encode(input))
              == PutAll(PutByte(d, input % 128 + 128), VarInts.Encode(input / 128))
      ensures input < 128 ==> PutAll(d, VarInts.Encode(input)) == PutByte(d, input)
    {
      if input < 128 {
        PutAllSnoc(d, [], input);
        assert [] + [input] == VarInts.Encode(input);
      } else {
        assert VarInts.Encode(input)[1..] == VarInts.Encode(input / 128);
      }
    }

    /** The loop both variable-length writers run. */
    method WriteGroups(value: nat)
      requires Valid()
      modifies Repr
      ensures Valid() && View() == PutAll(old(View()), VarInts.Encode(value)) && fresh(Repr - old(Repr))
    {
      hide *;
      ghost var d := View();
      var input := value;
      while input / 128 != 0
        invariant Valid() && fresh(Repr - old(Repr))
        invariant PutAll(d, VarInts.Encode(value)) == PutAll(View(), VarInts.Encode(input))
        decreases input
      {
        PutGroup(View(), input);
        WriteByte(input % 128 + 128);
        input := input / 128;
      }
      PutGroup(View(), input);
      WriteByte(input);
    }

    method WriteVarInt(input: uint32)
      requires Valid()
      modifies Repr
      ensures Valid() && View() == PutAll(old(View()), VarInts.Encode(input)) && fresh(Repr - old(Repr))
    {
      WriteGroups(input);
    }

    method WriteVarLong(input: uint64)
      requires Valid()
      modifies Repr
      ensures Valid() && View() == PutAll(old(View()), VarInts.Encode(input)) && fresh(Repr - old(Repr))
    {
      WriteGroups(input);
    }

    lemma PutUUIDLongs(d: Deque, u: UUID)
      requires d.chunks != []
      ensures PutAll(PutAll(d, BigEndian(u.most, 8)), BigEndian(u.least, 8)) == PutAll(d, UUIDLongBytes(u))
    {
      hide PutAll, BigEndian;
      PutAllSplits(d, BigEndian(u.most, 8), BigEndian(u.least, 8));
    }

    lemma PutUUIDInts(d: Deque, u: UUID)
      requires d.chunks != []
      ensures var most := PutAll(PutAll(d, BigEndian(HighHalf(u.most), 4)), BigEndian(LowHalf(u.most), 4));
              PutAll(PutAll(most, BigEndian(HighHalf(u.least), 4)), BigEndian(LowHalf(u.least), 4))
              == PutAll(d, UUIDIntBytes(u))
    {
      hide PutAll, BigEndian, HighHalf, LowHalf;
      var a, b := BigEndian(HighHalf(u.most), 4), BigEndian(LowHalf(u.most), 4);
      var x, y := BigEndian(HighHalf(u.least), 4), BigEndian(LowHalf(u.least), 4);
      PutAllSplits(d, a + b, x + y);
      PutAllSplits(d, a, b);
      PutAllSplits(PutAll(d, a + b), x, y);
    }

    method WriteUUID(input: UUID)
      requires Valid()
      modifies Repr
      ensures Valid() && View() == PutAll(old(View()), UUIDLongBytes(input)) && fresh(Repr - old(Repr))
    {
      hide *;
      PutUUIDLongs(View(), input);
      WriteLong(input.most);
      WriteLong(input.least);
    }

    method WriteUUIDIntArray(input: UUID)
      requires Valid()
      modifies Repr
      ensures Valid() && View() == PutAll(old(View()), UUIDIntBytes(input)) && fresh(Repr - old(Repr))
    {
      hide *;
      PutUUIDInts(View(), input);
      WriteInt(HighHalf(input.most));
      WriteInt(LowHalf(input.most));
      WriteInt(HighHalf(input.least));
      WriteInt(LowHalf(input.least));
    }

    method WriteString(input: seq<byte>)
      requires Valid()
      modifies Repr
      ensures Valid() && fresh(Repr - old(Repr))
      ensures View() == PutBulk(PutAll(old(View()), VarInts.Encode(Truncated(|input|))), input)
    {
      hide *;
      var length: uint32 := Truncated(|input|);
      WriteVarInt(length);
      WriteBytes(input);
    }

    /** Writes what a bulk read of `input` leaves in the scratch array. The read's outcome is not looked
        at: when `input` holds fewer bytes, the bytes written are the ones the array held before. */
    method WriteBytesOf(input: ByteBufferImpl, size: nat, scratch: array<byte>)
      requires Valid() && input.Valid() && Repr !! input.Repr
      requires scratch !in Repr && scratch !in input.Repr && size <= scratch.Length
      modifies Repr, input, scratch
      ensures Valid() && fresh(Repr - old(Repr))
      ensures View() == PutBulk(old(View()), if size <= old(input.readableBytes) then old(input.Queued())[..size]
                                             else old(scratch[..size]))
      ensures input.Shaped() && input.Repr == old(input.Repr) && input.View() == DropBulk(old(input.View()), size)
    {
      hide *;
      ghost var before := scratch[..];
      var outcome := input.ReadBytes(scratch, size);
      assert size > old(input.readableBytes) ==> scratch[..size] == before[..size];
      WriteBytes(scratch[..size]);
    }

    method WriteByteArray(input: ByteBufferImpl, scratch: array<byte>)
      requires Valid() && input.Valid() && Repr !! input.Repr
      requires scratch !in Repr && scratch !in input.Repr && input.readableBytes <= scratch.Length
      modifies Repr, input, scratch
      ensures Valid() && fresh(Repr - old(Repr))
      ensures var prefix := VarInts.Encode(Truncated(old(input.readableBytes)));
              View() == PutBulk(PutAll(old(View()), prefix), old(input.Queued()))
      ensures input.Shaped() && input.Repr == old(input.Repr)
      ensures input.View() == DropBulk(old(input.View()), old(input.readableBytes))
    {
      hide *;
      var size := input.readableBytes;
      var length: uint32 := Truncated(size);
      ghost var q := input.Queued();
      assert q[..size] == q;
      WriteVarInt(length);
      assert input.Queued() == q;
      WriteBytesOf(input, size, scratch);
    }

    // ---------- typed reads ----------

    // The operands of the or-chains are evaluated left to right.

    /** The next byte of a read that began in the state `d` and has taken `k` bytes. */
    method ReadNext(ghost d: Deque, ghost k: nat) returns (b: byte)
      requires Valid() && WF(d) && k < d.readable && View() == DropAll(d, k)
      modifies this
      ensures Valid() && Repr == old(Repr) && View() == DropAll(d, k + 1) && b == Contents(d)[k]
    {
      DropAllNext(d, k);
      b := ReadByteUnsafe();
    }

    method ReadBoolean() returns (r: Errorable<bool>)
      requires Ready()
      modifies this
      ensures Ready() && Repr == old(Repr) && (old(Valid()) ==> Valid())
      ensures old(readableBytes) < 1 ==> r == Failure(IncompleteBoolean, 0) && View() == old(View())
      ensures old(readableBytes) >= 1 ==>
              r == Success(old(Queued())[0] != 0) && View() == DropAll(old(View()), 1)
    {
      if readableBytes < 1 {
        return Failure(IncompleteBoolean, readableBytes);
      }
      DropAllNext(View(), 0);
      var b := ReadByteUnsafe();
      r := Success(b != 0);
    }

    method ReadByte() returns (r: Errorable<nat>)
      requires Ready()
      modifies this
      ensures var expected := ReadWord(old(Queued()), 1, IncompleteByte);
              && Ready() && Repr == old(Repr) && (old(Valid()) ==> Valid())
              && r == expected.outcome && View() == DropAll(old(View()), expected.used)
    {
      ghost var d, q := View(), Queued();
      ReadWordOf(q, 1, IncompleteByte);
      ShlZero(if |q| >= 1 then Assembled(q, 1) else 0);
      if readableBytes < 1 {
        return Failure(IncompleteByte, readableBytes);
      }
      DropAllNext(d, 0);
      OrFirst(q, 0);
      var b := ReadByteUnsafe();
      r := Success(b);
    }

    method ReadShort() returns (r: Errorable<nat>)
      requires Ready()
      modifies this
      ensures var expected := ReadWord(old(Queued()), 2, IncompleteShort);
              && Ready() && Repr == old(Repr) && (old(Valid()) ==> Valid())
              && r == expected.outcome && View() == DropAll(old(View()), expected.used)
    {
      hide *;
      ghost var d, q := View(), Queued();
      ReadWordOf(q, 2, IncompleteShort);
      ShlZero(if |q| >= 2 then Assembled(q, 2) else 0);
      DropNone(d);
      if readableBytes < 2 {
        return Failure(IncompleteShort, readableBytes);
      }
      var b0 := ReadNext(d, 0);
      var b1 := ReadNext(d, 1);
      OrFirst(q, 8);
      OrNext(q, 1, 0);
      ShlZero(b1);
      r := Success(BitOr(Shl(b0, 8), b1));
    }

    method ReadMedium() returns (r: Errorable<nat>)
      requires Ready()
      modifies this
      ensures var expected := ReadWord(old(Queued()), 3, IncompleteMedium);
              && Ready() && Repr == old(Repr) && (old(Valid()) ==> Valid())
              && r == expected.outcome && View() == DropAll(old(View()), expected.used)
    {
      hide *;
      ghost var d, q := View(), Queued();
      ReadWordOf(q, 3, IncompleteMedium);
      ShlZero(if |q| >= 3 then Assembled(q, 3) else 0);
      DropNone(d);
      if readableBytes < 3 {
        return Failure(IncompleteMedium, readableBytes);
      }
      var b0 := ReadNext(d, 0);
      var b1 := ReadNext(d, 1);
      var b2 := ReadNext(d, 2);
      OrFirst(q, 16);
      OrNext(q, 1, 8);
      OrNext(q, 2, 0);
      ShlZero(b2);
      r := Success(BitOr(BitOr(Shl(b0, 16), Shl(b1, 8)), b2));
    }

    method ReadInt() returns (r: Errorable<nat>)
      requires Ready()
      modifies this
      ensures var expected := ReadWord(old(Queued()), 4, IncompleteInt);
              && Ready() && Repr == old(Repr) && (old(Valid()) ==> Valid())
              && r == expected.outcome && View() == DropAll(old(View()), expected.used)
    {
      hide *;
      ghost var d, q := View(), Queued();
      ReadWordOf(q, 4, IncompleteInt);
      ShlZero(if |q| >= 4 then Assembled(q, 4) else 0);
      DropNone(d);
      if readableBytes < 4 {
        return Failure(IncompleteInt, readableBytes);
      }
      var b0 := ReadNext(d, 0);
      var b1 := ReadNext(d, 1);
      var b2 := ReadNext(d, 2);
      var b3 := ReadNext(d, 3);
      OrFirst(q, 24);
      OrNext(q, 1, 16);
      OrNext(q, 2, 8);
      OrNext(q, 3, 0);
      ShlZero(b3);
      r := Success(BitOr(BitOr(BitOr(Shl(b0, 24), Shl(b1, 16)), Shl(b2, 8)), b3));
    }

    method ReadLong() returns (r: Errorable<nat>)
      requires Ready()
      modifies this
      ensures var expected := ReadWord(old(Queued()), 8, IncompleteLong);
              && Ready() && Repr == old(Repr) && (old(Valid()) ==> Valid())
              && r == expected.outcome && View() == DropAll(old(View()), expected.used)
    {
      hide *;
      ghost var d, q := View(), Queued();
      ReadWordOf(q, 8, IncompleteLong);
      ShlZero(if |q| >= 8 then Assembled(q, 8) else 0);
      DropNone(d);
      if readableBytes < 8 {
        return Failure(IncompleteLong, readableBytes);
      }
      var b0 := ReadNext(d, 0);
      var b1 := ReadNext(d, 1);
      var b2 := ReadNext(d, 2);
      var b3 := ReadNext(d, 3);
      var b4 := ReadNext(d, 4);
      var b5 := ReadNext(d, 5);
      var b6 := ReadNext(d, 6);
      var b7 := ReadNext(d, 7);
      OrFirst(q, 56);
      OrNext(q, 1, 48);
      OrNext(q, 2, 40);
      OrNext(q, 3, 32);
      OrNext(q, 4, 24);
      OrNext(q, 5, 16);
      OrNext(q, 6, 8);
      OrNext(q, 7, 0);
      ShlZero(b7);
      var high := BitOr(BitOr(BitOr(Shl(b0, 56), Shl(b1, 48)), Shl(b2, 40)), Shl(b3, 32));
      r := Success(BitOr(BitOr(BitOr(BitOr(high, Shl(b4, 24)), Shl(b5, 16)), Shl(b6, 8)), b7));
    }

    /** The loop both variable-length readers run: at most `limit` groups into a word of `width` bits. */
    method ReadGroups(limit: nat, width: nat, incomplete: ErrorKind, invalid: ErrorKind) returns (r: Errorable<nat>)
      requires Ready() && 0 < limit && 7 * (limit - 1) <= width
      modifies this
      ensures var expected := ReadVar(old(Queued()), limit, Pow2(width), incomplete, invalid);
              && Ready() && Repr == old(Repr) && (old(Valid()) ==> Valid())
              && r == expected.outcome && View() == DropAll(old(View()), expected.used)
    {
      hide *;
      ghost var d, q := View(), Queued();
      DropNone(d);
      VarInts.NoGroups(q, Pow2(width));
      var decoded := 0;
      for byteIndex := 0 to limit
        invariant Ready() && Repr == old(Repr) && byteIndex <= |q| && View() == DropAll(d, byteIndex)
        invariant (old(Valid()) ==> Valid()) && (byteIndex > 0 ==> WF(d))
        invariant readableBytes == |q| - byteIndex
        invariant forall j :: 0 <= j < byteIndex ==> q[j] >= 128
        invariant decoded == VarInts.Groups(q, byteIndex, Pow2(width))
      {
        ReadVarOf(q, limit, Pow2(width), incomplete, invalid, byteIndex);
        if readableBytes < 1 {
          return Failure(incomplete, readableBytes);
        }
        DropAllNext(d, byteIndex);
        VarInts.DecoderStep(q, byteIndex, width);
        var b := ReadByteUnsafe();
        decoded := BitOr(decoded, VarInts.Shifted(b % 128, 7 * byteIndex, Pow2(width)));
        if b < 128 {
          return Success(decoded);
        }
      }
      ReadVarOf(q, limit, Pow2(width), incomplete, invalid, limit);
      r := Failure(invalid, decoded);
    }

    method ReadVarInt() returns (r: Errorable<nat>)
      requires Ready()
      modifies this
      ensures var expected := Codec.ReadVarInt(old(Queued()));
              && Ready() && Repr == old(Repr) && (old(Valid()) ==> Valid())
              && r == expected.outcome && View() == DropAll(old(View()), expected.used)
              && Queued() == old(Queued())[expected.used..]
    {
      VarInts.WordSizes();
      if Valid() {
        DropAllRemoves(View(), Codec.ReadVarInt(Queued()).used);
      }
      r := ReadGroups(VarInts.VARINT_LIMIT, 32, IncompleteVarInt, InvalidVarInt);
    }

    method ReadVarLong() returns (r: Errorable<nat>)
      requires Ready()
      modifies this
      ensures var expected := Codec.ReadVarLong(old(Queued()));
              && Ready() && Repr == old(Repr) && (old(Valid()) ==> Valid())
              && r == expected.outcome && View() == DropAll(old(View()), expected.used)
              && Queued() == old(Queued())[expected.used..]
    {
      VarInts.WordSizes();
      if Valid() {
        DropAllRemoves(View(), Codec.ReadVarLong(Queued()).used);
      }
      r := ReadGroups(VarInts.VARLONG_LIMIT, 64, IncompleteVarLong, InvalidVarLong);
    }

    /** A word read after `at` bytes have been taken from the state `d`. */
    lemma WordAt(d: Deque, at: nat, n: nat, error: ErrorKind)
      requires Covered(d) && (WF(d) || d.readable == 0) && at <= d.readable
      ensures var q, e := Contents(d), DropAll(d, at);
              && Covered(e) && (WF(d) ==> WF(e)) && e.readable == d.readable - at && DropAll(e, 0) == e
              && (d.readable - at < n ==> ReadWord(Contents(e), n, error) == Read(Failure(error, d.readable - at), 0))
              && (d.readable - at >= n ==>
                    && ReadWord(Contents(e), n, error) == Read(Success(WordOf(q, at, n)), n)
                    && DropAll(e, n) == DropAll(d, at + n))
    {
      if WF(d) {
        DropAllRemoves(d, at);
      }
      if d.readable - at >= n {
        DropAllSplits(d, at, n);
        assert Contents(d)[at..][..n] == Contents(d)[at..at + n];
      }
    }

    method ReadUUID() returns (r: Errorable<UUID>)
      requires Ready()
      modifies this
      ensures var expected := Codec.ReadUUID(old(Queued()));
              && Ready() && Repr == old(Repr) && (old(Valid()) ==> Valid())
              && r == expected.outcome && View() == DropAll(old(View()), expected.used)
    {
      hide *;
      ghost var d := View();
      DropNone(d);
      ReadUUIDOf(Queued());
      WordAt(d, 0, 8, IncompleteLong);
      var most := ReadLong();
      if most.Failure? {
        return Failure(InvalidUUID, readableBytes);
      }
      WordAt(d, 8, 8, IncompleteLong);
      var least := ReadLong();
      if least.Failure? {
        return Failure(InvalidUUID, readableBytes);
      }
      r := Success(UUID(most.value, least.value));
    }

    method ReadUUIDIntArray() returns (r: Errorable<UUID>)
      requires Ready()
      modifies this
      ensures var expected := ReadUUIDInts(old(Queued()));
              && Ready() && Repr == old(Repr) && (old(Valid()) ==> Valid())
              && r == expected.outcome && View() == DropAll(old(View()), expected.used)
      ensures |old(Queued())| >= 16 ==>
              && r.Success? && r.value.least == WordOf(old(Queued()), 8, 8)
              && forall k :: r.value.most / Pow2(k) % 2 == 1
                             <==> || WordOf(old(Queued()), 0, 4) / Pow2(k) % 2 == 1
                                  || WordOf(old(Queued()), 4, 4) / Pow2(k) % 2 == 1
    {
      hide *;
      ghost var d, q := View(), Queued();
      DropNone(d);
      if |q| >= 16 {
        UUIDIntsBits(q);
      }
      WordAt(d, 0, 4, IncompleteInt);
      ReadUUIDIntsOf(q, 0);
      var a := ReadInt();
      if a.Failure? {
        return Failure(InvalidUUID, readableBytes);
      }
      WordAt(d, 4, 4, IncompleteInt);
      ReadUUIDIntsOf(q, 1);
      var b := ReadInt();
      if b.Failure? {
        return Failure(InvalidUUID, readableBytes);
      }
      WordAt(d, 8, 4, IncompleteInt);
      ReadUUIDIntsOf(q, 2);
      var c := ReadInt();
      if c.Failure? {
        return Failure(InvalidUUID, readableBytes);
      }
      WordAt(d, 12, 4, IncompleteInt);
      ReadUUIDIntsOf(q, 3);
      var e := ReadInt();
      if e.Failure? {
        return Failure(InvalidUUID, readableBytes);
      }
      r := Success(UUIDOfInts(a.value, b.value, c.value, e.value));
    }

    /** As written: the string is built from the copied bytes without their length, so it runs to the
        first zero in them or in the memory `beyond` them. `Codec.CStringExact` says when that is the
        string that was sent. */
    method ReadString(max: uint32, beyond: seq<byte>) returns (r: Errorable<seq<byte>>)
      requires Ready()
      modifies this
      ensures Ready() && Repr == old(Repr) && View() == AfterPrefixed(old(View()), max, InvalidStringSize)
      ensures r == MapRead(ReadPrefixed(old(Queued()), max, InvalidStringSize), t => CString(t + beyond)).outcome
    {
      hide *;
      if Valid() {
        PrefixedSteps(View(), max, InvalidStringSize);
      } else {
        PrefixedOfNothing(View(), max, InvalidStringSize);
      }
      MappedString(ReadPrefixed(Queued(), max, InvalidStringSize), beyond);
      var length := ReadVarInt();
      if length.Failure? {
        return Failure(InvalidStringSize, 0xFFFF_FFFF_FFFF_FFFF);
      }
      if length.value > max {
        return Failure(InvalidStringSize, length.value);
      }
      var bytes := new byte[length.value];
      var outcome := ReadBytes(bytes, length.value);
      if outcome.Failure? {
        return Failure(InvalidStringSize, length.value);
      }
      assert bytes[..length.value] == bytes[..];
      r := Success(CString(bytes[..] + beyond));
    }

    lemma MappedString(r: Read<seq<byte>>, beyond: seq<byte>)
      ensures r.outcome.Success? ==>
              MapRead(r, t => CString(t + beyond)).outcome == Success(CString(r.outcome.value + beyond))
      ensures r.outcome.Failure? ==>
              MapRead(r, t => CString(t + beyond)).outcome == Failure(r.outcome.kind, r.outcome.code)
    {
    }

    /** As written: the array comes back as the only chunk of a buffer in which nothing is readable,
        so its bytes can be read from that buffer only if there are none. */
    method ReadByteArray(max: uint32) returns (r: Errorable<ByteBufferImpl>)
      requires Ready()
      modifies this
      ensures Ready() && Repr == old(Repr) && View() == AfterPrefixed(old(View()), max, InvalidByteArraySize)
      ensures var expected := ReadPrefixed(old(Queued()), max, InvalidByteArraySize);
              && (expected.outcome.Failure? ==> r == Failure(expected.outcome.kind, expected.outcome.code))
              && (expected.outcome.Success? ==>
                    && r.Success? && fresh(r.value.Repr) && |r.value.buffers| == 1
                    && r.value.buffers[0][..] == expected.outcome.value
                    && r.value.singleCapacity == |expected.outcome.value|
                    && (expected.outcome.value != [] ==>
                          r.value.Valid() && r.value.View() == Empty(|expected.outcome.value|))
                    && r.value.readableBytes == 0)
    {
      hide *;
      if Valid() {
        PrefixedSteps(View(), max, InvalidByteArraySize);
      } else {
        PrefixedOfNothing(View(), max, InvalidByteArraySize);
      }
      var length := ReadVarInt();
      if length.Failure? {
        return Failure(InvalidByteArraySize, 0xFFFF_FFFF_FFFF_FFFF);
      }
      if length.value > max {
        return Failure(InvalidByteArraySize, length.value);
      }
      var bytes := new byte[length.value];
      var outcome := ReadBytes(bytes, length.value);
      if outcome.Failure? {
        return Failure(InvalidByteArraySize, length.value);
      }
      assert bytes[..length.value] == bytes[..];
      var buffer := new ByteBufferImpl.FromArray(bytes, length.value);
      r := Success(buffer);
    }

    /** As written: when the write position is at a chunk's start and the input has a chunk's size, the
        input takes the last chunk's place, but the write pointer and both counters stay behind: its
        bytes are not queued, and the buffer is no longer in order. Otherwise this is a bulk write. */
    method WriteBytesAndDelete(input: array<byte>)
      requires Valid() && input !in Repr
      modifies Repr
      ensures Shaped() && fresh(Repr - old(Repr) - {input})
      ensures Valid() <==> !(old(localWriterIndex) == 0 && input.Length == singleCapacity)
      ensures View() == if Valid() then PutBulk(old(View()), input[..]) else old(View())
      ensures !Valid() ==> buffers == old(buffers)[..|old(buffers)| - 1] + [input] && Repr == old(Repr) + {input}
    {
      if localWriterIndex == 0 && input.Length == singleCapacity {
        assert forall i :: 0 <= i < |buffers| ==> buffers[i] in Repr;
        buffers := buffers[..|buffers| - 1] + [input];
        Repr := Repr + {input};
        assert View().chunks == old(View().chunks);
      } else {
        WriteBytes(input[..]);
      }
    }
  }
}
