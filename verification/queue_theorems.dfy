/** What the segmented buffer guarantees over whole runs, and exactly when its
    less guarded operations keep it a queue. */
module QueueTheorems {
  import opened Words
  import opened ChunkedQueue

  // ---------- skipping ----------

  /** When a skip of `count` readable bytes is sound: the assignment of the reader offset must not
      lose an offset it should have advanced, and the eager refresh must not pop the only chunk. */
  predicate SkipAdvances(d: Deque, count: nat)
    requires d.chunks != []
  {
    && (d.reader == 0 || count > d.cap - d.reader)
    && !(count == d.readable && Writer(d) == d.cap)
  }

  /** The last step of a skip: the offset is assigned, not advanced. */
  lemma SkipWithinChunkExact(e: Deque, count: nat)
    requires Segmented(e) && e.chunks != [] && e.reader + count + e.readable == |Flat(e.chunks)|
    requires count <= e.cap - e.reader
    ensures WF(SkipLoop(e, count)) <==> e.reader == 0 && !(e.readable == 0 && Writer(e) == e.cap)
    ensures e.reader == 0 ==>
            SkipLoop(e, count) == RefreshReader(DropAll(e.(readable := count + e.readable), count))
  {
    var moved := e.(reader := count);
    Accounting(e);
    DropRun(e.(readable := count + e.readable), count);
    if e.reader == 0 && moved.reader == e.cap {
      assert Flat(e.chunks) == e.chunks[0] + Flat(PopChunk(moved).chunks);
      if |e.chunks| > 1 {
        assert (|e.chunks| - 1) * e.cap >= e.cap;
      }
    }
  }

  /** One pop of a skip: the chunk's remaining bytes are dropped, and the skip goes on after them. */
  lemma SkipPop(e: Deque, count: nat)
    requires Segmented(e) && e.chunks != [] && e.reader + count + e.readable == |Flat(e.chunks)|
    requires count > e.cap - e.reader
    ensures var room := e.cap - e.reader;
            var popped := PopChunk(e);
            && Segmented(popped) && popped.chunks != [] && Writer(popped) == Writer(e)
            && popped.reader + (count - room) + popped.readable == |Flat(popped.chunks)|
            && DropAll(e.(readable := count + e.readable), count)
               == DropAll(popped.(readable := count - room + e.readable), count - room)
  {
    var room := e.cap - e.reader;
    var d := e.(readable := count + e.readable);
    Accounting(e);
    DropAllSplits(d, room, count - room);
    DropRun(d, room);
    DropAllAfterRefresh(DropAll(d, room), count - room);
    assert Flat(e.chunks) == e.chunks[0] + Flat(e.chunks[1..]);
  }

  lemma {:induction false} SkipLoopExact(e: Deque, count: nat)
    requires Segmented(e) && e.chunks != [] && e.reader + count + e.readable == |Flat(e.chunks)|
    ensures WF(SkipLoop(e, count)) <==>
            (e.reader == 0 || count > e.cap - e.reader) && !(e.readable == 0 && Writer(e) == e.cap)
    ensures WF(SkipLoop(e, count)) ==>
            SkipLoop(e, count) == RefreshReader(DropAll(e.(readable := count + e.readable), count))
    decreases count, e.reader
  {
    hide DropAll, Flat;
    if count > e.cap - e.reader {
      SkipPop(e, count);
      SkipLoopExact(PopChunk(e), count - (e.cap - e.reader));
    } else {
      SkipWithinChunkExact(e, count);
    }
  }

  /** A skip leaves a queue exactly when `SkipAdvances` holds; it then has discarded what
      reading that many bytes one at a time would have returned. */
  lemma SkipExact(d: Deque, count: nat)
    requires WF(d) && count <= d.readable
    ensures WF(SkipRead(d, count)) <==> SkipAdvances(d, count)
    ensures SkipAdvances(d, count) ==>
            && SkipRead(d, count) == RefreshReader(DropAll(d, count))
            && Contents(SkipRead(d, count)) == Contents(d)[count..]
  {
    hide SkipLoop, DropAll, Flat;
    var e := d.(readable := d.readable - count);
    assert e.(readable := count + e.readable) == d;
    SkipLoopExact(e, count);
    if SkipAdvances(d, count) {
      DropAllRemoves(d, count);
      RefreshReaderPreserves(DropAll(d, count));
    }
  }

  lemma RefreshReaderPreserves(d: Deque)
    requires WF(d) && WF(RefreshReader(d))
    ensures Contents(RefreshReader(d)) == Contents(d)
  {
    if d.reader >= d.cap && |d.chunks| > 1 {
      RefreshReaderKeepsQueue(d);
    }
  }

  // ---------- resetting ----------

  /** Resetting the reader makes the consumed bytes of the first chunk readable again. */
  lemma ResetReaderRewinds(d: Deque)
    requires WF(d)
    ensures WF(ResetReader(d)) && d.reader <= |d.chunks[0]|
    ensures Contents(ResetReader(d)) == d.chunks[0][..d.reader] + Contents(d)
  {
    Accounting(d);
    assert Flat(d.chunks) == d.chunks[0] + Flat(d.chunks[1..]);
    if |d.chunks| == 1 {
      assert Flat(d.chunks[1..]) == [];
    }
  }

  /** Resetting the writer empties the buffer only when no chunk is left between the offsets. */
  lemma ResetWriterExact(d: Deque)
    requires WF(d)
    ensures WF(ResetWriter(d)) <==>
            (|d.chunks| == 1 && d.reader == 0) || (|d.chunks| == 2 && d.reader == d.cap)
    ensures WF(ResetWriter(d)) ==> Contents(ResetWriter(d)) == []
  {
    var e := ResetWriter(d);
    Accounting(e);
    if |d.chunks| == 1 {
      assert (|d.chunks| - 1) * d.cap == 0;
    } else if |d.chunks| == 2 {
      assert (|d.chunks| - 1) * d.cap == d.cap;
    } else {
      assert (|d.chunks| - 1) * d.cap == (|d.chunks| - 2) * d.cap + d.cap;
      assert (|d.chunks| - 2) * d.cap >= d.cap;
    }
  }

  /** Resetting the reader and then the writer, as every outgoing packet does to the shared
      buffer, gives back an empty queue exactly when the buffer holds one chunk. */
  lemma ResetBothExact(d: Deque)
    requires WF(d)
    ensures WF(ResetWriter(ResetReader(d))) <==> |d.chunks| == 1
    ensures |d.chunks| == 1 ==> ResetWriter(ResetReader(d)) == Empty(d.cap)
  {
    ResetReaderRewinds(d);
    ResetWriterExact(ResetReader(d));
  }

  // ---------- skipping ahead of the writer ----------

  /** Where the write position lies, counted from the start of the first chunk. */
  function WriteEnd(d: Deque): nat
    requires d.chunks != []
  {
    (|d.chunks| - 1) * d.cap + Writer(d)
  }

  lemma WriteEndExact(d: Deque)
    requires Segmented(d) && d.chunks != []
    ensures WriteEnd(d) == |Flat(d.chunks)|
  {
    Accounting(d);
  }

  /** Skipping ahead of the writer takes whole capacities off the count, whatever the writer's offset, and
      then assigns the rest: the write position ends `skipped` after the start of the chunk it was in,
      or 2^64 after that when the first subtraction wraps. The result is a queue exactly when the writer was
      at that start, and then what was queued comes first in it. */
  lemma SkipWriteExact(d: Deque, e: Deque, skipped: nat, wrap: nat)
    requires WF(d) && Segmented(e) && e.chunks != [] && d.cap < 0x1_0000_0000_0000_0000
    requires wrap == 0 || (wrap == 0x1_0000_0000_0000_0000 && Writer(d) > 0)
    requires e == d.(chunks := e.chunks, readable := d.readable + skipped)
    requires WriteEnd(e) == WriteEnd(d) - Writer(d) + skipped + wrap
    requires |d.chunks| <= |e.chunks| && d.chunks[..|d.chunks| - 1] == e.chunks[..|d.chunks| - 1]
    ensures WF(e) <==> Writer(d) == 0
    ensures WF(e) ==> Contents(e)[..d.readable] == Contents(d)
  {
    hide Flat, Contents;
    Accounting(d);
    Accounting(e);
    if Writer(d) == 0 {
      ChunksAdded(d, e);
    }
  }

  lemma ChunksAdded(d: Deque, e: Deque)
    requires WF(d) && WF(e) && e.reader == d.reader && d.readable <= e.readable && Writer(d) == 0
    requires |d.chunks| <= |e.chunks| && d.chunks[..|d.chunks| - 1] == e.chunks[..|d.chunks| - 1]
    ensures Contents(e)[..d.readable] == Contents(d)
  {
    hide Flat, Segmented;
    var n := |d.chunks| - 1;
    var front, back := d.chunks[..n], e.chunks[n..];
    assert d.chunks == front + [[]];
    FlatSnoc(front, []);
    assert e.chunks == front + back;
    FlatAppend(front, back);
    assert Flat(front) + [] == Flat(front);
    PrefixOfPiece(Flat(front), Flat(back), d.reader, d.readable, e.readable);
  }

  lemma PrefixOfPiece(a: seq<byte>, b: seq<byte>, from: nat, short: nat, long: nat)
    requires short <= long && from + short == |a| && from + long <= |a + b|
    ensures (a + b)[from..from + long][..short] == a[from..from + short]
  {
  }

  /** Refreshing the writer does not move the write position. */
  lemma RefreshKeepsEnd(d: Deque)
    requires Segmented(d) && d.chunks != []
    ensures Segmented(RefreshWriter(d)) && WriteEnd(RefreshWriter(d)) == WriteEnd(d)
    ensures RefreshWriter(d) == d.(chunks := RefreshWriter(d).chunks) && |RefreshWriter(d).chunks| >= |d.chunks|
    ensures forall n :: 0 <= n < |d.chunks| ==> RefreshWriter(d).chunks[..n] == d.chunks[..n]
  {
    Distributes(1, |d.chunks| - 1, d.cap);
  }

  // ---------- shape ----------

  /** A write makes no more chunks than it needs: the last one holds at least one byte, and the
      write position moves by exactly the bytes written. Together with the full chunks before it,
      that fixes the chunk count and the writer offset whatever the pieces of the write were. */
  lemma {:induction false} PutAllShape(d: Deque, bs: seq<byte>)
    requires WF(d) && bs != []
    ensures var e := PutAll(d, bs);
            && e.reader == d.reader && e.readable == d.readable + |bs| && 1 <= Writer(e) <= e.cap
            && (|e.chunks| - 1) * e.cap + Writer(e) == (|d.chunks| - 1) * d.cap + Writer(d) + |bs|
    decreases |bs|
  {
    PutAllAppends(d, bs);
    var e := PutByte(d, bs[0]);
    PutByteKeepsQueue(d, bs[0]);
    if |bs| == 1 {
      assert bs[1..] == [];
      assert PutAll(d, bs) == e;
    } else {
      PutAllShape(e, bs[1..]);
    }
    Accounting(d);
    Accounting(PutAll(d, bs));
  }

  /** One state is another with chunks dropped from the front. */
  ghost predicate Suffix(e: Deque, d: Deque) {
    0 < |e.chunks| <= |d.chunks| && e.chunks == d.chunks[|d.chunks| - |e.chunks|..]
  }

  lemma DropByteSuffix(d: Deque)
    requires WF(d) && d.readable > 0
    ensures WF(DropByte(d)) && Suffix(DropByte(d), d) && 1 <= DropByte(d).reader <= d.cap
  {
    DropByteKeepsQueue(d);
  }

  lemma SuffixOfSuffix(f: Deque, e: Deque, d: Deque)
    requires Suffix(f, e) && Suffix(e, d)
    ensures Suffix(f, d)
  {
  }

  lemma {:induction false} DropAllSuffix(d: Deque, k: nat)
    requires WF(d) && 0 < k <= d.readable
    ensures WF(DropAll(d, k)) && Suffix(DropAll(d, k), d) && 1 <= DropAll(d, k).reader <= d.cap == DropAll(d, k).cap
    decreases k
  {
    hide WF, Suffix, Flat, RefreshReader;
    DropByteSuffix(d);
    if k == 1 {
      DropNone(DropByte(d));
    } else {
      DropAllSuffix(DropByte(d), k - 1);
      SuffixOfSuffix(DropAll(d, k), DropByte(d), d);
    }
  }

  /** A read drops exactly the chunks it has passed, and never the one it ends in: a chunk read to
      its end stays in front until the next read. */
  lemma DropAllShape(d: Deque, k: nat)
    requires WF(d) && 0 < k <= d.readable
    ensures var e := DropAll(d, k);
            && |e.chunks| <= |d.chunks| && e.chunks == d.chunks[|d.chunks| - |e.chunks|..]
            && 1 <= e.reader <= e.cap
            && (|d.chunks| - |e.chunks|) * d.cap + e.reader == d.reader + k
  {
    hide DropAll, Flat;
    DropAllSuffix(d, k);
    DropAllRemoves(d, k);
    Accounting(d);
    Accounting(DropAll(d, k));
    Distributes(|d.chunks| - |DropAll(d, k).chunks|, |DropAll(d, k).chunks| - 1, d.cap);
  }

  /** A queue is at the end of its only chunk exactly when nothing is left and the last chunk is full. */
  lemma UsedUpExact(d: Deque)
    requires WF(d)
    ensures d.reader == d.cap && |d.chunks| == 1 <==> d.readable == 0 && Writer(d) == d.cap
  {
    hide Flat;
    Accounting(d);
    var n := |d.chunks| - 1;
    if n > 0 {
      assert (n - 1) * d.cap >= 0;
    }
  }

  /** Reading leaves the last chunk as it is, and never drops it. */
  lemma DropAllEnd(d: Deque, used: nat)
    requires WF(d) && used <= d.readable
    ensures WF(DropAll(d, used)) && Writer(DropAll(d, used)) == Writer(d)
  {
    hide Flat, DropAll;
    DropNone(d);
    if used > 0 {
      DropAllShape(d, used);
    }
    DropAllRemoves(d, used);
  }

  // ---------- whole runs ----------

  datatype Op =
    | WriteOne(b: byte)
    | WriteMany(input: seq<byte>)
    | ReadOne
    | ReadMany(size: nat)
    | SkipMany(count: nat)

  /** The state one operation leaves. The single-byte read is the guarded one; bulk reads and
      skips check the readable count themselves. */
  function After(d: Deque, op: Op): Deque
    requires d.cap >= 1 && d.reader <= d.cap && d.chunks != []
  {
    match op
    case WriteOne(b) => PutByte(d, b)
    case WriteMany(input) => PutBulk(d, input)
    case ReadOne => if d.readable < 1 then d else DropByte(d)
    case ReadMany(size) => DropBulk(d, size)
    case SkipMany(count) => if d.readable < count then d else SkipRead(d, count)
  }

  /** How many bytes it takes out. */
  function Takes(d: Deque, op: Op): nat {
    match op
    case ReadOne => if d.readable < 1 then 0 else 1
    case ReadMany(size) => if d.readable < size then 0 else size
    case SkipMany(count) => if d.readable < count then 0 else count
    case _ => 0
  }

  function Written(op: Op): seq<byte> {
    match op
    case WriteOne(b) => [b]
    case WriteMany(input) => input
    case _ => []
  }

  /** The condition on the offsets under which an operation leaves a queue: an empty read must not
      pop the only chunk, and a skip must advance. */
  predicate Safe(d: Deque, op: Op)
    requires d.chunks != []
  {
    match op
    case ReadMany(size) => size > 0 || d.reader < d.cap || |d.chunks| > 1
    case SkipMany(count) => count > d.readable || SkipAdvances(d, count)
    case _ => true
  }

  /** The bytes of `after` are those of `before` with `written` appended and `count` removed in front. */
  ghost predicate Moved(before: Deque, written: seq<byte>, count: nat, after: Deque)
    requires WF(before) && WF(after)
  {
    && count <= before.readable
    && Contents(before) + written == Contents(before)[..count] + Contents(after)
  }

  /** An operation keeps the queue exactly when it is `Safe`; then it has appended what it wrote
      and removed the front bytes it took. */
  lemma StepExact(d: Deque, op: Op)
    requires WF(d)
    ensures WF(After(d, op)) <==> Safe(d, op)
    ensures Safe(d, op) ==> Moved(d, Written(op), Takes(d, op), After(d, op))
  {
    match op
    case WriteOne(b) => WritesMove(d, op);
    case WriteMany(input) => WritesMove(d, op);
    case ReadOne => ReadsMove(d, op);
    case ReadMany(size) => ReadsMove(d, op);
    case SkipMany(count) => if count <= d.readable { SkipExact(d, count); }
  }

  lemma WritesMove(d: Deque, op: Op)
    requires WF(d) && (op.WriteOne? || op.WriteMany?)
    ensures WF(After(d, op)) && Contents(After(d, op)) == Contents(d) + Written(op)
  {
    match op
    case WriteOne(b) => PutByteKeepsQueue(d, b);
    case WriteMany(input) => PutBulkAppends(d, input);
  }

  lemma ReadsMove(d: Deque, op: Op)
    requires WF(d) && (op.ReadOne? || op.ReadMany?)
    ensures WF(After(d, op)) <==> Safe(d, op)
    ensures Safe(d, op) ==> Contents(After(d, op)) == Contents(d)[Takes(d, op)..]
  {
    match op
    case ReadOne => if d.readable >= 1 { DropByteKeepsQueue(d); }
    case ReadMany(size) =>
      BulkReadExact(d, size);
  }

  /** An empty bulk read still drops a used-up front chunk, even when it is the only one. */
  lemma EmptyReadExact(d: Deque)
    requires WF(d)
    ensures WF(RefreshReader(d)) <==> d.reader < d.cap || |d.chunks| > 1
    ensures WF(RefreshReader(d)) ==> Contents(RefreshReader(d)) == Contents(d)
    ensures !WF(RefreshReader(d)) ==> RefreshReader(d) == Deque(d.cap, [], 0, 0)
  {
    if d.reader < d.cap || |d.chunks| > 1 {
      RefreshReaderKeepsQueue(d);
    } else {
      Accounting(d);
    }
  }

  /** One chunk, written and read to its end: reading no bytes at all leaves no chunk. */
  lemma EmptyReadRuins(chunk: seq<byte>)
    requires chunk != []
    ensures var d := Deque(|chunk|, [chunk], |chunk|, 0);
            WF(d) && DropBulk(d, 0) == Deque(|chunk|, [], 0, 0) && !WF(DropBulk(d, 0))
  {
    FlatSingle(chunk);
    assert [chunk][1..] == [];
  }

  /** A bulk read keeps the queue unless it is an empty one on a used-up only chunk, and removes
      what it reports. */
  lemma BulkReadExact(d: Deque, size: nat)
    requires WF(d)
    ensures WF(DropBulk(d, size)) <==> size > 0 || d.reader < d.cap || |d.chunks| > 1
    ensures WF(DropBulk(d, size)) ==>
            Contents(DropBulk(d, size)) == if size <= d.readable then Contents(d)[size..] else Contents(d)
    ensures !WF(DropBulk(d, size)) ==> DropBulk(d, size) == Deque(d.cap, [], 0, 0)
  {
    EmptyReadExact(d);
    if size <= d.readable {
      DropAllRemoves(d, size);
    }
  }

  /** Every operation of the run finds the buffer in a state where it is safe. */
  predicate SafeRun(d: Deque, ops: seq<Op>)
    decreases |ops|
  {
    ops == [] || (d.cap >= 1 && d.reader <= d.cap && d.chunks != [] && Safe(d, ops[0])
                  && SafeRun(After(d, ops[0]), ops[1..]))
  }

  /** The bytes a run hands out, in order, and the state it ends in. */
  ghost function Run(d: Deque, ops: seq<Op>): (seq<byte>, Deque)
    requires WF(d) && SafeRun(d, ops)
    decreases |ops|
  {
    if ops == [] then ([], d)
    else
      StepExact(d, ops[0]);
      var (taken, e) := Run(After(d, ops[0]), ops[1..]);
      (Contents(d)[..Takes(d, ops[0])] + taken, e)
  }

  function AllWritten(ops: seq<Op>): seq<byte> {
    if ops == [] then [] else Written(ops[0]) + AllWritten(ops[1..])
  }

  /** Over any safe run, first in is first out: the bytes queued at the start followed by all bytes
      written are the bytes handed out followed by those still queued, and the counts agree. */
  lemma {:induction false} RunConserves(d: Deque, ops: seq<Op>)
    requires WF(d) && SafeRun(d, ops)
    ensures WF(Run(d, ops).1)
    ensures Contents(d) + AllWritten(ops) == Run(d, ops).0 + Contents(Run(d, ops).1)
    ensures d.readable + |AllWritten(ops)| == |Run(d, ops).0| + Run(d, ops).1.readable
    decreases |ops|
  {
    if ops != [] {
      var op, rest := ops[0], ops[1..];
      StepExact(d, op);
      RunConserves(After(d, op), rest);
      Chain(Contents(d), Written(op), AllWritten(rest), Contents(d)[..Takes(d, op)], Contents(After(d, op)),
            Run(After(d, op), rest).0, Contents(Run(d, ops).1));
    }
  }

  lemma Chain(c: seq<byte>, w: seq<byte>, ws: seq<byte>, front: seq<byte>, mid: seq<byte>, taken: seq<byte>,
              end: seq<byte>)
    requires c + w == front + mid && mid + ws == taken + end
    ensures c + (w + ws) == (front + taken) + end
  {
    assert c + (w + ws) == (c + w) + ws == front + (mid + ws) == front + (taken + end);
  }

  /** Runs of writes, single-byte reads and non-empty bulk reads are always safe. */
  lemma {:induction false} PlainRunsAreSafe(d: Deque, ops: seq<Op>)
    requires WF(d)
    requires forall op :: op in ops ==> !op.SkipMany? && op != ReadMany(0)
    ensures SafeRun(d, ops)
    decreases |ops|
  {
    if ops != [] {
      StepExact(d, ops[0]);
      PlainRunsAreSafe(After(d, ops[0]), ops[1..]);
    }
  }
}
