/** The value a segmented byte buffer stands for, and what each of its operations does to that
    value: a deque of fixed-size chunks of which only the last may be partly written, a reader
    offset into the first chunk and the cached number of readable bytes.

    Every operation is given as the code performs it, including the cases where the code leaves
    the buffer in a state that is no longer a queue of bytes; `WF` tells those apart. */
module ChunkedQueue {
  import opened Words

  datatype Deque = Deque(cap: nat, chunks: seq<seq<byte>>, reader: nat, readable: nat)

  function Flat(chunks: seq<seq<byte>>): seq<byte> {
    if chunks == [] then [] else chunks[0] + Flat(chunks[1..])
  }

  /** All chunks but the last are full, and the reader is inside the first. */
  ghost predicate Segmented(d: Deque) {
    && d.cap >= 1
    && d.reader <= d.cap
    && (forall i :: 0 <= i < |d.chunks| ==> |d.chunks[i]| <= d.cap)
    && (forall i :: 0 <= i < |d.chunks| - 1 ==> |d.chunks[i]| == d.cap)
  }

  /** The readable bytes are all there, though the reader may lag behind where it should be. */
  ghost predicate Covered(d: Deque) {
    Segmented(d) && d.reader + d.readable <= |Flat(d.chunks)|
  }

  /** The buffer is a queue: the reader has passed exactly the bytes that are no longer readable. */
  ghost predicate WF(d: Deque)
    ensures WF(d) ==> Covered(d) && d.cap >= 1 && d.chunks != []
  {
    Segmented(d) && d.chunks != [] && d.reader + d.readable == |Flat(d.chunks)|
  }

  /** The bytes a sequence of reads would return next. */
  ghost function Contents(d: Deque): (q: seq<byte>)
    requires Covered(d)
    ensures |q| == d.readable
  {
    Flat(d.chunks)[d.reader..d.reader + d.readable]
  }

  function Last(chunks: seq<seq<byte>>): seq<byte>
    requires chunks != []
  {
    chunks[|chunks| - 1]
  }

  function Writer(d: Deque): nat
    requires d.chunks != []
  {
    |Last(d.chunks)|
  }

  function Empty(cap: nat): Deque { Deque(cap, [[]], 0, 0) }

  // ---------- writing ----------

  function RefreshWriter(d: Deque): (e: Deque)
    requires d.chunks != []
    ensures e.chunks != [] && e.cap == d.cap
  {
    if Writer(d) >= d.cap then d.(chunks := d.chunks + [[]]) else d
  }

  /** The last chunk extended by bytes that fit into it. */
  function Extend(d: Deque, bs: seq<byte>): Deque
    requires d.chunks != []
  {
    d.(chunks := d.chunks[..|d.chunks| - 1] + [Last(d.chunks) + bs], readable := d.readable + |bs|)
  }

  function PutByte(d: Deque, b: byte): (e: Deque)
    requires d.chunks != []
    ensures e.chunks != [] && e.cap == d.cap
  {
    Extend(RefreshWriter(d), [b])
  }

  /** Byte-at-a-time writing of a whole sequence. */
  function PutAll(d: Deque, bs: seq<byte>): (e: Deque)
    requires d.chunks != []
    ensures e.chunks != [] && e.cap == d.cap
    decreases |bs|
  {
    if bs == [] then d else PutAll(PutByte(d, bs[0]), bs[1..])
  }

  /** What a bulk write leaves behind: byte-at-a-time writing, except that an empty
      write still opens a new chunk when the last one is full. */
  function PutBulk(d: Deque, bs: seq<byte>): (e: Deque)
    requires d.chunks != []
    ensures e.chunks != []
  {
    if bs == [] then RefreshWriter(d) else PutAll(d, bs)
  }

  // ---------- reading ----------

  function PopChunk(d: Deque): Deque {
    d.(chunks := if d.chunks == [] then [] else d.chunks[1..], reader := 0)
  }

  function RefreshReader(d: Deque): (e: Deque)
    ensures e.cap == d.cap && e.readable == d.readable && (d.reader < d.cap ==> e == d)
    ensures d.cap >= 1 ==> e.reader < e.cap
  {
    if d.reader >= d.cap then PopChunk(d) else d
  }

  /** The reader moved over bytes of the first chunk. */
  function Advance(d: Deque, k: nat): Deque
    requires k <= d.readable
  {
    d.(reader := d.reader + k, readable := d.readable - k)
  }

  /** Reading one byte: pass it in the first chunk, after dropping a chunk already used up. */
  function DropByte(d: Deque): (e: Deque)
    requires d.readable > 0
    ensures e.readable == d.readable - 1
  {
    Advance(RefreshReader(d), 1)
  }

  /** Reading `k` bytes one at a time. */
  function DropAll(d: Deque, k: nat): (e: Deque)
    requires k <= d.readable
    ensures e.readable == d.readable - k
    decreases k
  {
    if k == 0 then d else DropAll(DropByte(d), k - 1)
  }

  /** What a bulk read leaves behind: nothing changed if too few bytes are readable; otherwise
      byte-at-a-time reading, except that an empty read still drops a used-up front chunk. */
  function DropBulk(d: Deque, k: nat): Deque {
    if d.readable < k then d else if k == 0 then RefreshReader(d) else DropAll(d, k)
  }

  // ---------- chunk bookkeeping ----------

  lemma {:induction false} FlatAppend(a: seq<seq<byte>>, b: seq<seq<byte>>)
    ensures Flat(a + b) == Flat(a) + Flat(b)
  {
    if a == [] {
      assert a + b == b;
    } else {
      var c := a + b;
      assert c[0] == a[0] && c[1..] == a[1..] + b;
      FlatAppend(a[1..], b);
      JoinAssociates(a[0], Flat(a[1..]), Flat(b));
    }
  }

  lemma FlatSingle(c: seq<byte>)
    ensures Flat([c]) == c
  {
    assert [c][1..] == [];
  }

  lemma FlatSnoc(a: seq<seq<byte>>, c: seq<byte>)
    ensures Flat(a + [c]) == Flat(a) + c
  {
    FlatAppend(a, [c]);
    FlatSingle(c);
  }

  lemma {:induction false} FlatLength(chunks: seq<seq<byte>>, cap: nat)
    requires forall i :: 0 <= i < |chunks| ==> |chunks[i]| == cap
    ensures |Flat(chunks)| == |chunks| * cap
  {
    if chunks != [] {
      FlatLength(chunks[1..], cap);
      assert (|chunks| - 1) * cap + cap == |chunks| * cap;
    }
  }

  /** The accounting that every live state keeps: chunk count, offsets and readable count agree. */
  lemma Accounting(d: Deque)
    requires Segmented(d) && d.chunks != []
    ensures |Flat(d.chunks)| == (|d.chunks| - 1) * d.cap + Writer(d)
    ensures WF(d) <==> d.readable + d.reader == (|d.chunks| - 1) * d.cap + Writer(d)
  {
    var front := d.chunks[..|d.chunks| - 1];
    assert d.chunks == front + [Last(d.chunks)];
    FlatSnoc(front, Last(d.chunks));
    FlatLength(front, d.cap);
  }

  lemma RefreshReaderKeepsQueue(d: Deque)
    requires WF(d) && (d.readable > 0 || d.reader < d.cap || |d.chunks| > 1)
    ensures WF(RefreshReader(d)) && Contents(RefreshReader(d)) == Contents(d)
  {
    if d.reader >= d.cap {
      var e := PopChunk(d);
      assert Flat(d.chunks) == d.chunks[0] + Flat(e.chunks);
    }
  }

  lemma RefreshWriterFlat(d: Deque)
    requires Segmented(d) && d.chunks != []
    ensures Segmented(RefreshWriter(d)) && Flat(RefreshWriter(d).chunks) == Flat(d.chunks)
    ensures RefreshWriter(d) == d.(chunks := RefreshWriter(d).chunks) && Writer(RefreshWriter(d)) < d.cap
  {
    FlatSnoc(d.chunks, []);
  }

  lemma RefreshWriterKeepsQueue(d: Deque)
    requires WF(d)
    ensures WF(RefreshWriter(d)) && Contents(RefreshWriter(d)) == Contents(d)
    ensures Writer(RefreshWriter(d)) < d.cap
  {
    RefreshWriterFlat(d);
  }

  lemma ExtendFlat(d: Deque, bs: seq<byte>)
    requires Segmented(d) && d.chunks != [] && Writer(d) + |bs| <= d.cap
    ensures Segmented(Extend(d, bs)) && Flat(Extend(d, bs).chunks) == Flat(d.chunks) + bs
    ensures Extend(d, bs) == d.(chunks := Extend(d, bs).chunks, readable := d.readable + |bs|)
  {
    hide Flat;
    var front, last, e := d.chunks[..|d.chunks| - 1], Last(d.chunks), Extend(d, bs);
    assert d.chunks == front + [last] && e.chunks == front + [last + bs];
    FlatSnoc(front, last);
    FlatSnoc(front, last + bs);
    JoinAssociates(Flat(front), last, bs);
  }

  lemma ExtendKeepsQueue(d: Deque, bs: seq<byte>)
    requires WF(d) && Writer(d) + |bs| <= d.cap
    ensures WF(Extend(d, bs)) && Contents(Extend(d, bs)) == Contents(d) + bs
  {
    hide Flat;
    ExtendFlat(d, bs);
    var e := Extend(d, bs);
    assert Flat(e.chunks)[d.reader..] == Flat(d.chunks)[d.reader..] + bs;
  }

  /** Whether or not the reader has kept its place, writing puts its input behind the bytes in the chunks. */
  lemma {:induction false} PutAllFlat(d: Deque, bs: seq<byte>)
    requires Segmented(d) && d.chunks != []
    ensures Segmented(PutAll(d, bs)) && Flat(PutAll(d, bs).chunks) == Flat(d.chunks) + bs
    ensures PutAll(d, bs) == d.(chunks := PutAll(d, bs).chunks, readable := d.readable + |bs|)
    decreases |bs|
  {
    hide Flat;
    if bs == [] {
      assert Flat(d.chunks) + bs == Flat(d.chunks);
    } else {
      var e := PutByte(d, bs[0]);
      RefreshWriterFlat(d);
      ExtendFlat(RefreshWriter(d), [bs[0]]);
      PutAllFlat(e, bs[1..]);
      assert [bs[0]] + bs[1..] == bs;
      JoinAssociates(Flat(d.chunks), [bs[0]], bs[1..]);
    }
  }

  lemma PutBulkFlat(d: Deque, bs: seq<byte>)
    requires Segmented(d) && d.chunks != []
    ensures Segmented(PutBulk(d, bs)) && Flat(PutBulk(d, bs).chunks) == Flat(d.chunks) + bs
    ensures PutBulk(d, bs) == d.(chunks := PutBulk(d, bs).chunks, readable := d.readable + |bs|)
  {
    hide Flat;
    if bs == [] {
      RefreshWriterFlat(d);
      assert Flat(d.chunks) + bs == Flat(d.chunks);
    } else {
      PutAllFlat(d, bs);
    }
  }

  lemma PutByteKeepsQueue(d: Deque, b: byte)
    requires WF(d)
    ensures WF(PutByte(d, b)) && Contents(PutByte(d, b)) == Contents(d) + [b]
  {
    RefreshWriterKeepsQueue(d);
    ExtendKeepsQueue(RefreshWriter(d), [b]);
  }

  /** Writing appends exactly its input, whatever chunks it spans. */
  lemma {:induction false} PutAllAppends(d: Deque, bs: seq<byte>)
    requires WF(d)
    ensures WF(PutAll(d, bs)) && PutAll(d, bs).cap == d.cap
    ensures Contents(PutAll(d, bs)) == Contents(d) + bs
    decreases |bs|
  {
    if bs != [] {
      PutByteKeepsQueue(d, bs[0]);
      PutAllAppends(PutByte(d, bs[0]), bs[1..]);
      assert [bs[0]] + bs[1..] == bs;
    }
  }

  lemma PutBulkAppends(d: Deque, bs: seq<byte>)
    requires WF(d)
    ensures WF(PutBulk(d, bs)) && PutBulk(d, bs).cap == d.cap
    ensures Contents(PutBulk(d, bs)) == Contents(d) + bs
  {
    if bs == [] {
      RefreshWriterKeepsQueue(d);
    } else {
      PutAllAppends(d, bs);
    }
  }

  lemma {:induction false} PutAllSplits(d: Deque, a: seq<byte>, b: seq<byte>)
    requires d.chunks != []
    ensures PutAll(d, a + b) == PutAll(PutAll(d, a), b)
    decreases |a|
  {
    hide PutByte;
    if a == [] {
      assert a + b == b;
    } else {
      var c := a + b;
      assert c[0] == a[0] && c[1..] == a[1..] + b;
      PutAllSplits(PutByte(d, a[0]), a[1..], b);
    }
  }

  lemma DropByteKeepsQueue(d: Deque)
    requires WF(d) && d.readable > 0
    ensures var e := RefreshReader(d);
            WF(e) && e.reader < |e.chunks[0]| && e.chunks[0][e.reader] == Contents(d)[0]
    ensures WF(DropByte(d)) && Contents(DropByte(d)) == Contents(d)[1..]
  {
    RefreshReaderKeepsQueue(d);
    var e := RefreshReader(d);
    assert Flat(e.chunks) == e.chunks[0] + Flat(e.chunks[1..]);
    if |e.chunks| == 1 {
      assert Flat(e.chunks[1..]) == [];
    }
  }

  /** Reading removes exactly the front bytes. */
  lemma {:induction false} DropAllRemoves(d: Deque, k: nat)
    requires WF(d) && k <= d.readable
    ensures WF(DropAll(d, k)) && DropAll(d, k).cap == d.cap
    ensures Contents(DropAll(d, k)) == Contents(d)[k..]
    decreases k
  {
    if k > 0 {
      DropByteKeepsQueue(d);
      DropAllRemoves(DropByte(d), k - 1);
    }
  }

  lemma PutAllSnoc(d: Deque, bs: seq<byte>, b: byte)
    requires d.chunks != []
    ensures PutAll(d, bs + [b]) == PutByte(PutAll(d, bs), b)
  {
    PutAllSplits(d, bs, [b]);
    var e := PutAll(d, bs);
    assert PutAll(PutByte(e, b), [b][1..]) == PutByte(e, b);
  }

  lemma DropNone(d: Deque)
    ensures DropAll(d, 0) == d
  {
  }

  lemma PutNone(d: Deque)
    requires d.chunks != []
    ensures PutAll(d, []) == d
  {
  }

  lemma PutOne(d: Deque, b: byte)
    requires WF(d)
    ensures PutByte(d, b) == Extend(RefreshWriter(d), [b]) && WF(PutByte(d, b))
  {
    PutByteKeepsQueue(d, b);
  }

  lemma DropAllNext(d: Deque, k: nat)
    requires WF(d) && k < d.readable
    ensures WF(DropAll(d, k)) && Contents(DropAll(d, k))[0] == Contents(d)[k]
    ensures DropByte(DropAll(d, k)) == DropAll(d, k + 1)
  {
    DropAllRemoves(d, k);
    DropAllSplits(d, k, 1);
    var e := DropAll(d, k);
    assert DropAll(e, 1) == DropByte(e);
  }

  lemma {:induction false} DropAllSplits(d: Deque, j: nat, k: nat)
    requires j + k <= d.readable
    ensures DropAll(d, j + k) == DropAll(DropAll(d, j), k)
    decreases j
  {
    if j > 0 {
      DropAllSplits(DropByte(d), j - 1, k);
    }
  }

  // ---------- runs inside one chunk ----------

  lemma ExtendByNothing(d: Deque)
    requires d.chunks != []
    ensures Extend(d, []) == d
  {
    assert Last(d.chunks) + [] == Last(d.chunks);
    assert d.chunks[..|d.chunks| - 1] + [Last(d.chunks)] == d.chunks;
  }

  lemma {:induction false} PutRun(d: Deque, bs: seq<byte>)
    requires d.chunks != [] && Writer(d) + |bs| <= d.cap
    ensures PutAll(d, bs) == Extend(d, bs)
    decreases |bs|
  {
    var front := d.chunks[..|d.chunks| - 1];
    if bs == [] {
      assert Last(d.chunks) + bs == Last(d.chunks);
      assert front + [Last(d.chunks)] == d.chunks;
    } else {
      var e := PutByte(d, bs[0]);
      PutRun(e, bs[1..]);
      assert e.chunks[..|e.chunks| - 1] == front;
      assert Last(d.chunks) + [bs[0]] + bs[1..] == Last(d.chunks) + bs;
    }
  }

  lemma PutAllAfterRefresh(d: Deque, bs: seq<byte>)
    requires d.chunks != [] && d.cap >= 1 && bs != []
    ensures PutAll(RefreshWriter(d), bs) == PutAll(d, bs)
  {
    assert RefreshWriter(RefreshWriter(d)) == RefreshWriter(d);
  }

  /** A bulk write advances chunk by chunk: with `a` written and the open chunk refreshed,
      storing `part` in it is writing `a + part`. */
  lemma BulkWriteStep(d: Deque, a: seq<byte>, part: seq<byte>)
    requires d.chunks != [] && d.cap >= 1 && part != []
    requires Writer(RefreshWriter(PutAll(d, a))) + |part| <= d.cap
    ensures Extend(RefreshWriter(PutAll(d, a)), part) == PutAll(d, a + part)
  {
    hide *;
    var before := PutAll(d, a);
    PutRun(RefreshWriter(before), part);
    PutAllAfterRefresh(before, part);
    PutAllSplits(d, a, part);
  }

  lemma BulkWriteEnd(d: Deque, a: seq<byte>, part: seq<byte>)
    requires d.chunks != [] && d.cap >= 1 && (part != [] || a == [])
    requires Writer(RefreshWriter(PutAll(d, a))) + |part| <= d.cap
    ensures Extend(RefreshWriter(PutAll(d, a)), part) == PutBulk(d, a + part)
  {
    if part != [] {
      BulkWriteStep(d, a, part);
    } else {
      assert a + part == [];
      ExtendByNothing(RefreshWriter(d));
    }
  }

  lemma {:induction false} DropRun(d: Deque, k: nat)
    requires k <= d.readable && d.reader + k <= d.cap
    ensures DropAll(d, k) == Advance(d, k)
    decreases k
  {
    if k > 0 {
      DropRun(DropByte(d), k - 1);
    }
  }

  lemma DropAllAfterRefresh(d: Deque, k: nat)
    requires 0 < k <= d.readable && d.cap >= 1
    ensures DropAll(RefreshReader(d), k) == DropAll(d, k)
  {
    assert RefreshReader(RefreshReader(d)) == RefreshReader(d);
  }

  /** A bulk read advances chunk by chunk: with `j` bytes taken and the reader refreshed, the next
      `k` bytes of the front chunk are the next `k` bytes of the queue, and passing them is reading
      `j + k`. If that uses the chunk up before the read is over, another chunk follows. */
  lemma BulkReadStep(d: Deque, j: nat, k: nat)
    requires WF(d) && 0 < k && j + k <= d.readable
    requires RefreshReader(DropAll(d, j)).reader + k <= d.cap
    ensures var v := RefreshReader(DropAll(d, j));
            && WF(v) && v.reader + k <= |v.chunks[0]|
            && Piece(v.chunks[0], v.reader, v.reader + k) == Piece(Contents(d), j, j + k)
            && Advance(v, k) == DropAll(d, j + k)
            && (j + k < d.readable && v.reader + k == d.cap ==> |v.chunks| > 1 && |v.chunks[0]| == d.cap)
  {
    var before := DropAll(d, j);
    DropAllRemoves(d, j);
    RefreshReaderKeepsQueue(before);
    var v := RefreshReader(before);
    DropRun(v, k);
    DropAllAfterRefresh(before, k);
    DropAllSplits(d, j, k);
    FrontOfQueue(v, k);
    PieceOfRest(Contents(d), j, k);
  }

  lemma PieceOfRest(s: seq<byte>, j: nat, k: nat)
    requires j + k <= |s|
    ensures s[j..][..k] == Piece(s, j, j + k)
  {
  }

  lemma SliceOfFirst(first: seq<byte>, rest: seq<byte>, r: nat, n: nat, k: nat)
    requires k <= n && r + k <= |first| && r + n <= |first| + |rest|
    ensures (first + rest)[r..r + n][..k] == Piece(first, r, r + k)
  {
  }

  lemma FrontOfQueue(v: Deque, k: nat)
    requires WF(v) && k <= v.readable && v.reader + k <= v.cap
    ensures v.reader + k <= |v.chunks[0]|
    ensures Piece(v.chunks[0], v.reader, v.reader + k) == Contents(v)[..k]
    ensures k < v.readable && v.reader + k == v.cap ==> |v.chunks| > 1
  {
    var first, rest := v.chunks[0], Flat(v.chunks[1..]);
    assert Flat(v.chunks) == first + rest;
    if |v.chunks| == 1 {
      assert rest == [];
    }
    SliceOfFirst(first, rest, v.reader, v.readable, k);
  }

  // ---------- skipping and resetting, as written ----------

  /** The pops of a skip, then its assignment of the reader offset and its refresh. */
  function SkipLoop(d: Deque, count: nat): Deque
    requires d.cap >= 1 && d.reader <= d.cap
    decreases count, d.reader
  {
    if count > d.cap - d.reader then SkipLoop(PopChunk(d), count - (d.cap - d.reader))
    else RefreshReader(d.(reader := count))
  }

  function SkipRead(d: Deque, count: nat): Deque
    requires d.cap >= 1 && d.reader <= d.cap && count <= d.readable
  {
    SkipLoop(d.(readable := d.readable - count), count)
  }

  /** What the skip reports: the part of the count that was left when the last pop was done. */
  function SkipLeftover(d: Deque, count: nat): nat
    requires d.cap >= 1 && d.reader <= d.cap
    decreases count, d.reader
  {
    if count > d.cap - d.reader then SkipLeftover(PopChunk(d), count - (d.cap - d.reader)) else count
  }

  function SkipReport(d: Deque, count: nat): nat
    requires d.cap >= 1 && d.reader <= d.cap && count <= d.readable
  {
    SkipLeftover(d.(readable := d.readable - count), count)
  }

  /** The bytes a skip has still to pass and those that stay readable are all in the chunks. */
  ghost predicate CanSkip(d: Deque, count: nat) {
    Segmented(d) && d.chunks != [] && d.reader + count + d.readable <= |Flat(d.chunks)|
  }

  /** A pop inside a skip is never of the last chunk. */
  lemma SkipPopsAreInside(d: Deque, count: nat)
    requires CanSkip(d, count) && count > d.cap - d.reader
    ensures |d.chunks| > 1 && CanSkip(PopChunk(d), count - (d.cap - d.reader))
  {
    assert Flat(d.chunks) == d.chunks[0] + Flat(d.chunks[1..]);
  }

  lemma SkipUnfolds(d: Deque, count: nat)
    requires CanSkip(d, count)
    ensures count > d.cap - d.reader ==>
            && |d.chunks| > 1 && CanSkip(PopChunk(d), count - (d.cap - d.reader))
            && SkipLoop(d, count) == SkipLoop(PopChunk(d), count - (d.cap - d.reader))
            && SkipLeftover(d, count) == SkipLeftover(PopChunk(d), count - (d.cap - d.reader))
    ensures count <= d.cap - d.reader ==>
            SkipLoop(d, count) == RefreshReader(d.(reader := count)) && SkipLeftover(d, count) == count
  {
    if count > d.cap - d.reader {
      SkipPopsAreInside(d, count);
    }
  }

  /** Even a skip that loses its place leaves the readable bytes inside the chunks. */
  lemma {:induction false} SkipStaysCovered(d: Deque, count: nat)
    requires CanSkip(d, count)
    ensures Covered(SkipLoop(d, count)) && SkipLoop(d, count).cap == d.cap
    ensures SkipLoop(d, count).readable == d.readable
    ensures SkipLoop(d, count).chunks == [] ==> d.readable == 0
    decreases count, d.reader
  {
    if count > d.cap - d.reader {
      SkipPopsAreInside(d, count);
      SkipStaysCovered(PopChunk(d), count - (d.cap - d.reader));
    } else if count == d.cap {
      assert Flat(d.chunks) == d.chunks[0] + Flat(d.chunks[1..]);
    }
  }

  /** A skip from any state whose readable bytes are there is memory-safe and keeps them there. */
  lemma SkipReadStaysCovered(d: Deque, count: nat)
    requires Covered(d) && d.chunks != [] && count <= d.readable
    ensures var e := d.(readable := d.readable - count);
            && CanSkip(e, count)
            && SkipRead(d, count) == SkipLoop(e, count) && SkipReport(d, count) == SkipLeftover(e, count)
    ensures Covered(SkipRead(d, count)) && SkipRead(d, count).readable == d.readable - count
    ensures SkipRead(d, count).cap == d.cap
    ensures SkipRead(d, count).chunks == [] ==> SkipRead(d, count).readable == 0
  {
    SkipStaysCovered(d.(readable := d.readable - count), count);
  }

  function ResetReader(d: Deque): Deque
    requires d.chunks != []
  {
    d.(reader := 0, readable := (|d.chunks| - 1) * d.cap + Writer(d))
  }

  function ResetWriter(d: Deque): Deque
    requires d.chunks != []
  {
    d.(chunks := d.chunks[..|d.chunks| - 1] + [[]], readable := 0)
  }
}
