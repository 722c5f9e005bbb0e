/** The buffer that outgoing packets share: each of them starts by resetting it. */
module SharedBuffers {
  import opened Words
  import opened ChunkedQueue
  import opened ByteBuffers
  import QueueTheorems
  import VarInts

  /** What one packet does to the buffer: the bytes written, whether the writing ended with a bulk write of
      no bytes, and how many bytes were taken out again. */
  datatype Use = Use(written: seq<byte>, refreshed: bool, taken: nat)

  predicate Possible(u: Use) {
    u.taken <= |u.written|
  }

  function Filled(cap: nat, u: Use): (d: Deque)
    ensures d.chunks != [] && d.cap == cap
  {
    var d := PutAll(Empty(cap), u.written);
    if u.refreshed then RefreshWriter(d) else d
  }

  /** The state a packet leaves that has started on an empty buffer. */
  ghost function Leaves(cap: nat, u: Use): Deque
    requires cap >= 1 && Possible(u)
  {
    FilledExact(cap, u);
    DropAll(Filled(cap, u), u.taken)
  }

  /** How many chunks it leaves, told from the sizes. */
  function ChunksLeft(cap: nat, u: Use): int
    requires cap >= 1
  {
    var written := |u.written|;
    var made := if written == 0 then 1
                else (written - 1) / cap + 1 + (if u.refreshed && written % cap == 0 then 1 else 0);
    made - (if u.taken == 0 then 0 else (u.taken - 1) / cap)
  }

  lemma FilledExact(cap: nat, u: Use)
    requires cap >= 1
    ensures var d := Filled(cap, u);
            && WF(d) && d.reader == 0 && d.readable == |u.written|
            && |d.chunks| == ChunksLeft(cap, u.(taken := 0))
  {
    hide *;
    EmptyIsQueue(cap);
    PutAllAppends(Empty(cap), u.written);
    PutAllFlat(Empty(cap), u.written);
    var d, n := PutAll(Empty(cap), u.written), |u.written|;
    RefreshWriterKeepsQueue(d);
    FilledIs(cap, u);
    if n == 0 {
      PutNone(Empty(cap));
      MadeOf(cap, u, 0, 0);
    } else {
      QueueTheorems.PutAllShape(Empty(cap), u.written);
      MadeOf(cap, u, |d.chunks| - 1, Writer(d));
    }
  }

  lemma FilledIs(cap: nat, u: Use)
    requires cap >= 1
    ensures var d := PutAll(Empty(cap), u.written);
            && Filled(cap, u) == (if u.refreshed then RefreshWriter(d) else d)
            && |RefreshWriter(d).chunks| == |d.chunks| + (if Writer(d) >= cap then 1 else 0)
            && RefreshWriter(d) == d.(chunks := RefreshWriter(d).chunks)
    ensures Empty(cap).reader == 0 && Empty(cap).readable == 0 && |Empty(cap).chunks| == 1 && Empty(cap).cap == cap
    ensures Writer(Empty(cap)) == 0 && Segmented(Empty(cap))
  {
    hide PutAll;
  }

  /** How many chunks writing makes, from the full ones and the bytes in the last. */
  lemma MadeOf(cap: nat, u: Use, full: nat, last: nat)
    requires cap >= 1 && last <= cap && |u.written| == full * cap + last && (u.written != [] ==> last >= 1)
    requires u.written == [] ==> full == 0
    ensures ChunksLeft(cap, u.(taken := 0)) == full + 1 + (if u.refreshed && last == cap then 1 else 0)
  {
    var n := |u.written|;
    if n > 0 {
      Quotient(n - 1, full, cap, last - 1);
      if last < cap {
        Quotient(n, full, cap, last);
      } else {
        assert n == (full + 1) * cap + 0;
        Quotient(n, full + 1, cap, 0);
      }
    }
  }

  lemma EmptyIsQueue(cap: nat)
    requires cap >= 1
    ensures WF(Empty(cap)) && Contents(Empty(cap)) == []
  {
    FlatSingle([]);
  }

  lemma LeavesExact(cap: nat, u: Use)
    requires cap >= 1 && Possible(u)
    ensures WF(Leaves(cap, u)) && |Leaves(cap, u).chunks| == ChunksLeft(cap, u) && Leaves(cap, u).cap == cap
  {
    hide Flat, PutAll, DropAll, Filled;
    FilledExact(cap, u);
    var d := Filled(cap, u);
    DropAllRemoves(d, u.taken);
    if u.taken == 0 {
      DropNone(d);
    } else {
      QueueTheorems.DropAllShape(d, u.taken);
      var e := Leaves(cap, u);
      Quotient(u.taken - 1, |d.chunks| - |e.chunks|, cap, e.reader - 1);
    }
  }

  /** Every packet of a run starts on an empty buffer: after each but the last, the two resets give one. */
  ghost predicate AllStartEmpty(cap: nat, uses: seq<Use>)
    requires cap >= 1 && forall i :: 0 <= i < |uses| ==> Possible(uses[i])
    decreases |uses|
  {
    |uses| <= 1
    || (LeavesExact(cap, uses[0]);
        && ResetWriter(ResetReader(Leaves(cap, uses[0]))) == Empty(cap)
        && AllStartEmpty(cap, uses[1..]))
  }

  /** Exactly when they all do: each but the last must leave one chunk, told from what it writes and takes. */
  lemma {:induction false} SharedStartsExact(cap: nat, uses: seq<Use>)
    requires cap >= 1 && forall i :: 0 <= i < |uses| ==> Possible(uses[i])
    ensures AllStartEmpty(cap, uses) <==> forall i :: 0 <= i < |uses| - 1 ==> ChunksLeft(cap, uses[i]) == 1
    decreases |uses|
  {
    if |uses| > 1 {
      hide Leaves, ChunksLeft, ResetWriter, ResetReader, WF;
      var first, rest := uses[0], uses[1..];
      LeavesExact(cap, first);
      QueueTheorems.ResetBothExact(Leaves(cap, first));
      EmptyIsQueue(cap);
      SharedStartsExact(cap, rest);
      assert forall i :: 0 < i < |uses| ==> uses[i] == rest[i - 1];
      if forall i :: 0 <= i < |uses| - 1 ==> ChunksLeft(cap, uses[i]) == 1 {
        forall i | 0 <= i < |rest| - 1 ensures ChunksLeft(cap, rest[i]) == 1 {
          assert rest[i] == uses[i + 1];
        }
      } else if ChunksLeft(cap, first) == 1 {
        var i :| 0 <= i < |uses| - 1 && ChunksLeft(cap, uses[i]) != 1;
        assert uses[i] == rest[i - 1];
      }
    }
  }

  /** A packet that fills its chunk, ends with an empty bulk write and is read to the end spoils the next, at
      any capacity: that one's first byte comes behind the old ones, one byte being readable. */
  lemma StaleBytesComeFirst(cap: nat, written: seq<byte>, next: byte)
    requires cap >= 1 && |written| == cap
    ensures var u := Use(written, true, cap);
            && Possible(u) && ChunksLeft(cap, u) == 2
            && Leaves(cap, u) == Deque(cap, [written, []], cap, 0)
            && var d := ResetWriter(ResetReader(Leaves(cap, u)));
               d.chunks != [] && !WF(d) && PutByte(d, next) == Deque(cap, [written, [next]], 0, 1)
  {
    hide *;
    var u := Use(written, true, cap);
    PossibleUse(u);
    FilledChunk(cap, written);
    LeavesExact(cap, u);
    DropRun(Filled(cap, u), cap);
    LeavesIs(cap, u);
    QueueTheorems.ResetBothExact(Leaves(cap, u));
    ResetChunks(cap, written, next);
  }

  lemma PossibleUse(u: Use)
    ensures Possible(u) <==> u.taken <= |u.written|
  {
  }

  lemma LeavesIs(cap: nat, u: Use)
    requires cap >= 1 && Possible(u)
    ensures u.taken <= Filled(cap, u).readable && Leaves(cap, u) == DropAll(Filled(cap, u), u.taken)
  {
    FilledExact(cap, u);
  }

  lemma FilledChunk(cap: nat, written: seq<byte>)
    requires cap >= 1 && |written| == cap
    ensures Filled(cap, Use(written, true, cap)) == Deque(cap, [written, []], 0, cap)
    ensures Advance(Deque(cap, [written, []], 0, cap), cap) == Deque(cap, [written, []], cap, 0)
  {
    PutRun(Empty(cap), written);
    hide PutAll;
    assert [] + written == written;
    assert Extend(Empty(cap), written) == Deque(cap, [written], 0, cap);
  }

  lemma ResetChunks(cap: nat, written: seq<byte>, next: byte)
    requires cap >= 1
    ensures var d := ResetWriter(ResetReader(Deque(cap, [written, []], cap, 0)));
            d == Deque(cap, [written, []], 0, 0) && PutByte(d, next) == Deque(cap, [written, [next]], 0, 1)
  {
    var two := [written, []];
    assert two[..1] + [[]] == two;
    assert [] + [next] == [next];
    assert two[..1] + [[next]] == [written, [next]];
  }

  /** The start of a packet, on the buffer itself. */
  method StartPacket(shared: ByteBufferImpl)
    requires shared.Valid()
    modifies shared
    ensures shared.Live() && shared.Repr == old(shared.Repr)
    ensures shared.View() == ResetWriter(ResetReader(old(shared.View())))
    ensures shared.Valid() <==> |old(shared.buffers)| == 1
    ensures shared.Valid() ==> shared.View() == Empty(shared.singleCapacity)
  {
    hide *;
    QueueTheorems.ResetBothExact(shared.View());
    shared.ResetReaderIndex();
    shared.ResetWriterIndex();
  }
}
