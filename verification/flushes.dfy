/** Sessions of packets that are each flushed through the connection's writer buffer. */
module Flushes {
  import opened Words
  import opened Codec
  import opened Framing
  import opened Pipes
  import opened Calls
  import opened Sessions
  import opened ChunkedQueue
  import opened Draining
  import QueueTheorems
  import VarInts

  // ---------- what the socket gets ----------

  lemma PutStaysDrainable(d: Deque, wire: seq<byte>)
    requires Covered(d) && d.chunks != []
    ensures Drainable(PutBulk(d, wire)) && PutBulk(d, wire).chunks != [] && PutBulk(d, wire).cap == d.cap
  {
    PutBulkFlat(d, wire);
  }

  /** The pages a session puts on the wire: every packet's bytes go into the writer buffer, which is then
      drained. The buffer is carried from flush to flush; a flush that leaves it without a chunk ends the
      session: a later write opens a fresh chunk, but the read pointer it would be sent from dangles. */
  ghost function Flushed(d: Deque, wires: seq<seq<byte>>, answers: seq<seq<Answer>>): (pages: seq<seq<byte>>)
    requires Covered(d) && |answers| == |wires|
    ensures |pages| <= |wires|
    decreases |wires|
  {
    if wires == [] || d.chunks == [] then []
    else
      PutStaysDrainable(d, wires[0]);
      var r := Drain(PutBulk(d, wires[0]), answers[0]);
      [r.sent] + Flushed(r.d, wires[1..], answers[1..])
  }

  /** The kernel takes every request whole, for as many requests as a flush can make. */
  predicate Willing(answers: seq<Answer>, cap: nat, readable: nat) {
    |answers| > readable && forall i :: 0 <= i < |answers| ==> answers[i].Accepts? && answers[i].limit >= cap
  }

  predicate AllWilling(answers: seq<seq<Answer>>, wires: seq<seq<byte>>, cap: nat) {
    |answers| == |wires| && forall i :: 0 <= i < |wires| ==> Willing(answers[i], cap, |wires[i]|)
  }

  /** What a drain sends that starts inside the front chunk, and where it leaves the reader: it never gets
      past that chunk, but turns back to the offset that is left of it, again and again. */
  function Window(front: seq<byte>, cap: nat, reader: nat, readable: nat): (w: (seq<byte>, nat))
    requires 0 < reader < cap && reader <= |front| <= cap && (readable <= |front| - reader || |front| == cap)
    ensures |w.0| == readable && 0 < w.1 < cap && w.1 <= |front|
    decreases readable
  {
    if readable == 0 then ([], reader)
    else if readable < cap - reader then (front[reader..reader + readable], readable)
    else
      var rest := Window(front, cap, cap - reader, readable - (cap - reader));
      (front[reader..] + rest.0, rest.1)
  }

  function Front(memory: seq<byte>, cap: nat): (front: seq<byte>)
    ensures |front| == Min(cap, |memory|)
  {
    memory[..Min(cap, |memory|)]
  }

  /** The pages of a session whose reader is inside the front chunk: they are all cut out of that chunk,
      which the packets go on filling. */
  function Replay(memory: seq<byte>, cap: nat, reader: nat, wires: seq<seq<byte>>): (pages: seq<seq<byte>>)
    requires 0 < reader < cap && reader <= |memory|
    ensures |pages| == |wires| && forall i :: 0 <= i < |wires| ==> |pages[i]| == |wires[i]|
    decreases |wires|
  {
    if wires == [] then []
    else
      var more := memory + wires[0];
      var w := Window(Front(more, cap), cap, reader, |wires[0]|);
      [w.0] + Replay(more, cap, w.1, wires[1..])
  }

  /** The pages of a whole session from an empty buffer: the first packet that has bytes goes out as it is; if
      it ends at a chunk's end, the session ends there, and otherwise all others are replayed. */
  function PagesSent(cap: nat, wires: seq<seq<byte>>): (pages: seq<seq<byte>>)
    requires cap >= 1
    ensures |pages| <= |wires| && forall i :: 0 <= i < |pages| ==> |pages[i]| == |wires[i]|
    decreases |wires|
  {
    if wires == [] then []
    else if wires[0] == [] then
      var pages := [[]] + PagesSent(cap, wires[1..]);
      assert forall i :: 0 < i < |wires| ==> wires[1..][i - 1] == wires[i];
      pages
    else
      var inside := |wires[0]| % cap;
      if inside == 0 then [wires[0]]
      else
        var pages := [wires[0]] + Replay(wires[0][|wires[0]| - inside..], cap, inside, wires[1..]);
        assert forall i :: 0 < i < |wires| ==> wires[1..][i - 1] == wires[i];
        pages
  }

  // ---------- drains by a willing kernel ----------

  lemma FrontOfFlat(d: Deque)
    requires Segmented(d) && d.chunks != []
    ensures d.chunks[0] == Front(Flat(d.chunks), d.cap)
  {
    assert Flat(d.chunks) == d.chunks[0] + Flat(d.chunks[1..]);
    if |d.chunks| == 1 {
      assert Flat(d.chunks[1..]) == [];
    }
  }

  lemma ContentsInFront(d: Deque, count: nat)
    requires Covered(d) && d.chunks != [] && count <= d.readable && d.reader + count <= d.cap
    ensures d.reader + count <= |d.chunks[0]|
    ensures Contents(d)[..count] == d.chunks[0][d.reader..d.reader + count]
    ensures d.readable <= |d.chunks[0]| - d.reader || |d.chunks[0]| == d.cap
  {
    var front, rest := d.chunks[0], Flat(d.chunks[1..]);
    assert Flat(d.chunks) == front + rest;
    if |d.chunks| == 1 {
      assert rest == [];
    }
    SliceOfFirst(front, rest, d.reader, d.readable, count);
  }

  /** Whatever a willing kernel is given by a drain that starts inside the front chunk is a window of it. */
  lemma {:induction false} DrainWindow(d: Deque, answers: seq<Answer>)
    requires Drainable(d) && d.chunks != [] && 0 < d.reader < d.cap && Willing(answers, d.cap, d.readable)
    ensures var front := d.chunks[0];
            && d.reader <= |front| <= d.cap && (d.readable <= |front| - d.reader || |front| == d.cap)
            && var w, r := Window(front, d.cap, d.reader, d.readable), Drain(d, answers);
               r.sent == w.0 && r.d == d.(reader := w.1, readable := 0) && r.ending == Finished
    decreases |answers|
  {
    hide *;
    CoveredReader(d);
    ContentsInFront(d, Min(d.readable, d.cap - d.reader));
    WindowUnfolds(d.chunks[0], d.cap, d.reader, d.readable);
    if d.readable == 0 {
      DrainDone(d, answers);
    } else {
      var count := Request(d);
      WillingWrite(d, answers);
      ContentsInFront(d, count);
      SkipStaysDrainable(d, count);
      SkipLag(d, count);
      DrainStep(d, answers);
      var e := SkipRead(d, count);
      assert e == d.(reader := count, readable := d.readable - count);
      DrainWindow(e, answers[1..]);
      if d.readable < d.cap - d.reader {
        WindowUnfolds(e.chunks[0], e.cap, e.reader, 0);
        assert d.chunks[0][d.reader..d.reader + count] + [] == d.chunks[0][d.reader..d.reader + count];
      }
    }
  }

  lemma CoveredReader(d: Deque)
    requires Drainable(d) && d.chunks != []
    ensures Covered(d) && d.reader <= |Flat(d.chunks)| && |d.chunks[0]| <= d.cap
    ensures d.reader < d.cap ==> d.reader <= |d.chunks[0]|
  {
    FrontOfFlat(d);
  }

  lemma WindowUnfolds(front: seq<byte>, cap: nat, reader: nat, readable: nat)
    requires 0 < reader < cap && reader <= |front| <= cap && (readable <= |front| - reader || |front| == cap)
    ensures readable == 0 ==> Window(front, cap, reader, readable) == ([], reader)
    ensures 0 < readable < cap - reader ==>
            Window(front, cap, reader, readable) == (front[reader..reader + readable], readable)
    ensures readable >= cap - reader ==>
            && |front| == cap && front[reader..] == front[reader..reader + (cap - reader)]
            && var rest := Window(front, cap, cap - reader, readable - (cap - reader));
               Window(front, cap, reader, readable) == (front[reader..] + rest.0, rest.1)
  {
  }

  /** A willing kernel takes the whole of a request, and stays willing. */
  lemma WillingWrite(d: Deque, answers: seq<Answer>)
    requires 0 < d.reader < d.cap && d.readable > 0 && Willing(answers, d.cap, d.readable)
    ensures More(d) && 0 < Request(d) <= d.readable && d.reader + Request(d) <= d.cap
    ensures Request(d) == if d.readable >= d.cap - d.reader then d.cap - d.reader else d.readable
    ensures answers != [] && answers[0].Accepts? && Min(answers[0].limit, Request(d)) == Request(d)
    ensures Willing(answers[1..], d.cap, d.readable - Request(d))
  {
  }

  lemma DrainDone(d: Deque, answers: seq<Answer>)
    requires Drainable(d) && d.readable == 0 && d.reader < d.cap
    ensures Drain(d, answers) == Drained(d, 0, [], Finished)
  {
  }

  /** A drain by a willing kernel that starts at a chunk's start sends everything. It keeps the last chunk,
      unless that one is full. */
  lemma {:induction false} DrainFromStart(d: Deque, answers: seq<Answer>)
    requires WF(d) && d.reader == 0 && 0 < Writer(d) && Willing(answers, d.cap, d.readable)
    ensures var r, last := Drain(d, answers), Last(d.chunks);
            && r.sent == Contents(d) && r.ending == Finished
            && r.d == if |last| < d.cap then Deque(d.cap, [last], |last|, 0) else Deque(d.cap, [], 0, 0)
    decreases |answers|
  {
    hide Flat, SkipRead, Contents, Drain;
    SomethingQueued(d);
    var count := Request(d);
    SkipStaysDrainable(d, count);
    SkipLag(d, count);
    QueueTheorems.SkipExact(d, count);
    DrainStep(d, answers);
    var e := SkipRead(d, count);
    assert e.readable == d.readable - count;
    if d.readable == count {
      SingleChunk(d);
      DrainDone(e, answers[1..]);
      assert Contents(d)[..count] + [] == Contents(d);
    } else {
      SomethingLeft(d);
      DrainFromStart(e, answers[1..]);
      assert Contents(d)[..count] + Contents(d)[count..] == Contents(d);
    }
  }

  lemma SomethingQueued(d: Deque)
    requires WF(d) && d.reader == 0 && 0 < Writer(d)
    ensures d.readable > 0 && More(d)
  {
    hide Flat;
    Accounting(d);
    assert (|d.chunks| - 1) * d.cap >= 0;
  }

  lemma SingleChunk(d: Deque)
    requires WF(d) && d.reader == 0 && 0 < Writer(d) && d.readable <= d.cap
    ensures |d.chunks| == 1 && |Last(d.chunks)| == d.readable
  {
    hide Flat;
    Accounting(d);
    NoneOrMore(|d.chunks| - 1, d.cap);
  }

  lemma SomethingLeft(d: Deque)
    requires WF(d) && d.reader == 0 && d.readable > d.cap
    ensures |d.chunks| > 1 && Last(d.chunks[1..]) == Last(d.chunks) && Request(d) == d.cap
  {
    hide Flat;
    Accounting(d);
  }

  // ---------- the session, exactly ----------

  lemma FlushedUnfolds(d: Deque, wires: seq<seq<byte>>, answers: seq<seq<Answer>>)
    requires Covered(d) && |answers| == |wires|
    ensures wires == [] || d.chunks == [] ==> Flushed(d, wires, answers) == []
    ensures wires != [] && d.chunks != [] ==>
            && Drainable(PutBulk(d, wires[0]))
            && var r := Drain(PutBulk(d, wires[0]), answers[0]);
               Covered(r.d) && Flushed(d, wires, answers) == [r.sent] + Flushed(r.d, wires[1..], answers[1..])
  {
    if wires != [] && d.chunks != [] {
      PutStaysDrainable(d, wires[0]);
    }
  }

  lemma NextWilling(answers: seq<seq<Answer>>, wires: seq<seq<byte>>, cap: nat)
    requires AllWilling(answers, wires, cap) && wires != []
    ensures Willing(answers[0], cap, |wires[0]|) && AllWilling(answers[1..], wires[1..], cap)
  {
    hide Willing;
  }

  /** Once the reader is inside the front chunk, the session replays that chunk. */
  lemma {:induction false} FlushedReplays(d: Deque, wires: seq<seq<byte>>, answers: seq<seq<Answer>>)
    requires Covered(d) && d.chunks != [] && 0 < d.reader < d.cap && d.readable == 0
    requires AllWilling(answers, wires, d.cap)
    ensures d.reader <= |Flat(d.chunks)|
    ensures Flushed(d, wires, answers) == Replay(Flat(d.chunks), d.cap, d.reader, wires)
    decreases |wires|
  {
    hide Flushed, Flat, PutBulk, Drain, Window, Front, Willing;
    FlushedUnfolds(d, wires, answers);
    if wires != [] {
      NextWilling(answers, wires, d.cap);
      PutStaysDrainable(d, wires[0]);
      PutBulkFlat(d, wires[0]);
      var e := PutBulk(d, wires[0]);
      FrontOfFlat(e);
      DrainWindow(e, answers[0]);
      FlushedReplays(Drain(e, answers[0]).d, wires[1..], answers[1..]);
    }
  }

  /** With a kernel that takes every request whole, the pages of a session from an empty buffer are these. */
  lemma {:induction false} FlushedExact(cap: nat, wires: seq<seq<byte>>, answers: seq<seq<Answer>>)
    requires cap >= 1 && AllWilling(answers, wires, cap)
    ensures Covered(Empty(cap)) && Flushed(Empty(cap), wires, answers) == PagesSent(cap, wires)
    decreases |wires|
  {
    hide Flushed, Flat, Drain, Replay, Willing, PutBulk, Contents;
    var d := Empty(cap);
    EmptyIsQueue(cap);
    FlushedUnfolds(d, wires, answers);
    if wires != [] && wires[0] == [] {
      NextWilling(answers, wires, cap);
      EmptyWire(cap, answers[0]);
      FlushedExact(cap, wires[1..], answers[1..]);
    } else if wires != [] {
      NextWilling(answers, wires, cap);
      FirstWire(cap, wires[0]);
      var e := PutBulk(d, wires[0]);
      DrainFromStart(e, answers[0]);
      var after := Drain(e, answers[0]).d;
      if |wires[0]| % cap == 0 {
        FlushedUnfolds(after, wires[1..], answers[1..]);
      } else {
        FlushedReplays(after, wires[1..], answers[1..]);
        FlatSingle(Last(e.chunks));
      }
    }
  }

  lemma EmptyIsQueue(cap: nat)
    requires cap >= 1
    ensures WF(Empty(cap)) && Contents(Empty(cap)) == []
  {
    FlatSingle([]);
  }

  lemma EmptyWire(cap: nat, answers: seq<Answer>)
    requires cap >= 1
    ensures PutBulk(Empty(cap), []) == Empty(cap) && Drainable(Empty(cap))
    ensures Drain(Empty(cap), answers) == Drained(Empty(cap), 0, [], Finished)
  {
    EmptyIsQueue(cap);
    DrainDone(Empty(cap), answers);
  }

  /** The writer buffer with its first packet in it. */
  lemma FirstWire(cap: nat, wire: seq<byte>)
    requires cap >= 1 && wire != []
    ensures var e := PutBulk(Empty(cap), wire);
            && WF(e) && e.cap == cap && e.reader == 0 && e.readable == |wire| && Contents(e) == wire && Writer(e) > 0
            && (Writer(e) == cap <==> |wire| % cap == 0)
            && (Writer(e) < cap ==> Writer(e) == |wire| % cap && Last(e.chunks) == wire[|wire| - |wire| % cap..])
  {
    hide Flat, PutAll;
    EmptyIsQueue(cap);
    PutAllAppends(Empty(cap), wire);
    QueueTheorems.PutAllShape(Empty(cap), wire);
    var e := PutBulk(Empty(cap), wire);
    PutAllFlat(Empty(cap), wire);
    assert Contents(Empty(cap)) + wire == wire;
    FlatIsWire(cap, wire);
    var w, n := Writer(e), |e.chunks| - 1;
    assert |wire| == n * cap + w;
    if w < cap {
      Quotient(|wire|, n, cap, w);
    } else {
      assert |wire| == (n + 1) * cap + 0;
      Quotient(|wire|, n + 1, cap, 0);
    }
    LastOfFlat(e);
  }

  lemma FlatIsWire(cap: nat, wire: seq<byte>)
    requires cap >= 1
    ensures Flat(Empty(cap).chunks) + wire == wire
  {
    FlatSingle([]);
  }

  lemma LastOfFlat(d: Deque)
    requires Segmented(d) && d.chunks != []
    ensures |Flat(d.chunks)| >= Writer(d) && Last(d.chunks) == Flat(d.chunks)[|Flat(d.chunks)| - Writer(d)..]
  {
    hide Flat;
    var front := d.chunks[..|d.chunks| - 1];
    assert d.chunks == front + [Last(d.chunks)];
    FlatSnoc(front, Last(d.chunks));
  }

  // ---------- sessions with any kernel ----------

  /** Whether a flush keeps its `readable` bytes in order, of which the wire just written has `wrote`, and
      where it then leaves the reader and how many bytes, told from the numbers and the kernel's answers. */
  predicate KeepsOrder(cap: nat, reader: nat, wrote: nat, readable: nat, answers: seq<Answer>)
    requires cap >= 1
  {
    var n := Whole(answers, cap);
    || Refuses(answers, 0) || (readable == 0 && reader < cap)
    || (reader == 0 && n * cap >= readable && (wrote == 0 || readable % cap != 0))
    || (reader == 0 && n * cap < readable
        && (Refuses(answers, n) || answers[n].limit >= readable - n * cap || Refuses(answers, n + 1)))
  }

  function AfterFlush(cap: nat, reader: nat, readable: nat, answers: seq<Answer>): (after: (nat, nat))
    requires cap >= 1
    ensures after.1 <= readable
  {
    var n := Whole(answers, cap);
    if Refuses(answers, 0) || (readable == 0 && reader < cap) then (reader, readable)
    else if n * cap >= readable then (readable % cap, 0)
    else if Refuses(answers, n) then (0, readable - n * cap)
    else
      var taken := Min(answers[n].limit, readable - n * cap);
      (taken, readable - n * cap - taken)
  }

  /** Whether every flush of a session keeps the bytes in order, told from the sizes of the packets' wires
      and the kernel's answers. */
  predicate KeepsAll(cap: nat, reader: nat, queued: nat, sizes: seq<nat>, answers: seq<seq<Answer>>)
    requires cap >= 1 && |answers| == |sizes|
    decreases |sizes|
  {
    sizes == []
    || (var readable := queued + sizes[0];
        var after := AfterFlush(cap, reader, readable, answers[0]);
        && KeepsOrder(cap, reader, sizes[0], readable, answers[0])
        && KeepsAll(cap, after.0, after.1, sizes[1..], answers[1..]))
  }

  /** At every flush, what it sends and what it leaves queued are what was queued, in order, and the writer
      buffer is still a queue. */
  ghost predicate InOrderThroughout(d: Deque, wires: seq<seq<byte>>, answers: seq<seq<Answer>>)
    requires WF(d) && |answers| == |wires|
    decreases |wires|
  {
    wires == []
    || (PutBulkAppends(d, wires[0]);
        PutStaysDrainable(d, wires[0]);
        var e := PutBulk(d, wires[0]);
        var r := Drain(e, answers[0]);
        InOrder(e, r) && InOrderThroughout(r.d, wires[1..], answers[1..]))
  }

  lemma WriterByNumbers(d: Deque)
    requires WF(d) && d.reader == 0 && Writer(d) > 0
    ensures Writer(d) < d.cap <==> d.readable % d.cap != 0
  {
    hide Flat;
    Accounting(d);
    var n := |d.chunks| - 1;
    if Writer(d) < d.cap {
      Quotient(d.readable, n, d.cap, Writer(d));
    } else {
      assert d.readable == (n + 1) * d.cap + 0;
      Quotient(d.readable, n + 1, d.cap, 0);
    }
  }

  lemma OrderByNumbers(d: Deque, wrote: nat, answers: seq<Answer>)
    requires WF(d) && if wrote == 0 then Writer(d) < d.cap else Writer(d) > 0
    ensures WritesInOrder(d, answers) <==> KeepsOrder(d.cap, d.reader, wrote, d.readable, answers)
  {
    hide Flat, Writer, Whole;
    if d.reader == 0 && wrote > 0 {
      WriterByNumbers(d);
    }
  }

  lemma NumbersStep(d: Deque, e: Deque, answers: seq<Answer>)
    requires d.cap >= 1 && e.cap == d.cap && answers != [] && answers[0].Accepts? && d.reader == 0 < d.readable
    requires var whole := Min(answers[0].limit, d.readable) >= d.cap;
             && e.reader == (if whole then 0 else Min(answers[0].limit, d.readable))
             && e.reader + e.readable == (if whole then d.readable - d.cap else d.readable)
    requires WritesInOrderAfter(e, answers[1..])
    ensures AfterFlush(d.cap, d.reader, d.readable, answers) == AfterFlush(e.cap, e.reader, e.readable, answers[1..])
  {
    if Min(answers[0].limit, d.readable) >= d.cap {
      NumbersWhole(d.cap, d.readable, answers);
    } else {
      NumbersPart(d.cap, d.readable, answers);
    }
  }

  lemma NumbersWhole(cap: nat, readable: nat, answers: seq<Answer>)
    requires 1 <= cap <= readable && answers != [] && answers[0].Accepts? && answers[0].limit >= cap
    ensures AfterFlush(cap, 0, readable, answers) == AfterFlush(cap, 0, readable - cap, answers[1..])
  {
    var rest := answers[1..];
    var n := Whole(rest, cap);
    assert Whole(answers, cap) == n + 1 && (n + 1) * cap == n * cap + cap;
    assert |answers| > n + 1 ==> rest[n] == answers[n + 1];
    ModAfterOne(readable, cap);
    hide Whole;
    assert n == 0 ==> n * cap == 0;
  }

  lemma NumbersPart(cap: nat, readable: nat, answers: seq<Answer>)
    requires cap >= 1 && 0 < readable && answers != [] && answers[0].Accepts?
    requires Min(answers[0].limit, readable) < cap
    ensures AfterFlush(cap, 0, readable, answers)
            == (Min(answers[0].limit, readable), readable - Min(answers[0].limit, readable))
  {
    var n := Whole(answers, cap);
    if answers[0].limit >= cap {
      assert n >= 1;
      NoneOrMore(n, cap);
      Quotient(readable, 0, cap, readable);
      hide Whole;
    } else {
      assert n == 0;
    }
  }

  /** From inside a chunk, only a drain that sends nothing can be in order. */
  predicate WritesInOrderAfter(e: Deque, answers: seq<Answer>) {
    e.reader == 0 || SendsNothing(e, answers)
  }

  lemma ModAfterOne(x: nat, cap: nat)
    requires 0 < cap <= x
    ensures x % cap == (x - cap) % cap
    ensures x == cap ==> x % cap == 0
  {
    var q, r := (x - cap) / cap, (x - cap) % cap;
    assert x == (q + 1) * cap + r;
    Quotient(x, q + 1, cap, r);
  }

  /** A drain that keeps the order leaves the reader and the bytes where the numbers say. */
  lemma {:induction false} OrderlyDrain(d: Deque, answers: seq<Answer>)
    requires WF(d) && WritesInOrder(d, answers)
    ensures Drainable(d)
    ensures var e, after := Drain(d, answers).d, AfterFlush(d.cap, d.reader, d.readable, answers);
            && WF(e) && e.reader == after.0 && e.readable == after.1 && e.cap == d.cap && Writer(e) == Writer(d)
    decreases |answers|
  {
    hide *;
    QueueIsDrainable(d);
    DrainStep(d, answers);
    SendingMeans(d, answers);
    if More(d) && answers != [] && answers[0].Accepts? {
      var count := Min(answers[0].limit, Request(d));
      var e, rest := SkipRead(d, count), answers[1..];
      FirstWriteUnsound(d, answers);
      OneWriteOnOrder(d, answers);
      SoundWrite(d, answers);
      SendingMeans(e, rest);
      NumbersStep(d, e, answers);
      OrderlyDrain(e, rest);
    }
  }

  lemma SendingMeans(d: Deque, answers: seq<Answer>)
    requires WF(d) && WritesInOrder(d, answers)
    ensures d.reader <= d.cap && d.chunks != []
    ensures WritesInOrderAfter(d, answers)
    ensures !(More(d) && answers != [] && answers[0].Accepts?) ==>
            AfterFlush(d.cap, d.reader, d.readable, answers) == (d.reader, d.readable)
    ensures More(d) && answers != [] && answers[0].Accepts? ==> d.reader == 0 < d.readable
  {
    hide Writer, Whole;
  }

  lemma SoundWrite(d: Deque, answers: seq<Answer>)
    requires WF(d) && More(d) && answers != [] && answers[0].Accepts? && d.reader == 0 < d.readable
    requires WF(SkipRead(d, Min(answers[0].limit, Request(d)))) && Min(answers[0].limit, Request(d)) <= d.readable
    ensures var e := SkipRead(d, Min(answers[0].limit, Request(d)));
            && e.cap == d.cap && Writer(e) == Writer(d)
            && e.reader == (if Min(answers[0].limit, d.readable) >= d.cap then 0 else Min(answers[0].limit, d.readable))
            && e.reader + e.readable
               == (if Min(answers[0].limit, d.readable) >= d.cap then d.readable - d.cap else d.readable)
  {
    hide Flat, SkipRead, Segmented, Contents;
    var count := Min(answers[0].limit, Request(d));
    SkipStaysDrainable(d, count);
    SkipLag(d, count);
  }

  /** A session with any kernel keeps everything in order throughout if and only if the sizes of the wires and
      the answers say so beforehand. */
  lemma {:induction false} SessionOrderExact(d: Deque, wires: seq<seq<byte>>, answers: seq<seq<Answer>>)
    requires WF(d) && |answers| == |wires|
    ensures InOrderThroughout(d, wires, answers)
            <==> KeepsAll(d.cap, d.reader, d.readable, Lengths(wires), answers)
    decreases |wires|
  {
    hide *;
    ThroughoutUnfolds(d, wires, answers);
    KeepsUnfolds(d.cap, d.reader, d.readable, wires, answers);
    if wires != [] {
      var e := PutBulk(d, wires[0]);
      PutBulkAppends(d, wires[0]);
      PutOnQueue(d, wires[0]);
      QueueIsDrainable(e);
      OrderByNumbers(e, |wires[0]|, answers[0]);
      DrainExact(e, answers[0]);
      if WritesInOrder(e, answers[0]) {
        OrderlyDrain(e, answers[0]);
        SessionOrderExact(Drain(e, answers[0]).d, wires[1..], answers[1..]);
      }
    }
  }

  lemma PutOnQueue(d: Deque, wire: seq<byte>)
    requires WF(d)
    ensures var e := PutBulk(d, wire);
            && e.reader == d.reader && e.readable == d.readable + |wire| && e.cap == d.cap
            && e.chunks != [] && if wire == [] then Writer(e) < e.cap else Writer(e) > 0
  {
    hide PutAll, Flat;
    if wire == [] {
      RefreshWriterFlat(d);
    } else {
      PutAllFlat(d, wire);
      QueueTheorems.PutAllShape(d, wire);
    }
  }

  lemma ThroughoutUnfolds(d: Deque, wires: seq<seq<byte>>, answers: seq<seq<Answer>>)
    requires WF(d) && |answers| == |wires|
    ensures wires == [] ==> InOrderThroughout(d, wires, answers)
    ensures wires != [] ==>
            var e := PutBulk(d, wires[0]);
            && WF(e) && Drainable(e) && Covered(Drain(e, answers[0]).d)
            && (InOrder(e, Drain(e, answers[0])) ==> WF(Drain(e, answers[0]).d))
            && (InOrderThroughout(d, wires, answers)
                <==> InOrder(e, Drain(e, answers[0]))
                     && InOrderThroughout(Drain(e, answers[0]).d, wires[1..], answers[1..]))
  {
    if wires != [] {
      PutBulkAppends(d, wires[0]);
      PutStaysDrainable(d, wires[0]);
    }
  }

  lemma KeepsUnfolds(cap: nat, reader: nat, queued: nat, wires: seq<seq<byte>>, answers: seq<seq<Answer>>)
    requires cap >= 1 && |answers| == |wires|
    ensures wires == [] ==> KeepsAll(cap, reader, queued, Lengths(wires), answers)
    ensures wires != [] ==>
            var readable := queued + |wires[0]|;
            var after := AfterFlush(cap, reader, readable, answers[0]);
            KeepsAll(cap, reader, queued, Lengths(wires), answers)
            <==> KeepsOrder(cap, reader, |wires[0]|, readable, answers[0])
                 && KeepsAll(cap, after.0, after.1, Lengths(wires[1..]), answers[1..])
  {
    if wires != [] {
      assert Lengths(wires)[1..] == Lengths(wires[1..]);
    }
  }

  // ---------- when a session delivers ----------

  /** Packets through a sender's pipes: each is encoded on its way and leaves every pipe as it was. */
  predicate AllSent(senders: seq<Pipe>, payloads: seq<seq<seq<byte>>>, frames: seq<seq<byte>>,
                    packets: seq<seq<byte>>) {
    && |payloads| == |packets| == |frames|
    && forall i :: 0 <= i < |packets| ==>
         Sends(senders, payloads[i]) && frames[i] == payloads[i][0] && packets[i] == payloads[i][|senders|]
  }

  /** The bytes a connection puts into its writer buffer for a run of packets, one after the other. */
  function SentWires(senders: seq<Pipe>, packets: seq<seq<byte>>): (wires: seq<seq<byte>>)
    ensures |wires| == |packets|
    decreases |packets|
  {
    if packets == [] then []
    else
      var f := WriteFold(senders, Prefixed(packets[0]));
      [WriterEnd(f)] + SentWires(AfterWire(f.pipes), packets[1..])
  }

  lemma {:induction false} SentWiresAre(senders: seq<Pipe>, payloads: seq<seq<seq<byte>>>, frames: seq<seq<byte>>,
                                        packets: seq<seq<byte>>)
    requires AllSent(senders, payloads, frames, packets)
    ensures SentWires(senders, packets) == Wires(frames)
    decreases |packets|
  {
    hide WriteFold, Sends, Prefixed;
    if packets != [] {
      assert Sends(senders, payloads[0]);
      WriteFoldSends(senders, payloads[0]);
      SentWiresAre(senders, payloads[1..], frames[1..], packets[1..]);
    }
  }

  /** A session of packets through pipelines of any length and a real writer buffer, by a kernel that takes
      every request whole: the socket gets the pages that are cut out of the buffer, and if these are the
      packets' wires, the peer hands on exactly the packets. Each flush is taken to reach it as one page. */
  lemma SessionDelivers(senders: seq<Pipe>, receivers: seq<Pipe>, payloads: seq<seq<seq<byte>>>,
                        frames: seq<seq<byte>>, packets: seq<seq<byte>>, cap: nat, answers: seq<seq<Answer>>,
                        max: uint32)
    requires AllSent(senders, payloads, frames, packets) && AllReceived(receivers, payloads, frames, packets, max)
    requires cap >= 1 && AllWilling(answers, Wires(frames), cap)
    ensures SentWires(senders, packets) == Wires(frames) && Covered(Empty(cap))
    ensures var pages := Flushed(Empty(cap), Wires(frames), answers);
            && pages == PagesSent(cap, Wires(frames))
            && (pages == Wires(frames) ==> HandedOn(Receiver(receivers, [], 0), pages, max) == packets)
  {
    hide *;
    SentWiresAre(senders, payloads, frames, packets);
    FlushedExact(cap, Wires(frames), answers);
    IntactPagesDeliver(receivers, payloads, frames, packets, max);
  }

  /** Between connections without pipes, exactly: the session delivers its packets if and only if every one
      of them has a page, which fails only when more packets follow a first wire that ends a chunk, and every
      page reads as its packet. Each flush is taken to reach the peer as one page. */
  lemma PlainSessionExact(packets: seq<seq<byte>>, cap: nat, answers: seq<seq<Answer>>, max: uint32)
    requires cap >= 1 && AllWilling(answers, Wires(packets), cap)
    requires forall i :: 0 <= i < |packets| ==> 0 < |packets[i]| <= max
    ensures Covered(Empty(cap))
    ensures var pages := PagesSent(cap, Wires(packets));
            && (|pages| == |packets| <==> |packets| <= 1 || |Wires(packets)[0]| % cap != 0)
            && (HandedOn(Receiver([], [], 0), Flushed(Empty(cap), Wires(packets), answers), max) == packets
                <==> |pages| == |packets| && forall i :: 0 <= i < |pages| ==> ReadsAs(pages[i], packets[i], max))
  {
    hide ReadsAs, HandedOn, Flushed, AllWilling, Replay, Prefixed;
    FlushedExact(cap, Wires(packets), answers);
    PagesDeliverExact(PagesSent(cap, Wires(packets)), packets, max);
  }

  // ---------- sessions inside one chunk ----------

  /** A page that is cut out of a stream at a place. */
  predicate CutAt(all: seq<byte>, from: nat, page: seq<byte>) {
    from + |page| <= |all| && page == all[from..from + |page|]
  }

  /** Where the `i`th page is cut: at the reader, and then always at the length of the packet before. */
  function Place(reader: nat, wires: seq<seq<byte>>, i: nat): nat
    requires i < |wires|
  {
    if i == 0 then reader else |wires[i - 1]|
  }

  lemma WindowInside(more: seq<byte>, cap: nat, reader: nat, n: nat)
    requires 0 < reader && 0 < n && reader + n <= |more| < cap
    ensures Window(Front(more, cap), cap, reader, n) == (more[reader..reader + n], n)
  {
    assert Front(more, cap) == more;
  }

  lemma ReplayUnfolds(memory: seq<byte>, cap: nat, reader: nat, wires: seq<seq<byte>>)
    requires 0 < reader <= |memory| && wires != [] && wires[0] != [] && |memory + wires[0]| < cap
    ensures var more, n := memory + wires[0], |wires[0]|;
            Replay(memory, cap, reader, wires) == [more[reader..reader + n]] + Replay(more, cap, n, wires[1..])
  {
    WindowInside(memory + wires[0], cap, reader, |wires[0]|);
  }

  lemma CutInside(all: seq<byte>, more: seq<byte>, reader: nat, n: nat)
    requires more <= all && reader + n <= |more|
    ensures CutAt(all, reader, more[reader..reader + n])
  {
  }

  lemma ConcatUnfolds(wires: seq<seq<byte>>)
    requires wires != []
    ensures Concat(wires) == wires[0] + Concat(wires[1..])
  {
  }

  /** While everything fits into one chunk, each replayed page starts at the length of the packet before it,
      wherever its own packet lies. */
  lemma {:induction false} ReplayInOneChunk(memory: seq<byte>, cap: nat, reader: nat, wires: seq<seq<byte>>)
    requires 0 < reader <= |memory| && |memory + Concat(wires)| < cap
    requires forall i :: 0 <= i < |wires| ==> wires[i] != []
    ensures forall i :: 0 <= i < |wires| ==>
              CutAt(memory + Concat(wires), Place(reader, wires, i), Replay(memory, cap, reader, wires)[i])
    decreases |wires|
  {
    hide *;
    if wires != [] {
      var first, rest := wires[0], wires[1..];
      var more, all := memory + first, memory + Concat(wires);
      ConcatUnfolds(wires);
      JoinAssociates(memory, first, Concat(rest));
      ReplayUnfolds(memory, cap, reader, wires);
      CutInside(all, more, reader, |first|);
      ReplayInOneChunk(more, cap, |first|, rest);
      forall i | 0 <= i < |wires|
        ensures CutAt(all, Place(reader, wires, i), Replay(memory, cap, reader, wires)[i])
      {
        PlaceInRest(reader, wires, i);
      }
    }
  }

  lemma PlaceInRest(reader: nat, wires: seq<seq<byte>>, i: nat)
    requires i < |wires|
    ensures i == 0 ==> Place(reader, wires, i) == reader
    ensures i > 0 ==> Place(reader, wires, i) == |wires[i - 1]| == Place(|wires[0]|, wires[1..], i - 1)
  {
  }

  /** In a session that fits into one chunk, every page but the first starts at the length of the packet
      before it. That is the right place for the second page only. */
  lemma OneChunkSession(cap: nat, wires: seq<seq<byte>>)
    requires |Concat(wires)| < cap && forall i :: 0 <= i < |wires| ==> wires[i] != []
    ensures var pages := PagesSent(cap, wires);
            && |pages| == |wires| && (wires != [] ==> pages[0] == wires[0])
            && (|wires| > 1 ==> pages[1] == wires[1])
            && forall i :: 0 < i < |wires| ==> CutAt(Concat(wires), |wires[i - 1]|, pages[i])
  {
    hide Replay, Concat, CutAt;
    if wires != [] {
      var first, rest := wires[0], wires[1..];
      var n := |first|;
      ConcatUnfolds(wires);
      Quotient(n, 0, cap, n);
      assert first[n - n..] == first;
      var pages := PagesSent(cap, wires);
      assert pages == [first] + Replay(first, cap, n, rest);
      ReplayInOneChunk(first, cap, n, rest);
      forall i | 0 < i < |wires|
        ensures CutAt(Concat(wires), |wires[i - 1]|, pages[i])
      {
        PlaceInRest(0, wires, i);
      }
      if rest != [] {
        ConcatUnfolds(rest);
        SecondPage(first, rest[0], Concat(rest[1..]), pages[1]);
      }
    }
  }

  lemma SecondPage(first: seq<byte>, second: seq<byte>, tail: seq<byte>, page: seq<byte>)
    requires CutAt(first + (second + tail), |first|, page) && |page| == |second|
    ensures page == second
  {
  }

  /** The third flush goes wrong: of the packets A, BC and D, flushed one by one, the third never arrives,
      because BC's bytes are sent again in its place. */
  lemma ThirdFlushGoesWrong(answers: seq<seq<Answer>>, max: uint32)
    requires AllWilling(answers, Wires([[65], [66, 67], [68]]), 8) && max >= 2
    ensures var packets := [[65], [66, 67], [68]];
            var pages := Flushed(Empty(8), Wires(packets), answers);
            && Covered(Empty(8)) && pages == [[1, 65], [2, 66, 67], [66, 67]]
            && HandedOn(Receiver([], [], 0), pages, max) != packets
  {
    hide *;
    var packets: seq<seq<byte>> := [[65], [66, 67], [68]];
    var wires := Wires(packets);
    SmallWires();
    ConcatThree([1, 65], [2, 66, 67], [1, 68]);
    OneChunkSession(8, wires);
    FlushedExact(8, wires, answers);
    PlainSessionExact(packets, 8, answers, max);
    var pages := PagesSent(8, wires);
    assert [1, 65] + [2, 66, 67] + [1, 68] == [1, 65, 2, 66, 67, 1, 68];
    assert CutAt(Concat(wires), |wires[2 - 1]|, pages[2]);
    ThirdPage(pages[2]);
    assert pages == [pages[0], pages[1], pages[2]];
    NotThePacket(max);
  }

  lemma ThirdPage(page: seq<byte>)
    requires CutAt([1, 65, 2, 66, 67, 1, 68], 3, page) && |page| == 2
    ensures page == [66, 67]
  {
  }

  lemma SmallWires()
    ensures Wires([[65], [66, 67], [68]]) == [[1, 65], [2, 66, 67], [1, 68]]
  {
    hide Prefixed;
    var packets: seq<seq<byte>> := [[65], [66, 67], [68]];
    assert packets[1..] == [[66, 67], [68]] && packets[1..][1..] == [[68]] && packets[1..][1..][1..] == [];
    SmallPrefix([65]);
    SmallPrefix([66, 67]);
    SmallPrefix([68]);
    assert [1] + [65] == [1, 65] && [2] + [66, 67] == [2, 66, 67] && [1] + [68] == [1, 68];
    assert Wires(packets) == [Prefixed([65])] + ([Prefixed([66, 67])] + ([Prefixed([68])] + []));
  }

  lemma SmallPrefix(frame: seq<byte>)
    requires |frame| < 128
    ensures Prefixed(frame) == [|frame|] + frame
  {
  }

  lemma ConcatThree(a: seq<byte>, b: seq<byte>, c: seq<byte>)
    ensures Concat([a, b, c]) == a + b + c
  {
    assert [a, b, c][1..] == [b, c] && [b, c][1..] == [c] && [c][1..] == [];
    assert Concat([c]) == c + [] == c;
    assert a + (b + c) == a + b + c;
  }

  lemma NotThePacket(max: uint32)
    ensures !ReadsAs([66, 67], [68], max)
  {
    assert [66, 67][1..] == [67];
    VarInts.DecodeValue([66, 67], 5, 0x1_0000_0000, 0);
  }
}
