/** Draining the segmented buffer into a socket that accepts as much of each write as it likes. */
module Draining {
  import opened Words
  import opened ChunkedQueue
  import QueueTheorems

  type pos = n: nat | n >= 1 witness 1

  /** The kernel's answer to one write: it takes at least one byte of a non-empty request and at most
      `limit`; or the peer has reset the connection; or the call fails otherwise. */
  datatype Answer = Accepts(limit: pos) | Reset | Fails(errno: nat)

  /** How a drain ends. */
  datatype Ending = Finished | PeerReset | Failed(errno: nat)

  /** What a drain leaves: the buffer, the number of answers used, the bytes handed to the kernel. */
  datatype Drained = Drained(d: Deque, writes: nat, sent: seq<byte>, ending: Ending)

  /** EAGAIN, which a kernel out of prepared answers keeps giving. */
  const EAGAIN: nat := 11

  /** Whether the loops make another write: a whole rest of a chunk is readable, or anything is. */
  predicate More(d: Deque)
    requires d.reader <= d.cap
  {
    d.readable >= d.cap - d.reader || d.readable != 0
  }

  /** How many bytes the next write asks for, all of them in the front chunk. */
  function Request(d: Deque): nat
    requires d.reader <= d.cap
  {
    if d.readable >= d.cap - d.reader then d.cap - d.reader else d.readable
  }

  /** A buffer the drain can work on without leaving its chunks. */
  ghost predicate Drainable(d: Deque)
    ensures Drainable(d) ==> Covered(d)
  {
    Covered(d) && (d.chunks == [] ==> d.readable == 0)
  }

  /** The drain as written, with the buffer's own skip. */
  ghost function Drain(d: Deque, answers: seq<Answer>): (r: Drained)
    requires Drainable(d)
    ensures Drainable(r.d)
    decreases |answers|
  {
    if !More(d) then Drained(d, 0, [], Finished)
    else if answers == [] then Drained(d, 0, [], Failed(EAGAIN))
    else match answers[0]
      case Reset => Drained(d, 0, [], PeerReset)
      case Fails(errno) => Drained(d, 0, [], Failed(errno))
      case Accepts(limit) =>
        var count := Min(limit, Request(d));
        SkipStaysDrainable(d, count);
        var rest := Drain(SkipRead(d, count), answers[1..]);
        Drained(rest.d, rest.writes + 1, Contents(d)[..count] + rest.sent, rest.ending)
  }

  lemma SkipStaysDrainable(d: Deque, count: nat)
    requires Drainable(d) && count <= d.readable && More(d)
    ensures d.chunks != [] && Drainable(SkipRead(d, count))
    ensures SkipRead(d, count).readable == d.readable - count && SkipRead(d, count).cap == d.cap
  {
    SkipReadStaysCovered(d, count);
  }

  // ---------- when the bytes arrive ----------

  /** What a drain is for: the bytes sent and those still queued are the original ones, in order, and
      the buffer is still a queue. */
  ghost predicate InOrder(d: Deque, r: Drained)
    requires Drainable(d) && Covered(r.d)
  {
    WF(r.d) && r.sent + Contents(r.d) == Contents(d)
  }

  /** Whatever the skips did to the order, the counts add up, and finishing means nothing is readable. */
  lemma {:induction false} DrainCounts(d: Deque, answers: seq<Answer>)
    requires Drainable(d)
    ensures var r := Drain(d, answers);
            && Drainable(r.d) && |r.sent| + r.d.readable == d.readable
            && r.writes <= |answers|
            && (forall i :: 0 <= i < r.writes ==> answers[i].Accepts?)
            && (r.ending == Finished ==> r.d.readable == 0)
            && r.d.cap == d.cap
    decreases |answers|
  {
    if More(d) && answers != [] && answers[0].Accepts? {
      var count := Min(answers[0].limit, Request(d));
      SkipStaysDrainable(d, count);
      DrainCounts(SkipRead(d, count), answers[1..]);
    }
  }

  /** How a drain ends is told from the answer it was left with when it stopped, if it still wanted to write:
      a reset, a failure, or none any more. */
  lemma {:induction false} DrainEnding(d: Deque, answers: seq<Answer>)
    requires Drainable(d)
    ensures var r := Drain(d, answers);
            var wants := r.d.readable > 0 || r.d.reader >= r.d.cap;
            && r.writes <= |answers| && d.reader <= d.cap
            && (wants && r.writes < |answers| ==> !answers[r.writes].Accepts?)
            && r.ending == if !wants then Finished
                           else if r.writes == |answers| then Failed(11)
                           else match answers[r.writes]
                                case Accepts(_) => Finished
                                case Reset => PeerReset
                                case Fails(errno) => Failed(errno)
    decreases |answers|
  {
    if More(d) && answers != [] && answers[0].Accepts? {
      var count := Min(answers[0].limit, Request(d));
      SkipStaysDrainable(d, count);
      DrainEnding(SkipRead(d, count), answers[1..]);
    }
  }

  /** How far the reader lags behind the place where the readable bytes begin. */
  ghost function Lag(d: Deque): int {
    |Flat(d.chunks)| - d.reader - d.readable
  }

  /** A skip within a chunk never makes up for a lag: it adds the offset it should have kept. */
  lemma SkipLag(d: Deque, count: nat)
    requires Drainable(d) && d.chunks != [] && count <= d.readable && count <= d.cap - d.reader
    ensures Lag(SkipRead(d, count)) == Lag(d) + d.reader
    ensures SkipRead(d, count).reader == (if count == d.cap then 0 else count)
    ensures SkipRead(d, count).chunks == (if count == d.cap then d.chunks[1..] else d.chunks)
  {
    var e := d.(readable := d.readable - count);
    assert SkipLoop(e, count) == RefreshReader(e.(reader := count));
    if count == d.cap {
      assert Flat(d.chunks) == d.chunks[0] + Flat(d.chunks[1..]);
      FrontIsFull(d);
    }
  }

  lemma FrontIsFull(d: Deque)
    requires Covered(d) && d.chunks != [] && d.readable >= d.cap
    ensures |d.chunks[0]| == d.cap
  {
    if |d.chunks| == 1 {
      assert Flat(d.chunks) == d.chunks[0] + Flat(d.chunks[1..]) && Flat(d.chunks[1..]) == [];
    }
  }

  /** Once the buffer is no longer a queue, no further draining makes it one. */
  lemma {:induction false} DrainNeverRecovers(d: Deque, answers: seq<Answer>)
    requires Drainable(d) && (Lag(d) > 0 || d.chunks == [])
    ensures !WF(Drain(d, answers).d)
    decreases |answers|
  {
    if More(d) && answers != [] && answers[0].Accepts? {
      var count := Min(answers[0].limit, Request(d));
      SkipStaysDrainable(d, count);
      SkipLag(d, count);
      DrainNeverRecovers(SkipRead(d, count), answers[1..]);
    }
  }

  // ---------- what can be told before a drain ----------

  /** How many answers in front take a whole chunk. */
  function Whole(answers: seq<Answer>, cap: nat): (n: nat)
    ensures n <= |answers|
    ensures forall i :: 0 <= i < n ==> answers[i].Accepts? && answers[i].limit >= cap
    ensures n < |answers| && answers[n].Accepts? ==> answers[n].limit < cap
  {
    if answers == [] || !answers[0].Accepts? || answers[0].limit < cap then 0 else 1 + Whole(answers[1..], cap)
  }

  /** The kernel takes nothing at the `i`th write: it refuses, or has no answer left. */
  predicate Refuses(answers: seq<Answer>, i: nat) {
    i >= |answers| || !answers[i].Accepts?
  }

  /** No write happens, or only a refused one. */
  predicate SendsNothing(d: Deque, answers: seq<Answer>) {
    Refuses(answers, 0) || (d.readable == 0 && d.reader < d.cap)
  }

  /** Which drains keep the order, by the buffer and the answers it will get: those that send nothing; and
      from a reader at its chunk's start, those that meet whole answers for everything, the last chunk not
      being full, and those whose first answer that is not whole is a refusal, takes all that is left, or
      is the last that takes anything. */
  predicate WritesInOrder(d: Deque, answers: seq<Answer>)
    requires d.chunks != []
  {
    var n := Whole(answers, d.cap);
    || SendsNothing(d, answers)
    || (d.reader == 0 && n * d.cap >= d.readable && Writer(d) < d.cap)
    || (d.reader == 0 && n * d.cap < d.readable
        && (Refuses(answers, n) || answers[n].limit >= d.readable - n * d.cap || Refuses(answers, n + 1)))
  }

  lemma OneWriteOnBytes(c: seq<byte>, k: nat, sent: seq<byte>, left: seq<byte>)
    requires k <= |c|
    ensures c[..k] + sent + left == c <==> sent + left == c[k..]
  {
    assert c == c[..k] + c[k..];
    assert c[..k] + sent + left == c[..k] + (sent + left);
    if c[..k] + sent + left == c {
      assert (c[..k] + (sent + left))[k..] == sent + left;
    }
  }

  /** After a sound first write, the drain keeps the order exactly when the rest of it does. */
  lemma OneWriteOnOrder(d: Deque, answers: seq<Answer>)
    requires WF(d) && More(d) && answers != [] && answers[0].Accepts?
    requires var count := Min(answers[0].limit, Request(d));
             count <= d.readable && WF(SkipRead(d, count))
    ensures WritesInOrder(d, answers)
            <==> WritesInOrder(SkipRead(d, Min(answers[0].limit, Request(d))), answers[1..])
  {
    hide Flat, SkipRead, Segmented;
    var count := Min(answers[0].limit, Request(d));
    var e := SkipRead(d, count);
    SkipStaysDrainable(d, count);
    SkipLag(d, count);
    QueueTheorems.SkipExact(d, count);
    ShortQueue(d);
    hide *;
    assert Writer(e) == Writer(d);
    if answers[0].limit >= d.cap {
      WholeFirst(d, e, answers);
    } else {
      PartFirst(d, e, answers);
    }
  }

  lemma ShortQueue(d: Deque)
    requires WF(d)
    ensures Writer(d) <= d.cap && (d.reader == 0 && d.readable < d.cap ==> Writer(d) < d.cap)
  {
    hide Flat;
    Accounting(d);
    NoneOrMore(|d.chunks| - 1, d.cap);
  }

  lemma NoneOrMore(n: nat, cap: nat)
    ensures n == 0 ==> n * cap == 0
    ensures n >= 1 ==> n * cap >= cap
  {
    if n >= 1 {
      assert (n - 1) * cap >= 0;
    }
  }

  lemma PartFirst(d: Deque, e: Deque, answers: seq<Answer>)
    requires answers != [] && answers[0].Accepts? && answers[0].limit < d.cap == e.cap && d.reader == 0 < d.readable
    requires d.chunks != [] && e.chunks != [] && Writer(e) == Writer(d)
    requires e.reader == Min(answers[0].limit, d.readable) && e.readable == d.readable - e.reader
    ensures WritesInOrder(d, answers) <==> WritesInOrder(e, answers[1..])
  {
    hide Writer;
    assert Whole(answers, d.cap) == 0;
  }

  lemma WholeFirst(d: Deque, e: Deque, answers: seq<Answer>)
    requires answers != [] && answers[0].Accepts? && answers[0].limit >= d.cap >= 1 && e.cap == d.cap && d.reader == 0
    requires d.chunks != [] && e.chunks != [] && Writer(e) == Writer(d) <= d.cap
    requires if d.readable >= d.cap then e.reader == 0 && e.readable == d.readable - d.cap
             else 0 < d.readable == e.reader && e.readable == 0 && Writer(d) < d.cap
    requires e.readable == 0 ==> Writer(d) < d.cap
    ensures WritesInOrder(d, answers) <==> WritesInOrder(e, answers[1..])
  {
    hide Writer;
    var rest := answers[1..];
    var n := Whole(rest, d.cap);
    assert Whole(answers, d.cap) == n + 1 && (n + 1) * d.cap == n * d.cap + d.cap;
    assert |answers| > n + 1 ==> rest[n] == answers[n + 1];
    assert |answers| > n + 2 ==> rest[n + 1] == answers[n + 2];
  }

  /** What a drain does first. */
  lemma DrainStep(d: Deque, answers: seq<Answer>)
    requires Drainable(d)
    ensures !(More(d) && answers != [] && answers[0].Accepts?) ==>
            Drain(d, answers).d == d && Drain(d, answers).writes == 0 && Drain(d, answers).sent == []
    ensures More(d) && answers != [] && answers[0].Accepts? ==>
            var count := Min(answers[0].limit, Request(d));
            && count <= d.readable && d.chunks != [] && Drainable(SkipRead(d, count))
            && var rest := Drain(SkipRead(d, count), answers[1..]);
               Drain(d, answers) == Drained(rest.d, rest.writes + 1, Contents(d)[..count] + rest.sent, rest.ending)
  {
    if More(d) && answers != [] && answers[0].Accepts? {
      SkipStaysDrainable(d, Min(answers[0].limit, Request(d)));
    }
  }

  /** An unsound first write leaves the buffer out of order for good, and could be told beforehand. */
  lemma FirstWriteUnsound(d: Deque, answers: seq<Answer>)
    requires WF(d) && More(d) && answers != [] && answers[0].Accepts?
    requires Min(answers[0].limit, Request(d)) <= d.readable
    ensures var e := SkipRead(d, Min(answers[0].limit, Request(d)));
            !WF(e) && Drainable(e) ==> !WF(Drain(e, answers[1..]).d) && !WritesInOrder(d, answers)
  {
    hide Drain, SkipRead, Flat, Segmented;
    var count := Min(answers[0].limit, Request(d));
    var e := SkipRead(d, count);
    SkipStaysDrainable(d, count);
    SkipLag(d, count);
    QueueTheorems.SkipExact(d, count);
    Accounting(d);
    if !WF(e) {
      if d.reader > 0 || e.chunks == [] {
        DrainNeverRecovers(e, answers[1..]);
      }
    }
  }

  lemma OrderMeans(d: Deque, answers: seq<Answer>, r: Drained)
    requires Drainable(d) && Covered(r.d)
    ensures InOrder(d, r) <==> WF(r.d) && r.sent + Contents(r.d) == Contents(d)
    ensures d.chunks != [] && !(More(d) && answers != [] && answers[0].Accepts?) ==> WritesInOrder(d, answers)
    ensures [] + Contents(d) == Contents(d)
  {
  }

  /** The drain keeps the bytes in order exactly when the buffer and the answers say so beforehand; and it
      leaves a queue only when it has kept them in order. */
  lemma {:induction false} DrainExact(d: Deque, answers: seq<Answer>)
    requires WF(d)
    ensures var r := Drain(d, answers);
            && Covered(r.d) && (InOrder(d, r) <==> WritesInOrder(d, answers)) && (InOrder(d, r) <==> WF(r.d))
    decreases |answers|
  {
    hide *;
    QueueIsDrainable(d);
    DrainCounts(d, answers);
    DrainStep(d, answers);
    var r := Drain(d, answers);
    OrderMeans(d, answers, r);
    if More(d) && answers != [] && answers[0].Accepts? {
      var count := Min(answers[0].limit, Request(d));
      var e, rest := SkipRead(d, count), answers[1..];
      FirstWriteUnsound(d, answers);
      if WF(e) {
        DrainExact(e, rest);
        OneWriteOnOrder(d, answers);
        OneWriteOnBytes(Contents(d), count, Drain(e, rest).sent, Contents(r.d));
        OrderMeans(e, rest, Drain(e, rest));
        QueueTheorems.SkipExact(d, count);
      }
    }
  }

  lemma QueueIsDrainable(d: Deque)
    requires WF(d)
    ensures Drainable(d) && d.reader <= d.cap
  {
  }

  // ---------- consequences ----------

  /** The drain ends by itself: every write but at most one makes progress. */
  lemma {:induction false} DrainTerminates(d: Deque, answers: seq<Answer>)
    requires Drainable(d)
    ensures Drain(d, answers).writes <= d.readable + (if d.reader == d.cap then 1 else 0)
    ensures |answers| > d.readable && (forall i :: 0 <= i < |answers| ==> answers[i].Accepts?) && d.reader < d.cap ==>
            Drain(d, answers).ending == Finished
    decreases |answers|
  {
    if More(d) && answers != [] && answers[0].Accepts? {
      var count := Min(answers[0].limit, Request(d));
      SkipStaysDrainable(d, count);
      SkipLag(d, count);
      DrainTerminates(SkipRead(d, count), answers[1..]);
    }
  }

  /** With a kernel that takes every request whole, everything queued arrives in order exactly when the
      reader is at the start of its chunk and the last chunk is not full. */
  lemma WholeWritesExact(d: Deque, answers: seq<Answer>)
    requires WF(d) && d.readable > 0 && |answers| > d.readable
    requires forall i :: 0 <= i < |answers| ==> answers[i].Accepts? && answers[i].limit >= d.cap
    ensures var r := Drain(d, answers);
            && (d.reader < d.cap ==> r.ending == Finished)
            && (InOrder(d, r) <==> d.reader == 0 && Writer(d) < d.cap)
            && (InOrder(d, r) ==> r.sent == Contents(d) && r.d.readable == 0)
  {
    hide *;
    QueueIsDrainable(d);
    AllWhole(d, answers);
    DrainCounts(d, answers);
    DrainExact(d, answers);
    DrainTerminates(d, answers);
    var r := Drain(d, answers);
    OrderMeans(d, answers, r);
    if InOrder(d, r) {
      assert r.sent + Contents(r.d) == Contents(d);
      assert |r.sent| == |Contents(d)| - r.d.readable;
      AllTaken(d, answers);
      assert r.sent + [] == r.sent;
    }
  }

  lemma AllWhole(d: Deque, answers: seq<Answer>)
    requires WF(d) && d.readable > 0 && |answers| > d.readable
    requires forall i :: 0 <= i < |answers| ==> answers[i].Accepts? && answers[i].limit >= d.cap
    ensures WritesInOrder(d, answers) <==> d.reader == 0 && Writer(d) < d.cap
  {
    hide Flat, Segmented, Writer;
    var n := Whole(answers, d.cap);
    assert n == |answers|;
    assert (n - 1) * (d.cap - 1) >= 0;
  }

  /** Nothing is left by a drain that starts inside its chunk and meets enough answers. */
  lemma AllTaken(d: Deque, answers: seq<Answer>)
    requires Drainable(d) && |answers| > d.readable && d.reader < d.cap
    requires forall i :: 0 <= i < |answers| ==> answers[i].Accepts?
    ensures Drain(d, answers).ending == Finished && Drain(d, answers).d.readable == 0
  {
    hide *;
    DrainTerminates(d, answers);
    DrainCounts(d, answers);
  }

  /** A drain that ends in order has left the reader inside the last chunk unless that chunk is empty,
      and from there the next drain that writes anything goes wrong, however the kernel answers. */
  lemma SecondDrainGoesWrong(d: Deque, answers: seq<Answer>, more: seq<byte>, answers': seq<Answer>)
    requires WF(d) && Drain(d, answers).ending == Finished && InOrder(d, Drain(d, answers))
    requires Drain(d, answers).d.reader > 0
    ensures var e := PutBulk(Drain(d, answers).d, more);
            WF(e) && (InOrder(e, Drain(e, answers')) <==> SendsNothing(e, answers'))
  {
    var e := Drain(d, answers).d;
    PutBulkAppends(e, more);
    PutBulkKeepsReader(e, more);
    DrainExact(PutBulk(e, more), answers');
  }

  lemma {:induction false} PutBulkKeepsReader(d: Deque, bs: seq<byte>)
    requires d.chunks != []
    ensures PutAll(d, bs).reader == d.reader && PutBulk(d, bs).reader == d.reader
    decreases |bs|
  {
    if bs != [] {
      PutBulkKeepsReader(PutByte(d, bs[0]), bs[1..]);
    }
  }

  /** One write at a time: bytes 1, 2, 3 in one chunk arrive as 1, 2, 2. */
  lemma PartialWritesLoseOrder()
    ensures var d := Deque(8, [[1, 2, 3]], 0, 3);
            var r := Drain(d, [Accepts(1), Accepts(1), Accepts(1)]);
            WF(d) && r.sent == [1, 2, 2] && r.ending == Finished && !InOrder(d, r)
  {
    var d := Deque(8, [[1, 2, 3]], 0, 3);
    FlatSingle([1, 2, 3]);
    var d1, d2, d3 := d.(reader := 1, readable := 2), d.(reader := 1, readable := 1), d.(reader := 1, readable := 0);
    assert SkipRead(d, 1) == d1 && SkipRead(d1, 1) == d2 && SkipRead(d2, 1) == d3;
    FirstWrite(d2, []);
    FirstWrite(d1, [Accepts(1)]);
    FirstWrite(d, [Accepts(1), Accepts(1)]);
    assert Drain(d3, []).sent == [] && Drain(d3, []).ending == Finished;
    assert Contents(d)[..1] == [1] && Contents(d1)[..1] == [2] && Contents(d2)[..1] == [2];
    DrainCounts(d, [Accepts(1), Accepts(1), Accepts(1)]);
  }

  lemma FirstWrite(d: Deque, rest: seq<Answer>)
    requires Drainable(d) && d.readable > 0 && d.reader < d.cap
    ensures 1 <= d.readable && Drainable(SkipRead(d, 1))
    ensures var r, t := Drain(d, [Accepts(1)] + rest), Drain(SkipRead(d, 1), rest);
            r.sent == Contents(d)[..1] + t.sent && r.ending == t.ending && r.d == t.d
  {
    assert ([Accepts(1)] + rest)[1..] == rest;
    SkipStaysDrainable(d, 1);
  }
}
