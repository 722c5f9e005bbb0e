/** The socket end of a connection. */
module ReadWriteClosers {
  import opened Words
  import opened ChunkedQueue
  import opened ByteBuffers
  import opened Draining

  /** The kernel's side of a socket: the answers it will give to writes, and what it has been given. */
  class Kernel {
    var answers: seq<Answer>
    var sent: seq<byte>

    constructor (prepared: seq<Answer>)
      ensures answers == prepared && sent == []
    {
      answers, sent := prepared, [];
    }

    /** write(2): the number of bytes taken, or the refusal. */
    method Write(data: seq<byte>) returns (written: nat, refusal: Ending)
      modifies this
      ensures answers == Later(old(answers), 1)
      ensures refusal == if old(answers) == [] then Failed(EAGAIN) else Refusal(old(answers)[0])
      ensures refusal == Finished ==>
              written == Min(old(answers)[0].limit, |data|) && sent == old(sent) + data[..written]
      ensures refusal != Finished ==> written == 0 && sent == old(sent)
    {
      written := 0;
      if answers == [] {
        return 0, Failed(EAGAIN);
      }
      refusal := Refusal(answers[0]);
      if answers[0].Accepts? {
        written := Min(answers[0].limit, |data|);
        sent := sent + data[..written];
      }
      answers := answers[1..];
    }
  }

  /** The answers that are left after `k` of them, if there were as many. */
  function Later(answers: seq<Answer>, k: nat): (later: seq<Answer>)
    ensures later == if k <= |answers| then answers[k..] else []
  {
    if k <= |answers| then answers[k..] else []
  }

  lemma OneLater(answers: seq<Answer>, k: nat)
    ensures Later(Later(answers, k), 1) == Later(answers, k + 1) && Later(answers, 0) == answers
  {
  }

  /** `Finished` stands for a write that is not refused. */
  function Refusal(a: Answer): Ending {
    match a
    case Accepts(_) => Finished
    case Reset => PeerReset
    case Fails(errno) => Failed(errno)
  }

  /** The first write of a drain. */
  lemma FirstOfDrain(d: Deque, answers: seq<Answer>)
    requires Drainable(d) && More(d)
    ensures d.chunks != [] && Request(d) <= d.readable && d.reader + Request(d) <= |d.chunks[0]|
    ensures Piece(d.chunks[0], d.reader, d.reader + Request(d)) == Piece(Contents(d), 0, Request(d))
    ensures answers == [] ==> Drain(d, answers) == Drained(d, 0, [], Failed(EAGAIN))
    ensures answers != [] && Refusal(answers[0]) != Finished ==>
            Drain(d, answers) == Drained(d, 0, [], Refusal(answers[0]))
    ensures answers != [] && Refusal(answers[0]) == Finished ==>
            var count := Min(answers[0].limit, Request(d));
            && Drainable(SkipRead(d, count)) && SkipRead(d, count).cap == d.cap
            && (d.readable < d.cap - d.reader ==>
                  SkipRead(d, count).readable < d.cap - SkipRead(d, count).reader)
            && var rest := Drain(SkipRead(d, count), answers[1..]);
               Drain(d, answers)
               == Drained(rest.d, rest.writes + 1, Piece(Contents(d), 0, count) + rest.sent, rest.ending)
  {
    var first := d.chunks;
    FrontOfCovered(d);
    if answers != [] && answers[0].Accepts? {
      var count := Min(answers[0].limit, Request(d));
      SkipStaysDrainable(d, count);
      SkipLag(d, count);
    }
  }

  /** The tests of the two loops. */
  lemma LoopTests(d: Deque)
    requires d.reader <= d.cap
    ensures d.readable >= d.cap - d.reader ==> More(d) && Request(d) == d.cap - d.reader
    ensures 0 != d.readable < d.cap - d.reader ==> More(d) && Request(d) == d.readable
    ensures 0 == d.readable < d.cap - d.reader ==> !More(d)
  {
  }

  lemma FrontOfCovered(d: Deque)
    requires Drainable(d) && More(d)
    ensures d.chunks != [] && d.reader + Request(d) <= |d.chunks[0]|
    ensures Piece(d.chunks[0], d.reader, d.reader + Request(d)) == Piece(Contents(d), 0, Request(d))
  {
    SkipStaysDrainable(d, 0);
    var front, rest := d.chunks[0], Flat(d.chunks[1..]);
    assert Flat(d.chunks) == front + rest;
    if |d.chunks| == 1 {
      assert rest == [];
    }
    SliceOfFirst(front, rest, d.reader, d.readable, Request(d));
  }

  lemma DrainOver(d: Deque, answers: seq<Answer>)
    requires Drainable(d) && !More(d)
    ensures Drain(d, answers) == Drained(d, 0, [], Finished)
  {
  }

  class UnixReadWriteCloser {
    const socket: Kernel
    var closed: bool

    constructor (s: Kernel)
      ensures socket == s && !closed
    {
      socket := s;
      closed := false;
    }

    method Close()
      modifies this
      ensures closed
    {
      closed := true;
    }

    /** One write of the loops, and the skip over what it took. */
    method WriteOnce(buffer: ByteBufferImpl, request: nat) returns (written: nat, refusal: Ending)
      requires buffer.Live() && Drainable(buffer.View()) && socket !in buffer.Repr && this !in buffer.Repr
      requires More(buffer.View()) && request == Request(buffer.View())
      modifies socket, buffer
      ensures buffer.Shaped() && buffer.Repr == old(buffer.Repr) && Drainable(buffer.View())
      ensures buffer.View().chunks != [] ==> buffer.Live()
      ensures var d, answers := old(buffer.View()), old(socket.answers);
              && (refusal == if answers == [] then Failed(EAGAIN) else Refusal(answers[0]))
              && socket.answers == Later(answers, 1)
              && (refusal != Finished ==>
                    && buffer.View() == d && socket.sent == old(socket.sent)
                    && Drain(d, answers) == Drained(d, 0, [], refusal))
              && (refusal == Finished ==>
                    && written == Min(answers[0].limit, request) <= d.readable
                    && buffer.View() == SkipRead(d, written)
                    && socket.sent == old(socket.sent) + Piece(Contents(d), 0, written))
    {
      hide *;
      ghost var d, answers := buffer.View(), socket.answers;
      FirstOfDrain(d, answers);
      var data := buffer.DirectRead(request);
      written, refusal := socket.Write(data);
      if refusal == Finished {
        FrontOfPiece(Contents(d), written, request);
        var skipped := buffer.SkipReadBytes(written);
      }
    }

    /** What one write contributes to the whole drain. */
    ghost predicate Along(d: Deque, answers: seq<Answer>, writes: nat, sent: seq<byte>, e: Deque, rest: seq<Answer>) {
      && Drainable(d) && Drainable(e)
      && Drain(d, answers)
         == Drained(Drain(e, rest).d, writes + Drain(e, rest).writes, sent + Drain(e, rest).sent, Drain(e, rest).ending)
    }

    lemma AlongStart(d: Deque, answers: seq<Answer>)
      requires Drainable(d)
      ensures Along(d, answers, 0, [], d, answers)
    {
    }

    lemma AlongStep(d: Deque, answers: seq<Answer>, writes: nat, sent: seq<byte>, e: Deque, rest: seq<Answer>)
      requires Along(d, answers, writes, sent, e, rest) && More(e) && rest != [] && Refusal(rest[0]) == Finished
      ensures var count := Min(rest[0].limit, Request(e));
              && count <= e.readable && Drainable(SkipRead(e, count)) && SkipRead(e, count).cap == e.cap
              && (e.readable < e.cap - e.reader ==>
                    SkipRead(e, count).readable < e.cap - SkipRead(e, count).reader)
              && Along(d, answers, writes + 1, sent + Piece(Contents(e), 0, count), SkipRead(e, count), rest[1..])
    {
      hide Drain, SkipRead, Flat;
      FirstOfDrain(e, rest);
      var count := Min(rest[0].limit, Request(e));
      JoinAssociates(sent, Piece(Contents(e), 0, count), Drain(SkipRead(e, count), rest[1..]).sent);
    }

    lemma AlongEnd(d: Deque, answers: seq<Answer>, writes: nat, sent: seq<byte>, e: Deque, rest: seq<Answer>,
                   ending: Ending)
      requires Along(d, answers, writes, sent, e, rest) && Drain(e, rest) == Drained(e, 0, [], ending)
      ensures Drain(d, answers) == Drained(e, writes, sent, ending)
    {
    }

    /** The two loops: whole rests of chunks first, and then what is left in the last one. */
    method WriteAll(buffer: ByteBufferImpl) returns (totalBytesWritten: nat, ending: Ending)
      requires buffer.Live() && Drainable(buffer.View()) && socket !in buffer.Repr && this !in buffer.Repr
      modifies socket, buffer
      ensures buffer.Shaped() && buffer.Repr == old(buffer.Repr) && Drainable(buffer.View())
      ensures buffer.View().chunks != [] ==> buffer.Live()
      ensures var run := Drain(old(buffer.View()), old(socket.answers));
              && buffer.View() == run.d && socket.sent == old(socket.sent) + run.sent
              && totalBytesWritten == |run.sent| && ending == run.ending
              && socket.answers == Later(old(socket.answers), run.writes + if ending == Finished then 0 else 1)
    {
      hide *;
      totalBytesWritten := 0;
      ghost var d, answers, writes, sent := buffer.View(), socket.answers, 0, [];
      AlongStart(d, answers);
      OneLater(answers, 0);
      var singleCapacity := buffer.singleCapacity;
      while buffer.readableBytes >= singleCapacity - buffer.localReaderIndex
        invariant buffer.Shaped() && buffer.Repr == old(buffer.Repr) && Drainable(buffer.View())
        invariant buffer.View().chunks != [] ==> buffer.Live()
        invariant Along(d, answers, writes, sent, buffer.View(), socket.answers)
        invariant socket.sent == old(socket.sent) + sent && totalBytesWritten == |sent|
        invariant socket.answers == Later(answers, writes)
        decreases |socket.answers|
      {
        ghost var e, rest := buffer.View(), socket.answers;
        OneLater(answers, writes);
        LoopTests(e);
        FirstOfDrain(e, rest);
        var bytesWritten, refusal := WriteOnce(buffer, singleCapacity - buffer.localReaderIndex);
        if refusal != Finished {
          AlongEnd(d, answers, writes, sent, e, rest, refusal);
          return totalBytesWritten, refusal;
        }
        AlongStep(d, answers, writes, sent, e, rest);
        JoinAssociates(old(socket.sent), sent, Piece(Contents(e), 0, bytesWritten));
        writes, sent := writes + 1, sent + Piece(Contents(e), 0, bytesWritten);
        totalBytesWritten := totalBytesWritten + bytesWritten;
      }

      while buffer.readableBytes != 0
        invariant buffer.Shaped() && buffer.Repr == old(buffer.Repr) && Drainable(buffer.View())
        invariant buffer.View().chunks != [] ==> buffer.Live()
        invariant buffer.readableBytes < singleCapacity - buffer.localReaderIndex
        invariant Along(d, answers, writes, sent, buffer.View(), socket.answers)
        invariant socket.sent == old(socket.sent) + sent && totalBytesWritten == |sent|
        invariant socket.answers == Later(answers, writes)
        decreases |socket.answers|
      {
        ghost var e, rest := buffer.View(), socket.answers;
        OneLater(answers, writes);
        LoopTests(e);
        FirstOfDrain(e, rest);
        var bytesWritten, refusal := WriteOnce(buffer, buffer.readableBytes);
        if refusal != Finished {
          AlongEnd(d, answers, writes, sent, e, rest, refusal);
          return totalBytesWritten, refusal;
        }
        AlongStep(d, answers, writes, sent, e, rest);
        JoinAssociates(old(socket.sent), sent, Piece(Contents(e), 0, bytesWritten));
        writes, sent := writes + 1, sent + Piece(Contents(e), 0, bytesWritten);
        totalBytesWritten := totalBytesWritten + bytesWritten;
      }

      LoopTests(buffer.View());
      DrainOver(buffer.View(), socket.answers);
      AlongEnd(d, answers, writes, sent, buffer.View(), socket.answers, Finished);
      ending := Finished;
    }

    /** Drains the buffer. A reset by the peer closes the socket and counts as success. */
    method Write(buffer: ByteBufferImpl) returns (r: Errorable<nat>)
      requires buffer.Live() && Drainable(buffer.View()) && socket !in buffer.Repr && this !in buffer.Repr
      requires socket as object != this
      modifies this, socket, buffer
      ensures buffer.Shaped() && buffer.Repr == old(buffer.Repr) && Drainable(buffer.View())
      ensures buffer.View().chunks != [] ==> buffer.Live()
      ensures old(closed) ==>
              && r == Success(0) && closed
              && buffer.View() == old(buffer.View())
              && socket.sent == old(socket.sent) && socket.answers == old(socket.answers)
      ensures !old(closed) ==>
              var run := Drain(old(buffer.View()), old(socket.answers));
              && buffer.View() == run.d && socket.sent == old(socket.sent) + run.sent
              && run.writes <= |old(socket.answers)| && (closed <==> run.ending == PeerReset)
              && var unsent := buffer.readableBytes > 0 || buffer.localReaderIndex >= buffer.singleCapacity;
                 && socket.answers == Later(old(socket.answers), run.writes + if unsent then 1 else 0)
                 && if unsent && run.writes < |old(socket.answers)| then
                   match old(socket.answers)[run.writes]
                   case Accepts(_) => false
                   case Reset => closed && r == Success(|run.sent|)
                   case Fails(errno) => !closed && r == Failure(Errno, errno)
                 else
                   !closed && r == if unsent then Failure(Errno, 11) else Success(|run.sent|)
    {
      hide *;
      if closed {
        return Success(0);
      }

      DrainEnding(buffer.View(), socket.answers);
      var totalBytesWritten, ending := WriteAll(buffer);
      if ending.Failed? {
        return Failure(Errno, ending.errno);
      }
      if ending == PeerReset {
        Close();
      }
      r := Success(totalBytesWritten);
    }
  }
}
