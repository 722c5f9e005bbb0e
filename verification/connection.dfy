/** A connection: the pipeline between the socket and the packets, and the packet handlers. */
module Connections {
  import opened Words
  import opened Codec
  import opened Framing
  import opened Pipes
  import opened Sessions
  import opened Flushes
  import opened ChunkedQueue
  import opened ByteBuffers
  import opened Draining
  import opened ReadWriteClosers

  /** A packet handler says whether it has handled the packet, or fails. */
  type Handler = seq<byte> -> Errorable<bool>

  /** The pass `r` over the first `k` pipes, continued by the turns already taken, is the pass `f`. */
  ghost predicate WriteAlong(f: Folded, r: Folded, done: seq<Pipe>, first: seq<byte>) {
    && f.status == r.status
    && f.pipes == r.pipes + PutBackWriter(done, r.left)
    && f.left == StartLeft(|done|, first, r.left)
  }

  ghost predicate ReadAlong(f: Folded, r: Folded, done: seq<Pipe>, first: seq<byte>) {
    && f.pipes == PutBackReader(done, r.left) + r.pipes
    && f.left == StartLeft(|done|, first, r.left)
  }

  /** One turn of an outgoing pass. */
  lemma WriteTurn(f: Folded, todo: seq<Pipe>, current: seq<byte>, done: seq<Pipe>, first: seq<byte>)
    requires todo != [] && WriteAlong(f, WriteFold(todo, current), done, first)
    ensures var n := |todo| - 1;
            var c := PipeWrite(todo[n], current);
            var left := current[c.used..];
            var done' := [c.pipe] + PutBackWriter(done, left);
            var first' := StartLeft(|done|, first, left);
            && (c.outcome.Failure? ==> f == Folded(todo[..n] + done', first', Broken))
            && (c.outcome == Success(0) ==> f == Folded(todo[..n] + done', first', Stopped))
            && (c.outcome.Success? && c.outcome.value > 0 ==>
                  WriteAlong(f, WriteFold(todo[..n], c.pipe.writerQueue), done', first'))
  {
    hide *;
    var n := |todo| - 1;
    var c := PipeWrite(todo[n], current);
    var left := current[c.used..];
    WriteFoldCases(todo, current);
    if c.outcome.Success? && c.outcome.value > 0 {
      TurnGoesOn(f, WriteFold(todo[..n], c.pipe.writerQueue), c.pipe, left, done, first);
    } else {
      TurnEnds(f, todo[..n], c.pipe, left, WriteFold(todo, current).status, done, first);
    }
  }

  lemma WriteFoldCases(todo: seq<Pipe>, current: seq<byte>)
    requires todo != []
    ensures var n := |todo| - 1;
            var c := PipeWrite(todo[n], current);
            var f := WriteFold(todo, current);
            && (c.outcome.Failure? ==> f == Folded(todo[..n] + [c.pipe], current[c.used..], Broken))
            && (c.outcome == Success(0) ==> f == Folded(todo[..n] + [c.pipe], current[c.used..], Stopped))
            && (c.outcome.Success? && c.outcome.value > 0 ==>
                  var rest := WriteFold(todo[..n], c.pipe.writerQueue);
                  f == Folded(rest.pipes + [c.pipe.(writerQueue := rest.left)], current[c.used..], rest.status))
  {
    hide PipeWrite;
  }

  lemma TurnEnds(f: Folded, before: seq<Pipe>, p: Pipe, left: seq<byte>, status: Status, done: seq<Pipe>,
                 first: seq<byte>)
    requires WriteAlong(f, Folded(before + [p], left, status), done, first)
    ensures f == Folded(before + ([p] + PutBackWriter(done, left)), StartLeft(|done|, first, left), status)
  {
    hide PutBackWriter;
    assert before + [p] + PutBackWriter(done, left) == before + ([p] + PutBackWriter(done, left));
  }

  lemma TurnGoesOn(f: Folded, rest: Folded, p: Pipe, left: seq<byte>, done: seq<Pipe>, first: seq<byte>)
    requires WriteAlong(f, Folded(rest.pipes + [p.(writerQueue := rest.left)], left, rest.status), done, first)
    ensures WriteAlong(f, rest, [p] + PutBackWriter(done, left), StartLeft(|done|, first, left))
  {
    var tail := PutBackWriter(done, left);
    var done' := [p] + tail;
    assert done'[1..] == tail;
    assert rest.pipes + [p.(writerQueue := rest.left)] + tail == rest.pipes + PutBackWriter(done', rest.left);
  }

  /** One turn of an incoming pass. */
  lemma ReadTurn(f: Folded, todo: seq<Pipe>, current: seq<byte>, done: seq<Pipe>, first: seq<byte>)
    requires todo != [] && ReadAlong(f, ReadFold(todo, current), done, first)
    ensures var c := PipeRead(todo[0], current);
            var left := current[c.used..];
            ReadAlong(f, ReadFold(todo[1..], c.pipe.readerQueue), PutBackReader(done, left) + [c.pipe],
                      StartLeft(|done|, first, left))
  {
    hide PipeRead;
    var c := PipeRead(todo[0], current);
    var left := current[c.used..];
    var done' := PutBackReader(done, left) + [c.pipe];
    var rest := ReadFold(todo[1..], c.pipe.readerQueue);
    assert done'[..|done'| - 1] == PutBackReader(done, left);
    assert PutBackReader(done, left) + ([c.pipe.(readerQueue := rest.left)] + rest.pipes)
        == PutBackReader(done', rest.left) + rest.pipes;
  }

  lemma ReadOver(f: Folded, current: seq<byte>, done: seq<Pipe>, first: seq<byte>, left: seq<byte>)
    requires ReadAlong(f, ReadFold([], current), done, first)
    ensures ReaderEnd(f) == current && |f.pipes| == |done|
    ensures PutBackReader(f.pipes, left) == PutBackReader(done, left)
    ensures StartLeft(|f.pipes|, f.left, left) == StartLeft(|done|, first, left)
  {
    assert f.pipes == PutBackReader(done, current);
  }

  /** The incoming pass: the queue it ends in, the pipes it has worked on, and what its first turn left. */
  method ReadPass(pipes: seq<Pipe>, s: seq<byte>) returns (currentBuffer: seq<byte>, done: seq<Pipe>, first: seq<byte>)
    ensures ReadAlong(ReadFold(pipes, s), ReadFold([], currentBuffer), done, first)
  {
    hide *;
    ghost var f := ReadFold(pipes, s);
    ReadStart(f);
    var todo := pipes;
    currentBuffer, done, first := s, [], [];
    while todo != []
      invariant ReadAlong(f, ReadFold(todo, currentBuffer), done, first)
      decreases |todo|
    {
      ReadTurn(f, todo, currentBuffer, done, first);
      var call := PipeRead(todo[0], currentBuffer);
      var left := currentBuffer[call.used..];
      first := StartLeft(|done|, first, left);
      done := PutBackReader(done, left) + [call.pipe];
      currentBuffer := call.pipe.readerQueue;
      todo := todo[1..];
    }
  }

  lemma ReadStart(f: Folded)
    ensures ReadAlong(f, f, [], [])
  {
    assert PutBackReader([], f.left) + f.pipes == f.pipes;
  }

  lemma WriteStart(f: Folded)
    ensures WriteAlong(f, f, [], [])
  {
    assert f.pipes + PutBackWriter([], f.left) == f.pipes;
  }

  /** The outgoing pass: the pipes after it, how it ended, and, when it got through, the bytes for the wire. */
  method WritePass(pipes: seq<Pipe>, written: seq<byte>) returns (after: seq<Pipe>, status: Status, wire: seq<byte>)
    ensures var f := WriteFold(pipes, written);
            && status == f.status
            && (status == Flowing ==> after == AfterWire(f.pipes) && wire == WriterEnd(f))
            && (status != Flowing ==> after == f.pipes && wire == [])
  {
    hide *;
    ghost var f := WriteFold(pipes, written);
    WriteStart(f);
    var todo, done, first := pipes, [], [];
    wire := written;
    while todo != []
      invariant WriteAlong(f, WriteFold(todo, wire), done, first)
      decreases |todo|
    {
      WriteTurn(f, todo, wire, done, first);
      var n := |todo| - 1;
      var call := PipeWrite(todo[n], wire);
      var left := wire[call.used..];
      first := StartLeft(|done|, first, left);
      done := [call.pipe] + PutBackWriter(done, left);
      if call.outcome.Failure? {
        return todo[..n] + done, Broken, [];
      }
      if call.outcome.value == 0 {
        return todo[..n] + done, Stopped, [];
      }
      wire := call.pipe.writerQueue;
      todo := todo[..n];
    }
    WriteOver(f, wire, done, first);
    after, status := PutBackWriter(done, []), Flowing;
  }

  lemma WriteOver(f: Folded, current: seq<byte>, done: seq<Pipe>, first: seq<byte>)
    requires WriteAlong(f, WriteFold([], current), done, first)
    ensures f.status == Flowing && WriterEnd(f) == current
    ensures AfterWire(f.pipes) == PutBackWriter(done, [])
  {
    assert f.pipes == PutBackWriter(done, current);
  }

  /** The pipes are values here: each is the state a framed pipe object is in, and their calls are the
      ones those objects are proved to make. */
  class Connection {
    var pipeline: seq<Pipe>
    const maxPacketSize: uint32
    var packetPending: uint32
    var readerQueue: seq<byte>
    const writerBuffer: ByteBufferImpl
    const readWriteCloser: UnixReadWriteCloser
    var mainPacketHandler: Handler
    var packetHandlers: seq<Handler>

    /** The writer buffer can be written to and drained, though its reader may have lost its place. */
    ghost predicate Usable()
      reads this, writerBuffer, writerBuffer.Repr
      ensures Usable() ==> writerBuffer.Live() && Drainable(writerBuffer.View()) && Covered(writerBuffer.View())
      ensures Usable() ==> this !in writerBuffer.Repr && readWriteCloser !in writerBuffer.Repr
                           && readWriteCloser.socket !in writerBuffer.Repr
                           && readWriteCloser.socket as object != readWriteCloser as object
    {
      && writerBuffer.Live() && Covered(writerBuffer.View()) && this !in writerBuffer.Repr
      && readWriteCloser !in writerBuffer.Repr && readWriteCloser.socket !in writerBuffer.Repr
      && readWriteCloser.socket as object != readWriteCloser as object
      && readWriteCloser.socket as object != this as object
    }

    /** What is in the writer buffer is a queue of the bytes still to be sent. */
    ghost predicate Valid()
      reads this, writerBuffer, writerBuffer.Repr
      ensures Valid() <==> Usable() && WF(writerBuffer.View())
    {
      Usable() && WF(writerBuffer.View())
    }

    constructor (packetMax: uint32, main: Handler, writerLength: nat, closer: UnixReadWriteCloser)
      requires writerLength >= 1 && closer.socket as object != closer as object
      ensures Valid() && pipeline == [] && packetPending == 0 && readerQueue == [] && packetHandlers == []
      ensures maxPacketSize == packetMax && mainPacketHandler == main && readWriteCloser == closer
      ensures writerBuffer.View() == Empty(writerLength) && fresh(writerBuffer.Repr)
    {
      pipeline, packetHandlers := [], [];
      maxPacketSize, packetPending := packetMax, 0;
      readerQueue := [];
      writerBuffer := new ByteBufferImpl(writerLength);
      readWriteCloser := closer;
      mainPacketHandler := main;
    }

    method AppendByteBytePipe(pipe: Pipe)
      modifies this`pipeline
      ensures pipeline == old(pipeline) + [pipe]
    {
      pipeline := pipeline + [pipe];
    }

    method PrependByteBytePipe(pipe: Pipe)
      modifies this`pipeline
      ensures pipeline == [pipe] + old(pipeline)
    {
      pipeline := [pipe] + pipeline;
    }

    /** The main handler first; if it does not handle the packet, the others in order up to the first that
        does. A failure closes the connection; the main handler's failure also ends the dispatch. */
    method Dispatch(packet: seq<byte>) returns (called: nat)
      modifies readWriteCloser
      ensures called <= |packetHandlers|
      ensures mainPacketHandler(packet) != Success(false) ==> called == 0
      ensures mainPacketHandler(packet) == Success(false) ==>
              && (forall i :: 0 <= i < called - 1 ==> packetHandlers[i](packet) != Success(true))
              && (called < |packetHandlers| ==> called > 0 && packetHandlers[called - 1](packet) == Success(true))
      ensures readWriteCloser.closed
              <==> old(readWriteCloser.closed) || mainPacketHandler(packet).Failure?
                   || exists i :: 0 <= i < called && packetHandlers[i](packet).Failure?
    {
      called := 0;
      var wasHandled := mainPacketHandler(packet);
      if wasHandled.Failure? {
        readWriteCloser.Close();
        return;
      }

      if !wasHandled.value {
        while called < |packetHandlers|
          invariant called <= |packetHandlers|
          invariant forall i :: 0 <= i < called ==> packetHandlers[i](packet) != Success(true)
          invariant readWriteCloser.closed
                    <==> || old(readWriteCloser.closed)
                         || exists i :: 0 <= i < called && packetHandlers[i](packet).Failure?
        {
          wasHandled := packetHandlers[called](packet);
          called := called + 1;
          if wasHandled.Failure? {
            readWriteCloser.Close();
          }
          if wasHandled == Success(true) {
            break;
          }
        }
      }
    }

    /** A page from the socket: one call of every pipe, whose outcomes are not looked at, then one of the
        packet pipe, and at most one packet to the handlers. */
    method HandleNewBytes(page: seq<byte>) returns (packet: Errorable<seq<byte>>, called: nat)
      modifies this`pipeline, this`packetPending, this`readerQueue, readWriteCloser
      ensures (Receiver(pipeline, readerQueue, packetPending), packet)
              == Arrive(old(Receiver(pipeline, readerQueue, packetPending)), page, maxPacketSize)
      ensures called <= |packetHandlers|
      ensures packet.Failure? || mainPacketHandler(packet.value) != Success(false) ==> called == 0
      ensures packet.Success? && mainPacketHandler(packet.value) == Success(false) ==>
              && (forall i :: 0 <= i < called - 1 ==> packetHandlers[i](packet.value) != Success(true))
              && (called < |packetHandlers| ==> called > 0 && packetHandlers[called - 1](packet.value) == Success(true))
      ensures readWriteCloser.closed
              <==> || old(readWriteCloser.closed)
                   || (packet.Failure? && packet.kind != IncompleteFrame)
                   || (packet.Success? && (mainPacketHandler(packet.value).Failure?
                                           || exists i :: 0 <= i < called && packetHandlers[i](packet.value).Failure?))
      ensures old(pipeline == [] && packetPending == 0) && |old(readerQueue) + page| >= 5
              && (forall i :: 0 <= i < 5 ==> (old(readerQueue) + page)[i] >= 0x80) ==>
              readWriteCloser.closed && packet == Failure(InvalidFrame, 0)
    {
      hide ReadFold, ReadPacketFrame, PutBackReader, ReaderEnd, StartLeft, ReadAlong;
      LongPrefixRefused(readerQueue, page, maxPacketSize);
      var currentBuffer, done, first := ReadPass(pipeline, readerQueue + page);
      var r := ReadPacketFrame(packetPending, currentBuffer, maxPacketSize);
      var left := currentBuffer[r.used..];
      ReadOver(ReadFold(pipeline, readerQueue + page), currentBuffer, done, first, left);
      packet, packetPending := r.outcome, r.pending;
      pipeline := PutBackReader(done, left);
      readerQueue := StartLeft(|done|, first, left);

      called := 0;
      match packet
      case Success(p) =>
        called := Dispatch(p);
      case Failure(kind, _) =>
        if kind != IncompleteFrame {
          readWriteCloser.Close();
        }
    }

    /** A packet that its writer has put into the shared buffer as `written`: through the pipes in reverse,
        and onto the writer buffer. A pipe that fails closes the connection; one that appends nothing ends
        the pass. */
    method Write(written: seq<byte>, shouldWrite: Errorable<bool>)
      requires Usable()
      modifies this`pipeline, writerBuffer.Repr, readWriteCloser
      ensures Usable() && fresh(writerBuffer.Repr - old(writerBuffer.Repr)) && (old(Valid()) ==> Valid())
      ensures shouldWrite != Success(true) ==>
              && pipeline == old(pipeline) && writerBuffer.View() == old(writerBuffer.View())
              && (readWriteCloser.closed <==> old(readWriteCloser.closed) || shouldWrite.Failure?)
      ensures shouldWrite == Success(true) ==>
              var f := WriteFold(old(pipeline), written);
              && pipeline == (if f.status == Flowing then AfterWire(f.pipes) else f.pipes)
              && writerBuffer.View() == (if f.status == Flowing then PutBulk(old(writerBuffer.View()), WriterEnd(f))
                                         else old(writerBuffer.View()))
              && (readWriteCloser.closed <==> old(readWriteCloser.closed) || f.status == Broken)
      ensures shouldWrite == Success(true) && WriteFold(old(pipeline), written).status == Flowing && old(Valid()) ==>
              Contents(writerBuffer.View())
              == Contents(old(writerBuffer.View())) + WriterEnd(WriteFold(old(pipeline), written))
    {
      hide WriteFold, AfterWire, WriterEnd, WF, Covered, Contents, PutBulk, ByteBufferImpl.View,
        ByteBufferImpl.Live, ByteBufferImpl.Valid;
      if shouldWrite.Failure? {
        readWriteCloser.Close();
        return;
      }

      if shouldWrite.value {
        var after, status, wire := WritePass(pipeline, written);
        pipeline := after;
        if status == Broken {
          readWriteCloser.Close();
        } else if status == Flowing {
          WiredUp(writerBuffer.View(), wire);
          writerBuffer.WriteBytes(wire);
        }
      }
    }

    lemma WiredUp(d: Deque, wire: seq<byte>)
      requires Covered(d) && d.chunks != []
      ensures Covered(PutBulk(d, wire))
      ensures WF(d) ==> WF(PutBulk(d, wire)) && Contents(PutBulk(d, wire)) == Contents(d) + wire
    {
      PutBulkFlat(d, wire);
      if WF(d) {
        PutBulkAppends(d, wire);
      }
    }

    /** Hands what is queued to the socket. The writer buffer is still a queue afterwards exactly when the
        buffer and the kernel's answers allowed it beforehand, and can still be written to unless the drain
        has dropped its last chunk. */
    method Flush() returns (r: Errorable<nat>)
      requires Usable()
      modifies readWriteCloser, readWriteCloser.socket, writerBuffer
      ensures writerBuffer.Shaped() && writerBuffer.Repr == old(writerBuffer.Repr)
      ensures old(readWriteCloser.closed) ==>
              && r == Success(0) && readWriteCloser.closed && Usable()
              && writerBuffer.View() == old(writerBuffer.View())
              && readWriteCloser.socket.sent == old(readWriteCloser.socket.sent)
      ensures !old(readWriteCloser.closed) ==>
              var run := Drain(old(writerBuffer.View()), old(readWriteCloser.socket.answers));
              && writerBuffer.View() == run.d
              && readWriteCloser.socket.sent == old(readWriteCloser.socket.sent) + run.sent
              && run.writes <= |old(readWriteCloser.socket.answers)|
              && (readWriteCloser.closed <==> run.ending == PeerReset)
              && var unsent := || writerBuffer.readableBytes > 0
                               || writerBuffer.localReaderIndex >= writerBuffer.singleCapacity;
                 if unsent && run.writes < |old(readWriteCloser.socket.answers)| then
                   match old(readWriteCloser.socket.answers)[run.writes]
                   case Accepts(_) => false
                   case Reset => readWriteCloser.closed && r == Success(|run.sent|)
                   case Fails(errno) => !readWriteCloser.closed && r == Failure(Errno, errno)
                 else
                   !readWriteCloser.closed && r == if unsent then Failure(Errno, 11) else Success(|run.sent|)
      ensures Usable() <==> writerBuffer.View().chunks != []
      ensures old(Valid()) && !old(readWriteCloser.closed) ==>
              (Valid() <==> WritesInOrder(old(writerBuffer.View()), old(readWriteCloser.socket.answers)))
    {
      hide WF, Covered, Drainable, Drain, WritesInOrder,
        ByteBufferImpl.View, ByteBufferImpl.Live, ByteBufferImpl.Shaped;
      ghost var d, answers := writerBuffer.View(), readWriteCloser.socket.answers;
      if WF(d) {
        DrainExact(d, answers);
      }
      DrainedIs(d);
      r := readWriteCloser.Write(writerBuffer);
      DrainedIs(writerBuffer.View());
    }

    lemma DrainedIs(d: Deque)
      ensures WF(d) ==> d.chunks != []
      ensures Drainable(d) ==> Covered(d)
    {
    }

    /** One step of a session: the socket gets what the drain makes of the writer buffer, with the packet's
        bytes behind what was in it if the pass got through. A pass that fails closes the connection first,
        and then nothing is sent. */
    method WriteAndFlush(written: seq<byte>, shouldWrite: Errorable<bool>)
      requires Usable()
      modifies this`pipeline, writerBuffer.Repr, readWriteCloser, readWriteCloser.socket
      ensures writerBuffer.Shaped() && fresh(writerBuffer.Repr - old(writerBuffer.Repr))
      ensures Usable() <==> writerBuffer.View().chunks != []
      ensures var f := WriteFold(old(pipeline), written);
              var through := shouldWrite == Success(true) && f.status == Flowing;
              var before := old(writerBuffer.View());
              var queued := if through then PutBulk(before, WriterEnd(f)) else before;
              var shut := || old(readWriteCloser.closed) || shouldWrite.Failure?
                          || (shouldWrite == Success(true) && f.status == Broken);
              && Drainable(queued) && queued.chunks != []
              && pipeline == (if shouldWrite != Success(true) then old(pipeline)
                              else if through then AfterWire(f.pipes) else f.pipes)
              && (shut ==> && readWriteCloser.closed && writerBuffer.View() == queued
                           && readWriteCloser.socket.sent == old(readWriteCloser.socket.sent))
              && (!shut ==>
                    var run := Drain(queued, old(readWriteCloser.socket.answers));
                    && writerBuffer.View() == run.d && (readWriteCloser.closed <==> run.ending == PeerReset)
                    && readWriteCloser.socket.sent == old(readWriteCloser.socket.sent) + run.sent
                    && (old(Valid()) ==> (Valid() <==> WritesInOrder(queued, old(readWriteCloser.socket.answers)))))
    {
      hide WriteFold, AfterWire, WriterEnd, WF, Covered, Drainable, Drain, PutBulk, WritesInOrder,
        ByteBufferImpl.View, ByteBufferImpl.Live, ByteBufferImpl.Shaped;
      PutStaysDrainable(writerBuffer.View(), WriterEnd(WriteFold(pipeline, written)));
      Write(written, shouldWrite);
      var outcome := Flush();
    }

    /** A session: packets written and flushed one by one, the kernel having its answers ready for each flush
        and never resetting the connection. The socket gets exactly the pages of the session, which ends early
        when a flush leaves the writer buffer without a chunk. */
    method SendAll(packets: seq<seq<byte>>, answers: seq<seq<Answer>>, ghost frames: seq<seq<byte>>,
                   ghost payloads: seq<seq<seq<byte>>>)
      requires Usable() && !readWriteCloser.closed && |answers| == |packets| == |frames|
      requires AllSent(pipeline, payloads, frames, packets)
      requires forall i :: 0 <= i < |answers| ==> Reset !in answers[i]
      modifies this`pipeline, writerBuffer.Repr, readWriteCloser, readWriteCloser.socket
      ensures writerBuffer.Shaped() && fresh(writerBuffer.Repr - old(writerBuffer.Repr))
      ensures pipeline == old(pipeline) && !readWriteCloser.closed
      ensures readWriteCloser.socket.sent
              == old(readWriteCloser.socket.sent) + Concat(Flushed(old(writerBuffer.View()), Wires(frames), answers))
    {
      hide *;
      ghost var senders, wires, d := pipeline, Wires(frames), writerBuffer.View();
      ghost var pages := [];
      NoPages(Flushed(d, wires, answers));
      assert wires[0..] == wires && answers[0..] == answers;
      assert old(readWriteCloser.socket.sent) + [] == old(readWriteCloser.socket.sent);
      var i := 0;
      while i < |packets| && writerBuffer.buffers != []
        invariant i <= |packets| && writerBuffer.Shaped() && fresh(writerBuffer.Repr - old(writerBuffer.Repr))
        invariant (Usable() <==> writerBuffer.View().chunks != []) && Covered(writerBuffer.View())
        invariant pipeline == senders && !readWriteCloser.closed
        invariant Flushed(d, wires, answers) == pages + Flushed(writerBuffer.View(), wires[i..], answers[i..])
        invariant readWriteCloser.socket.sent == old(readWriteCloser.socket.sent) + Concat(pages)
      {
        ghost var before, queued := writerBuffer.View(), PutBulk(writerBuffer.View(), wires[i]);
        readWriteCloser.socket.answers := answers[i];
        PacketSent(senders, payloads, frames, packets, i);
        FlushedUnfolds(before, wires[i..], answers[i..]);
        assert wires[i..][1..] == wires[i + 1..] && answers[i..][1..] == answers[i + 1..];
        NeverReset(queued, answers[i]);
        WriteAndFlush(Prefixed(packets[i]), Success(true));
        ghost var page := Drain(queued, answers[i]).sent;
        JoinAssociates(pages, [page], Flushed(writerBuffer.View(), wires[i + 1..], answers[i + 1..]));
        ConcatPage(pages, page);
        JoinAssociates(old(readWriteCloser.socket.sent), Concat(pages), page);
        pages := pages + [page];
        i := i + 1;
      }
      FlushedUnfolds(writerBuffer.View(), wires[i..], answers[i..]);
      assert pages + [] == pages;
    }

    lemma NoPages(pages: seq<seq<byte>>)
      ensures [] + pages == pages && Concat([]) == []
    {
    }

    lemma {:induction false} ConcatPage(pages: seq<seq<byte>>, page: seq<byte>)
      ensures Concat(pages + [page]) == Concat(pages) + page
    {
      if pages == [] {
        assert ([] + [page])[1..] == [] && page + [] == page;
      } else {
        ConcatPage(pages[1..], page);
        assert (pages + [page])[1..] == pages[1..] + [page];
        JoinAssociates(pages[0], Concat(pages[1..]), page);
      }
    }

    /** One packet of the session through the pipes. */
    lemma PacketSent(senders: seq<Pipe>, payloads: seq<seq<seq<byte>>>, frames: seq<seq<byte>>,
                     packets: seq<seq<byte>>, i: nat)
      requires AllSent(senders, payloads, frames, packets) && i < |packets|
      ensures |frames| == |packets|
      ensures var f := WriteFold(senders, Prefixed(packets[i]));
              f.status == Flowing && AfterWire(f.pipes) == senders && WriterEnd(f) == Wires(frames)[i]
    {
      hide WriteFold, Sends, Prefixed;
      assert Sends(senders, payloads[i]);
      WriteFoldSends(senders, payloads[i]);
    }

    lemma NeverReset(d: Deque, answers: seq<Answer>)
      requires Drainable(d) && Reset !in answers
      ensures Drain(d, answers).ending != PeerReset
    {
      hide *;
      DrainEnding(d, answers);
    }
  }
}
