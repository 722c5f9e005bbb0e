/** What a connection hands on over whole runs of pages, through pipelines of any length. */
module Sessions {
  import opened Words
  import opened Codec
  import opened Framing
  import opened Pipes
  import opened Calls
  import VarInts

  /** The queue in which an outgoing pass finds what the pipe after it left behind. */
  function PutBackWriter(pipes: seq<Pipe>, left: seq<byte>): seq<Pipe> {
    if pipes == [] then [] else [pipes[0].(writerQueue := left)] + pipes[1..]
  }

  /** The same for an incoming pass, where the neighbour is the pipe before. */
  function PutBackReader(pipes: seq<Pipe>, left: seq<byte>): seq<Pipe> {
    if pipes == [] then [] else pipes[..|pipes| - 1] + [pipes[|pipes| - 1].(readerQueue := left)]
  }

  /** What is left in the queue a pass started from, given what its first turn left and what is left in
      the queue the pass has come to. */
  function StartLeft(turns: nat, first: seq<byte>, current: seq<byte>): seq<byte> {
    if turns == 0 then current else first
  }

  /** The receiving half of a connection: its pipes, its reader buffer's queue and its packet pipe's
      pending length. */
  datatype Receiver = Receiver(pipes: seq<Pipe>, queue: seq<byte>, pending: uint32)

  /** What one page from the socket does to it, and what its packet pipe says. */
  function Arrive(c: Receiver, page: seq<byte>, max: uint32): (Receiver, Errorable<seq<byte>>) {
    var f := ReadFold(c.pipes, c.queue + page);
    var r := ReadPacketFrame(c.pending, ReaderEnd(f), max);
    var left := ReaderEnd(f)[r.used..];
    (Receiver(PutBackReader(f.pipes, left), StartLeft(|f.pipes|, f.left, left), r.pending), r.outcome)
  }

  /** What a page leaves behind pipes: the outer queue is what the first pipe left, the last pipe's queue what
      the packet pipe left of what had come to it, and nothing else is touched after the pass. */
  lemma ArriveBehindPipes(c: Receiver, page: seq<byte>, max: uint32)
    requires c.pipes != []
    ensures var f, (after, packet) := ReadFold(c.pipes, c.queue + page), Arrive(c, page, max);
            var n := |f.pipes| - 1;
            var came := f.pipes[n].readerQueue;
            var r := ReadPacketFrame(c.pending, came, max);
            && after.queue == f.left && |after.pipes| == |c.pipes| == n + 1
            && after.pipes[..n] == f.pipes[..n] && after.pipes[n] == f.pipes[n].(readerQueue := came[r.used..])
            && after.pending == r.pending && packet == r.outcome
  {
  }

  /** Five bytes from 0x80 up where a packet's length should be: without pipes, the packet is refused. */
  lemma LongPrefixRefused(queue: seq<byte>, page: seq<byte>, max: uint32)
    ensures |queue + page| >= 5 && (forall i :: 0 <= i < 5 ==> (queue + page)[i] >= 0x80) ==>
              Arrive(Receiver([], queue, 0), page, max).1 == Failure(InvalidFrame, 0)
  {
    hide ReadVarInt;
    ReadVarIntExact(queue + page);
  }

  /** Whether a connection is closed for what its packet pipe says. */
  predicate Closing(packet: Errorable<seq<byte>>) {
    packet.Failure? && packet.kind != IncompleteFrame
  }

  /** The packets handed on over a run of pages, up to one that closes the connection. */
  function HandedOn(c: Receiver, pages: seq<seq<byte>>, max: uint32): (packets: seq<seq<byte>>)
    ensures |packets| <= |pages|
    decreases |pages|
  {
    if pages == [] then []
    else
      var (after, packet) := Arrive(c, pages[0], max);
      if Closing(packet) then []
      else (if packet.Success? then [packet.value] else []) + HandedOn(after, pages[1..], max)
  }

  lemma HandedOnUnfolds(c: Receiver, pages: seq<seq<byte>>, max: uint32)
    ensures pages == [] ==> HandedOn(c, pages, max) == []
    ensures pages != [] ==>
            var (after, packet) := Arrive(c, pages[0], max);
            HandedOn(c, pages, max)
            == if packet.Failure? && packet.kind != IncompleteFrame then []
               else (if packet.Success? then [packet.value] else []) + HandedOn(after, pages[1..], max)
  {
  }

  // ---------- pages that are one frame each ----------

  /** The bytes on the wire for a run of frames, one after the other. */
  function Wires(frames: seq<seq<byte>>): (wires: seq<seq<byte>>)
    ensures |wires| == |frames| && forall i :: 0 <= i < |wires| ==> wires[i] == Prefixed(frames[i]) && wires[i] != []
  {
    if frames == [] then [] else
      PrefixedIsNotEmpty(frames[0]);
      [Prefixed(frames[0])] + Wires(frames[1..])
  }

  lemma ArriveIdle(receivers: seq<Pipe>, page: seq<byte>, packet: seq<byte>, max: uint32)
    requires var f := ReadFold(receivers, page);
             && (receivers != [] ==> f.left == []) && AfterPacket(f.pipes) == receivers
             && ReadPacketFrame(0, ReaderEnd(f), max) == PacketRead(0, |ReaderEnd(f)|, Success(packet))
    ensures Arrive(Receiver(receivers, [], 0), page, max) == (Receiver(receivers, [], 0), Success(packet))
  {
    hide ReadFold, ReadPacketFrame;
    assert [] + page == page;
    var f := ReadFold(receivers, page);
    assert ReaderEnd(f)[|ReaderEnd(f)|..] == [];
  }

  /** If the peer gets every packet's wire as a page of its own, it hands on exactly the packets. */
  lemma {:induction false} IntactPagesDeliver(receivers: seq<Pipe>, payloads: seq<seq<seq<byte>>>,
                                              frames: seq<seq<byte>>, packets: seq<seq<byte>>, max: uint32)
    requires AllReceived(receivers, payloads, frames, packets, max)
    ensures HandedOn(Receiver(receivers, [], 0), Wires(frames), max) == packets
    decreases |packets|
  {
    hide *;
    AsMany(receivers, payloads, frames, packets, max);
    var pages := Wires(frames);
    HandedOnUnfolds(Receiver(receivers, [], 0), pages, max);
    if packets != [] {
      NextReceived(receivers, payloads, frames, packets, max);
      ReadFoldReceives(receivers, payloads[0]);
      PacketRecognized(packets[0], max);
      ArriveIdle(receivers, pages[0], packets[0], max);
      WiresRest(frames);
      IntactPagesDeliver(receivers, payloads[1..], frames[1..], packets[1..], max);
      assert packets == [packets[0]] + packets[1..];
    }
  }

  lemma WiresRest(frames: seq<seq<byte>>)
    requires frames != []
    ensures Wires(frames)[1..] == Wires(frames[1..])
  {
  }

  /** What a page of the size of a packet's wire must look like for the packet pipe to take that packet from
      it: as many prefix bytes as the packet's, announcing its length or one that they make look complete,
      and then the packet. */
  predicate ReadsAs(page: seq<byte>, packet: seq<byte>, max: uint32) {
    var length := ReadVarInt(page);
    && length.outcome.Success? && length.used + |packet| == |page|
    && |packet| <= length.outcome.value <= max && length.outcome.value <= |page|
    && page[length.used..] == packet
  }

  lemma PageReads(page: seq<byte>, packet: seq<byte>, max: uint32)
    requires 0 < |packet| <= max && |page| == |Prefixed(packet)|
    ensures ReadPacketFrame(0, page, max).outcome == Success(packet) <==> ReadsAs(page, packet, max)
    ensures ReadsAs(page, packet, max) ==> ReadPacketFrame(0, page, max) == PacketRead(0, |page|, Success(packet))
  {
    var length := ReadVarInt(page);
    ShortestPrefix(page);
    hide ReadVarInt, VarInts.Encode;
    if length.outcome.Success? {
      var n, taken := length.outcome.value, Min(length.outcome.value, |page| - length.used);
      if taken == |packet| && length.used + taken == |page| {
        assert Piece(page, length.used, length.used + taken) == page[length.used..];
      }
    }
  }

  lemma ShortestPrefix(page: seq<byte>)
    ensures var length := ReadVarInt(page);
            length.outcome.Success? ==> |VarInts.Encode(length.outcome.value)| <= length.used
  {
    if ReadVarInt(page).outcome.Success? {
      VarInts.EncodingMinimal(page, VarInts.VARINT_LIMIT, TWO_32);
    }
  }

  /** A connection without pipes, given a page of the right size for each packet as far as pages go, hands on
      exactly the packets if and only if there is a page for each and each of them reads as its packet. */
  lemma {:induction false} PagesDeliverExact(pages: seq<seq<byte>>, packets: seq<seq<byte>>, max: uint32)
    requires |pages| <= |packets| && forall i :: 0 <= i < |packets| ==> 0 < |packets[i]| <= max
    requires forall i :: 0 <= i < |pages| ==> |pages[i]| == |Prefixed(packets[i])|
    ensures HandedOn(Receiver([], [], 0), pages, max) == packets
            <==> |pages| == |packets| && forall i :: 0 <= i < |pages| ==> ReadsAs(pages[i], packets[i], max)
    decreases |pages|
  {
    hide *;
    HandedOnUnfolds(Receiver([], [], 0), pages, max);
    if pages != [] {
      PlainArrival(pages[0], max);
      PageReads(pages[0], packets[0], max);
      var handed := HandedOn(Receiver([], [], 0), pages, max);
      if ReadsAs(pages[0], packets[0], max) {
        assert pages[0][|pages[0]|..] == [];
        PagesDeliverExact(pages[1..], packets[1..], max);
        assert handed == [packets[0]] + HandedOn(Receiver([], [], 0), pages[1..], max);
        assert handed[1..] == HandedOn(Receiver([], [], 0), pages[1..], max);
        assert packets == [packets[0]] + packets[1..];
        assert forall i :: 0 < i < |pages| ==> pages[i] == pages[1..][i - 1] && packets[i] == packets[1..][i - 1];
      }
    }
  }

  lemma PlainArrival(page: seq<byte>, max: uint32)
    ensures var r := ReadPacketFrame(0, page, max);
            Arrive(Receiver([], [], 0), page, max) == (Receiver([], page[r.used..], r.pending), r.outcome)
  {
    assert [] + page == page;
  }

  // ---------- without pipes ----------

  /** Without pipes, a connection is its packet pipe. */
  lemma {:induction false} PlainRun(pending: uint32, left: seq<byte>, pages: seq<seq<byte>>, max: uint32)
    ensures HandedOn(Receiver([], left, pending), pages, max)
            == RunCalls(PacketReader, pending, left, pages, max).frames
    decreases |pages|
  {
    if pages != [] {
      hide ReadPacketFrame;
      var s := left + pages[0];
      var r := ReadPacketFrame(pending, s, max);
      assert Arrive(Receiver([], left, pending), pages[0], max) == (Receiver([], s[r.used..], r.pending), r.outcome);
      PlainRun(r.pending, s[r.used..], pages[1..], max);
    }
  }

  /** A connection without pipes, over pages cut anywhere out of a stream of packets: it hands on the first
      packets of the stream and expects exactly the others if and only if every call finds a sound size. */
  lemma PlainExact(frames: seq<seq<byte>>, pages: seq<seq<byte>>, coming: seq<byte>, max: uint32)
    requires Good(PacketReader, frames, max) && Concat(pages) + coming == Stream(frames)
    ensures var r := RunCalls(PacketReader, 0, [], pages, max);
            && r.frames == HandedOn(Receiver([], [], 0), pages, max) && |r.frames| <= |pages|
            && (InPlace(frames, coming, r) <==> SoundRun(PacketReader, 0, 0, Lengths(frames), Lengths(pages)))
  {
    hide *;
    PlainRun(0, [], pages, max);
    OwingAtStart(frames, pages, coming);
    RunCallsExact(PacketReader, 0, [], frames, pages, coming, max);
  }

  lemma OwingAtStart(frames: seq<seq<byte>>, pages: seq<seq<byte>>, coming: seq<byte>)
    requires Concat(pages) + coming == Stream(frames)
    ensures Owing(0, [], frames, pages, coming)
  {
    assert [] + (Concat(pages) + coming) == Concat(pages) + coming;
  }

  // ---------- through pipelines ----------

  /** A receiver whose outermost pipe is in the middle of a frame, the others being idle. */
  function Midway(receivers: seq<Pipe>, pending: uint32, left: seq<byte>): Receiver
    requires receivers != []
  {
    Receiver([receivers[0].(readPending := pending)] + receivers[1..], left, 0)
  }

  predicate Idle(pipes: seq<Pipe>) {
    forall i :: 0 <= i < |pipes| ==> pipes[i].readPending == 0 && pipes[i].readerQueue == []
  }

  lemma {:induction false} IdleFold(pipes: seq<Pipe>)
    requires Idle(pipes)
    ensures ReadFold(pipes, []) == Folded(pipes, [], Flowing)
    decreases |pipes|
  {
    hide ReadFold, PipeRead;
    NoPipes([]);
    if pipes != [] {
      var p, rest := pipes[0], pipes[1..];
      IdleRead(p);
      IdleFold(rest);
      assert pipes == [p] + rest;
      ReadFoldUnfolds(p, rest, []);
    }
  }

  lemma IdleRead(p: Pipe)
    requires p.readPending == 0
    ensures PipeRead(p, []) == PipeCall(p, 0, Failure(IncompleteByteFrame, 0))
  {
    assert ReadVarInt([]) == Read(Failure(IncompleteVarInt, 0), 0);
  }

  lemma IdlePacket(max: uint32)
    ensures ReadPacketFrame(0, [], max) == PacketRead(0, 0, Failure(IncompleteFrame, 0))
  {
  }

  /** A page after which the outermost pipe is still waiting for its frame. */
  lemma ArriveWaits(receivers: seq<Pipe>, pending: uint32, left: seq<byte>, page: seq<byte>, max: uint32)
    requires receivers != [] && Idle(receivers)
    requires ReadFrame(pending, left + page, receivers[0].max).outcome.Failure?
    ensures var s := left + page;
            var r := ReadFrame(pending, s, receivers[0].max);
            Arrive(Midway(receivers, pending, left), page, max)
            == (Midway(receivers, r.pending, s[r.used..]), Failure(IncompleteFrame, 0))
  {
    hide ReadFold, ReadPacketFrame, ReadFrame;
    var s, rest := left + page, receivers[1..];
    var p := receivers[0].(readPending := pending);
    var c := PipeRead(p, s);
    ReadFoldUnfolds(p, rest, s);
    IdleFold(rest);
    IdlePacket(max);
    var f := ReadFold([p] + rest, s);
    assert f.pipes == [c.pipe] + rest;
    assert PutBackReader(f.pipes, []) == f.pipes;
  }

  /** A page with which the outermost pipe completes a frame that its receivers understand. */
  lemma ArriveHands(receivers: seq<Pipe>, payloads: seq<seq<byte>>, pending: uint32, left: seq<byte>,
                    page: seq<byte>, max: uint32)
    requires receivers != [] && Receives(receivers, payloads) && 0 < |payloads[|receivers|]| <= max
    requires ReadFrame(pending, left + page, receivers[0].max).outcome == Success(payloads[0])
    ensures var s := left + page;
            Arrive(Midway(receivers, pending, left), page, max)
            == (Midway(receivers, 0, s[ReadFrame(pending, s, receivers[0].max).used..]),
                Success(payloads[|receivers|]))
  {
    hide ReadFold, ReadPacketFrame, ReadFrame, Prefixed;
    var s, rest, whole := left + page, receivers[1..], Prefixed(payloads[0]);
    var p := receivers[0].(readPending := pending);
    assert receivers == [receivers[0]] + rest;
    SamePipe(receivers[0], pending, payloads[0], Prefixed(payloads[1]), s);
    ReadFoldUnfolds(p, rest, s);
    ReadFoldUnfolds(receivers[0], rest, whole);
    ReadFoldReceives(receivers, payloads);
    PacketRecognized(payloads[|receivers|], max);
    var f := ReadFold([p] + rest, s);
    assert ReaderEnd(f)[|ReaderEnd(f)|..] == [];
    assert PutBackReader(f.pipes, []) == AfterPacket(f.pipes);
  }

  /** Where a frame's bytes came from makes no difference to the pipe that has decoded it. */
  lemma SamePipe(p: Pipe, pending: uint32, payload: seq<byte>, out: seq<byte>, s: seq<byte>)
    requires p.readPending == 0 && p.readerQueue == [] && |payload| <= p.max
    requires p.codec.decode(payload) == Success(out)
    requires ReadFrame(pending, s, p.max).outcome == Success(payload)
    ensures var r, c := ReadFrame(pending, s, p.max), PipeRead(p.(readPending := pending), s);
            c == PipeCall(PipeRead(p, Prefixed(payload)).pipe, r.used, Success(|out|))
  {
    hide ReadFrame, Prefixed;
    ReadOneFrame(p, payload, out);
    assert [] + out == out;
  }

  /** The packets of a session and what they are on the wire side of the outermost pipe. */
  predicate AllReceived(receivers: seq<Pipe>, payloads: seq<seq<seq<byte>>>, frames: seq<seq<byte>>,
                        packets: seq<seq<byte>>, max: uint32) {
    && |payloads| == |packets| == |frames|
    && forall i :: 0 <= i < |packets| ==>
         && Receives(receivers, payloads[i]) && frames[i] == payloads[i][0]
         && packets[i] == payloads[i][|receivers|] && 0 < |packets[i]| <= max
  }

  lemma NextReceived(receivers: seq<Pipe>, payloads: seq<seq<seq<byte>>>, frames: seq<seq<byte>>,
                     packets: seq<seq<byte>>, max: uint32)
    requires AllReceived(receivers, payloads, frames, packets, max) && packets != []
    ensures |payloads| == |packets| == |frames|
    ensures AllReceived(receivers, payloads[1..], frames[1..], packets[1..], max)
    ensures Receives(receivers, payloads[0]) && |payloads[0]| == |receivers| + 1 && frames[0] == payloads[0][0]
    ensures packets[0] == payloads[0][|receivers|] && 0 < |packets[0]| <= max && Idle(receivers)
  {
    hide Prefixed;
    assert Receives(receivers, payloads[0]);
  }

  lemma FrameCall(pending: uint32, s: seq<byte>, max: uint32)
    ensures var r, c := ReadFrame(pending, s, max), CallOf(FrameReader, pending, s, max);
            && c.used == r.used && c.pending == r.pending
            && c.frames == (if r.outcome.Success? then [r.outcome.value] else [])
  {
  }

  /** The inner pipes follow the outermost one: as long as the frames it reads are those of the session, each
      of them comes out as its packet, on the page that completes it, and nothing else comes out. */
  lemma {:induction false} PipelineFollows(receivers: seq<Pipe>, payloads: seq<seq<seq<byte>>>,
                                           frames: seq<seq<byte>>, packets: seq<seq<byte>>, pending: uint32,
                                           left: seq<byte>, pages: seq<seq<byte>>, max: uint32)
    requires receivers != [] && Idle(receivers) && AllReceived(receivers, payloads, frames, packets, max)
    requires RunCalls(FrameReader, pending, left, pages, receivers[0].max).frames <= frames
    ensures |RunCalls(FrameReader, pending, left, pages, receivers[0].max).frames| <= |packets|
    ensures HandedOn(Midway(receivers, pending, left), pages, max)
            == packets[..|RunCalls(FrameReader, pending, left, pages, receivers[0].max).frames|]
    decreases |pages|
  {
    hide *;
    var limit := receivers[0].max;
    AsMany(receivers, payloads, frames, packets, max);
    RunCallsUnfold(FrameReader, pending, left, pages, limit);
    HandedOnUnfolds(Midway(receivers, pending, left), pages, max);
    if pages != [] {
      var s, later := left + pages[0], pages[1..];
      var r, c := ReadFrame(pending, s, limit), CallOf(FrameReader, pending, s, limit);
      FrameCall(pending, s, limit);
      var rest := RunCalls(FrameReader, c.pending, s[c.used..], later, limit);
      if r.outcome.Failure? {
        assert [] + rest.frames == rest.frames;
        ArriveWaits(receivers, pending, left, pages[0], max);
        PipelineFollows(receivers, payloads, frames, packets, r.pending, s[r.used..], later, max);
      } else {
        SplitFrames([r.outcome.value], rest.frames, frames);
        NextReceived(receivers, payloads, frames, packets, max);
        ArriveHands(receivers, payloads[0], pending, left, pages[0], max);
        PipelineFollows(receivers, payloads[1..], frames[1..], packets[1..], 0, s[r.used..], later, max);
        assert packets[..1 + |rest.frames|] == [packets[0]] + packets[1..][..|rest.frames|];
      }
    }
  }

  lemma AsMany(receivers: seq<Pipe>, payloads: seq<seq<seq<byte>>>, frames: seq<seq<byte>>,
               packets: seq<seq<byte>>, max: uint32)
    requires AllReceived(receivers, payloads, frames, packets, max)
    ensures |payloads| == |packets| == |frames|
    ensures receivers != [] ==> Good(FrameReader, frames, receivers[0].max)
  {
    hide Prefixed;
    forall i | 0 <= i < |frames| && receivers != [] ensures |frames[i]| <= receivers[0].max {
      assert Receives(receivers, payloads[i]);
    }
  }

  lemma SplitFrames(one: seq<seq<byte>>, rest: seq<seq<byte>>, frames: seq<seq<byte>>)
    requires |one| == 1 && one + rest <= frames
    ensures frames != [] && one[0] == frames[0] && rest <= frames[1..]
  {
    assert frames[..1 + |rest|] == one + rest;
    assert rest == frames[1..][..|rest|];
  }

  /** A connection with one or more pipes, over pages cut anywhere out of the outermost stream, as long as no
      call finds only part of a prefix: it hands on exactly as many of the first packets as the outermost
      pipe has completed reads, and that pipe expects exactly the frames of the others. */
  lemma PipelineDelivers(receivers: seq<Pipe>, payloads: seq<seq<seq<byte>>>, frames: seq<seq<byte>>,
                         packets: seq<seq<byte>>, pages: seq<seq<byte>>, coming: seq<byte>, max: uint32)
    requires receivers != [] && Idle(receivers) && AllReceived(receivers, payloads, frames, packets, max)
    requires Concat(pages) + coming == Stream(frames)
    requires SoundRun(FrameReader, 0, 0, Lengths(frames), Lengths(pages))
    ensures var r := RunCalls(FrameReader, 0, [], pages, receivers[0].max);
            && InPlace(frames, coming, r) && |r.frames| <= |packets|
            && HandedOn(Receiver(receivers, [], 0), pages, max) == packets[..|r.frames|]
  {
    hide *;
    AsMany(receivers, payloads, frames, packets, max);
    OwingAtStart(frames, pages, coming);
    RunCallsExact(FrameReader, 0, [], frames, pages, coming, receivers[0].max);
    PlacedFrames(frames, coming, RunCalls(FrameReader, 0, [], pages, receivers[0].max));
    PipelineFollows(receivers, payloads, frames, packets, 0, [], pages, max);
    StartMidway(receivers);
  }

  lemma PlacedFrames(frames: seq<seq<byte>>, coming: seq<byte>, r: Ran)
    requires InPlace(frames, coming, r)
    ensures r.frames <= frames
  {
  }

  lemma StartMidway(receivers: seq<Pipe>)
    requires receivers != [] && Idle(receivers)
    ensures Midway(receivers, 0, []) == Receiver(receivers, [], 0)
  {
    assert receivers == [receivers[0]] + receivers[1..];
  }

  /** Pages that do not end strictly inside a prefix of the outermost stream are such pages. */
  lemma PipelinePrefix(receivers: seq<Pipe>, payloads: seq<seq<seq<byte>>>, frames: seq<seq<byte>>,
                       packets: seq<seq<byte>>, pages: seq<seq<byte>>, coming: seq<byte>, max: uint32)
    requires receivers != [] && Idle(receivers) && AllReceived(receivers, payloads, frames, packets, max)
    requires Concat(pages) + coming == Stream(frames)
    requires forall k :: 0 < k <= |pages| ==> !EndsInside(frames, 0, pages, k)
    ensures var m := |RunCalls(FrameReader, 0, [], pages, receivers[0].max).frames|;
            m <= |packets| && HandedOn(Receiver(receivers, [], 0), pages, max) == packets[..m]
  {
    hide *;
    AsMany(receivers, payloads, frames, packets, max);
    PagesBetweenPrefixes(frames, pages, receivers[0].max);
    PipelineDelivers(receivers, payloads, frames, packets, pages, coming, max);
  }
}
