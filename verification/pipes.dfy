/** What the pipes of a connection do to the byte queues between them, and what a whole pipeline does. */
module Pipes {
  import opened Words
  import opened Codec
  import opened Framing
  import VarInts

  // ---------- byte-to-byte pipes ----------

  /** The two frame transformations a pipe supplies: the bytes it appends to its buffer for a frame. */
  datatype FrameCodec = FrameCodec(encode: seq<byte> -> Errorable<seq<byte>>, decode: seq<byte> -> Errorable<seq<byte>>)

  datatype Pipe = Pipe(codec: FrameCodec, max: uint32, readPending: uint32, writePending: uint32,
                       readerQueue: seq<byte>, writerQueue: seq<byte>)

  /** A call's effect: the pipe after it, the bytes it took from its input, and its outcome, which on
      success is the number of bytes it has appended. */
  datatype PipeCall = PipeCall(pipe: Pipe, used: nat, outcome: Errorable<nat>)

  function PipeRead(p: Pipe, s: seq<byte>): (c: PipeCall)
    ensures c.used <= |s|
  {
    var r := ReadFrame(p.readPending, s, p.max);
    match r.outcome
    case Failure(kind, code) => PipeCall(p.(readPending := r.pending), r.used, Failure(kind, code))
    case Success(frame) => Decoded(p, frame, r.used)
  }

  /** A whole frame has been taken: whatever the decoder says of it, no length is pending any more. */
  function Decoded(p: Pipe, frame: seq<byte>, used: nat): (c: PipeCall)
    ensures c.used == used
  {
    match p.codec.decode(frame)
    case Failure(kind, code) => PipeCall(p.(readPending := 0), used, Failure(kind, code))
    case Success(out) => PipeCall(p.(readPending := 0, readerQueue := p.readerQueue + out), used, Success(|out|))
  }

  function Encoded(p: Pipe, frame: seq<byte>, used: nat): (c: PipeCall)
    ensures c.used == used
  {
    match p.codec.encode(frame)
    case Failure(kind, code) => PipeCall(p.(writePending := 0), used, Failure(kind, code))
    case Success(out) => PipeCall(p.(writePending := 0, writerQueue := p.writerQueue + out), used, Success(|out|))
  }

  /** The part of a read after the length is known. */
  function DecodeBody(p: Pipe, length: uint32, s: seq<byte>, used: nat): (c: PipeCall)
    requires used <= |s|
  {
    if |s| - used >= length then Decoded(p, Piece(s, used, used + length), used + length)
    else PipeCall(p.(readPending := length), used, Failure(IncompleteByteFrame, length))
  }

  lemma PipeReadSteps(p: Pipe, s: seq<byte>)
    ensures p.readPending != 0 ==> PipeRead(p, s) == DecodeBody(p, p.readPending, s, 0)
    ensures p.readPending == 0 ==>
            var length := ReadVarInt(s);
            && (length.outcome.Success? && length.outcome.value <= p.max ==>
                  PipeRead(p, s) == DecodeBody(p, length.outcome.value, s, length.used))
            && (length.outcome.Success? && length.outcome.value > p.max ==>
                  PipeRead(p, s) == PipeCall(p, length.used, Failure(InvalidByteFrame, length.outcome.value)))
            && (length.outcome.Failure? ==>
                  PipeRead(p, s) == PipeCall(p, length.used,
                    Failure(if length.outcome.kind == IncompleteVarInt then IncompleteByteFrame
                            else InvalidByteFrame, 0)))
  {
  }

  /** The part of a write after the length is known. */
  function EncodeBody(p: Pipe, length: uint32, s: seq<byte>, used: nat): (c: PipeCall)
    requires used <= |s|
  {
    if |s| >= length then
      var taken := Min(length, |s| - used);
      Encoded(p, Piece(s, used, used + taken), used + taken)
    else PipeCall(p.(writePending := length), used, Failure(IncompleteByteFrame, length))
  }

  lemma PipeWriteSteps(p: Pipe, s: seq<byte>)
    ensures p.writePending != 0 ==> PipeWrite(p, s) == EncodeBody(p, p.writePending, s, 0)
    ensures p.writePending == 0 && s == [] ==> PipeWrite(p, s) == PipeCall(p, 0, Failure(IncompleteByteFrame, 0))
    ensures p.writePending == 0 && s != [] ==>
            var length := ReadVarInt(s);
            && (length.outcome.Success? ==>
                  PipeWrite(p, s) == EncodeBody(p, length.outcome.value, s, length.used))
            && (length.outcome.Failure? ==>
                  PipeWrite(p, s) == PipeCall(p, length.used,
                    Failure(if length.outcome.kind == IncompleteVarInt then IncompleteByteFrame
                            else InvalidByteFrame, 0)))
  {
  }

  /** What a frame writer sees: how many bytes it takes, the length it is left with, and the frame it
      hands to the encoder. */
  datatype FrameWrite = FrameWrite(pending: uint32, used: nat, outcome: Errorable<seq<byte>>)

  /** As written: whether the frame is there is judged by the count taken before its prefix was read,
      so the encoder may find fewer bytes than the frame has and takes those. */
  function WriteBody(length: uint32, s: seq<byte>, used: nat): (r: FrameWrite)
    requires used <= |s|
    ensures r.used <= |s|
  {
    if |s| >= length then
      var taken := Min(length, |s| - used);
      FrameWrite(0, used + taken, Success(Piece(s, used, used + taken)))
    else FrameWrite(length, used, Failure(IncompleteByteFrame, length))
  }

  function WriteFrame(pending: uint32, s: seq<byte>): (r: FrameWrite)
    ensures r.used <= |s|
  {
    if pending != 0 then WriteBody(pending, s, 0)
    else if |s| == 0 then FrameWrite(0, 0, Failure(IncompleteByteFrame, 0))
    else
      var length := ReadVarInt(s);
      match length.outcome
      case Failure(IncompleteVarInt, _) => FrameWrite(0, length.used, Failure(IncompleteByteFrame, 0))
      case Failure(_, _) => FrameWrite(0, length.used, Failure(InvalidByteFrame, 0))
      case Success(n) => WriteBody(n, s, length.used)
  }

  function PipeWrite(p: Pipe, s: seq<byte>): (c: PipeCall)
    ensures c.used <= |s|
  {
    var r := WriteFrame(p.writePending, s);
    match r.outcome
    case Failure(kind, code) => PipeCall(p.(writePending := r.pending), r.used, Failure(kind, code))
    case Success(frame) => Encoded(p, frame, r.used)
  }

  /** The length a call of the frame writer goes by: the pending one, else the one in front. */
  function Announced(pending: uint32, s: seq<byte>): Errorable<nat> {
    if pending != 0 then Success(pending) else ReadVarInt(s).outcome
  }

  /** The encoder is handed fewer bytes than the frame was announced with exactly when the length was read
      in the same call and counting the prefix's own bytes makes the frame look complete; otherwise it is
      handed the announced number of bytes, or nothing. */
  lemma ShortWriteExact(pending: uint32, s: seq<byte>)
    ensures var r, length := WriteFrame(pending, s).outcome, Announced(pending, s);
            && (r.Success? ==> length.Success? && |r.value| <= length.value)
            && (r.Success? && |r.value| < length.value
                <==> pending == 0 && length.Success? && |s| - ReadVarInt(s).used < length.value <= |s|)
  {
    if s == [] {
      assert ReadVarInt(s) == Read(Failure(IncompleteVarInt, 0), 0);
    }
  }

  // ---------- the packet pipe ----------

  datatype PacketRead = PacketRead(pending: uint32, used: nat, outcome: Errorable<seq<byte>>)

  /** As written: the packet reader is started by the count taken before the prefix was read, and takes
      what it finds up to the frame's length; an empty frame is passed over. */
  function ReadPacketFrame(pending: uint32, s: seq<byte>, max: uint32): (r: PacketRead)
    ensures r.used <= |s|
  {
    if pending != 0 then PacketBody(pending, s, 0)
    else if |s| == 0 then PacketRead(0, 0, Failure(IncompleteFrame, 0))
    else
      var length := ReadVarInt(s);
      match length.outcome
      case Failure(IncompleteVarInt, _) => PacketRead(0, length.used, Failure(IncompleteFrame, |s|))
      case Failure(_, _) => PacketRead(0, length.used, Failure(InvalidFrame, 0))
      case Success(n) =>
        if n > max then PacketRead(0, length.used, Failure(InvalidFrame, n))
        else PacketBody(n, s, length.used)
  }

  function PacketBody(length: uint32, s: seq<byte>, used: nat): (r: PacketRead)
    requires used <= |s|
    ensures r.used <= |s|
  {
    if length != 0 && |s| >= length then
      var taken := Min(length, |s| - used);
      PacketRead(0, used + taken, Success(Piece(s, used, used + taken)))
    else PacketRead(length, used, Failure(IncompleteFrame, |s|))
  }

  /** A page that holds a prefix announcing two bytes and one of them: the packet pipe takes the prefix for
      the missing byte and hands on a packet of one. */
  lemma StaleCount(b: byte, max: uint32)
    requires max >= 2
    ensures ReadPacketFrame(0, [2, b], max) == PacketRead(0, 2, Success([b]))
  {
    var s: seq<byte> := [2, b];
    VarInts.DecodeValue(s, VarInts.VARINT_LIMIT, TWO_32, 0);
    assert s[..1] == [2] && [2][1..] == [] && VarInts.Value([2]) == 2;
    hide VarInts.Decode, VarInts.Value;
    assert Piece(s, 1, 2) == [b];
  }

  lemma ReadPacketSteps(pending: uint32, s: seq<byte>, max: uint32)
    ensures pending != 0 ==> ReadPacketFrame(pending, s, max) == PacketBody(pending, s, 0)
    ensures pending == 0 && s == [] ==>
            ReadPacketFrame(pending, s, max) == PacketRead(0, 0, Failure(IncompleteFrame, 0))
    ensures pending == 0 && s != [] ==>
            var length, r := ReadVarInt(s), ReadPacketFrame(pending, s, max);
            && (length.outcome.Success? && length.outcome.value <= max ==>
                  r == PacketBody(length.outcome.value, s, length.used))
            && (length.outcome.Success? && length.outcome.value > max ==>
                  r == PacketRead(0, length.used, Failure(InvalidFrame, length.outcome.value)))
            && (length.outcome.Failure? ==>
                  r == PacketRead(0, length.used, if length.outcome.kind == IncompleteVarInt
                                                  then Failure(IncompleteFrame, |s|) else Failure(InvalidFrame, 0)))
  {
  }

  lemma PacketBodySteps(length: uint32, s: seq<byte>, used: nat)
    requires used <= |s|
    ensures length == 0 || |s| < length ==>
            PacketBody(length, s, used) == PacketRead(length, used, Failure(IncompleteFrame, |s|))
    ensures length != 0 && |s| >= length ==>
            var taken := Min(length, |s| - used);
            && PacketBody(length, s, used) == PacketRead(0, used + taken, Success(Piece(s[used..], 0, taken)))
            && s[used..][taken..] == s[used + taken..]
  {
    if length != 0 && |s| >= length {
      var taken := Min(length, |s| - used);
      assert Piece(s[used..], 0, taken) == Piece(s, used, used + taken);
    }
  }

  predicate NonEmpty(frames: seq<seq<byte>>) {
    forall i :: 0 <= i < |frames| ==> frames[i] != []
  }

  lemma BodyPiece(prefix: seq<byte>, f: seq<byte>, rest: seq<byte>)
    ensures Piece(prefix + f + rest, |prefix|, |prefix| + |f|) == f
  {
  }

  /** A call on whole frames hands on the first of them and leaves the others. */
  lemma WholeFramesCall(frames: seq<seq<byte>>, max: uint32)
    requires frames != [] && Within(frames, max) && NonEmpty(frames)
    ensures ReadPacketFrame(0, Stream(frames), max) == PacketRead(0, |Prefixed(frames[0])|, Success(frames[0]))
    ensures Stream(frames)[|Prefixed(frames[0])|..] == Stream(frames[1..])
  {
    var f := frames[0];
    var prefix, body := VarInts.Encode(|f|), f + Stream(frames[1..]);
    LateStream(frames, 0);
    assert prefix[0..] == prefix && Stream(frames)[0..] == Stream(frames) == prefix + body;
    hide VarInts.Encode, ReadVarInt;
    VarIntRoundTrip(|f|, body);
    assert Piece(prefix + body, |prefix|, |prefix| + |f|) == f;
  }

  // ---------- whole pipelines ----------

  datatype Status = Flowing | Stopped | Broken

  /** A pass over a pipeline: the pipes after it, what is left in the queue it started from, and how it
      ended. Each pipe works on the queue of its neighbour, which keeps what the pipe did not take. */
  datatype Folded = Folded(pipes: seq<Pipe>, left: seq<byte>, status: Status)

  /** An outgoing packet, through the pipes from the last to the first. */
  function WriteFold(pipes: seq<Pipe>, s: seq<byte>): (f: Folded)
    ensures |f.pipes| == |pipes|
    decreases |pipes|
  {
    if pipes == [] then Folded([], s, Flowing)
    else
      var n := |pipes| - 1;
      var c := PipeWrite(pipes[n], s);
      match c.outcome
      case Failure(_, _) => Folded(pipes[..n] + [c.pipe], s[c.used..], Broken)
      case Success(count) =>
        if count == 0 then Folded(pipes[..n] + [c.pipe], s[c.used..], Stopped)
        else
          var rest := WriteFold(pipes[..n], c.pipe.writerQueue);
          Folded(rest.pipes + [c.pipe.(writerQueue := rest.left)], s[c.used..], rest.status)
  }

  /** Arrived bytes, through the pipes from the first to the last; outcomes are not looked at. */
  function ReadFold(pipes: seq<Pipe>, s: seq<byte>): (f: Folded)
    ensures |f.pipes| == |pipes|
    decreases |pipes|
  {
    if pipes == [] then Folded([], s, Flowing)
    else
      var c := PipeRead(pipes[0], s);
      var rest := ReadFold(pipes[1..], c.pipe.readerQueue);
      Folded([c.pipe.(readerQueue := rest.left)] + rest.pipes, s[c.used..], Flowing)
  }

  /** The queue an outgoing pass ends in, and the pipes once it has been emptied onto the wire. */
  function WriterEnd(f: Folded): seq<byte> {
    if f.pipes == [] then f.left else f.pipes[0].writerQueue
  }

  function AfterWire(pipes: seq<Pipe>): seq<Pipe> {
    if pipes == [] then [] else [pipes[0].(writerQueue := [])] + pipes[1..]
  }

  /** Emptying it onto the wire touches nothing but the outermost pipe's own queue. */
  lemma OnlyTheWireIsTaken(f: Folded)
    ensures f.pipes == [] ==> WriterEnd(f) == f.left && AfterWire(f.pipes) == []
    ensures f.pipes != [] ==>
              && f.pipes[0].writerQueue == WriterEnd(f) && |AfterWire(f.pipes)| == |f.pipes|
              && AfterWire(f.pipes)[0] == f.pipes[0].(writerQueue := [])
              && forall i :: 0 < i < |f.pipes| ==> AfterWire(f.pipes)[i] == f.pipes[i]
  {
  }

  /** The queue an incoming pass ends in, and the pipes once the packet pipe has emptied it. */
  function ReaderEnd(f: Folded): seq<byte> {
    if f.pipes == [] then f.left else f.pipes[|f.pipes| - 1].readerQueue
  }

  function AfterPacket(pipes: seq<Pipe>): seq<Pipe> {
    if pipes == [] then [] else pipes[..|pipes| - 1] + [pipes[|pipes| - 1].(readerQueue := [])]
  }

  /** One payload on its way out and in: `payloads[i]` is what it is on the wire side of pipe `i`. Each
      sender encodes it, and each receiver, idle and with room for the frame, undoes that. */
  predicate Sends(senders: seq<Pipe>, payloads: seq<seq<byte>>) {
    && |payloads| == |senders| + 1
    && (forall i :: 0 < i < |payloads| ==> |payloads[i]| < TWO_32)
    && (forall i :: 0 <= i < |senders| ==>
          && senders[i].codec.encode(payloads[i + 1]) == Success(Prefixed(payloads[i]))
          && senders[i].writePending == 0 && senders[i].writerQueue == [])
  }

  predicate Receives(receivers: seq<Pipe>, payloads: seq<seq<byte>>) {
    && |payloads| == |receivers| + 1
    && (forall i :: 0 <= i < |receivers| ==>
          && receivers[i].codec.decode(payloads[i]) == Success(Prefixed(payloads[i + 1]))
          && receivers[i].readPending == 0 && receivers[i].readerQueue == []
          && |payloads[i]| <= receivers[i].max)
  }

  predicate Travels(senders: seq<Pipe>, receivers: seq<Pipe>, payloads: seq<seq<byte>>) {
    Sends(senders, payloads) && Receives(receivers, payloads)
  }

  lemma OnlyFrame(payload: seq<byte>)
    requires |payload| < 0x1_0000_0000
    ensures var prefix, s := VarInts.Encode(|payload|), Prefixed(payload);
            && |prefix| > 0 && s == prefix + payload && Piece(s, |prefix|, |prefix| + |payload|) == payload
            && ReadVarInt(s) == Read(Success(|payload|), |prefix|)
  {
    hide VarInts.Encode, ReadVarInt, Piece;
    VarIntRoundTrip(|payload|, payload);
    var prefix := VarInts.Encode(|payload|);
    BodyPiece(prefix, payload, []);
    assert prefix + payload + [] == prefix + payload;
  }

  /** A pipe given one whole prefixed frame encodes it. */
  lemma WriteOneFrame(p: Pipe, payload: seq<byte>, out: seq<byte>)
    requires |payload| < 0x1_0000_0000 && p.writePending == 0 && p.writerQueue == []
    requires p.codec.encode(payload) == Success(out)
    ensures PipeWrite(p, Prefixed(payload))
            == PipeCall(p.(writerQueue := out), |Prefixed(payload)|, Success(|out|))
  {
    hide VarInts.Encode, ReadVarInt, Piece;
    OnlyFrame(payload);
    assert [] + out == out;
  }

  lemma ReadOneFrame(p: Pipe, payload: seq<byte>, out: seq<byte>)
    requires |payload| <= p.max && p.readPending == 0 && p.readerQueue == []
    requires p.codec.decode(payload) == Success(out)
    ensures PipeRead(p, Prefixed(payload))
            == PipeCall(p.(readerQueue := out), |Prefixed(payload)|, Success(|out|))
  {
    hide VarInts.Encode, ReadVarInt, Piece;
    OnlyFrame(payload);
    ReadAfterPrefix(|payload|, payload, p.max);
    assert [] + out == out;
  }

  lemma {:induction false} WriteFoldSends(senders: seq<Pipe>, payloads: seq<seq<byte>>)
    requires Sends(senders, payloads)
    ensures |payloads| == |senders| + 1
    ensures var f := WriteFold(senders, Prefixed(payloads[|senders|]));
            && f.status == Flowing && WriterEnd(f) == Prefixed(payloads[0])
            && (senders != [] ==> f.left == []) && AfterWire(f.pipes) == senders
    decreases |senders|
  {
    hide *;
    SendsUpTo(senders, payloads);
    var s := Prefixed(payloads[|senders|]);
    WriteFoldUnfolds(senders, s);
    if senders != [] {
      var n := |senders| - 1;
      WriteFoldUnfolds(senders[..n], Prefixed(payloads[n]));
      WriteOneFrame(senders[n], payloads[n + 1], Prefixed(payloads[n]));
      PrefixedIsNotEmpty(payloads[n]);
      WriteFoldSends(senders[..n], payloads[..n + 1]);
      WireEnd(WriteFold(senders[..n], Prefixed(payloads[n])), senders, Prefixed(payloads[n]));
      assert s[|s|..] == [];
    }
  }

  /** The last pipe's part of an outgoing pass, when it passes something on. */
  lemma WriteFoldUnfolds(pipes: seq<Pipe>, s: seq<byte>)
    ensures pipes == [] ==>
            var f := WriteFold(pipes, s);
            f == Folded([], s, Flowing) && WriterEnd(f) == s && AfterWire(f.pipes) == pipes
    ensures pipes != [] ==>
            var n := |pipes| - 1;
            var c := PipeWrite(pipes[n], s);
            c.outcome.Success? && c.outcome.value > 0 ==>
              var rest := WriteFold(pipes[..n], c.pipe.writerQueue);
              WriteFold(pipes, s)
              == Folded(rest.pipes + [c.pipe.(writerQueue := rest.left)], s[c.used..], rest.status)
  {
  }

  lemma WireEnd(rest: Folded, senders: seq<Pipe>, out: seq<byte>)
    requires senders != [] && |rest.pipes| == |senders| - 1
    requires AfterWire(rest.pipes) == senders[..|senders| - 1] && senders[|senders| - 1].writerQueue == []
    requires if |senders| > 1 then rest.left == [] else rest.left == out && rest.pipes == []
    ensures var last := senders[|senders| - 1].(writerQueue := out).(writerQueue := rest.left);
            forall left, status ::
              var f := Folded(rest.pipes + [last], left, status);
              AfterWire(f.pipes) == senders && WriterEnd(f) == (if |senders| > 1 then WriterEnd(rest) else out)
  {
    var n := |senders| - 1;
    var last := senders[n].(writerQueue := out).(writerQueue := rest.left);
    assert senders == senders[..n] + [senders[n]];
    if n > 0 {
      assert (rest.pipes + [last])[1..] == rest.pipes[1..] + [last];
    }
  }

  lemma SendsUpTo(senders: seq<Pipe>, payloads: seq<seq<byte>>)
    requires Sends(senders, payloads)
    ensures |payloads| == |senders| + 1
    ensures senders != [] ==>
            var n := |senders| - 1;
            && Sends(senders[..n], payloads[..n + 1])
            && |payloads[n + 1]| < 0x1_0000_0000 && senders[n].writePending == 0 && senders[n].writerQueue == []
            && senders[n].codec.encode(payloads[n + 1]) == Success(Prefixed(payloads[n]))
  {
    hide Prefixed;
  }

  lemma PrefixedIsNotEmpty(s: seq<byte>)
    ensures |Prefixed(s)| > 0
  {
  }

  lemma {:induction false} ReadFoldReceives(receivers: seq<Pipe>, payloads: seq<seq<byte>>)
    requires Receives(receivers, payloads)
    ensures |payloads| == |receivers| + 1
    ensures var f := ReadFold(receivers, Prefixed(payloads[0]));
            && ReaderEnd(f) == Prefixed(payloads[|receivers|])
            && (receivers != [] ==> f.left == []) && AfterPacket(f.pipes) == receivers
    decreases |receivers|
  {
    hide *;
    ReceivesFrom(receivers, payloads);
    NoPipes(Prefixed(payloads[0]));
    if receivers != [] {
      var p, rest, whole, inner := receivers[0], receivers[1..], Prefixed(payloads[0]), Prefixed(payloads[1]);
      assert receivers == [p] + rest && whole[|whole|..] == [];
      ReadOneFrame(p, payloads[0], inner);
      ReadFoldUnfolds(p, rest, whole);
      ReadFoldReceives(rest, payloads[1..]);
      NoPipes(inner);
      ReadEnd(ReadFold(rest, inner), p, rest, inner);
    }
  }

  lemma NoPipes(s: seq<byte>)
    ensures ReadFold([], s) == Folded([], s, Flowing) && ReaderEnd(ReadFold([], s)) == s && AfterPacket([]) == []
  {
  }

  lemma ReadFoldUnfolds(p: Pipe, rest: seq<Pipe>, s: seq<byte>)
    ensures var c := PipeRead(p, s);
            var f := ReadFold(rest, c.pipe.readerQueue);
            ReadFold([p] + rest, s) == Folded([c.pipe.(readerQueue := f.left)] + f.pipes, s[c.used..], Flowing)
  {
    assert ([p] + rest)[1..] == rest;
  }

  lemma ReadEnd(f: Folded, p: Pipe, rest: seq<Pipe>, out: seq<byte>)
    requires |f.pipes| == |rest| && AfterPacket(f.pipes) == rest && p.readerQueue == []
    requires if rest != [] then f.left == [] else f.left == out && f.pipes == []
    ensures var first := p.(readerQueue := out).(readerQueue := f.left);
            forall left ::
              var g := Folded([first] + f.pipes, left, Flowing);
              AfterPacket(g.pipes) == [p] + rest && ReaderEnd(g) == (if rest != [] then ReaderEnd(f) else out)
  {
    var first := p.(readerQueue := out).(readerQueue := f.left);
    if rest != [] {
      assert ([first] + f.pipes)[..|rest|] == [first] + f.pipes[..|rest| - 1];
    } else {
      assert ([first] + f.pipes)[..0] == [];
    }
  }

  lemma ReceivesFrom(receivers: seq<Pipe>, payloads: seq<seq<byte>>)
    requires Receives(receivers, payloads)
    ensures |payloads| == |receivers| + 1
    ensures receivers != [] ==>
            && Receives(receivers[1..], payloads[1..]) && |payloads[0]| <= receivers[0].max
            && receivers[0].readPending == 0 && receivers[0].readerQueue == []
            && receivers[0].codec.decode(payloads[0]) == Success(Prefixed(payloads[1]))
  {
    if receivers == [] {
      return;
    }
    var r, p := receivers[1..], payloads[1..];
    assert forall i :: 0 <= i < |r| ==> r[i] == receivers[i + 1];
    assert forall i :: 0 <= i < |p| ==> p[i] == payloads[i + 1];
  }

  /** A pipeline of any length undoes itself: the outgoing pass over the senders followed by the incoming
      pass over a peer's pipes hands the peer's packet pipe the very bytes the packet was written as,
      and leaves every pipe on both sides as it was, ready for the next packet. */
  lemma PipelineInverse(senders: seq<Pipe>, receivers: seq<Pipe>, payloads: seq<seq<byte>>)
    requires Travels(senders, receivers, payloads)
    ensures |payloads| == |senders| + 1 && |senders| == |receivers|
    ensures var packet := Prefixed(payloads[|senders|]);
            var sent := WriteFold(senders, packet);
            var received := ReadFold(receivers, WriterEnd(sent));
            && sent.status == Flowing && AfterWire(sent.pipes) == senders
            && WriterEnd(sent) == Prefixed(payloads[0])
            && ReaderEnd(received) == packet && AfterPacket(received.pipes) == receivers
            && (senders != [] ==> sent.left == [] && received.left == [])
  {
    hide WriteFold, ReadFold, Prefixed;
    WriteFoldSends(senders, payloads);
    ReadFoldReceives(receivers, payloads);
  }

  /** One whole packet in front of the packet pipe. */
  lemma PacketRecognized(packet: seq<byte>, packetMax: uint32)
    requires 0 < |packet| <= packetMax
    ensures ReadPacketFrame(0, Prefixed(packet), packetMax) == PacketRead(0, |Prefixed(packet)|, Success(packet))
  {
    hide ReadPacketFrame, Prefixed;
    WholeFramesCall([packet], packetMax);
    assert Stream([packet]) == Prefixed(packet) + [] == Prefixed(packet);
  }

  /** End to end: what a connection writes for one packet, handed to an idle peer whole, makes the peer's
      packet pipe hand on exactly that packet, with nothing left over. */
  lemma PacketArrives(senders: seq<Pipe>, receivers: seq<Pipe>, payloads: seq<seq<byte>>, packetMax: uint32)
    requires Travels(senders, receivers, payloads)
    requires 0 < |payloads[|senders|]| <= packetMax
    ensures var packet := payloads[|senders|];
            var wire := WriterEnd(WriteFold(senders, Prefixed(packet)));
            ReadPacketFrame(0, ReaderEnd(ReadFold(receivers, wire)), packetMax)
            == PacketRead(0, |Prefixed(packet)|, Success(packet))
  {
    PipelineInverse(senders, receivers, payloads);
    PacketRecognized(payloads[|senders|], packetMax);
  }
}
