/** A repaired frame reader, which is not the one in the source: it leaves a length prefix that has only
    partly arrived in its input. It shows what the source's reader lacks. */
module KeepingReaders {
  import opened Words
  import opened Codec
  import opened Framing
  import VarInts

  /** A call of the repaired reader: an incomplete prefix is not taken. */
  function ReadFrameKeeping(pending: uint32, s: seq<byte>, max: uint32): (r: FrameRead)
    ensures r.used <= |s|
    ensures r.outcome.Success? ==> r.used > 0 && r.pending == 0
  {
    if pending == 0 && ReadVarInt(s).outcome.Failure? && ReadVarInt(s).outcome.kind == IncompleteVarInt then
      FrameRead(0, 0, Failure(IncompleteByteFrame, 0))
    else ReadFrame(pending, s, max)
  }

  function DriveKeeping(pending: uint32, s: seq<byte>, max: uint32): Driven
    decreases |s|
  {
    var r := ReadFrameKeeping(pending, s, max);
    match r.outcome
    case Failure(_, _) => Driven([], r.pending, s[r.used..])
    case Success(frame) =>
      var more := DriveKeeping(r.pending, s[r.used..], max);
      Driven([frame] + more.frames, more.pending, more.left)
  }

  function RunKeeping(pending: uint32, left: seq<byte>, arrivals: seq<seq<byte>>, max: uint32): seq<seq<byte>>
    decreases |arrivals|
  {
    if arrivals == [] then []
    else
      var r := DriveKeeping(pending, left + arrivals[0], max);
      r.frames + RunKeeping(r.pending, r.left, arrivals[1..], max)
  }

  /** The reader holds back the front of what it expects: less than a prefix, or less than a frame. */
  predicate Holds(pending: uint32, left: seq<byte>, frames: seq<seq<byte>>)
    ensures Holds(pending, left, frames) ==> Expects(pending, frames) && |left| <= |Rest(pending, frames)|
  {
    && Expects(pending, frames) && left <= Rest(pending, frames)
    && (frames != [] ==> |left| < if pending == 0 then PrefixLength(frames[0]) else pending)
  }

  lemma CallKeeps(pending: uint32, frames: seq<seq<byte>>, s: seq<byte>, max: uint32)
    requires Expects(pending, frames) && frames != [] && Within(frames, max) && s <= Rest(pending, frames)
    ensures pending == 0 && |s| < PrefixLength(frames[0]) ==>
            ReadFrameKeeping(0, s, max) == FrameRead(0, 0, Failure(IncompleteByteFrame, 0))
    ensures pending != 0 || |s| >= PrefixLength(frames[0]) ==>
            ReadFrameKeeping(pending, s, max) == ReadFrame(pending, s, max)
  {
    hide Stream, VarInts.Encode, ReadVarInt, ReadFrame, Prefixed;
    if pending == 0 {
      var n := |frames[0]|;
      var prefix, body := VarInts.Encode(n), frames[0] + Stream(frames[1..]);
      LateStream(frames, 0);
      if |s| < |prefix| {
        FrontOf(s, prefix, body, Stream(frames));
        PartialPrefix(n, |s|);
      } else {
        assert Stream(frames)[0..] == Stream(frames) && prefix[0..] == prefix;
        SplitPrefix(s, prefix, body);
        VarIntRoundTrip(n, s[|prefix|..]);
      }
    }
  }

  lemma KeepingUnfolds(pending: uint32, s: seq<byte>, max: uint32)
    ensures var r := ReadFrameKeeping(pending, s, max);
            && (r.outcome.Failure? ==> DriveKeeping(pending, s, max) == Driven([], r.pending, s[r.used..]))
            && (r.outcome.Success? ==>
                  var more := DriveKeeping(r.pending, s[r.used..], max);
                  DriveKeeping(pending, s, max) == Driven([r.outcome.value] + more.frames, more.pending, more.left))
  {
  }

  lemma HoldsMeans(pending: uint32, left: seq<byte>, frames: seq<seq<byte>>)
    requires Expects(pending, frames) && left <= Rest(pending, frames)
    ensures frames == [] ==> Holds(pending, left, frames)
    ensures frames != [] && |left| < (if pending == 0 then PrefixLength(frames[0]) else pending) ==>
            Holds(pending, left, frames)
  {
  }

  /** Driving the repaired reader over any piece of the stream hands over the whole frames in it, in order,
      and holds the rest back. */
  lemma {:induction false} DriveHolds(pending: uint32, frames: seq<seq<byte>>, s: seq<byte>, max: uint32)
    requires Expects(pending, frames) && Within(frames, max) && s <= Rest(pending, frames)
    ensures var r := DriveKeeping(pending, s, max);
            && |r.frames| <= |frames| && r.frames == frames[..|r.frames|]
            && var after := frames[|r.frames|..];
               Holds(r.pending, r.left, after) && Rest(pending, frames)[|s|..] == Rest(r.pending, after)[|r.left|..]
    decreases |s|
  {
    hide *;
    KeepingUnfolds(pending, s, max);
    assert frames[0..] == frames && frames[..0] == [] && s[0..] == s;
    if frames == [] {
      NothingExpected(pending, s, max);
      KeepsNothing(max);
      HoldsMeans(pending, s, frames);
    } else {
      IdleExpects(frames);
      IdleExpects(frames[1..]);
      CallKeeps(pending, frames, s, max);
      var p := if pending == 0 then PrefixLength(frames[0]) else 0;
      if |s| < p {
        HoldsMeans(0, s, frames);
      } else if |s| < p + |frames[0]| {
        CallWaits(pending, frames, s, max);
        HoldsMeans(|frames[0]|, s[p..], frames);
      } else {
        CallCompletes(pending, frames, s, max);
        WithinTail(frames, 1, max);
        var used := p + |frames[0]|;
        DriveHolds(0, frames[1..], s[used..], max);
        HeadAndPrefix(frames, |DriveKeeping(0, s[used..], max).frames|);
      }
    }
  }

  lemma KeepsNothing(max: uint32)
    ensures ReadFrameKeeping(0, [], max) == FrameRead(0, 0, Failure(IncompleteByteFrame, 0))
  {
    assert ReadVarInt([]) == Read(Failure(IncompleteVarInt, 0), 0);
  }

  lemma NothingHeld(pending: uint32, left: seq<byte>, frames: seq<seq<byte>>)
    requires Holds(pending, left, frames) && Rest(pending, frames)[|left|..] == []
    ensures frames == []
  {
    assert |left| == |Rest(pending, frames)|;
  }

  lemma HeldFront(pending: uint32, left: seq<byte>, frames: seq<seq<byte>>, arrivals: seq<seq<byte>>)
    requires Holds(pending, left, frames) && Concat(arrivals) == Rest(pending, frames)[|left|..]
    ensures Expects(pending, frames)
    ensures arrivals == [] ==> Concat(arrivals) == []
    ensures arrivals != [] ==>
            var s := left + arrivals[0];
            s <= Rest(pending, frames) && Rest(pending, frames)[|s|..] == Concat(arrivals[1..])
  {
    hide Rest;
    if arrivals != [] {
      var rest := Rest(pending, frames);
      assert rest == left + (arrivals[0] + Concat(arrivals[1..])) == (left + arrivals[0]) + Concat(arrivals[1..]);
    }
  }

  lemma {:induction false} RunHolds(pending: uint32, left: seq<byte>, frames: seq<seq<byte>>,
                                    arrivals: seq<seq<byte>>, max: uint32)
    requires Within(frames, max) && Holds(pending, left, frames)
    requires Concat(arrivals) == Rest(pending, frames)[|left|..]
    ensures RunKeeping(pending, left, arrivals, max) == frames
    decreases |arrivals|
  {
    hide *;
    HeldFront(pending, left, frames, arrivals);
    KeepingRun(pending, left, arrivals, max);
    if arrivals == [] {
      NothingHeld(pending, left, frames);
    } else {
      var s := left + arrivals[0];
      var r := DriveKeeping(pending, s, max);
      DriveHolds(pending, frames, s, max);
      WithinTail(frames, |r.frames|, max);
      RunHolds(r.pending, r.left, frames[|r.frames|..], arrivals[1..], max);
      assert frames[..|r.frames|] + frames[|r.frames|..] == frames;
    }
  }

  lemma KeepingRun(pending: uint32, left: seq<byte>, arrivals: seq<seq<byte>>, max: uint32)
    ensures arrivals == [] ==> RunKeeping(pending, left, arrivals, max) == []
    ensures arrivals != [] ==>
            var r := DriveKeeping(pending, left + arrivals[0], max);
            RunKeeping(pending, left, arrivals, max) == r.frames + RunKeeping(r.pending, r.left, arrivals[1..], max)
  {
  }

  /** The repaired reader hands over exactly the frames of a stream, however it is cut into arrivals. */
  lemma AnyChunking(frames: seq<seq<byte>>, arrivals: seq<seq<byte>>, max: uint32)
    requires Within(frames, max) && Concat(arrivals) == Stream(frames)
    ensures RunKeeping(0, [], arrivals, max) == frames
  {
    hide *;
    IdleExpects(frames);
    StartHolds(frames);
    RunHolds(0, [], frames, arrivals, max);
  }

  lemma StartHolds(frames: seq<seq<byte>>)
    ensures Holds(0, [], frames) && Expects(0, frames) && Rest(0, frames)[0..] == Stream(frames)
  {
  }
}
