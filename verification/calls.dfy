/** One call per arrival: the readers of length-prefixed frames that a connection calls once for every page
    or packet, and what a run of such calls makes of a stream of frames. */
module Calls {
  import opened Words
  import opened Codec
  import opened Framing
  import opened Pipes
  import VarInts

  /** A byte pipe on its way in, a byte pipe on its way out, and the packet pipe. */
  datatype Reader = FrameReader | FrameWriter | PacketReader

  /** What a call leaves pending, how many bytes it takes, the frame it hands over, if any, and whether it
      reports anything worse than an incomplete frame. */
  datatype Call = Call(pending: uint32, used: nat, frames: seq<seq<byte>>, refused: bool)

  function Outcome(pending: uint32, used: nat, outcome: Errorable<seq<byte>>, incomplete: ErrorKind): (c: Call)
    ensures c.used == used
  {
    Call(pending, used, if outcome.Success? then [outcome.value] else [],
         outcome.Failure? && outcome.kind != incomplete)
  }

  function CallOf(reader: Reader, pending: uint32, s: seq<byte>, max: uint32): (c: Call)
    ensures c.used <= |s| && |c.frames| <= 1
  {
    match reader
    case FrameReader =>
      var r := ReadFrame(pending, s, max);
      Outcome(r.pending, r.used, r.outcome, IncompleteByteFrame)
    case FrameWriter =>
      var r := WriteFrame(pending, s);
      Outcome(r.pending, r.used, r.outcome, IncompleteByteFrame)
    case PacketReader =>
      var r := ReadPacketFrame(pending, s, max);
      Outcome(r.pending, r.used, r.outcome, IncompleteFrame)
  }

  /** A call from the point where the length is known. */
  function BodyCall(reader: Reader, length: uint32, s: seq<byte>, used: nat): Call
    requires used <= |s|
  {
    var taken := Min(length, |s| - used);
    if (if reader.FrameReader? then taken == length else |s| >= length) && (reader.PacketReader? ==> length != 0) then
      Call(0, used + taken, [Piece(s, used, used + taken)], false)
    else Call(length, used, [], false)
  }

  lemma CallSteps(reader: Reader, pending: uint32, s: seq<byte>, max: uint32)
    ensures pending != 0 ==> CallOf(reader, pending, s, max) == BodyCall(reader, pending, s, 0)
    ensures pending == 0 ==>
            var length := ReadVarInt(s);
            && (length.outcome.Success? && length.outcome.value <= max ==>
                  CallOf(reader, 0, s, max) == BodyCall(reader, length.outcome.value, s, length.used))
            && (length.outcome.Failure? && length.outcome.kind == IncompleteVarInt ==>
                  CallOf(reader, 0, s, max) == Call(0, length.used, [], false))
  {
    if s == [] {
      assert ReadVarInt(s) == Read(Failure(IncompleteVarInt, 0), 0);
    }
  }

  // ---------- one call on a stream ----------

  /** Frames a reader accepts: within its limit, and for the packet pipe, which passes over an empty frame,
      none of them empty. */
  predicate Good(reader: Reader, frames: seq<seq<byte>>, max: uint32) {
    Within(frames, max) && (reader.PacketReader? ==> NonEmpty(frames))
  }

  function PrefixBytes(length: nat): nat {
    |VarInts.Encode(Truncated(length))|
  }

  /** How much of a length prefix is still to be read in front of a frame. */
  function Ahead(pending: nat, length: nat): nat {
    if pending == 0 then PrefixBytes(length) else 0
  }

  /** When a call that finds `size` bytes before the end of a frame of this length keeps its place: a length
      is pending, or nothing is there, or the prefix is there and the frame is all there or does not look
      so to a reader that counts the prefix's own bytes. */
  predicate SizeSound(reader: Reader, pending: nat, size: nat, length: nat) {
    || pending != 0 || size == 0
    || (PrefixBytes(length) <= size && (reader.FrameReader? || !(length <= size < PrefixBytes(length) + length)))
  }

  /** Everything a call can do on the front of a stream. */
  lemma CallShape(reader: Reader, pending: uint32, frames: seq<seq<byte>>, s: seq<byte>, max: uint32)
    requires Expects(pending, frames) && Good(reader, frames, max) && frames != [] && s <= Rest(pending, frames)
    ensures var f, c := frames[0], CallOf(reader, pending, s, max);
            var p := Ahead(pending, |f|);
            && (|s| < p ==> c == Call(0, |s|, [], false))
            && (|s| >= p + |f| ==> c == Call(0, p + |f|, [f], false))
            && (p <= |s| < p + |f| ==>
                  c == if pending != 0 || reader.FrameReader? || |s| < |f| then Call(|f|, p, [], false)
                       else Call(0, |s|, [f[..|s| - p]], false))
  {
    hide Stream, VarInts.Encode, ReadVarInt, Prefixed, CallOf, Piece;
    var f, tail := frames[0], Stream(frames[1..]);
    var prefix := if pending == 0 then VarInts.Encode(|f|) else [];
    LateStream(frames, 0);
    assert Stream(frames)[0..] == Stream(frames) && VarInts.Encode(|f|)[0..] == VarInts.Encode(|f|);
    assert Rest(pending, frames) == prefix + (f + tail);
    CallSteps(reader, pending, s, max);
    if |s| < |prefix| {
      FrontOf(s, prefix, f + tail, Rest(pending, frames));
      PartialPrefix(|f|, |s|);
    } else {
      SplitPrefix(s, prefix, f + tail);
      var body := s[|prefix|..];
      if pending == 0 {
        VarIntRoundTrip(|f|, body);
      }
      BodyTaken(prefix, body, f, tail);
      assert f[..|f|] == f && (reader.PacketReader? ==> frames[0] != []);
    }
  }

  lemma BodyTaken(prefix: seq<byte>, body: seq<byte>, f: seq<byte>, tail: seq<byte>)
    requires body <= f + tail
    ensures var s, n := prefix + body, Min(|f|, |body|);
            Piece(s, |prefix|, |prefix| + n) == f[..n]
  {
    var n := Min(|f|, |body|);
    assert body[..n] == (f + tail)[..n] == f[..n];
    assert Piece(prefix + body, |prefix|, |prefix| + n) == body[..n];
  }

  /** The stream that is left after the part a call has seen. */
  lemma RestShape(pending: uint32, frames: seq<seq<byte>>, s: seq<byte>)
    requires Expects(pending, frames) && frames != [] && |frames[0]| < 0x1_0000_0000 && s <= Rest(pending, frames)
    ensures var f, tail := frames[0], Stream(frames[1..]);
            var p := Ahead(pending, |f|);
            && |Rest(pending, frames)| == p + |f| + |tail|
            && (|s| >= p + |f| ==>
                  s[p + |f|..] <= tail && Rest(pending, frames)[|s|..] == tail[|s| - p - |f|..])
            && (|s| >= p ==> s[p..] <= f + tail && Rest(pending, frames)[|s|..] == (f + tail)[|s| - p..])
  {
    var prefix := RestIs(pending, frames);
    hide *;
    Peel(prefix, frames[0], Stream(frames[1..]), s);
  }

  lemma RestIs(pending: uint32, frames: seq<seq<byte>>) returns (prefix: seq<byte>)
    requires Expects(pending, frames) && frames != [] && |frames[0]| < 0x1_0000_0000
    ensures Rest(pending, frames) == prefix + (frames[0] + Stream(frames[1..]))
    ensures |prefix| == Ahead(pending, |frames[0]|)
  {
    hide Stream, VarInts.Encode, Prefixed;
    var f := frames[0];
    prefix := if pending == 0 then VarInts.Encode(|f|) else [];
    LateStream(frames, 0);
    assert Stream(frames)[0..] == Stream(frames) && VarInts.Encode(|f|)[0..] == VarInts.Encode(|f|);
    if pending != 0 {
      assert [] + (f + Stream(frames[1..])) == f + Stream(frames[1..]);
    }
  }

  lemma Peel(prefix: seq<byte>, f: seq<byte>, tail: seq<byte>, s: seq<byte>)
    requires s <= prefix + (f + tail)
    ensures |s| >= |prefix| ==>
            s[|prefix|..] <= f + tail && (prefix + (f + tail))[|s|..] == (f + tail)[|s| - |prefix|..]
    ensures |s| >= |prefix| + |f| ==>
            && s[|prefix| + |f|..] <= tail
            && (prefix + (f + tail))[|s|..] == tail[|s| - |prefix| - |f|..]
  {
    if |s| >= |prefix| {
      SplitPrefix(s, prefix, f + tail);
      if |s| >= |prefix| + |f| {
        SplitPrefix(s[|prefix|..], f, tail);
        assert s[|prefix|..][|f|..] == s[|prefix| + |f|..];
      }
    }
  }

  /** A call has kept its place: a frame it handed over is the next one, it reported nothing but
      incompleteness, and what it expects next is what is still to come. */
  ghost predicate KeptPlace(pending: uint32, frames: seq<seq<byte>>, s: seq<byte>, c: Call)
    requires Expects(pending, frames) && s <= Rest(pending, frames) && c.used <= |s|
  {
    && c.frames <= frames && !c.refused
    && Expects(c.pending, frames[|c.frames|..])
    && s[c.used..] <= Rest(c.pending, frames[|c.frames|..])
    && Rest(c.pending, frames[|c.frames|..])[|s| - c.used..] == Rest(pending, frames)[|s|..]
  }

  /** A call keeps its place in the stream exactly when the sizes say so. */
  lemma CallExact(reader: Reader, pending: uint32, frames: seq<seq<byte>>, s: seq<byte>, max: uint32)
    requires Expects(pending, frames) && Good(reader, frames, max) && s <= Rest(pending, frames)
    ensures KeptPlace(pending, frames, s, CallOf(reader, pending, s, max))
            <==> frames == [] || SizeSound(reader, pending, |s|, |frames[0]|)
  {
    hide CallOf, Stream, VarInts.Encode;
    assert frames[0..] == frames;
    if frames == [] {
      NothingToCome(reader, pending, s, max);
    } else {
      CallShape(reader, pending, frames, s, max);
      RestShape(pending, frames, s);
      IdleExpects(frames[1..]);
      var c := CallOf(reader, pending, s, max);
      if c.frames != [] && c.frames[0] == frames[0] {
        assert c.frames <= frames;
      }
    }
  }

  lemma NothingToCome(reader: Reader, pending: uint32, s: seq<byte>, max: uint32)
    requires Expects(pending, []) && s <= Rest(pending, [])
    ensures pending == 0 && s == [] && CallOf(reader, pending, s, max) == Call(0, 0, [], false)
  {
    assert ReadVarInt([]) == Read(Failure(IncompleteVarInt, 0), 0);
  }

  // ---------- runs of calls ----------

  /** What a run of calls hands over, and the state it ends in. */
  datatype Ran = Ran(frames: seq<seq<byte>>, pending: uint32, left: seq<byte>)

  /** A connection that has been given a bad frame is closed; its pipes' complaints are not looked at. */
  predicate Closes(reader: Reader, c: Call) {
    reader.PacketReader? && c.refused
  }

  function RunCalls(reader: Reader, pending: uint32, left: seq<byte>, pages: seq<seq<byte>>, max: uint32): (r: Ran)
    ensures |r.frames| <= |pages|
    decreases |pages|
  {
    if pages == [] then Ran([], pending, left)
    else
      var s := left + pages[0];
      var c := CallOf(reader, pending, s, max);
      var rest := if Closes(reader, c) then Ran([], c.pending, s[c.used..])
                  else RunCalls(reader, c.pending, s[c.used..], pages[1..], max);
      Ran(c.frames + rest.frames, rest.pending, rest.left)
  }

  function Lengths(ss: seq<seq<byte>>): (ls: seq<nat>)
    ensures |ls| == |ss| && forall i :: 0 <= i < |ls| ==> ls[i] == |ss[i]|
  {
    if ss == [] then [] else [|ss[0]|] + Lengths(ss[1..])
  }

  /** Whether every call of a run finds a sound size, told from the lengths of frames and pages alone, the
      pending length and the number of bytes held back. */
  predicate SoundRun(reader: Reader, pending: nat, held: nat, frames: seq<nat>, pages: seq<nat>)
    decreases |pages|
  {
    pages == []
    || (var size := held + pages[0];
        if frames == [] then SoundRun(reader, pending, size, frames, pages[1..])
        else
          var p := Ahead(pending, frames[0]);
          && SizeSound(reader, pending, size, frames[0])
          && (if size < p then SoundRun(reader, pending, size, frames, pages[1..])
              else if size >= p + frames[0] then SoundRun(reader, 0, size - p - frames[0], frames[1..], pages[1..])
              else SoundRun(reader, frames[0], size - p, frames, pages[1..])))
  }

  /** The run has handed over the first frames of the stream and expects exactly the others, `coming` being
      what has not arrived yet. */
  ghost predicate InPlace(frames: seq<seq<byte>>, coming: seq<byte>, r: Ran) {
    && r.frames <= frames && Expects(r.pending, frames[|r.frames|..])
    && r.left + coming == Rest(r.pending, frames[|r.frames|..])
  }

  /** The bytes held back, those of the pages and those after them are what the reader expects. */
  ghost predicate Owing(pending: uint32, left: seq<byte>, frames: seq<seq<byte>>, pages: seq<seq<byte>>,
                        coming: seq<byte>) {
    Expects(pending, frames) && left + (Concat(pages) + coming) == Rest(pending, frames)
  }

  lemma RunCallsUnfold(reader: Reader, pending: uint32, left: seq<byte>, pages: seq<seq<byte>>, max: uint32)
    ensures pages == [] ==> RunCalls(reader, pending, left, pages, max) == Ran([], pending, left)
    ensures pages != [] ==>
            var s := left + pages[0];
            var c := CallOf(reader, pending, s, max);
            var rest := if reader.PacketReader? && c.refused then Ran([], c.pending, s[c.used..])
                        else RunCalls(reader, c.pending, s[c.used..], pages[1..], max);
            RunCalls(reader, pending, left, pages, max) == Ran(c.frames + rest.frames, rest.pending, rest.left)
  {
  }

  lemma OwingFront(pending: uint32, left: seq<byte>, frames: seq<seq<byte>>, pages: seq<seq<byte>>, coming: seq<byte>)
    requires Owing(pending, left, frames, pages, coming)
    ensures Expects(pending, frames)
    ensures pages == [] ==> left + coming == Rest(pending, frames)
    ensures pages != [] ==>
            var s, later := left + pages[0], Concat(pages[1..]) + coming;
            s <= Rest(pending, frames) && Rest(pending, frames)[|s|..] == later
  {
    hide Rest, Expects;
    if pages == [] {
      assert [] + coming == coming;
    } else {
      var a, b := pages[0], Concat(pages[1..]);
      assert left + ((a + b) + coming) == (left + a) + (b + coming);
    }
  }

  lemma StillOwing(pending: uint32, left: seq<byte>, frames: seq<seq<byte>>, pages: seq<seq<byte>>, coming: seq<byte>)
    requires Expects(pending, frames) && left <= Rest(pending, frames)
    requires Concat(pages) + coming == Rest(pending, frames)[|left|..]
    ensures Owing(pending, left, frames, pages, coming)
  {
    hide Rest, Expects, Concat;
    var rest := Rest(pending, frames);
    assert rest == left + rest[|left|..];
  }

  /** With the lengths known, a run unfolds as its calls do. */
  lemma SoundUnfolds(reader: Reader, pending: nat, held: nat, frames: seq<seq<byte>>, pages: seq<seq<byte>>)
    requires pages != []
    ensures var size, rest := held + |pages[0]|, Lengths(pages[1..]);
            SoundRun(reader, pending, held, Lengths(frames), Lengths(pages)) <==>
            if frames == [] then SoundRun(reader, pending, size, Lengths(frames), rest)
            else
              var f := |frames[0]|;
              var p := Ahead(pending, f);
              && SizeSound(reader, pending, size, f)
              && (if size < p then SoundRun(reader, pending, size, Lengths(frames), rest)
                  else if size >= p + f then SoundRun(reader, 0, size - p - f, Lengths(frames[1..]), rest)
                  else SoundRun(reader, f, size - p, Lengths(frames), rest))
  {
    assert Lengths(pages)[1..] == Lengths(pages[1..]);
    if frames != [] {
      assert Lengths(frames)[1..] == Lengths(frames[1..]);
    }
  }

  lemma Handed(frames: seq<seq<byte>>, coming: seq<byte>, r: Ran)
    requires frames != []
    ensures InPlace(frames, coming, Ran([frames[0]] + r.frames, r.pending, r.left)) <==> InPlace(frames[1..], coming, r)
    ensures Ran([] + r.frames, r.pending, r.left) == r
  {
    hide Rest, Expects;
    var more := [frames[0]] + r.frames;
    PrefixOfBoth(frames, r.frames);
  }

  lemma PrefixOfBoth(frames: seq<seq<byte>>, part: seq<seq<byte>>)
    requires frames != []
    ensures [frames[0]] + part <= frames <==> part <= frames[1..]
    ensures part <= frames[1..] ==> frames[1..][|part|..] == frames[|[frames[0]] + part|..]
  {
    var more := [frames[0]] + part;
    assert frames == [frames[0]] + frames[1..];
    if more <= frames {
      assert part == more[1..] <= frames[1..];
    }
  }

  lemma HandedShort(frames: seq<seq<byte>>, x: seq<byte>, coming: seq<byte>, r: Ran)
    requires frames != [] && |x| < |frames[0]|
    ensures !InPlace(frames, coming, Ran([x] + r.frames, r.pending, r.left))
  {
    hide Rest, Expects;
    assert ([x] + r.frames)[0] == x;
  }

  // ---------- which runs stay in place ----------

  lemma CallWithPrefix(reader: Reader, n: uint32, body: seq<byte>, max: uint32)
    requires 0 < n <= max
    ensures var p, c := |VarInts.Encode(n)|, CallOf(reader, 0, VarInts.Encode(n) + body, max);
            if c.frames == [] then c == Call(n, p, [], false) else |c.frames[0]| <= n
  {
    hide CallOf, VarInts.Encode, ReadVarInt, Piece;
    CallSteps(reader, 0, VarInts.Encode(n) + body, max);
    VarIntRoundTrip(n, body);
  }

  lemma CallWhenPending(reader: Reader, n: uint32, s: seq<byte>, max: uint32)
    requires 0 < n
    ensures var c := CallOf(reader, n, s, max);
            if c.frames == [] then c == Call(n, 0, [], false) else |c.frames[0]| <= n
  {
    hide CallOf, Piece;
    CallSteps(reader, n, s, max);
  }

  lemma CallInsidePrefix(reader: Reader, n: uint32, k: nat, max: uint32)
    requires k < |VarInts.Encode(n)|
    ensures CallOf(reader, 0, VarInts.Encode(n)[..k], max) == Call(0, k, [], false)
  {
    hide CallOf, VarInts.Encode, ReadVarInt;
    CallSteps(reader, 0, VarInts.Encode(n)[..k], max);
    PartialPrefix(n, k);
  }

  /** A run that has strayed: what is in front of it reads as a shorter frame than the next one. Whatever
      comes, it hands over a frame that is too short, or ends waiting for one, or has lost bytes. */
  lemma {:induction false} StrayRun(reader: Reader, pending: uint32, left: seq<byte>, shorter: nat, tail: seq<byte>,
                                    pages: seq<seq<byte>>, coming: seq<byte>, max: uint32)
    requires 0 < shorter <= max && (pending == 0 || pending == shorter)
    requires pending == 0 ==> left == [] && Concat(pages) + coming == VarInts.Encode(shorter) + tail
    ensures var r := RunCalls(reader, pending, left, pages, max);
            if r.frames != [] then |r.frames[0]| <= shorter
            else 0 < r.pending <= shorter
                 || (r.pending == 0 && |r.left + coming| <= |VarInts.Encode(shorter)| + |tail|)
    decreases |pages|
  {
    hide *;
    RunCallsUnfold(reader, pending, left, pages, max);
    if pages == [] {
      if pending == 0 {
        NoPages(coming);
        assert |coming| == |VarInts.Encode(shorter) + tail|;
      }
    } else {
      var s, later := left + pages[0], Concat(pages[1..]) + coming;
      if pending != 0 {
        CallWhenPending(reader, shorter, s, max);
        if CallOf(reader, pending, s, max).frames == [] {
          StrayRun(reader, pending, s[0..], shorter, tail, pages[1..], coming, max);
        }
      } else {
        FirstPage(pages, coming);
        assert s == pages[0];
        SplitPages(s, later, VarInts.Encode(shorter), tail);
        if |s| < |VarInts.Encode(shorter)| {
          CallInsidePrefix(reader, shorter, |s|, max);
          var less := VarInts.EncodingSuffix(shorter, |s|);
          assert s[|s|..] == [];
          StrayRun(reader, 0, [], less, tail, pages[1..], coming, max);
        } else {
          CallWithPrefix(reader, shorter, s[|VarInts.Encode(shorter)|..], max);
          if CallOf(reader, 0, s, max).frames == [] {
            StrayRun(reader, shorter, s[|VarInts.Encode(shorter)|..], shorter, tail, pages[1..], coming, max);
          }
        }
      }
    }
  }

  lemma NoPages(coming: seq<byte>)
    ensures Concat([]) + coming == coming
  {
  }

  lemma FirstPage(pages: seq<seq<byte>>, coming: seq<byte>)
    requires pages != []
    ensures Concat(pages) + coming == pages[0] + (Concat(pages[1..]) + coming)
  {
  }

  lemma SplitPages(s: seq<byte>, later: seq<byte>, prefix: seq<byte>, tail: seq<byte>)
    requires s + later == prefix + tail
    ensures |s| < |prefix| ==> s == prefix[..|s|] && later == prefix[|s|..] + tail
    ensures |s| >= |prefix| ==> s == prefix + s[|prefix|..]
  {
    var all := s + later;
    if |s| < |prefix| {
      assert s == all[..|s|] == prefix[..|s|];
      assert later == all[|s|..] == prefix[|s|..] + tail;
    } else {
      assert all[..|prefix|] == prefix == s[..|prefix|];
    }
  }

  /** A call that finds only part of a prefix loses it, and the run with it. */
  lemma CutStrays(reader: Reader, frames: seq<seq<byte>>, s: seq<byte>, pages: seq<seq<byte>>, coming: seq<byte>,
                  max: uint32)
    requires Good(reader, frames, max) && frames != [] && s <= Stream(frames)
    requires 0 < |s| < PrefixBytes(|frames[0]|) && Concat(pages) + coming == Stream(frames)[|s|..]
    ensures !InPlace(frames, coming, RunCalls(reader, 0, [], pages, max))
  {
    hide *;
    var n := |frames[0]|;
    FirstGood(reader, frames, max);
    LateStream(frames, |s|);
    var less := VarInts.EncodingSuffix(n, |s|);
    var tail := frames[0] + Stream(frames[1..]);
    StrayRun(reader, 0, [], less, tail, pages, coming, max);
    LateStream(frames, 0);
    assert Stream(frames)[0..] == Stream(frames) && VarInts.Encode(n)[0..] == VarInts.Encode(n);
    TooShort(frames, coming, RunCalls(reader, 0, [], pages, max), less, |VarInts.Encode(less)| + |tail|);
  }

  lemma FirstGood(reader: Reader, frames: seq<seq<byte>>, max: uint32)
    requires Good(reader, frames, max) && frames != []
    ensures |frames[0]| <= max && PrefixLength(frames[0]) == PrefixBytes(|frames[0]|) == |VarInts.Encode(|frames[0]|)|
    ensures Good(reader, frames[1..], max) && Within(frames, max)
    ensures Expects(0, frames) && Expects(0, frames[1..]) && Rest(0, frames) == Stream(frames)
    ensures Rest(0, frames[1..]) == Stream(frames[1..])
    ensures |frames[0]| > 0 ==>
            Expects(|frames[0]|, frames) && Rest(|frames[0]|, frames) == frames[0] + Stream(frames[1..])
  {
    hide Stream, VarInts.Encode;
  }

  lemma TooShort(frames: seq<seq<byte>>, coming: seq<byte>, r: Ran, shorter: nat, size: nat)
    requires frames != [] && shorter < |frames[0]| && size < |Stream(frames)|
    requires if r.frames != [] then |r.frames[0]| <= shorter
             else 0 < r.pending <= shorter || (r.pending == 0 && |r.left + coming| <= size)
    ensures !InPlace(frames, coming, r)
  {
    hide Stream;
    if r.frames == [] {
      assert frames[0..] == frames;
    }
  }

  lemma NothingRun(reader: Reader, pending: uint32, left: seq<byte>, frames: seq<seq<byte>>, coming: seq<byte>)
    requires Expects(pending, frames) && left + coming == Rest(pending, frames)
    ensures InPlace(frames, coming, Ran([], pending, left))
    ensures SoundRun(reader, pending, |left|, Lengths(frames), Lengths([]))
  {
    assert frames[0..] == frames;
  }

  lemma SizeMeans(reader: Reader, pending: nat, size: nat, length: nat)
    ensures SizeSound(reader, pending, size, length)
            <==> || pending != 0 || size == 0
                 || (Ahead(pending, length) <= size
                     && (reader.FrameReader? || !(length <= size < Ahead(pending, length) + length)))
    ensures pending != 0 ==> Ahead(pending, length) == 0
    ensures pending == 0 ==> Ahead(pending, length) == PrefixBytes(length) > 0
  {
  }

  /** A run of calls stays in place, handing over the first frames of the stream and expecting exactly the
      others, if and only if every call finds a sound size. */
  lemma {:induction false} RunCallsExact(reader: Reader, pending: uint32, left: seq<byte>, frames: seq<seq<byte>>,
                                    pages: seq<seq<byte>>, coming: seq<byte>, max: uint32)
    requires Good(reader, frames, max) && Owing(pending, left, frames, pages, coming)
    ensures InPlace(frames, coming, RunCalls(reader, pending, left, pages, max))
            <==> SoundRun(reader, pending, |left|, Lengths(frames), Lengths(pages))
    decreases |pages|
  {
    hide *;
    OwingFront(pending, left, frames, pages, coming);
    if pages == [] {
      RunCallsUnfold(reader, pending, left, pages, max);
      NothingRun(reader, pending, left, frames, coming);
    } else {
      var s, rest := left + pages[0], pages[1..];
      if frames == [] {
        NothingToCome(reader, pending, s, max);
        StillOwing(0, s, frames, rest, coming);
        RunCallsExact(reader, 0, s, frames, rest, coming, max);
        Idled(reader, left, frames, pages, coming, max);
      } else {
        var f := frames[0];
        var p := Ahead(pending, |f|);
        CallLeads(reader, pending, frames, s, rest, coming, max);
        SizeMeans(reader, pending, |s|, |f|);
        if |s| < p && s == [] {
          RunCallsExact(reader, 0, [], frames, rest, coming, max);
          Idled(reader, left, frames, pages, coming, max);
        } else if |s| < p {
          CutStrays(reader, frames, s, rest, coming, max);
          LostPart(reader, left, frames, pages, coming, max);
        } else if |s| >= p + |f| {
          RunCallsExact(reader, 0, s[p + |f|..], frames[1..], rest, coming, max);
          GotFrame(reader, pending, left, frames, pages, coming, max);
        } else if pending != 0 || reader.FrameReader? || |s| < |f| {
          RunCallsExact(reader, |f|, s[p..], frames, rest, coming, max);
          Waited(reader, pending, left, frames, pages, coming, max);
        } else {
          GotPart(reader, pending, left, frames, pages, coming, max);
        }
      }
    }
  }

  /** A call that finds nothing changes nothing. */
  lemma Idled(reader: Reader, left: seq<byte>, frames: seq<seq<byte>>, pages: seq<seq<byte>>, coming: seq<byte>,
              max: uint32)
    requires pages != []
    requires var s := left + pages[0];
             && s == [] && CallOf(reader, 0, s, max) == Call(0, 0, [], false)
             && (InPlace(frames, coming, RunCalls(reader, 0, [], pages[1..], max))
                 <==> SoundRun(reader, 0, 0, Lengths(frames), Lengths(pages[1..])))
    ensures InPlace(frames, coming, RunCalls(reader, 0, left, pages, max))
            <==> SoundRun(reader, 0, |left|, Lengths(frames), Lengths(pages))
  {
    hide *;
    RunCallsUnfold(reader, 0, left, pages, max);
    NoneFirst(RunCalls(reader, 0, [], pages[1..], max));
    SoundUnfolds(reader, 0, |left|, frames, pages);
    if frames != [] {
      SizeMeans(reader, 0, 0, |frames[0]|);
    }
  }

  /** A call that goes on waiting for its frame. */
  lemma Waited(reader: Reader, pending: uint32, left: seq<byte>, frames: seq<seq<byte>>, pages: seq<seq<byte>>,
               coming: seq<byte>, max: uint32)
    requires pages != [] && frames != [] && |frames[0]| < 0x1_0000_0000
    requires var s, f := left + pages[0], |frames[0]|;
             var p := Ahead(pending, f);
             && p <= |s| < p + f && (pending != 0 || reader.FrameReader? || |s| < f)
             && CallOf(reader, pending, s, max) == Call(f, p, [], false)
             && (InPlace(frames, coming, RunCalls(reader, f, s[p..], pages[1..], max))
                 <==> SoundRun(reader, f, |s| - p, Lengths(frames), Lengths(pages[1..])))
    ensures InPlace(frames, coming, RunCalls(reader, pending, left, pages, max))
            <==> SoundRun(reader, pending, |left|, Lengths(frames), Lengths(pages))
  {
    hide *;
    var s, f := left + pages[0], |frames[0]|;
    RunCallsUnfold(reader, pending, left, pages, max);
    NoneFirst(RunCalls(reader, f, s[Ahead(pending, f)..], pages[1..], max));
    SoundUnfolds(reader, pending, |left|, frames, pages);
    SizeMeans(reader, pending, |s|, f);
  }

  lemma NoneFirst(r: Ran)
    ensures Ran([] + r.frames, r.pending, r.left) == r
  {
    assert [] + r.frames == r.frames;
  }

  lemma LostPart(reader: Reader, left: seq<byte>, frames: seq<seq<byte>>, pages: seq<seq<byte>>, coming: seq<byte>,
                 max: uint32)
    requires pages != [] && frames != []
    requires var s := left + pages[0];
             && 0 < |s| < Ahead(0, |frames[0]|) && CallOf(reader, 0, s, max) == Call(0, |s|, [], false)
             && !InPlace(frames, coming, RunCalls(reader, 0, [], pages[1..], max))
    ensures !InPlace(frames, coming, RunCalls(reader, 0, left, pages, max))
    ensures !SoundRun(reader, 0, |left|, Lengths(frames), Lengths(pages))
  {
    hide *;
    var s := left + pages[0];
    assert s[|s|..] == [];
    RunCallsUnfold(reader, 0, left, pages, max);
    NoneFirst(RunCalls(reader, 0, [], pages[1..], max));
    SoundUnfolds(reader, 0, |left|, frames, pages);
    SizeMeans(reader, 0, |s|, |frames[0]|);
  }

  lemma GotFrame(reader: Reader, pending: uint32, left: seq<byte>, frames: seq<seq<byte>>, pages: seq<seq<byte>>,
                 coming: seq<byte>, max: uint32)
    requires pages != [] && frames != []
    requires var s, f := left + pages[0], frames[0];
             var n := Ahead(pending, |f|) + |f|;
             && |s| >= n && CallOf(reader, pending, s, max) == Call(0, n, [f], false)
             && (InPlace(frames[1..], coming, RunCalls(reader, 0, s[n..], pages[1..], max))
                 <==> SoundRun(reader, 0, |s| - n, Lengths(frames[1..]), Lengths(pages[1..])))
    ensures InPlace(frames, coming, RunCalls(reader, pending, left, pages, max))
            <==> SoundRun(reader, pending, |left|, Lengths(frames), Lengths(pages))
  {
    hide *;
    var s, f := left + pages[0], frames[0];
    var n := Ahead(pending, |f|) + |f|;
    RunCallsUnfold(reader, pending, left, pages, max);
    Handed(frames, coming, RunCalls(reader, 0, s[n..], pages[1..], max));
    SoundUnfolds(reader, pending, |left|, frames, pages);
    SizeMeans(reader, pending, |s|, |f|);
  }

  lemma GotPart(reader: Reader, pending: uint32, left: seq<byte>, frames: seq<seq<byte>>, pages: seq<seq<byte>>,
                coming: seq<byte>, max: uint32)
    requires pages != [] && frames != []
    requires var s, f := left + pages[0], frames[0];
             var p := Ahead(pending, |f|);
             && pending == 0 && !reader.FrameReader? && p <= |s| < p + |f| && |s| >= |f|
             && CallOf(reader, pending, s, max) == Call(0, |s|, [f[..|s| - p]], false)
    ensures !InPlace(frames, coming, RunCalls(reader, pending, left, pages, max))
    ensures !SoundRun(reader, pending, |left|, Lengths(frames), Lengths(pages))
  {
    hide *;
    var s, f := left + pages[0], frames[0];
    var p := Ahead(pending, |f|);
    RunCallsUnfold(reader, pending, left, pages, max);
    HandedShort(frames, f[..|s| - p], coming, RunCalls(reader, 0, s[|s|..], pages[1..], max));
    SoundUnfolds(reader, pending, |left|, frames, pages);
    SizeMeans(reader, pending, |s|, |f|);
  }

  /** What a call leads to, and what is owed after it. */
  lemma CallLeads(reader: Reader, pending: uint32, frames: seq<seq<byte>>, s: seq<byte>, pages: seq<seq<byte>>,
                  coming: seq<byte>, max: uint32)
    requires Expects(pending, frames) && Good(reader, frames, max) && frames != [] && s <= Rest(pending, frames)
    requires Concat(pages) + coming == Rest(pending, frames)[|s|..]
    ensures Good(reader, frames[1..], max) && |frames[0]| <= max && (pending == 0 ==> Rest(0, frames) == Stream(frames))
    ensures var f, c := frames[0], CallOf(reader, pending, s, max);
            var p := Ahead(pending, |f|);
            && (|s| < p ==> pending == 0 && c == Call(0, |s|, [], false) && s[|s|..] == []
                            && (s == [] ==> Owing(0, [], frames, pages, coming)))
            && (|s| >= p + |f| ==>
                  c == Call(0, p + |f|, [f], false) && Owing(0, s[p + |f|..], frames[1..], pages, coming))
            && (p <= |s| < p + |f| ==>
                  if pending != 0 || reader.FrameReader? || |s| < |f| then
                    c == Call(|f|, p, [], false) && Owing(|f|, s[p..], frames, pages, coming)
                  else c == Call(0, |s|, [f[..|s| - p]], false))
  {
    hide *;
    var f := frames[0];
    var p := Ahead(pending, |f|);
    FirstGood(reader, frames, max);
    CallShape(reader, pending, frames, s, max);
    RestShape(pending, frames, s);
    SizeMeans(reader, pending, |s|, |f|);
    if |s| < p {
      if s == [] {
        StillOwing(0, [], frames, pages, coming);
      }
    } else if |s| >= p + |f| {
      StillOwing(0, s[p + |f|..], frames[1..], pages, coming);
    } else if pending != 0 || reader.FrameReader? || |s| < |f| {
      StillOwing(|f|, s[p..], frames, pages, coming);
    }
  }

  // ---------- pages that end between prefixes ----------

  /** A reader that looks for the whole frame is sound on every page if no page ends inside a prefix. */
  lemma {:induction false} CleanIsSound(pending: uint32, held: nat, frames: seq<seq<byte>>, pages: seq<seq<byte>>,
                                        max: uint32)
    requires Expects(pending, frames) && Good(FrameReader, frames, max) && Clean(pending, frames, held, pages)
    ensures SoundRun(FrameReader, pending, held, Lengths(frames), Lengths(pages))
    decreases |pages|
  {
    hide *;
    if pages == [] {
      NoPagesSound(pending, held, frames);
    } else {
      var size, rest := held + |pages[0]|, pages[1..];
      CleanStep(pending, frames, held, pages);
      SoundUnfolds(FrameReader, pending, held, frames, pages);
      if frames == [] {
        CleanIsSound(pending, size, frames, rest, max);
      } else {
        var f := |frames[0]|;
        var p := Ahead(pending, f);
        FirstGood(FrameReader, frames, max);
        SizeMeans(FrameReader, pending, size, f);
        if size < p {
          CleanIsSound(0, 0, frames, rest, max);
        } else if size >= p + f {
          CutsAfterFrame(pending, frames, size, size - p - f);
          CleanShifts(pending, frames, size, 0, frames[1..], size - p - f, rest);
          CleanIsSound(0, size - p - f, frames[1..], rest, max);
        } else {
          CutsWhileWaiting(pending, frames, size, size - p);
          CleanShifts(pending, frames, size, f, frames, size - p, rest);
          CleanIsSound(f, size - p, frames, rest, max);
        }
      }
    }
  }

  lemma NoPagesSound(pending: nat, held: nat, frames: seq<seq<byte>>)
    ensures SoundRun(FrameReader, pending, held, Lengths(frames), Lengths([]))
  {
  }

  lemma CleanStep(pending: uint32, frames: seq<seq<byte>>, held: nat, pages: seq<seq<byte>>)
    requires Expects(pending, frames) && pages != [] && Clean(pending, frames, held, pages)
    ensures Clean(pending, frames, held + |pages[0]|, pages[1..])
    ensures frames != [] && pending == 0 && held + |pages[0]| < PrefixLength(frames[0]) ==> held + |pages[0]| == 0
    ensures frames == [] ==> pending == 0
  {
  }

  /** However a stream of frames is cut into pages, a pipe called once for each of them stays in place if no
      page ends strictly inside a length prefix. */
  lemma PagesBetweenPrefixes(frames: seq<seq<byte>>, pages: seq<seq<byte>>, max: uint32)
    requires Good(FrameReader, frames, max) && forall k :: 0 < k <= |pages| ==> !EndsInside(frames, 0, pages, k)
    ensures SoundRun(FrameReader, 0, 0, Lengths(frames), Lengths(pages))
  {
    hide *;
    IdleExpects(frames);
    CleanMeans(frames, 0, pages);
    CleanIsSound(0, 0, frames, pages, max);
  }

  // ---------- pages made of whole frames ----------

  function Pages(groups: seq<seq<seq<byte>>>): seq<seq<byte>> {
    if groups == [] then [] else [Stream(groups[0])] + Pages(groups[1..])
  }

  function Flatten(groups: seq<seq<seq<byte>>>): seq<seq<byte>> {
    if groups == [] then [] else groups[0] + Flatten(groups[1..])
  }

  lemma {:induction false} StreamAppend(a: seq<seq<byte>>, b: seq<seq<byte>>)
    ensures Stream(a + b) == Stream(a) + Stream(b)
  {
    hide Prefixed;
    if a == [] {
      assert a + b == b;
    } else {
      var c := a + b;
      assert c[0] == a[0] && c[1..] == a[1..] + b;
      StreamAppend(a[1..], b);
      JoinAssociates(Prefixed(a[0]), Stream(a[1..]), Stream(b));
    }
  }

  lemma WholePageCall(frames: seq<seq<byte>>, max: uint32)
    requires frames != [] && Within(frames, max) && NonEmpty(frames)
    ensures CallOf(PacketReader, 0, Stream(frames), max) == Call(0, |Prefixed(frames[0])|, [frames[0]], false)
    ensures Stream(frames)[|Prefixed(frames[0])|..] == Stream(frames[1..])
  {
    hide ReadPacketFrame, Stream, Prefixed;
    WholeFramesCall(frames, max);
  }

  /** When every page holds one or more whole frames, each call hands on exactly one packet, so the
      packets of fuller pages fall behind and the rest stay queued: after as many calls as there are
      pages, as many packets have been handed on, in order. */
  lemma {:induction false} OnePacketPerPage(backlog: seq<seq<byte>>, groups: seq<seq<seq<byte>>>, max: uint32)
    requires Within(backlog + Flatten(groups), max) && NonEmpty(backlog + Flatten(groups))
    requires forall g :: g in groups ==> g != []
    ensures |groups| <= |backlog + Flatten(groups)|
    ensures RunCalls(PacketReader, 0, Stream(backlog), Pages(groups), max).frames
            == (backlog + Flatten(groups))[..|groups|]
    decreases |groups|
  {
    hide *;
    PagesUnfold(groups);
    RunCallsUnfold(PacketReader, 0, Stream(backlog), Pages(groups), max);
    if groups != [] {
      var group, later := groups[0], groups[1..];
      var here, all := backlog + group, backlog + Flatten(groups);
      assert group in groups;
      Regroup(backlog, group, Flatten(later));
      HandedFront(here, Flatten(later), max);
      StreamAppend(backlog, group);
      WholePageCall(here, max);
      forall g | g in later ensures g != [] {
        assert g in groups;
      }
      OnePacketPerPage(here[1..], later, max);
      assert all[..|groups|] == [all[0]] + all[1..][..|later|];
    }
  }

  lemma PagesUnfold(groups: seq<seq<seq<byte>>>)
    ensures groups == [] ==> Pages(groups) == [] && Flatten(groups) == []
    ensures groups != [] ==>
            && Pages(groups) == [Stream(groups[0])] + Pages(groups[1..])
            && Flatten(groups) == groups[0] + Flatten(groups[1..])
  {
  }

  lemma HandedFront(here: seq<seq<byte>>, rest: seq<seq<byte>>, max: uint32)
    requires here != [] && Within(here + rest, max) && NonEmpty(here + rest)
    ensures Within(here, max) && NonEmpty(here) && Within(here[1..] + rest, max) && NonEmpty(here[1..] + rest)
  {
    var all := here + rest;
    assert here[1..] + rest == all[1..];
    forall i | 0 <= i < |here| ensures 0 < |here[i]| <= max {
      assert here[i] == all[i];
    }
  }

  lemma Regroup(backlog: seq<seq<byte>>, group: seq<seq<byte>>, rest: seq<seq<byte>>)
    requires group != []
    ensures var here, all := backlog + group, backlog + (group + rest);
            all == here + rest && here[1..] + rest == all[1..] && here[0] == all[0]
  {
    var here, all := backlog + group, backlog + (group + rest);
    assert all == here + rest;
  }
}
