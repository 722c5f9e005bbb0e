/** Length-prefixed frames in a byte stream that arrives in pieces. */
module Framing {
  import opened Words
  import opened Codec
  import VarInts

  // ---------- one call of the frame reader, as written ----------

  /** The outcome of a call, the pending length it leaves (0 for none) and the bytes it takes. */
  datatype FrameRead = FrameRead(pending: uint32, used: nat, outcome: Errorable<seq<byte>>)

  /** The part of a call after the length is known: the frame is decoded only when all of it is there. */
  function ReadBody(length: uint32, s: seq<byte>, used: nat): (r: FrameRead)
    requires used <= |s|
    ensures r.used <= |s|
  {
    if |s| - used >= length then FrameRead(0, used + length, Success(Piece(s, used, used + length)))
    else FrameRead(length, used, Failure(IncompleteByteFrame, length))
  }

  /** A length that could not be read is reported as 0, the value a failed outcome carries. */
  function ReadFrame(pending: uint32, s: seq<byte>, max: uint32): (r: FrameRead)
    ensures r.used <= |s|
    ensures r.outcome.Success? ==> r.used > 0 && r.pending == 0
  {
    if pending != 0 then ReadBody(pending, s, 0)
    else
      var length := ReadVarInt(s);
      match length.outcome
      case Failure(IncompleteVarInt, _) => FrameRead(0, length.used, Failure(IncompleteByteFrame, 0))
      case Failure(_, _) => FrameRead(0, length.used, Failure(InvalidByteFrame, 0))
      case Success(n) =>
        if n > max then FrameRead(0, length.used, Failure(InvalidByteFrame, n))
        else ReadBody(n, s, length.used)
  }

  /** In every state the reader can be left in, the pending length is 0 or a length it has accepted;
      with a length pending, a call that does not complete the frame takes nothing, and a frame is
      handed over exactly when all its bytes are there. */
  lemma ReadFrameKeepsBound(pending: uint32, s: seq<byte>, max: uint32)
    requires pending <= max
    ensures ReadFrame(pending, s, max).pending <= max
    ensures pending != 0 ==>
            var r := ReadFrame(pending, s, max);
            && (r.outcome.Success? <==> |s| >= pending)
            && (r.outcome.Success? ==> r.used == pending && r.outcome.value == s[..pending])
            && (r.outcome.Failure? ==> r.used == 0 && r.pending == pending)
  {
  }

  // ---------- reading until there is no further frame ----------

  datatype Driven = Driven(frames: seq<seq<byte>>, pending: uint32, left: seq<byte>)

  function Drive(pending: uint32, s: seq<byte>, max: uint32): Driven
    decreases |s|
  {
    var r := ReadFrame(pending, s, max);
    match r.outcome
    case Failure(_, _) => Driven([], r.pending, s[r.used..])
    case Success(frame) =>
      var more := Drive(r.pending, s[r.used..], max);
      Driven([frame] + more.frames, more.pending, more.left)
  }

  function Concat(arrivals: seq<seq<byte>>): seq<byte> {
    if arrivals == [] then [] else arrivals[0] + Concat(arrivals[1..])
  }

  /** The frames handed over when the reader is driven after every arrival. */
  function Run(pending: uint32, left: seq<byte>, arrivals: seq<seq<byte>>, max: uint32): seq<seq<byte>>
    decreases |arrivals|
  {
    if arrivals == [] then []
    else
      var r := Drive(pending, left + arrivals[0], max);
      r.frames + Run(r.pending, r.left, arrivals[1..], max)
  }

  // ---------- the stream ----------

  function Stream(frames: seq<seq<byte>>): seq<byte> {
    if frames == [] then [] else Prefixed(frames[0]) + Stream(frames[1..])
  }

  predicate Within(frames: seq<seq<byte>>, max: uint32) {
    forall i :: 0 <= i < |frames| ==> |frames[i]| <= max
  }

  function PrefixLength(frame: seq<byte>): nat {
    |VarInts.Encode(Truncated(|frame|))|
  }

  /** Whether a place in the stream is strictly inside a frame's length prefix. */
  predicate InsidePrefix(frames: seq<seq<byte>>, place: int) {
    frames != []
    && (0 < place < PrefixLength(frames[0])
        || InsidePrefix(frames[1..], place - PrefixLength(frames[0]) - |frames[0]|))
  }

  /** What a reader with this pending length is in the middle of. */
  predicate Expects(pending: uint32, frames: seq<seq<byte>>) {
    pending != 0 ==> frames != [] && |frames[0]| == pending
  }

  function Rest(pending: uint32, frames: seq<seq<byte>>): seq<byte>
    requires Expects(pending, frames)
  {
    if pending == 0 then Stream(frames) else frames[0] + Stream(frames[1..])
  }

  predicate Cut(pending: uint32, frames: seq<seq<byte>>, place: int)
    requires Expects(pending, frames)
  {
    if pending == 0 then InsidePrefix(frames, place) else InsidePrefix(frames[1..], place - pending)
  }

  lemma {:induction false} NotInsideBefore(frames: seq<seq<byte>>, place: int)
    requires place <= 0
    ensures !InsidePrefix(frames, place)
  {
    if frames != [] {
      NotInsideBefore(frames[1..], place - PrefixLength(frames[0]) - |frames[0]|);
    }
  }

  // ---------- one call on a piece of a good stream ----------

  /** A call on a prefix of what the reader expects that holds the whole next frame hands it over. */
  lemma CallCompletes(pending: uint32, frames: seq<seq<byte>>, s: seq<byte>, max: uint32)
    requires Expects(pending, frames) && frames != [] && Within(frames, max)
    requires s <= Rest(pending, frames)
    requires |s| >= (if pending == 0 then PrefixLength(frames[0]) else 0) + |frames[0]|
    ensures var r := ReadFrame(pending, s, max);
            && r.outcome == Success(frames[0]) && r.pending == 0
            && r.used == (if pending == 0 then PrefixLength(frames[0]) else 0) + |frames[0]|
            && s[r.used..] <= Stream(frames[1..])
            && Rest(pending, frames)[|s|..] == Stream(frames[1..])[|s| - r.used..]
  {
    hide ReadVarInt, VarInts.Encode, Piece;
    var f, tail := frames[0], Stream(frames[1..]);
    var prefix := if pending == 0 then VarInts.Encode(|f|) else [];
    assert Rest(pending, frames) == prefix + f + tail;
    SplitPrefix(s, prefix + f, tail);
    var rest := s[|prefix + f|..];
    BodyOf(prefix, f, rest);
    if pending == 0 {
      ReadAfterPrefix(|f|, f + rest, max);
    }
  }

  lemma BodyOf(prefix: seq<byte>, f: seq<byte>, rest: seq<byte>)
    requires |f| < 0x1_0000_0000
    ensures prefix + f + rest == prefix + (f + rest)
    ensures ReadBody(|f|, prefix + f + rest, |prefix|) == FrameRead(0, |prefix| + |f|, Success(f))
  {
    assert Piece(prefix + f + rest, |prefix|, |prefix| + |f|) == f;
  }

  lemma ReadAfterPrefix(n: uint32, body: seq<byte>, max: uint32)
    requires n <= max
    ensures ReadFrame(0, VarInts.Encode(n) + body, max)
            == ReadBody(n, VarInts.Encode(n) + body, |VarInts.Encode(n)|)
  {
    VarIntRoundTrip(n, body);
  }

  lemma SplitPrefix(s: seq<byte>, a: seq<byte>, b: seq<byte>)
    requires s <= a + b && |s| >= |a|
    ensures s == a + s[|a|..] && s[|a|..] <= b
    ensures (a + b)[|s|..] == b[|s| - |a|..]
  {
    assert (a + b)[..|a|] == a;
    assert s[..|a|] == a;
  }

  /** A call that has the prefix but not the whole frame waits for the frame. */
  lemma CallWaits(pending: uint32, frames: seq<seq<byte>>, s: seq<byte>, max: uint32)
    requires Expects(pending, frames) && frames != [] && Within(frames, max) && s <= Rest(pending, frames)
    requires var p := if pending == 0 then PrefixLength(frames[0]) else 0;
             p <= |s| < p + |frames[0]|
    ensures var r := ReadFrame(pending, s, max);
            && r.outcome.Failure? && r.pending == |frames[0]| > 0
            && r.used == (if pending == 0 then PrefixLength(frames[0]) else 0)
            && Expects(r.pending, frames)
            && s[r.used..] <= Rest(r.pending, frames)
            && Rest(pending, frames)[|s|..] == Rest(r.pending, frames)[|s| - r.used..]
  {
    var f, tail := frames[0], Stream(frames[1..]);
    if pending == 0 {
      var prefix := VarInts.Encode(|f|);
      assert Stream(frames) == prefix + (f + tail) by { assert prefix + f + tail == prefix + (f + tail); }
      SplitPrefix(s, prefix, f + tail);
      VarIntRoundTrip(|f|, s[|prefix|..]);
    }
  }

  /** A call on nothing does nothing; a call on part of a prefix loses that part. */
  lemma CallLoses(frames: seq<seq<byte>>, s: seq<byte>, max: uint32)
    requires frames != [] && Within(frames, max) && s <= Stream(frames) && |s| < PrefixLength(frames[0])
    ensures ReadFrame(0, s, max) == FrameRead(0, |s|, Failure(IncompleteByteFrame, 0))
  {
    hide Stream, VarInts.Encode, ReadVarInt, Prefixed, PrefixLength;
    var prefix := VarInts.Encode(|frames[0]|);
    LateStream(frames, 0);
    FrontOf(s, prefix, frames[0] + Stream(frames[1..]), Stream(frames));
    PartialPrefix(|frames[0]|, |s|);
  }

  lemma FrontOf(s: seq<byte>, a: seq<byte>, b: seq<byte>, whole: seq<byte>)
    requires whole[0..] == a[0..] + b && s <= whole && |s| <= |a|
    ensures whole == a + b && s == a[..|s|]
  {
    assert whole[0..] == whole && a[0..] == a;
  }

  lemma PartialPrefix(n: uint32, k: nat)
    requires k < |VarInts.Encode(n)|
    ensures ReadVarInt(VarInts.Encode(n)[..k]) == Read(Failure(IncompleteVarInt, 0), k)
  {
    VarInts.VarIntBytesExact(n);
    VarInts.DecodePrefix(n, k, VarInts.VARINT_LIMIT, TWO_32);
  }

  // ---------- driving the reader over one arrival ----------

  /** The reader is in step: what it holds back is the front of what it expects, and less than a frame. */
  predicate InStep(r: Driven, frames: seq<seq<byte>>)
    ensures InStep(r, frames) ==> Expects(r.pending, frames) && |r.left| <= |Rest(r.pending, frames)|
  {
    && Expects(r.pending, frames) && r.left <= Rest(r.pending, frames)
    && (if r.pending == 0 then r.left == [] else |r.left| < r.pending)
  }

  lemma CutAfterPrefix(pending: uint32, frames: seq<seq<byte>>, place: int)
    requires Expects(pending, frames) && frames != []
    requires place >= if pending == 0 then PrefixLength(frames[0]) else 0
    ensures Cut(pending, frames, place)
            <==> InsidePrefix(frames[1..], place - (if pending == 0 then PrefixLength(frames[0]) else 0) - |frames[0]|)
  {
  }

  predicate CutAfter(pending: uint32, frames: seq<seq<byte>>, place: int, n: nat)
    requires Expects(pending, frames)
  {
    Cut(pending, frames, place + n)
  }

  /** Two readers' positions from which the same further pieces end inside a prefix. */
  ghost predicate SameCuts(p: uint32, f: seq<seq<byte>>, i: nat, q: uint32, g: seq<seq<byte>>, j: nat)
    requires Expects(p, f) && Expects(q, g)
  {
    forall n: nat :: CutAfter(p, f, i, n) <==> CutAfter(q, g, j, n)
  }

  /** Driving over a piece that does not end inside a prefix hands over the whole frames in it, in
      order, and leaves the reader in step with the frames after them. */
  lemma {:induction false} DriveStaysInStep(pending: uint32, frames: seq<seq<byte>>, s: seq<byte>, max: uint32)
    requires Expects(pending, frames) && Within(frames, max) && s <= Rest(pending, frames)
    requires !Cut(pending, frames, |s|)
    ensures var r := Drive(pending, s, max);
            && |r.frames| <= |frames| && r.frames == frames[..|r.frames|]
            && var after := frames[|r.frames|..];
               && InStep(r, after)
               && Rest(pending, frames)[|s|..] == Rest(r.pending, after)[|r.left|..]
               && SameCuts(pending, frames, |s|, r.pending, after, |r.left|)
    decreases |s|
  {
    hide *;
    DriveUnfolds(pending, s, max);
    assert frames[0..] == frames && frames[..0] == [];
    CutsReflexive(pending, frames, |s|);
    if frames == [] {
      NothingExpected(pending, s, max);
    } else {
      IdleExpects(frames);
      IdleExpects(frames[1..]);
      var p := if pending == 0 then PrefixLength(frames[0]) else 0;
      if |s| < p {
        ShortPieceIsEmpty(frames, s);
        CallLoses(frames, s, max);
      } else if |s| < p + |frames[0]| {
        CallWaits(pending, frames, s, max);
        WaitingInStep(|frames[0]|, s[p..], frames);
        CutsWhileWaiting(pending, frames, |s|, |s| - p);
      } else {
        CallCompletes(pending, frames, s, max);
        var used := p + |frames[0]|;
        CutsAfterFrame(pending, frames, |s|, |s| - used);
        WithinTail(frames, 1, max);
        DriveStaysInStep(0, frames[1..], s[used..], max);
        var more := Drive(0, s[used..], max);
        HeadAndPrefix(frames, |more.frames|);
        InStepOfTail(more, [frames[0]] + more.frames, frames[1..][|more.frames|..]);
        CutsCompose(pending, frames, |s|, 0, frames[1..], |s| - used,
                    more.pending, frames[1..][|more.frames|..], |more.left|);
      }
    }
  }

  lemma InStepOfTail(r: Driven, handed: seq<seq<byte>>, frames: seq<seq<byte>>)
    requires InStep(r, frames)
    ensures InStep(Driven(handed, r.pending, r.left), frames)
  {
  }

  lemma CutsWhileWaiting(pending: uint32, frames: seq<seq<byte>>, place: nat, held: nat)
    requires Expects(pending, frames) && frames != [] && 0 < |frames[0]| < 0x1_0000_0000
    requires place == held + if pending == 0 then PrefixLength(frames[0]) else 0
    ensures SameCuts(pending, frames, place, |frames[0]|, frames, held)
  {
    hide PrefixLength, InsidePrefix;
    forall n: nat
      ensures CutAfter(pending, frames, place, n) <==> CutAfter(|frames[0]|, frames, held, n)
    {
      CutAfterPrefix(pending, frames, place + n);
      CutAfterPrefix(|frames[0]|, frames, held + n);
    }
  }

  lemma CutsAfterFrame(pending: uint32, frames: seq<seq<byte>>, place: nat, over: nat)
    requires Expects(pending, frames) && frames != []
    requires place == over + |frames[0]| + if pending == 0 then PrefixLength(frames[0]) else 0
    ensures SameCuts(pending, frames, place, 0, frames[1..], over)
    ensures Cut(pending, frames, place) <==> Cut(0, frames[1..], over)
  {
    hide PrefixLength, InsidePrefix;
    forall n: nat
      ensures CutAfter(pending, frames, place, n) <==> CutAfter(0, frames[1..], over, n)
    {
      CutAfterPrefix(pending, frames, place + n);
      CutIdle(frames[1..], over + n);
    }
    assert CutAfter(pending, frames, place, 0) <==> CutAfter(0, frames[1..], over, 0);
  }

  lemma CutsReflexive(p: uint32, f: seq<seq<byte>>, i: nat)
    requires Expects(p, f)
    ensures SameCuts(p, f, i, p, f, i)
  {
  }

  lemma CutsCompose(p: uint32, f: seq<seq<byte>>, i: nat, q: uint32, g: seq<seq<byte>>, j: nat,
                    r: uint32, h: seq<seq<byte>>, k: nat)
    requires Expects(p, f) && Expects(q, g) && Expects(r, h)
    requires SameCuts(p, f, i, q, g, j) && SameCuts(q, g, j, r, h, k)
    ensures SameCuts(p, f, i, r, h, k)
  {
  }

  lemma DriveUnfolds(pending: uint32, s: seq<byte>, max: uint32)
    ensures var r := ReadFrame(pending, s, max);
            && (r.outcome.Failure? ==> Drive(pending, s, max) == Driven([], r.pending, s[r.used..]))
            && (r.outcome.Success? ==>
                  var more := Drive(r.pending, s[r.used..], max);
                  Drive(pending, s, max) == Driven([r.outcome.value] + more.frames, more.pending, more.left))
  {
  }

  lemma IdleExpects(frames: seq<seq<byte>>)
    ensures Expects(0, frames) && Rest(0, frames) == Stream(frames)
    ensures forall handed :: InStep(Driven(handed, 0, []), frames)
  {
  }

  lemma WithinTail(frames: seq<seq<byte>>, n: nat, max: uint32)
    requires n <= |frames| && Within(frames, max)
    ensures Within(frames[n..], max)
    ensures n < |frames| ==> |frames[n]| <= max && frames[n..][0] == frames[n]
  {
  }

  lemma HeadAndPrefix(frames: seq<seq<byte>>, n: nat)
    requires n < |frames|
    ensures [frames[0]] + frames[1..][..n] == frames[..n + 1]
    ensures frames[1..][n..] == frames[n + 1..]
  {
  }

  lemma NothingExpected(pending: uint32, s: seq<byte>, max: uint32)
    requires Expects(pending, []) && s <= Rest(pending, [])
    ensures pending == 0 && s == [] && forall handed :: InStep(Driven(handed, 0, []), [])
    ensures ReadFrame(0, [], max) == FrameRead(0, 0, Failure(IncompleteByteFrame, 0))
  {
  }

  lemma WaitingInStep(pending: uint32, left: seq<byte>, frames: seq<seq<byte>>)
    requires Expects(pending, frames) && left <= Rest(pending, frames) && |left| < pending
    ensures forall handed :: InStep(Driven(handed, pending, left), frames)
  {
  }

  lemma ShortPieceIsEmpty(frames: seq<seq<byte>>, s: seq<byte>)
    requires frames != [] && |s| < PrefixLength(frames[0]) && !Cut(0, frames, |s|)
    ensures s == []
  {
  }

  lemma CutIdle(frames: seq<seq<byte>>, place: int)
    ensures Cut(0, frames, place) <==> InsidePrefix(frames, place)
  {
  }

  /** Driving over a piece that ends inside a prefix hands over the frames before it and then loses the
      part of the prefix that came: what is still to come starts with the prefix of a shorter frame. */
  lemma {:induction false} DriveLosesStep(pending: uint32, frames: seq<seq<byte>>, s: seq<byte>, max: uint32)
    returns (shorter: nat)
    requires Expects(pending, frames) && Within(frames, max) && s <= Rest(pending, frames)
    requires Cut(pending, frames, |s|)
    ensures var r := Drive(pending, s, max);
            && |r.frames| < |frames| && r.frames == frames[..|r.frames|] && r.pending == 0 && r.left == []
            && var after := frames[|r.frames|..];
               && 0 < shorter < |after[0]|
               && Rest(pending, frames)[|s|..] == VarInts.Encode(shorter) + (after[0] + Stream(after[1..]))
    decreases |s|
  {
    hide *;
    DriveUnfolds(pending, s, max);
    assert frames[0..] == frames && frames[..0] == [];
    CutNeedsFrames(pending, frames, |s|);
    IdleExpects(frames);
    IdleExpects(frames[1..]);
    WithinTail(frames, 0, max);
    WithinTail(frames, 1, max);
    var p := if pending == 0 then PrefixLength(frames[0]) else 0;
    if |s| < p {
      CutIsNotAtStart(frames, |s|);
      CallLoses(frames, s, max);
      LateStream(frames, |s|);
      shorter := VarInts.EncodingSuffix(|frames[0]|, |s|);
    } else {
      CutAfterPrefix(pending, frames, |s|);
      if |s| < p + |frames[0]| {
        NotInsideBefore(frames[1..], |s| - p - |frames[0]|);
        assert false;
      }
      CallCompletes(pending, frames, s, max);
      var used := p + |frames[0]|;
      CutIdle(frames[1..], |s| - used);
      shorter := DriveLosesStep(0, frames[1..], s[used..], max);
      HeadAndPrefix(frames, |Drive(0, s[used..], max).frames|);
    }
  }

  lemma CutNeedsFrames(pending: uint32, frames: seq<seq<byte>>, place: int)
    requires Expects(pending, frames) && Cut(pending, frames, place)
    ensures frames != []
  {
  }

  lemma CutIsNotAtStart(frames: seq<seq<byte>>, place: int)
    requires Cut(0, frames, place)
    ensures place > 0
  {
    if place <= 0 {
      NotInsideBefore(frames, place);
    }
  }

  lemma LateStream(frames: seq<seq<byte>>, k: nat)
    requires frames != [] && |frames[0]| < 0x1_0000_0000 && k <= PrefixLength(frames[0])
    ensures k <= |Stream(frames)|
    ensures PrefixLength(frames[0]) == |VarInts.Encode(|frames[0]|)|
    ensures Stream(frames)[k..] == VarInts.Encode(|frames[0]|)[k..] + (frames[0] + Stream(frames[1..]))
  {
    var prefix := VarInts.Encode(|frames[0]|);
    var body := frames[0] + Stream(frames[1..]);
    assert Stream(frames) == prefix + body by { assert prefix + frames[0] + Stream(frames[1..]) == prefix + body; }
  }

  // ---------- driving it over a whole run of arrivals ----------

  /** No arrival ends inside a prefix. */
  predicate Clean(pending: uint32, frames: seq<seq<byte>>, place: nat, arrivals: seq<seq<byte>>)
    requires Expects(pending, frames)
    decreases |arrivals|
  {
    arrivals == [] || (!Cut(pending, frames, place + |arrivals[0]|)
                       && Clean(pending, frames, place + |arrivals[0]|, arrivals[1..]))
  }

  lemma {:induction false} CleanShifts(p: uint32, f: seq<seq<byte>>, i: nat, q: uint32, g: seq<seq<byte>>, j: nat,
                                       arrivals: seq<seq<byte>>)
    requires Expects(p, f) && Expects(q, g) && SameCuts(p, f, i, q, g, j)
    ensures Clean(p, f, i, arrivals) <==> Clean(q, g, j, arrivals)
    decreases |arrivals|
  {
    if arrivals != [] {
      var n := |arrivals[0]|;
      assert CutAfter(p, f, i, n) <==> CutAfter(q, g, j, n);
      var i', j' := i + n, j + n;
      forall k: nat
        ensures CutAfter(p, f, i', k) <==> CutAfter(q, g, j', k)
      {
        assert CutAfter(p, f, i, n + k) <==> CutAfter(q, g, j, n + k);
      }
      CleanShifts(p, f, i', q, g, j', arrivals[1..]);
    }
  }

  /** The reader's state and what it is owed. */
  ghost predicate Owed(pending: uint32, left: seq<byte>, frames: seq<seq<byte>>, coming: seq<byte>) {
    && InStep(Driven([], pending, left), frames)
    && coming == Rest(pending, frames)[|left|..]
  }

  lemma NothingOwed(pending: uint32, left: seq<byte>, frames: seq<seq<byte>>)
    requires Owed(pending, left, frames, [])
    ensures frames == []
  {
    assert |left| == |Rest(pending, frames)|;
  }

  lemma OwedFront(pending: uint32, left: seq<byte>, frames: seq<seq<byte>>, a: seq<byte>, later: seq<byte>)
    requires Owed(pending, left, frames, a + later)
    ensures Expects(pending, frames)
    ensures left + a <= Rest(pending, frames) && Rest(pending, frames)[|left + a|..] == later
  {
    var rest := Rest(pending, frames);
    assert rest == left + (a + later) == (left + a) + later;
  }

  /** Run over arrivals that respect the prefixes, the reader hands over the stream's frames; over any
      others it does not. */
  lemma {:induction false} RunExact(pending: uint32, left: seq<byte>, frames: seq<seq<byte>>,
                                    arrivals: seq<seq<byte>>, max: uint32)
    requires Within(frames, max) && Owed(pending, left, frames, Concat(arrivals))
    ensures Run(pending, left, arrivals, max) == frames <==> Clean(pending, frames, |left|, arrivals)
    decreases |arrivals|
  {
    if arrivals == [] {
      NothingOwed(pending, left, frames);
    } else {
      hide *;
      var a, later := arrivals[0], arrivals[1..];
      RunUnfolds(pending, left, frames, arrivals, max);
      OwedFront(pending, left, frames, a, Concat(later));
      var s := left + a;
      var r := Drive(pending, s, max);
      if Cut(pending, frames, |s|) {
        var shorter := DriveLosesStep(pending, frames, s, max);
        var after := frames[|r.frames|..];
        WithinTail(frames, |r.frames|, max);
        RunAfterLoss(shorter, after[0] + Stream(after[1..]), later, max);
        DifferentTail(frames, |r.frames|, Run(0, [], later, max));
      } else {
        DriveStaysInStep(pending, frames, s, max);
        var after := frames[|r.frames|..];
        WithinTail(frames, |r.frames|, max);
        StillOwed(r, after, Concat(later));
        RunExact(r.pending, r.left, after, later, max);
        CleanShifts(pending, frames, |s|, r.pending, after, |r.left|, later);
        SameTail(frames, |r.frames|, Run(r.pending, r.left, later, max));
      }
    }
  }

  lemma RunUnfolds(pending: uint32, left: seq<byte>, frames: seq<seq<byte>>, arrivals: seq<seq<byte>>, max: uint32)
    requires Owed(pending, left, frames, Concat(arrivals)) && arrivals != []
    ensures Expects(pending, frames) && Concat(arrivals) == arrivals[0] + Concat(arrivals[1..])
    ensures var s := left + arrivals[0];
            var r := Drive(pending, s, max);
            && Run(pending, left, arrivals, max) == r.frames + Run(r.pending, r.left, arrivals[1..], max)
            && (Clean(pending, frames, |left|, arrivals)
                <==> !Cut(pending, frames, |s|) && Clean(pending, frames, |s|, arrivals[1..]))
  {
  }

  lemma StillOwed(r: Driven, frames: seq<seq<byte>>, coming: seq<byte>)
    requires InStep(r, frames)
    requires Expects(r.pending, frames) && |r.left| <= |Rest(r.pending, frames)|
    requires coming == Rest(r.pending, frames)[|r.left|..]
    ensures Owed(r.pending, r.left, frames, coming)
  {
  }

  lemma SameTail(frames: seq<seq<byte>>, n: nat, tail: seq<seq<byte>>)
    requires n <= |frames|
    ensures frames[..n] + tail == frames <==> tail == frames[n..]
  {
    if frames[..n] + tail == frames {
      assert (frames[..n] + tail)[n..] == tail;
    }
    assert frames[..n] + frames[n..] == frames;
  }

  lemma DifferentTail(frames: seq<seq<byte>>, n: nat, tail: seq<seq<byte>>)
    requires n < |frames| && tail != [] && |tail[0]| < |frames[n]|
    ensures frames[..n] + tail != frames
  {
    assert (frames[..n] + tail)[n] == tail[0];
  }

  /** With only the end of a prefix still to come, the next frame handed over is too short. */
  lemma {:induction false} RunAfterLoss(shorter: nat, tail: seq<byte>, arrivals: seq<seq<byte>>, max: uint32)
    requires shorter <= max && shorter <= |tail| && Concat(arrivals) == VarInts.Encode(shorter) + tail
    ensures var frames := Run(0, [], arrivals, max);
            frames != [] && |frames[0]| <= shorter
    decreases |arrivals|
  {
    if arrivals != [] {
      var s, later := arrivals[0], arrivals[1..];
      LaterUnfolds(arrivals, max);
      if |s| < |VarInts.Encode(shorter)| {
        LateCallLoses(shorter, tail, s, Concat(later), max);
        var evenShorter := VarInts.EncodingSuffix(shorter, |s|);
        RunAfterLoss(evenShorter, tail, later, max);
      } else {
        hide *;
        LateCallStarts(shorter, tail, s, Concat(later), max);
        if Drive(0, s, max).frames == [] {
          RunWhileWaiting(shorter, Drive(0, s, max).left, later, max);
        }
      }
    }
  }

  lemma LaterUnfolds(arrivals: seq<seq<byte>>, max: uint32)
    requires arrivals != []
    ensures Concat(arrivals) == arrivals[0] + Concat(arrivals[1..])
    ensures var r := Drive(0, arrivals[0], max);
            Run(0, [], arrivals, max) == r.frames + Run(r.pending, r.left, arrivals[1..], max)
  {
    assert [] + arrivals[0] == arrivals[0];
  }

  lemma LateCallLoses(shorter: nat, tail: seq<byte>, s: seq<byte>, later: seq<byte>, max: uint32)
    requires shorter <= max && |s| < |VarInts.Encode(shorter)| && s + later == VarInts.Encode(shorter) + tail
    ensures Drive(0, s, max) == Driven([], 0, [])
    ensures later == VarInts.Encode(shorter)[|s|..] + tail
  {
    var prefix := VarInts.Encode(shorter);
    assert s == (s + later)[..|s|] == prefix[..|s|];
    assert later == (s + later)[|s|..];
    PartialPrefix(shorter, |s|);
  }

  lemma LateCallStarts(shorter: nat, tail: seq<byte>, s: seq<byte>, later: seq<byte>, max: uint32)
    requires shorter <= max && |s| >= |VarInts.Encode(shorter)| && s + later == VarInts.Encode(shorter) + tail
    requires shorter <= |tail|
    ensures var r := Drive(0, s, max);
            if r.frames == [] then r.pending == shorter && |r.left| < shorter <= |r.left| + |later|
            else |r.frames[0]| == shorter
  {
    var prefix := VarInts.Encode(shorter);
    hide VarInts.Encode, ReadVarInt;
    assert s <= s + later;
    SplitPrefix(s, prefix, tail);
    ReadAfterPrefix(shorter, s[|prefix|..], max);
  }

  lemma {:induction false} RunWhileWaiting(pending: uint32, left: seq<byte>, arrivals: seq<seq<byte>>, max: uint32)
    requires |left| < pending <= |left| + |Concat(arrivals)|
    ensures var frames := Run(pending, left, arrivals, max);
            frames != [] && |frames[0]| == pending
    decreases |arrivals|
  {
    var s, later := left + arrivals[0], arrivals[1..];
    if |s| < pending {
      assert Drive(pending, s, max) == Driven([], pending, s);
      RunWhileWaiting(pending, s, later, max);
    }
  }

  /** Whether the `k`th arrival of a stream read from `place` on ends inside a prefix. */
  predicate EndsInside(frames: seq<seq<byte>>, place: nat, arrivals: seq<seq<byte>>, k: nat)
    requires k <= |arrivals|
  {
    InsidePrefix(frames, place + |Concat(arrivals[..k])|)
  }

  lemma EndsInsideNext(frames: seq<seq<byte>>, place: nat, arrivals: seq<seq<byte>>, k: nat)
    requires 0 < k <= |arrivals|
    ensures k == 1 ==> (EndsInside(frames, place, arrivals, k) <==> Cut(0, frames, place + |arrivals[0]|))
    ensures EndsInside(frames, place, arrivals, k)
            <==> EndsInside(frames, place + |arrivals[0]|, arrivals[1..], k - 1)
  {
    assert arrivals[..k][1..] == arrivals[1..][..k - 1];
  }

  lemma CleanUnfolds(frames: seq<seq<byte>>, place: nat, arrivals: seq<seq<byte>>)
    ensures arrivals == [] ==> Clean(0, frames, place, arrivals)
    ensures arrivals != [] ==>
            (Clean(0, frames, place, arrivals) <==> !Cut(0, frames, place + |arrivals[0]|)
                                                    && Clean(0, frames, place + |arrivals[0]|, arrivals[1..]))
  {
  }

  lemma {:induction false} CleanMeans(frames: seq<seq<byte>>, place: nat, arrivals: seq<seq<byte>>)
    ensures Clean(0, frames, place, arrivals)
            <==> forall k :: 0 < k <= |arrivals| ==> !EndsInside(frames, place, arrivals, k)
    decreases |arrivals|
  {
    hide *;
    IdleExpects(frames);
    CleanUnfolds(frames, place, arrivals);
    if arrivals != [] {
      var next, later := place + |arrivals[0]|, arrivals[1..];
      CleanMeans(frames, next, later);
      forall k | 0 < k <= |arrivals|
        ensures EndsInside(frames, place, arrivals, k) <==>
                if k == 1 then Cut(0, frames, next) else EndsInside(frames, next, later, k - 1)
      {
        EndsInsideNext(frames, place, arrivals, k);
      }
      if forall k :: 0 < k <= |arrivals| ==> !EndsInside(frames, place, arrivals, k) {
        assert !EndsInside(frames, place, arrivals, 1);
        forall k | 0 < k <= |later| ensures !EndsInside(frames, next, later, k) {
          assert !EndsInside(frames, place, arrivals, k + 1);
        }
      }
    }
  }

  lemma OwedAtStart(frames: seq<seq<byte>>)
    ensures Owed(0, [], frames, Stream(frames)) && Expects(0, frames)
  {
  }

  /** Chunking independence, exactly: however a stream of frames within the size limit is cut into
      arrivals, driving the reader after each of them hands over exactly those frames in order if and
      only if no arrival ends strictly inside a length prefix. */
  lemma ChunkingExact(frames: seq<seq<byte>>, arrivals: seq<seq<byte>>, max: uint32)
    requires Within(frames, max) && Concat(arrivals) == Stream(frames)
    ensures Run(0, [], arrivals, max) == frames
            <==> forall k :: 0 < k <= |arrivals| ==> !EndsInside(frames, 0, arrivals, k)
  {
    hide *;
    OwedAtStart(frames);
    RunExact(0, [], frames, arrivals, max);
    CleanMeans(frames, 0, arrivals);
  }

  /** A frame of 128 bytes whose two prefix bytes arrive apart does not come through. */
  lemma LostPrefix(frame: seq<byte>, max: uint32)
    requires |frame| == 128 <= max
    ensures Prefixed(frame) == [128] + ([1] + frame)
    ensures Run(0, [], [[128], [1] + frame], max) != [frame]
  {
    var arrivals := [[128], [1] + frame];
    TwoBytePrefix(frame);
    hide *;
    StreamOfOne(frame, max);
    ConcatTwo([128], [1] + frame);
    ChunkingExact([frame], arrivals, max);
    FirstEndsInside(frame, arrivals);
  }

  lemma TwoBytePrefix(frame: seq<byte>)
    requires |frame| == 128
    ensures VarInts.Encode(128) == [128, 1] && PrefixLength(frame) == 2
    ensures Prefixed(frame) == [128] + ([1] + frame)
  {
    assert VarInts.Encode(1) == [1];
    assert VarInts.Encode(128) == [128] + VarInts.Encode(1);
    assert [128, 1] + frame == [128] + ([1] + frame);
  }

  lemma StreamOfOne(frame: seq<byte>, max: uint32)
    requires |frame| <= max
    ensures Stream([frame]) == Prefixed(frame) && Within([frame], max)
  {
    hide Prefixed;
    assert [frame][1..] == [] && Prefixed(frame) + [] == Prefixed(frame);
  }

  lemma ConcatTwo(a: seq<byte>, b: seq<byte>)
    ensures Concat([a, b]) == a + b
  {
    assert [a, b][1..] == [b] && [b][1..] == [];
    assert Concat([b]) == b + [] == b;
  }

  lemma FirstEndsInside(frame: seq<byte>, arrivals: seq<seq<byte>>)
    requires PrefixLength(frame) == 2 && |arrivals| == 2 && |arrivals[0]| == 1
    ensures EndsInside([frame], 0, arrivals, 1)
  {
    hide PrefixLength;
    var first := arrivals[..1];
    assert first == [arrivals[0]] && first[1..] == [];
    assert Concat(first) == arrivals[0] + Concat(first[1..]) == arrivals[0] + [] == arrivals[0];
    assert InsidePrefix([frame], 1) by { assert [frame][0] == frame; }
  }
}
