/** Protocol versions, and the tables that map packet ids to ordinals and back for each of them. */
module Registries {
  import opened Words

  // ---------- growing vectors ----------

  function Zeros(n: nat): (s: seq<uint32>)
    ensures |s| == n && forall i :: 0 <= i < n ==> s[i] == 0
  {
    if n == 0 then [] else Zeros(n - 1) + [0]
  }

  /** Sets an entry, growing the vector by padding when the entry is beyond its end. */
  function ResizeAndSet(v: seq<uint32>, at: nat, value: uint32): (r: seq<uint32>)
    ensures |r| == if at >= |v| then at + 8 else |v|
    ensures at < |r| && r[at] == value
    ensures forall i :: 0 <= i < |v| && i != at ==> r[i] == v[i]
    ensures forall i :: |v| <= i < |r| && i != at ==> r[i] == 0
  {
    if at >= |v| then (v + Zeros(at + 8 - |v|))[at := value] else v[at := value]
  }

  // ---------- the two tables of one version ----------

  datatype Tables = Tables(toID: seq<uint32>, toOrdinal: seq<uint32>, latest: int)

  function OrdinalByID(t: Tables, id: uint32): Errorable<uint32> {
    if id >= |t.toOrdinal| then Failure(InvalidPacketById, id) else Success(t.toOrdinal[id])
  }

  function IDByOrdinal(t: Tables, ordinal: uint32): Errorable<uint32> {
    if ordinal >= |t.toID| then Failure(InvalidPacketByOrdinal, ordinal) else Success(t.toID[ordinal])
  }

  function WithPair(t: Tables, ordinal: uint32, id: uint32): Tables {
    t.(toID := ResizeAndSet(t.toID, ordinal, id), toOrdinal := ResizeAndSet(t.toOrdinal, id, ordinal))
  }

  function WithNext(t: Tables, ordinal: uint32): Tables
    requires -1 <= t.latest < 0x7FFF_FFFF
  {
    WithPair(t, ordinal, t.latest + 1).(latest := t.latest + 1)
  }

  /** The tables after registering the ordinals in turn on empty ones. */
  function RegisterAll(ordinals: seq<uint32>): (t: Tables)
    requires |ordinals| <= 0x8000_0000
    ensures t.latest == |ordinals| - 1
  {
    if ordinals == [] then Tables([], [], -1)
    else WithNext(RegisterAll(ordinals[..|ordinals| - 1]), ordinals[|ordinals| - 1])
  }

  /** The id an ordinal was last given. */
  function LastOf(ordinals: seq<uint32>, ordinal: uint32): (k: nat)
    requires ordinal in ordinals
    ensures k < |ordinals| && ordinals[k] == ordinal && ordinal !in ordinals[k + 1..]
  {
    var n := |ordinals| - 1;
    if ordinals[n] == ordinal then n else
      assert ordinals == ordinals[..n] + [ordinals[n]];
      var k := LastOf(ordinals[..n], ordinal);
      assert ordinals[k + 1..] == ordinals[..n][k + 1..] + [ordinals[n]];
      k
  }

  /** Ids are dense in registration order, and an ordinal has the last id it was given. The id table is
      padded to a multiple of eight, and padding answers 0 as if it were registered. */
  ghost predicate Holds(t: Tables, ordinals: seq<uint32>) {
    && t.latest == |ordinals| - 1
    && |t.toOrdinal| == (|ordinals| + 7) / 8 * 8
    && (forall i :: 0 <= i < |ordinals| ==> t.toOrdinal[i] == ordinals[i])
    && (forall i :: |ordinals| <= i < |t.toOrdinal| ==> t.toOrdinal[i] == 0)
    && (forall o :: o in ordinals ==> o < |t.toID| && t.toID[o] == LastOf(ordinals, o))
  }

  lemma LastOfSnoc(ordinals: seq<uint32>, last: uint32, o: uint32)
    requires o in ordinals + [last]
    ensures LastOf(ordinals + [last], o) == if o == last then |ordinals| else
                                            (assert o in ordinals; LastOf(ordinals, o))
  {
    assert (ordinals + [last])[..|ordinals|] == ordinals;
  }

  lemma WithNextHolds(t: Tables, ordinals: seq<uint32>, last: uint32)
    requires |ordinals| < 0x8000_0000 && Holds(t, ordinals)
    ensures Holds(WithNext(t, last), ordinals + [last])
  {
    hide LastOf, Zeros, ResizeAndSet;
    var all := ordinals + [last];
    forall o | o in all
      ensures o < |WithNext(t, last).toID| && WithNext(t, last).toID[o] == LastOf(all, o)
    {
      LastOfSnoc(ordinals, last, o);
    }
  }

  lemma {:induction false} RegisterAllExact(ordinals: seq<uint32>)
    requires |ordinals| <= 0x8000_0000
    ensures Holds(RegisterAll(ordinals), ordinals)
    decreases |ordinals|
  {
    hide *;
    RegisterAllUnfolds(ordinals);
    if ordinals != [] {
      var n := |ordinals| - 1;
      RegisterAllExact(ordinals[..n]);
      WithNextHolds(RegisterAll(ordinals[..n]), ordinals[..n], ordinals[n]);
      assert ordinals == ordinals[..n] + [ordinals[n]];
    }
  }

  lemma RegisterAllUnfolds(ordinals: seq<uint32>)
    requires |ordinals| <= 0x8000_0000
    ensures ordinals == [] ==> Holds(RegisterAll(ordinals), ordinals)
    ensures ordinals != [] ==>
            var n := |ordinals| - 1;
            RegisterAll(ordinals) == WithNext(RegisterAll(ordinals[..n]), ordinals[n])
  {
    hide LastOf, WithNext;
  }

  lemma LaterIsInTail(s: seq<uint32>, k: nat)
    requires k < |s|
    ensures forall i :: k < i < |s| ==> s[i] in s[k + 1..]
  {
    forall i | k < i < |s| ensures s[i] in s[k + 1..] {
      assert s[k + 1..][i - k - 1] == s[i];
    }
  }

  /** An id that was given out answers its ordinal; an id never given out answers 0 if it falls into the
      padding, and is refused only beyond it. */
  lemma OrdinalByIDExact(ordinals: seq<uint32>, id: uint32)
    requires |ordinals| <= 0x8000_0000
    ensures OrdinalByID(RegisterAll(ordinals), id)
            == (if id < |ordinals| then Success(ordinals[id])
                else if id < (|ordinals| + 7) / 8 * 8 then Success(0)
                else Failure(InvalidPacketById, id))
  {
    RegisterAllExact(ordinals);
  }

  /** Going from an ordinal to its id and back always returns the ordinal, even after it has been
      registered again. */
  lemma OrdinalRoundTrip(ordinals: seq<uint32>, ordinal: uint32)
    requires |ordinals| <= 0x8000_0000 && ordinal in ordinals
    ensures var id := IDByOrdinal(RegisterAll(ordinals), ordinal);
            id.Success? && OrdinalByID(RegisterAll(ordinals), id.value) == Success(ordinal)
  {
    RegisterAllExact(ordinals);
  }

  lemma LastIsItself(ordinals: seq<uint32>, id: nat)
    requires id < |ordinals|
    ensures LastOf(ordinals, ordinals[id]) == id <==> ordinals[id] !in ordinals[id + 1..]
  {
    hide *;
    var last := LastOf(ordinals, ordinals[id]);
    LaterIsInTail(ordinals, last);
    if last > id {
      LaterIsInTail(ordinals, id);
    }
  }

  lemma AnswersLast(ordinals: seq<uint32>, ordinal: uint32)
    requires |ordinals| <= 0x8000_0000 && ordinal in ordinals
    ensures IDByOrdinal(RegisterAll(ordinals), ordinal) == Success(LastOf(ordinals, ordinal))
  {
    hide LastOf, RegisterAll;
    RegisterAllExact(ordinals);
  }

  /** Going from an id to its ordinal and back returns the id exactly when the ordinal has not been
      registered again since. */
  lemma IDRoundTripExact(ordinals: seq<uint32>, id: nat)
    requires id < |ordinals| <= 0x8000_0000
    ensures IDByOrdinal(RegisterAll(ordinals), ordinals[id]) == Success(id) <==> ordinals[id] !in ordinals[id + 1..]
  {
    hide *;
    AnswersLast(ordinals, ordinals[id]);
    LastIsItself(ordinals, id);
  }

  /** A registration leaves the answers for every other ordinal and every other id as they were. */
  lemma RegisterKeepsOthers(ordinals: seq<uint32>, ordinal: uint32, other: uint32)
    requires |ordinals| < 0x8000_0000 && other in ordinals && other != ordinal
    ensures IDByOrdinal(RegisterAll(ordinals + [ordinal]), other) == IDByOrdinal(RegisterAll(ordinals), other)
  {
    RegisterAllExact(ordinals);
    assert (ordinals + [ordinal])[..|ordinals|] == ordinals;
  }

  /** What an entry of a table answers after another entry has been set: what it answered before if it
      existed, 0 if it is padding of this growth, and a refusal beyond that. */
  function AnswerAfter(v: seq<uint32>, changed: uint32, asked: uint32, error: ErrorKind): Errorable<uint32> {
    if asked < |v| then Success(v[asked])
    else if |v| <= changed && asked < changed + 8 then Success(0)
    else Failure(error, asked)
  }

  /** Registering an ordinal under a given id: the two answer each other, and every other id and ordinal
      answers as before, except that padding appears. */
  lemma PairExact(t: Tables, ordinal: uint32, id: uint32, other: uint32)
    ensures var u := WithPair(t, ordinal, id);
            && IDByOrdinal(u, ordinal) == Success(id) && OrdinalByID(u, id) == Success(ordinal)
            && (other != ordinal ==>
                  IDByOrdinal(u, other) == AnswerAfter(t.toID, ordinal, other, InvalidPacketByOrdinal))
            && (other != id ==> OrdinalByID(u, other) == AnswerAfter(t.toOrdinal, id, other, InvalidPacketById))
  {
    hide Zeros;
  }

  /** The tables made from a list of ordinals: the list itself is the id table, without padding. */
  function FromList(ordinals: seq<uint32>): Tables
    requires |ordinals| < TWO_32
  {
    Tables(ListToID(ordinals), ordinals, -1)
  }

  function ListToID(ordinals: seq<uint32>): seq<uint32>
    requires |ordinals| < TWO_32
  {
    if ordinals == [] then []
    else ResizeAndSet(ListToID(ordinals[..|ordinals| - 1]), ordinals[|ordinals| - 1], |ordinals| - 1)
  }

  lemma {:induction false} ListToIDExact(ordinals: seq<uint32>)
    requires |ordinals| < TWO_32
    ensures forall o :: o in ordinals ==> o < |ListToID(ordinals)| && ListToID(ordinals)[o] == LastOf(ordinals, o)
    decreases |ordinals|
  {
    if ordinals != [] {
      var n := |ordinals| - 1;
      var front, last := ordinals[..n], ordinals[n];
      assert ordinals == front + [last];
      ListToIDExact(front);
      forall o | o in ordinals ensures o < |ListToID(ordinals)| && ListToID(ordinals)[o] == LastOf(ordinals, o) {
        LastOfSnoc(front, last, o);
      }
    }
  }

  /** In the tables made from a list, an id within the list answers the ordinal at its place, and there is no
      padding; an ordinal of the list answers its last place, which leads back to it. */
  lemma {:induction false} FromListExact(ordinals: seq<uint32>, id: uint32, ordinal: uint32)
    requires |ordinals| < 0x1_0000_0000
    ensures OrdinalByID(FromList(ordinals), id)
            == if id < |ordinals| then Success(ordinals[id]) else Failure(InvalidPacketById, id)
    ensures ordinal in ordinals ==>
              && IDByOrdinal(FromList(ordinals), ordinal) == Success(LastOf(ordinals, ordinal))
              && OrdinalByID(FromList(ordinals), LastOf(ordinals, ordinal)) == Success(ordinal)
  {
    hide LastOf, ListToID;
    ListToIDExact(ordinals);
  }

  /** A list's tables agree with registering its ordinals one by one, except that they still count from
      the start: the next automatic registration takes id 0 from the first of them. */
  lemma FromListForgetsCount(ordinals: seq<uint32>, ordinal: uint32)
    requires |ordinals| <= 0x8000_0000
    ensures FromList(ordinals).toID == RegisterAll(ordinals).toID
    ensures ordinals != [] ==>
            (OrdinalByID(WithNext(FromList(ordinals), ordinal), 0) == Success(ordinals[0]) <==> ordinal == ordinals[0])
  {
    SameToID(ordinals);
  }

  /** Tables made from one ordinal, and then another registered: the first one's id is taken from it. */
  lemma ListThenRegister(first: uint32, second: uint32)
    ensures var t := WithNext(FromList([first]), second);
            && OrdinalByID(FromList([first]), 0) == Success(first) && OrdinalByID(t, 0) == Success(second)
            && t.latest == 0 && OrdinalByID(t, 1) == Failure(InvalidPacketById, 1)
  {
    hide Zeros, ListToID;
  }

  lemma {:induction false} SameToID(ordinals: seq<uint32>)
    requires |ordinals| <= 0x8000_0000
    ensures ListToID(ordinals) == RegisterAll(ordinals).toID
    decreases |ordinals|
  {
    if ordinals != [] {
      SameToID(ordinals[..|ordinals| - 1]);
    }
  }

  class VersionRegistry {
    var ordinalToIDMap: seq<uint32>
    var idToOrdinalMap: seq<uint32>
    var latestRegisteredID: int

    ghost function View(): Tables
      reads this
    {
      Tables(ordinalToIDMap, idToOrdinalMap, latestRegisteredID)
    }

    constructor ()
      ensures View() == RegisterAll([])
    {
      ordinalToIDMap, idToOrdinalMap, latestRegisteredID := [], [], -1;
    }

    constructor FromOrdinals(ordinals: seq<uint32>)
      requires |ordinals| < TWO_32
      ensures View() == FromList(ordinals) && latestRegisteredID == -1
      ensures forall id: uint32 :: GetOrdinalByID(id)
                == if id < |ordinals| then Success(ordinals[id]) else Failure(InvalidPacketById, id)
      ensures forall i :: 0 <= i < |ordinals| && ordinals[i] !in ordinals[i + 1..] ==>
                GetIDByOrdinal(ordinals[i]) == Success(i)
    {
      idToOrdinalMap := ordinals;
      latestRegisteredID := -1;
      var toID := [];
      for index := 0 to |ordinals|
        invariant toID == ListToID(ordinals[..index])
      {
        assert ordinals[..index + 1][..index] == ordinals[..index];
        toID := ResizeAndSet(toID, ordinals[index], index);
      }
      assert ordinals[..|ordinals|] == ordinals;
      ordinalToIDMap := toID;
      ListToIDExact(ordinals);
      forall i | 0 <= i < |ordinals| && ordinals[i] !in ordinals[i + 1..]
        ensures LastOf(ordinals, ordinals[i]) == i
      {
        LastIsItself(ordinals, i);
      }
    }

    function GetOrdinalByID(id: uint32): (r: Errorable<uint32>)
      reads this
      ensures r == OrdinalByID(View(), id)
    {
      if id >= |idToOrdinalMap| then Failure(InvalidPacketById, id) else Success(idToOrdinalMap[id])
    }

    function GetIDByOrdinal(ordinal: uint32): (r: Errorable<uint32>)
      reads this
      ensures r == IDByOrdinal(View(), ordinal)
    {
      if ordinal >= |ordinalToIDMap| then Failure(InvalidPacketByOrdinal, ordinal) else Success(ordinalToIDMap[ordinal])
    }

    method RegisterAs(ordinal: uint32, id: uint32)
      modifies this`ordinalToIDMap, this`idToOrdinalMap
      ensures View() == WithPair(old(View()), ordinal, id)
    {
      ordinalToIDMap := ResizeAndSet(ordinalToIDMap, ordinal, id);
      idToOrdinalMap := ResizeAndSet(idToOrdinalMap, id, ordinal);
    }

    method Register(ordinal: uint32)
      requires -1 <= latestRegisteredID < 0x7FFF_FFFF
      modifies this
      ensures View() == WithNext(old(View()), ordinal)
    {
      latestRegisteredID := latestRegisteredID + 1;
      RegisterAs(ordinal, latestRegisteredID);
    }
  }
}
