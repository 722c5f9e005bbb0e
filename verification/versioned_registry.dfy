/** Which registry serves which protocol version. */
module VersionedRegistries {
  import opened Words
  import opened Registries

  /** A protocol version as far as the tables look at it: its ordinal, or the one unknown version, which
      stands for the newest. */
  datatype Version = Unknown | Known(ordinal: nat)

  function OrdinalOf(v: Version, maximum: nat): nat {
    match v
    case Unknown => maximum
    case Known(ordinal) => ordinal
  }

  /** The ordinals of the versions at which something changes, in the order of the versions' set. The set
      is ordered by protocol ids; the ordinals have to be ordered alike. */
  ghost predicate Keys(keys: seq<nat>, maximum: nat) {
    && keys != []
    && (forall i, j :: 0 <= i < j < |keys| ==> keys[i] < keys[j])
    && keys[|keys| - 1] <= maximum
  }

  /** The number of keys at or below a version. */
  function Rank(keys: seq<nat>, v: nat): (r: nat)
    ensures r <= |keys|
  {
    if keys == [] then 0 else Rank(keys[..|keys| - 1], v) + if keys[|keys| - 1] <= v then 1 else 0
  }

  lemma {:induction false} RankBetween(keys: seq<nat>, i: nat, v: nat)
    requires forall a, b :: 0 <= a < b < |keys| ==> keys[a] < keys[b]
    requires i <= |keys| && (i > 0 ==> keys[i - 1] <= v) && (i < |keys| ==> v < keys[i])
    ensures Rank(keys, v) == i
  {
    if keys != [] {
      var n := |keys| - 1;
      RankBetween(keys[..n], if i > n then n else i, v);
    }
  }

  lemma {:induction false} RankWitness(keys: seq<nat>, v: nat)
    requires forall a, b :: 0 <= a < b < |keys| ==> keys[a] < keys[b]
    ensures var i := Rank(keys, v);
            (i > 0 ==> keys[i - 1] <= v) && (i < |keys| ==> v < keys[i])
  {
    if keys != [] {
      var n := |keys| - 1;
      RankWitness(keys[..n], v);
      if keys[n] <= v {
        RankBetween(keys, |keys|, v);
      }
    }
  }

  /** The rank never falls as versions get newer, and two versions have the same rank exactly when no key
      lies after the one and up to the other. */
  lemma RankExact(keys: seq<nat>, u: nat, v: nat)
    requires forall a, b :: 0 <= a < b < |keys| ==> keys[a] < keys[b]
    requires u <= v
    ensures Rank(keys, u) <= Rank(keys, v)
    ensures Rank(keys, u) == Rank(keys, v) <==> forall k :: k in keys ==> !(u < k <= v)
  {
    RankWitness(keys, u);
    RankWitness(keys, v);
    var i, j := Rank(keys, u), Rank(keys, v);
    if i < j {
      assert keys[i] in keys && (i == j - 1 || keys[i] < keys[j - 1]);
    } else if i == j {
      forall k | k in keys ensures !(u < k <= v) {
        var a :| 0 <= a < |keys| && keys[a] == k;
        assert a < i ==> a == i - 1 || keys[a] < keys[i - 1];
        assert a > i ==> keys[i] < keys[a];
      }
    }
  }

  /** A registry set at a key serves the versions from that key up to just before the next. */
  lemma KeyServes(keys: seq<nat>, i: nat, v: nat)
    requires i < |keys| && forall a, b :: 0 <= a < b < |keys| ==> keys[a] < keys[b]
    ensures Rank(keys, v) == Rank(keys, keys[i]) <==> keys[i] <= v && (i + 1 < |keys| ==> v < keys[i + 1])
  {
    RankBetween(keys, i + 1, keys[i]);
    RankWitness(keys, v);
    if keys[i] <= v && (i + 1 < |keys| ==> v < keys[i + 1]) {
      RankBetween(keys, i + 1, v);
    }
  }

  /** std::fill over part of an array. */
  method Fill(a: array<nat>, from: nat, to: nat, value: nat)
    requires from <= to <= a.Length
    modifies a
    ensures forall i :: 0 <= i < a.Length ==> a[i] == if from <= i < to then value else old(a[i])
  {
    forall i | from <= i < to {
      a[i] := value;
    }
  }

  class VersionedRegistry {
    const minimum: nat
    const maximum: nat
    ghost const keys: seq<nat>
    const versionToOrdinalMap: array<nat>
    const versionRegistry: array<VersionRegistry?>

    /** The table holds every version's rank from the first key on. Below it, it was never filled. */
    ghost predicate Valid()
      reads this, versionToOrdinalMap
    {
      && Keys(keys, maximum)
      && versionToOrdinalMap.Length == maximum + 1
      && versionRegistry.Length == |keys| + 1
      && versionToOrdinalMap as object != versionRegistry as object
      && forall v :: keys[0] <= v <= maximum ==> versionToOrdinalMap[v] == Rank(keys, v)
    }

    /** The registry that serves a version. */
    ghost function Serving(v: nat): VersionRegistry?
      reads this, versionToOrdinalMap, versionRegistry
      requires Valid() && keys[0] <= v <= maximum
    {
      versionRegistry[versionToOrdinalMap[v]]
    }

    /** As written: the first key is not skipped, so an empty range is filled for it and the ranges are
        numbered from 1. */
    constructor (min: nat, max: nat, versionMap: seq<nat>)
      requires Keys(versionMap, max)
      ensures Valid() && minimum == min && maximum == max && keys == versionMap
      ensures fresh(versionToOrdinalMap) && fresh(versionRegistry)
    {
      minimum, maximum, keys := min, max, versionMap;
      var map' := new nat[max + 1];
      var ordinal, previous := 0, versionMap[0];
      for i := 0 to |versionMap|
        invariant ordinal == i && previous == versionMap[if i == 0 then 0 else i - 1]
        invariant forall v :: versionMap[0] <= v < previous ==> map'[v] == Rank(versionMap, v)
        invariant fresh(map') && map'.Length == max + 1
      {
        var key := versionMap[i];
        Fill(map', previous, key, ordinal);
        forall v | previous <= v < key ensures Rank(versionMap, v) == i {
          RankBetween(versionMap, i, v);
        }
        ordinal := ordinal + 1;
        previous := key;
      }
      Fill(map', previous, max + 1, ordinal);
      forall v | previous <= v <= max ensures Rank(versionMap, v) == |versionMap| {
        RankBetween(versionMap, |versionMap|, v);
      }
      versionToOrdinalMap := map';
      versionRegistry := new VersionRegistry?[map'[max] + 1];
    }

    function VersionToOrdinal(version: Version): (r: nat)
      reads this, versionToOrdinalMap
      requires Valid() && keys[0] <= OrdinalOf(version, maximum) <= maximum
      ensures r == Rank(keys, OrdinalOf(version, maximum)) < versionRegistry.Length
      ensures version.Unknown? ==> r == |keys|
      ensures version.Known? ==> r == Rank(keys, version.ordinal)
    {
      NewestRank(keys, maximum);
      versionToOrdinalMap[match version case Unknown => maximum case Known(ordinal) => ordinal]
    }

    lemma NewestRank(keys: seq<nat>, maximum: nat)
      requires Keys(keys, maximum)
      ensures Rank(keys, maximum) == |keys|
    {
      RankBetween(keys, |keys|, maximum);
    }

    /** Replaces the registry of every version with the same rank, and of no other. */
    method RegisterVersion(version: Version, registry: VersionRegistry)
      requires Valid() && keys[0] <= OrdinalOf(version, maximum) <= maximum
      modifies versionRegistry
      ensures Valid()
      ensures forall v :: keys[0] <= v <= maximum ==>
                Serving(v) == if Rank(keys, v) == Rank(keys, OrdinalOf(version, maximum)) then registry
                              else old(Serving(v))
    {
      versionRegistry[VersionToOrdinal(version)] := registry;
    }

    /** Makes one registry serve every version from the oldest on. */
    method FillVersionRegistry(registry: VersionRegistry)
      requires Valid() && keys[0] <= minimum <= maximum
      modifies versionRegistry
      ensures Valid()
      ensures forall v :: keys[0] <= v <= maximum ==>
                Serving(v) == if Rank(keys, v) >= Rank(keys, minimum) then registry else old(Serving(v))
    {
      var first, last := VersionToOrdinal(Known(minimum)), VersionToOrdinal(Known(maximum));
      RankExact(keys, minimum, maximum);
      for i := first to last + 1
        invariant Valid()
        invariant forall j :: 0 <= j < versionRegistry.Length ==>
                    versionRegistry[j] == if first <= j < i then registry else old(versionRegistry[j])
      {
        versionRegistry[i] := registry;
      }
      forall v | keys[0] <= v <= maximum ensures Rank(keys, v) <= last {
        RankExact(keys, v, maximum);
      }
    }

    /** Lookups go to the registry serving the version, which must have been set. */
    function GetOrdinalByID(version: Version, id: uint32): (r: Errorable<uint32>)
      reads this, versionToOrdinalMap, versionRegistry, Serving(OrdinalOf(version, maximum))
      requires Valid() && keys[0] <= OrdinalOf(version, maximum) <= maximum
      requires Serving(OrdinalOf(version, maximum)) != null
      ensures r == OrdinalByID(Serving(OrdinalOf(version, maximum)).View(), id)
    {
      versionRegistry[VersionToOrdinal(version)].GetOrdinalByID(id)
    }

    function GetIDByOrdinal(version: Version, ordinal: uint32): (r: Errorable<uint32>)
      reads this, versionToOrdinalMap, versionRegistry, Serving(OrdinalOf(version, maximum))
      requires Valid() && keys[0] <= OrdinalOf(version, maximum) <= maximum
      requires Serving(OrdinalOf(version, maximum)) != null
      ensures r == IDByOrdinal(Serving(OrdinalOf(version, maximum)).View(), ordinal)
    {
      versionRegistry[VersionToOrdinal(version)].GetIDByOrdinal(ordinal)
    }

    /** An enumeration's value for an id: its ordinal, which is the value's number. */
    function GetValue(version: Version, id: uint32): (r: Errorable<uint32>)
      reads this, versionToOrdinalMap, versionRegistry, Serving(OrdinalOf(version, maximum))
      requires Valid() && keys[0] <= OrdinalOf(version, maximum) <= maximum
      requires Serving(OrdinalOf(version, maximum)) != null
    {
      match GetOrdinalByID(version, id)
      case Success(ordinal) => Success(ordinal)
      case Failure(_, _) => Failure(InvalidEnumById, id)
    }

    /** For every version, an id answers the value registered for it; an id never given out answers value 0
        if it falls into the padding, and is refused only beyond it. A value that was registered comes back
        from its id; and an id from its value exactly when the value was not registered again later. */
    lemma EnumRoundTrip(version: Version, ordinals: seq<uint32>, value: uint32)
      requires Valid() && keys[0] <= OrdinalOf(version, maximum) <= maximum
      requires Serving(OrdinalOf(version, maximum)) != null && |ordinals| <= 0x8000_0000
      requires Serving(OrdinalOf(version, maximum)).View() == RegisterAll(ordinals)
      ensures forall id: uint32 :: GetValue(version, id)
                == if id < |ordinals| then Success(ordinals[id])
                   else if id < (|ordinals| + 7) / 8 * 8 then Success(0)
                   else Failure(InvalidEnumById, id)
      ensures value in ordinals ==>
              var id := GetIDByOrdinal(version, value);
              id.Success? && GetValue(version, id.value) == Success(value)
      ensures forall id: nat :: id < |ordinals| ==>
                (GetIDByOrdinal(version, ordinals[id]) == Success(id) <==> ordinals[id] !in ordinals[id + 1..])
    {
      if value in ordinals {
        OrdinalRoundTrip(ordinals, value);
      }
      forall id: uint32
        ensures GetValue(version, id) == if id < |ordinals| then Success(ordinals[id])
                                         else if id < (|ordinals| + 7) / 8 * 8 then Success(0)
                                         else Failure(InvalidEnumById, id)
      {
        OrdinalByIDExact(ordinals, id);
      }
      forall id: nat | id < |ordinals|
        ensures GetIDByOrdinal(version, ordinals[id]) == Success(id) <==> ordinals[id] !in ordinals[id + 1..]
      {
        IDRoundTripExact(ordinals, id);
      }
    }
  }
}
