/** The typed fields that the buffer's write and read operations exchange, as byte strings. */
module Codec {
  import opened Words
  import VarInts

  datatype UUID = UUID(most: uint64, least: uint64)

  // ---------- fixed-width words, most significant byte first ----------

  function BigEndian(x: nat, n: nat): (s: seq<byte>)
    ensures |s| == n
  {
    if n == 0 then [] else BigEndian(x / 256, n - 1) + [x % 256]
  }

  function FromBigEndian(s: seq<byte>): nat {
    if s == [] then 0 else FromBigEndian(s[..|s| - 1]) * 256 + s[|s| - 1]
  }

  function Pow256(n: nat): (p: nat)
    ensures p >= 1
  {
    if n == 0 then 1 else 256 * Pow256(n - 1)
  }

  lemma {:induction false} BigEndianRoundTrip(x: nat, n: nat)
    requires x < Pow256(n)
    ensures FromBigEndian(BigEndian(x, n)) == x
  {
    if n > 0 {
      BigEndianRoundTrip(x / 256, n - 1);
      var s := BigEndian(x, n);
      assert s[..n - 1] == BigEndian(x / 256, n - 1);
    }
  }

  lemma {:induction false} FromBigEndianBound(s: seq<byte>)
    ensures FromBigEndian(s) < Pow256(|s|)
  {
    if s != [] {
      FromBigEndianBound(s[..|s| - 1]);
    }
  }

  lemma {:induction false} FromBigEndianRoundTrip(s: seq<byte>)
    ensures BigEndian(FromBigEndian(s), |s|) == s
  {
    if s != [] {
      FromBigEndianRoundTrip(s[..|s| - 1]);
      assert s == s[..|s| - 1] + [s[|s| - 1]];
    }
  }

  /** The `i`th byte written is the `i`th from the top of the word. */
  lemma {:induction false} BigEndianAt(x: nat, n: nat, i: nat)
    requires i < n
    ensures BigEndian(x, n)[i] == x / Pow256(n - 1 - i) % 256
  {
    if i < n - 1 {
      BigEndianAt(x / 256, n - 1, i);
      DivideTwice(x, 256, Pow256(n - 2 - i));
    } else {
      assert x / 1 == x;
    }
  }

  lemma Regroup(high: nat, p: nat, low: nat)
    ensures high * (256 * p) + low == 256 * (high * p + low / 256) + low % 256
    ensures low < 256 * p ==> low / 256 < p
  {
  }

  lemma BigEndianSnoc(x: nat, n: nat, b: byte)
    ensures BigEndian(256 * x + b, n + 1) == BigEndian(x, n) + [b]
  {
  }

  /** The bytes of a word are those of its upper part and then those of its lower. */
  lemma {:induction false} BigEndianHalves(high: nat, low: nat, m: nat, n: nat)
    requires low < Pow256(n)
    ensures BigEndian(high * Pow256(n) + low, m + n) == BigEndian(high, m) + BigEndian(low, n)
  {
    if n == 0 {
      assert high * Pow256(0) + low == high && BigEndian(low, 0) == [];
    } else {
      var x := high * Pow256(n - 1) + low / 256;
      assert Pow256(n) == 256 * Pow256(n - 1);
      hide *;
      Regroup(high, Pow256(n - 1), low);
      BigEndianHalves(high, low / 256, m, n - 1);
      BigEndianSnoc(x, m + n - 1, low % 256);
      BigEndianSnoc(low / 256, n - 1, low % 256);
      JoinAssociates(BigEndian(high, m), BigEndian(low / 256, n - 1), [low % 256]);
    }
  }

  lemma Pow256Values()
    ensures Pow256(1) == 0x100 && Pow256(2) == 0x1_0000 && Pow256(3) == 0x100_0000 && Pow256(4) == 0x1_0000_0000
    ensures Pow256(8) == 0x1_0000_0000_0000_0000
  {
    assert Pow256(0) == 1;
    assert Pow256(1) == 256 * Pow256(0);
    assert Pow256(2) == 256 * Pow256(1);
    assert Pow256(3) == 256 * Pow256(2);
    assert Pow256(4) == 256 * Pow256(3);
    assert Pow256(5) == 256 * Pow256(4);
    assert Pow256(6) == 256 * Pow256(5);
    assert Pow256(7) == 256 * Pow256(6);
    assert Pow256(8) == 256 * Pow256(7);
  }

  /** One byte or-ed into the bits below the bytes already assembled. */
  lemma AssembleStep(acc: nat, b: byte, k: nat)
    ensures BitOr(acc * Pow2(k + 8), b * Pow2(k)) == (acc * 256 + b) * Pow2(k)
  {
    var p := Pow2(k);
    Pow2By8(k);
    assert acc * (256 * p) + b * p == (acc * 256 + b) * p;
    assert b * p < 256 * p;
    hide BitOr, Pow2;
    OrDisjoint(acc, b * p, k + 8);
  }

  lemma Pow2By8(k: nat)
    ensures Pow2(k + 8) == 256 * Pow2(k)
  {
    assert Pow2(k + 8) == 2 * Pow2(k + 7) == 4 * Pow2(k + 6) == 8 * Pow2(k + 5) == 16 * Pow2(k + 4);
    assert Pow2(k + 4) == 2 * Pow2(k + 3) == 4 * Pow2(k + 2) == 8 * Pow2(k + 1) == 16 * Pow2(k);
  }

  /** The word made of the first `k` bytes. */
  function Assembled(q: seq<byte>, k: nat): nat
    requires k <= |q|
  {
    FromBigEndian(q[..k])
  }

  /** A word shifted into place. */
  function Shl(x: nat, bits: nat): nat { x * Pow2(bits) }

  lemma ShlZero(x: nat)
    ensures Shl(x, 0) == x
  {
  }

  lemma OrFirst(q: seq<byte>, shift: nat)
    requires |q| >= 1
    ensures Shl(q[0], shift) == Shl(Assembled(q, 1), shift)
  {
    var one := [q[0]];
    assert q[..1] == one && one[..0] == [];
    assert FromBigEndian(one) == FromBigEndian([]) * 256 + q[0];
  }

  /** The reader's step from `k` bytes assembled to `k + 1`. */
  lemma OrNext(q: seq<byte>, k: nat, shift: nat)
    requires k < |q|
    ensures BitOr(Shl(Assembled(q, k), shift + 8), Shl(q[k], shift)) == Shl(Assembled(q, k + 1), shift)
  {
    AssembleStep(Assembled(q, k), q[k], shift);
    assert q[..k + 1][..k] == q[..k];
  }

  // ---------- C strings ----------

  /** What std::string(const char*) takes from memory: the bytes before the first zero. */
  function CString(memory: seq<byte>): seq<byte> {
    if memory == [] || memory[0] == 0 then [] else [memory[0]] + CString(memory[1..])
  }

  /** It is the longest run of bytes in front that are not zero. */
  lemma {:induction false} CStringEnds(memory: seq<byte>)
    ensures CString(memory) <= memory && 0 !in CString(memory)
    ensures CString(memory) != memory ==> memory[|CString(memory)|] == 0
  {
    if memory != [] && memory[0] != 0 {
      CStringEnds(memory[1..]);
    }
  }

  /** A string built from a byte array without its length is the array's exactly when the array
      holds no zero byte and the memory after it happens to start with one. */
  lemma {:induction false} CStringExact(s: seq<byte>, beyond: seq<byte>)
    requires beyond != []
    ensures CString(s + beyond) == s <==> 0 !in s && beyond[0] == 0
  {
    if s == [] {
      assert s + beyond == beyond;
    } else {
      assert (s + beyond)[1..] == s[1..] + beyond;
      CStringExact(s[1..], beyond);
      assert s == [s[0]] + s[1..];
    }
  }

  // ---------- schemas: lists of typed fields ----------

  /** What a schema says about one field; strings and byte arrays carry the reader's size limit. */
  datatype Kind =
    | BoolKind | ByteKind | ShortKind | MediumKind | IntKind | LongKind | VarIntKind | VarLongKind
    | UUIDKind | UUIDIntArrayKind | StringKind(max: uint32) | ByteArrayKind(max: uint32)

  datatype Field =
    | Bool(flag: bool)
    | Byte(b: byte)
    | Short(short: uint16)
    | Medium(medium: uint24)
    | Int(int32: uint32)
    | Long(int64: uint64)
    | VarInt(var32: uint32)
    | VarLong(var64: uint64)
    | UUIDWords(uuid: UUID)
    | UUIDInts(uuid: UUID)
    | Text(text: seq<byte>)
    | Bytes(bytes: seq<byte>)

  predicate Fits(f: Field, k: Kind) {
    match f
    case Bool(_) => k == BoolKind
    case Byte(_) => k == ByteKind
    case Short(_) => k == ShortKind
    case Medium(_) => k == MediumKind
    case Int(_) => k == IntKind
    case Long(_) => k == LongKind
    case VarInt(_) => k == VarIntKind
    case VarLong(_) => k == VarLongKind
    case UUIDWords(_) => k == UUIDKind
    case UUIDInts(_) => k == UUIDIntArrayKind
    case Text(s) => k.StringKind? && |s| <= k.max
    case Bytes(s) => k.ByteArrayKind? && |s| <= k.max
  }

  function HighHalf(x: uint64): uint32 { x / TWO_32 }
  function LowHalf(x: uint64): uint32 { x % TWO_32 }

  function UUIDLongBytes(u: UUID): seq<byte> {
    BigEndian(u.most, 8) + BigEndian(u.least, 8)
  }

  function UUIDIntBytes(u: UUID): seq<byte> {
    BigEndian(HighHalf(u.most), 4) + BigEndian(LowHalf(u.most), 4)
    + (BigEndian(HighHalf(u.least), 4) + BigEndian(LowHalf(u.least), 4))
  }

  /** The four-word form of a UUID has the same sixteen bytes as the form of two words. */
  lemma UUIDFormsAgree(u: UUID)
    ensures UUIDIntBytes(u) == UUIDLongBytes(u)
  {
    Pow256Values();
    BigEndianHalves(HighHalf(u.most), LowHalf(u.most), 4, 4);
    BigEndianHalves(HighHalf(u.least), LowHalf(u.least), 4, 4);
  }

  /** A length prefix, the length truncated to 32 bits, and the bytes. */
  function Prefixed(s: seq<byte>): seq<byte> {
    VarInts.Encode(Truncated(|s|)) + s
  }

  function EncodeField(f: Field): seq<byte> {
    match f
    case Bool(flag) => [if flag then 1 else 0]
    case Byte(b) => [b]
    case Short(x) => BigEndian(x, 2)
    case Medium(x) => BigEndian(x, 3)
    case Int(x) => BigEndian(x, 4)
    case Long(x) => BigEndian(x, 8)
    case VarInt(x) => VarInts.Encode(x)
    case VarLong(x) => VarInts.Encode(x)
    case UUIDWords(u) => UUIDLongBytes(u)
    case UUIDInts(u) => UUIDIntBytes(u)
    case Text(s) => Prefixed(s)
    case Bytes(s) => Prefixed(s)
  }

  function EncodeAll(fs: seq<Field>): seq<byte> {
    if fs == [] then [] else EncodeField(fs[0]) + EncodeAll(fs[1..])
  }

  // ---------- reading a field, as written ----------

  /** A read's outcome and the number of bytes it has taken from the front of the queue. */
  datatype Read<T> = Read(outcome: Errorable<T>, used: nat)

  function ReadWord(s: seq<byte>, n: nat, error: ErrorKind): (r: Read<nat>)
    ensures r.used <= |s|
  {
    if |s| < n then Read(Failure(error, |s|), 0) else Read(Success(Assembled(s, n)), n)
  }

  /** The incomplete read reports the readable count, which is then 0: it has consumed everything. */
  function ReadVar(s: seq<byte>, limit: nat, modulus: nat, incomplete: ErrorKind, invalid: ErrorKind): (r: Read<nat>)
    requires modulus > 0
    ensures r.used <= |s|
    ensures r.outcome.Success? ==> r.outcome.value < modulus
  {
    Read(match VarInts.Decode(s, limit, modulus)
         case Complete(value, _) => Success(value)
         case Cut => Failure(incomplete, 0)
         case TooLong(value) => Failure(invalid, value),
         VarInts.Consumed(s, limit))
  }

  function ReadVarInt(s: seq<byte>): (r: Read<nat>)
    ensures r.used <= |s|
    ensures r.outcome.Success? ==> r.outcome.value < 0x1_0000_0000
  {
    ReadVar(s, VarInts.VARINT_LIMIT, TWO_32, IncompleteVarInt, InvalidVarInt)
  }

  function ReadVarLong(s: seq<byte>): (r: Read<nat>)
    ensures r.used <= |s|
    ensures r.outcome.Success? ==> r.outcome.value < TWO_64
  {
    ReadVar(s, VarInts.VARLONG_LIMIT, TWO_64, IncompleteVarLong, InvalidVarLong)
  }

  /** A 32-bit number is there if one of the first five bytes is below 0x80, is incomplete if the input ends
      before that, and is invalid otherwise. What was looked at is gone in every case. */
  lemma ReadVarIntExact(s: seq<byte>)
    ensures ReadVarInt(s).outcome.Success? <==> exists i :: 0 <= i < |s| && i < 5 && s[i] < 0x80
    ensures forall i :: 0 <= i < |s| && i < 5 && s[i] < 0x80 && (forall j :: 0 <= j < i ==> s[j] >= 0x80) ==>
              ReadVarInt(s) == Read(Success(VarInts.Value(s[..i + 1]) % 0x1_0000_0000), i + 1)
    ensures |s| < 5 && (forall i :: 0 <= i < |s| ==> s[i] >= 0x80)
            <==> ReadVarInt(s) == Read(Failure(IncompleteVarInt, 0), |s|)
    ensures |s| >= 5 && (forall i :: 0 <= i < 5 ==> s[i] >= 0x80)
            <==> |s| >= 5 && ReadVarInt(s) == Read(Failure(InvalidVarInt, VarInts.Value(s[..5]) % 0x1_0000_0000), 5)
  {
    hide VarInts.Value;
    VarExact(s, 5, 0x1_0000_0000, IncompleteVarInt, InvalidVarInt);
  }

  /** The same of a 64-bit number and ten bytes. */
  lemma ReadVarLongExact(s: seq<byte>)
    ensures ReadVarLong(s).outcome.Success? <==> exists i :: 0 <= i < |s| && i < 10 && s[i] < 0x80
    ensures forall i :: 0 <= i < |s| && i < 10 && s[i] < 0x80 && (forall j :: 0 <= j < i ==> s[j] >= 0x80) ==>
              ReadVarLong(s) == Read(Success(VarInts.Value(s[..i + 1]) % 0x1_0000_0000_0000_0000), i + 1)
    ensures |s| < 10 && (forall i :: 0 <= i < |s| ==> s[i] >= 0x80)
            <==> ReadVarLong(s) == Read(Failure(IncompleteVarLong, 0), |s|)
    ensures |s| >= 10 && (forall i :: 0 <= i < 10 ==> s[i] >= 0x80)
            <==> |s| >= 10
                 && ReadVarLong(s)
                    == Read(Failure(InvalidVarLong, VarInts.Value(s[..10]) % 0x1_0000_0000_0000_0000), 10)
  {
    hide VarInts.Value;
    VarExact(s, 10, 0x1_0000_0000_0000_0000, IncompleteVarLong, InvalidVarLong);
  }

  lemma VarExact(s: seq<byte>, limit: nat, modulus: nat, incomplete: ErrorKind, invalid: ErrorKind)
    requires modulus > 0 && limit > 0 && incomplete != invalid
    ensures var r := ReadVar(s, limit, modulus, incomplete, invalid);
            && (r.outcome.Success? <==> exists i :: 0 <= i < |s| && i < limit && s[i] < 0x80)
            && (forall i :: 0 <= i < |s| && i < limit && s[i] < 0x80 && (forall j :: 0 <= j < i ==> s[j] >= 0x80) ==>
                  r == Read(Success(VarInts.Value(s[..i + 1]) % modulus), i + 1))
            && (|s| < limit && (forall i :: 0 <= i < |s| ==> s[i] >= 0x80) <==> r == Read(Failure(incomplete, 0), |s|))
            && (|s| >= limit ==>
                  ((forall i :: 0 <= i < limit ==> s[i] >= 0x80)
                   <==> r == Read(Failure(invalid, VarInts.Value(s[..limit]) % modulus), limit)))
  {
    hide VarInts.Value;
    VarInts.DecodeExact(s, limit, modulus);
    forall i | 0 <= i < |s| && i < limit && s[i] < 0x80 && (forall j :: 0 <= j < i ==> s[j] >= 0x80)
      ensures ReadVar(s, limit, modulus, incomplete, invalid)
              == Read(Success(VarInts.Value(s[..i + 1]) % modulus), i + 1)
    {
      VarInts.DecodeValue(s, limit, modulus, i);
    }
    if |s| >= limit && forall i :: 0 <= i < limit ==> s[i] >= 0x80 {
      VarInts.DecodeContinued(s, limit, modulus, limit);
    }
  }

  /** A length-prefixed byte array within the reader's limit. Whatever goes wrong is reported as a
      size error: with 2^64 - 1 when the prefix could not be read, else with the length. The prefix
      is gone by then. */
  function ReadPrefixed(s: seq<byte>, max: uint32, error: ErrorKind): (r: Read<seq<byte>>)
    ensures r.used <= |s|
  {
    var prefix := ReadVarInt(s);
    if prefix.outcome.Failure? then Read(Failure(error, TWO_64 - 1), prefix.used)
    else
      var length := prefix.outcome.value;
      if length > max || |s| - prefix.used < length then Read(Failure(error, length), prefix.used)
      else Read(Success(s[prefix.used..][..length]), prefix.used + length)
  }

  lemma ReadWordOf(q: seq<byte>, n: nat, error: ErrorKind)
    ensures |q| < n ==> ReadWord(q, n, error) == Read(Failure(error, |q|), 0)
    ensures |q| >= n ==> ReadWord(q, n, error) == Read(Success(Shl(Assembled(q, n), 0)), n)
  {
  }

  lemma ReadVarOf(q: seq<byte>, limit: nat, modulus: nat, incomplete: ErrorKind, invalid: ErrorKind, n: nat)
    requires modulus > 0 && n <= |q| && n <= limit && forall j :: 0 <= j < n ==> q[j] >= 128
    ensures n == limit ==>
            ReadVar(q, limit, modulus, incomplete, invalid) == Read(Failure(invalid, VarInts.Groups(q, n, modulus)), n)
    ensures n == |q| < limit ==> ReadVar(q, limit, modulus, incomplete, invalid) == Read(Failure(incomplete, 0), n)
    ensures n < |q| && n < limit && q[n] < 128 ==>
            ReadVar(q, limit, modulus, incomplete, invalid) == Read(Success(VarInts.Groups(q, n + 1, modulus)), n + 1)
  {
    VarInts.DecodeContinued(q, limit, modulus, n);
    if n < |q| && n < limit && q[n] < 128 {
      VarInts.DecodeValue(q, limit, modulus, n);
    }
  }

  /** A UUID is read as two words or four; the second read starts where the first ended. */
  function ReadUUID(s: seq<byte>): (r: Read<UUID>)
    ensures r.used <= |s|
  {
    if |s| < 8 then Read(Failure(InvalidUUID, |s|), 0)
    else if |s| < 16 then Read(Failure(InvalidUUID, |s| - 8), 8)
    else
      Words64(s[..8]);
      Words64(s[8..16]);
      Read(Success(UUID(FromBigEndian(s[..8]), FromBigEndian(s[8..16]))), 16)
  }

  lemma Words64(s: seq<byte>)
    requires |s| == 8
    ensures FromBigEndian(s) < TWO_64
  {
    FromBigEndianBound(s);
    Pow256Values();
  }

  lemma Words32(s: seq<byte>)
    requires |s| == 4
    ensures FromBigEndian(s) < TWO_32
  {
    FromBigEndianBound(s);
    Pow256Values();
  }

  /** As written: the first word of the most significant half is or-ed in without being shifted. */
  function UUIDOfInts(a: uint32, b: uint32, c: uint32, d: uint32): UUID {
    assert Pow2(32) == TWO_32 by { VarInts.WordSizes(); }
    OrBounded(a, b, 32);
    UUID(BitOr(a, b), c * TWO_32 + d)
  }

  function ReadUUIDInts(s: seq<byte>): (r: Read<UUID>)
    ensures r.used <= |s|
  {
    var whole := if |s| < 16 then |s| / 4 * 4 else 16;
    if |s| < 16 then Read(Failure(InvalidUUID, |s| - whole), whole)
    else
      Words32(s[..4]);
      Words32(s[4..8]);
      Words32(s[8..12]);
      Words32(s[12..16]);
      Read(Success(UUIDOfInts(FromBigEndian(s[..4]), FromBigEndian(s[4..8]),
                              FromBigEndian(s[8..12]), FromBigEndian(s[12..16]))), 16)
  }

  /** How a length-prefixed read goes on once the prefix has been read. */
  lemma ReadPrefixedOf(q: seq<byte>, max: uint32, error: ErrorKind)
    ensures var prefix, r := ReadVarInt(q), ReadPrefixed(q, max, error);
            && (prefix.outcome.Failure? ==> r == Read(Failure(error, 0xFFFF_FFFF_FFFF_FFFF), prefix.used))
            && (prefix.outcome.Success? ==>
                  var length, left := prefix.outcome.value, |q| - prefix.used;
                  && (length > max || left < length ==> r == Read(Failure(error, length), prefix.used))
                  && (length <= max && left >= length ==>
                        r == Read(Success(Piece(q, prefix.used, prefix.used + length)), prefix.used + length)))
  {
    var prefix := ReadVarInt(q);
    if prefix.outcome.Success? && prefix.outcome.value <= |q| - prefix.used {
      assert q[prefix.used..][..prefix.outcome.value] == Piece(q, prefix.used, prefix.used + prefix.outcome.value);
    }
  }

  /** The word at a place in a string. */
  function WordOf(q: seq<byte>, at: nat, n: nat): nat
    requires at + n <= |q|
  {
    FromBigEndian(q[at..at + n])
  }

  lemma ReadUUIDOf(q: seq<byte>)
    ensures |q| < 8 ==> ReadUUID(q) == Read(Failure(InvalidUUID, |q|), 0)
    ensures 8 <= |q| < 16 ==> ReadUUID(q) == Read(Failure(InvalidUUID, |q| - 8), 8)
    ensures |q| >= 16 ==>
            && WordOf(q, 0, 8) < 0x1_0000_0000_0000_0000 && WordOf(q, 8, 8) < 0x1_0000_0000_0000_0000
            && ReadUUID(q) == Read(Success(UUID(WordOf(q, 0, 8), WordOf(q, 8, 8))), 16)
  {
    if |q| >= 16 {
      Words64(q[0..8]);
      Words64(q[8..16]);
      assert q[..8] == q[0..8];
    }
  }

  lemma ReadUUIDIntsOf(q: seq<byte>, k: nat)
    ensures k < 4 && 4 * k <= |q| < 4 * k + 4 ==>
            ReadUUIDInts(q) == Read(Failure(InvalidUUID, |q| - 4 * k), 4 * k)
    ensures |q| >= 16 ==>
            && WordOf(q, 0, 4) < 0x1_0000_0000 && WordOf(q, 4, 4) < 0x1_0000_0000
            && WordOf(q, 8, 4) < 0x1_0000_0000 && WordOf(q, 12, 4) < 0x1_0000_0000
            && ReadUUIDInts(q)
               == Read(Success(UUIDOfInts(WordOf(q, 0, 4), WordOf(q, 4, 4), WordOf(q, 8, 4), WordOf(q, 12, 4))), 16)
  {
    if |q| >= 16 {
      Words32(q[0..4]);
      Words32(q[4..8]);
      Words32(q[8..12]);
      Words32(q[12..16]);
      assert q[..4] == q[0..4];
    }
  }

  /** The word at a place is the one whose bytes are there. */
  lemma WordOfBytes(q: seq<byte>, at: nat, n: nat, x: nat)
    requires at + n <= |q| && x < Pow256(n)
    ensures q[at..at + n] == BigEndian(x, n) <==> WordOf(q, at, n) == x
  {
    BigEndianRoundTrip(x, n);
    FromBigEndianRoundTrip(q[at..at + n]);
  }

  /** What four words are read as: the first two or-ed bit by bit, and the last two side by side. */
  lemma UUIDIntsBits(q: seq<byte>)
    requires |q| >= 16
    ensures var r := ReadUUIDInts(q);
            && r.outcome.Success? && r.outcome.value.least == WordOf(q, 8, 8)
            && forall k :: r.outcome.value.most / Pow2(k) % 2 == 1
                           <==> WordOf(q, 0, 4) / Pow2(k) % 2 == 1 || WordOf(q, 4, 4) / Pow2(k) % 2 == 1
  {
    hide *;
    ReadUUIDIntsOf(q, 0);
    var a, b, c, d := WordOf(q, 0, 4), WordOf(q, 4, 4), WordOf(q, 8, 4), WordOf(q, 12, 4);
    UUIDOfIntsIs(a, b, c, d);
    SideBySide(q, 8);
    forall k ensures BitOr(a, b) / Pow2(k) % 2 == 1 <==> a / Pow2(k) % 2 == 1 || b / Pow2(k) % 2 == 1 {
      OrBits(a, b, k);
    }
  }

  lemma UUIDOfIntsIs(a: uint32, b: uint32, c: uint32, d: uint32)
    ensures UUIDOfInts(a, b, c, d).most == BitOr(a, b) && UUIDOfInts(a, b, c, d).least == c * 0x1_0000_0000 + d
  {
  }

  lemma SideBySide(q: seq<byte>, at: nat)
    requires at + 8 <= |q|
    ensures WordOf(q, at, 8) == WordOf(q, at, 4) * 0x1_0000_0000 + WordOf(q, at + 4, 4)
  {
    hide BigEndian, FromBigEndian, Pow256;
    var c, d := WordOf(q, at, 4), WordOf(q, at + 4, 4);
    Pow256Values();
    FromBigEndianBound(q[at..at + 4]);
    FromBigEndianBound(q[at + 4..at + 4 + 4]);
    BigEndianHalves(c, d, 4, 4);
    FromBigEndianRoundTrip(q[at..at + 4]);
    FromBigEndianRoundTrip(q[at + 4..at + 4 + 4]);
    assert q[at..at + 8] == q[at..at + 4] + q[at + 4..at + 4 + 4];
    WordOfBytes(q, at, 8, c * 0x1_0000_0000 + d);
  }

  // ---------- which fields survive the round trip ----------

  /** The four-word form brings a UUID back exactly when its most significant half fits 32 bits. */
  lemma UUIDIntsExact(u: UUID)
    ensures UUIDOfInts(HighHalf(u.most), LowHalf(u.most), HighHalf(u.least), LowHalf(u.least)) == u
            <==> u.most < TWO_32
  {
    var a, b := HighHalf(u.most), LowHalf(u.most);
    VarInts.WordSizes();
    OrBounded(a, b, 32);
    OrZero(b);
  }

  /** Reading one field. A string is what its copied bytes look like to the C-string constructor,
      `beyond` being the memory after them; a byte array is the readable contents of the buffer it is
      returned in, of which the constructor leaves none. */
  function DecodeField(k: Kind, s: seq<byte>, beyond: seq<byte>): (r: Read<Field>)
    ensures r.used <= |s|
  {
    match k
    case BoolKind => MapWord(ReadWord(s, 1, IncompleteBoolean), x => Bool(x != 0))
    case ByteKind => MapWord(ReadWord(s, 1, IncompleteByte), x => Byte(x % TWO_8))
    case ShortKind => MapWord(ReadWord(s, 2, IncompleteShort), x => Short(x % TWO_16))
    case MediumKind => MapWord(ReadWord(s, 3, IncompleteMedium), x => Medium(x % TWO_24))
    case IntKind => MapWord(ReadWord(s, 4, IncompleteInt), x => Int(x % TWO_32))
    case LongKind => MapWord(ReadWord(s, 8, IncompleteLong), x => Long(x % TWO_64))
    case VarIntKind => MapWord(ReadVarInt(s), x => VarInt(x % TWO_32))
    case VarLongKind => MapWord(ReadVarLong(s), x => VarLong(x % TWO_64))
    case UUIDKind => MapRead(ReadUUID(s), u => UUIDWords(u))
    case UUIDIntArrayKind => MapRead(ReadUUIDInts(s), u => UUIDInts(u))
    case StringKind(max) => MapRead(ReadPrefixed(s, max, InvalidStringSize), t => Text(CString(t + beyond)))
    case ByteArrayKind(max) => MapRead(ReadPrefixed(s, max, InvalidByteArraySize), t => Bytes([]))
  }

  function MapRead<T, U>(r: Read<T>, f: T -> U): Read<U> {
    Read(match r.outcome case Success(v) => Success(f(v)) case Failure(kind, code) => Failure(kind, code), r.used)
  }

  function MapWord(r: Read<nat>, f: nat -> Field): Read<Field> {
    MapRead(r, f)
  }

  function DecodeAll(ks: seq<Kind>, s: seq<byte>, beyond: seq<byte>): (r: Read<seq<Field>>)
    ensures r.used <= |s|
    decreases |ks|
  {
    if ks == [] then Read(Success([]), 0)
    else
      var first := DecodeField(ks[0], s, beyond);
      match first.outcome
      case Failure(kind, code) => Read(Failure(kind, code), first.used)
      case Success(f) =>
        var rest := DecodeAll(ks[1..], s[first.used..], beyond);
        Read(match rest.outcome case Success(fs) => Success([f] + fs) case Failure(kind, code) => Failure(kind, code),
             first.used + rest.used)
  }

  /** Whether a field comes back as it was written. */
  predicate Survives(f: Field, beyond: seq<byte>)
    requires beyond != []
  {
    match f
    case Text(s) => 0 !in s && beyond[0] == 0
    case Bytes(s) => s == []
    case UUIDInts(u) => u.most < TWO_32
    case _ => true
  }

  lemma WordRoundTrip(x: nat, n: nat, tail: seq<byte>, error: ErrorKind)
    requires x < Pow256(n)
    ensures ReadWord(BigEndian(x, n) + tail, n, error) == Read(Success(x), n)
  {
    BigEndianRoundTrip(x, n);
    assert (BigEndian(x, n) + tail)[..n] == BigEndian(x, n);
  }

  lemma VarIntRoundTrip(x: uint32, tail: seq<byte>)
    ensures ReadVarInt(VarInts.Encode(x) + tail) == Read(Success(x), |VarInts.Encode(x)|)
  {
    VarInts.VarIntBytesExact(x);
    VarInts.DecodeEncode(x, VarInts.VARINT_LIMIT, TWO_32, tail);
  }

  lemma VarLongRoundTrip(x: uint64, tail: seq<byte>)
    ensures ReadVarLong(VarInts.Encode(x) + tail) == Read(Success(x), |VarInts.Encode(x)|)
  {
    VarInts.VarLongBytesExact(x);
    VarInts.DecodeEncode(x, VarInts.VARLONG_LIMIT, TWO_64, tail);
  }

  /** The bytes of a length-prefixed array within the limit come back, and nothing after them is touched. */
  lemma PrefixedRoundTrip(t: seq<byte>, max: uint32, error: ErrorKind, tail: seq<byte>)
    requires |t| <= max
    ensures ReadPrefixed(Prefixed(t) + tail, max, error) == Read(Success(t), |Prefixed(t)|)
  {
    var prefix := VarInts.Encode(|t|);
    assert Prefixed(t) + tail == prefix + (t + tail);
    VarIntRoundTrip(|t|, t + tail);
    assert (prefix + (t + tail))[|prefix|..] == t + tail;
    assert (t + tail)[..|t|] == t;
  }

  lemma UUIDWordsRoundTrip(u: UUID, tail: seq<byte>)
    ensures ReadUUID(UUIDLongBytes(u) + tail) == Read(Success(u), 16)
  {
    Pow256Values();
    BigEndianRoundTrip(u.most, 8);
    BigEndianRoundTrip(u.least, 8);
    var s := UUIDLongBytes(u) + tail;
    assert s[..8] == BigEndian(u.most, 8) && s[8..16] == BigEndian(u.least, 8);
  }

  lemma UUIDIntsRead(u: UUID, tail: seq<byte>)
    ensures ReadUUIDInts(UUIDIntBytes(u) + tail)
            == Read(Success(UUIDOfInts(HighHalf(u.most), LowHalf(u.most), HighHalf(u.least), LowHalf(u.least))), 16)
  {
    Pow256Values();
    BigEndianRoundTrip(HighHalf(u.most), 4);
    BigEndianRoundTrip(LowHalf(u.most), 4);
    BigEndianRoundTrip(HighHalf(u.least), 4);
    BigEndianRoundTrip(LowHalf(u.least), 4);
    var s := UUIDIntBytes(u) + tail;
    assert s[..4] == BigEndian(HighHalf(u.most), 4) && s[4..8] == BigEndian(LowHalf(u.most), 4);
    assert s[8..12] == BigEndian(HighHalf(u.least), 4) && s[12..16] == BigEndian(LowHalf(u.least), 4);
  }

  lemma OneByte(b: byte)
    ensures BigEndian(b, 1) == [b]
  {
    assert BigEndian(b / 256, 0) == [];
  }

  /** Reading back a field always succeeds and takes exactly its bytes, whatever follows; it gives the
      field written exactly when the field `Survives`. */
  lemma FieldRoundTrip(f: Field, k: Kind, tail: seq<byte>, beyond: seq<byte>)
    requires Fits(f, k) && beyond != []
    ensures var r := DecodeField(k, EncodeField(f) + tail, beyond);
            && r.used == |EncodeField(f)| && r.outcome.Success?
            && (r.outcome.value == f <==> Survives(f, beyond))
  {
    Pow256Values();
    hide BigEndian, FromBigEndian, ReadWord, ReadVarInt, ReadVarLong, ReadUUID, ReadUUIDInts, ReadPrefixed, CString;
    match f
    case Bool(flag) =>
      OneByte(if flag then 1 else 0);
      WordRoundTrip(if flag then 1 else 0, 1, tail, IncompleteBoolean);
    case Byte(b) =>
      OneByte(b);
      WordRoundTrip(b, 1, tail, IncompleteByte);
    case Short(x) => WordRoundTrip(x, 2, tail, IncompleteShort);
    case Medium(x) => WordRoundTrip(x, 3, tail, IncompleteMedium);
    case Int(x) => WordRoundTrip(x, 4, tail, IncompleteInt);
    case Long(x) => WordRoundTrip(x, 8, tail, IncompleteLong);
    case VarInt(x) => VarIntRoundTrip(x, tail);
    case VarLong(x) => VarLongRoundTrip(x, tail);
    case UUIDWords(u) => UUIDWordsRoundTrip(u, tail);
    case UUIDInts(u) => UUIDIntsRead(u, tail); UUIDIntsExact(u); assert |UUIDIntBytes(u)| == 16;
    case Text(s) => PrefixedRoundTrip(s, k.max, InvalidStringSize, tail); CStringExact(s, beyond);
    case Bytes(s) => PrefixedRoundTrip(s, k.max, InvalidByteArraySize, tail);
  }

  /** A list of fields read back with its schema: every read succeeds, exactly the written bytes are
      consumed whatever follows them, and each field comes back as written exactly when it survives. */
  lemma {:induction false} SchemaRoundTrip(fs: seq<Field>, ks: seq<Kind>, tail: seq<byte>, beyond: seq<byte>)
    requires |fs| == |ks| && forall i :: 0 <= i < |fs| ==> Fits(fs[i], ks[i])
    requires beyond != []
    ensures var r := DecodeAll(ks, EncodeAll(fs) + tail, beyond);
            && r.used == |EncodeAll(fs)| && r.outcome.Success? && |r.outcome.value| == |fs|
            && forall i :: 0 <= i < |fs| ==> (r.outcome.value[i] == fs[i] <==> Survives(fs[i], beyond))
  {
    if fs != [] {
      var first, rest := EncodeField(fs[0]), EncodeAll(fs[1..]);
      assert EncodeAll(fs) + tail == first + (rest + tail);
      FieldRoundTrip(fs[0], ks[0], rest + tail, beyond);
      assert (first + (rest + tail))[|first|..] == rest + tail;
      SchemaRoundTrip(fs[1..], ks[1..], tail, beyond);
    }
  }
}
