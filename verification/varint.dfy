/** Variable-length integers: groups of seven bits, least significant first, the high bit of every
    byte but the last set. This is unsigned LEB128, section 7.6 of the DWARF Debugging Information
    Format version 5, cut off after 5 bytes for 32-bit and 10 bytes for 64-bit values. */
module VarInts {
  import opened Words

  const VARINT_LIMIT: nat := 5
  const VARLONG_LIMIT: nat := 10

  // ---------- the encoding ----------

  function Encode(n: nat): (s: seq<byte>)
    ensures |s| >= 1
  {
    if n < 128 then [n] else [n % 128 + 128] + Encode(n / 128)
  }

  /** The number a string of groups stands for. */
  function Value(s: seq<byte>): nat {
    if s == [] then 0 else s[0] % 128 + 128 * Value(s[1..])
  }

  /** How many of the first `limit` bytes come before the first one without the high bit. */
  function Lead(s: seq<byte>, limit: nat): (n: nat)
    ensures n <= |s| && n <= limit
    ensures forall i :: 0 <= i < n ==> s[i] >= 128
    ensures n < |s| && n < limit ==> s[n] < 128
  {
    if limit == 0 || s == [] || s[0] < 128 then 0 else 1 + Lead(s[1..], limit - 1)
  }

  datatype Scan =
    | Complete(value: nat, used: nat)
    | Cut                              // the input ends inside the number; all of it was consumed
    | TooLong(value: nat)              // `limit` bytes were consumed, none of them the last of a number

  /** What reading a number from the front of `s` comes to. */
  function Decode(s: seq<byte>, limit: nat, modulus: nat): Scan
    requires modulus > 0
  {
    var n := Lead(s, limit);
    if n == limit then TooLong(Value(s[..n]) % modulus)
    else if n == |s| then Cut
    else Complete(Value(s[..n + 1]) % modulus, n + 1)
  }

  /** How many bytes a read takes, whatever it comes to. */
  function Consumed(s: seq<byte>, limit: nat): (n: nat)
    ensures n <= |s|
  {
    var n := Lead(s, limit);
    if n == limit || n == |s| then n else n + 1
  }

  // ---------- decoding is total and exact ----------

  /** Success, incompleteness and overlength are decided by where the first byte below 0x80 is. */
  lemma DecodeExact(s: seq<byte>, limit: nat, modulus: nat)
    requires modulus > 0 && limit > 0
    ensures Decode(s, limit, modulus).Complete? <==> exists i :: 0 <= i < |s| && i < limit && s[i] < 128
    ensures Decode(s, limit, modulus).Cut? <==> |s| < limit && forall i :: 0 <= i < |s| ==> s[i] >= 128
    ensures Decode(s, limit, modulus).Cut? ==> Consumed(s, limit) == |s|
    ensures Decode(s, limit, modulus).TooLong? ==> Consumed(s, limit) == limit
  {
    var n := Lead(s, limit);
    if i :| 0 <= i < |s| && i < limit && s[i] < 128 {
      assert !(i < n);
    }
  }

  /** The value and the bytes taken are those up to the first byte below 0x80. */
  lemma DecodeValue(s: seq<byte>, limit: nat, modulus: nat, i: nat)
    requires modulus > 0 && i < |s| && i < limit && s[i] < 128 && forall j :: 0 <= j < i ==> s[j] >= 128
    ensures Decode(s, limit, modulus) == Complete(Value(s[..i + 1]) % modulus, i + 1)
    ensures Consumed(s, limit) == i + 1
  {
    var n := Lead(s, limit);
    assert !(n < i) && !(i < n);
  }

  /** Without a byte below 0x80, the number is cut or too long. */
  lemma DecodeContinued(s: seq<byte>, limit: nat, modulus: nat, n: nat)
    requires modulus > 0 && n <= |s| && n <= limit && forall j :: 0 <= j < n ==> s[j] >= 128
    ensures n == limit ==> Decode(s, limit, modulus) == TooLong(Value(s[..n]) % modulus) && Consumed(s, limit) == n
    ensures n == |s| < limit ==> Decode(s, limit, modulus) == Cut && Consumed(s, limit) == n
  {
    var lead := Lead(s, limit);
    assert !(lead < n);
  }

  // ---------- the encoding decodes back ----------

  lemma {:induction false} ValueOfEncoding(n: nat)
    ensures Value(Encode(n)) == n
  {
    if n >= 128 {
      ValueOfEncoding(n / 128);
      assert Encode(n)[1..] == Encode(n / 128);
    } else {
      assert Value([n][1..]) == 0;
    }
  }

  lemma {:induction false} LeadOfEncoding(n: nat, limit: nat, tail: seq<byte>)
    requires |Encode(n)| <= limit
    ensures Lead(Encode(n) + tail, limit) == |Encode(n)| - 1
  {
    if n >= 128 {
      LeadOfEncoding(n / 128, limit - 1, tail);
      assert (Encode(n) + tail)[1..] == Encode(n / 128) + tail;
    }
  }

  /** An encoded number reads back as itself and is consumed exactly, whatever follows it. */
  lemma DecodeEncode(n: nat, limit: nat, modulus: nat, tail: seq<byte>)
    requires |Encode(n)| <= limit && n < modulus
    ensures Decode(Encode(n) + tail, limit, modulus) == Complete(n, |Encode(n)|)
    ensures Consumed(Encode(n) + tail, limit) == |Encode(n)|
  {
    LeadOfEncoding(n, limit, tail);
    ValueOfEncoding(n);
    assert (Encode(n) + tail)[..|Encode(n)|] == Encode(n);
  }

  lemma {:induction false} EncodingContinues(n: nat, i: nat)
    requires i < |Encode(n)| - 1
    ensures Encode(n)[i] >= 128
  {
    if i > 0 {
      EncodingContinues(n / 128, i - 1);
    }
  }

  lemma {:induction false} LeadOfContinued(s: seq<byte>, limit: nat)
    requires |s| <= limit && forall i :: 0 <= i < |s| ==> s[i] >= 128
    ensures Lead(s, limit) == |s|
  {
    if s != [] {
      LeadOfContinued(s[1..], limit - 1);
    }
  }

  /** A number cut anywhere inside its encoding reads as incomplete, and the part is consumed. */
  lemma DecodePrefix(n: nat, k: nat, limit: nat, modulus: nat)
    requires k < |Encode(n)| <= limit && modulus > 0
    ensures Decode(Encode(n)[..k], limit, modulus) == Cut
    ensures Consumed(Encode(n)[..k], limit) == k
  {
    forall i | 0 <= i < k ensures Encode(n)[i] >= 128 {
      EncodingContinues(n, i);
    }
    LeadOfContinued(Encode(n)[..k], limit);
  }

  /** Each byte written is the next group, with the high bit set on all but the last. */
  lemma {:induction false} EncodingAt(n: nat, i: nat)
    requires i < |Encode(n)|
    ensures Encode(n)[i] == n / Pow128(i) % 128 + if i + 1 < |Encode(n)| then 0x80 else 0
  {
    if i > 0 {
      EncodingAt(n / 128, i - 1);
      DivideTwice(n, 128, Pow128(i - 1));
    } else {
      assert n / 1 == n;
    }
  }

  /** No encoding is a prefix of another number's. */
  lemma PrefixFree(m: nat, n: nat)
    requires Encode(m) <= Encode(n)
    ensures m == n
  {
    var limit := |Encode(n)|;
    var tail := Encode(n)[|Encode(m)|..];
    assert Encode(n) == Encode(m) + tail;
    DecodeEncode(m, limit, m + n + 1, tail);
    DecodeEncode(n, limit, m + n + 1, []);
    assert Encode(n) + [] == Encode(n);
  }

  /** What is left of an encoding after `k` of its bytes is the encoding of the remaining groups. */
  lemma {:induction false} EncodingSuffix(n: nat, k: nat) returns (rest: nat)
    requires k < |Encode(n)|
    ensures Encode(n)[k..] == Encode(rest)
    ensures k > 0 ==> 0 < rest < n
    ensures k == 0 ==> rest == n
  {
    if k == 0 {
      rest := n;
    } else {
      rest := EncodingSuffix(n / 128, k - 1);
      assert Encode(n)[1..] == Encode(n / 128);
      assert Encode(n)[k..] == Encode(n)[1..][k - 1..];
    }
  }

  // ---------- sizes ----------

  function Pow128(k: nat): (p: nat)
    ensures p >= 1
  {
    if k == 0 then 1 else 128 * Pow128(k - 1)
  }

  /** An encoding has `k` bytes or fewer exactly when the number has `k` groups or fewer. */
  lemma {:induction false} EncodingLength(n: nat, k: nat)
    requires k >= 1
    ensures |Encode(n)| <= k <==> n < Pow128(k)
    decreases k
  {
    if k == 1 {
      assert Pow128(1) == 128 * Pow128(0);
    } else if n >= 128 {
      EncodingLength(n / 128, k - 1);
      var p := Pow128(k - 1);
      assert n < 128 * p <==> n / 128 < p;
    } else {
      assert Pow128(k) == 128 * Pow128(k - 1);
    }
  }

  lemma {:induction false} ValueBound(s: seq<byte>)
    ensures Value(s) < Pow128(|s|)
  {
    if s != [] {
      ValueBound(s[1..]);
    }
  }

  /** Nothing shorter decodes to the same number: encoding a number that was read never takes more
      bytes than reading it did. */
  lemma EncodingMinimal(s: seq<byte>, limit: nat, modulus: nat)
    requires modulus > 0 && Decode(s, limit, modulus).Complete?
    ensures |Encode(Decode(s, limit, modulus).value)| <= Decode(s, limit, modulus).used
  {
    var used := Decode(s, limit, modulus).used;
    var v := Value(s[..used]);
    ValueBound(s[..used]);
    assert v % modulus <= v by { ModBelow(v, modulus); }
    EncodingLength(v % modulus, used);
  }

  lemma ModBelow(v: nat, m: nat)
    requires m > 0
    ensures v % m <= v
  {
    if v < m {
    } else {
      assert v % m < m;
    }
  }

  /** The closed-form size of a 32-bit number: a mask that clears the low 7, 14, 21 or 28 bits is
      zero on it exactly when it is below that power of two. */
  function VarIntBytes(input: uint32): nat {
    if input / 0x80 == 0 then 1
    else if input / 0x4000 == 0 then 2
    else if input / 0x20_0000 == 0 then 3
    else if input / 0x1000_0000 == 0 then 4
    else 5
  }

  function VarLongBytes(input: uint64): nat {
    if input / 0x80 == 0 then 1
    else if input / 0x4000 == 0 then 2
    else if input / 0x20_0000 == 0 then 3
    else if input / 0x1000_0000 == 0 then 4
    else if input / 0x8_0000_0000 == 0 then 5
    else if input / 0x400_0000_0000 == 0 then 6
    else if input / 0x2_0000_0000_0000 == 0 then 7
    else if input / 0x100_0000_0000_0000 == 0 then 8
    else if input / 0x8000_0000_0000_0000 == 0 then 9
    else 10
  }

  lemma Powers()
    ensures Pow128(1) == 0x80 && Pow128(2) == 0x4000 && Pow128(3) == 0x20_0000 && Pow128(4) == 0x1000_0000
    ensures Pow128(5) == 0x8_0000_0000 && Pow128(6) == 0x400_0000_0000 && Pow128(7) == 0x2_0000_0000_0000
    ensures Pow128(8) == 0x100_0000_0000_0000 && Pow128(9) == 0x8000_0000_0000_0000
    ensures Pow128(10) == 0x40_0000_0000_0000_0000
  {
    assert Pow128(0) == 1;
    assert Pow128(1) == 128 * Pow128(0);
    assert Pow128(2) == 128 * Pow128(1);
    assert Pow128(3) == 128 * Pow128(2);
    assert Pow128(4) == 128 * Pow128(3);
    assert Pow128(5) == 128 * Pow128(4);
    assert Pow128(6) == 128 * Pow128(5);
    assert Pow128(7) == 128 * Pow128(6);
    assert Pow128(8) == 128 * Pow128(7);
    assert Pow128(9) == 128 * Pow128(8);
    assert Pow128(10) == 128 * Pow128(9);
  }

  lemma VarIntBytesExact(n: uint32)
    ensures VarIntBytes(n) == |Encode(n)| <= VARINT_LIMIT
  {
    hide Encode, Pow128;
    Powers();
    EncodingLength(n, 1);
    EncodingLength(n, 2);
    EncodingLength(n, 3);
    EncodingLength(n, 4);
    EncodingLength(n, 5);
  }

  lemma VarLongBytesExact(n: uint64)
    ensures VarLongBytes(n) == |Encode(n)| <= VARLONG_LIMIT
  {
    hide Encode, Pow128;
    Powers();
    EncodingLength(n, 1);
    EncodingLength(n, 2);
    EncodingLength(n, 3);
    EncodingLength(n, 4);
    EncodingLength(n, 5);
    EncodingLength(n, 6);
    EncodingLength(n, 7);
    EncodingLength(n, 8);
    EncodingLength(n, 9);
    EncodingLength(n, 10);
  }

  // ---------- assembling a value group by group ----------

  /** A group shifted into place in a word of the given modulus. */
  function Shifted(group: nat, bits: nat, modulus: nat): nat
    requires modulus > 0
  {
    group * Pow2(bits) % modulus
  }

  lemma {:induction false} Pow2Sum(a: nat, b: nat)
    ensures Pow2(a + b) == Pow2(a) * Pow2(b)
  {
    if a > 0 {
      Pow2Sum(a - 1, b);
    }
  }

  lemma {:induction false} Pow128IsPow2(i: nat)
    ensures Pow128(i) == Pow2(7 * i)
  {
    if i > 0 {
      Pow128IsPow2(i - 1);
      Pow2Sum(7, 7 * (i - 1));
      assert Pow2(7) == 2 * Pow2(6) == 4 * Pow2(5) == 8 * Pow2(4) == 16 * Pow2(3) == 32 * Pow2(2) == 128 * Pow2(0);
    }
  }

  lemma {:induction false} ValueSnoc(s: seq<byte>, b: byte)
    ensures Value(s + [b]) == Value(s) + b % 128 * Pow128(|s|)
  {
    if s == [] {
      assert (s + [b])[1..] == [];
    } else {
      ValueSnoc(s[1..], b);
      assert (s + [b])[1..] == s[1..] + [b];
      assert 128 * (b % 128 * Pow128(|s| - 1)) == b % 128 * Pow128(|s|);
    }
  }

  /** Reducing a multiple of `p` modulo `p * k` reduces its factor modulo `k`. */
  lemma FactorMod(v: nat, g: nat, p: nat, k: nat)
    requires v < p && k > 0
    ensures p * k > 0
    ensures g * p % (p * k) == g % k * p
    ensures (v + g * p) % (p * k) == v + g % k * p
  {
    var q, r := g / k, g % k;
    Regroup(q, k, r, p);
    Quotient(g * p, q, p * k, r * p);
    Quotient(v + g * p, q, p * k, v + r * p);
  }

  lemma Regroup(q: nat, k: nat, r: nat, p: nat)
    requires r < k && p > 0
    ensures (q * k + r) * p == q * (p * k) + r * p
    ensures r * p + p <= p * k && p * k > 0
  {
    assert (k - 1 - r) * p >= 0;
    assert q * (p * k) == (q * k) * p;
  }

  /** The decoder's step: or-ing the next group into the value so far, in a word of `width` bits,
      gives the value of the groups read, modulo the word size. */
  lemma GroupStep(s: seq<byte>, b: byte, width: nat)
    requires 7 * |s| <= width
    ensures Value(s) < Pow2(width)
    ensures BitOr(Value(s), Shifted(b % 128, 7 * |s|, Pow2(width))) == Value(s + [b]) % Pow2(width)
  {
    hide *;
    var p, k, g := Pow128(|s|), Pow2(width - 7 * |s|), b % 128;
    ValueBound(s);
    Pow128IsPow2(|s|);
    Pow2Sum(7 * |s|, width - 7 * |s|);
    FactorMod(Value(s), g, p, k);
    Regroup(0, k, 0, p);
    OrGroup(Value(s), g % k, 7 * |s|);
    ValueSnoc(s, b);
    ShiftedIs(g, 7 * |s|, Pow2(width));
  }

  lemma OrGroup(v: nat, group: nat, bits: nat)
    requires v < Pow2(bits)
    ensures BitOr(v, group * Pow2(bits)) == v + group * Pow2(bits)
  {
    hide *;
    OrDisjoint(group, v, bits);
    OrCommutes(v, group * Pow2(bits));
  }

  lemma ShiftedIs(group: nat, bits: nat, modulus: nat)
    requires modulus > 0
    ensures Shifted(group, bits, modulus) == group * Pow2(bits) % modulus
  {
  }

  /** The value of the first `k` groups in a word of the given modulus. */
  function Groups(q: seq<byte>, k: nat, modulus: nat): nat
    requires k <= |q| && modulus > 0
  {
    Value(q[..k]) % modulus
  }

  lemma NoGroups(q: seq<byte>, modulus: nat)
    requires modulus > 0
    ensures Groups(q, 0, modulus) == 0
  {
  }

  /** The decoder's loop step, on the value as the loop holds it. */
  lemma DecoderStep(q: seq<byte>, i: nat, width: nat)
    requires i < |q| && 7 * i <= width
    ensures BitOr(Groups(q, i, Pow2(width)), Shifted(q[i] % 128, 7 * i, Pow2(width))) == Groups(q, i + 1, Pow2(width))
  {
    hide Value, Pow2, BitOr, Shifted;
    GroupStep(q[..i], q[i], width);
    SmallMod(Value(q[..i]), Pow2(width));
    assert q[..i] + [q[i]] == q[..i + 1];
  }

  lemma SmallMod(x: nat, m: nat)
    requires x < m
    ensures x % m == x
  {
  }

  lemma WordSizes()
    ensures Pow2(32) == TWO_32 && Pow2(64) == TWO_64
  {
    hide Pow2;
    Pow2Sum(32, 32);
    Pow2Sum(16, 16);
    Pow2Sum(8, 8);
    SmallPowers();
  }

  lemma SmallPowers()
    ensures Pow2(8) == 256
  {
    assert Pow2(8) == 2 * Pow2(7) == 4 * Pow2(6) == 8 * Pow2(5) == 16 * Pow2(4);
    assert Pow2(4) == 2 * Pow2(3) == 4 * Pow2(2) == 16 * Pow2(0);
  }
}
