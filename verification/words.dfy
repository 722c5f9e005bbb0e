/** Machine words, the outcome type every fallible operation returns, and the
    bitwise `or` of words, which the decoders use to assemble values. */
module Words {
  const TWO_8: int := 0x100
  const TWO_16: int := 0x1_0000
  const TWO_24: int := 0x100_0000
  const TWO_32: int := 0x1_0000_0000
  const TWO_64: int := 0x1_0000_0000_0000_0000

  type byte = x: int | 0 <= x < 0x100
  type uint16 = x: int | 0 <= x < 0x1_0000
  type uint24 = x: int | 0 <= x < 0x100_0000
  type uint32 = x: int | 0 <= x < 0x1_0000_0000
  type uint64 = x: int | 0 <= x < 0x1_0000_0000_0000_0000

  /** The error classes of the library that the model can produce. */
  datatype ErrorKind =
    | IncompleteBoolean | IncompleteByte | IncompleteShort | IncompleteMedium | IncompleteInt | IncompleteLong
    | IncompleteVarInt | InvalidVarInt | IncompleteVarLong | InvalidVarLong | InvalidUUID
    | IncompleteByteArray | InvalidStringSize | InvalidByteArraySize | InvalidReadSkipRequest
    | IncompleteByteFrame | InvalidByteFrame | IncompleteFrame | InvalidFrame
    | Errno | InvalidPacketById | InvalidPacketByOrdinal | InvalidEnumById

  /** An operation's outcome: a value, or an error class with its argument. */
  datatype Errorable<+T> = Success(value: T) | Failure(kind: ErrorKind, code: int)

  function Min(a: nat, b: nat): (m: nat)
    ensures m <= a && m <= b && (m == a || m == b)
  {
    if a < b then a else b
  }

  /** The elements from place `from` up to place `to`. */
  function Piece<T>(s: seq<T>, from: nat, to: nat): (r: seq<T>)
    requires from <= to <= |s|
    ensures |r| == to - from
  {
    s[from..to]
  }

  lemma FrontOfPiece<T>(s: seq<T>, k: nat, n: nat)
    requires k <= n <= |s|
    ensures Piece(s, 0, n)[..k] == Piece(s, 0, k)
  {
  }

  lemma PiecesJoin<T>(s: seq<T>, j: nat, k: nat)
    requires j <= k <= |s|
    ensures Piece(s, 0, j) + Piece(s, j, k) == Piece(s, 0, k)
    ensures Piece(s, 0, 0) == [] && Piece(s, 0, |s|) == s
  {
  }

  /** Overwriting `at .. at + |part|` of a string that agrees with `q` up to `at`. */
  lemma PieceOverwritten<T>(o: seq<T>, part: seq<T>, o': seq<T>, q: seq<T>, at: nat, end: nat)
    requires at + |part| <= |o| && at + |part| <= |q| && at + |part| <= end <= |o|
    requires o' == Piece(o, 0, at) + part + Piece(o, at + |part|, |o|)
    requires Piece(o, 0, at) == Piece(q, 0, at) && part == Piece(q, at, at + |part|)
    ensures |o'| == |o| && Piece(o', 0, at + |part|) == Piece(q, 0, at + |part|)
    ensures Piece(o', end, |o|) == Piece(o, end, |o|)
  {
  }

  lemma JoinAssociates<T>(a: seq<T>, b: seq<T>, c: seq<T>)
    ensures a + (b + c) == a + b + c
  {
  }

  /** A wider number kept in 32 bits. */
  function Truncated(wide: int): uint32 { wide % TWO_32 }

  // ---------- quotients and remainders ----------

  lemma MultiplesAreApart(a: int, m: int)
    requires m > 0
    ensures a >= 1 ==> a * m >= m
    ensures a <= -1 ==> a * m <= -m
  {
    if a >= 1 {
      assert (a - 1) * m >= 0;
    } else if a <= -1 {
      assert (-1 - a) * m >= 0;
    }
  }

  lemma Quotient(x: nat, q: nat, m: nat, r: nat)
    requires m > 0 && x == q * m + r && r < m
    ensures x / m == q && x % m == r
  {
    var q', r' := x / m, x % m;
    Divided(x, m);
    Distributes(q', q - q', m);
    MultiplesAreApart(q - q', m);
  }

  lemma Divided(x: nat, m: nat)
    requires m > 0
    ensures x == x / m * m + x % m && x % m < m
  {
  }

  lemma Distributes(a: int, b: int, c: int)
    ensures (a + b) * c == a * c + b * c
  {
  }

  lemma Associates(a: int, b: int, c: int)
    ensures a * b * c == a * (c * b)
  {
  }

  /** Dividing by `b` and then by `p` is dividing by both at once, and so are the remainders. */
  lemma DivideTwice(x: nat, b: nat, p: nat)
    requires b > 0 && p > 0
    ensures b * p > 0 && x / (b * p) == x / b / p
    ensures x / b % p == x % (b * p) / b && x % (b * p) % b == x % b
  {
    var y, low := x / b, x % b;
    var q, r := y / p, y % p;
    Divided(x, b);
    Divided(y, p);
    Nested(q, p, r, b, low);
    Quotient(x, q, b * p, r * b + low);
    Quotient(r * b + low, r, b, low);
  }

  lemma Nested(q: nat, p: nat, r: nat, b: nat, low: nat)
    requires r < p && low < b
    ensures b * p > 0 && (q * p + r) * b + low == q * (b * p) + (r * b + low)
    ensures r * b + low < b * p
  {
    Distributes(q * p, r, b);
    Associates(q, p, b);
    Distributes(r, p - r, b);
    MultiplesAreApart(p - r, b);
  }

  function Pow2(k: nat): (p: nat)
    ensures p >= 1
  {
    if k == 0 then 1 else 2 * Pow2(k - 1)
  }

  /** Bitwise or of two unsigned words. */
  function BitOr(a: nat, b: nat): nat
    decreases a + b
  {
    if a == 0 && b == 0 then 0
    else 2 * BitOr(a / 2, b / 2) + (if a % 2 == 1 || b % 2 == 1 then 1 else 0)
  }

  /** A bit of the or is set exactly when that bit of the one or of the other word is. */
  lemma {:induction false} OrBits(a: nat, b: nat, k: nat)
    ensures BitOr(a, b) / Pow2(k) % 2 == 1 <==> a / Pow2(k) % 2 == 1 || b / Pow2(k) % 2 == 1
    decreases k
  {
    if k > 0 {
      OrBits(a / 2, b / 2, k - 1);
      HalfFirst(a, k);
      HalfFirst(b, k);
      HalfFirst(BitOr(a, b), k);
    }
  }

  lemma HalfFirst(x: nat, k: nat)
    requires k > 0
    ensures x / Pow2(k) == x / 2 / Pow2(k - 1)
  {
    DivideTwice(x, 2, Pow2(k - 1));
  }

  /** Or-ing a word into bits that are all clear adds it. */
  lemma {:induction false} OrDisjoint(hi: nat, lo: nat, k: nat)
    requires lo < Pow2(k)
    ensures BitOr(hi * Pow2(k), lo) == hi * Pow2(k) + lo
    decreases k, hi
  {
    if k == 0 {
      OrZero(hi);
    } else {
      var h := hi * Pow2(k - 1);
      assert hi * Pow2(k) == 2 * h;
      OrDisjoint(hi, lo / 2, k - 1);
    }
  }

  lemma {:induction false} OrZero(a: nat)
    ensures BitOr(a, 0) == a
    ensures BitOr(0, a) == a
  {
    if a > 0 { OrZero(a / 2); }
  }

  lemma {:induction false} OrCommutes(a: nat, b: nat)
    ensures BitOr(a, b) == BitOr(b, a)
    decreases a + b
  {
    if a + b > 0 { OrCommutes(a / 2, b / 2); }
  }

  /** The or of two k-bit words is a k-bit word. */
  lemma {:induction false} OrBounded(a: nat, b: nat, k: nat)
    requires a < Pow2(k) && b < Pow2(k)
    ensures BitOr(a, b) < Pow2(k)
    decreases k
  {
    if k > 0 { OrBounded(a / 2, b / 2, k - 1); }
  }
}
