/** Shared vocabulary: bytes, failure-carrying results and big-endian numbers. */
module Base {

  /** One octet, as a JavaScript Buffer element holds it. */
  type Byte = b: int | 0 <= b < 256

  datatype Option<+T> = None | Some(value: T)

  datatype Result<+T, +E> = Ok(value: T) | Err(error: E) {
    predicate IsFailure() { Err? }
    function PropagateFailure<U>(): Result<U, E>
      requires Err?
    {
      Err(error)
    }
    function Extract(): T
      requires Ok?
    {
      value
    }
  }

  /** Buffer.from([n]) keeps the low eight bits of n. */
  function ToByte(n: nat): Byte
  {
    n % 256
  }

  function Pow256(k: nat): (p: nat)
    ensures p >= 1
  {
    if k == 0 then 1 else 256 * Pow256(k - 1)
  }

  /** n zero bytes, as Buffer.alloc(n) holds. */
  function Zeros(n: nat): (z: seq<Byte>)
    ensures |z| == n
  {
    if n == 0 then [] else Zeros(n - 1) + [0]
  }

  lemma {:induction false} Pow256Monotone(a: nat, b: nat)
    requires a <= b
    ensures Pow256(a) <= Pow256(b)
  {
    if a < b {
      Pow256Monotone(a, b - 1);
    }
  }

  /** The unsigned number a big-endian byte string denotes. */
  function BeValue(s: seq<Byte>): nat
  {
    if s == [] then 0 else s[0] * Pow256(|s| - 1) + BeValue(s[1..])
  }

  lemma {:induction false} BeValueBound(s: seq<Byte>)
    ensures BeValue(s) < Pow256(|s|)
  {
    if s != [] {
      BeValueBound(s[1..]);
      DigitBound(s[0], BeValue(s[1..]), Pow256(|s| - 1));
    }
  }

  /** A digit d below 256 followed by a tail below p stays below 256 * p. */
  lemma DigitBound(d: nat, tail: nat, p: nat)
    requires d < 256 && tail < p
    ensures d * p + tail < 256 * p
  {
    assert d * p <= 255 * p;
  }

  /** The k big-endian bytes of n (the low 8k bits of n). */
  function BigEndian(n: nat, k: nat): (s: seq<Byte>)
    ensures |s| == k
  {
    if k == 0 then [] else BigEndian(n / 256, k - 1) + [ToByte(n)]
  }

  /** A leading digit d of weight p, a tail t and one more digit b. */
  lemma ShiftDigit(d: nat, p: nat, t: nat, b: nat)
    ensures d * (256 * p) + (t * 256 + b) == (d * p + t) * 256 + b
  {
    assert d * (256 * p) == (d * p) * 256;
  }

  lemma {:induction false} BeValueAppend(s: seq<Byte>, b: Byte)
    ensures BeValue(s + [b]) == BeValue(s) * 256 + b
  {
    if s != [] {
      assert (s + [b])[1..] == s[1..] + [b];
      BeValueAppend(s[1..], b);
      ShiftDigit(s[0], Pow256(|s| - 1), BeValue(s[1..]), b);
    }
  }

  /** Reading back k big-endian bytes gives n whenever n fits in k bytes. */
  lemma {:induction false} BeValueBigEndian(n: nat, k: nat)
    requires n < Pow256(k)
    ensures BeValue(BigEndian(n, k)) == n
  {
    if k > 0 {
      BeValueBigEndian(n / 256, k - 1);
      BeValueAppend(BigEndian(n / 256, k - 1), ToByte(n));
    }
  }

  /** Little-endian 16-bit read at position i (Buffer.readUInt16LE). */
  function LE16(s: seq<Byte>, i: nat): (v: nat)
    requires i + 2 <= |s|
    ensures v < 65536
    ensures v % 256 == s[i] && v / 256 == s[i + 1]
  {
    s[i] as nat + 256 * (s[i + 1] as nat)
  }

  /** The bitwise OR of two naturals, bit by bit from the least significant.
      For arguments below 2^31 it is JavaScript's `|`. */
  function BitOr(a: nat, b: nat): nat
    decreases a + b
  {
    if a == 0 then b
    else if b == 0 then a
    else 2 * BitOr(a / 2, b / 2) + (if a % 2 == 1 || b % 2 == 1 then 1 else 0)
  }

  function Pow2(k: nat): (p: nat)
    ensures p >= 1
  {
    if k == 0 then 1 else 2 * Pow2(k - 1)
  }

  lemma {:induction false} BitOrCommutes(a: nat, b: nat)
    ensures BitOr(a, b) == BitOr(b, a)
    decreases a + b
  {
    if a != 0 && b != 0 {
      BitOrCommutes(a / 2, b / 2);
    }
  }

  /** OR-ing a value below 2^k into a multiple of 2^k is addition: the bit
      fields do not overlap. */
  lemma {:induction false} BitOrDisjoint(h: nat, lo: nat, k: nat)
    requires lo < Pow2(k)
    ensures BitOr(h * Pow2(k), lo) == h * Pow2(k) + lo
  {
    if k == 0 {
      assert lo == 0;
    } else if h != 0 && lo != 0 {
      var a := h * Pow2(k);
      assert a == 2 * (h * Pow2(k - 1));
      assert a / 2 == h * Pow2(k - 1) && a % 2 == 0;
      BitOrDisjoint(h, lo / 2, k - 1);
    }
  }

  lemma {:induction false} BitOrBound(a: nat, b: nat, k: nat)
    requires a < Pow2(k) && b < Pow2(k)
    ensures BitOr(a, b) < Pow2(k)
    decreases a + b
  {
    if a != 0 && b != 0 {
      BitOrBound(a / 2, b / 2, k - 1);
    }
  }

  /** Bit k of n, that is n & (1 << k) != 0. */
  predicate TestBit(n: nat, k: nat)
  {
    (n / Pow2(k)) % 2 == 1
  }

  lemma MulLe(m: nat, a: nat, b: nat)
    ensures a <= b ==> m * a <= m * b
  {
    if a <= b {
      assert m * b == m * a + m * (b - a);
    }
  }

  /** Quotients are unique: n = m * d + r with r < m forces n / m = d. */
  lemma DivUnique(n: nat, m: nat, d: nat, r: nat)
    requires m > 0 && n == m * d + r && r < m
    ensures n / m == d
  {
    MulLe(m, d + 1, n / m);
    MulLe(m, n / m + 1, d);
  }

  /** Quotient and remainder are unique. */
  lemma DivModUnique(n: nat, m: nat, d: nat, r: nat)
    requires m > 0 && n == m * d + r && r < m
    ensures n / m == d && n % m == r
  {
    DivUnique(n, m, d, r);
  }

  lemma DivPow2(n: nat, k: nat)
    requires k > 0
    ensures n / Pow2(k) == (n / 2) / Pow2(k - 1)
  {
    var q := Pow2(k - 1);
    var m := n / 2;
    var d := m / q;
    assert m == q * d + m % q;
    assert n == 2 * m + n % 2;
    assert n == (2 * q) * d + (2 * (m % q) + n % 2);
    DivUnique(n, 2 * q, d, 2 * (m % q) + n % 2);
  }

  /** Bit k of n is bit k - 1 of n / 2. */
  lemma TestBitHalf(n: nat, k: nat)
    requires k > 0
    ensures TestBit(n, k) <==> TestBit(n / 2, k - 1)
  {
    DivPow2(n, k);
  }

  /** No bit of 0 is set. */
  lemma TestBitZero(k: nat)
    ensures !TestBit(0, k)
  {
    assert 0 / Pow2(k) == 0;
  }

  /** BitOr is the bitwise or: bit k of the result is set iff it is set in
      either argument. */
  lemma {:induction false} TestBitOr(a: nat, b: nat, k: nat)
    ensures TestBit(BitOr(a, b), k) <==> TestBit(a, k) || TestBit(b, k)
    decreases k
  {
    if a == 0 || b == 0 {
      TestBitZero(k);
    } else if k == 0 {
      BitOrLow(a, b);
    } else {
      BitOrHalf(a, b);
      TestBitHalf(a, k);
      TestBitHalf(b, k);
      TestBitHalf(BitOr(a, b), k);
      TestBitOr(a / 2, b / 2, k - 1);
    }
  }

  /** The low bit of an OR. */
  lemma BitOrLow(a: nat, b: nat)
    requires a != 0 && b != 0
    ensures TestBit(BitOr(a, b), 0) <==> TestBit(a, 0) || TestBit(b, 0)
  {
    assert Pow2(0) == 1;
  }

  /** Shifting an OR right by one ORs the shifted arguments. */
  lemma BitOrHalf(a: nat, b: nat)
    requires a != 0 && b != 0
    ensures BitOr(a, b) / 2 == BitOr(a / 2, b / 2)
  {
  }

  /** OR-ing in a single bit sets it, and changes nothing if it was set. */
  lemma {:induction false} BitOrPow2(a: nat, k: nat)
    ensures BitOr(a, Pow2(k)) == if TestBit(a, k) then a else a + Pow2(k)
  {
    if a != 0 && k > 0 {
      assert Pow2(k) / 2 == Pow2(k - 1) && Pow2(k) % 2 == 0;
      BitOrPow2(a / 2, k - 1);
      DivPow2(a, k);
    }
  }

  /** The byte-valued OR used for flag bits of a parameter byte. */
  function OrByte(a: Byte, b: Byte): (r: Byte)
  {
    assert Pow2(8) == 256 by { assert Pow2(4) == 16; }
    BitOrBound(a, b, 8);
    BitOr(a, b)
  }
}
