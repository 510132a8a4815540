/*
 * Bit-level vocabulary shared by the packers and unpackers of the three
 * implementations: powers of two, the low `n` bits of a natural number as a
 * sequence of booleans (least significant bit first, the order in which the
 * packers emit bits), the bitwise OR of two naturals, and the bit string of a
 * byte stream.
 */
module BitString {

  /** A byte as the implementations hold it once masked with 0xff. */
  type Byte = b: int | 0 <= b < 256

  function Pow2(n: nat): (r: nat)
    ensures r >= 1
  {
    if n == 0 then 1 else 2 * Pow2(n - 1)
  }

  lemma {:induction false} Pow2Add(a: nat, b: nat)
    ensures Pow2(a + b) == Pow2(a) * Pow2(b)
  {
    if a > 0 {
      Pow2Add(a - 1, b);
    }
  }

  lemma {:induction false} Pow2Monotonic(a: nat, b: nat)
    requires a <= b
    ensures Pow2(a) <= Pow2(b)
  {
    if a < b {
      Pow2Monotonic(a, b - 1);
    }
  }

  /** Euclidean division is determined by quotient and remainder. */
  lemma DivModUnique(x: int, d: int, q: int, r: int)
    requires d > 0 && x == d * q + r && 0 <= r < d
    ensures x / d == q && x % d == r
  {
    var q', r' := x / d, x % d;
    assert x == d * q' + r';
    if q' > q {
      assert d * q' >= d * (q + 1) by { MulMonotonic(d, q + 1, q'); }
      assert false;
    } else if q' < q {
      assert d * q >= d * (q' + 1) by { MulMonotonic(d, q' + 1, q); }
      assert false;
    }
  }

  lemma MulMonotonic(d: int, a: int, b: int)
    requires d > 0 && a <= b
    ensures d * a <= d * b
  {
  }

  lemma DivModNat(x: nat, d: int)
    requires d > 0
    ensures x / d >= 0 && 0 <= x % d < d
  {
  }

  /** `x & ((1 << n) - 1)`: the low n bits of x as a number. */
  function LowBits(x: nat, n: nat): (r: nat)
    ensures r < Pow2(n)
  {
    DivModNat(x, Pow2(n));
    x % Pow2(n)
  }

  lemma LowBitsOfSmall(x: nat, n: nat)
    requires x < Pow2(n)
    ensures LowBits(x, n) == x
  {
    DivModUnique(x, Pow2(n), 0, x);
  }

  /** `x >> n`. */
  function Shr(x: nat, n: nat): nat
  {
    DivModNat(x, Pow2(n));
    x / Pow2(n)
  }

  /** The low `n` bits of `x`, least significant first. */
  function Bits(x: nat, n: nat): (r: seq<bool>)
    ensures |r| == n
  {
    if n == 0 then [] else [x % 2 == 1] + Bits(x / 2, n - 1)
  }

  /** The number whose binary digits, least significant first, are `s`. */
  function FromBits(s: seq<bool>): (r: nat)
    ensures r < Pow2(|s|)
  {
    if s == [] then 0 else (if s[0] then 1 else 0) + 2 * FromBits(s[1..])
  }

  /** Splitting off the lowest bit of x for a divisor 2 * m. */
  lemma HalfDivMod(x: nat, m: nat)
    requires m > 0
    ensures x / (2 * m) == (x / 2) / m
    ensures x % (2 * m) == x % 2 + 2 * ((x / 2) % m)
  {
    var q, r := (x / 2) / m, (x / 2) % m;
    assert x / 2 == m * q + r;
    assert x == 2 * (x / 2) + x % 2;
    assert x == (2 * m) * q + (x % 2 + 2 * r);
    DivModUnique(x, 2 * m, q, x % 2 + 2 * r);
  }

  /** Reading back the low `n` bits of `x` gives `x` modulo 2^n. */
  lemma {:induction false} FromBitsOfBits(x: nat, n: nat)
    ensures FromBits(Bits(x, n)) == x % Pow2(n)
  {
    if n > 0 {
      FromBitsOfBits(x / 2, n - 1);
      var s := Bits(x, n);
      assert s[1..] == Bits(x / 2, n - 1);
      HalfDivMod(x, Pow2(n - 1));
    }
  }

  /** Two numbers below 2^n with the same low n bits are equal. */
  lemma BitsInjective(x: nat, y: nat, n: nat)
    requires x < Pow2(n) && y < Pow2(n)
    requires Bits(x, n) == Bits(y, n)
    ensures x == y
  {
    FromBitsOfBits(x, n);
    FromBitsOfBits(y, n);
    DivModUnique(x, Pow2(n), 0, x);
    DivModUnique(y, Pow2(n), 0, y);
  }

  /** How x mod 2^r and x / 2^r relate to x / 2. */
  lemma HalfPow2(x: nat, r: nat)
    requires r > 0
    ensures (x % Pow2(r)) % 2 == x % 2
    ensures (x % Pow2(r)) / 2 == (x / 2) % Pow2(r - 1)
    ensures x / Pow2(r) == (x / 2) / Pow2(r - 1)
  {
    var m := Pow2(r - 1);
    HalfDivMod(x, m);
    var e, t := x % 2, (x / 2) % m;
    DivModUnique(e + 2 * t, 2, t, e);
  }

  /**
   * The low r + w bits of x are its low r bits (`lo`) followed by the next w
   * (`hi`).
   */
  lemma {:induction false} BitsSplitAt(x: nat, r: nat, w: nat, lo: nat, hi: nat)
    requires lo == x % Pow2(r) && hi == x / Pow2(r)
    ensures Bits(x, r + w) == Bits(lo, r) + Bits(hi, w)
  {
    if r == 0 {
      assert lo == 0 && hi == x;
    } else {
      HalfPow2(x, r);
      BitsSplitAt(x / 2, r - 1, w, lo / 2, hi);
      assert Bits(lo, r) == [x % 2 == 1] + Bits(lo / 2, r - 1);
    }
  }

  /** Only the low n bits of x matter to Bits(x, n). */
  lemma BitsMod(x: nat, n: nat, lo: nat)
    requires lo == x % Pow2(n)
    ensures Bits(x, n) == Bits(lo, n)
  {
    BitsSplitAt(x, n, 0, lo, Shr(x, n));
  }

  /**
   * Appending the w-bit value m above an r-bit value a: the bit string of
   * a + m * 2^r is the concatenation, and the sum stays below 2^(r + w).
   */
  lemma BitsAppend(a: nat, r: nat, m: nat, w: nat)
    requires a < Pow2(r) && m < Pow2(w)
    ensures Bits(a + m * Pow2(r), r + w) == Bits(a, r) + Bits(m, w)
    ensures a + m * Pow2(r) < Pow2(r + w)
  {
    var p := Pow2(r);
    var x := a + m * p;
    assert x == p * m + a;
    DivModUnique(x, p, m, a);
    BitsSplitAt(x, r, w, a, m);
    Pow2Add(r, w);
    MulBelow(m, Pow2(w), p);
    assert Pow2(w) * p == Pow2(r + w);
  }

  lemma MulBelow(m: nat, bound: nat, p: nat)
    requires m < bound
    ensures m * p + p <= bound * p
  {
    assert (m + 1) * p <= bound * p by { if p > 0 { MulMonotonic(p, m + 1, bound); } }
  }

  /**
   * Taking w bits off the bottom of an n-bit value: what is left is below
   * 2^(n - w).
   */
  lemma ShiftBound(x: nat, n: nat, w: nat)
    requires w <= n && x < Pow2(n)
    ensures x / Pow2(w) < Pow2(n - w)
    ensures x % Pow2(w) < Pow2(w)
  {
    Pow2Add(w, n - w);
    if x / Pow2(w) >= Pow2(n - w) {
      assert x >= Pow2(w) * (x / Pow2(w)) by { DivModUnique(x, Pow2(w), x / Pow2(w), x % Pow2(w)); }
      MulMonotonic(Pow2(w), Pow2(n - w), x / Pow2(w));
      assert false;
    }
  }

  /** A value below 2^r, seen through more bits, is padded with zeros. */
  lemma BitsWiden(a: nat, r: nat, k: nat)
    requires a < Pow2(r)
    ensures Bits(a, r + k) == Bits(a, r) + Bits(0, k)
  {
    BitsAppend(a, r, 0, k);
  }

  function Ones(k: nat): seq<bool>
  {
    seq(k, i => true)
  }

  lemma {:induction false} BitsOfAllOnes(k: nat)
    ensures Bits(Pow2(k) - 1, k) == Ones(k)
  {
    if k > 0 {
      BitsOfAllOnes(k - 1);
      DivModUnique(Pow2(k) - 1, 2, Pow2(k - 1) - 1, 1);
      assert Bits(Pow2(k) - 1, k) == [true] + Bits(Pow2(k - 1) - 1, k - 1);
    }
  }

  /** Bitwise OR of two naturals, one binary digit at a time. */
  function Or(a: nat, b: nat): nat
  {
    if a == 0 then b
    else if b == 0 then a
    else 2 * Or(a / 2, b / 2) + (if a % 2 == 1 || b % 2 == 1 then 1 else 0)
  }

  /** `x | (b << n)`: b shifted left by n bits and ORed into x. */
  function ShiftIn(x: nat, b: nat, n: nat): nat
  {
    Or(x, b * Pow2(n))
  }

  /**
   * OR-ing m shifted left by r into a value that fits in r bits adds it: the
   * two operands have no bit in common.
   */
  lemma {:induction false} OrDisjoint(a: nat, m: nat, r: nat)
    requires a < Pow2(r)
    ensures Or(a, m * Pow2(r)) == a + m * Pow2(r)
  {
    if a != 0 && m * Pow2(r) != 0 {
      assert r > 0;
      var half := m * Pow2(r - 1);
      assert m * Pow2(r) == 2 * half;
      DivModUnique(m * Pow2(r), 2, half, 0);
      OrDisjoint(a / 2, m, r - 1);
    }
  }

  /** The bit stream of a byte sequence: each byte LSB first, in order. */
  function BytesBits(bs: seq<Byte>): (r: seq<bool>)
    ensures |r| == 8 * |bs|
  {
    if bs == [] then [] else Bits(bs[0], 8) + BytesBits(bs[1..])
  }

  lemma {:induction false} BytesBitsAppend(a: seq<Byte>, b: seq<Byte>)
    ensures BytesBits(a + b) == BytesBits(a) + BytesBits(b)
  {
    if a != [] {
      assert (a + b)[0] == a[0];
      assert (a + b)[1..] == a[1..] + b;
      BytesBitsAppend(a[1..], b);
      calc {
        BytesBits(a + b);
        Bits(a[0], 8) + BytesBits(a[1..] + b);
        Bits(a[0], 8) + (BytesBits(a[1..]) + BytesBits(b));
        (Bits(a[0], 8) + BytesBits(a[1..])) + BytesBits(b);
      }
    } else {
      assert a + b == b;
    }
  }
}
