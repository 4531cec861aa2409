/** Bytes and fixed-width words.
  *
  * A `u64` or `u32` of the source is a `nat` below its limit, and what the source does to its bits
  * is arithmetic on binary digits: shifting right by one halves, the lowest bit is the remainder
  * modulo two. Words are stored little-endian.
  */
module Words {

  type byte = b: int | 0 <= b < 256

  const U32_MAX: nat := 0xFFFF_FFFF
  const U64_LIMIT: nat := 0x1_0000_0000_0000_0000

  type u32 = n: int | 0 <= n <= U32_MAX
  type u64 = n: int | 0 <= n < U64_LIMIT

  // ---------------------------------------------------------------- numbers as bytes

  function Pow256(k: nat): (p: nat)
    ensures p > 0
  {
    if k == 0 then 1 else 256 * Pow256(k - 1)
  }

  lemma Pow256Values()
    ensures Pow256(1) == 256
    ensures Pow256(4) == U32_MAX + 1
    ensures Pow256(8) == U64_LIMIT
  {
    assert Pow256(2) == 0x1_0000;
    assert Pow256(3) == 0x100_0000;
    assert Pow256(5) == 0x100_0000_0000;
    assert Pow256(6) == 0x1_0000_0000_0000;
    assert Pow256(7) == 0x100_0000_0000_0000;
  }

  /** The low `k` bytes of `n`, least significant first (`to_le_bytes`). */
  function LeBytes(n: nat, k: nat): (s: seq<byte>)
    ensures |s| == k
    decreases k
  {
    if k == 0 then [] else [n % 256] + LeBytes(n / 256, k - 1)
  }

  /** The number whose little-endian bytes are `s` (`from_le_bytes`). */
  function LeNat(s: seq<byte>): (n: nat)
    ensures n < Pow256(|s|)
  {
    if s == [] then 0 else s[0] + 256 * LeNat(s[1..])
  }

  lemma {:induction false} LeNatLeBytes(n: nat, k: nat)
    requires n < Pow256(k)
    ensures LeNat(LeBytes(n, k)) == n
    decreases k
  {
    if k > 0 {
      LeNatLeBytes(n / 256, k - 1);
      assert LeBytes(n, k)[1..] == LeBytes(n / 256, k - 1);
    }
  }

  lemma {:induction false} LeBytesLeNat(s: seq<byte>)
    ensures LeBytes(LeNat(s), |s|) == s
  {
    if s != [] {
      LeBytesLeNat(s[1..]);
      assert LeNat(s) % 256 == s[0] && LeNat(s) / 256 == LeNat(s[1..]);
    }
  }

  // ---------------------------------------------------------------- binary digits

  function Pow2(n: nat): (p: nat)
    ensures p > 0
  {
    if n == 0 then 1 else 2 * Pow2(n - 1)
  }

  /** `(w >> i) & 1 == 1`. */
  predicate TestBit(w: nat, i: nat)
    decreases i
  {
    if i == 0 then w % 2 == 1 else TestBit(w / 2, i - 1)
  }

  /** `w | (1 << i)` when `on`, `w & !(1 << i)` otherwise: digit `i` written, the others kept. */
  function SetBit(w: nat, i: nat, on: bool): nat
    decreases i
  {
    if i == 0 then w - w % 2 + (if on then 1 else 0)
    else 2 * SetBit(w / 2, i - 1, on) + w % 2
  }

  lemma {:induction false} TestSetBit(w: nat, i: nat, on: bool, j: nat)
    ensures TestBit(SetBit(w, i, on), j) == if i == j then on else TestBit(w, j)
    decreases i
  {
    if i > 0 && j > 0 {
      TestSetBit(w / 2, i - 1, on, j - 1);
    }
  }

  lemma {:induction false} SetBitBound(w: nat, i: nat, on: bool, n: nat)
    requires w < Pow2(n) && i < n
    ensures SetBit(w, i, on) < Pow2(n)
    decreases i
  {
    if i > 0 {
      SetBitBound(w / 2, i - 1, on, n - 1);
    }
  }

  lemma {:induction false} TestBitOfZero(i: nat)
    ensures !TestBit(0, i)
  {
    if i > 0 {
      TestBitOfZero(i - 1);
    }
  }

  // ---------------------------------------------------------------- exclusive or

  /** `a ^ b`, digit by digit. */
  function Xor(a: nat, b: nat): nat
    decreases a + b
  {
    if a == 0 && b == 0 then 0 else 2 * Xor(a / 2, b / 2) + (if a % 2 == b % 2 then 0 else 1)
  }

  lemma XorDigits(a: nat, b: nat)
    ensures Xor(a, b) / 2 == Xor(a / 2, b / 2)
    ensures Xor(a, b) % 2 == if a % 2 == b % 2 then 0 else 1
  {
  }

  lemma {:induction false} XorZero(a: nat)
    ensures Xor(a, 0) == a
  {
    if a > 0 {
      XorZero(a / 2);
    }
  }

  lemma {:induction false} XorSelfInverse(a: nat, b: nat)
    ensures Xor(Xor(a, b), b) == a
    decreases a + b
  {
    if a > 0 || b > 0 {
      XorSelfInverse(a / 2, b / 2);
      XorDigits(a, b);
      XorDigits(Xor(a, b), b);
    }
  }

  lemma {:induction false} XorCommutes(a: nat, b: nat)
    ensures Xor(a, b) == Xor(b, a)
    decreases a + b
  {
    if a > 0 || b > 0 {
      XorCommutes(a / 2, b / 2);
    }
  }

  lemma {:induction false} XorBound(a: nat, b: nat, n: nat)
    requires a < Pow2(n) && b < Pow2(n)
    ensures Xor(a, b) < Pow2(n)
    decreases n
  {
    if n > 0 {
      XorBound(a / 2, b / 2, n - 1);
    }
  }

  // ---------------------------------------------------------------- shifting right

  /** `a >> k`, one digit at a time. */
  function Shr(a: nat, k: nat): nat
    decreases k
  {
    if k == 0 then a else Shr(a / 2, k - 1)
  }

  lemma {:induction false} ShrIsDivision(a: nat, k: nat)
    ensures a / Pow2(k) == Shr(a, k)
    decreases k
  {
    if k > 0 {
      ShrIsDivision(a / 2, k - 1);
      DivideTwice(a, Pow2(k - 1));
    }
  }

  lemma DivideTwice(a: nat, p: nat)
    requires p > 0
    ensures a / (2 * p) == a / 2 / p
  {
    var q := a / 2 / p;
    var r := a / 2 % p;
    assert a == 2 * (q * p + r) + a % 2;
    assert q * (2 * p) == 2 * (q * p);
    QuotientIs(a, 2 * p, q, 2 * r + a % 2);
  }

  lemma QuotientIs(a: nat, d: nat, q: nat, r: nat)
    requires r < d && a == q * d + r
    ensures a / d == q
  {
    var e := a / d - q;
    assert e * d == r - a % d;
    MultipleBounds(e, d);
  }

  lemma MultipleBounds(e: int, d: nat)
    ensures e >= 1 ==> e * d >= d
    ensures e <= -1 ==> e * d + d <= 0
  {
  }

  lemma {:induction false} ShrXor(a: nat, b: nat, k: nat)
    ensures Shr(Xor(a, b), k) == Xor(Shr(a, k), Shr(b, k))
    decreases k
  {
    if k > 0 {
      XorDigits(a, b);
      ShrXor(a / 2, b / 2, k - 1);
    }
  }

  // ---------------------------------------------------------------- at 64 bits

  lemma {:induction false} Pow2Sum(a: nat, b: nat)
    ensures Pow2(a + b) == Pow2(a) * Pow2(b)
  {
    if a > 0 {
      Pow2Sum(a - 1, b);
    }
  }

  lemma Pow2Values()
    ensures Pow2(32) == 0x1_0000_0000
    ensures Pow2(64) == U64_LIMIT
  {
    assert Pow2(8) == 0x100;
    Pow2Sum(8, 8);
    Pow2Sum(16, 16);
    Pow2Sum(32, 32);
  }

  lemma XorBound64(a: nat, b: nat)
    requires a < U64_LIMIT && b < U64_LIMIT
    ensures Xor(a, b) < U64_LIMIT
  {
    Pow2Values();
    XorBound(a, b, 64);
  }

  /** Exclusive or of a 64-bit word with its own high half leaves that half as it was. */
  lemma HighHalfKept(a: nat)
    requires a < U64_LIMIT
    ensures Xor(a, a / 0x1_0000_0000) / 0x1_0000_0000 == a / 0x1_0000_0000
  {
    var hi := a / 0x1_0000_0000;
    HighHalf(a);
    HighHalf(hi);
    HighHalf(Xor(a, hi));
    ShrXorHalf(a, hi);
    XorZero(hi);
  }

  lemma HighHalf(a: nat)
    ensures a / 0x1_0000_0000 == Shr(a, 32)
  {
    Pow2Values();
    ShrIsDivision(a, 32);
  }

  lemma ShrXorHalf(a: nat, b: nat)
    ensures Shr(Xor(a, b), 32) == Xor(Shr(a, 32), Shr(b, 32))
  {
    ShrXor(a, b, 32);
  }
}
