/** The streaming word checksum of the cache files, and the writer that folds it over what it writes. */
module Checksums {
  import opened Words

  const SEED: nat := 0x9E37_79B9_7F4A_7C15
  const MULTIPLIER: nat := 0xFF51_AFD7_ED55_8CCD
  // The inverse of MULTIPLIER modulo 2^64.
  const INVERSE: nat := 0x4F74_430C_22A5_4005

  // Dividing by HALF shifts right by 32.
  const HALF: nat := 0x1_0000_0000

  // ---------------------------------------------------------------- specification

  function Mix(h: nat, word: nat): nat {
    var a := Xor(h, word) * MULTIPLIER % U64_LIMIT;
    Xor(a, a / HALF)
  }

  /** Mix every 8-byte word of `bytes` into `h`, the last one padded with zero bytes. */
  function Fold(h: nat, bytes: seq<byte>): nat
    decreases |bytes|
  {
    if |bytes| >= 8 then Fold(Mix(h, LeNat(bytes[..8])), bytes[8..])
    else if bytes == [] then h
    else Mix(h, LeNat(bytes))
  }

  function Checksum(bytes: seq<byte>): nat {
    Mix(Fold(SEED, bytes), |bytes| % U64_LIMIT)
  }

  // ---------------------------------------------------------------- every mixing step is a bijection

  lemma MixBound(h: nat, word: nat)
    ensures Mix(h, word) < U64_LIMIT
  {
    var a := Xor(h, word) * MULTIPLIER % U64_LIMIT;
    XorBound64(a, a / HALF);
  }

  /** `h ^ (h >> 32)` on 64 bits is its own inverse. */
  lemma XorShiftInverse(a: nat)
    requires a < U64_LIMIT
    ensures var r := Xor(a, a / HALF); Xor(r, r / HALF) == a
  {
    HighHalfKept(a);
    XorSelfInverse(a, a / HALF);
  }

  /** Multiplying by the odd constant modulo 2^64 is undone by multiplying by its inverse. */
  lemma MultiplierInverse(a: nat)
    requires a < U64_LIMIT
    ensures a * MULTIPLIER % U64_LIMIT * INVERSE % U64_LIMIT == a
  {
    var q := a * MULTIPLIER / U64_LIMIT;
    var r := a * MULTIPLIER % U64_LIMIT;
    var t := MULTIPLIER * INVERSE / U64_LIMIT;
    assert MULTIPLIER * INVERSE == t * U64_LIMIT + 1;
    assert r * INVERSE == a + (a * t - q * INVERSE) * U64_LIMIT;
    Residue(a, a * t - q * INVERSE);
  }

  lemma Residue(a: nat, k: int)
    requires a < U64_LIMIT && a + k * U64_LIMIT >= 0
    ensures (a + k * U64_LIMIT) % U64_LIMIT == a
  {
  }

  /** A mixing step can be undone in the state, for a known word, and in the word, for a known state. */
  lemma MixInjective(h: nat, w: nat, h': nat, w': nat)
    requires h < U64_LIMIT && w < U64_LIMIT && h' < U64_LIMIT && w' < U64_LIMIT
    requires Mix(h, w) == Mix(h', w')
    ensures h == h' <==> w == w'
  {
    XorBound64(h, w);
    XorBound64(h', w');
    var x, x' := Xor(h, w), Xor(h', w');
    XorShiftInverse(x * MULTIPLIER % U64_LIMIT);
    XorShiftInverse(x' * MULTIPLIER % U64_LIMIT);
    MultiplierInverse(x);
    MultiplierInverse(x');
    assert x == x';
    XorSelfInverse(h, w);
    XorSelfInverse(h', w');
    XorCommutes(h, w);
    XorCommutes(h', w');
    XorSelfInverse(w, h);
    XorSelfInverse(w', h');
  }

  lemma {:induction false} FoldBound(h: nat, bytes: seq<byte>)
    requires h < U64_LIMIT
    ensures Fold(h, bytes) < U64_LIMIT
    decreases |bytes|
  {
    if |bytes| >= 8 {
      MixBound(h, LeNat(bytes[..8]));
      FoldBound(Mix(h, LeNat(bytes[..8])), bytes[8..]);
    } else if bytes != [] {
      MixBound(h, LeNat(bytes));
    }
  }

  lemma ChecksumBound(bytes: seq<byte>)
    ensures Checksum(bytes) < U64_LIMIT
  {
    MixBound(Fold(SEED, bytes), |bytes| % U64_LIMIT);
  }

  /** Nothing mixed in later can hide a difference in the state. */
  lemma {:induction false} FoldInjective(h: nat, h': nat, bytes: seq<byte>)
    requires h < U64_LIMIT && h' < U64_LIMIT
    requires Fold(h, bytes) == Fold(h', bytes)
    ensures h == h'
    decreases |bytes|
  {
    Pow256Values();
    if |bytes| >= 8 {
      var w := LeNat(bytes[..8]);
      MixBound(h, w);
      MixBound(h', w);
      FoldInjective(Mix(h, w), Mix(h', w), bytes[8..]);
      MixInjective(h, w, h', w);
    } else if bytes != [] {
      ShortWord(bytes);
      MixInjective(h, LeNat(bytes), h', LeNat(bytes));
    }
  }

  lemma ShortWord(bytes: seq<byte>)
    requires |bytes| <= 8
    ensures LeNat(bytes) < U64_LIMIT
  {
    Pow256Monotone(|bytes|, 8);
    Pow256Values();
  }

  lemma {:induction false} Pow256Monotone(k: nat, n: nat)
    requires k <= n
    ensures Pow256(k) <= Pow256(n)
    decreases n
  {
    if k < n {
      Pow256Monotone(k, n - 1);
    }
  }

  /** `a` and `b` agree outside the aligned 8-byte word number `k`. */
  ghost predicate DifferOnlyInWord(a: seq<byte>, b: seq<byte>, k: nat) {
    |a| == |b| && forall i :: 0 <= i < |a| && i / 8 != k ==> a[i] == b[i]
  }

  lemma {:induction false} FoldDetects(h: nat, a: seq<byte>, b: seq<byte>, k: nat)
    requires h < U64_LIMIT
    requires DifferOnlyInWord(a, b, k) && a != b
    ensures Fold(h, a) != Fold(h, b)
    decreases |a|
  {
    if |a| < 8 {
      ShortWord(a);
      ShortWord(b);
      DifferentNumbers(a, b);
      if Fold(h, a) == Fold(h, b) {
        MixInjective(h, LeNat(a), h, LeNat(b));
      }
    } else if k == 0 {
      FirstWordDetects(h, a, b);
    } else {
      SameFirstWord(a, b, k);
      MixBound(h, LeNat(a[..8]));
      FoldDetects(Mix(h, LeNat(a[..8])), a[8..], b[8..], k - 1);
    }
  }

  lemma SameFirstWord(a: seq<byte>, b: seq<byte>, k: nat)
    requires |a| >= 8 && k > 0 && DifferOnlyInWord(a, b, k) && a != b
    ensures a[..8] == b[..8]
    ensures DifferOnlyInWord(a[8..], b[8..], k - 1) && a[8..] != b[8..]
  {
    assert a == a[..8] + a[8..] && b == b[..8] + b[8..];
    assert forall i :: 0 <= i < 8 ==> i / 8 == 0;
    assert forall i :: 0 <= i < |a| - 8 ==> (i + 8) / 8 == i / 8 + 1;
  }

  lemma FirstWordDetects(h: nat, a: seq<byte>, b: seq<byte>)
    requires h < U64_LIMIT
    requires |a| >= 8 && DifferOnlyInWord(a, b, 0) && a != b
    ensures Fold(h, a) != Fold(h, b)
  {
    assert a == a[..8] + a[8..] && b == b[..8] + b[8..];
    assert forall i :: 8 <= i < |a| ==> i / 8 != 0;
    assert a[8..] == b[8..];
    var wa, wb := LeNat(a[..8]), LeNat(b[..8]);
    DifferentNumbers(a[..8], b[..8]);
    ShortWord(a[..8]);
    ShortWord(b[..8]);
    MixBound(h, wa);
    MixBound(h, wb);
    if Fold(h, a) == Fold(h, b) {
      FoldInjective(Mix(h, wa), Mix(h, wb), a[8..]);
      MixInjective(h, wa, h, wb);
    }
  }

  lemma DifferentNumbers(a: seq<byte>, b: seq<byte>)
    requires |a| == |b| && a != b
    ensures LeNat(a) != LeNat(b)
  {
    LeBytesLeNat(a);
    LeBytesLeNat(b);
  }

  /** Corrupting a file inside one aligned 8-byte word always changes its checksum. */
  lemma ChecksumDetects(a: seq<byte>, b: seq<byte>, k: nat)
    requires DifferOnlyInWord(a, b, k) && a != b
    ensures Checksum(a) != Checksum(b)
  {
    FoldDetects(SEED, a, b, k);
    FoldBound(SEED, a);
    FoldBound(SEED, b);
    if Checksum(a) == Checksum(b) {
      MixInjective(Fold(SEED, a), |a| % U64_LIMIT, Fold(SEED, b), |b| % U64_LIMIT);
    }
  }

  // ---------------------------------------------------------------- folding a split input

  /** Whole words first, then the rest: the order in which the bytes arrive is all that matters. */
  lemma {:induction false} FoldConcat(h: nat, a: seq<byte>, b: seq<byte>)
    requires |a| % 8 == 0
    ensures Fold(h, a + b) == Fold(Fold(h, a), b)
    decreases |a|
  {
    if a == [] {
      assert a + b == b;
    } else {
      assert (a + b)[..8] == a[..8] && (a + b)[8..] == a[8..] + b;
      FoldConcat(Mix(h, LeNat(a[..8])), a[8..], b);
    }
  }

  lemma {:induction false} LeNatPadded(s: seq<byte>, n: nat)
    ensures LeNat(s + seq(n, _ => 0)) == LeNat(s)
    decreases |s|
  {
    var z: seq<byte> := seq(n, _ => 0);
    if s == [] {
      assert s + z == z;
      LeNatZeros(n);
    } else {
      assert (s + z)[1..] == s[1..] + z;
      LeNatPadded(s[1..], n);
    }
  }

  lemma {:induction false} LeNatZeros(n: nat)
    ensures LeNat(seq(n, _ => 0)) == 0
  {
    if n > 0 {
      var z: seq<byte> := seq(n, _ => 0);
      assert z[1..] == seq(n - 1, _ => 0);
      LeNatZeros(n - 1);
    }
  }

  // ---------------------------------------------------------------- the streaming state

  class Sum64 {
    var h: nat
    const buf: array<byte>
    var bufLen: nat
    var total: nat
    /** The bytes mixed into `h`; the last few bytes seen wait in `buf`. */
    ghost var mixed: seq<byte>

    /** Every byte passed to `Update` so far. */
    ghost function Seen(): seq<byte>
      reads this, buf
      requires bufLen <= buf.Length
    {
      mixed + buf[..bufLen]
    }

    ghost predicate Aligned()
      reads this, buf
    {
      && buf.Length == 8 && bufLen < 8
      && |mixed| % 8 == 0
      && h == Fold(SEED, mixed)
    }

    ghost predicate Valid()
      reads this, buf
    {
      Aligned() && total == |Seen()| % U64_LIMIT
    }

    constructor ()
      ensures Valid() && fresh(buf) && Seen() == []
    {
      h := SEED;
      buf := new byte[8](_ => 0);
      bufLen := 0;
      total := 0;
      mixed := [];
    }

    method MixWord(word: nat)
      modifies this`h
      ensures h == Mix(old(h), word)
    {
      var m := Xor(h, word);
      m := m * MULTIPLIER % U64_LIMIT;
      m := Xor(m, m / HALF);
      h := m;
    }

    /** Copy `bytes` into the buffer after the bytes already held. */
    method Hold(bytes: seq<byte>)
      requires bufLen + |bytes| <= buf.Length
      modifies this`bufLen, buf
      ensures bufLen == old(bufLen) + |bytes|
      ensures buf[..bufLen] == old(buf[..bufLen]) + bytes
    {
      var i := 0;
      while i < |bytes|
        invariant 0 <= i <= |bytes|
        invariant buf[..bufLen] == old(buf[..bufLen])
        invariant buf[bufLen..bufLen + i] == bytes[..i]
        modifies buf
      {
        buf[bufLen + i] := bytes[i];
        i := i + 1;
      }
      bufLen := bufLen + |bytes|;
      assert buf[..bufLen] == buf[..old(bufLen)] + buf[old(bufLen)..bufLen];
    }

    /** Mix every whole word of `bytes` and return what is left. */
    method MixWords(bytes: seq<byte>) returns (rest: seq<byte>)
      requires |mixed| % 8 == 0 && h == Fold(SEED, mixed)
      modifies this`h, this`mixed
      ensures |mixed| % 8 == 0 && h == Fold(SEED, mixed)
      ensures |rest| < 8 && mixed + rest == old(mixed) + bytes
    {
      rest := bytes;
      while |rest| >= 8
        invariant |mixed| % 8 == 0
        invariant mixed + rest == old(mixed) + bytes
        invariant h == Fold(SEED, mixed)
        decreases |rest|
      {
        ghost var before := mixed + rest;
        MixWord(LeNat(rest[..8]));
        FoldWord(SEED, mixed, rest[..8]);
        mixed, rest := mixed + rest[..8], rest[8..];
        assert mixed + rest == before;
      }
    }

    /** Top up a partly filled buffer, mixing it in once it holds a whole word. */
    method FillBuffer(bytes: seq<byte>) returns (rest: seq<byte>)
      requires Aligned() && bufLen > 0
      modifies this`h, this`mixed, this`bufLen, buf
      ensures Aligned() && Seen() + rest == old(Seen()) + bytes
      ensures bufLen == 0 || rest == []
    {
      var take := if 8 - bufLen < |bytes| then 8 - bufLen else |bytes|;
      Hold(bytes[..take]);
      rest := bytes[take..];
      assert Seen() + rest == old(Seen()) + bytes;
      if bufLen == 8 {
        MixWord(LeNat(buf[..8]));
        FoldWord(SEED, mixed, buf[..8]);
        mixed := mixed + buf[..8];
        bufLen := 0;
      }
    }

    method Update(bytes: seq<byte>)
      requires Valid()
      modifies this, buf
      ensures Valid() && Seen() == old(Seen()) + bytes
    {
      WrappingSum(|Seen()|, |bytes|);
      total := (total + |bytes|) % U64_LIMIT;
      ghost var all := Seen() + bytes;
      assert total == |all| % U64_LIMIT;
      var rest := bytes;
      if bufLen > 0 {
        rest := FillBuffer(bytes);
        if bufLen > 0 {
          assert Seen() == all;
          return;
        }
      }
      assert mixed + rest == all;
      rest := MixWords(rest);
      Hold(rest);
      assert buf[..bufLen] == rest;
      assert Seen() == all;
    }

    method Finish() returns (sum: nat)
      requires Valid()
      modifies this`h
      ensures sum == Checksum(Seen())
    {
      ghost var held := buf[..bufLen];
      FoldConcat(SEED, mixed, held);
      if bufLen > 0 {
        var tail := buf[..bufLen] + seq(8 - bufLen, _ => 0);
        LeNatPadded(held, 8 - bufLen);
        MixWord(LeNat(tail));
      }
      assert h == Fold(SEED, Seen());
      MixWord(total);
      sum := h;
    }
  }

  lemma WrappingSum(a: nat, b: nat)
    ensures (a % U64_LIMIT + b) % U64_LIMIT == (a + b) % U64_LIMIT
  {
  }

  lemma NextMultiple(n: nat)
    requires n % 8 == 0
    ensures (n + 8) % 8 == 0
  {
  }

  lemma FoldWord(h: nat, done: seq<byte>, word: seq<byte>)
    requires |done| % 8 == 0 && |word| == 8
    ensures Fold(h, done + word) == Mix(Fold(h, done), LeNat(word))
    ensures |done + word| % 8 == 0
  {
    NextMultiple(|done|);
    FoldConcat(h, done, word);
    assert word[..8] == word && word[8..] == [];
  }

  /** The checksum of `bytes` in one pass, for a mapped file. */
  method ChecksumOf(bytes: seq<byte>) returns (sum: nat)
    ensures sum == Checksum(bytes)
  {
    var s := new Sum64();
    s.Update(bytes);
    assert s.Seen() == bytes;
    sum := s.Finish();
  }
}
