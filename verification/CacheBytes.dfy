/** Arrays of fixed-width little-endian words, and the checksumming writer both cache files go through. */
module CacheBytes {
  import opened Words
  import opened Json
  import opened Checksums

  /** A database's 128-bit identity. */
  type DbId = b: seq<byte> | |b| == 16 witness [0, 0, 0, 0, 0, 0, 0, 0, 0, 0, 0, 0, 0, 0, 0, 0]

  /** Element widths in bytes. */
  type Width = w: nat | w == 1 || w == 4 || w == 8 witness 1

  /** The bytes `n` elements of width `w` take. */
  function Span(n: nat, w: Width): nat {
    if w == 8 then 8 * n else if w == 4 then 4 * n else n
  }

  predicate Fits(vs: seq<nat>, w: Width) {
    forall i :: 0 <= i < |vs| ==> vs[i] < Pow256(w)
  }

  /** The elements one after another. */
  function Enc(vs: seq<nat>, w: Width): (b: seq<byte>)
    ensures |b| == Span(|vs|, w)
  {
    if vs == [] then [] else Enc(vs[..|vs| - 1], w) + LeBytes(vs[|vs| - 1], w)
  }

  function EncU64s(vs: seq<u64>): (b: seq<byte>)
    ensures |b| == 8 * |vs|
  {
    Enc(vs, 8)
  }

  function EncU32s(vs: seq<u32>): (b: seq<byte>)
    ensures |b| == 4 * |vs|
  {
    Enc(vs, 4)
  }

  /** `n` elements read from the start of `b`. */
  function Dec(b: seq<byte>, n: nat, w: Width): (vs: seq<nat>)
    requires Span(n, w) <= |b|
    ensures |vs| == n && Fits(vs, w)
  {
    if n == 0 then [] else Dec(b, n - 1, w) + [LeNat(b[Span(n - 1, w)..Span(n, w)])]
  }

  lemma Middle(a: seq<byte>, b: seq<byte>, c: seq<byte>)
    ensures (a + b + c)[|a|..|a| + |b|] == b && (a + b + c)[..|a|] == a && (a + b)[|a|..] == b
  {
  }

  lemma DropFirst(a: seq<byte>, b: seq<byte>, c: seq<byte>)
    ensures (a + b + c)[|a|..] == b + c
  {
  }

  lemma Assoc(a: seq<byte>, b: seq<byte>, c: seq<byte>)
    ensures a + b + c == a + (b + c)
  {
  }

  lemma SplitPrefix(p: seq<byte>, file: seq<byte>)
    requires p <= file
    ensures file == p + file[|p|..]
  {
  }

  lemma {:induction false} DecOfPrefix(b: seq<byte>, more: seq<byte>, n: nat, w: Width)
    requires Span(n, w) <= |b|
    ensures Dec(b + more, n, w) == Dec(b, n, w)
  {
    hide LeNat;
    if n > 0 {
      DecOfPrefix(b, more, n - 1, w);
      assert (b + more)[Span(n - 1, w)..Span(n, w)] == b[Span(n - 1, w)..Span(n, w)];
    }
  }

  /** One more element. */
  lemma DecAppend(b: seq<byte>, word: seq<byte>, n: nat, w: Width)
    requires Span(n, w) == |b| && |word| == w
    ensures Span(n + 1, w) == |b + word|
    ensures Dec(b + word, n + 1, w) == Dec(b, n, w) + [LeNat(word)]
  {
    DecOfPrefix(b, word, n, w);
    Middle(b, word, []);
    hide LeNat;
    assert b + word + [] == b + word;
  }

  lemma {:induction false} DecEnc(vs: seq<nat>, w: Width)
    requires Fits(vs, w)
    ensures Dec(Enc(vs, w), |vs|, w) == vs
  {
    hide LeBytes;
    hide LeNat;
    hide Pow256;
    if vs != [] {
      var init, last := vs[..|vs| - 1], vs[|vs| - 1];
      DecEnc(init, w);
      LeNatLeBytes(last, w);
      DecAppend(Enc(init, w), LeBytes(last, w), |init|, w);
    }
  }

  lemma NothingEncoded(w: Width)
    ensures Enc([], w) == []
  {
  }

  lemma EncAppend(vs: seq<nat>, v: nat, w: Width)
    ensures Enc(vs + [v], w) == Enc(vs, w) + LeBytes(v, w)
  {
    hide LeBytes;
    assert (vs + [v])[..|vs|] == vs;
  }

  lemma Pow256Fits(v: nat)
    ensures v < 256 ==> v < Pow256(1)
    ensures v <= U32_MAX ==> v < Pow256(4)
    ensures v < U64_LIMIT ==> v < Pow256(8)
    ensures v < Pow256(4) ==> v <= U32_MAX
    ensures v < Pow256(8) ==> v < U64_LIMIT
    ensures v < Pow256(1) ==> v < 256
  {
    Pow256Values();
  }

  lemma U64sFit(vs: seq<u64>)
    ensures Fits(vs, 8)
  {
    forall i | 0 <= i < |vs|
      ensures vs[i] < Pow256(8)
    {
      Pow256Fits(vs[i]);
    }
  }

  lemma U32sFit(vs: seq<u32>)
    ensures Fits(vs, 4)
  {
    forall i | 0 <= i < |vs|
      ensures vs[i] < Pow256(4)
    {
      Pow256Fits(vs[i]);
    }
  }

  lemma BytesFit(vs: seq<byte>)
    ensures Fits(vs, 1)
  {
    forall i | 0 <= i < |vs|
      ensures vs[i] < Pow256(1)
    {
      Pow256Fits(vs[i]);
    }
  }

  // ---------------------------------------------------------------- views of a mapped file

  /** A view of `n` elements at `offset`: `None` out of bounds or misaligned. A mapping starts page-aligned. */
  function Mapped(file: seq<byte>, offset: nat, n: nat, w: Width): (r: Option<seq<nat>>)
    ensures r.Some? <==> offset + Span(n, w) <= |file| && offset % w == 0
    ensures r.Some? ==> |r.value| == n && Fits(r.value, w)
  {
    if offset + Span(n, w) <= |file| && offset % w == 0 then Some(Dec(file[offset..], n, w)) else None
  }

  /** An array written after `before` is mapped back. */
  lemma MappedWritten(file: seq<byte>, before: seq<byte>, vs: seq<nat>, w: Width)
    requires before + Enc(vs, w) <= file && Fits(vs, w) && |before| % w == 0
    ensures Mapped(file, |before|, |vs|, w) == Some(vs)
  {
    var e := Enc(vs, w);
    var after := file[|before + e|..];
    SplitPrefix(before + e, file);
    DropFirst(before, e, after);
    DecOfPrefix(e, after, |vs|, w);
    DecEnc(vs, w);
    hide Enc;
    hide Dec;
    hide Fits;
    assert file[|before|..] == e + after;
  }

  function AsU64s(vs: seq<nat>): (r: seq<u64>)
    requires Fits(vs, 8)
    ensures r == vs
  {
    Pow256Values();
    vs
  }

  function AsU32s(vs: seq<nat>): (r: seq<u32>)
    requires Fits(vs, 4)
    ensures r == vs
  {
    Pow256Values();
    vs
  }

  function AsBytes(vs: seq<nat>): (r: seq<byte>)
    requires Fits(vs, 1)
    ensures r == vs
  {
    Pow256Values();
    vs
  }

  function MappedU64s(file: seq<byte>, offset: nat, n: nat): Option<seq<u64>> {
    var r := Mapped(file, offset, n, 8);
    if r.Some? then Some(AsU64s(r.value)) else None
  }

  function MappedU32s(file: seq<byte>, offset: nat, n: nat): Option<seq<u32>> {
    var r := Mapped(file, offset, n, 4);
    if r.Some? then Some(AsU32s(r.value)) else None
  }

  /** An array of `k` elements of width `w` lies inside the body and starts aligned. */
  predicate Placed(offset: nat, k: nat, w: Width, bodyLen: nat) {
    offset + Span(k, w) <= bodyLen && offset % w == 0
  }

  // The mapped array at an offset is this one.

  ghost predicate U64sAt(file: seq<byte>, offset: nat, vs: seq<u64>) {
    MappedU64s(file, offset, |vs|) == Some(vs)
  }

  ghost predicate U32sAt(file: seq<byte>, offset: nat, vs: seq<u32>) {
    MappedU32s(file, offset, |vs|) == Some(vs)
  }

  lemma U64sWritten(file: seq<byte>, before: seq<byte>, vs: seq<u64>, offset: nat, bodyLen: nat)
    requires Begins(file, before + EncU64s(vs)) && |before| == offset && Placed(offset, |vs|, 8, bodyLen)
    ensures U64sAt(file, offset, vs)
  {
    hide LeBytes;
    hide Pow256;
    hide Enc;
    hide Dec;
    hide Fits;
    U64sFit(vs);
    MappedWritten(file, before, vs, 8);
  }

  lemma U32sWritten(file: seq<byte>, before: seq<byte>, vs: seq<u32>, offset: nat, bodyLen: nat)
    requires Begins(file, before + EncU32s(vs)) && |before| == offset && Placed(offset, |vs|, 4, bodyLen)
    ensures U32sAt(file, offset, vs)
  {
    hide LeBytes;
    hide Pow256;
    hide Enc;
    hide Dec;
    hide Fits;
    U32sFit(vs);
    MappedWritten(file, before, vs, 4);
  }

  /** The file starts with these bytes. */
  ghost predicate Begins(file: seq<byte>, p: seq<byte>) {
    p <= file
  }

  lemma BeginsShorter(file: seq<byte>, p: seq<byte>, e: seq<byte>)
    requires Begins(file, p + e)
    ensures Begins(file, p)
  {
  }

  /** The number at `offset`, or `None` past the end. */
  function U64At(bytes: seq<byte>, offset: nat): (r: Option<u64>)
    ensures r.Some? <==> offset + 8 <= |bytes|
  {
    if offset + 8 <= |bytes| then
      Pow256Fits(LeNat(bytes[offset..offset + 8]));
      Some(LeNat(bytes[offset..offset + 8]))
    else None
  }

  lemma U64Written(file: seq<byte>, before: seq<byte>, v: u64)
    requires Begins(file, before + LeBytes(v, 8))
    ensures U64At(file, |before|) == Some(v)
  {
    assert file[|before|..|before| + 8] == LeBytes(v, 8);
    Pow256Fits(v);
    LeNatLeBytes(v, 8);
  }

  function Align8(n: nat): (m: nat)
    ensures m % 8 == 0 && n <= m < n + 8
  {
    (n + 7) / 8 * 8
  }

  function Zeros(n: nat): (z: seq<byte>)
    ensures |z| == n && forall i :: 0 <= i < n ==> z[i] == 0
  {
    seq(n, _ => 0)
  }

  // ---------------------------------------------------------------- the writer

  /** A file being written, with the checksum of everything put so far. */
  class SumWriter {
    var out: seq<byte>
    const sum: Sum64

    ghost predicate Valid()
      reads this, sum, sum.buf
    {
      sum.Valid() && sum.Seen() == out
    }

    constructor ()
      ensures Valid() && fresh(sum) && fresh(sum.buf) && out == []
    {
      sum := new Sum64();
      out := [];
    }

    method Put(bytes: seq<byte>)
      requires Valid()
      modifies this, sum, sum.buf
      ensures Valid() && out == old(out) + bytes
    {
      sum.Update(bytes);
      out := out + bytes;
    }

    method PutU64(v: u64)
      requires Valid()
      modifies this, sum, sum.buf
      ensures Valid() && out == old(out) + LeBytes(v, 8)
    {
      Put(LeBytes(v, 8));
    }

    /** Each element's little-endian bytes in turn. */
    method PutWords(vs: seq<nat>, w: Width)
      requires Valid()
      modifies this, sum, sum.buf
      ensures Valid() && out == old(out) + Enc(vs, w)
    {
      hide Enc;
      hide LeBytes;
      assert Enc(vs[..0], w) == [] by { NothingEncoded(w); }
      for i := 0 to |vs|
        invariant Valid() && out == old(out) + Enc(vs[..i], w)
      {
        Put(LeBytes(vs[i], w));
        assert vs[..i + 1] == vs[..i] + [vs[i]];
        EncAppend(vs[..i], vs[i], w);
        Assoc(old(out), Enc(vs[..i], w), LeBytes(vs[i], w));
      }
      assert vs[..|vs|] == vs;
    }

    method PutU64s(vs: seq<u64>)
      requires Valid()
      modifies this, sum, sum.buf
      ensures Valid() && out == old(out) + EncU64s(vs)
    {
      PutWords(vs, 8);
    }

    method PutU32s(vs: seq<u32>)
      requires Valid()
      modifies this, sum, sum.buf
      ensures Valid() && out == old(out) + EncU32s(vs)
    {
      PutWords(vs, 4);
    }

    /** Zero bytes up to the next multiple of 8 after `written` bytes. */
    method PadTo8(written: nat)
      requires Valid()
      modifies this, sum, sum.buf
      ensures Valid() && out == old(out) + Zeros(Align8(written) - written)
    {
      Put(Zeros(Align8(written) - written));
    }

    /** Append the checksum of everything put. */
    method Finish()
      requires Valid()
      modifies this, sum, sum.buf
      ensures out == Sealed(old(out))
    {
      var c := sum.Finish();
      out := out + LeBytes(c, 8);
    }
  }

  /** A body followed by its checksum. */
  function Sealed(body: seq<byte>): seq<byte> {
    body + LeBytes(Checksum(body), 8)
  }

  /** Whether the last 8 bytes are the checksum of what precedes them. */
  predicate SealIntact(file: seq<byte>)
    requires |file| >= 8
  {
    U64At(file, |file| - 8) == Some(Checksum(file[..|file| - 8]))
  }

  lemma SealedIntact(body: seq<byte>)
    ensures SealIntact(Sealed(body))
  {
    ChecksumBound(body);
    U64Written(Sealed(body), body, Checksum(body));
    assert Sealed(body)[..|body|] == body;
  }

  /** A sealed file with one aligned word of its body changed is not intact. */
  lemma ChangedWordBreaksSeal(body: seq<byte>, file: seq<byte>, k: nat)
    requires |file| == |body| + 8 && file[|body|..] == LeBytes(Checksum(body), 8)
    requires DifferOnlyInWord(body, file[..|body|], k) && body != file[..|body|]
    ensures !SealIntact(file)
  {
    ChecksumDetects(body, file[..|body|], k);
    ChecksumBound(body);
    hide Checksum;
    hide LeBytes;
    assert file == file[..|body|] + LeBytes(Checksum(body), 8);
    U64Written(file, file[..|body|], Checksum(body));
  }
}
