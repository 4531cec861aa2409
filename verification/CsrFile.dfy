/** The cache file of the adjacency snapshot: writing it, its exact length, and mapping it back. */
module CsrFile {
  import opened Words
  import opened Json
  import opened Checksums
  import opened CacheBytes
  import ColumnParts
  import DenseIndex

  /** "ISSNCSR1". */
  const MAGIC: seq<byte> := [0x49, 0x53, 0x53, 0x4E, 0x43, 0x53, 0x52, 0x31]

  const HEADER_LEN: nat := 56
  const MAX_SNAPSHOT_EDGES: nat := U32_MAX

  /** The arrays of a snapshot; a weight is its bits. */
  datatype Csr = Csr(
    denseToId: seq<u64>, rowPtr: seq<u64>, colIdx: seq<u32>, edgeType: seq<u32>, edgeId: seq<u64>,
    inRowPtr: seq<u64>, inColIdx: seq<u32>, inEdgeType: seq<u32>, inPos: seq<u32>,
    edgeWeight: Option<seq<u64>>, hasNegativeWeight: bool)

  /** Row pointers are one longer than the nodes, every edge array covers every edge. */
  predicate Shaped(c: Csr) {
    var n, e := |c.denseToId|, |c.colIdx|;
    && |c.rowPtr| == n + 1 && |c.inRowPtr| == n + 1
    && |c.edgeType| == e && |c.edgeId| == e && |c.inColIdx| == e && |c.inEdgeType| == e && |c.inPos| == e
    && (c.edgeWeight.Some? ==> |c.edgeWeight.value| == e)
  }

  // ---------------------------------------------------------------- the length of the file

  /** As little as makes the weights start at a multiple of eight. */
  function WeightPadding(e: nat): (p: nat)
    ensures p < 8 && (28 * e + p) % 8 == 0
  {
    if e % 2 == 1 then 4 else 0
  }

  /** Where everything is, with no bound on the numbers: the offset after the nine fixed arrays. */
  function FixedEnd(n: nat, e: nat): nat {
    HEADER_LEN + 8 * n + 2 * (8 * (n + 1)) + 8 * e + 5 * (4 * e)
  }

  function BodyLen(n: nat, e: nat, weighted: bool): nat {
    FixedEnd(n, e) + if weighted then WeightPadding(e) + 8 * e else 0
  }

  function CheckedAdd(a: u64, b: u64): Option<u64> {
    if a + b < U64_LIMIT then Some(a + b) else None
  }

  /** `checked_mul` by one of the small constants the code uses. */
  function CheckedMul(a: u64, k: nat): Option<u64>
    requires k == 2 || k == 4 || k == 5 || k == 8
  {
    var product := if k == 2 then 2 * a else if k == 4 then 4 * a else if k == 5 then 5 * a else 8 * a;
    if product < U64_LIMIT then Some(product) else None
  }

  /** Each step's overflow check, in the code's order. */
  method CsrFileLen(n: u64, e: u64, weighted: bool) returns (r: Option<u64>)
    ensures r == ExactLen(n, e, weighted)
  {
    var total: u64 := HEADER_LEN + 8;
    var rows := CheckedAdd(n, 1);
    if rows == None { return None; }
    var pointers := CheckedMul(rows.value, 2);
    if pointers == None { return None; }
    var elems := CheckedAdd(n, pointers.value);
    if elems == None { return None; }
    elems := CheckedAdd(elems.value, e);
    if elems == None { return None; }
    var wide := CheckedMul(elems.value, 8);
    if wide == None { return None; }
    var sum := CheckedAdd(total, wide.value);
    if sum == None { return None; }
    var narrow := CheckedMul(e, 4);
    if narrow == None { return None; }
    narrow := CheckedMul(narrow.value, 5);
    if narrow == None { return None; }
    sum := CheckedAdd(sum.value, narrow.value);
    if sum == None { return None; }
    if weighted {
      sum := CheckedAdd(sum.value, WeightPadding(e));
      if sum == None { return None; }
      var weights := CheckedMul(e, 8);
      if weights == None { return None; }
      sum := CheckedAdd(sum.value, weights.value);
    }
    r := sum;
  }

  /** The true length, `None` exactly when it does not fit 64 bits. */
  function ExactLen(n: nat, e: nat, weighted: bool): Option<u64> {
    if BodyLen(n, e, weighted) + 8 < U64_LIMIT then Some(BodyLen(n, e, weighted) + 8) else None
  }

  // ---------------------------------------------------------------- writing

  function FlagsOf(c: Csr): u64 {
    (if c.edgeWeight.Some? then 1 else 0) + if c.hasNegativeWeight then 2 else 0
  }

  function Header(c: Csr, db: DbId, gen: u64): seq<byte> {
    MAGIC + db + LeBytes(gen, 8) + LeBytes(FlagsOf(c), 8) + LeBytes(|c.denseToId|, 8) + LeBytes(|c.colIdx|, 8)
  }

  /** The nine fixed arrays in their order, after the header. */
  function FixedArrays(c: Csr, db: DbId, gen: u64): seq<byte> {
    Header(c, db, gen)
    + EncU64s(c.denseToId) + EncU64s(c.rowPtr) + EncU32s(c.colIdx) + EncU32s(c.edgeType) + EncU64s(c.edgeId)
    + EncU64s(c.inRowPtr) + EncU32s(c.inColIdx) + EncU32s(c.inEdgeType) + EncU32s(c.inPos)
  }

  function Body(c: Csr, db: DbId, gen: u64): seq<byte> {
    if c.edgeWeight.Some? then
      FixedArrays(c, db, gen) + Zeros(WeightPadding(|c.colIdx|)) + EncU64s(c.edgeWeight.value)
    else FixedArrays(c, db, gen)
  }

  function CsrBytes(c: Csr, db: DbId, gen: u64): seq<byte> {
    Sealed(Body(c, db, gen))
  }

  method PutHeader(w: SumWriter, c: Csr, db: DbId, gen: u64)
    requires w.Valid() && w.out == [] && |c.denseToId| < U64_LIMIT && |c.colIdx| < U64_LIMIT
    modifies w, w.sum, w.sum.buf
    ensures w.Valid() && w.out == Header(c, db, gen)
  {
    hide EncU64s;
    hide EncU32s;
    hide LeBytes;
    hide FlagsOf;
    hide SumWriter.Valid;
    w.Put(MAGIC);
    w.Put(db);
    w.PutU64(gen);
    w.PutU64(FlagsOf(c));
    w.PutU64(|c.denseToId|);
    w.PutU64(|c.colIdx|);
  }

  method PutFixedArrays(w: SumWriter, c: Csr, ghost db: DbId, ghost gen: u64)
    requires w.Valid() && w.out == Header(c, db, gen)
    modifies w, w.sum, w.sum.buf
    ensures w.Valid() && w.out == FixedArrays(c, db, gen)
  {
    hide EncU64s;
    hide EncU32s;
    hide Header;
    hide SumWriter.Valid;
    w.PutU64s(c.denseToId);
    w.PutU64s(c.rowPtr);
    w.PutU32s(c.colIdx);
    w.PutU32s(c.edgeType);
    w.PutU64s(c.edgeId);
    w.PutU64s(c.inRowPtr);
    w.PutU32s(c.inColIdx);
    w.PutU32s(c.inEdgeType);
    w.PutU32s(c.inPos);
  }

  method SaveCsr(c: Csr, db: DbId, gen: u64) returns (file: seq<byte>)
    requires Shaped(c) && ExactLen(|c.denseToId|, |c.colIdx|, c.edgeWeight.Some?).Some?
    ensures file == CsrBytes(c, db, gen)
  {
    hide EncU64s;
    hide EncU32s;
    hide Header;
    hide FixedArrays;
    hide Sealed;
    hide Zeros;
    hide SumWriter.Valid;
    var w := new SumWriter();
    PutHeader(w, c, db, gen);
    PutFixedArrays(w, c, db, gen);
    if c.edgeWeight.Some? {
      w.Put(Zeros(WeightPadding(|c.colIdx|)));
      w.PutU64s(c.edgeWeight.value);
    }
    w.Finish();
    file := w.out;
  }

  // ---------------------------------------------------------------- mapping it back

  /** What the fixed header says, when it is this format's, this database's and this generation's. */
  function ReadHeader(file: seq<byte>, db: DbId, gen: u64): (r: Option<(u64, u64, u64)>)
    ensures r.Some? ==> |file| >= HEADER_LEN + 8
  {
    if |file| < HEADER_LEN + 8 then None
    else if file[..8] != MAGIC || file[8..24] != db then None
    else if U64At(file, 24) != Some(gen) then None
    else Some((U64At(file, 32).value, U64At(file, 40).value, U64At(file, 48).value))
  }

  /** The flag bits. */
  predicate WeightedFlag(flags: u64) { flags % 2 == 1 }

  predicate NegativeFlag(flags: u64) { flags / 2 % 2 == 1 }

  /** What the loader checks before it maps an array. */
  predicate Acceptable(file: seq<byte>, flags: u64, n: u64, e: u64, wantWeights: bool)
    requires |file| >= 8
  {
    && (wantWeights ==> WeightedFlag(flags))
    && ExactLen(n, e, WeightedFlag(flags)) == Some(|file|)
    && SealIntact(file) && e <= MAX_SNAPSHOT_EDGES
  }

  lemma Multiple(a: nat, k: nat)
    ensures 8 * a % 8 == 0 && 4 * k % 4 == 0
  {
  }

  /** Every fixed array starts aligned for its element and ends inside the body. */
  lemma FixedArraysPlaced(n: nat, e: nat, len: nat)
    requires FixedEnd(n, e) <= len
    ensures Placed(56, n, 8, len) && Placed(56 + 8 * n, n + 1, 8, len)
    ensures Placed(64 + 16 * n, e, 4, len) && Placed(64 + 16 * n + 4 * e, e, 4, len)
    ensures Placed(64 + 16 * n + 8 * e, e, 8, len) && Placed(64 + 16 * n + 16 * e, n + 1, 8, len)
    ensures Placed(72 + 24 * n + 16 * e, e, 4, len) && Placed(72 + 24 * n + 20 * e, e, 4, len)
    ensures Placed(72 + 24 * n + 24 * e, e, 4, len)
  {
    Multiple(7 + n, 16 + 4 * n);
    Multiple(8 + 2 * n + e, 16 + 4 * n + e);
    Multiple(8 + 2 * n + 2 * e, 18 + 6 * n + 4 * e);
    Multiple(0, 18 + 6 * n + 5 * e);
    Multiple(0, 18 + 6 * n + 6 * e);
  }

  /** So do the weights: the padding makes up for an odd number of edges. */
  lemma WeightsPlaced(n: nat, e: nat)
    ensures Placed(72 + 24 * n + 28 * e + WeightPadding(e), e, 8, BodyLen(n, e, true))
  {
    var half := e / 2;
    if e % 2 == 1 {
      assert 28 * e + 4 == 8 * (7 * half + 4);
      Multiple(9 + 3 * n + 7 * half + 4, 0);
    } else {
      assert 28 * e == 8 * (7 * half);
      Multiple(9 + 3 * n + 7 * half, 0);
    }
  }

  lemma NodesMapped(file: seq<byte>, n: nat, e: nat)
    requires |file| >= FixedEnd(n, e) + 8
    ensures MappedU64s(file, 56, n).Some? && MappedU64s(file, 56 + 8 * n, n + 1).Some?
  {
    FixedArraysPlaced(n, e, |file| - 8);
  }

  lemma EdgesMapped(file: seq<byte>, n: nat, e: nat)
    requires |file| >= FixedEnd(n, e) + 8
    ensures MappedU32s(file, 64 + 16 * n, e).Some? && MappedU32s(file, 64 + 16 * n + 4 * e, e).Some?
    ensures MappedU64s(file, 64 + 16 * n + 8 * e, e).Some?
  {
    FixedArraysPlaced(n, e, |file| - 8);
  }

  lemma IncomingMapped(file: seq<byte>, n: nat, e: nat)
    requires |file| >= FixedEnd(n, e) + 8
    ensures MappedU64s(file, 64 + 16 * n + 16 * e, n + 1).Some?
    ensures MappedU32s(file, 72 + 24 * n + 16 * e, e).Some? && MappedU32s(file, 72 + 24 * n + 20 * e, e).Some?
    ensures MappedU32s(file, 72 + 24 * n + 24 * e, e).Some?
  {
    FixedArraysPlaced(n, e, |file| - 8);
  }

  /** The arrays by the absolute place of each, in a file of exactly the right length. */
  function ArraysOf(file: seq<byte>, n: nat, e: nat, weighted: bool, negative: bool): (c: Csr)
    requires |file| == BodyLen(n, e, weighted) + 8
    ensures |c.denseToId| == n && |c.colIdx| == e && Shaped(c) && c.edgeWeight.Some? == weighted
  {
    NodesMapped(file, n, e);
    EdgesMapped(file, n, e);
    IncomingMapped(file, n, e);
    WeightsPlaced(n, e);
    Csr(
      MappedU64s(file, 56, n).value,
      MappedU64s(file, 56 + 8 * n, n + 1).value,
      MappedU32s(file, 64 + 16 * n, e).value,
      MappedU32s(file, 64 + 16 * n + 4 * e, e).value,
      MappedU64s(file, 64 + 16 * n + 8 * e, e).value,
      MappedU64s(file, 64 + 16 * n + 16 * e, n + 1).value,
      MappedU32s(file, 72 + 24 * n + 16 * e, e).value,
      MappedU32s(file, 72 + 24 * n + 20 * e, e).value,
      MappedU32s(file, 72 + 24 * n + 24 * e, e).value,
      if weighted then MappedU64s(file, 72 + 24 * n + 28 * e + WeightPadding(e), e) else None,
      negative)
  }

  function LoadedCsr(file: seq<byte>, db: DbId, gen: u64, wantWeights: bool): Option<Csr> {
    var header := ReadHeader(file, db, gen);
    if header == None then None
    else
      var (flags, n, e) := header.value;
      if Acceptable(file, flags, n, e, wantWeights) then
        Some(ArraysOf(file, n, e, WeightedFlag(flags), NegativeFlag(flags)))
      else None
  }

  /** Check the header, the length and the checksum, then map array after array. */
  method LoadCsr(file: seq<byte>, db: DbId, gen: u64, wantWeights: bool) returns (r: Option<Csr>)
    ensures r == LoadedCsr(file, db, gen, wantWeights)
  {
    if |file| < HEADER_LEN + 8 {
      return None;
    }
    if file[..8] != MAGIC || file[8..24] != db {
      return None;
    }
    if U64At(file, 24) != Some(gen) {
      return None;
    }
    var flags := U64At(file, 32).value;
    var weighted := WeightedFlag(flags);
    if wantWeights && !weighted {
      return None;
    }
    var n, e := U64At(file, 40).value, U64At(file, 48).value;
    var expected := CsrFileLen(n, e, weighted);
    if expected != Some(|file|) {
      return None;
    }
    var sum := ChecksumOf(file[..|file| - 8]);
    if U64At(file, |file| - 8) != Some(sum) {
      return None;
    }
    if e > MAX_SNAPSHOT_EDGES {
      return None;
    }
    var c := MapArrays(file, n, e, weighted, NegativeFlag(flags));
    r := Some(c);
  }

  /** A loaded snapshot with the index of its node ids, which is derived, not stored. */
  method LoadSnapshot(file: seq<byte>, db: DbId, gen: u64, wantWeights: bool)
    returns (r: Option<(Csr, DenseIndex.Index)>)
    ensures r == None <==> LoadedCsr(file, db, gen, wantWeights) == None
    ensures r.Some? ==> LoadedCsr(file, db, gen, wantWeights) == Some(r.value.0) && fresh(r.value.1)
    ensures r.Some? && Indexable(r.value.0.denseToId) ==> DenseIndex.Exact(r.value.1.rep, r.value.0.denseToId)
  {
    hide *;
    var c := LoadCsr(file, db, gen, wantWeights);
    r := None;
    if c.Some? {
      var index := new DenseIndex.Index.FromIds(c.value.denseToId);
      r := Some((c.value, index));
      IndexableIs(c.value.denseToId);
    }
  }

  /** Distinct ids, few enough to number in 32 bits, that do not wrap past the largest one. */
  ghost predicate Indexable(ids: seq<u64>) {
    |ids| <= U32_MAX && ColumnParts.Distinct(ids) && !DenseIndex.WrapsAround(ids)
  }

  lemma IndexableIs(ids: seq<u64>)
    ensures Indexable(ids) <==> |ids| <= U32_MAX && ColumnParts.Distinct(ids) && !DenseIndex.WrapsAround(ids)
  {
  }

  /** The outgoing half, up to the edge ids. */
  ghost predicate OutgoingAre(file: seq<byte>, n: nat, e: nat, c: Csr) {
    && Some(c.denseToId) == MappedU64s(file, 56, n) && Some(c.rowPtr) == MappedU64s(file, 56 + 8 * n, n + 1)
    && Some(c.colIdx) == MappedU32s(file, 64 + 16 * n, e)
    && Some(c.edgeType) == MappedU32s(file, 64 + 16 * n + 4 * e, e)
    && Some(c.edgeId) == MappedU64s(file, 64 + 16 * n + 8 * e, e)
  }

  /** The incoming half, up to the positions. */
  ghost predicate IncomingAre(file: seq<byte>, n: nat, e: nat, c: Csr) {
    && Some(c.inRowPtr) == MappedU64s(file, 64 + 16 * n + 16 * e, n + 1)
    && Some(c.inColIdx) == MappedU32s(file, 72 + 24 * n + 16 * e, e)
    && Some(c.inEdgeType) == MappedU32s(file, 72 + 24 * n + 20 * e, e)
    && Some(c.inPos) == MappedU32s(file, 72 + 24 * n + 24 * e, e)
  }

  ghost predicate WeightsAre(file: seq<byte>, n: nat, e: nat, weighted: bool, c: Csr) {
    c.edgeWeight == if weighted then MappedU64s(file, 72 + 24 * n + 28 * e + WeightPadding(e), e) else None
  }

  method MapNodes(file: seq<byte>, n: nat, ghost e: nat)
    returns (denseToId: seq<u64>, rowPtr: seq<u64>, offset: nat)
    requires |file| >= FixedEnd(n, e) + 8
    ensures Some(denseToId) == MappedU64s(file, 56, n) && Some(rowPtr) == MappedU64s(file, 56 + 8 * n, n + 1)
    ensures offset == 64 + 16 * n
  {
    NodesMapped(file, n, e);
    assert HEADER_LEN == 56;
    hide *;
    offset := HEADER_LEN;
    denseToId := MappedU64s(file, offset, n).value;
    offset := offset + 8 * n;
    rowPtr := MappedU64s(file, offset, n + 1).value;
    offset := offset + 8 * (n + 1);
  }

  method MapEdges(file: seq<byte>, n: nat, e: nat, at: nat)
    returns (colIdx: seq<u32>, edgeType: seq<u32>, edgeId: seq<u64>, offset: nat)
    requires |file| >= FixedEnd(n, e) + 8 && at == 64 + 16 * n
    ensures Some(colIdx) == MappedU32s(file, 64 + 16 * n, e)
    ensures Some(edgeType) == MappedU32s(file, 64 + 16 * n + 4 * e, e)
    ensures Some(edgeId) == MappedU64s(file, 64 + 16 * n + 8 * e, e)
    ensures offset == 64 + 16 * n + 16 * e
  {
    EdgesMapped(file, n, e);
    hide *;
    offset := at;
    colIdx := MappedU32s(file, offset, e).value;
    offset := offset + 4 * e;
    edgeType := MappedU32s(file, offset, e).value;
    offset := offset + 4 * e;
    assert offset == 64 + 16 * n + 8 * e;
    edgeId := MappedU64s(file, offset, e).value;
    offset := offset + 8 * e;
  }

  method MapOutgoing(file: seq<byte>, n: nat, e: nat, c: Csr) returns (r: Csr, offset: nat)
    requires |file| >= FixedEnd(n, e) + 8
    ensures r == c.(denseToId := r.denseToId, rowPtr := r.rowPtr, colIdx := r.colIdx, edgeType := r.edgeType,
                    edgeId := r.edgeId)
    ensures OutgoingAre(file, n, e, r) && offset == 64 + 16 * n + 16 * e
  {
    hide *;
    var denseToId, rowPtr, colIdx, edgeType, edgeId;
    denseToId, rowPtr, offset := MapNodes(file, n, e);
    colIdx, edgeType, edgeId, offset := MapEdges(file, n, e, offset);
    r := c.(denseToId := denseToId, rowPtr := rowPtr, colIdx := colIdx, edgeType := edgeType, edgeId := edgeId);
    OutgoingFound(file, n, e, r);
  }

  lemma OutgoingFound(file: seq<byte>, n: nat, e: nat, c: Csr)
    requires Some(c.denseToId) == MappedU64s(file, 56, n) && Some(c.rowPtr) == MappedU64s(file, 56 + 8 * n, n + 1)
    requires Some(c.colIdx) == MappedU32s(file, 64 + 16 * n, e)
    requires Some(c.edgeType) == MappedU32s(file, 64 + 16 * n + 4 * e, e)
    requires Some(c.edgeId) == MappedU64s(file, 64 + 16 * n + 8 * e, e)
    ensures OutgoingAre(file, n, e, c)
  {
  }

  method MapIncoming(file: seq<byte>, n: nat, e: nat, at: nat, c: Csr) returns (r: Csr, offset: nat)
    requires |file| >= FixedEnd(n, e) + 8 && at == 64 + 16 * n + 16 * e
    ensures r == c.(inRowPtr := r.inRowPtr, inColIdx := r.inColIdx, inEdgeType := r.inEdgeType, inPos := r.inPos)
    ensures IncomingAre(file, n, e, r) && offset == 72 + 24 * n + 28 * e
  {
    IncomingMapped(file, n, e);
    hide *;
    offset := at;
    var inRowPtr := MappedU64s(file, offset, n + 1).value;
    offset := offset + 8 * (n + 1);
    assert offset == 72 + 24 * n + 16 * e;
    var inColIdx, inEdgeType, inPos;
    assert offset + 4 * e == 72 + 24 * n + 20 * e && offset + 8 * e == 72 + 24 * n + 24 * e;
    inColIdx, inEdgeType, inPos, offset := MapThree(file, offset, e);
    r := c.(inRowPtr := inRowPtr, inColIdx := inColIdx, inEdgeType := inEdgeType, inPos := inPos);
    IncomingFound(file, n, e, r);
  }

  /** Three arrays one after another. */
  method MapThree(file: seq<byte>, at: nat, e: nat) returns (a: seq<u32>, b: seq<u32>, c: seq<u32>, offset: nat)
    requires MappedU32s(file, at, e).Some? && MappedU32s(file, at + 4 * e, e).Some?
    requires MappedU32s(file, at + 8 * e, e).Some?
    ensures Some(a) == MappedU32s(file, at, e) && Some(b) == MappedU32s(file, at + 4 * e, e)
    ensures Some(c) == MappedU32s(file, at + 8 * e, e) && offset == at + 12 * e
  {
    hide *;
    offset := at;
    a := MappedU32s(file, offset, e).value;
    offset := offset + 4 * e;
    b := MappedU32s(file, offset, e).value;
    offset := offset + 4 * e;
    c := MappedU32s(file, offset, e).value;
    offset := offset + 4 * e;
  }

  lemma IncomingFound(file: seq<byte>, n: nat, e: nat, c: Csr)
    requires Some(c.inRowPtr) == MappedU64s(file, 64 + 16 * n + 16 * e, n + 1)
    requires Some(c.inColIdx) == MappedU32s(file, 72 + 24 * n + 16 * e, e)
    requires Some(c.inEdgeType) == MappedU32s(file, 72 + 24 * n + 20 * e, e)
    requires Some(c.inPos) == MappedU32s(file, 72 + 24 * n + 24 * e, e)
    ensures IncomingAre(file, n, e, c)
  {
  }

  /** Map the arrays at a running offset. Each is there and aligned: taking its value says so. */
  method MapArrays(file: seq<byte>, n: nat, e: nat, weighted: bool, negative: bool) returns (r: Csr)
    requires |file| == BodyLen(n, e, weighted) + 8
    ensures r == ArraysOf(file, n, e, weighted, negative)
  {
    BodyHoldsArrays(n, e, weighted);
    hide *;
    var offset;
    r := Csr([], [], [], [], [], [], [], [], [], None, negative);
    r, offset := MapOutgoing(file, n, e, r);
    ghost var outgoing := r;
    r, offset := MapIncoming(file, n, e, offset, r);
    ghost var incoming := r;
    offset := offset + if weighted then WeightPadding(e) else 0;
    r := r.(edgeWeight := if weighted then MappedU64s(file, offset, e) else None);
    SameHalves(file, n, e, outgoing, incoming, r);
    WeightsAtEnd(file, n, e, weighted, offset, r);
    ArraysOfIs(file, n, e, weighted, negative, r);
  }

  lemma BodyHoldsArrays(n: nat, e: nat, weighted: bool)
    ensures FixedEnd(n, e) <= BodyLen(n, e, weighted)
  {
  }

  lemma SameHalves(file: seq<byte>, n: nat, e: nat, outgoing: Csr, incoming: Csr, c: Csr)
    requires OutgoingAre(file, n, e, outgoing) && IncomingAre(file, n, e, incoming)
    requires incoming == outgoing.(inRowPtr := incoming.inRowPtr, inColIdx := incoming.inColIdx,
                                   inEdgeType := incoming.inEdgeType, inPos := incoming.inPos)
    requires c == incoming.(edgeWeight := c.edgeWeight)
    ensures OutgoingAre(file, n, e, c) && IncomingAre(file, n, e, c)
  {
  }

  lemma WeightsAtEnd(file: seq<byte>, n: nat, e: nat, weighted: bool, offset: nat, c: Csr)
    requires offset == 72 + 24 * n + 28 * e + if weighted then WeightPadding(e) else 0
    requires c.edgeWeight == if weighted then MappedU64s(file, offset, e) else None
    ensures WeightsAre(file, n, e, weighted, c)
  {
  }

  lemma ArraysOfIs(file: seq<byte>, n: nat, e: nat, weighted: bool, negative: bool, c: Csr)
    requires |file| == BodyLen(n, e, weighted) + 8
    requires OutgoingAre(file, n, e, c) && IncomingAre(file, n, e, c) && WeightsAre(file, n, e, weighted, c)
    requires c.hasNegativeWeight == negative
    ensures c == ArraysOf(file, n, e, weighted, negative)
  {
  }

  // ---------------------------------------------------------------- the round trip

  lemma HeaderLength(c: Csr, db: DbId, gen: u64)
    ensures |Header(c, db, gen)| == HEADER_LEN
  {
  }

  lemma BodyLength(c: Csr, db: DbId, gen: u64)
    requires Shaped(c)
    ensures |FixedArrays(c, db, gen)| == FixedEnd(|c.denseToId|, |c.colIdx|)
    ensures |Body(c, db, gen)| == BodyLen(|c.denseToId|, |c.colIdx|, c.edgeWeight.Some?)
  {
    hide Header;
    HeaderLength(c, db, gen);
  }

  /** The header of a file that starts with this header. */
  lemma HeaderRead(file: seq<byte>, c: Csr, db: DbId, gen: u64, db': DbId, gen': u64)
    requires Begins(file, Header(c, db, gen)) && |file| >= HEADER_LEN + 8
    requires |c.denseToId| < U64_LIMIT && |c.colIdx| < U64_LIMIT
    ensures ReadHeader(file, db', gen')
      == if db' == db && gen' == gen then Some((FlagsOf(c), |c.denseToId|, |c.colIdx|)) else None
  {
    hide Begins;
    hide LeBytes;
    var h1 := MAGIC + db;
    var h2 := h1 + LeBytes(gen, 8);
    var h3 := h2 + LeBytes(FlagsOf(c), 8);
    var h4 := h3 + LeBytes(|c.denseToId|, 8);
    var h5 := h4 + LeBytes(|c.colIdx|, 8);
    BeginsShorter(file, h4, LeBytes(|c.colIdx|, 8));
    BeginsShorter(file, h3, LeBytes(|c.denseToId|, 8));
    BeginsShorter(file, h2, LeBytes(FlagsOf(c), 8));
    BeginsShorter(file, h1, LeBytes(gen, 8));
    U64Written(file, h1, gen);
    U64Written(file, h2, FlagsOf(c));
    U64Written(file, h3, |c.denseToId|);
    U64Written(file, h4, |c.colIdx|);
    MagicAndIdentity(file, db);
  }

  lemma MagicAndIdentity(file: seq<byte>, db: DbId)
    requires Begins(file, MAGIC + db)
    ensures file[..8] == MAGIC && file[8..24] == db
  {
    SplitPrefix(MAGIC + db, file);
    Middle(MAGIC, db, file[24..]);
  }

  /** The outgoing arrays are at their places. */
  ghost predicate OutgoingAt(file: seq<byte>, c: Csr) {
    var n, e := |c.denseToId|, |c.colIdx|;
    && U64sAt(file, 56, c.denseToId) && U64sAt(file, 56 + 8 * n, c.rowPtr) && U32sAt(file, 64 + 16 * n, c.colIdx)
    && U32sAt(file, 64 + 16 * n + 4 * e, c.edgeType) && U64sAt(file, 64 + 16 * n + 8 * e, c.edgeId)
  }

  ghost predicate IncomingAt(file: seq<byte>, c: Csr) {
    var n, e := |c.denseToId|, |c.colIdx|;
    && U64sAt(file, 64 + 16 * n + 16 * e, c.inRowPtr) && U32sAt(file, 72 + 24 * n + 16 * e, c.inColIdx)
    && U32sAt(file, 72 + 24 * n + 20 * e, c.inEdgeType) && U32sAt(file, 72 + 24 * n + 24 * e, c.inPos)
  }

  /** The places of a snapshot's own arrays: aligned, and inside the body. */
  ghost predicate OutgoingPlaced(c: Csr, len: nat) {
    var n, e := |c.denseToId|, |c.colIdx|;
    && Placed(56, |c.denseToId|, 8, len) && Placed(56 + 8 * n, |c.rowPtr|, 8, len)
    && Placed(64 + 16 * n, |c.colIdx|, 4, len) && Placed(64 + 16 * n + 4 * e, |c.edgeType|, 4, len)
    && Placed(64 + 16 * n + 8 * e, |c.edgeId|, 8, len)
  }

  ghost predicate IncomingPlaced(c: Csr, len: nat) {
    var n, e := |c.denseToId|, |c.colIdx|;
    && Placed(64 + 16 * n + 16 * e, |c.inRowPtr|, 8, len) && Placed(72 + 24 * n + 16 * e, |c.inColIdx|, 4, len)
    && Placed(72 + 24 * n + 20 * e, |c.inEdgeType|, 4, len) && Placed(72 + 24 * n + 24 * e, |c.inPos|, 4, len)
  }

  lemma SnapshotPlaced(c: Csr)
    requires Shaped(c)
    ensures OutgoingPlaced(c, FixedEnd(|c.denseToId|, |c.colIdx|))
    ensures IncomingPlaced(c, FixedEnd(|c.denseToId|, |c.colIdx|))
  {
    var n, e := |c.denseToId|, |c.colIdx|;
    Multiple(7 + n, 16 + 4 * n);
    Multiple(8 + 2 * n + e, 16 + 4 * n + e);
    Multiple(8 + 2 * n + 2 * e, 18 + 6 * n + 4 * e);
    Multiple(0, 18 + 6 * n + 5 * e);
    Multiple(0, 18 + 6 * n + 6 * e);
  }

  lemma OutgoingWritten(file: seq<byte>, p0: seq<byte>, c: Csr, len: nat)
    requires |p0| == HEADER_LEN && OutgoingPlaced(c, len) && Shaped(c)
    requires Begins(
      file,
      p0 + EncU64s(c.denseToId) + EncU64s(c.rowPtr) + EncU32s(c.colIdx) + EncU32s(c.edgeType) + EncU64s(c.edgeId))
    ensures OutgoingAt(file, c)
  {
    hide Begins;
    hide EncU64s;
    hide EncU32s;
    hide Placed;
    hide U64sAt;
    hide U32sAt;
    var n, e := |c.denseToId|, |c.colIdx|;
    var p1 := p0 + EncU64s(c.denseToId);
    var p2 := p1 + EncU64s(c.rowPtr);
    var p3 := p2 + EncU32s(c.colIdx);
    var p4 := p3 + EncU32s(c.edgeType);
    BeginsShorter(file, p4, EncU64s(c.edgeId));
    BeginsShorter(file, p3, EncU32s(c.edgeType));
    BeginsShorter(file, p2, EncU32s(c.colIdx));
    BeginsShorter(file, p1, EncU64s(c.rowPtr));
    U64sWritten(file, p0, c.denseToId, 56, len);
    U64sWritten(file, p1, c.rowPtr, 56 + 8 * n, len);
    U32sWritten(file, p2, c.colIdx, 64 + 16 * n, len);
    U32sWritten(file, p3, c.edgeType, 64 + 16 * n + 4 * e, len);
    U64sWritten(file, p4, c.edgeId, 64 + 16 * n + 8 * e, len);
  }

  lemma IncomingWritten(file: seq<byte>, before: seq<byte>, c: Csr, len: nat)
    requires Shaped(c) && IncomingPlaced(c, len) && |before| == 64 + 16 * |c.denseToId| + 16 * |c.colIdx|
    requires Begins(
      file, before + EncU64s(c.inRowPtr) + EncU32s(c.inColIdx) + EncU32s(c.inEdgeType) + EncU32s(c.inPos))
    ensures IncomingAt(file, c)
  {
    hide Begins;
    hide EncU64s;
    hide EncU32s;
    hide Placed;
    hide U64sAt;
    hide U32sAt;
    var n, e := |c.denseToId|, |c.colIdx|;
    var p1 := before + EncU64s(c.inRowPtr);
    var p2 := p1 + EncU32s(c.inColIdx);
    var p3 := p2 + EncU32s(c.inEdgeType);
    BeginsShorter(file, p3, EncU32s(c.inPos));
    BeginsShorter(file, p2, EncU32s(c.inEdgeType));
    BeginsShorter(file, p1, EncU32s(c.inColIdx));
    U64sWritten(file, before, c.inRowPtr, 64 + 16 * n + 16 * e, len);
    U32sWritten(file, p1, c.inColIdx, 72 + 24 * n + 16 * e, len);
    U32sWritten(file, p2, c.inEdgeType, 72 + 24 * n + 20 * e, len);
    U32sWritten(file, p3, c.inPos, 72 + 24 * n + 24 * e, len);
  }

  lemma PlacedArraysAre(file: seq<byte>, c: Csr)
    requires Shaped(c)
    ensures OutgoingAt(file, c) ==> OutgoingAre(file, |c.denseToId|, |c.colIdx|, c)
    ensures IncomingAt(file, c) ==> IncomingAre(file, |c.denseToId|, |c.colIdx|, c)
  {
    hide MappedU64s;
    hide MappedU32s;
  }

  lemma WeightsWritten(file: seq<byte>, fixed: seq<byte>, weights: seq<u64>, n: nat, e: nat)
    requires |weights| == e && |fixed| == 72 + 24 * n + 28 * e
    requires Begins(file, fixed + Zeros(WeightPadding(e)) + EncU64s(weights))
    ensures U64sAt(file, 72 + 24 * n + 28 * e + WeightPadding(e), weights) && Begins(file, fixed)
  {
    WeightsPlaced(n, e);
    hide Begins;
    hide EncU64s;
    hide Placed;
    hide U64sAt;
    hide BodyLen;
    var pad := Zeros(WeightPadding(e));
    BeginsShorter(file, fixed + pad, EncU64s(weights));
    BeginsShorter(file, fixed, pad);
    U64sWritten(file, fixed + pad, weights, 72 + 24 * n + 28 * e + WeightPadding(e), BodyLen(n, e, true));
  }

  lemma FixedLength(c: Csr, db: DbId, gen: u64)
    requires Shaped(c)
    ensures |FixedArrays(c, db, gen)| == 72 + 24 * |c.denseToId| + 28 * |c.colIdx|
  {
    BodyLength(c, db, gen);
  }

  lemma WeightsFound(file: seq<byte>, c: Csr)
    requires Shaped(c)
    requires c.edgeWeight.Some? ==> U64sAt(
      file, 72 + 24 * |c.denseToId| + 28 * |c.colIdx| + WeightPadding(|c.colIdx|), c.edgeWeight.value)
    ensures WeightsAre(file, |c.denseToId|, |c.colIdx|, c.edgeWeight.Some?, c)
  {
    hide MappedU64s;
    hide WeightPadding;
  }

  lemma BodySplits(c: Csr, db: DbId, gen: u64)
    requires Shaped(c)
    ensures Body(c, db, gen) == (if c.edgeWeight.Some? then
      FixedArrays(c, db, gen) + Zeros(WeightPadding(|c.colIdx|)) + EncU64s(c.edgeWeight.value)
      else FixedArrays(c, db, gen))
    ensures c.edgeWeight.Some? ==> |c.edgeWeight.value| == |c.colIdx|
  {
  }

  lemma BodyWeights(file: seq<byte>, c: Csr, db: DbId, gen: u64)
    requires Shaped(c) && Begins(file, Body(c, db, gen))
    ensures WeightsAre(file, |c.denseToId|, |c.colIdx|, c.edgeWeight.Some?, c)
    ensures Begins(file, FixedArrays(c, db, gen))
  {
    hide *;
    FixedLength(c, db, gen);
    BodySplits(c, db, gen);
    if c.edgeWeight.Some? {
      WeightsWritten(file, FixedArrays(c, db, gen), c.edgeWeight.value, |c.denseToId|, |c.colIdx|);
    }
    WeightsFound(file, c);
  }

  /** A file that starts with the nine arrays after a header holds them. */
  lemma FixedWritten(file: seq<byte>, h: seq<byte>, c: Csr)
    requires Shaped(c) && |h| == HEADER_LEN
    requires Begins(
      file,
      h + EncU64s(c.denseToId) + EncU64s(c.rowPtr) + EncU32s(c.colIdx) + EncU32s(c.edgeType) + EncU64s(c.edgeId)
      + EncU64s(c.inRowPtr) + EncU32s(c.inColIdx) + EncU32s(c.inEdgeType) + EncU32s(c.inPos))
    ensures OutgoingAt(file, c) && IncomingAt(file, c)
  {
    SnapshotPlaced(c);
    hide Begins;
    hide EncU64s;
    hide EncU32s;
    hide OutgoingAt;
    hide IncomingAt;
    hide OutgoingPlaced;
    hide IncomingPlaced;
    var out := h + EncU64s(c.denseToId) + EncU64s(c.rowPtr) + EncU32s(c.colIdx) + EncU32s(c.edgeType)
      + EncU64s(c.edgeId);
    var in1 := out + EncU64s(c.inRowPtr);
    var in2 := in1 + EncU32s(c.inColIdx);
    var in3 := in2 + EncU32s(c.inEdgeType);
    IncomingWritten(file, out, c, FixedEnd(|c.denseToId|, |c.colIdx|));
    BeginsShorter(file, in3, EncU32s(c.inPos));
    BeginsShorter(file, in2, EncU32s(c.inEdgeType));
    BeginsShorter(file, in1, EncU32s(c.inColIdx));
    BeginsShorter(file, out, EncU64s(c.inRowPtr));
    OutgoingWritten(file, h, c, FixedEnd(|c.denseToId|, |c.colIdx|));
  }

  /** A file that starts with the body of a snapshot holds that snapshot's arrays. */
  lemma ArraysWritten(file: seq<byte>, c: Csr, db: DbId, gen: u64)
    requires Shaped(c) && Begins(file, Body(c, db, gen)) && |file| == |Body(c, db, gen)| + 8
    ensures |file| == BodyLen(|c.denseToId|, |c.colIdx|, c.edgeWeight.Some?) + 8
    ensures ArraysOf(file, |c.denseToId|, |c.colIdx|, c.edgeWeight.Some?, c.hasNegativeWeight) == c
    ensures Begins(file, Header(c, db, gen))
  {
    BodyLength(c, db, gen);
    HeaderLength(c, db, gen);
    BodyWeights(file, c, db, gen);
    HeaderIsPrefix(file, c, db, gen);
    PlacedArraysAre(file, c);
    hide Begins;
    hide Header;
    hide Body;
    hide OutgoingAre;
    hide IncomingAre;
    hide OutgoingAt;
    hide IncomingAt;
    hide WeightsAre;
    hide ArraysOf;
    hide BodyLen;
    FixedWritten(file, Header(c, db, gen), c);
    ArraysOfIs(file, |c.denseToId|, |c.colIdx|, c.edgeWeight.Some?, c.hasNegativeWeight, c);
  }

  lemma HeaderIsPrefix(file: seq<byte>, c: Csr, db: DbId, gen: u64)
    requires Begins(file, FixedArrays(c, db, gen))
    ensures Begins(file, Header(c, db, gen))
  {
    hide Header;
    hide EncU64s;
    hide EncU32s;
    var h := Header(c, db, gen);
    assert h <= FixedArrays(c, db, gen);
  }

  /** A saved snapshot loads back unchanged for its own identity and generation, and for no other; also
    * not where weights are wanted and it has none, nor past the largest edge count.
    */
  lemma LoadSaved(c: Csr, db: DbId, gen: u64, db': DbId, gen': u64, wantWeights: bool)
    requires Shaped(c) && ExactLen(|c.denseToId|, |c.colIdx|, c.edgeWeight.Some?).Some?
    ensures var loaded := LoadedCsr(CsrBytes(c, db, gen), db', gen', wantWeights);
      if db' == db && gen' == gen && (wantWeights ==> c.edgeWeight.Some?) && |c.colIdx| <= MAX_SNAPSHOT_EDGES
      then loaded == Some(c) else loaded == None
  {
    var file, body := CsrBytes(c, db, gen), Body(c, db, gen);
    BeginsSealed(body);
    ArraysWritten(file, c, db, gen);
    SealedIntact(body);
    FlagsRead(c);
    hide Body;
    hide Header;
    hide ArraysOf;
    hide SealIntact;
    hide Begins;
    hide Sealed;
    hide ReadHeader;
    hide WeightedFlag;
    hide NegativeFlag;
    hide FlagsOf;
    AcceptableIff(file, c, wantWeights);
    hide Acceptable;
    hide ExactLen;
    HeaderRead(file, c, db, gen, db', gen');
  }

  lemma AcceptableIff(file: seq<byte>, c: Csr, wantWeights: bool)
    requires ExactLen(|c.denseToId|, |c.colIdx|, c.edgeWeight.Some?).Some?
    requires |file| == BodyLen(|c.denseToId|, |c.colIdx|, c.edgeWeight.Some?) + 8 && SealIntact(file)
    ensures Acceptable(file, FlagsOf(c), |c.denseToId|, |c.colIdx|, wantWeights)
      <==> (wantWeights ==> c.edgeWeight.Some?) && |c.colIdx| <= MAX_SNAPSHOT_EDGES
  {
    FlagsRead(c);
    hide FlagsOf;
    hide WeightedFlag;
    hide SealIntact;
  }

  lemma FlagsRead(c: Csr)
    ensures WeightedFlag(FlagsOf(c)) == c.edgeWeight.Some? && NegativeFlag(FlagsOf(c)) == c.hasNegativeWeight
  {
  }

  lemma BeginsSealed(body: seq<byte>)
    ensures Begins(Sealed(body), body) && |Sealed(body)| == |body| + 8
  {
  }

  /** A saved file with one aligned word of its body changed is never loaded. */
  lemma CorruptWordRefused(c: Csr, db: DbId, gen: u64, file: seq<byte>, k: nat, db': DbId, gen': u64, wantWeights: bool)
    requires var body := Body(c, db, gen);
      && |file| == |body| + 8 && file[|body|..] == LeBytes(Checksum(body), 8)
      && DifferOnlyInWord(body, file[..|body|], k) && body != file[..|body|]
    ensures LoadedCsr(file, db', gen', wantWeights) == None
  {
    ChangedWordBreaksSeal(Body(c, db, gen), file, k);
  }
}
