/** From column values to stored bits and back, so that what a file preserves is every slot's value. */
module CacheTables {
  import opened Words
  import opened Json
  import opened Column
  import opened Tables
  import opened ColumnSets
  import opened PropertyColumns
  import opened CacheBytes
  import opened ColumnsFile

  // ---------------------------------------------------------------- numbers as bits

  const SIGN: nat := 0x8000_0000_0000_0000
  const FRACTION: nat := 0x10_0000_0000_0000

  /** Two's complement. */
  function I64Bits(i: i64): u64 {
    if i < 0 then i + U64_LIMIT else i
  }

  function BitsI64(u: u64): i64 {
    if u < SIGN then u else u - U64_LIMIT
  }

  /** The sign, exponent and fraction fields of an IEEE 754 double. */
  function F64Bits(d: f64): u64 {
    (if d.negative then SIGN else 0) + d.exponent * FRACTION + d.fraction
  }

  /** The finite double with these bits; none for an infinity or a NaN. */
  function BitsF64(u: u64): Option<f64> {
    var magnitude := if u < SIGN then u else u - SIGN;
    if magnitude / FRACTION < 0x7FF then
      Some(Double(u >= SIGN, magnitude / FRACTION, magnitude % FRACTION))
    else None
  }

  lemma I64RoundTrip(i: i64)
    ensures BitsI64(I64Bits(i)) == i
  {
  }

  lemma FieldsRoundTrip(e: nat, f: nat)
    requires f < FRACTION
    ensures (e * FRACTION + f) / FRACTION == e && (e * FRACTION + f) % FRACTION == f
  {
  }

  lemma F64RoundTrip(d: f64)
    ensures BitsF64(F64Bits(d)) == Some(d)
  {
    FieldsRoundTrip(d.exponent, d.fraction);
  }

  // ---------------------------------------------------------------- arrays as bits

  function IntsBits(s: seq<i64>): (r: seq<u64>)
    ensures |r| == |s|
  {
    seq(|s|, i requires 0 <= i < |s| => I64Bits(s[i]))
  }

  function BitsInts(s: seq<u64>): (r: seq<i64>)
    ensures |r| == |s|
  {
    seq(|s|, i requires 0 <= i < |s| => BitsI64(s[i]))
  }

  function FloatsBits(s: seq<f64>): (r: seq<u64>)
    ensures |r| == |s|
  {
    seq(|s|, i requires 0 <= i < |s| => F64Bits(s[i]))
  }

  predicate AllFinite(s: seq<u64>) {
    forall i :: 0 <= i < |s| ==> BitsF64(s[i]).Some?
  }

  function BitsFloats(s: seq<u64>): (r: seq<f64>)
    requires AllFinite(s)
    ensures |r| == |s|
  {
    seq(|s|, i requires 0 <= i < |s| && AllFinite(s) => BitsF64(s[i]).value)
  }

  /** Byte offsets fit 64 bits. */
  predicate Storable(raw: Raw) {
    raw.StrCol? ==> forall i :: 0 <= i < |raw.offsets| ==> raw.offsets[i] < U64_LIMIT
  }

  function StoredOf(raw: Raw): Stored
    requires Storable(raw)
  {
    match raw
    case IntCol(w, v) => IntArrays(w, IntsBits(v))
    case FloatCol(w, v) => FloatArrays(w, FloatsBits(v))
    case BoolCol(w, v) => BoolArrays(w, v)
    case StrCol(o, b, idx) => StrArrays(idx, o, b)
    case JsonCol(cells) => JsonCells(cells)
  }

  /** The column with these bits, none where a stored double is not finite. */
  function RawOf(s: Stored): Option<Raw> {
    match s
    case IntArrays(w, v) => Some(IntCol(w, BitsInts(v)))
    case FloatArrays(w, v) => if AllFinite(v) then Some(FloatCol(w, BitsFloats(v))) else None
    case BoolArrays(w, v) => Some(BoolCol(w, v))
    case StrArrays(idx, o, b) => Some(StrCol(o, b, idx))
    case JsonCells(cells) => Some(JsonCol(cells))
  }

  /** Storing a column as bits loses nothing. */
  lemma StoredRoundTrip(raw: Raw)
    requires Storable(raw)
    ensures RawOf(StoredOf(raw)) == Some(raw)
    ensures RawValid(raw) ==> Sound(StoredOf(raw))
    ensures StoredLen(StoredOf(raw)) == RawLen(raw)
  {
    match raw
    case IntCol(w, v) =>
      forall i | 0 <= i < |v|
        ensures BitsInts(IntsBits(v))[i] == v[i]
      {
        I64RoundTrip(v[i]);
      }
      assert BitsInts(IntsBits(v)) == v;
    case FloatCol(w, v) =>
      forall i | 0 <= i < |v|
        ensures BitsF64(FloatsBits(v)[i]) == Some(v[i])
      {
        F64RoundTrip(v[i]);
      }
      assert BitsFloats(FloatsBits(v)) == v;
    case _ =>
  }

  // ---------------------------------------------------------------- a column set in a file

  /** The columns of a set, each once, as arrays. */
  ghost predicate Lists(raws: seq<RawNamed>, pc: PropColumns)
    reads pc, pc.index, pc.owned
  {
    && pc.Shaped()
    && (forall i :: 0 <= i < |raws| ==> raws[i].0 in pc.cols && raws[i].1 == pc.cols[raws[i].0].Raw())
    && (forall i, j :: 0 <= i < j < |raws| ==> raws[i].0 != raws[j].0)
    && (forall p :: p in pc.cols ==> exists i :: 0 <= i < |raws| && raws[i].0 == p)
  }

  function StoredNamed(raws: seq<RawNamed>): (r: seq<Named>)
    requires forall i :: 0 <= i < |raws| ==> Storable(raws[i].1)
    ensures |r| == |raws|
  {
    seq(|raws|, i requires 0 <= i < |raws| && Storable(raws[i].1) => (raws[i].0, StoredOf(raws[i].1)))
  }

  ghost predicate AllStorable(raws: seq<RawNamed>) {
    forall i :: 0 <= i < |raws| ==> Storable(raws[i].1)
  }

  /** The listed columns of a valid set are well formed, and together mean its table. */
  lemma ListedTable(raws: seq<RawNamed>, pc: PropColumns)
    requires Lists(raws, pc)
    ensures RawSet(raws, |pc.denseToId|)
    ensures Table(pc.denseToId, RawColumns(raws)) == pc.AsTable()
  {
    forall i | 0 <= i < |raws|
      ensures RawValid(raws[i].1) && RawLen(raws[i].1) == |pc.denseToId|
      ensures raws[i].0 in pc.columns && Cells(raws[i].1) == pc.columns[raws[i].0]
    {
      ListedColumn(raws, pc, i);
    }
    assert RawSet(raws, |pc.denseToId|);
    RawColumnsAt(raws, |pc.denseToId|);
    pc.ColumnNames();
    hide RawSet;
    hide RawValid;
    hide PropColumns.Valid;
    assert RawColumns(raws) == pc.columns;
  }

  lemma ListedColumn(raws: seq<RawNamed>, pc: PropColumns, i: nat)
    requires Lists(raws, pc) && i < |raws|
    ensures RawValid(raws[i].1) && RawLen(raws[i].1) == |pc.denseToId|
    ensures raws[i].0 in pc.columns && Cells(raws[i].1) == pc.columns[raws[i].0]
  {
    HoldOwns(pc.cols, pc.owned, pc.columns, pc.counts, raws[i].0);
    pc.cols[raws[i].0].RawHoldsCells();
    hide PropColumn.Valid;
    hide PropColumn.Raw;
    assert |Cells(raws[i].1)| == RawLen(raws[i].1);
  }

  /** The columns of a loaded file as values; none where a stored double is not finite. */
  ghost function RawsOf(cols: seq<Named>): Option<seq<RawNamed>> {
    if cols == [] then Some([])
    else
      var raw, rest := RawOf(cols[0].1), RawsOf(cols[1..]);
      if raw == None || rest == None then None else Some([(cols[0].0, raw.value)] + rest.value)
  }

  lemma {:induction false} RawsOfStored(raws: seq<RawNamed>)
    requires AllStorable(raws)
    ensures RawsOf(StoredNamed(raws)) == Some(raws)
  {
    if raws != [] {
      RawsOfStored(raws[1..]);
      StoredRoundTrip(raws[0].1);
      assert StoredNamed(raws)[1..] == StoredNamed(raws[1..]);
      assert raws == [raws[0]] + raws[1..];
    }
  }

  lemma StoredAreShaped(raws: seq<RawNamed>, n: nat)
    requires AllStorable(raws) && RawSet(raws, n)
    ensures AllShaped(StoredNamed(raws), n)
  {
    forall i | 0 <= i < |raws|
      ensures Sound(StoredNamed(raws)[i].1) && StoredLen(StoredNamed(raws)[i].1) == n
    {
      StoredRoundTrip(raws[i].1);
    }
  }

  /** The table a file gives, when it is loaded at all. */
  ghost function LoadedTable(file: seq<byte>, db: DbId, gen: u64, codec: Codec): Option<Table> {
    match LoadedFile(file, db, gen, codec)
    case None => None
    case Some(c) =>
      var raws := RawsOf(c.cols);
      if raws == None || (exists i :: 0 <= i < |c.denseToId| && c.denseToId[i] == U64_LIMIT - 1)
         || (exists i :: 0 <= i < |raws.value| && !RawShaped(raws.value[i].1)) then None
      else Some(Table(c.denseToId, RawColumns(raws.value)))
  }

  lemma RawTableLoads(
    ids: seq<EntityId>, raws: seq<RawNamed>, db: DbId, gen: u64, codec: Codec, db': DbId, gen': u64)
    requires RawSet(raws, |ids|) && AllStorable(raws) && Lawful(codec)
    requires Saveable(Columns(ids, StoredNamed(raws)), codec)
    requires forall i :: 0 <= i < |raws| ==> RawShaped(raws[i].1)
    ensures LoadedTable(ColumnsBytes(Columns(ids, StoredNamed(raws)), db, gen, codec), db', gen', codec)
      == if db' == db && gen' == gen then Some(Table(ids, RawColumns(raws))) else None
  {
    hide LoadedFile;
    hide ColumnsBytes;
    hide RawColumns;
    hide RawsOf;
    hide RawSet;
    hide Saveable;
    hide RawShaped;
    hide Lawful;
    RawsOfStored(raws);
    LoadSavedColumns(Columns(ids, StoredNamed(raws)), db, gen, codec, db', gen');
  }

  /** Saving a column set and loading the file gives the same value in every slot, and nothing at all for
    * another database or generation.
    */
  lemma SavedTableLoads(
    pc: PropColumns, raws: seq<RawNamed>, db: DbId, gen: u64, codec: Codec, db': DbId, gen': u64)
    requires Lists(raws, pc) && AllStorable(raws) && Lawful(codec)
    requires |raws| < U64_LIMIT && |DirectoryBytes(Columns(pc.denseToId, StoredNamed(raws)), codec)| < U64_LIMIT
    ensures LoadedTable(ColumnsBytes(Columns(pc.denseToId, StoredNamed(raws)), db, gen, codec), db', gen', codec)
      == if db' == db && gen' == gen then Some(pc.AsTable()) else None
  {
    ListedTable(raws, pc);
    FewRows(raws, pc);
    hide *;
    AllRawShaped(raws, |pc.denseToId|);
    StoredAreShaped(raws, |pc.denseToId|);
    SmallEnough(pc.denseToId, raws, codec);
    RawTableLoads(pc.denseToId, raws, db, gen, codec, db', gen');
  }

  /** A loaded file satisfies what no loader checks again, so a column set can be built around it: clear
    * bits past every bitmap's length, injective dictionaries, and the saved table in its arrays.
    */
  lemma SavedFileIsBuildable(pc: PropColumns, raws: seq<RawNamed>, db: DbId, gen: u64, codec: Codec)
    requires Lists(raws, pc) && AllStorable(raws) && Lawful(codec)
    requires |raws| < U64_LIMIT && |DirectoryBytes(Columns(pc.denseToId, StoredNamed(raws)), codec)| < U64_LIMIT
    ensures match LoadedFile(ColumnsBytes(Columns(pc.denseToId, StoredNamed(raws)), db, gen, codec), db, gen, codec)
      case None => false
      case Some(c) =>
        && c.denseToId == pc.denseToId && |c.denseToId| <= U32_MAX
        && RawsOf(c.cols) == Some(raws) && RawSet(raws, |c.denseToId|)
        && (forall i :: 0 <= i < |raws| ==> RawShaped(raws[i].1))
        && Table(pc.denseToId, RawColumns(raws)) == pc.AsTable()
  {
    ListedTable(raws, pc);
    FewRows(raws, pc);
    hide *;
    AllRawShaped(raws, |pc.denseToId|);
    StoredAreShaped(raws, |pc.denseToId|);
    SmallEnough(pc.denseToId, raws, codec);
    RawsOfStored(raws);
    LoadSavedColumns(Columns(pc.denseToId, StoredNamed(raws)), db, gen, codec, db, gen);
  }

  lemma FewRows(raws: seq<RawNamed>, pc: PropColumns)
    requires Lists(raws, pc)
    ensures |pc.denseToId| <= U32_MAX
  {
  }

  lemma SmallEnough(ids: seq<EntityId>, raws: seq<RawNamed>, codec: Codec)
    requires AllStorable(raws) && AllShaped(StoredNamed(raws), |ids|) && |ids| <= U32_MAX
    requires |raws| < U64_LIMIT && |DirectoryBytes(Columns(ids, StoredNamed(raws)), codec)| < U64_LIMIT
    ensures Saveable(Columns(ids, StoredNamed(raws)), codec)
  {
    hide DirectoryBytes;
    hide AllShaped;
  }

  lemma AllRawShaped(raws: seq<RawNamed>, n: nat)
    requires RawSet(raws, n)
    ensures forall i :: 0 <= i < |raws| ==> RawShaped(raws[i].1)
  {
  }
}
