/** Saving and loading the columns file step by step: plan every place, write every array, map them back. */
module ColumnsIo {
  import opened Words
  import opened Json
  import opened ColumnParts
  import opened Column
  import opened Checksums
  import opened CacheBytes
  import opened ColumnsFile

  // ---------------------------------------------------------------- the planning pass

  class Layout {
    var next: nat

    constructor ()
      ensures next == 0
    {
      next := 0;
    }

    /** The place of the next array; the one after it starts 8-byte aligned. */
    method Place(byteLen: nat) returns (at: nat)
      modifies this
      ensures at == old(next) && next == Align8(old(next) + byteLen)
    {
      at := next;
      next := Align8(at + byteLen);
    }
  }

  lemma AlignedSum(at: nat, len: nat)
    requires at % 8 == 0
    ensures Align8(at + len) == at + Align8(len)
  {
  }

  lemma OnePlace(at: nat, a: Section)
    ensures Places(at, [a]) == [(at, |a.vals|)]
    ensures Data([a]) == PaddedEnc(a)
  {
    assert [a][1..] == [];
  }

  lemma TwoPlaces(at: nat, a: Section, b: Section)
    ensures Places(at, [a, b]) == [(at, |a.vals|), (at + Align8(SectionLen(a)), |b.vals|)]
    ensures Data([a, b]) == PaddedEnc(a) + PaddedEnc(b)
  {
    hide PaddedEnc;
    hide SectionLen;
    hide Align8;
    assert [a, b][1..] == [b];
    OnePlace(at + Align8(SectionLen(a)), b);
  }

  lemma ThreePlaces(at: nat, a: Section, b: Section, c: Section)
    ensures var at2 := at + Align8(SectionLen(a));
      Places(at, [a, b, c]) == [(at, |a.vals|), (at2, |b.vals|), (at2 + Align8(SectionLen(b)), |c.vals|)]
    ensures Data([a, b, c]) == PaddedEnc(a) + PaddedEnc(b) + PaddedEnc(c)
  {
    hide PaddedEnc;
    hide SectionLen;
    hide Align8;
    assert [a, b, c][1..] == [b, c];
    TwoPlaces(at + Align8(SectionLen(a)), b, c);
    Assoc(PaddedEnc(a), PaddedEnc(b), PaddedEnc(c));
  }

  /** Place one column's arrays in order; a boxed column is serialized here, once. */
  method PlanColumn(layout: Layout, col: Named, codec: Codec) returns (entry: Entry, blob: Option<seq<byte>>)
    requires layout.next % 8 == 0
    modifies layout
    ensures entry == EntryOf(old(layout.next), col, codec)
    ensures layout.next == old(layout.next) + |ColumnBytes(col.1, codec)|
    ensures blob == if col.1.JsonCells? then Some(codec.encCells(col.1.cells)) else None
  {
    hide Places;
    hide Data;
    blob := None;
    var parts: seq<Place>;
    match col.1 {
      case IntArrays(words, ints) =>
        parts := PlanPair(layout, U64Section(words), U64Section(ints));
      case FloatArrays(words, bits) =>
        parts := PlanPair(layout, U64Section(words), U64Section(bits));
      case BoolArrays(words, bools) =>
        parts := PlanPair(layout, U64Section(words), ByteSection(bools));
      case StrArrays(idx, offsets, bytes) =>
        parts := PlanTriple(layout, U32Section(idx), U64Section(offsets), ByteSection(bytes));
      case JsonCells(cells) =>
        var encoded := codec.encCells(cells);
        blob := Some(encoded);
        parts := PlanOne(layout, ByteSection(encoded));
    }
    entry := Entry(col.0, KindCode(col.1), parts);
  }

  method PlanOne(layout: Layout, a: Section) returns (parts: seq<Place>)
    requires layout.next % 8 == 0
    modifies layout
    ensures parts == Places(old(layout.next), [a]) && layout.next == old(layout.next) + |Data([a])|
  {
    OnePlace(layout.next, a);
    AlignedSum(layout.next, SectionLen(a));
    hide Align8;
    hide Places;
    hide Data;
    hide PaddedEnc;
    var first := layout.Place(SectionLen(a));
    parts := [(first, |a.vals|)];
  }

  method PlanPair(layout: Layout, a: Section, b: Section) returns (parts: seq<Place>)
    requires layout.next % 8 == 0
    modifies layout
    ensures parts == Places(old(layout.next), [a, b]) && layout.next == old(layout.next) + |Data([a, b])|
  {
    ghost var at := layout.next;
    TwoPlaces(at, a, b);
    AlignedSum(at, SectionLen(a));
    AlignedSum(at + Align8(SectionLen(a)), SectionLen(b));
    hide Align8;
    hide Places;
    hide Data;
    hide PaddedEnc;
    var first := layout.Place(SectionLen(a));
    var second := layout.Place(SectionLen(b));
    parts := [(first, |a.vals|), (second, |b.vals|)];
  }

  method PlanTriple(layout: Layout, a: Section, b: Section, c: Section) returns (parts: seq<Place>)
    requires layout.next % 8 == 0
    modifies layout
    ensures parts == Places(old(layout.next), [a, b, c]) && layout.next == old(layout.next) + |Data([a, b, c])|
  {
    ghost var at := layout.next;
    ThreePlaces(at, a, b, c);
    AlignedSum(at, SectionLen(a));
    AlignedSum(at + Align8(SectionLen(a)), SectionLen(b));
    AlignedSum(at + Align8(SectionLen(a)) + Align8(SectionLen(b)), SectionLen(c));
    hide Align8;
    hide Places;
    hide Data;
    hide PaddedEnc;
    var first := layout.Place(SectionLen(a));
    var second := layout.Place(SectionLen(b));
    var third := layout.Place(SectionLen(c));
    parts := [(first, |a.vals|), (second, |b.vals|), (third, |c.vals|)];
  }

  /** The serialized boxed columns, in column order. */
  function Blobs(cols: seq<Named>, codec: Codec): seq<seq<byte>> {
    if cols == [] then []
    else (if cols[0].1.JsonCells? then [codec.encCells(cols[0].1.cells)] else []) + Blobs(cols[1..], codec)
  }

  lemma {:induction false} OneMorePlanned(at: nat, cols: seq<Named>, col: Named, codec: Codec)
    ensures ColumnsData(cols + [col], codec) == ColumnsData(cols, codec) + ColumnBytes(col.1, codec)
    ensures Directory(at, cols + [col], codec)
      == Directory(at, cols, codec) + [EntryOf(at + |ColumnsData(cols, codec)|, col, codec)]
    ensures Blobs(cols + [col], codec)
      == Blobs(cols, codec) + if col.1.JsonCells? then [codec.encCells(col.1.cells)] else []
    decreases |cols|
  {
    hide ColumnBytes;
    hide EntryOf;
    var all := cols + [col];
    if cols == [] {
      assert all == [col] && all[1..] == [];
    } else {
      assert all[1..] == cols[1..] + [col];
      OneMorePlanned(at + |ColumnBytes(cols[0].1, codec)|, cols[1..], col, codec);
    }
  }

  /** The first columns are planned. */
  ghost predicate Planned(
    at: nat, done: seq<Named>, next: nat, dir: seq<Entry>, blobs: seq<seq<byte>>, codec: Codec)
  {
    && next == at + |ColumnsData(done, codec)| && next % 8 == 0
    && dir == Directory(at, done, codec) && blobs == Blobs(done, codec)
  }

  lemma NothingPlanned(at: nat, codec: Codec)
    requires at % 8 == 0
    ensures Planned(at, [], at, [], [], codec)
  {
  }

  lemma PlannedOneMore(
    at: nat, cols: seq<Named>, i: nat, next: nat, dir: seq<Entry>, blobs: seq<seq<byte>>, codec: Codec)
    requires i < |cols| && Planned(at, cols[..i], next, dir, blobs, codec)
    ensures next % 8 == 0
    ensures var next', dir' := next + |ColumnBytes(cols[i].1, codec)|, dir + [EntryOf(next, cols[i], codec)];
      if cols[i].1.JsonCells? then
        Planned(at, cols[..i + 1], next', dir', blobs + [codec.encCells(cols[i].1.cells)], codec)
      else Planned(at, cols[..i + 1], next', dir', blobs, codec)
  {
    hide ColumnBytes;
    hide EntryOf;
    var done, col := cols[..i], cols[i];
    assert cols[..i + 1] == done + [col];
    OneMorePlanned(at, done, col, codec);
    MultiplesAdd(next, |ColumnBytes(col.1, codec)|);
  }

  lemma AllPlanned(
    at: nat, done: seq<Named>, next: nat, dir: seq<Entry>, blobs: seq<seq<byte>>, codec: Codec)
    requires Planned(at, done, next, dir, blobs, codec)
    ensures next == at + |ColumnsData(done, codec)|
    ensures dir == Directory(at, done, codec) && blobs == Blobs(done, codec)
  {
  }

  lemma IdsAligned(n: nat)
    ensures Align8(0 + 8 * n) == 8 * n && 8 * n % 8 == 0
  {
  }

  /** Plan one more column. */
  method PlanNext(
    layout: Layout, cols: seq<Named>, i: nat, dir: seq<Entry>, blobs: seq<seq<byte>>, codec: Codec, ghost at: nat)
    returns (dir': seq<Entry>, blobs': seq<seq<byte>>)
    requires i < |cols| && Planned(at, cols[..i], layout.next, dir, blobs, codec)
    modifies layout
    ensures Planned(at, cols[..i + 1], layout.next, dir', blobs', codec)
  {
    hide *;
    PlannedOneMore(at, cols, i, layout.next, dir, blobs, codec);
    var entry, blob := PlanColumn(layout, cols[i], codec);
    dir', blobs' := dir + [entry], blobs;
    if blob.Some? {
      blobs' := blobs + [blob.value];
    }
  }

  /** Plan every column after the entity ids. */
  method Plan(c: Columns, codec: Codec) returns (dir: seq<Entry>, blobs: seq<seq<byte>>, total: nat)
    ensures dir == Directory(8 * |c.denseToId|, c.cols, codec) && blobs == Blobs(c.cols, codec)
    ensures total == 8 * |c.denseToId| + |ColumnsData(c.cols, codec)|
  {
    IdsAligned(|c.denseToId|);
    hide *;
    var layout := new Layout();
    var denseOff := layout.Place(8 * |c.denseToId|);
    ghost var at := 8 * |c.denseToId|;
    NothingPlanned(at, codec);
    dir, blobs := [], [];
    assert c.cols[..0] == [];
    for i := 0 to |c.cols|
      invariant Planned(at, c.cols[..i], layout.next, dir, blobs, codec)
    {
      dir, blobs := PlanNext(layout, c.cols, i, dir, blobs, codec, at);
    }
    assert c.cols[..|c.cols|] == c.cols;
    AllPlanned(at, c.cols, layout.next, dir, blobs, codec);
    total := layout.next;
  }

  // ---------------------------------------------------------------- the writing pass

  /** Zeros after an array of `len` bytes, up to the next multiple of 8 of everything written. */
  method PadAfter(w: SumWriter, written: nat, len: nat) returns (written': nat)
    requires w.Valid() && written % 8 == 0
    modifies w, w.sum, w.sum.buf
    ensures w.Valid() && w.out == old(w.out) + Zeros(Align8(len) - len) && written' == written + Align8(len)
  {
    AlignedSum(written, len);
    var total := written + len;
    written' := Align8(total);
    w.Put(Zeros(written' - total));
  }

  method WriteSection(w: SumWriter, written: nat, s: Section) returns (written': nat)
    requires w.Valid() && written % 8 == 0
    modifies w, w.sum, w.sum.buf
    ensures w.Valid() && w.out == old(w.out) + PaddedEnc(s) && written' == written + |PaddedEnc(s)|
  {
    ghost var before := w.out;
    w.PutWords(s.vals, s.w);
    written' := PadAfter(w, written, SectionLen(s));
    Assoc(before, Enc(s.vals, s.w), Zeros(Align8(SectionLen(s)) - SectionLen(s)));
  }

  method WritePair(w: SumWriter, written: nat, a: Section, b: Section) returns (written': nat)
    requires w.Valid() && written % 8 == 0
    modifies w, w.sum, w.sum.buf
    ensures w.Valid() && w.out == old(w.out) + Data([a, b]) && written' == written + |Data([a, b])|
  {
    TwoPlaces(0, a, b);
    Assoc(w.out, PaddedEnc(a), PaddedEnc(b));
    MultiplesAdd(written, |PaddedEnc(a)|);
    hide *;
    written' := WriteSection(w, written, a);
    written' := WriteSection(w, written', b);
  }

  method WriteTriple(w: SumWriter, written: nat, a: Section, b: Section, c: Section) returns (written': nat)
    requires w.Valid() && written % 8 == 0
    modifies w, w.sum, w.sum.buf
    ensures w.Valid() && w.out == old(w.out) + Data([a, b, c]) && written' == written + |Data([a, b, c])|
  {
    ThreePlaces(0, a, b, c);
    TwoPlaces(0, a, b);
    MultiplesAdd(written, |Data([a, b])|);
    Assoc(w.out, Data([a, b]), PaddedEnc(c));
    hide *;
    written' := WritePair(w, written, a, b);
    written' := WriteSection(w, written', c);
  }

  lemma BytesOfColumn(s: Stored, codec: Codec)
    ensures match s
      case IntArrays(words, ints) => ColumnBytes(s, codec) == Data([U64Section(words), U64Section(ints)])
      case FloatArrays(words, bits) => ColumnBytes(s, codec) == Data([U64Section(words), U64Section(bits)])
      case BoolArrays(words, bools) => ColumnBytes(s, codec) == Data([U64Section(words), ByteSection(bools)])
      case StrArrays(idx, offsets, bytes) =>
        ColumnBytes(s, codec) == Data([U32Section(idx), U64Section(offsets), ByteSection(bytes)])
      case JsonCells(cells) => ColumnBytes(s, codec) == PaddedEnc(ByteSection(codec.encCells(cells)))
  {
    if s.JsonCells? {
      OnePlace(0, ByteSection(codec.encCells(s.cells)));
    }
  }

  /** Write one column's arrays, each padded; a boxed column's bytes are the ones serialized before. */
  method WriteColumn(w: SumWriter, written: nat, s: Stored, blob: seq<byte>, ghost codec: Codec) returns (written': nat)
    requires w.Valid() && written % 8 == 0 && (s.JsonCells? ==> blob == codec.encCells(s.cells))
    modifies w, w.sum, w.sum.buf
    ensures w.Valid() && w.out == old(w.out) + ColumnBytes(s, codec)
    ensures written' == written + |ColumnBytes(s, codec)| && written' % 8 == 0
  {
    hide *;
    MultiplesAdd(written, |ColumnBytes(s, codec)|);
    BytesOfColumn(s, codec);
    if s.IntArrays? {
      written' := WritePair(w, written, U64Section(s.words), U64Section(s.ints));
    } else if s.FloatArrays? {
      written' := WritePair(w, written, U64Section(s.words), U64Section(s.bits));
    } else if s.BoolArrays? {
      written' := WritePair(w, written, U64Section(s.words), ByteSection(s.bools));
    } else if s.StrArrays? {
      written' := WriteTriple(w, written, U32Section(s.idx), U64Section(s.offsets), ByteSection(s.bytes));
    } else {
      written' := WriteSection(w, written, ByteSection(blob));
    }
  }

  /** What is written so far and what the rest will be. */
  ghost predicate DoneUpTo(done: seq<byte>, cols: seq<Named>, i: nat, rest: seq<seq<byte>>, codec: Codec)
    requires i <= |cols|
  {
    && done + ColumnsData(cols[i..], codec) == ColumnsData(cols, codec) && |done| % 8 == 0
    && rest == Blobs(cols[i..], codec)
  }

  lemma DoneOneMore(out: seq<byte>, done: seq<byte>, cols: seq<Named>, i: nat, rest: seq<seq<byte>>, codec: Codec)
    requires i < |cols| && DoneUpTo(done, cols, i, rest, codec)
    ensures var bytes, s := ColumnBytes(cols[i].1, codec), cols[i].1;
      && |done| % 8 == 0 && out + done + bytes == out + (done + bytes)
      && (s.JsonCells? ==> rest != [] && rest[0] == codec.encCells(s.cells))
      && DoneUpTo(done + bytes, cols, i + 1, if s.JsonCells? then rest[1..] else rest, codec)
  {
    hide ColumnBytes;
    var bytes := ColumnBytes(cols[i].1, codec);
    assert cols[i..][1..] == cols[i + 1..];
    Assoc(done, bytes, ColumnsData(cols[i + 1..], codec));
    MultiplesAdd(|done|, |bytes|);
  }

  lemma DoneNone(cols: seq<Named>, codec: Codec)
    ensures DoneUpTo([], cols, 0, Blobs(cols, codec), codec)
  {
    assert cols[0..] == cols;
    assert [] + ColumnsData(cols, codec) == ColumnsData(cols, codec);
  }

  lemma DoneAll(done: seq<byte>, cols: seq<Named>, rest: seq<seq<byte>>, codec: Codec)
    requires DoneUpTo(done, cols, |cols|, rest, codec)
    ensures done == ColumnsData(cols, codec)
  {
    assert cols[|cols|..] == [];
  }

  /** Write all columns in order. */
  method WriteColumns(w: SumWriter, at: nat, cols: seq<Named>, blobs: seq<seq<byte>>, ghost codec: Codec)
    returns (written: nat)
    requires w.Valid() && at % 8 == 0 && blobs == Blobs(cols, codec)
    modifies w, w.sum, w.sum.buf
    ensures w.Valid() && w.out == old(w.out) + ColumnsData(cols, codec) && written == at + |ColumnsData(cols, codec)|
  {
    hide *;
    written := at;
    var rest := blobs;
    ghost var done: seq<byte> := [];
    DoneNone(cols, codec);
    for i := 0 to |cols|
      invariant w.Valid() && w.out == old(w.out) + done
      invariant written == at + |done| && written % 8 == 0
      invariant DoneUpTo(done, cols, i, rest, codec)
    {
      DoneOneMore(old(w.out), done, cols, i, rest, codec);
      var s, blob := cols[i].1, [];
      if s.JsonCells? {
        blob := rest[0];
        rest := rest[1..];
      }
      written := WriteColumn(w, written, s, blob, codec);
      done := done + ColumnBytes(s, codec);
    }
    DoneAll(done, cols, rest, codec);
  }

  /** The generation an existing file claims, if it is this database's. */
  function ClaimedGen(existing: Option<seq<byte>>, db: DbId): Option<u64> {
    match existing
    case None => None
    case Some(file) =>
      if |file| < 32 || file[..8] != COL_MAGIC || file[8..24] != db then None else U64At(file, 24)
  }

  method WritePrelude(w: SumWriter, c: Columns, db: DbId, gen: u64, dir: seq<byte>, ghost codec: Codec)
    requires w.Valid() && w.out == [] && dir == DirectoryBytes(c, codec)
    requires |c.denseToId| < U64_LIMIT && |c.cols| < U64_LIMIT && |dir| < U64_LIMIT
    modifies w, w.sum, w.sum.buf
    ensures w.Valid() && w.out == Prelude(c, db, gen, codec)
  {
    hide LeBytes;
    hide Zeros;
    hide DirectoryBytes;
    hide Align8;
    hide SumWriter.Valid;
    w.Put(COL_MAGIC);
    w.Put(db);
    w.PutU64(gen);
    w.PutU64(|c.denseToId|);
    w.PutU64(|c.cols|);
    w.PutU64(|dir|);
    w.Put(dir);
    w.PadTo8(COL_HEADER_LEN + |dir|);
  }

  lemma BodyOf(c: Columns, db: DbId, gen: u64, codec: Codec)
    ensures 8 * |c.denseToId| % 8 == 0
    ensures ColumnsBytes(c, db, gen, codec)
      == Sealed(Prelude(c, db, gen, codec) + EncU64s(c.denseToId) + ColumnsData(c.cols, codec))
  {
  }

  /** The writing pass ends where the plan ended: both passes place every array alike. */
  method WriteFile(
    c: Columns, db: DbId, gen: u64, dir: seq<byte>, blobs: seq<seq<byte>>, ghost total: nat, ghost codec: Codec)
    returns (file: seq<byte>)
    requires dir == DirectoryBytes(c, codec) && blobs == Blobs(c.cols, codec)
    requires |c.denseToId| < U64_LIMIT && |c.cols| < U64_LIMIT && |dir| < U64_LIMIT
    requires total == 8 * |c.denseToId| + |ColumnsData(c.cols, codec)|
    ensures file == ColumnsBytes(c, db, gen, codec)
  {
    BodyOf(c, db, gen, codec);
    hide *;
    var w := new SumWriter();
    WritePrelude(w, c, db, gen, dir, codec);
    w.PutU64s(c.denseToId);
    var written := WriteColumns(w, 8 * |c.denseToId|, c.cols, blobs, codec);
    assert written == total;
    w.Finish();
    file := w.out;
  }

  /** What a save leaves: the existing file when it begins with this format's mark, this database's
    * identity and this generation, a new one otherwise.
    */
  ghost function SavedOver(existing: Option<seq<byte>>, c: Columns, db: DbId, gen: u64, codec: Codec): seq<byte> {
    if existing.Some? && COL_MAGIC + db + LeBytes(gen, 8) <= existing.value then existing.value
    else ColumnsBytes(c, db, gen, codec)
  }

  lemma ClaimedIff(file: seq<byte>, db: DbId, gen: u64)
    ensures ClaimedGen(Some(file), db) == Some(gen) <==> COL_MAGIC + db + LeBytes(gen, 8) <= file
  {
    hide LeBytes;
    hide LeNat;
    var mark := COL_MAGIC + db;
    if mark + LeBytes(gen, 8) <= file {
      U64Written(file, mark, gen);
      assert file[..8] == mark[..8] && file[8..24] == mark[8..24];
    }
    if ClaimedGen(Some(file), db) == Some(gen) {
      LeBytesLeNat(file[24..32]);
      assert file[..32] == mark + LeBytes(gen, 8);
    }
  }

  lemma HeaderWritten(c: Columns, db: DbId, gen: u64, codec: Codec)
    ensures COL_MAGIC + db + LeBytes(gen, 8) <= ColumnsBytes(c, db, gen, codec)
  {
    var file := ColumnsBytes(c, db, gen, codec);
    hide *;
    ColBodySealed(c, db, gen, codec);
    BodyPieces(file, c, db, gen, codec);
    DirectoryRead(file, c, db, gen, codec);
    MarkFirst(file, c, db, gen, |DirectoryBytes(c, codec)|);
  }

  lemma MarkFirst(file: seq<byte>, c: Columns, db: DbId, gen: u64, dirLen: nat)
    requires Begins(file, ColHeader(c, db, gen, dirLen))
    ensures COL_MAGIC + db + LeBytes(gen, 8) <= file
  {
    hide LeBytes;
    var h := COL_MAGIC + db + LeBytes(gen, 8);
    hide COL_MAGIC;
    BeginsShorter(file, h + LeBytes(|c.denseToId|, 8) + LeBytes(|c.cols|, 8), LeBytes(dirLen, 8));
    BeginsShorter(file, h + LeBytes(|c.denseToId|, 8), LeBytes(|c.cols|, 8));
    BeginsShorter(file, h, LeBytes(|c.denseToId|, 8));
  }

  lemma OneMark(file: seq<byte>, db: DbId, gen: u64, db': DbId, gen': u64)
    requires COL_MAGIC + db + LeBytes(gen, 8) <= file
    ensures COL_MAGIC + db' + LeBytes(gen', 8) <= file <==> db' == db && gen' == gen
  {
    hide LeBytes;
    hide LeNat;
    if COL_MAGIC + db' + LeBytes(gen', 8) <= file {
      U64Written(file, COL_MAGIC + db, gen);
      U64Written(file, COL_MAGIC + db', gen');
      assert file[8..24] == db && file[8..24] == db';
    }
  }

  /** What a load finds after a save: these columns where there was no file or a foreign one; where an
    * earlier save wrote the file, those it holds if it was for this generation, and these otherwise.
    */
  lemma SaveThenLoad(existing: Option<seq<byte>>, c: Columns, db: DbId, gen: u64, codec: Codec)
    requires Saveable(c, codec) && Lawful(codec)
    ensures existing == None || !(COL_MAGIC + db <= existing.value) ==>
      LoadedFile(SavedOver(existing, c, db, gen, codec), db, gen, codec) == Some(c)
    ensures forall c0, db0: DbId, gen0: u64 ::
      Saveable(c0, codec) && existing == Some(ColumnsBytes(c0, db0, gen0, codec)) ==>
        LoadedFile(SavedOver(existing, c, db, gen, codec), db, gen, codec)
        == Some(if db0 == db && gen0 == gen then c0 else c)
  {
    LoadSavedColumns(c, db, gen, codec, db, gen);
    forall c0, db0: DbId, gen0: u64 | Saveable(c0, codec) && existing == Some(ColumnsBytes(c0, db0, gen0, codec))
      ensures LoadedFile(SavedOver(existing, c, db, gen, codec), db, gen, codec)
        == Some(if db0 == db && gen0 == gen then c0 else c)
    {
      hide ColumnsBytes;
      hide LoadedFile;
      hide LeBytes;
      hide Saveable;
      LoadSavedColumns(c0, db0, gen0, codec, db, gen);
      HeaderWritten(c0, db0, gen0, codec);
      OneMark(existing.value, db0, gen0, db, gen);
    }
  }

  /** Write the file, unless the existing one already claims this generation. */
  method SaveColumns(existing: Option<seq<byte>>, c: Columns, db: DbId, gen: u64, codec: Codec)
    returns (file: seq<byte>)
    requires Saveable(c, codec)
    ensures file == SavedOver(existing, c, db, gen, codec)
  {
    if existing.Some? {
      ClaimedIff(existing.value, db, gen);
    }
    if ClaimedGen(existing, db) == Some(gen) {
      return existing.value;
    }
    hide ColumnsBytes;
    hide Directory;
    var dir, blobs, total := Plan(c, codec);
    file := WriteFile(c, db, gen, codec.encDir(dir), blobs, total, codec);
  }

  // ---------------------------------------------------------------- loading

  method AllAtMostOne(bools: seq<byte>) returns (ok: bool)
    ensures ok == Flags(bools)
  {
    for i := 0 to |bools|
      invariant forall j :: 0 <= j < i ==> bools[j] <= 1
    {
      if bools[i] > 1 {
        return false;
      }
    }
    ok := true;
  }

  method CodesFit(idx: seq<u32>, n: nat) returns (ok: bool)
    ensures ok == CodesInRange(idx, n)
  {
    for i := 0 to |idx|
      invariant forall j :: 0 <= j < i ==> idx[j] == STR_NULL || idx[j] < n
    {
      if idx[i] != STR_NULL && idx[i] >= n {
        return false;
      }
    }
    ok := true;
  }

  /** Presence words and values that belong together. */
  method PairFits(words: seq<u64>, n: nat) returns (ok: bool)
    ensures ok == (|words| == WordsFor(n))
  {
    var present := Bitmap.FromWords(words, n);
    ok := present.Some?;
  }

  /** Build a column from its mapped arrays, refusing any that do not fit together. */
  method BuildColumn(kind: nat, vs: seq<seq<nat>>, codec: Codec) returns (r: Option<Stored>)
    requires KindWidths(kind).Some? && |vs| == |KindWidths(kind).value|
    requires forall i :: 0 <= i < |vs| ==> Fits(vs[i], KindWidths(kind).value[i])
    ensures r == Assemble(kind, vs, codec)
  {
    hide Fits;
    if kind == KIND_INT || kind == KIND_FLOAT {
      var words, values := AsU64s(vs[0]), AsU64s(vs[1]);
      var ok := PairFits(words, |values|);
      r := if !ok then None
        else Some(if kind == KIND_INT then IntArrays(words, values) else FloatArrays(words, values));
    } else if kind == KIND_BOOL {
      var words, bools := AsU64s(vs[0]), AsBytes(vs[1]);
      var ok := PairFits(words, |bools|);
      var flags := AllAtMostOne(bools);
      r := if ok && flags then Some(BoolArrays(words, bools)) else None;
    } else if kind == KIND_STR {
      var idx, offsets, bytes := AsU32s(vs[0]), AsU64s(vs[1]), AsBytes(vs[2]);
      var dict := StrDict.FromParts(offsets, bytes);
      if dict == None {
        return None;
      }
      var fit := CodesFit(idx, |offsets| - 1);
      r := if fit then Some(StrArrays(idx, offsets, bytes)) else None;
    } else {
      var cells := codec.decCells(AsBytes(vs[0]));
      r := if cells.Some? then Some(JsonCells(cells.value)) else None;
    }
  }

  /** Map the places of one entry, then build its column. */
  method LoadColumn(file: seq<byte>, start: nat, region: nat, e: Entry, codec: Codec) returns (r: Option<Stored>)
    ensures r == LoadedColumn(file, start, region, e, codec)
  {
    hide Assemble;
    hide Parts;
    var ws := KindWidths(e.kind);
    if ws == None || |e.parts| != |ws.value| {
      return None;
    }
    var vs := Parts(file, start, region, e.parts, ws.value);
    if vs == None {
      return None;
    }
    r := BuildColumn(e.kind, vs.value, codec);
  }

  /** Columns loaded so far, before what the rest gives. */
  ghost function Before(loaded: seq<Named>, rest: Option<seq<Named>>): Option<seq<Named>> {
    if rest == None then None else Some(loaded + rest.value)
  }

  lemma NothingBefore(rest: Option<seq<Named>>)
    ensures Before([], rest) == rest
  {
    assert rest.Some? ==> [] + rest.value == rest.value;
  }

  /** Load every listed column; one refusal refuses the file. */
  method LoadAll(file: seq<byte>, start: nat, region: nat, entries: seq<Entry>, n: nat, codec: Codec)
    returns (r: Option<seq<Named>>)
    ensures r == LoadedColumns(file, start, region, entries, n, codec)
  {
    hide LoadedColumn;
    var loaded: seq<Named> := [];
    var i := 0;
    assert entries[0..] == entries;
    NothingBefore(LoadedColumns(file, start, region, entries, n, codec));
    while i < |entries|
      invariant 0 <= i <= |entries|
      invariant LoadedColumns(file, start, region, entries, n, codec)
        == Before(loaded, LoadedColumns(file, start, region, entries[i..], n, codec))
    {
      var col := LoadColumn(file, start, region, entries[i], codec);
      assert entries[i..][1..] == entries[i + 1..];
      if col == None || StoredLen(col.value) != n {
        return None;
      }
      ghost var rest := LoadedColumns(file, start, region, entries[i + 1..], n, codec);
      if rest.Some? {
        var one := [(entries[i].name, col.value)];
        assert loaded + (one + rest.value) == loaded + one + rest.value;
      }
      loaded := loaded + [(entries[i].name, col.value)];
      i := i + 1;
    }
    assert loaded + [] == loaded;
    r := Some(loaded);
  }

  /** The directory, then the entities, then the columns. */
  method LoadBody(file: seq<byte>, n: nat, ncols: nat, dirLen: nat, codec: Codec) returns (r: Option<Columns>)
    requires |file| >= COL_HEADER_LEN + 8
    ensures r == LoadedBody(file, n, ncols, dirLen, codec)
  {
    hide LoadedColumns;
    hide Part;
    var dirEnd := COL_HEADER_LEN + dirLen;
    if dirEnd > |file| {
      return None;
    }
    var entries := codec.decDir(file[COL_HEADER_LEN..dirEnd]);
    if entries == None || |entries.value| != ncols {
      return None;
    }
    var start := Align8(dirEnd);
    if start > |file| - 8 {
      return None;
    }
    var dense := Part(file, start, |file| - 8 - start, (0, n), 8);
    if dense == None {
      return None;
    }
    var cols := LoadAll(file, start, |file| - 8 - start, entries.value, n, codec);
    if cols == None {
      return None;
    }
    r := Some(Columns(AsU64s(dense.value), cols.value));
  }

  /** Check the header and the checksum, decode the directory, then map the entities and the columns. */
  method LoadColumns(file: seq<byte>, db: DbId, gen: u64, codec: Codec) returns (r: Option<Columns>)
    ensures r == LoadedFile(file, db, gen, codec)
  {
    hide LoadedBody;
    if |file| < COL_HEADER_LEN + 8 {
      return None;
    }
    if file[..8] != COL_MAGIC || file[8..24] != db || U64At(file, 24) != Some(gen) {
      return None;
    }
    var sum := ChecksumOf(file[..|file| - 8]);
    if U64At(file, |file| - 8) != Some(sum) {
      return None;
    }
    var n, ncols, dirLen := U64At(file, 32).value, U64At(file, 40).value, U64At(file, 48).value;
    r := LoadBody(file, n, ncols, dirLen, codec);
  }
}
