/** The columns cache file: every array placed in a first pass, written in a second, and mapped back. */
module ColumnsFile {
  import opened Words
  import opened Json
  import opened ColumnParts
  import opened Column
  import opened Checksums
  import opened CacheBytes

  /** "ISSNCOL1". */
  const COL_MAGIC: seq<byte> := [0x49, 0x53, 0x53, 0x4E, 0x43, 0x4F, 0x4C, 0x31]

  const COL_HEADER_LEN: nat := 56

  const KIND_INT: nat := 0
  const KIND_FLOAT: nat := 1
  const KIND_BOOL: nat := 2
  const KIND_STR: nat := 3
  const KIND_JSON: nat := 4

  /** A column's arrays as their bits: integers in two's complement, doubles as IEEE words. */
  datatype Stored =
    | IntArrays(words: seq<u64>, ints: seq<u64>)
    | FloatArrays(words: seq<u64>, bits: seq<u64>)
    | BoolArrays(words: seq<u64>, bools: seq<byte>)
    | StrArrays(idx: seq<u32>, offsets: seq<u64>, bytes: seq<byte>)
    | JsonCells(cells: seq<Option<Value>>)

  type Place = (nat, nat)   // offset from the start of the data region, length in elements

  datatype Entry = Entry(name: Text, kind: nat, parts: seq<Place>)

  /** The serializer of the directory and of boxed cells. */
  datatype Codec = Codec(
    encDir: seq<Entry> -> seq<byte>, decDir: seq<byte> -> Option<seq<Entry>>,
    encCells: seq<Option<Value>> -> seq<byte>, decCells: seq<byte> -> Option<seq<Option<Value>>>)

  /** No cell holds a null value: the serializer writes a null and an empty cell alike. */
  ghost predicate NoNulls(cells: seq<Option<Value>>) {
    forall i :: 0 <= i < |cells| ==> cells[i] != Some(Null)
  }

  /** Decoding undoes encoding. */
  ghost predicate Lawful(codec: Codec) {
    && (forall d :: codec.decDir(codec.encDir(d)) == Some(d))
    && (forall c :: NoNulls(c) ==> codec.decCells(codec.encCells(c)) == Some(c))
  }

  // ---------------------------------------------------------------- sections

  datatype Section = Section(vals: seq<nat>, w: Width)

  function U64Section(vs: seq<u64>): Section { Section(vs, 8) }

  function U32Section(vs: seq<u32>): Section { Section(vs, 4) }

  function ByteSection(vs: seq<byte>): Section { Section(vs, 1) }

  function SectionLen(s: Section): nat {
    Span(|s.vals|, s.w)
  }

  predicate AllFit(ss: seq<Section>) {
    forall i :: 0 <= i < |ss| ==> Fits(ss[i].vals, ss[i].w)
  }

  /** The arrays of a column in file order. */
  function Sections(s: Stored, codec: Codec): seq<Section> {
    match s
    case IntArrays(words, ints) => [U64Section(words), U64Section(ints)]
    case FloatArrays(words, bits) => [U64Section(words), U64Section(bits)]
    case BoolArrays(words, bools) => [U64Section(words), ByteSection(bools)]
    case StrArrays(idx, offsets, bytes) => [U32Section(idx), U64Section(offsets), ByteSection(bytes)]
    case JsonCells(cells) => [ByteSection(codec.encCells(cells))]
  }

  function KindCode(s: Stored): nat {
    match s
    case IntArrays(_, _) => KIND_INT
    case FloatArrays(_, _) => KIND_FLOAT
    case BoolArrays(_, _) => KIND_BOOL
    case StrArrays(_, _, _) => KIND_STR
    case JsonCells(_) => KIND_JSON
  }

  /** One array, zero-padded to a multiple of 8 bytes. */
  function PaddedEnc(s: Section): (b: seq<byte>)
    ensures |b| == Align8(SectionLen(s))
  {
    Enc(s.vals, s.w) + Zeros(Align8(SectionLen(s)) - SectionLen(s))
  }

  lemma MultiplesAdd(a: nat, b: nat)
    requires a % 8 == 0 && b % 8 == 0
    ensures (a + b) % 8 == 0
  {
  }

  function Data(ss: seq<Section>): (b: seq<byte>)
    ensures |b| % 8 == 0
  {
    if ss == [] then []
    else
      MultiplesAdd(|PaddedEnc(ss[0])|, |Data(ss[1..])|);
      PaddedEnc(ss[0]) + Data(ss[1..])
  }

  /** Where the arrays go when the first is at `at`. */
  function Places(at: nat, ss: seq<Section>): (ps: seq<Place>)
    ensures |ps| == |ss|
    decreases |ss|
  {
    if ss == [] then [] else [(at, |ss[0].vals|)] + Places(at + Align8(SectionLen(ss[0])), ss[1..])
  }

  // ---------------------------------------------------------------- mapping sections back

  /** An array inside the data region. */
  function Part(file: seq<byte>, start: nat, region: nat, p: Place, w: Width): (r: Option<seq<nat>>)
    ensures r.Some? ==> |r.value| == p.1 && Fits(r.value, w)
    ensures r.Some? <==>
      p.0 + Span(p.1, w) <= region && start + p.0 + Span(p.1, w) <= |file| && (start + p.0) % w == 0
  {
    if p.0 + Span(p.1, w) <= region then Mapped(file, start + p.0, p.1, w) else None
  }

  function Parts(file: seq<byte>, start: nat, region: nat, ps: seq<Place>, ws: seq<Width>): (r: Option<seq<seq<nat>>>)
    requires |ps| == |ws|
    ensures r.Some? ==> |r.value| == |ps|
    ensures r.Some? ==> forall i :: 0 <= i < |ps| ==> |r.value[i]| == ps[i].1 && Fits(r.value[i], ws[i])
  {
    if ps == [] then Some([])
    else
      var head := Part(file, start, region, ps[0], ws[0]);
      var rest := Parts(file, start, region, ps[1..], ws[1..]);
      if head.Some? && rest.Some? then Some([head.value] + rest.value) else None
  }

  function Widths(ss: seq<Section>): (ws: seq<Width>)
    ensures |ws| == |ss|
  {
    seq(|ss|, i requires 0 <= i < |ss| => ss[i].w)
  }

  function Contents(ss: seq<Section>): (vs: seq<seq<nat>>)
    ensures |vs| == |ss|
  {
    seq(|ss|, i requires 0 <= i < |ss| => ss[i].vals)
  }

  lemma AlignedFor(n: nat, w: Width)
    requires n % 8 == 0
    ensures n % w == 0
  {
  }

  lemma BeginsWith(file: seq<byte>, before: seq<byte>, a: seq<byte>, b: seq<byte>, c: seq<byte>)
    requires Begins(file, before + (a + b + c))
    ensures Begins(file, before + a) && Begins(file, before + (a + b) + c)
  {
    assert before + (a + b + c) == before + a + (b + c);
    assert before + (a + b + c) == before + (a + b) + c;
  }

  lemma PartWritten(file: seq<byte>, before: seq<byte>, s: Section, start: nat, region: nat, at: nat)
    requires Begins(file, before + Enc(s.vals, s.w)) && Fits(s.vals, s.w)
    requires |before| == start + at && |before| % 8 == 0 && at + SectionLen(s) <= region
    ensures Part(file, start, region, (at, |s.vals|), s.w) == Some(s.vals)
  {
    AlignedFor(|before|, s.w);
    MappedWritten(file, before, s.vals, s.w);
  }

  lemma PartsStep(file: seq<byte>, start: nat, region: nat, at: nat, ss: seq<Section>)
    requires ss != [] && Part(file, start, region, (at, |ss[0].vals|), ss[0].w) == Some(ss[0].vals)
    requires Parts(file, start, region, Places(at + Align8(SectionLen(ss[0])), ss[1..]), Widths(ss[1..]))
      == Some(Contents(ss[1..]))
    ensures Parts(file, start, region, Places(at, ss), Widths(ss)) == Some(Contents(ss))
  {
    hide Part;
    hide Fits;
    hide SectionLen;
    hide Align8;
    assert Widths(ss)[1..] == Widths(ss[1..]);
    assert Contents(ss) == [ss[0].vals] + Contents(ss[1..]);
    assert Places(at, ss)[1..] == Places(at + Align8(SectionLen(ss[0])), ss[1..]);
  }

  /** One section off the front. */
  lemma DataStep(file: seq<byte>, before: seq<byte>, ss: seq<Section>)
    requires ss != [] && Begins(file, before + Data(ss))
    ensures Begins(file, before + Enc(ss[0].vals, ss[0].w))
    ensures Begins(file, before + PaddedEnc(ss[0]) + Data(ss[1..]))
    ensures |Data(ss)| == |PaddedEnc(ss[0])| + |Data(ss[1..])|
  {
    var s := ss[0];
    hide Begins;
    hide Enc;
    BeginsWith(file, before, Enc(s.vals, s.w), Zeros(Align8(SectionLen(s)) - SectionLen(s)), Data(ss[1..]));
  }

  /** The next section starts where the padding of this one ends. */
  lemma NextPlace(before: seq<byte>, ss: seq<Section>, start: nat, region: nat, at: nat)
    requires ss != [] && AllFit(ss) && |before| % 8 == 0 && |before| == start + at && at + |Data(ss)| <= region
    ensures var next, len := before + PaddedEnc(ss[0]), Align8(SectionLen(ss[0]));
      && |next| % 8 == 0 && |next| == start + (at + len) && at + len + |Data(ss[1..])| <= region
    ensures Fits(ss[0].vals, ss[0].w) && AllFit(ss[1..]) && at + SectionLen(ss[0]) <= region
  {
    hide Fits;
    hide Enc;
    MultiplesAdd(|before|, |PaddedEnc(ss[0])|);
    assert |Data(ss)| == |PaddedEnc(ss[0])| + |Data(ss[1..])|;
    assert SectionLen(ss[0]) <= Align8(SectionLen(ss[0]));
    hide Data;
    hide PaddedEnc;
    hide Align8;
    hide SectionLen;
  }

  /** Arrays written one after another are mapped back by their planned places. */
  lemma {:induction false} PartsWritten(
    file: seq<byte>, before: seq<byte>, ss: seq<Section>, start: nat, region: nat, at: nat)
    requires AllFit(ss) && |before| % 8 == 0 && |before| == start + at && at + |Data(ss)| <= region
    requires Begins(file, before + Data(ss))
    ensures Parts(file, start, region, Places(at, ss), Widths(ss)) == Some(Contents(ss))
    decreases |ss|
  {
    hide *;
    if ss == [] {
      NoParts(file, start, region, at);
    } else {
      DataStep(file, before, ss);
      NextPlace(before, ss, start, region, at);
      PartWritten(file, before, ss[0], start, region, at);
      PartsWritten(file, before + PaddedEnc(ss[0]), ss[1..], start, region, at + Align8(SectionLen(ss[0])));
      PartsStep(file, start, region, at, ss);
    }
  }

  lemma NoParts(file: seq<byte>, start: nat, region: nat, at: nat)
    ensures Parts(file, start, region, Places(at, []), Widths([])) == Some(Contents([]))
  {
    assert Contents([]) == [];
  }

  // ---------------------------------------------------------------- columns

  type Named = (Text, Stored)

  /** What the loader checks of a column's arrays. */
  ghost predicate StoredShaped(s: Stored) {
    match s
    case IntArrays(words, ints) => |words| == WordsFor(|ints|)
    case FloatArrays(words, bits) => |words| == WordsFor(|bits|)
    case BoolArrays(words, bools) => |words| == WordsFor(|bools|) && Flags(bools)
    case StrArrays(idx, offsets, bytes) => DictShaped(offsets, bytes) && CodesInRange(idx, |offsets| - 1)
    case JsonCells(_) => true
  }

  /** What is saved: well formed, and serializable without loss. */
  ghost predicate Sound(s: Stored) {
    StoredShaped(s) && (s.JsonCells? ==> NoNulls(s.cells))
  }

  function StoredLen(s: Stored): nat {
    match s
    case IntArrays(_, ints) => |ints|
    case FloatArrays(_, bits) => |bits|
    case BoolArrays(_, bools) => |bools|
    case StrArrays(idx, _, _) => |idx|
    case JsonCells(cells) => |cells|
  }

  lemma SectionsFit(s: Stored, codec: Codec)
    ensures AllFit(Sections(s, codec))
  {
    match s
    case IntArrays(words, ints) => U64sFit(words); U64sFit(ints);
    case FloatArrays(words, bits) => U64sFit(words); U64sFit(bits);
    case BoolArrays(words, bools) => U64sFit(words); BytesFit(bools);
    case StrArrays(idx, offsets, bytes) => U32sFit(idx); U64sFit(offsets); BytesFit(bytes);
    case JsonCells(cells) => BytesFit(codec.encCells(cells));
  }

  function ColumnBytes(s: Stored, codec: Codec): (b: seq<byte>)
    ensures |b| % 8 == 0
  {
    Data(Sections(s, codec))
  }

  function ColumnsData(cols: seq<Named>, codec: Codec): (b: seq<byte>)
    ensures |b| % 8 == 0
  {
    if cols == [] then []
    else
      MultiplesAdd(|ColumnBytes(cols[0].1, codec)|, |ColumnsData(cols[1..], codec)|);
      ColumnBytes(cols[0].1, codec) + ColumnsData(cols[1..], codec)
  }

  function EntryOf(at: nat, col: Named, codec: Codec): Entry {
    Entry(col.0, KindCode(col.1), Places(at, Sections(col.1, codec)))
  }

  /** The directory when the first column goes at `at`. */
  function Directory(at: nat, cols: seq<Named>, codec: Codec): (d: seq<Entry>)
    ensures |d| == |cols|
    decreases |cols|
  {
    if cols == [] then []
    else [EntryOf(at, cols[0], codec)] + Directory(at + |ColumnBytes(cols[0].1, codec)|, cols[1..], codec)
  }

  /** The element widths of a kind's arrays. */
  function KindWidths(kind: nat): Option<seq<Width>> {
    if kind == KIND_INT || kind == KIND_FLOAT then Some([8, 8])
    else if kind == KIND_BOOL then Some([8, 1])
    else if kind == KIND_STR then Some([4, 8, 1])
    else if kind == KIND_JSON then Some([1])
    else None
  }

  /** A column from its arrays, refused when they do not fit together. */
  ghost function Assemble(kind: nat, vs: seq<seq<nat>>, codec: Codec): Option<Stored>
    requires KindWidths(kind).Some? && |vs| == |KindWidths(kind).value|
    requires forall i :: 0 <= i < |vs| ==> Fits(vs[i], KindWidths(kind).value[i])
  {
    if kind == KIND_INT then Checked(IntArrays(AsU64s(vs[0]), AsU64s(vs[1])))
    else if kind == KIND_FLOAT then Checked(FloatArrays(AsU64s(vs[0]), AsU64s(vs[1])))
    else if kind == KIND_BOOL then Checked(BoolArrays(AsU64s(vs[0]), AsBytes(vs[1])))
    else if kind == KIND_STR then Checked(StrArrays(AsU32s(vs[0]), AsU64s(vs[1]), AsBytes(vs[2])))
    else
      match codec.decCells(AsBytes(vs[0]))
      case Some(cells) => Some(JsonCells(cells))
      case None => None
  }

  ghost function Checked(s: Stored): Option<Stored> {
    if StoredShaped(s) then Some(s) else None
  }

  ghost function LoadedColumn(file: seq<byte>, start: nat, region: nat, e: Entry, codec: Codec): Option<Stored> {
    var ws := KindWidths(e.kind);
    if ws == None || |e.parts| != |ws.value| then None
    else
      var vs := Parts(file, start, region, e.parts, ws.value);
      if vs == None then None else Assemble(e.kind, vs.value, codec)
  }

  lemma Assembled(s: Stored, codec: Codec)
    requires Sound(s) && Lawful(codec)
    ensures KindWidths(KindCode(s)) == Some(Widths(Sections(s, codec)))
    ensures AllFit(Sections(s, codec))
    ensures Assemble(KindCode(s), Contents(Sections(s, codec)), codec) == Some(s)
  {
    SectionsFit(s, codec);
    hide Fits;
    var ss := Sections(s, codec);
    match s
    case IntArrays(words, ints) =>
      assert Widths(ss) == [8, 8] && Contents(ss) == [words, ints];
    case FloatArrays(words, bits) =>
      assert Widths(ss) == [8, 8] && Contents(ss) == [words, bits];
    case BoolArrays(words, bools) =>
      assert Widths(ss) == [8, 1] && Contents(ss) == [words, bools];
    case StrArrays(idx, offsets, bytes) =>
      assert Widths(ss) == [4, 8, 1] && Contents(ss) == [idx, offsets, bytes];
    case JsonCells(cells) =>
      assert Widths(ss) == [1] && Contents(ss) == [codec.encCells(cells)];
  }

  lemma ColumnWritten(
    file: seq<byte>, before: seq<byte>, col: Named, codec: Codec, start: nat, region: nat, at: nat)
    requires Sound(col.1) && Lawful(codec)
    requires |before| % 8 == 0 && |before| == start + at && at + |ColumnBytes(col.1, codec)| <= region
    requires Begins(file, before + ColumnBytes(col.1, codec))
    ensures LoadedColumn(file, start, region, EntryOf(at, col, codec), codec) == Some(col.1)
  {
    hide Begins;
    hide Data;
    hide Places;
    hide Parts;
    hide Sections;
    hide Assemble;
    hide KindWidths;
    hide KindCode;
    hide AllFit;
    Assembled(col.1, codec);
    PartsWritten(file, before, Sections(col.1, codec), start, region, at);
  }

  /** All columns, each as long as the entity list. */
  ghost function LoadedColumns(
    file: seq<byte>, start: nat, region: nat, entries: seq<Entry>, n: nat, codec: Codec): Option<seq<Named>>
    decreases |entries|
  {
    if entries == [] then Some([])
    else
      var head := LoadedColumn(file, start, region, entries[0], codec);
      var rest := LoadedColumns(file, start, region, entries[1..], n, codec);
      if head == None || rest == None || StoredLen(head.value) != n then None
      else Some([(entries[0].name, head.value)] + rest.value)
  }

  ghost predicate AllShaped(cols: seq<Named>, n: nat) {
    forall i :: 0 <= i < |cols| ==> Sound(cols[i].1) && StoredLen(cols[i].1) == n
  }

  lemma ColumnsStep(file: seq<byte>, start: nat, region: nat, at: nat, cols: seq<Named>, n: nat, codec: Codec)
    requires cols != [] && StoredLen(cols[0].1) == n
    requires LoadedColumn(file, start, region, EntryOf(at, cols[0], codec), codec) == Some(cols[0].1)
    requires LoadedColumns(
      file, start, region, Directory(at + |ColumnBytes(cols[0].1, codec)|, cols[1..], codec), n, codec)
      == Some(cols[1..])
    ensures LoadedColumns(file, start, region, Directory(at, cols, codec), n, codec) == Some(cols)
  {
    hide LoadedColumn;
    hide ColumnBytes;
    hide StoredLen;
    hide Places;
    var d := Directory(at, cols, codec);
    assert d[1..] == Directory(at + |ColumnBytes(cols[0].1, codec)|, cols[1..], codec);
    assert cols == [(d[0].name, cols[0].1)] + cols[1..];
  }

  lemma ColumnOffFront(
    file: seq<byte>, before: seq<byte>, cols: seq<Named>, codec: Codec, start: nat, region: nat, at: nat, n: nat)
    requires cols != [] && AllShaped(cols, n) && Begins(file, before + ColumnsData(cols, codec))
    requires |before| % 8 == 0 && |before| == start + at && at + |ColumnsData(cols, codec)| <= region
    ensures var bytes := ColumnBytes(cols[0].1, codec);
      && Begins(file, before + bytes) && Begins(file, before + bytes + ColumnsData(cols[1..], codec))
      && |before + bytes| % 8 == 0 && |before + bytes| == start + (at + |bytes|)
      && at + |bytes| + |ColumnsData(cols[1..], codec)| <= region && at + |bytes| <= region
    ensures Sound(cols[0].1) && StoredLen(cols[0].1) == n && AllShaped(cols[1..], n)
  {
    hide Sound;
    hide StoredLen;
    hide ColumnBytes;
    var bytes, rest := ColumnBytes(cols[0].1, codec), ColumnsData(cols[1..], codec);
    Assoc(before, bytes, rest);
    MultiplesAdd(|before|, |bytes|);
    hide Begins;
    BeginsShorter(file, before + bytes, rest);
  }

  /** The columns written one after another load back by the planned directory. */
  lemma {:induction false} ColumnsWritten(
    file: seq<byte>, before: seq<byte>, cols: seq<Named>, codec: Codec, start: nat, region: nat, at: nat, n: nat)
    requires AllShaped(cols, n) && Lawful(codec) && Begins(file, before + ColumnsData(cols, codec))
    requires |before| % 8 == 0 && |before| == start + at && at + |ColumnsData(cols, codec)| <= region
    ensures LoadedColumns(file, start, region, Directory(at, cols, codec), n, codec) == Some(cols)
    decreases |cols|
  {
    hide *;
    if cols == [] {
      NoColumns(file, start, region, at, n, codec);
    } else {
      var bytes := ColumnBytes(cols[0].1, codec);
      ColumnOffFront(file, before, cols, codec, start, region, at, n);
      ColumnWritten(file, before, cols[0], codec, start, region, at);
      ColumnsWritten(file, before + bytes, cols[1..], codec, start, region, at + |bytes|, n);
      ColumnsStep(file, start, region, at, cols, n, codec);
    }
  }

  lemma NoColumns(file: seq<byte>, start: nat, region: nat, at: nat, n: nat, codec: Codec)
    ensures LoadedColumns(file, start, region, Directory(at, [], codec), n, codec) == Some([])
  {
  }

  // ---------------------------------------------------------------- the whole file

  datatype Columns = Columns(denseToId: seq<u64>, cols: seq<Named>)

  function DirectoryBytes(c: Columns, codec: Codec): seq<byte> {
    codec.encDir(Directory(8 * |c.denseToId|, c.cols, codec))
  }

  function ColHeader(c: Columns, db: DbId, gen: u64, dirLen: nat): seq<byte> {
    COL_MAGIC + db + LeBytes(gen, 8) + LeBytes(|c.denseToId|, 8) + LeBytes(|c.cols|, 8) + LeBytes(dirLen, 8)
  }

  /** Everything before the data region. */
  function Prelude(c: Columns, db: DbId, gen: u64, codec: Codec): seq<byte> {
    var dir := DirectoryBytes(c, codec);
    ColHeader(c, db, gen, |dir|) + dir + Zeros(Align8(COL_HEADER_LEN + |dir|) - (COL_HEADER_LEN + |dir|))
  }

  function ColBody(c: Columns, db: DbId, gen: u64, codec: Codec): seq<byte> {
    Prelude(c, db, gen, codec) + EncU64s(c.denseToId) + ColumnsData(c.cols, codec)
  }

  function ColumnsBytes(c: Columns, db: DbId, gen: u64, codec: Codec): seq<byte> {
    Sealed(ColBody(c, db, gen, codec))
  }

  /** What the fixed header says, when it is this format's, this database's and this generation's. */
  function ReadColHeader(file: seq<byte>, db: DbId, gen: u64): (r: Option<(u64, u64, u64)>)
    ensures r.Some? ==> |file| >= COL_HEADER_LEN + 8
  {
    if |file| < COL_HEADER_LEN + 8 then None
    else if file[..8] != COL_MAGIC || file[8..24] != db then None
    else if U64At(file, 24) != Some(gen) then None
    else Some((U64At(file, 32).value, U64At(file, 40).value, U64At(file, 48).value))
  }

  ghost function LoadedFile(file: seq<byte>, db: DbId, gen: u64, codec: Codec): Option<Columns> {
    var header := ReadColHeader(file, db, gen);
    if header == None || !SealIntact(file) then None
    else
      var (n, ncols, dirLen) := header.value;
      LoadedBody(file, n, ncols, dirLen, codec)
  }

  /** The directory, then the entities, then the columns. */
  ghost function LoadedBody(file: seq<byte>, n: nat, ncols: nat, dirLen: nat, codec: Codec): Option<Columns>
    requires |file| >= COL_HEADER_LEN + 8
  {
    var dirEnd := COL_HEADER_LEN + dirLen;
    var start := Align8(dirEnd);
    if dirEnd > |file| || start > |file| - 8 then None
    else
      var entries := codec.decDir(file[COL_HEADER_LEN..dirEnd]);
      if entries == None || |entries.value| != ncols then None
      else
        var dense := Part(file, start, |file| - 8 - start, (0, n), 8);
        var cols := LoadedColumns(file, start, |file| - 8 - start, entries.value, n, codec);
        if dense == None || cols == None then None else Some(Columns(AsU64s(dense.value), cols.value))
  }

  // ---------------------------------------------------------------- the round trip

  lemma ColHeaderLength(c: Columns, db: DbId, gen: u64, dirLen: nat)
    ensures |ColHeader(c, db, gen, dirLen)| == COL_HEADER_LEN
  {
  }

  lemma ColHeaderRead(file: seq<byte>, c: Columns, db: DbId, gen: u64, dirLen: nat, db': DbId, gen': u64)
    requires Begins(file, ColHeader(c, db, gen, dirLen)) && |file| >= COL_HEADER_LEN + 8
    requires |c.denseToId| < U64_LIMIT && |c.cols| < U64_LIMIT && dirLen < U64_LIMIT
    ensures ReadColHeader(file, db', gen')
      == if db' == db && gen' == gen then Some((|c.denseToId|, |c.cols|, dirLen)) else None
  {
    hide Begins;
    hide LeBytes;
    var h1 := COL_MAGIC + db;
    var h2 := h1 + LeBytes(gen, 8);
    var h3 := h2 + LeBytes(|c.denseToId|, 8);
    var h4 := h3 + LeBytes(|c.cols|, 8);
    BeginsShorter(file, h4, LeBytes(dirLen, 8));
    BeginsShorter(file, h3, LeBytes(|c.cols|, 8));
    BeginsShorter(file, h2, LeBytes(|c.denseToId|, 8));
    BeginsShorter(file, h1, LeBytes(gen, 8));
    U64Written(file, h1, gen);
    U64Written(file, h2, |c.denseToId|);
    U64Written(file, h3, |c.cols|);
    U64Written(file, h4, dirLen);
    ColMagicAndIdentity(file, db);
  }

  lemma ColMagicAndIdentity(file: seq<byte>, db: DbId)
    requires Begins(file, COL_MAGIC + db)
    ensures file[..8] == COL_MAGIC && file[8..24] == db
  {
    SplitPrefix(COL_MAGIC + db, file);
    Middle(COL_MAGIC, db, file[24..]);
  }

  /** The prelude ends where the data region starts, 8-byte aligned. */
  lemma PreludeLength(c: Columns, db: DbId, gen: u64, codec: Codec)
    ensures |Prelude(c, db, gen, codec)| == Align8(COL_HEADER_LEN + |DirectoryBytes(c, codec)|)
  {
    hide ColHeader;
    hide DirectoryBytes;
    ColHeaderLength(c, db, gen, |DirectoryBytes(c, codec)|);
  }

  lemma DirectoryRead(file: seq<byte>, c: Columns, db: DbId, gen: u64, codec: Codec)
    requires Begins(file, Prelude(c, db, gen, codec))
    ensures var dir := DirectoryBytes(c, codec);
      && COL_HEADER_LEN + |dir| <= |file| && file[COL_HEADER_LEN..COL_HEADER_LEN + |dir|] == dir
      && Begins(file, ColHeader(c, db, gen, |dir|))
  {
    hide ColHeader;
    hide DirectoryBytes;
    var dir := DirectoryBytes(c, codec);
    var h := ColHeader(c, db, gen, |dir|);
    ColHeaderLength(c, db, gen, |dir|);
    SliceRead(file, h, dir, Zeros(Align8(COL_HEADER_LEN + |dir|) - (COL_HEADER_LEN + |dir|)));
  }

  lemma SliceRead(file: seq<byte>, a: seq<byte>, b: seq<byte>, c: seq<byte>)
    requires Begins(file, a + b + c)
    ensures |a| + |b| <= |file| && file[|a|..|a| + |b|] == b && Begins(file, a)
  {
    BeginsShorter(file, a + b, c);
    BeginsShorter(file, a, b);
    SplitPrefix(a + b, file);
    Middle(a, b, file[|a + b|..]);
  }

  /** What a file must begin with for its pieces to be found. */
  lemma BodyPieces(file: seq<byte>, c: Columns, db: DbId, gen: u64, codec: Codec)
    requires Begins(file, ColBody(c, db, gen, codec)) && |file| == |ColBody(c, db, gen, codec)| + 8
    ensures var p := Prelude(c, db, gen, codec);
      && Begins(file, p) && Begins(file, p + EncU64s(c.denseToId))
      && Begins(file, p + EncU64s(c.denseToId) + ColumnsData(c.cols, codec))
      && |file| - 8 - |p| == 8 * |c.denseToId| + |ColumnsData(c.cols, codec)|
  {
    hide Begins;
    hide Prelude;
    hide ColumnsData;
    hide EncU64s;
    var p := Prelude(c, db, gen, codec);
    BeginsShorter(file, p + EncU64s(c.denseToId), ColumnsData(c.cols, codec));
    BeginsShorter(file, p, EncU64s(c.denseToId));
  }

  lemma DenseWritten(file: seq<byte>, before: seq<byte>, ids: seq<u64>, region: nat)
    requires Begins(file, before + EncU64s(ids)) && |before| % 8 == 0 && 8 * |ids| <= region
    ensures Part(file, |before|, region, (0, |ids|), 8) == Some(ids)
  {
    U64sFit(ids);
    hide Begins;
    hide Enc;
    hide Fits;
    PartWritten(file, before, Section(ids, 8), |before|, region, 0);
  }

  lemma DataRead(file: seq<byte>, before: seq<byte>, c: Columns, codec: Codec, region: nat)
    requires AllShaped(c.cols, |c.denseToId|) && Lawful(codec) && |before| % 8 == 0
    requires Begins(file, before + EncU64s(c.denseToId))
    requires Begins(file, before + EncU64s(c.denseToId) + ColumnsData(c.cols, codec))
    requires region == 8 * |c.denseToId| + |ColumnsData(c.cols, codec)|
    ensures Part(file, |before|, region, (0, |c.denseToId|), 8) == Some(c.denseToId)
    ensures LoadedColumns(
      file, |before|, region, Directory(8 * |c.denseToId|, c.cols, codec), |c.denseToId|, codec) == Some(c.cols)
  {
    hide *;
    DenseWritten(file, before, c.denseToId, region);
    MultiplesAdd(|before|, 8 * |c.denseToId|);
    ColumnsWritten(
      file, before + EncU64s(c.denseToId), c.cols, codec, |before|, region, 8 * |c.denseToId|, |c.denseToId|);
  }

  /** A column set whose columns all cover its entities, small enough to number in 64 bits. */
  ghost predicate Saveable(c: Columns, codec: Codec) {
    && AllShaped(c.cols, |c.denseToId|)
    && |c.denseToId| < U64_LIMIT && |c.cols| < U64_LIMIT && |DirectoryBytes(c, codec)| < U64_LIMIT
  }

  lemma DirectoryIs(c: Columns, codec: Codec)
    ensures DirectoryBytes(c, codec) == codec.encDir(Directory(8 * |c.denseToId|, c.cols, codec))
  {
  }

  lemma BodyRead(file: seq<byte>, c: Columns, db: DbId, gen: u64, codec: Codec)
    requires Saveable(c, codec) && Lawful(codec)
    requires Begins(file, ColBody(c, db, gen, codec)) && |file| == |ColBody(c, db, gen, codec)| + 8
    requires |file| >= COL_HEADER_LEN + 8
    ensures LoadedBody(file, |c.denseToId|, |c.cols|, |DirectoryBytes(c, codec)|, codec) == Some(c)
  {
    hide Begins;
    hide ColBody;
    hide Prelude;
    hide ColumnsData;
    hide EncU64s;
    hide Part;
    hide LoadedColumns;
    hide Directory;
    hide AllShaped;
    hide DirectoryBytes;
    BodyPieces(file, c, db, gen, codec);
    PreludeLength(c, db, gen, codec);
    hide Align8;
    assert DirectoryBytes(c, codec) == codec.encDir(Directory(8 * |c.denseToId|, c.cols, codec)) by {
      DirectoryIs(c, codec);
    }
    DirectoryRead(file, c, db, gen, codec);
    DataRead(file, Prelude(c, db, gen, codec), c, codec, |file| - 8 - |Prelude(c, db, gen, codec)|);
  }

  lemma ColBodySealed(c: Columns, db: DbId, gen: u64, codec: Codec)
    ensures Begins(ColumnsBytes(c, db, gen, codec), ColBody(c, db, gen, codec))
    ensures |ColumnsBytes(c, db, gen, codec)| == |ColBody(c, db, gen, codec)| + 8 >= COL_HEADER_LEN + 8
    ensures SealIntact(ColumnsBytes(c, db, gen, codec))
  {
    SealedIntact(ColBody(c, db, gen, codec));
    PreludeLength(c, db, gen, codec);
    hide Prelude;
    hide Sealed;
    hide SealIntact;
    SealedBegins(ColBody(c, db, gen, codec));
  }

  lemma SealedBegins(body: seq<byte>)
    ensures Begins(Sealed(body), body) && |Sealed(body)| == |body| + 8
  {
  }

  /** A saved column set of any kinds loads back array for array, for its own database and generation and
    * for no other.
    */
  lemma LoadSavedColumns(c: Columns, db: DbId, gen: u64, codec: Codec, db': DbId, gen': u64)
    requires Saveable(c, codec) && Lawful(codec)
    ensures LoadedFile(ColumnsBytes(c, db, gen, codec), db', gen', codec)
      == if db' == db && gen' == gen then Some(c) else None
  {
    var file := ColumnsBytes(c, db, gen, codec);
    ColBodySealed(c, db, gen, codec);
    hide ColumnsBytes;
    hide ColBody;
    hide Begins;
    hide SealIntact;
    hide LoadedBody;
    hide ReadColHeader;
    hide Lawful;
    hide AllShaped;
    hide DirectoryBytes;
    BodyPieces(file, c, db, gen, codec);
    DirectoryRead(file, c, db, gen, codec);
    ColHeaderRead(file, c, db, gen, |DirectoryBytes(c, codec)|, db', gen');
    BodyRead(file, c, db, gen, codec);
  }

  /** A saved file with one aligned word of its body changed is never loaded. */
  lemma CorruptColumnsRefused(
    c: Columns, db: DbId, gen: u64, codec: Codec, file: seq<byte>, k: nat, db': DbId, gen': u64)
    requires var body := ColBody(c, db, gen, codec);
      && |file| == |body| + 8 && file[|body|..] == LeBytes(Checksum(body), 8)
      && DifferOnlyInWord(body, file[..|body|], k) && body != file[..|body|]
    ensures LoadedFile(file, db', gen', codec) == None
  {
    ChangedWordBreaksSeal(ColBody(c, db, gen, codec), file, k);
  }
}
