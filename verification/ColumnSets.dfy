/** One entity's slots rewritten across a set of columns. */
module ColumnSets {
  import opened Json
  import opened ColumnParts
  import opened Column
  import opened Tables
  import opened Builders

  type Cols = map<Text, PropColumn>
  type Columns = map<Text, seq<Value>>

  /** How many dictionary entries each column has. */
  type Counts = map<Text, nat>

  /** Well-formed columns with exactly these cells and dictionary sizes, all their parts in `owned`. */
  ghost predicate Hold(cols: Cols, owned: set<object>, columns: Columns, counts: Counts)
    reads owned
  {
    ColsOk(cols, owned) && CellsAre(cols, owned, columns) && CountsAre(cols, owned, counts)
  }

  ghost predicate CellsAre(cols: Cols, owned: set<object>, columns: Columns)
    reads owned
  {
    cols.Keys == columns.Keys && forall p :: p in cols ==> cols[p] in owned && cols[p].cells == columns[p]
  }

  ghost predicate CountsAre(cols: Cols, owned: set<object>, counts: Counts)
    requires ColsOk(cols, owned)
    reads owned
  {
    cols.Keys == counts.Keys && forall p :: p in cols ==> cols[p].Strings() == counts[p]
  }

  lemma HoldOwns(cols: Cols, owned: set<object>, columns: Columns, counts: Counts, k: Text)
    requires Hold(cols, owned, columns, counts) && k in cols
    ensures k in columns && k in counts && cols[k] in owned && cols[k].Repr <= owned && cols[k].Valid()
    ensures cols[k].cells == columns[k] && cols[k].Strings() == counts[k]
  {
  }

  /** At most one more dictionary entry, in the column of `k`. */
  ghost predicate OneMoreString(counts: Counts, counts': Counts, k: Text) {
    && counts'.Keys == counts.Keys && (forall p :: p in counts && p != k ==> counts'[p] == counts[p])
    && (k in counts ==> counts'[k] <= counts[k] + 1)
  }

  lemma CountSet(counts: Counts, k: Text, c: nat)
    requires k in counts && c <= counts[k] + 1
    ensures OneMoreString(counts, counts[k := c], k)
  {
  }

  /** Grow a column to `n` slots and clear or set its slot `d`. */
  method WriteColumn(c: PropColumn, n: nat, d: nat, v: Option<Value>)
    requires c.Valid() && |c.cells| <= n && d < n && (v.Some? ==> c.Strings() < STR_NULL)
    modifies c.Repr
    ensures c.Valid() && c.Repr == old(c.Repr) && c.cells == Padded(old(c.cells), n)[d := v.GetOr(Null)]
    ensures c.Strings() <= old(c.Strings()) + if v.Some? then 1 else 0
    ensures c.Strings() >= old(c.Strings()) || v.Some?
  {
    hide PropColumn.Valid;
    hide PropColumn.Strings;
    c.Grow(n);
    if v.Some? {
      c.Set(d, v.value);
    } else {
      c.Clear(d);
    }
  }

  /** The same to one column of a set; the other columns hold what they held. */
  method WriteSlot(
    cols: Cols, k: Text, n: nat, d: nat, v: Option<Value>,
    ghost owned: set<object>, ghost columns: Columns, ghost counts: Counts)
    returns (ghost counts': Counts)
    requires Hold(cols, owned, columns, counts) && k in columns && k in counts && |columns[k]| <= n && d < n
    requires v.Some? ==> counts[k] < STR_NULL
    modifies owned
    ensures Hold(cols, owned, columns[k := Padded(columns[k], n)[d := v.GetOr(Null)]], counts')
    ensures OneMoreString(counts, counts', k) && (v == None ==> counts' == counts)
  {
    hide *;
    HoldParts(cols, owned, columns, counts);
    ghost var reprs := map p | p in cols :: cols[p].Repr;
    ghost var columns' := columns[k := Padded(columns[k], n)[d := v.GetOr(Null)]];
    assert forall p :: p in cols && p != k ==> reprs[p] !! cols[k].Repr;
    WriteColumn(cols[k], n, d, v);
    counts' := counts[k := cols[k].Strings()];
    CountSet(counts, k, cols[k].Strings());
    CountSame(counts, k);
    forall p | p in cols && p != k
      ensures cols[p].Repr == reprs[p] && cols[p].Valid()
      ensures cols[p].cells == columns[p] && cols[p].Strings() == counts[p]
    {
    }
    HoldFrom(cols, owned, columns', counts', reprs);
  }

  /** What holding columns says of each of them. */
  lemma HoldParts(cols: Cols, owned: set<object>, columns: Columns, counts: Counts)
    requires Hold(cols, owned, columns, counts)
    ensures cols.Keys == columns.Keys == counts.Keys
    ensures forall p :: p in cols ==>
      cols[p] in owned && cols[p] in cols[p].Repr && cols[p].Repr <= owned && cols[p].Valid()
      && cols[p].cells == columns[p] && cols[p].Strings() == counts[p]
    ensures forall p, q :: p in cols && q in cols && p != q ==> cols[p].Repr !! cols[q].Repr
  {
    hide PropColumn.Valid;
    hide PropColumn.Strings;
  }

  lemma CountSame(counts: Counts, k: Text)
    requires k in counts
    ensures counts[k := counts[k]] == counts
  {
  }

  /** The columns hold these cells when each of them does, within parts of its own. */
  lemma HoldFrom(cols: Cols, owned: set<object>, columns: Columns, counts: Counts, reprs: map<Text, set<object>>)
    requires cols.Keys == columns.Keys == counts.Keys == reprs.Keys
    requires forall p :: p in cols ==>
      cols[p] in owned && cols[p].Repr == reprs[p] <= owned && cols[p].Valid() && cols[p].cells == columns[p]
      && cols[p].Strings() == counts[p]
    requires forall p, q :: p in cols && q in cols && p != q ==> reprs[p] !! reprs[q]
    ensures Hold(cols, owned, columns, counts)
  {
    hide PropColumn.Valid;
    hide PropColumn.Strings;
  }

  // ---------------------------------------------------------------- clearing a slot everywhere

  ghost predicate Within(columns: Columns, n: nat) {
    forall p :: p in columns ==> |columns[p]| <= n
  }

  /** The columns named in `done` grown to `n` slots, with slot `d` null. */
  ghost function Cleared(columns: Columns, done: set<Text>, n: nat, d: nat): Columns
    requires d < n && Within(columns, n)
  {
    map p | p in columns :: if p in done then Padded(columns[p], n)[d := Null] else columns[p]
  }

  lemma ClearedOneMore(columns: Columns, done: set<Text>, k: Text, n: nat, d: nat)
    requires d < n && Within(columns, n) && k in columns && k !in done
    ensures var now := Cleared(columns, done, n, d);
      && k in now && now[k] == columns[k]
      && now[k := Padded(now[k], n)[d := Null]] == Cleared(columns, done + {k}, n, d)
  {
  }

  /** Part way: the columns named in `done` are cleared. */
  ghost predicate Clearing(
    cols: Cols, owned: set<object>, columns: Columns, counts: Counts, done: set<Text>, n: nat, d: nat)
    requires d < n && Within(columns, n)
    reads owned
  {
    Hold(cols, owned, Cleared(columns, done, n, d), counts) && counts.Keys == columns.Keys
  }

  method ClearOne(
    cols: Cols, k: Text, n: nat, d: nat, ghost done: set<Text>,
    ghost owned: set<object>, ghost columns: Columns, ghost counts: Counts)
    requires d < n && Within(columns, n) && k in columns && k !in done
    requires Clearing(cols, owned, columns, counts, done, n, d)
    modifies owned
    ensures Clearing(cols, owned, columns, counts, done + {k}, n, d)
  {
    ClearedOneMore(columns, done, k, n, d);
    hide Hold;
    hide Cleared;
    hide Padded;
    ghost var _ := WriteSlot(cols, k, n, d, None, owned, Cleared(columns, done, n, d), counts);
  }

  /** Grow every column to `n` slots and null the slot `d` in each. */
  method ClearSlot(
    cols: Cols, n: nat, d: nat, ghost owned: set<object>, ghost columns: Columns, ghost counts: Counts)
    requires Hold(cols, owned, columns, counts) && d < n && Within(columns, n)
    modifies owned
    ensures Hold(cols, owned, Cleared(columns, columns.Keys, n, d), counts)
  {
    hide *;
    NothingCleared(cols, owned, columns, counts, n, d);
    var todo := cols.Keys;
    ghost var done := {};
    assert done == columns.Keys - todo;
    while todo != {}
      invariant todo <= columns.Keys && done == columns.Keys - todo
      invariant Clearing(cols, owned, columns, counts, done, n, d)
      decreases todo
    {
      var k :| k in todo;
      ClearOne(cols, k, n, d, done, owned, columns, counts);
      todo, done := todo - {k}, done + {k};
    }
    assert done == columns.Keys;
    AllCleared(cols, owned, columns, counts, n, d);
  }

  lemma NothingCleared(cols: Cols, owned: set<object>, columns: Columns, counts: Counts, n: nat, d: nat)
    requires Hold(cols, owned, columns, counts) && d < n && Within(columns, n)
    ensures Clearing(cols, owned, columns, counts, {}, n, d) && cols.Keys == columns.Keys
  {
    assert Cleared(columns, {}, n, d) == columns;
  }

  lemma AllCleared(cols: Cols, owned: set<object>, columns: Columns, counts: Counts, n: nat, d: nat)
    requires d < n && Within(columns, n) && Clearing(cols, owned, columns, counts, columns.Keys, n, d)
    ensures Hold(cols, owned, Cleared(columns, columns.Keys, n, d), counts)
  {
  }

  // ---------------------------------------------------------------- setting one property

  /** Slot `d` of `k` set, an absent column starting as `n` nulls. */
  ghost function WithMember(columns: Columns, k: Text, n: nat, d: nat, v: Value): Columns
    requires d < n && (k in columns ==> |columns[k]| == n)
  {
    columns[k := (if k in columns then columns[k] else Nulls(n))[d := v]]
  }

  ghost function WithColumn(columns: Columns, k: Text, n: nat): Columns {
    if k in columns then columns else columns[k := Nulls(n)]
  }

  ghost function WithCount(counts: Counts, k: Text): Counts {
    if k in counts then counts else counts[k := 0]
  }

  method EnsureColumn(
    cols: Cols, k: Text, n: nat, ghost owned: set<object>, ghost columns: Columns, ghost counts: Counts)
    returns (cols': Cols, ghost owned': set<object>)
    requires Hold(cols, owned, columns, counts)
    ensures Hold(cols', owned', WithColumn(columns, k, n), WithCount(counts, k))
    ensures k in cols' && owned <= owned' && fresh(owned' - owned)
  {
    hide PropColumn.Valid;
    hide PropColumn.Strings;
    cols', owned' := cols, owned;
    if k !in cols {
      var c := new PropColumn.Json(0);
      c.Grow(n);
      assert c.cells == Nulls(n) && c.Strings() == 0;
      cols', owned' := cols[k := c], owned + c.Repr;
      assert ColsOk(cols', owned');
      hide ColsOk;
      assert CellsAre(cols', owned', columns[k := Nulls(n)]);
      hide CellsAre;
      assert CountsAre(cols', owned', counts[k := 0]);
      hide CountsAre;
    }
  }

  lemma EnsureThenWrite(columns: Columns, k: Text, n: nat, d: nat, v: Value)
    requires (k in columns ==> |columns[k]| == n) && d < n
    ensures var started := WithColumn(columns, k, n);
      && k in started && |started[k]| == n
      && started[k := Padded(started[k], n)[d := v]] == WithMember(columns, k, n, d, v)
  {
  }

  method SetMember(
    cols: Cols, k: Text, n: nat, d: nat, v: Value,
    ghost owned: set<object>, ghost columns: Columns, ghost counts: Counts)
    returns (cols': Cols, ghost owned': set<object>, ghost counts': Counts)
    requires Hold(cols, owned, columns, counts)
    requires (k in columns ==> |columns[k]| == n) && d < n && (k in counts ==> counts[k] < STR_NULL)
    modifies owned
    ensures Hold(cols', owned', WithMember(columns, k, n, d, v), counts')
    ensures OneMoreString(WithCount(counts, k), counts', k)
    ensures owned <= owned' && fresh(owned' - owned)
  {
    hide Hold;
    EnsureThenWrite(columns, k, n, d, v);
    hide WithColumn;
    hide WithMember;
    hide Padded;
    cols', owned' := EnsureColumn(cols, k, n, owned, columns, counts);
    counts' := WriteSlot(cols', k, n, d, Some(v), owned', WithColumn(columns, k, n), WithCount(counts, k));
  }

  // ---------------------------------------------------------------- setting a whole record

  ghost predicate Covering(columns: Columns, n: nat) {
    forall p :: p in columns ==> |columns[p]| == n
  }

  /** The members named in `done` set at slot `d`. */
  ghost function RecordSet(columns: Columns, members: map<Text, Value>, done: set<Text>, n: nat, d: nat): Columns
    requires d < n && Covering(columns, n) && done <= members.Keys
  {
    map p | p in columns.Keys + done ::
      if p in done then (if p in columns then columns[p] else Nulls(n))[d := members[p]] else columns[p]
  }

  lemma OneMoreSet(columns: Columns, members: map<Text, Value>, done: set<Text>, k: Text, n: nat, d: nat)
    requires d < n && Covering(columns, n) && done <= members.Keys && k in members && k !in done
    ensures var now := RecordSet(columns, members, done, n, d);
      && (k in now ==> |now[k]| == n)
      && RecordSet(columns, members, done + {k}, n, d) == WithMember(now, k, n, d, members[k])
  {
  }

  /** No dictionary has more than `limit` entries, one more where the property is in `done`. */
  ghost predicate CountsWithin(counts: Counts, done: set<Text>, limit: nat) {
    forall p :: p in counts ==> counts[p] <= if p in done then limit + 1 else limit
  }

  lemma OneMoreCount(counts: Counts, counts': Counts, k: Text, done: set<Text>, limit: nat)
    requires CountsWithin(counts, done, limit) && OneMoreString(WithCount(counts, k), counts', k) && k !in done
    ensures CountsWithin(counts', done + {k}, limit)
  {
  }

  lemma CountBelow(counts: Counts, done: set<Text>, k: Text, limit: nat)
    requires CountsWithin(counts, done, limit) && k !in done
    ensures k in counts ==> counts[k] <= limit
  {
  }

  /** Part way through a record: the members named in `done` are set. */
  ghost predicate Setting(
    cols: Cols, owned: set<object>, columns: Columns, counts: Counts, members: map<Text, Value>, done: set<Text>,
    n: nat, d: nat, limit: nat)
    requires d < n && Covering(columns, n) && done <= members.Keys
    reads owned
  {
    Hold(cols, owned, RecordSet(columns, members, done, n, d), counts) && CountsWithin(counts, done, limit)
  }

  method SetOne(
    cols: Cols, k: Text, n: nat, d: nat, members: map<Text, Value>, ghost done: set<Text>,
    ghost owned: set<object>, ghost columns: Columns, ghost counts: Counts, ghost limit: nat)
    returns (cols': Cols, ghost owned': set<object>, ghost counts': Counts)
    requires Covering(columns, n) && d < n && limit < STR_NULL && done <= members.Keys
    requires k in members && k !in done && Setting(cols, owned, columns, counts, members, done, n, d, limit)
    modifies owned
    ensures Setting(cols', owned', columns, counts', members, done + {k}, n, d, limit)
    ensures owned <= owned' && fresh(owned' - owned)
  {
    OneMoreSet(columns, members, done, k, n, d);
    CountBelow(counts, done, k, limit);
    hide Hold;
    hide RecordSet;
    hide WithMember;
    hide WithCount;
    hide OneMoreString;
    hide CountsWithin;
    hide Covering;
    cols', owned', counts' :=
      SetMember(cols, k, n, d, members[k], owned, RecordSet(columns, members, done, n, d), counts);
    OneMoreCount(counts, counts', k, done, limit);
  }

  lemma NothingSet(
    cols: Cols, owned: set<object>, columns: Columns, counts: Counts,
    members: map<Text, Value>, n: nat, d: nat, limit: nat)
    requires Hold(cols, owned, columns, counts) && CountsWithin(counts, {}, limit) && Covering(columns, n) && d < n
    ensures Setting(cols, owned, columns, counts, members, {}, n, d, limit)
  {
    assert RecordSet(columns, members, {}, n, d) == columns;
  }

  lemma AllSet(
    cols: Cols, owned: set<object>, columns: Columns, counts: Counts,
    members: map<Text, Value>, n: nat, d: nat, limit: nat)
    requires Covering(columns, n) && d < n && Setting(cols, owned, columns, counts, members, members.Keys, n, d, limit)
    ensures Hold(cols, owned, RecordSet(columns, members, members.Keys, n, d), counts)
    ensures CountsWithin(counts, members.Keys, limit)
  {
  }

  method SetRecord(
    cols: Cols, n: nat, d: nat, members: map<Text, Value>,
    ghost owned: set<object>, ghost columns: Columns, ghost counts: Counts, ghost limit: nat)
    returns (cols': Cols, ghost owned': set<object>, ghost counts': Counts)
    requires Hold(cols, owned, columns, counts) && CountsWithin(counts, {}, limit)
    requires Covering(columns, n) && d < n && limit < STR_NULL
    modifies owned
    ensures Hold(cols', owned', RecordSet(columns, members, members.Keys, n, d), counts')
    ensures CountsWithin(counts', members.Keys, limit)
    ensures owned <= owned' && fresh(owned' - owned)
  {
    hide *;
    cols', owned', counts' := cols, owned, counts;
    NothingSet(cols, owned, columns, counts, members, n, d, limit);
    var todo := members.Keys;
    ghost var done := {};
    while todo != {}
      invariant todo <= members.Keys && done == members.Keys - todo
      invariant owned <= owned' && fresh(owned' - owned)
      invariant Setting(cols', owned', columns, counts', members, done, n, d, limit)
      decreases todo
    {
      var k :| k in todo;
      cols', owned', counts' := SetOne(cols', k, n, d, members, done, owned', columns, counts', limit);
      todo, done := todo - {k}, done + {k};
    }
    assert done == members.Keys;
    AllSet(cols', owned', columns, counts', members, n, d, limit);
  }

  // ---------------------------------------------------------------- what a patched record leaves

  function Members(json: Value): map<Text, Value> {
    if json.Object? then json.members else map[]
  }

  /** The columns after one record is patched in at slot `d` of `n`. */
  ghost function RecordPatched(columns: Columns, json: Value, n: nat, d: nat): Columns
    requires d < n && Within(columns, n)
  {
    RecordSet(Cleared(columns, columns.Keys, n, d), Members(json), Members(json).Keys, n, d)
  }

  lemma ClearedCovers(columns: Columns, n: nat, d: nat)
    requires d < n && Within(columns, n)
    ensures Covering(Cleared(columns, columns.Keys, n, d), n)
  {
  }

  lemma CountsLoosen(counts: Counts, done: set<Text>, limit: nat)
    requires CountsWithin(counts, done, limit)
    ensures CountsWithin(counts, {}, limit + 1)
  {
  }

  /** Clear the slot in every column, then set the record's members there. */
  method PatchSlots(
    cols: Cols, json: Value, n: nat, d: nat,
    ghost owned: set<object>, ghost columns: Columns, ghost counts: Counts, ghost limit: nat)
    returns (cols': Cols, ghost owned': set<object>, ghost counts': Counts)
    requires Hold(cols, owned, columns, counts) && CountsWithin(counts, {}, limit)
    requires d < n && Within(columns, n) && limit < STR_NULL
    modifies owned
    ensures Hold(cols', owned', RecordPatched(columns, json, n, d), counts') && CountsWithin(counts', {}, limit + 1)
    ensures owned <= owned' && fresh(owned' - owned)
  {
    hide Hold;
    hide CountsWithin;
    hide Cleared;
    hide RecordSet;
    ClearedCovers(columns, n, d);
    ClearSlot(cols, n, d, owned, columns, counts);
    cols', owned', counts' :=
      SetRecord(cols, n, d, Members(json), owned, Cleared(columns, columns.Keys, n, d), counts, limit);
    CountsLoosen(counts', Members(json).Keys, limit);
  }

  /** Slot `e` of `p` after that. */
  ghost function CellAfter(columns: Columns, json: Value, d: nat, p: Text, e: nat): Value {
    if e == d then (if HasMember(json, p) then json.members[p] else Null)
    else if p in columns && e < |columns[p]| then columns[p][e] else Null
  }

  lemma PatchedCell(columns: Columns, json: Value, n: nat, d: nat, p: Text, e: nat)
    requires d < n && Within(columns, n) && e < n
    ensures var patched := RecordPatched(columns, json, n, d);
      && (p in patched <==> p in columns || HasMember(json, p))
      && (p in patched ==> |patched[p]| == n && patched[p][e] == CellAfter(columns, json, d, p, e))
  {
  }

  lemma PatchedRow(t: Table, t': Table, json: Value, d: nat)
    requires Rectangular(t) && Rectangular(t') && |t.ids| <= |t'.ids| && d < |t'.ids|
    requires forall p :: p in t'.columns <==> p in t.columns || p in Members(json)
    requires forall p :: p in t'.columns ==> t'.columns[p][d] == if p in Members(json) then Members(json)[p] else Null
    ensures RowAt(t', d) == Clean(json)
  {
    forall p
      ensures p in RowAt(t', d) <==> p in Clean(json)
      ensures p in Clean(json) ==> RowAt(t', d)[p] == Clean(json)[p]
    {
    }
  }

  /** Patching a record replaces its row and no other, whatever columns that adds or leaves all null. */
  lemma PatchReplacesRow(t: Table, json: Value, ids: seq<EntityId>, d: nat)
    requires Rectangular(t) && |t.ids| <= |ids| && d < |ids|
    ensures var t' := Table(ids, RecordPatched(t.columns, json, |ids|, d));
      Rectangular(t') && RowReplaced(t, t', d, json)
  {
    var t' := Table(ids, RecordPatched(t.columns, json, |ids|, d));
    forall p, e: nat | e < |ids|
      ensures p in t'.columns ==> |t'.columns[p]| == |ids| && t'.columns[p][e] == CellAfter(t.columns, json, d, p, e)
      ensures p in t'.columns <==> p in t.columns || HasMember(json, p)
    {
      PatchedCell(t.columns, json, |ids|, d, p, e);
    }
    hide RecordPatched;
    PatchedRow(t, t', json, d);
    hide RowAt;
    hide Clean;
    forall p, e | 0 <= e < |t.ids| && e != d
      ensures CellAt(t', p, e) == CellAt(t, p, e)
    {
    }
  }

  // ---------------------------------------------------------------- columns around mapped arrays

  type RawNamed = (Text, Raw)

  /** The cells of listed columns, a later one of a name replacing an earlier. */
  ghost function RawColumns(raws: seq<RawNamed>): Columns
    requires forall i :: 0 <= i < |raws| ==> RawShaped(raws[i].1)
  {
    if raws == [] then map[]
    else RawColumns(raws[..|raws| - 1])[raws[|raws| - 1].0 := Cells(raws[|raws| - 1].1)]
  }

  /** Every column is well formed, covers `n` rows and is listed once. */
  ghost predicate RawSet(raws: seq<RawNamed>, n: nat) {
    && (forall i :: 0 <= i < |raws| ==> RawValid(raws[i].1) && RawLen(raws[i].1) == n)
    && (forall i, j :: 0 <= i < j < |raws| ==> raws[i].0 != raws[j].0)
  }

  lemma {:induction false} RawColumnsAt(raws: seq<RawNamed>, n: nat)
    requires RawSet(raws, n)
    ensures forall p :: p in RawColumns(raws) <==> exists i :: 0 <= i < |raws| && raws[i].0 == p
    ensures forall i :: 0 <= i < |raws| ==>
      raws[i].0 in RawColumns(raws) && RawColumns(raws)[raws[i].0] == Cells(raws[i].1)
    ensures Covering(RawColumns(raws), n)
  {
    hide Cells;
    hide RawValid;
    if raws != [] {
      ghost var front, last := raws[..|raws| - 1], raws[|raws| - 1];
      RawColumnsAt(front, n);
      RawCellsLength(last.1);
      assert forall i :: 0 <= i < |raws| ==> raws[i] == if i < |front| then front[i] else last;
    }
  }

  /** No listed dictionary has more than `limit` entries. */
  ghost predicate RawCountsWithin(raws: seq<RawNamed>, limit: nat)
    requires forall i :: 0 <= i < |raws| ==> RawShaped(raws[i].1)
  {
    forall i :: 0 <= i < |raws| ==> RawStrings(raws[i].1) <= limit
  }

  lemma OneMoreRawCount(front: seq<RawNamed>, raw: RawNamed, counts: Counts)
    requires RawShaped(raw.1) && forall i :: 0 <= i < |front| ==> RawShaped(front[i].1)
    requires forall limit: nat :: RawCountsWithin(front, limit) ==> CountsWithin(counts, {}, limit)
    ensures var all, now := front + [raw], counts[raw.0 := RawStrings(raw.1)];
      forall limit: nat :: RawCountsWithin(all, limit) ==> CountsWithin(now, {}, limit)
  {
    forall limit: nat | RawCountsWithin(front + [raw], limit)
      ensures CountsWithin(counts[raw.0 := RawStrings(raw.1)], {}, limit)
    {
      assert (front + [raw])[|front|] == raw;
      assert forall i :: 0 <= i < |front| ==> (front + [raw])[i] == front[i];
      assert RawCountsWithin(front, limit);
    }
  }

  lemma RawCellsLength(raw: Raw)
    requires RawValid(raw)
    ensures RawShaped(raw) && |Cells(raw)| == RawLen(raw)
  {
  }

  method AddRaw(
    cols: Cols, raw: RawNamed, ghost owned: set<object>, ghost columns: Columns, ghost counts: Counts)
    returns (cols': Cols, ghost owned': set<object>, ghost counts': Counts)
    requires Hold(cols, owned, columns, counts) && RawValid(raw.1) && raw.0 !in columns
    ensures Hold(cols', owned', columns[raw.0 := Cells(raw.1)], counts')
    ensures counts' == counts[raw.0 := RawStrings(raw.1)]
    ensures owned <= owned' && fresh(owned' - owned)
  {
    hide PropColumn.Valid;
    hide PropColumn.Strings;
    hide Cells;
    hide RawStrings;
    assert RawShaped(raw.1);
    hide RawValid;
    var c := new PropColumn.FromRaw(raw.1);
    cols', owned', counts' := cols[raw.0 := c], owned + c.Repr, counts[raw.0 := c.Strings()];
    assert ColsOk(cols', owned');
    hide ColsOk;
    assert CellsAre(cols', owned', columns[raw.0 := Cells(raw.1)]);
    hide CellsAre;
    assert CountsAre(cols', owned', counts');
    hide CountsAre;
  }

  method AddRaws(raws: seq<RawNamed>, ghost n: nat)
    returns (cols: Cols, ghost owned: set<object>, ghost counts: Counts)
    requires RawSet(raws, n)
    ensures Hold(cols, owned, RawColumns(raws), counts) && fresh(owned)
    ensures forall limit: nat :: RawCountsWithin(raws, limit) ==> CountsWithin(counts, {}, limit)
  {
    cols, owned, counts := map[], {}, map[];
    assert RawColumns(raws[..0]) == map[];
    assert Hold(cols, owned, map[], counts);
    hide Hold;
    hide Cells;
    hide RawStrings;
    for i := 0 to |raws|
      invariant Hold(cols, owned, RawColumns(raws[..i]), counts) && fresh(owned)
      invariant forall limit: nat :: RawCountsWithin(raws[..i], limit) ==> CountsWithin(counts, {}, limit)
    {
      ghost var before := counts;
      assert raws[..i + 1] == raws[..i] + [raws[i]];
      RawColumnsAt(raws[..i], n);
      cols, owned, counts := AddRaw(cols, raws[i], owned, RawColumns(raws[..i]), counts);
      OneMoreRawCount(raws[..i], raws[i], before);
    }
    assert raws[..|raws|] == raws;
  }
}
