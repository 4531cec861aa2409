/** The materialized column set of one entity kind, with its own dense id mapping. */
module PropertyColumns {
  import opened Words
  import opened Json
  import opened ColumnParts
  import opened Column
  import opened DenseIndex
  import opened Tables
  import opened Builders
  import opened ColumnSets
  import opened Stats

  /** An error naming the first entity that does not exist. */
  datatype Gathered<T> = Gathered(out: T) | NotFound(id: EntityId)

  // ---------------------------------------------------------------- tables and items

  /** Rows of the same entity are the same row. */
  ghost predicate RowsAgree(t: Table)
    requires Rectangular(t)
  {
    forall p, d, e :: p in t.columns && 0 <= d < |t.ids| && 0 <= e < |t.ids| && t.ids[d] == t.ids[e] ==>
      t.columns[p][d] == t.columns[p][e]
  }

  /** Every occurrence of an entity among the items carries the same record. */
  ghost predicate OneRecordEach(items: seq<Item>) {
    forall i, j :: 0 <= i < |items| && 0 <= j < |items| && items[i].0 == items[j].0 ==> items[i].1 == items[j].1
  }

  /** The table a scan of the items builds. */
  ghost function TableOfItems(items: seq<Item>, only: Option<Text>): Table {
    Table(IdsOf(items), map p | p in NamesOf(items, only) :: ColumnOf(items, only, p))
  }

  /** A column for each property some item has, of the one property only when restricted to it, and in
    * every row the item's own member.
    */
  lemma TableOfItemsMeans(items: seq<Item>, only: Option<Text>, p: Text)
    ensures var t := TableOfItems(items, only);
      && (p in t.columns <==>
            (only == None || only == Some(p)) && exists d :: 0 <= d < |items| && HasMember(items[d].1, p))
      && (p in t.columns ==> |t.columns[p]| == |items| && forall d :: 0 <= d < |items| ==>
            t.columns[p][d] == if HasMember(items[d].1, p) then items[d].1.members[p] else Null)
  {
    var t := TableOfItems(items, only);
    if p in t.columns {
      var d :| 0 <= d < |items| && p in Wanted(items[d].1, only);
      assert HasMember(items[d].1, p);
    } else if only == None || only == Some(p) {
      assert forall d :: 0 <= d < |items| && HasMember(items[d].1, p) ==> p in Wanted(items[d].1, only);
    }
  }

  lemma ItemsAgree(items: seq<Item>, only: Option<Text>)
    requires OneRecordEach(items)
    ensures RowsAgree(TableOfItems(items, only))
  {
  }

  /** The items are one full scan of the store. */
  ghost predicate ScanOf(items: seq<Item>, store: Snapshot) {
    && Distinct(IdsOf(items))
    && (forall d :: 0 <= d < |items| ==> items[d].0 in store && store[items[d].0] == items[d].1)
    && (forall id :: id in store ==> id in IdsOf(items))
  }

  lemma ScannedRow(items: seq<Item>, d: nat)
    requires d < |items|
    ensures RowAt(TableOfItems(items, None), d) == Clean(items[d].1)
  {
    var t := TableOfItems(items, None);
    forall p
      ensures p in RowAt(t, d) <==> p in Clean(items[d].1)
      ensures p in RowAt(t, d) ==> RowAt(t, d)[p] == Clean(items[d].1)[p]
    {
      if p in t.columns {
        assert t.columns[p][d] == MemberOf(items[d].1, None, p);
      }
      if p in Clean(items[d].1) {
        assert p in Wanted(items[d].1, None);
      }
    }
  }

  /** A full scan builds a table that means the store. */
  lemma ScanMeansStore(items: seq<Item>, store: Snapshot)
    requires ScanOf(items, store)
    ensures ViewOf(TableOfItems(items, None)) == CleanAll(store)
  {
    var t := TableOfItems(items, None);
    forall id: EntityId
      ensures id in ViewOf(t) <==> id in store
      ensures id in store ==> ViewOf(t)[id] == Clean(store[id])
    {
      if id in t.ids {
        var d := PositionOf(t.ids, id);
        assert t.ids[d] == items[d].0;
        ScannedRow(items, d);
      }
    }
  }

  lemma RunReaches(ids: seq<u64>, d: nat)
    requires IsRun(ids) && d < |ids| && ids[0] + d == U64_LIMIT - 1
    ensures ids[d] == U64_LIMIT - 1
  {
    SmallResidue(ids[0] + d);
  }

  lemma NoWrap(ids: seq<EntityId>)
    ensures !WrapsAround(ids)
  {
    if WrapsAround(ids) {
      RunReaches(ids, U64_LIMIT - 1 - ids[0]);
    }
  }

  lemma NotPastLargest(rep: IndexRep, ids: seq<EntityId>, id: EntityId)
    requires Exact(rep, ids)
    ensures !PastLargest(rep, id)
  {
    if rep.Contiguous? {
      RunMembers(rep.first, rep.n, ids);
      assert rep.n > 0 ==> ids[rep.n - 1] == rep.first + (rep.n - 1);
    }
  }

  lemma ExactFinds(rep: IndexRep, t: Table)
    requires Rectangular(t) && Exact(rep, t.ids) && Distinct(t.ids)
    ensures Finds(rep, t.ids) && RowsAgree(t)
  {
  }

  /** The value of a property in a view: null when the entity does not have it. */
  ghost function PropOf(view: View, id: EntityId, p: Text): Value
    requires id in view
  {
    if p in view[id] then view[id][p] else Null
  }

  lemma FoundRow(t: Table, rep: IndexRep, id: EntityId, d: nat, p: Text)
    requires Rectangular(t) && Finds(rep, t.ids) && RowsAgree(t) && Lookup(rep, id) == Some(d)
    ensures d < |t.ids| && t.ids[d] == id && id in ViewOf(t)
    ensures PropOf(ViewOf(t), id, p) == CellAt(t, p, d)
  {
    var e := PositionOf(t.ids, id);
    assert p in t.columns ==> t.columns[p][e] == t.columns[p][d];
  }

  lemma NotFoundRow(t: Table, rep: IndexRep, id: EntityId)
    requires Rectangular(t) && Finds(rep, t.ids) && Lookup(rep, id) == None
    ensures id !in ViewOf(t)
  {
  }

  ghost predicate FirstMissing(ids: seq<EntityId>, view: View, id: EntityId) {
    exists i :: 0 <= i < |ids| && ids[i] == id && id !in view && forall j :: 0 <= j < i ==> ids[j] in view
  }

  method BuildParts(items: seq<Item>, only: Option<Text>)
    returns (cols: Cols, ghost owned: set<object>, ghost counts: Counts)
    requires |items| <= U32_MAX
    ensures Hold(cols, owned, TableOfItems(items, only).columns, counts) && fresh(owned)
    ensures forall p :: p in cols ==> (cols[p].rep.Jsons? <==> Mixed(ColumnOf(items, only, p)))
    ensures forall p :: p in cols && !SomeValue(ColumnOf(items, only, p)) ==> cols[p].rep.Ints?
    ensures forall p :: p in counts ==> counts[p] <= |items|
  {
    hide PropColumn.Valid;
    hide PropColumn.Strings;
    hide Mixed;
    hide SomeValue;
    cols, owned := BuildColumns(items, only);
    counts := map p | p in cols :: cols[p].Strings();
    hide ColsOk;
    assert CellsAre(cols, owned, TableOfItems(items, only).columns);
    hide CellsAre;
    assert CountsAre(cols, owned, counts);
    hide CountsAre;
  }

  lemma RowPatched(t: Table, t': Table, id: EntityId, d: nat, json: Value, rep: IndexRep)
    requires Rectangular(t) && Distinct(t.ids) && d < |t'.ids| && t'.ids[d] == id
    requires t'.ids == (if id in t.ids then t.ids else t.ids + [id])
    requires Exact(rep, t'.ids) && Distinct(t'.ids)
    requires t'.columns == RecordPatched(t.columns, json, |t'.ids|, d)
    ensures Rectangular(t') && ViewOf(t') == ViewOf(t)[id := Clean(json)]
    ensures Finds(rep, t'.ids) && RowsAgree(t')
  {
    hide RecordPatched;
    PatchReplacesRow(t, json, t'.ids, d);
    assert t' == Table(t'.ids, t'.columns);
    ViewPatched(t, t', id, d, json);
    ExactFinds(rep, t');
  }

  lemma FileTableOk(ids: seq<EntityId>, raws: seq<RawNamed>, rep: IndexRep)
    requires Distinct(ids) && Exact(rep, ids) && RawSet(raws, |ids|)
    ensures forall i :: 0 <= i < |raws| ==> RawShaped(raws[i].1)
    ensures var t := Table(ids, RawColumns(raws)); Rectangular(t) && RowsAgree(t) && Finds(rep, ids)
  {
    RawColumnsAt(raws, |ids|);
    ExactFinds(rep, Table(ids, RawColumns(raws)));
  }

  // ---------------------------------------------------------------- the column set

  class PropColumns {
    const index: Index
    var denseToId: seq<EntityId>
    var cols: Cols
    var stats: map<Text, Option<PropStats>>
    var bounds: map<Text, Option<(Value, Value)>>
    /** The parts of the columns, every column's cells and how many dictionary entries it has. */
    ghost var owned: set<object>
    ghost var columns: Columns
    ghost var counts: Counts

    ghost function AsTable(): Table
      reads this
    {
      Table(denseToId, columns)
    }

    /** Every entity's non-null properties: what the column set means. */
    ghost function View(): View
      reads this
      requires Rectangular(AsTable())
    {
      ViewOf(AsTable())
    }

    /** Every column covers every row, and the index finds a row of each listed id. */
    ghost predicate Shaped()
      reads this, index, owned
      ensures Shaped() ==> Rectangular(AsTable()) && ColsOk(cols, owned)
    {
      && this !in owned && index !in owned && Hold(cols, owned, columns, counts)
      && Rectangular(AsTable()) && |denseToId| <= U32_MAX
      && Finds(index.rep, denseToId) && RowsAgree(AsTable())
    }

    /** Every cached bound is what the column now gives. */
    ghost predicate BoundsCoherent()
      requires ColsOk(cols, owned)
      reads this, owned
    {
      forall p :: p in bounds ==> bounds[p] == if p in cols then BoundsOf(cols[p]) else None
    }

    /** Every cached statistic describes the column as it now is. */
    ghost predicate StatsCoherent()
      requires ColsOk(cols, owned)
      reads this, owned
    {
      forall p :: p in stats ==>
        if p in cols then AreStats(stats[p], cols[p].rep.Jsons?, NonNull(cols[p].cells)) else stats[p] == None
    }

    ghost predicate Valid()
      reads this, index, owned
    {
      Shaped() && BoundsCoherent() && StatsCoherent()
    }

    /** A whole-graph column set: one row an entity, the index its exact inverse. */
    ghost predicate Patchable()
      reads this, index
    {
      Distinct(denseToId) && Exact(index.rep, denseToId)
    }

    /** Dense indexes and dictionary codes suffice for `k` more records. */
    ghost predicate Room(k: nat)
      reads this
    {
      |denseToId| + k <= U32_MAX && k < STR_NULL && CountsWithin(counts, {}, STR_NULL - 1 - k)
    }

    // -------------------------------------------------------------- building

    /** Build columns over exactly these items, of one property only when `only` names it. */
    constructor FromItemsFor(items: seq<Item>, only: Option<Text>)
      requires |items| <= U32_MAX && OneRecordEach(items)
      ensures Valid() && fresh(owned) && fresh(index)
      ensures AsTable() == TableOfItems(items, only)
      ensures Distinct(IdsOf(items)) ==> Patchable()
      ensures forall p :: p in cols ==> (cols[p].rep.Jsons? <==> Mixed(ColumnOf(items, only, p)))
      ensures forall p :: p in cols && !SomeValue(ColumnOf(items, only, p)) ==> cols[p].rep.Ints?
      ensures stats == map[] && bounds == map[]
      ensures forall p :: p in counts ==> counts[p] <= |items|
    {
      hide Hold;
      hide Mixed;
      hide SomeValue;
      hide RowsAgree;
      hide Finds;
      hide Exact;
      hide WrapsAround;
      hide IsRun;
      hide OneRecordEach;
      var ids := IdsOf(items);
      var ix := new Index.FromIds(ids);
      NoWrap(ids);
      ItemsAgree(items, only);
      var built;
      ghost var parts, sizes;
      built, parts, sizes := BuildParts(items, only);
      index := ix;
      denseToId := ids;
      cols := built;
      owned := parts;
      columns := TableOfItems(items, only).columns;
      counts := sizes;
      stats := map[];
      bounds := map[];
      new;
      hide *;
      NewSet();
    }

    /** What makes a new column set valid: there are no statistics yet. */
    lemma NewSet()
      requires this !in owned && index !in owned && Hold(cols, owned, columns, counts)
      requires stats == map[] && bounds == map[]
      requires |denseToId| <= U32_MAX && Rectangular(AsTable()) && RowsAgree(AsTable()) && Finds(index.rep, denseToId)
      ensures Valid()
    {
    }

    /** A column set around the arrays of a cache file; the index is derived, the statistics start empty. */
    constructor FromCacheFile(ids: seq<EntityId>, raws: seq<RawNamed>)
      requires |ids| <= U32_MAX && Distinct(ids) && RawSet(raws, |ids|)
      ensures Valid() && Patchable() && fresh(owned) && fresh(index)
      ensures AsTable() == Table(ids, RawColumns(raws))
      ensures forall limit: nat :: RawCountsWithin(raws, limit) ==> CountsWithin(counts, {}, limit)
    {
      hide Hold;
      hide RawSet;
      hide RawColumns;
      hide RawCountsWithin;
      hide CountsWithin;
      hide WrapsAround;
      hide IsRun;
      hide Exact;
      hide Finds;
      hide RowsAgree;
      hide Rectangular;
      var ix := new Index.FromIds(ids);
      NoWrap(ids);
      FileTableOk(ids, raws, ix.rep);
      var built;
      ghost var parts, sizes;
      built, parts, sizes := AddRaws(raws, |ids|);
      index := ix;
      denseToId := ids;
      cols := built;
      owned := parts;
      columns := RawColumns(raws);
      counts := sizes;
      stats := map[];
      bounds := map[];
    }

    // -------------------------------------------------------------- reading

    lemma ColumnNames()
      requires Shaped()
      ensures cols.Keys == columns.Keys
    {
    }

    /** The row of an entity, if it exists, with its cell in the column of `prop`. */
    method RowOf(id: EntityId, ghost prop: Text) returns (d: Option<u32>)
      requires Shaped() && prop in cols
      ensures d == None ==> id !in View()
      ensures d.Some? ==> id in View() && cols[prop].Valid() && d.value < |cols[prop].cells|
      ensures d.Some? ==> cols[prop].cells[d.value] == PropOf(View(), id, prop)
    {
      HoldOwns(cols, owned, columns, counts, prop);
      hide Hold;
      hide PropColumn.Valid;
      hide ViewOf;
      d := index.Get(id);
      if d == None {
        NotFoundRow(AsTable(), index.rep, id);
      } else {
        FoundRow(AsTable(), index.rep, id, d.value, prop);
      }
    }

    /** The value of one row: null where the property has no column. */
    function CellOfRow(prop: Text, d: nat): (v: Value)
      requires Shaped() && d < |denseToId|
      reads this, index, owned
      ensures v == CellAt(AsTable(), prop, d)
    {
      if prop in cols then cols[prop].GetJsonOpt(d).GetOr(Null) else Null
    }

    /** `prop` of each entity, or the first entity that does not exist. */
    method PropColumnOf(ids: seq<EntityId>, prop: Text) returns (r: Gathered<seq<Value>>)
      requires Shaped()
      ensures match r
        case NotFound(id) => FirstMissing(ids, View(), id)
        case Gathered(out) =>
          |out| == |ids| && forall i :: 0 <= i < |ids| ==> ids[i] in View() && out[i] == PropOf(View(), ids[i], prop)
    {
      hide Hold;
      hide ViewOf;
      var out := [];
      for i := 0 to |ids|
        invariant |out| == i
        invariant forall j :: 0 <= j < i ==> ids[j] in View() && out[j] == PropOf(View(), ids[j], prop)
      {
        var dense := index.Get(ids[i]);
        if dense == None {
          NotFoundRow(AsTable(), index.rep, ids[i]);
          return NotFound(ids[i]);
        }
        FoundRow(AsTable(), index.rep, ids[i], dense.value, prop);
        out := out + [CellOfRow(prop, dense.value)];
      }
      r := Gathered(out);
    }

    /** One row of values an entity, or the first entity that does not exist. */
    method PropsTable(ids: seq<EntityId>, props: seq<Text>) returns (r: Gathered<seq<seq<Value>>>)
      requires Shaped()
      ensures match r
        case NotFound(id) => FirstMissing(ids, View(), id)
        case Gathered(out) =>
          |out| == |ids| && forall i :: 0 <= i < |ids| ==> ids[i] in View() && IsRowOf(out[i], View(), ids[i], props)
    {
      hide Hold;
      hide ViewOf;
      var out := [];
      for i := 0 to |ids|
        invariant |out| == i
        invariant forall j :: 0 <= j < i ==> ids[j] in View() && IsRowOf(out[j], View(), ids[j], props)
      {
        var dense := index.Get(ids[i]);
        if dense == None {
          NotFoundRow(AsTable(), index.rep, ids[i]);
          return NotFound(ids[i]);
        }
        FoundRow(AsTable(), index.rep, ids[i], dense.value, []);
        var row := [];
        for k := 0 to |props|
          invariant |row| == k && ids[i] in View()
          invariant forall j :: 0 <= j < k ==> row[j] == PropOf(View(), ids[i], props[j])
        {
          FoundRow(AsTable(), index.rep, ids[i], dense.value, props[k]);
          row := row + [CellOfRow(props[k], dense.value)];
        }
        out := out + [row];
      }
      r := Gathered(out);
    }

    // -------------------------------------------------------------- statistics

    /** The bounds of `prop`, computed once and cached until the next patch. */
    method MinMax(prop: Text) returns (r: Option<(Value, Value)>)
      requires Valid()
      modifies this`bounds
      ensures Valid() && r == if prop in cols then BoundsOf(cols[prop]) else None
      ensures if prop !in cols || cols[prop].rep.Jsons? then r == None else BoundCells(cols[prop].cells, r)
      ensures bounds == old(bounds)[prop := r]
    {
      hide PropColumn.Valid;
      hide BoundsOf;
      hide BoundCells;
      hide NonNull;
      hide Finds;
      hide RowsAgree;
      hide Rectangular;
      hide CellsAre;
      hide CountsAre;
      if prop !in bounds {
        var computed: Option<(Value, Value)> := None;
        if prop in cols {
          HoldOwns(cols, owned, columns, counts, prop);
          computed := ColumnBounds(cols[prop]);
        }
        bounds := bounds[prop := computed];
      }
      r := bounds[prop];
      CachedBounds(prop);
    }

    lemma CachedBounds(prop: Text)
      requires Valid() && prop in bounds
      ensures bounds[prop] == if prop in cols then BoundsOf(cols[prop]) else None
      ensures if prop !in cols || cols[prop].rep.Jsons? then bounds[prop] == None
        else BoundCells(cols[prop].cells, bounds[prop])
    {
      hide PropColumn.Valid;
      hide BoundCells;
      if prop in cols && !cols[prop].rep.Jsons? {
        BoundsOfCells(cols[prop]);
      }
    }

    /** The statistics of `prop`, computed once and cached until the next patch. */
    method GetPropStats(prop: Text) returns (r: Option<PropStats>)
      requires Valid()
      modifies this`stats
      ensures Valid()
      ensures if prop in cols then AreStats(r, cols[prop].rep.Jsons?, NonNull(cols[prop].cells)) else r == None
      ensures stats == old(stats)[prop := r]
    {
      hide PropColumn.Valid;
      hide AreStats;
      hide NonNull;
      hide Finds;
      hide RowsAgree;
      hide Rectangular;
      hide CellsAre;
      hide CountsAre;
      if prop !in stats {
        var computed: Option<PropStats> := None;
        if prop in cols {
          HoldOwns(cols, owned, columns, counts, prop);
          computed := ComputePropStats(cols[prop]);
        }
        stats := stats[prop := computed];
      }
      r := stats[prop];
    }

    // -------------------------------------------------------------- patching

    /** The dense index of `id`, the next free one when it has none. */
    method DenseOf(id: EntityId) returns (d: nat)
      requires Patchable() && |denseToId| < U32_MAX
      modifies this`denseToId, index
      ensures Patchable() && d < |denseToId| && denseToId[d] == id
      ensures denseToId == if id in old(denseToId) then old(denseToId) else old(denseToId) + [id]
    {
      var found := index.Get(id);
      if found.Some? {
        d := found.value;
      } else {
        d := |denseToId|;
        NotPastLargest(index.rep, denseToId, id);
        index.Push(id, denseToId);
        denseToId := denseToId + [id];
      }
    }

    /** Patch one record in: its row becomes the record's non-null members, every other row stays. */
    method PatchEntity(id: EntityId, json: Value, ghost more: nat)
      requires Shaped() && Patchable() && Room(more + 1)
      modifies this, index, owned
      ensures Shaped() && Patchable() && Room(more) && owned >= old(owned) && fresh(owned - old(owned))
      ensures View() == old(View())[id := Clean(json)]
      ensures stats == old(stats) && bounds == old(bounds)
    {
      hide Hold;
      hide CountsWithin;
      hide Finds;
      hide ViewOf;
      hide RowsAgree;
      hide Exact;
      hide Distinct;
      hide RecordPatched;
      ghost var t := AsTable();
      var d := DenseOf(id);
      var n := |denseToId|;
      cols, owned, counts := PatchSlots(cols, json, n, d, owned, columns, counts, STR_NULL - 2 - more);
      columns := RecordPatched(columns, json, n, d);
      RowPatched(t, AsTable(), id, d, json, index.rep);
    }

    /** Patch one chunk's ids with what its transaction reads; an id with no record is skipped. */
    method PatchChunk(snap: Snapshot, ids: seq<EntityId>, ghost more: nat)
      requires Shaped() && Patchable() && Room(more + |ids|)
      modifies this, index, owned
      ensures Shaped() && Patchable() && Room(more) && owned >= old(owned) && fresh(owned - old(owned))
      ensures View() == ApplyIds(old(View()), snap, ids)
      ensures stats == old(stats) && bounds == old(bounds)
    {
      hide Shaped;
      hide Patchable;
      for i := 0 to |ids|
        invariant Shaped() && Patchable() && Room(more + |ids| - i)
        invariant owned >= old(owned) && fresh(owned - old(owned))
        invariant View() == ApplyIds(old(View()), snap, ids[..i])
        invariant stats == old(stats) && bounds == old(bounds)
      {
        assert ids[..i + 1] == ids[..i] + [ids[i]];
        if ids[i] in snap {
          PatchEntity(ids[i], snap[ids[i]], more + |ids| - i - 1);
        }
      }
      assert ids[..|ids|] == ids;
    }

    /** Re-read the touched entities chunk by chunk. The result is the view `ApplyChunks` describes, the
      * one of a chunk part way when a read fails, and no cached statistic survives.
      */
    method Patch(read: ChunkReads, touched: seq<EntityId>, ghost more: nat) returns (ok: bool)
      requires Valid() && Patchable() && Room(|touched| + more)
      modifies this, index, owned
      ensures Valid() && Patchable() && Room(more) && owned >= old(owned) && fresh(owned - old(owned))
      ensures (View(), ok) == ApplyChunks(old(View()), read, 0, touched, PATCH_CHUNK)
      ensures if touched == [] then stats == old(stats) && bounds == old(bounds) else stats == map[] && bounds == map[]
    {
      if touched != [] {
        stats := map[];
        bounds := map[];
      }
      hide Shaped;
      var rest, c := touched, 0;
      ok := true;
      while rest != []
        invariant Shaped() && Patchable() && Room(|rest| + more) && owned >= old(owned) && fresh(owned - old(owned))
        invariant touched != [] ==> stats == map[] && bounds == map[]
        invariant touched == [] ==> rest == [] && BoundsCoherent() && StatsCoherent()
        invariant touched == [] ==> stats == old(stats) && bounds == old(bounds)
        invariant ApplyChunks(View(), read, c, rest, PATCH_CHUNK)
          == ApplyChunks(old(View()), read, 0, touched, PATCH_CHUNK)
        decreases |rest|
      {
        var snap := read(c);
        if snap == None {
          ok := false;
          return;
        }
        var n := ChunkLen(rest, PATCH_CHUNK);
        PatchChunk(snap.value, rest[..n], |rest| - n + more);
        rest, c := rest[n..], c + 1;
      }
    }

    /** Patch as often as refreshes ask for it, until one fails. */
    method PatchAll(refreshes: seq<Refresh>, ghost more: nat) returns (ok: bool)
      requires Valid() && Patchable() && Room(TouchedTotal(refreshes) + more)
      modifies this, index, owned
      ensures Valid() && Patchable() && Room(more) && owned >= old(owned) && fresh(owned - old(owned))
      ensures (View(), ok) == ApplyRefreshes(old(View()), refreshes, PATCH_CHUNK)
    {
      hide Shaped;
      hide Patchable;
      hide Room;
      hide BoundsCoherent;
      hide StatsCoherent;
      hide ApplyChunks;
      ok := true;
      for i := 0 to |refreshes|
        invariant Valid() && Patchable() && Room(TouchedTotal(refreshes[i..]) + more)
        invariant owned >= old(owned) && fresh(owned - old(owned))
        invariant ApplyRefreshes(View(), refreshes[i..], PATCH_CHUNK)
          == ApplyRefreshes(old(View()), refreshes, PATCH_CHUNK)
      {
        assert refreshes[i..][1..] == refreshes[i + 1..];
        ok := Patch(refreshes[i].read, refreshes[i].touched, TouchedTotal(refreshes[i + 1..]) + more);
        if !ok {
          LessRoom(TouchedTotal(refreshes[i + 1..]) + more, more);
          return;
        }
      }
    }

    lemma LessRoom(k: nat, less: nat)
      requires less <= k && Room(k)
      ensures Room(less)
    {
    }
  }

  /** Columns loaded from a cache file take patches like built ones. */
  method LoadThenPatch(ids: seq<EntityId>, raws: seq<RawNamed>, refreshes: seq<Refresh>)
    returns (cols: PropColumns, ok: bool)
    requires |ids| + TouchedTotal(refreshes) <= U32_MAX && TouchedTotal(refreshes) < STR_NULL
    requires Distinct(ids) && RawSet(raws, |ids|) && RawCountsWithin(raws, STR_NULL - 1 - TouchedTotal(refreshes))
    ensures cols.Valid() && cols.Patchable()
    ensures var loaded := Table(ids, RawColumns(raws));
      Rectangular(loaded) && (cols.View(), ok) == ApplyRefreshes(ViewOf(loaded), refreshes, PATCH_CHUNK)
  {
    hide RawSet;
    hide RawColumns;
    hide RawCountsWithin;
    hide CountsWithin;
    hide PropColumns.Shaped;
    hide PropColumns.Patchable;
    hide PropColumns.BoundsCoherent;
    hide PropColumns.StatsCoherent;
    hide ApplyRefreshes;
    cols := new PropColumns.FromCacheFile(ids, raws);
    ok := cols.PatchAll(refreshes, 0);
  }

  ghost predicate IsRowOf(row: seq<Value>, view: View, id: EntityId, props: seq<Text>)
    requires id in view
  {
    |row| == |props| && forall j :: 0 <= j < |row| ==> row[j] == PropOf(view, id, props[j])
  }
}
