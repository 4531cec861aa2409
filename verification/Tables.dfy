/** What a column set means: for every entity, its non-null properties. And what patching does to that. */
module Tables {
  import opened Words
  import opened Json
  import opened ColumnParts

  /** An id the allocator can hand out: its counter stores the next one. */
  type EntityId = i: int | 0 <= i < U64_LIMIT - 1

  type Props = map<Text, Value>

  type View = map<EntityId, Props>

  /** Decoded records as a read transaction sees them. */
  type Snapshot = map<EntityId, Value>

  /** The non-null members of a decoded record; a record that is not an object has none. */
  ghost function Clean(json: Value): Props {
    if json.Object? then map k | k in json.members && json.members[k] != Null :: json.members[k] else map[]
  }

  ghost predicate HasMember(json: Value, p: Text) {
    json.Object? && p in json.members
  }

  ghost function CleanAll(store: Snapshot): View {
    map id | id in store :: Clean(store[id])
  }

  // ---------------------------------------------------------------- the table behind a column set

  datatype Table = Table(ids: seq<EntityId>, columns: map<Text, seq<Value>>)

  /** Every column covers every row. */
  ghost predicate Rectangular(t: Table) {
    forall p :: p in t.columns ==> |t.columns[p]| == |t.ids|
  }

  ghost function CellAt(t: Table, p: Text, d: nat): Value
    requires Rectangular(t) && d < |t.ids|
  {
    if p in t.columns then t.columns[p][d] else Null
  }

  ghost function RowAt(t: Table, d: nat): Props
    requires Rectangular(t) && d < |t.ids|
  {
    map p | p in t.columns && t.columns[p][d] != Null :: t.columns[p][d]
  }

  ghost function PositionOf(ids: seq<EntityId>, id: EntityId): (d: nat)
    requires id in ids
    ensures d < |ids| && ids[d] == id
  {
    var d :| 0 <= d < |ids| && ids[d] == id; d
  }

  ghost function ViewOf(t: Table): View
    requires Rectangular(t)
  {
    map id | id in t.ids :: RowAt(t, PositionOf(t.ids, id))
  }

  lemma RowOfView(t: Table, d: nat)
    requires Rectangular(t) && Distinct(t.ids) && d < |t.ids|
    ensures t.ids[d] in ViewOf(t) && ViewOf(t)[t.ids[d]] == RowAt(t, d)
  {
    var e := PositionOf(t.ids, t.ids[d]);
    assert e == d;
  }

  // ---------------------------------------------------------------- one entity patched in

  /** Row `d` of the new table is `json`, every other row what it was, a column being there or not. */
  ghost predicate RowReplaced(t: Table, t': Table, d: nat, json: Value)
    requires Rectangular(t) && Rectangular(t')
  {
    && |t.ids| <= |t'.ids| && d < |t'.ids|
    && (forall p, e :: 0 <= e < |t.ids| && e != d ==> CellAt(t', p, e) == CellAt(t, p, e))
    && RowAt(t', d) == Clean(json)
  }

  lemma RowUnchanged(t: Table, t': Table, d: nat, json: Value, e: nat)
    requires Rectangular(t) && Rectangular(t') && RowReplaced(t, t', d, json)
    requires e < |t.ids| && e != d
    ensures RowAt(t', e) == RowAt(t, e)
  {
    forall p
      ensures p in RowAt(t', e) <==> p in RowAt(t, e)
      ensures p in RowAt(t, e) ==> RowAt(t', e)[p] == RowAt(t, e)[p]
    {
      assert CellAt(t', p, e) == CellAt(t, p, e);
    }
  }

  lemma ViewPatched(t: Table, t': Table, id: EntityId, d: nat, json: Value)
    requires Rectangular(t) && Rectangular(t') && RowReplaced(t, t', d, json)
    requires Distinct(t.ids) && Distinct(t'.ids) && t'.ids[d] == id
    requires t'.ids == t.ids || t'.ids == t.ids + [id]
    ensures ViewOf(t') == ViewOf(t)[id := Clean(json)]
  {
    assert d < |t'.ids|;
    hide *;
    ViewKeys(t);
    ViewKeys(t');
    OneMoreId(t.ids, t'.ids, id, d);
    forall i: EntityId | i in t'.ids
      ensures i in ViewOf(t') && (i != id ==> i in t.ids)
      ensures ViewOf(t')[i] == if i == id then Clean(json) else ViewOf(t)[i]
    {
      PatchedRow(t, t', id, d, json, i);
    }
    OneMoreRow(ViewOf(t), ViewOf(t'), id, Clean(json));
  }

  lemma OneMoreRow(before: View, after: View, id: EntityId, row: Props)
    requires forall i: EntityId :: i in after <==> i in before || i == id
    requires forall i: EntityId :: i in after ==> after[i] == if i == id then row else before[i]
    ensures after == before[id := row]
  {
  }

  lemma OneMoreId(ids: seq<EntityId>, ids': seq<EntityId>, id: EntityId, d: nat)
    requires d < |ids'| && ids'[d] == id && (ids' == ids || ids' == ids + [id])
    ensures forall i: EntityId :: i in ids' <==> i in ids || i == id
  {
  }

  lemma ViewKeys(t: Table)
    requires Rectangular(t)
    ensures forall i: EntityId :: i in ViewOf(t) <==> i in t.ids
  {
  }

  lemma PatchedRow(t: Table, t': Table, id: EntityId, d: nat, json: Value, i: EntityId)
    requires Rectangular(t) && Rectangular(t') && RowReplaced(t, t', d, json)
    requires Distinct(t.ids) && Distinct(t'.ids) && t'.ids[d] == id
    requires t'.ids == t.ids || t'.ids == t.ids + [id]
    requires i in t'.ids
    ensures i in ViewOf(t') && (i != id ==> i in t.ids)
    ensures ViewOf(t')[i] == if i == id then Clean(json) else ViewOf(t)[i]
  {
    var e := PositionOf(t'.ids, i);
    RowOfView(t', e);
    if e != d {
      assert e < |t.ids| && t.ids[e] == i;
      RowOfView(t, e);
      RowUnchanged(t, t', d, json, e);
    }
  }

  // ---------------------------------------------------------------- patching

  /** Re-read one id: a missing record is skipped. */
  ghost function ApplyId(view: View, snap: Snapshot, id: EntityId): View {
    if id in snap then view[id := Clean(snap[id])] else view
  }

  ghost function ApplyIds(view: View, snap: Snapshot, ids: seq<EntityId>): View {
    if ids == [] then view else ApplyId(ApplyIds(view, snap, ids[..|ids| - 1]), snap, ids[|ids| - 1])
  }

  /** Entities re-read in one transaction. */
  const PATCH_CHUNK: nat := 4096

  /** What each chunk's transaction reads; `None` where it fails. */
  type ChunkReads = nat -> Option<Snapshot>

  function ChunkLen(touched: seq<EntityId>, size: nat): (n: nat)
    requires size > 0
    ensures n <= |touched| && n <= size && (n == |touched| || n == size) && (touched != [] ==> n > 0)
  {
    if |touched| < size then |touched| else size
  }

  /** Patch chunk by chunk, stopping at the first chunk that cannot be read. */
  ghost function ApplyChunks(view: View, read: ChunkReads, c: nat, touched: seq<EntityId>, size: nat): (View, bool)
    requires size > 0
    decreases |touched|
  {
    if touched == [] then (view, true)
    else match read(c)
      case None => (view, false)
      case Some(snap) =>
        var n := ChunkLen(touched, size);
        ApplyChunks(ApplyIds(view, snap, touched[..n]), read, c + 1, touched[n..], size)
  }

  lemma {:induction false} ApplyIdsAt(view: View, snap: Snapshot, ids: seq<EntityId>, id: EntityId)
    ensures id in ApplyIds(view, snap, ids) <==> id in view || (id in ids && id in snap)
    ensures id in ids && id in snap ==> ApplyIds(view, snap, ids)[id] == Clean(snap[id])
    ensures !(id in ids && id in snap) && id in view ==> ApplyIds(view, snap, ids)[id] == view[id]
  {
    if ids != [] {
      ApplyIdsAt(view, snap, ids[..|ids| - 1], id);
    }
  }

  lemma {:induction false} ApplyIdsConcat(view: View, snap: Snapshot, a: seq<EntityId>, b: seq<EntityId>)
    ensures ApplyIds(view, snap, a + b) == ApplyIds(ApplyIds(view, snap, a), snap, b)
    decreases |b|
  {
    if b == [] {
      assert a + b == a;
    } else {
      assert (a + b)[..|a + b| - 1] == a + b[..|b| - 1];
      ApplyIdsConcat(view, snap, a, b[..|b| - 1]);
    }
  }

  /** While every chunk reads the same store, how the ids are cut into chunks makes no difference. */
  lemma {:induction false} ChunkingIsInvisible(
    view: View, store: Snapshot, read: ChunkReads, c: nat, touched: seq<EntityId>, size: nat)
    requires size > 0 && forall k :: read(k) == Some(store)
    ensures ApplyChunks(view, read, c, touched, size) == (ApplyIds(view, store, touched), true)
    decreases |touched|
  {
    if touched != [] {
      var n := ChunkLen(touched, size);
      ChunkingIsInvisible(ApplyIds(view, store, touched[..n]), store, read, c + 1, touched[n..], size);
      ApplyIdsConcat(view, store, touched[..n], touched[n..]);
      assert touched == touched[..n] + touched[n..];
    }
  }

  /** The id reads the same in the view as in the store. */
  ghost predicate UpToDate(view: View, store: Snapshot, id: EntityId) {
    (id in view <==> id in store) && (id in view && id in store ==> view[id] == Clean(store[id]))
  }

  /** Patching equals rebuilding exactly when the touched ids that still exist cover every id that
    * reads differently in the view and in the store. A deleted id is the one a patch cannot repair.
    */
  lemma PatchEqualsRebuildIff(view: View, store: Snapshot, touched: seq<EntityId>)
    ensures ApplyIds(view, store, touched) == CleanAll(store)
      <==> forall id: EntityId :: UpToDate(view, store, id) || (id in touched && id in store)
  {
    var patched := ApplyIds(view, store, touched);
    forall id: EntityId
      ensures UpToDate(patched, store, id) <==> UpToDate(view, store, id) || (id in touched && id in store)
    {
      ApplyIdsAt(view, store, touched, id);
    }
    SameEverywhere(patched, store);
  }

  lemma SameEverywhere(view: View, store: Snapshot)
    ensures view == CleanAll(store) <==> forall id: EntityId :: UpToDate(view, store, id)
  {
    if forall id: EntityId :: UpToDate(view, store, id) {
      forall id: EntityId
        ensures id in view <==> id in CleanAll(store)
        ensures id in view ==> view[id] == CleanAll(store)[id]
      {
        assert UpToDate(view, store, id);
      }
    }
  }

  /** In particular after additions and updates whose ids were all recorded, in any order, with
    * repeats and in chunks of any size.
    */
  lemma PatchEqualsRebuild(
    before: Snapshot, after: Snapshot, read: ChunkReads, touched: seq<EntityId>, size: nat)
    requires size > 0 && forall k :: read(k) == Some(after)
    requires forall id :: id in before ==> id in after
    requires forall id :: id in after && (id !in before || before[id] != after[id]) ==> id in touched
    ensures ApplyChunks(CleanAll(before), read, 0, touched, size) == (CleanAll(after), true)
  {
    ChunkingIsInvisible(CleanAll(before), after, read, 0, touched, size);
    PatchEqualsRebuildIff(CleanAll(before), after, touched);
  }

  // ---------------------------------------------------------------- one patch after another

  /** One refresh of a built column set: the ids it re-reads and what each chunk reads. */
  datatype Refresh = Refresh(read: ChunkReads, touched: seq<EntityId>)

  /** Patch refresh by refresh, stopping at the first that fails. */
  ghost function ApplyRefreshes(view: View, refreshes: seq<Refresh>, size: nat): (View, bool)
    requires size > 0
    decreases |refreshes|
  {
    if refreshes == [] then (view, true)
    else
      var (patched, ok) := ApplyChunks(view, refreshes[0].read, 0, refreshes[0].touched, size);
      if ok then ApplyRefreshes(patched, refreshes[1..], size) else (patched, false)
  }

  /** How many ids the refreshes re-read. */
  function TouchedTotal(refreshes: seq<Refresh>): nat {
    if refreshes == [] then 0 else |refreshes[0].touched| + TouchedTotal(refreshes[1..])
  }

  /** Each refresh reads the next store, which keeps every record and changes only touched ids. */
  ghost predicate Follow(store: Snapshot, refreshes: seq<Refresh>, stores: seq<Snapshot>)
    decreases |refreshes|
  {
    if refreshes == [] then stores == []
    else
      && stores != [] && ChangesTouched(store, refreshes[0], stores[0])
      && Follow(stores[0], refreshes[1..], stores[1..])
  }

  ghost predicate ChangesTouched(before: Snapshot, refresh: Refresh, after: Snapshot) {
    && (forall k :: refresh.read(k) == Some(after))
    && (forall id :: id in before ==> id in after)
    && (forall id :: id in after && (id !in before || before[id] != after[id]) ==> id in refresh.touched)
  }

  /** However often the columns are patched, they read as a build over the last store would. */
  lemma {:induction false} RefreshesEqualRebuild(
    store: Snapshot, refreshes: seq<Refresh>, stores: seq<Snapshot>, size: nat)
    requires size > 0 && Follow(store, refreshes, stores)
    ensures ApplyRefreshes(CleanAll(store), refreshes, size)
      == (CleanAll(if stores == [] then store else stores[|stores| - 1]), true)
    decreases |stores|
  {
    if stores != [] {
      PatchEqualsRebuild(store, stores[0], refreshes[0].read, refreshes[0].touched, size);
      RefreshesEqualRebuild(stores[0], refreshes[1..], stores[1..], size);
    }
  }
}
