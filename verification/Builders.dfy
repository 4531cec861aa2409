/** Streaming a scan of entities into one column builder per property. */
module Builders {
  import opened Words
  import opened Json
  import opened ColumnParts
  import opened Column
  import opened Tables

  type Item = (EntityId, Value)

  // ---------------------------------------------------------------- what the scan says

  /** The members of one decoded record that are to be columnarized. */
  function Wanted(json: Value, only: Option<Text>): map<Text, Value> {
    if json.Object? then map k | k in json.members && (only == None || only == Some(k)) :: json.members[k] else map[]
  }

  function MemberOf(json: Value, only: Option<Text>, p: Text): Value {
    if p in Wanted(json, only) then Wanted(json, only)[p] else Null
  }

  /** The column of `p`: one slot an entity, in scan order. */
  function ColumnOf(items: seq<Item>, only: Option<Text>, p: Text): seq<Value> {
    seq(|items|, d requires 0 <= d < |items| => MemberOf(items[d].1, only, p))
  }

  function IdsOf(items: seq<Item>): seq<EntityId> {
    seq(|items|, d requires 0 <= d < |items| => items[d].0)
  }

  /** The properties some entity has. */
  ghost function NamesOf(items: seq<Item>, only: Option<Text>): set<Text> {
    set d, p | 0 <= d < |items| && p in Wanted(items[d].1, only) :: p
  }

  // ---------------------------------------------------------------- a set of builders

  /** Builders with separate columns, all their parts in `owned`, of at most `n` slots. */
  ghost predicate BuildersOk(bs: map<Text, ColumnBuilder>, owned: set<object>, n: nat)
    reads owned
  {
    && (forall p :: p in bs ==>
          bs[p].col in owned && bs[p].col.Repr <= owned && bs[p].Valid() && |bs[p].col.cells| <= n)
    && (forall p, q :: p in bs && q in bs && p != q ==> bs[p].col.Repr !! bs[q].col.Repr)
  }

  /** The cells of one builder after `v` is pushed at `dense`. */
  function Pushed(cells: seq<Value>, dense: nat, v: Value): seq<Value>
    requires |cells| <= dense
  {
    cells + Nulls(dense - |cells|) + [v]
  }

  /** The builders hold exactly these cells. */
  ghost predicate Holds(bs: map<Text, ColumnBuilder>, owned: set<object>, cells: map<Text, seq<Value>>)
    reads owned
  {
    bs.Keys == cells.Keys && forall p :: p in bs ==> bs[p].col in owned && bs[p].col.cells == cells[p]
  }

  ghost function WithEntry(cells: map<Text, seq<Value>>, k: Text): map<Text, seq<Value>> {
    if k in cells then cells else cells[k := []]
  }

  ghost function PushedAt(cells: map<Text, seq<Value>>, k: Text, dense: nat, v: Value): map<Text, seq<Value>>
    requires k in cells ==> |cells[k]| <= dense
  {
    cells[k := Pushed(if k in cells then cells[k] else [], dense, v)]
  }

  /** Start a builder for `k` when there is none. */
  method Entry(
    bs: map<Text, ColumnBuilder>, k: Text, n: nat, ghost owned: set<object>, ghost cells: map<Text, seq<Value>>)
    returns (bs': map<Text, ColumnBuilder>, ghost owned': set<object>)
    requires BuildersOk(bs, owned, n) && Holds(bs, owned, cells)
    ensures BuildersOk(bs', owned', n) && owned <= owned' && fresh(owned' - owned)
    ensures Holds(bs', owned', WithEntry(cells, k)) && k in bs' && bs'[k].col.Repr <= owned'
  {
    bs', owned' := bs, owned;
    if k !in bs {
      var b := new ColumnBuilder();
      bs', owned' := bs[k := b], owned + b.col.Repr;
    }
  }

  /** Push one value into the builder of `k`. */
  method PushInto(
    bs: map<Text, ColumnBuilder>, k: Text, dense: nat, v: Value,
    ghost owned: set<object>, ghost cells: map<Text, seq<Value>>)
    returns (ghost owned': set<object>)
    requires BuildersOk(bs, owned, dense + 1) && Holds(bs, owned, cells)
    requires k in bs && k in cells && |cells[k]| <= dense < STR_NULL
    modifies bs[k].col.Repr
    ensures BuildersOk(bs, owned', dense + 1) && owned <= owned' && fresh(owned' - owned)
    ensures Holds(bs, owned', cells[k := Pushed(cells[k], dense, v)])
  {
    hide *;
    BuilderParts(bs, owned, dense + 1, cells);
    ghost var reprs := map p | p in bs :: bs[p].col.Repr;
    assert forall p :: p in bs && p != k ==> reprs[p] !! bs[k].col.Repr;
    bs[k].Push(dense, v);
    owned' := owned + bs[k].col.Repr;
    PushedIs(cells[k], dense, v, bs[k].col.cells);
    forall p | p in bs && p != k
      ensures bs[p].col.Repr == reprs[p] && bs[p].Valid() && bs[p].col.cells == cells[p]
    {
    }
    OneBuilderPushed(bs, k, dense + 1, owned, owned', cells, Pushed(cells[k], dense, v));
  }

  /** What holding builders says of each of them. */
  lemma BuilderParts(bs: map<Text, ColumnBuilder>, owned: set<object>, n: nat, cells: map<Text, seq<Value>>)
    requires BuildersOk(bs, owned, n) && Holds(bs, owned, cells)
    ensures bs.Keys == cells.Keys
    ensures forall p :: p in bs ==>
      bs[p].col in owned && bs[p].col in bs[p].col.Repr && bs[p].col.Repr <= owned && bs[p].Valid() && bs[p].col.Valid()
      && bs[p].col.cells == cells[p] && |cells[p]| <= n && bs[p].col.Strings() <= |cells[p]|
    ensures forall p, q :: p in bs && q in bs && p != q ==> bs[p].col.Repr !! bs[q].col.Repr
  {
    hide PropColumn.Valid;
    hide PropColumn.Strings;
  }

  lemma PushedIs(cells: seq<Value>, dense: nat, v: Value, now: seq<Value>)
    requires |cells| <= dense && |now| == dense + 1 && now[..dense] == cells + Nulls(dense - |cells|) && now[dense] == v
    ensures now == Pushed(cells, dense, v) && |now| <= dense + 1
  {
    assert now == now[..dense] + [now[dense]];
  }

  lemma OneBuilderPushed(
    bs: map<Text, ColumnBuilder>, k: Text, n: nat, owned: set<object>, owned': set<object>,
    cells: map<Text, seq<Value>>, pushed: seq<Value>)
    requires bs.Keys == cells.Keys && k in bs && owned <= owned'
    requires bs[k].col in owned' && bs[k].col.Repr <= owned' && bs[k].Valid()
    requires bs[k].col.cells == pushed && |pushed| <= n
    requires forall p :: p in bs && p != k ==>
      bs[p].col in owned && bs[p].Valid() && bs[p].col.Repr <= owned && bs[p].col.cells == cells[p] && |cells[p]| <= n
      && bs[p].col.Repr !! bs[k].col.Repr
    requires forall p, q :: p in bs && q in bs && p != q && p != k && q != k ==> bs[p].col.Repr !! bs[q].col.Repr
    ensures BuildersOk(bs, owned', n) && Holds(bs, owned', cells[k := pushed])
  {
    hide ColumnBuilder.Valid;
    forall p | p in bs
      ensures bs[p].col in owned' && bs[p].col.Repr <= owned' && bs[p].Valid() && |bs[p].col.cells| <= n
      ensures bs[p].col.cells == cells[k := pushed][p]
    {
    }
    forall p, q | p in bs && q in bs && p != q
      ensures bs[p].col.Repr !! bs[q].col.Repr
    {
      if q == k {
        assert bs[p].col.Repr !! bs[k].col.Repr;
      } else if p == k {
        assert bs[q].col.Repr !! bs[k].col.Repr;
      }
    }
  }

  lemma EntryThenPush(cells: map<Text, seq<Value>>, k: Text, dense: nat, v: Value)
    requires k in cells ==> |cells[k]| <= dense
    ensures var started := WithEntry(cells, k);
      && k in started && |started[k]| <= dense
      && started[k := Pushed(started[k], dense, v)] == PushedAt(cells, k, dense, v)
  {
  }

  method PushMember(
    bs: map<Text, ColumnBuilder>, k: Text, dense: nat, v: Value,
    ghost owned: set<object>, ghost cells: map<Text, seq<Value>>)
    returns (bs': map<Text, ColumnBuilder>, ghost owned': set<object>)
    requires BuildersOk(bs, owned, dense + 1) && Holds(bs, owned, cells)
    requires dense < STR_NULL && (k in cells ==> |cells[k]| <= dense)
    modifies owned
    ensures BuildersOk(bs', owned', dense + 1) && owned <= owned' && fresh(owned' - owned)
    ensures Holds(bs', owned', PushedAt(cells, k, dense, v))
  {
    hide BuildersOk;
    hide Holds;
    EntryThenPush(cells, k, dense, v);
    hide WithEntry;
    hide PushedAt;
    bs', owned' := Entry(bs, k, dense + 1, owned, cells);
    owned' := PushInto(bs', k, dense, v, owned', WithEntry(cells, k));
  }

  ghost predicate CellsWithin(cells: map<Text, seq<Value>>, n: nat) {
    forall p :: p in cells ==> |cells[p]| <= n
  }

  /** The wanted members whose names are in `done` pushed at `dense`. */
  ghost function RecordPushed(cells: map<Text, seq<Value>>, wanted: map<Text, Value>, done: set<Text>, dense: nat)
    : map<Text, seq<Value>>
    requires done <= wanted.Keys && CellsWithin(cells, dense)
  {
    map p | p in cells.Keys + done ::
      if p in done then Pushed(if p in cells then cells[p] else [], dense, wanted[p]) else cells[p]
  }

  lemma OneMorePushed(cells: map<Text, seq<Value>>, wanted: map<Text, Value>, done: set<Text>, k: Text, dense: nat)
    requires done <= wanted.Keys && k in wanted && k !in done && CellsWithin(cells, dense)
    ensures var now := RecordPushed(cells, wanted, done, dense);
      && (k in now ==> |now[k]| <= dense)
      && RecordPushed(cells, wanted, done + {k}, dense) == PushedAt(now, k, dense, wanted[k])
  {
  }

  /** Part way through a record: the wanted members named in `done` are pushed. */
  ghost predicate Pushing(
    bs: map<Text, ColumnBuilder>, owned: set<object>, cells: map<Text, seq<Value>>,
    wanted: map<Text, Value>, done: set<Text>, dense: nat)
    requires done <= wanted.Keys && CellsWithin(cells, dense)
    reads owned
  {
    BuildersOk(bs, owned, dense + 1) && Holds(bs, owned, RecordPushed(cells, wanted, done, dense))
  }

  method PushOne(
    bs: map<Text, ColumnBuilder>, k: Text, dense: nat, wanted: map<Text, Value>, ghost done: set<Text>,
    ghost owned: set<object>, ghost cells: map<Text, seq<Value>>)
    returns (bs': map<Text, ColumnBuilder>, ghost owned': set<object>)
    requires CellsWithin(cells, dense) && dense < STR_NULL && done <= wanted.Keys
    requires k in wanted && k !in done && Pushing(bs, owned, cells, wanted, done, dense)
    modifies owned
    ensures Pushing(bs', owned', cells, wanted, done + {k}, dense)
    ensures owned <= owned' && fresh(owned' - owned)
  {
    OneMorePushed(cells, wanted, done, k, dense);
    hide BuildersOk;
    hide Holds;
    hide RecordPushed;
    hide PushedAt;
    hide CellsWithin;
    bs', owned' := PushMember(bs, k, dense, wanted[k], owned, RecordPushed(cells, wanted, done, dense));
  }

  lemma NothingPushed(
    bs: map<Text, ColumnBuilder>, owned: set<object>, cells: map<Text, seq<Value>>,
    wanted: map<Text, Value>, dense: nat)
    requires BuildersOk(bs, owned, dense) && Holds(bs, owned, cells) && CellsWithin(cells, dense)
    ensures Pushing(bs, owned, cells, wanted, {}, dense)
  {
    assert RecordPushed(cells, wanted, {}, dense) == cells;
  }

  lemma AllPushed(
    bs: map<Text, ColumnBuilder>, owned: set<object>, cells: map<Text, seq<Value>>,
    wanted: map<Text, Value>, dense: nat)
    requires CellsWithin(cells, dense) && Pushing(bs, owned, cells, wanted, wanted.Keys, dense)
    ensures BuildersOk(bs, owned, dense + 1) && Holds(bs, owned, RecordPushed(cells, wanted, wanted.Keys, dense))
  {
  }

  /** Stream the wanted members of one record into the builders. */
  method PushRecord(
    bs: map<Text, ColumnBuilder>, dense: nat, json: Value, only: Option<Text>,
    ghost owned: set<object>, ghost cells: map<Text, seq<Value>>)
    returns (bs': map<Text, ColumnBuilder>, ghost owned': set<object>)
    requires BuildersOk(bs, owned, dense) && Holds(bs, owned, cells) && CellsWithin(cells, dense) && dense < STR_NULL
    modifies owned
    ensures BuildersOk(bs', owned', dense + 1) && owned <= owned' && fresh(owned' - owned)
    ensures Holds(bs', owned', RecordPushed(cells, Wanted(json, only), Wanted(json, only).Keys, dense))
  {
    hide *;
    var wanted := Wanted(json, only);
    bs', owned' := bs, owned;
    NothingPushed(bs, owned, cells, wanted, dense);
    var todo := wanted.Keys;
    ghost var done := {};
    while todo != {}
      invariant todo <= wanted.Keys && done == wanted.Keys - todo
      invariant owned <= owned' && fresh(owned' - owned)
      invariant Pushing(bs', owned', cells, wanted, done, dense)
      decreases todo
    {
      var k :| k in todo;
      bs', owned' := PushOne(bs', k, dense, wanted, done, owned', cells);
      todo, done := todo - {k}, done + {k};
    }
    assert done == wanted.Keys;
    AllPushed(bs', owned', cells, wanted, dense);
  }

  // ---------------------------------------------------------------- the whole scan

  /** The cells after the items: a column for each property some item has, the tail nulls not stored. */
  ghost predicate Scanned(cells: map<Text, seq<Value>>, items: seq<Item>, only: Option<Text>) {
    && cells.Keys == NamesOf(items, only)
    && CellsWithin(cells, |items|)
    && forall p :: p in cells ==> ColumnScanned(cells[p], items, only, p)
  }

  ghost predicate ColumnScanned(column: seq<Value>, items: seq<Item>, only: Option<Text>, p: Text) {
    Padded(column, |items|) == ColumnOf(items, only, p)
  }

  lemma NamesOfOneMore(items: seq<Item>, item: Item, only: Option<Text>)
    ensures NamesOf(items + [item], only) == NamesOf(items, only) + Wanted(item.1, only).Keys
  {
    var all := items + [item];
    forall p
      ensures p in NamesOf(all, only) <==> p in NamesOf(items, only) || p in Wanted(item.1, only)
    {
      if p in NamesOf(items, only) {
        var d :| 0 <= d < |items| && p in Wanted(items[d].1, only);
        assert all[d] == items[d];
      }
      if p in Wanted(item.1, only) {
        assert all[|items|] == item;
      }
    }
  }

  lemma AbsentColumn(items: seq<Item>, only: Option<Text>, p: Text)
    requires p !in NamesOf(items, only)
    ensures ColumnOf(items, only, p) == Nulls(|items|)
  {
    forall d | 0 <= d < |items|
      ensures MemberOf(items[d].1, only, p) == Null
    {
    }
  }

  lemma PaddedPush(cells: seq<Value>, n: nat, v: Value)
    requires |cells| <= n
    ensures Padded(Pushed(cells, n, v), n + 1) == Padded(cells, n) + [v]
    ensures Padded(cells, n + 1) == Padded(cells, n) + [Null]
  {
  }

  lemma ScanStepColumn(cells: map<Text, seq<Value>>, items: seq<Item>, item: Item, only: Option<Text>, p: Text)
    requires Scanned(cells, items, only)
    requires p in cells || p in Wanted(item.1, only)
    ensures var wanted := Wanted(item.1, only);
      var next := RecordPushed(cells, wanted, wanted.Keys, |items|);
      |next[p]| <= |items| + 1 && ColumnScanned(next[p], items + [item], only, p)
  {
    assert ColumnOf(items + [item], only, p) == ColumnOf(items, only, p) + [MemberOf(item.1, only, p)];
    if p in cells {
      PaddedPush(cells[p], |items|, MemberOf(item.1, only, p));
    } else {
      AbsentColumn(items, only, p);
      PaddedPush([], |items|, MemberOf(item.1, only, p));
    }
  }

  lemma ScanStep(cells: map<Text, seq<Value>>, items: seq<Item>, item: Item, only: Option<Text>)
    requires Scanned(cells, items, only)
    ensures Scanned(RecordPushed(cells, Wanted(item.1, only), Wanted(item.1, only).Keys, |items|), items + [item], only)
  {
    var wanted := Wanted(item.1, only);
    var next := RecordPushed(cells, wanted, wanted.Keys, |items|);
    NamesOfOneMore(items, item, only);
    assert next.Keys == cells.Keys + wanted.Keys;
    hide RecordPushed;
    hide ColumnScanned;
    hide NamesOf;
    hide Wanted;
    forall p | p in next
      ensures |next[p]| <= |items| + 1 && ColumnScanned(next[p], items + [item], only, p)
    {
      ScanStepColumn(cells, items, item, only, p);
    }
  }

  /** One pass over the items, each record dropped before the next is read. */
  method Scan(items: seq<Item>, only: Option<Text>)
    returns (bs: map<Text, ColumnBuilder>, ghost owned: set<object>, ghost cells: map<Text, seq<Value>>)
    requires |items| <= U32_MAX
    ensures BuildersOk(bs, owned, |items|) && fresh(owned)
    ensures Holds(bs, owned, cells) && Scanned(cells, items, only)
  {
    bs, owned, cells := map[], {}, map[];
    var dense := 0;
    assert BuildersOk(bs, owned, 0) && Scanned(cells, items[..0], only);
    hide BuildersOk;
    hide RecordPushed;
    hide Padded;
    hide ColumnOf;
    hide NamesOf;
    while dense < |items|
      invariant 0 <= dense <= |items|
      invariant BuildersOk(bs, owned, dense) && fresh(owned)
      invariant Holds(bs, owned, cells) && Scanned(cells, items[..dense], only)
    {
      ScanStep(cells, items[..dense], items[dense], only);
      bs, owned := PushRecord(bs, dense, items[dense].1, only, owned, cells);
      cells := RecordPushed(cells, Wanted(items[dense].1, only), Wanted(items[dense].1, only).Keys, dense);
      assert items[..dense + 1] == items[..dense] + [items[dense]];
      dense := dense + 1;
    }
    assert items[..dense] == items;
  }

  // ---------------------------------------------------------------- a set of columns

  /** Columns that share no part, all their parts in `owned`. */
  ghost predicate ColsOk(cols: map<Text, PropColumn>, owned: set<object>)
    reads owned
  {
    && (forall p :: p in cols ==> cols[p] in owned && cols[p].Repr <= owned && cols[p].Valid())
    && (forall p, q :: p in cols && q in cols && p != q ==> cols[p].Repr !! cols[q].Repr)
  }

  /** The finished column of `p`: it is the fallback exactly when no typed column could hold it, and one of
    * integers when it holds no value.
    */
  ghost predicate FinishedColumn(c: PropColumn, cells: seq<Value>)
    reads c, c.Repr
  {
    && c.Valid() && c.cells == cells && c.Strings() <= |cells|
    && (c.rep.Jsons? <==> Mixed(cells)) && (!SomeValue(cells) ==> c.rep.Ints?)
  }

  /** Part way through finishing: the builders in `todo` still hold their cells, the others are done. */
  ghost predicate Finishing(
    bs: map<Text, ColumnBuilder>, cols: map<Text, PropColumn>, todo: set<Text>, n: nat,
    owned: set<object>, cells: map<Text, seq<Value>>)
    reads owned
  {
    && cols.Keys == bs.Keys == cells.Keys && (forall p :: p in bs ==> cols[p] == bs[p].col)
    && ColsOk(cols, owned)
    && (forall p :: p in cols && p in todo ==> bs[p].Valid() && cols[p].cells == cells[p] && |cells[p]| <= n)
    && (forall p :: p in cols && p !in todo ==> FinishedColumn(cols[p], Padded(cells[p], n)))
  }

  method FinishOne(
    bs: map<Text, ColumnBuilder>, k: Text, n: nat, ghost cols: map<Text, PropColumn>, ghost todo: set<Text>,
    ghost owned: set<object>, ghost cells: map<Text, seq<Value>>)
    returns (ghost owned': set<object>)
    requires Finishing(bs, cols, todo, n, owned, cells) && k in bs && k in todo
    modifies cols[k].Repr
    ensures Finishing(bs, cols, todo - {k}, n, owned', cells) && owned <= owned' && fresh(owned' - owned)
  {
    hide PropColumn.Valid;
    hide ColumnBuilder.Valid;
    hide Mixed;
    hide SomeValue;
    hide Padded;
    ghost var others := map p | p in cols && p != k :: cols[p].Repr;
    assert cols[k].Repr <= owned;
    var c := bs[k].Finish(n);
    owned' := owned + c.Repr;
    assert FinishedColumn(c, Padded(cells[k], n));
    hide FinishedColumn;
    assert bs[k].col == cols[k];
    forall p | p in cols && p != k
      ensures cols[p].Valid() && cols[p].Repr == others[p] && cols[p].Repr <= owned
      ensures cols[p].Repr !! cols[k].Repr
      ensures p in todo ==> bs[p].Valid() && cols[p].cells == cells[p]
      ensures p !in todo ==> FinishedColumn(cols[p], Padded(cells[p], n))
    {
    }
    assert forall p, q :: p in cols && q in cols && p != q && p != k && q != k ==> cols[p].Repr !! cols[q].Repr;
    hide Finishing;
    OthersAndOne(cols, k, owned, owned');
    hide ColsOk;
    OneFinished(bs, k, n, cols, todo, owned', cells);
  }

  lemma OneFinished(
    bs: map<Text, ColumnBuilder>, k: Text, n: nat, cols: map<Text, PropColumn>, todo: set<Text>,
    owned: set<object>, cells: map<Text, seq<Value>>)
    requires cols.Keys == bs.Keys == cells.Keys && (forall p :: p in bs ==> cols[p] == bs[p].col)
    requires ColsOk(cols, owned) && k in cols && FinishedColumn(cols[k], Padded(cells[k], n))
    requires forall p :: p in cols && p != k && p in todo ==>
      bs[p].Valid() && cols[p].cells == cells[p] && |cells[p]| <= n
    requires forall p :: p in cols && p != k && p !in todo ==> FinishedColumn(cols[p], Padded(cells[p], n))
    ensures Finishing(bs, cols, todo - {k}, n, owned, cells)
  {
    hide ColsOk;
    hide FinishedColumn;
    hide Padded;
  }

  lemma OthersAndOne(cols: map<Text, PropColumn>, k: Text, owned: set<object>, owned': set<object>)
    requires k in cols && cols[k] in owned' && cols[k].Repr <= owned' && cols[k].Valid() && owned <= owned'
    requires forall p :: p in cols && p != k ==>
      cols[p] in owned && cols[p].Repr <= owned && cols[p].Valid() && cols[p].Repr !! cols[k].Repr
    requires forall p, q :: p in cols && q in cols && p != q && p != k && q != k ==> cols[p].Repr !! cols[q].Repr
    ensures ColsOk(cols, owned')
  {
    hide PropColumn.Valid;
  }

  /** Finish every builder over `n` slots. */
  method FinishAll(
    bs: map<Text, ColumnBuilder>, n: nat, ghost owned: set<object>, ghost cells: map<Text, seq<Value>>)
    returns (cols: map<Text, PropColumn>, ghost owned': set<object>)
    requires BuildersOk(bs, owned, n) && Holds(bs, owned, cells)
    modifies owned
    ensures cols.Keys == cells.Keys && ColsOk(cols, owned') && owned <= owned' && fresh(owned' - owned)
    ensures forall p :: p in cols ==> FinishedColumn(cols[p], Padded(cells[p], n))
  {
    hide PropColumn.Valid;
    hide Padded;
    cols := map p | p in bs :: bs[p].col;
    owned' := owned;
    var todo := bs.Keys;
    assert Finishing(bs, cols, todo, n, owned, cells);
    hide BuildersOk;
    hide Holds;
    hide ColsOk;
    hide FinishedColumn;
    while todo != {}
      invariant todo <= bs.Keys && owned <= owned' && fresh(owned' - owned)
      invariant Finishing(bs, cols, todo, n, owned', cells)
      decreases todo
    {
      var k :| k in todo;
      assert k in cols && cols[k].Repr <= owned' by { FinishingOwns(bs, cols, todo, n, owned', cells, k); }
      owned' := FinishOne(bs, k, n, cols, todo, owned', cells);
      todo := todo - {k};
    }
  }

  lemma FinishingOwns(
    bs: map<Text, ColumnBuilder>, cols: map<Text, PropColumn>, todo: set<Text>, n: nat,
    owned: set<object>, cells: map<Text, seq<Value>>, k: Text)
    requires Finishing(bs, cols, todo, n, owned, cells) && k in bs
    ensures k in cols && cols[k].Repr <= owned
  {
  }

  /** Build columns over exactly these items, of one property only when `only` names it. */
  method BuildColumns(items: seq<Item>, only: Option<Text>)
    returns (cols: map<Text, PropColumn>, ghost owned: set<object>)
    requires |items| <= U32_MAX
    ensures cols.Keys == NamesOf(items, only) && ColsOk(cols, owned) && fresh(owned)
    ensures forall p :: p in cols ==> FinishedColumn(cols[p], ColumnOf(items, only, p))
  {
    hide ColsOk;
    hide BuildersOk;
    hide FinishedColumn;
    var bs;
    ghost var owned0, cells;
    bs, owned0, cells := Scan(items, only);
    cols, owned := FinishAll(bs, |items|, owned0, cells);
  }
}
