/** Grouping entities by one property: a dense code per distinct value, in order of first occurrence. */
module Groups {
  import opened Words
  import opened Json
  import opened ColumnParts
  import opened Column
  import opened Tables
  import opened Builders
  import opened ColumnSets
  import opened PropertyColumns
  import opened Stats

  type Coded = (seq<u32>, seq<Value>)

  // ---------------------------------------------------------------- what a grouping is

  /** The distinct values, in order of first occurrence. */
  function Firsts(vals: seq<Value>): seq<Value> {
    if vals == [] then []
    else
      var before := Firsts(vals[..|vals| - 1]);
      if vals[|vals| - 1] in before then before else before + [vals[|vals| - 1]]
  }

  ghost predicate Grouped(vals: seq<Value>, codes: seq<u32>, reps: seq<Value>) {
    && reps == Firsts(vals) && |codes| == |vals|
    && forall i :: 0 <= i < |vals| ==> codes[i] < |reps| && reps[codes[i]] == vals[i]
  }

  lemma {:induction false} FirstsAreDistinct(vals: seq<Value>)
    ensures Distinct(Firsts(vals))
    ensures forall v :: v in Firsts(vals) <==> v in vals
  {
    if vals != [] {
      FirstsAreDistinct(vals[..|vals| - 1]);
      assert vals == vals[..|vals| - 1] + [vals[|vals| - 1]];
    }
  }

  /** Two entities share a code exactly when their values are identical. */
  lemma SameCodeIff(vals: seq<Value>, codes: seq<u32>, reps: seq<Value>, i: nat, j: nat)
    requires Grouped(vals, codes, reps) && i < |vals| && j < |vals|
    ensures codes[i] == codes[j] <==> vals[i] == vals[j]
  {
    FirstsAreDistinct(vals);
  }

  /** Every code is used, and for the first time after all the codes below it. */
  lemma {:induction false} CodesAreDense(vals: seq<Value>, codes: seq<u32>, reps: seq<Value>, c: nat) returns (i: nat)
    requires Grouped(vals, codes, reps) && c < |reps|
    ensures i < |vals| && codes[i] == c
    ensures forall j :: 0 <= j < i ==> codes[j] < c
  {
    var n := |vals| - 1;
    FirstsAreDistinct(vals);
    if c < |Firsts(vals[..n])| {
      i := CodesAreDense(vals[..n], codes[..n], Firsts(vals[..n]), c) by { GroupedPrefix(vals, codes, reps); }
    } else {
      i := n;
      GroupedPrefix(vals, codes, reps);
    }
  }

  lemma GroupedPrefix(vals: seq<Value>, codes: seq<u32>, reps: seq<Value>)
    requires Grouped(vals, codes, reps) && vals != []
    ensures Grouped(vals[..|vals| - 1], codes[..|vals| - 1], Firsts(vals[..|vals| - 1]))
  {
    var n := |vals| - 1;
    var before := Firsts(vals[..n]);
    FirstsAreDistinct(vals);
    FirstsAreDistinct(vals[..n]);
    forall i | 0 <= i < n
      ensures codes[i] < |before| && before[codes[i]] == vals[i]
    {
      assert vals[..n][i] == vals[i];
      var k :| 0 <= k < |before| && before[k] == vals[i];
      assert reps[k] == before[k];
    }
  }

  /** The values decide the grouping. */
  lemma GroupingIsUnique(vals: seq<Value>, codes: seq<u32>, reps: seq<Value>, codes': seq<u32>, reps': seq<Value>)
    requires Grouped(vals, codes, reps) && Grouped(vals, codes', reps')
    ensures codes == codes' && reps == reps'
  {
    FirstsAreDistinct(vals);
    forall i | 0 <= i < |codes|
      ensures codes[i] == codes'[i]
    {
      assert reps[codes[i]] == reps[codes'[i]];
    }
  }

  lemma KnownValue(vals: seq<Value>, codes: seq<u32>, reps: seq<Value>, v: Value, code: u32)
    requires Grouped(vals, codes, reps) && code < |reps| && reps[code] == v
    ensures Grouped(vals + [v], codes + [code], reps)
  {
    assert (vals + [v])[..|vals|] == vals;
  }

  lemma NewValue(vals: seq<Value>, codes: seq<u32>, reps: seq<Value>, v: Value)
    requires Grouped(vals, codes, reps) && v !in reps && |reps| <= U32_MAX
    ensures Grouped(vals + [v], codes + [|reps|], reps + [v])
  {
    assert (vals + [v])[..|vals|] == vals;
  }

  // ---------------------------------------------------------------- codes fit 32 bits

  ghost function Members(s: seq<Value>): set<Value> {
    set v | v in s
  }

  lemma {:induction false} DistinctCount(s: seq<Value>)
    ensures |Members(s)| <= |s|
    ensures Distinct(s) ==> |Members(s)| == |s|
  {
    if s != [] {
      var n := |s| - 1;
      DistinctCount(s[..n]);
      assert s == s[..n] + [s[n]];
      assert Members(s) == Members(s[..n]) + {s[n]};
      if Distinct(s) {
        assert s[n] !in s[..n];
      }
    }
  }

  /** No more distinct values than rows, so every code fits and none is the largest 32-bit number. */
  lemma FewReps(reps: seq<Value>, cells: seq<Value>)
    requires Distinct(reps) && forall v :: v in reps ==> v in cells
    ensures |reps| <= |cells|
  {
    DistinctCount(reps);
    DistinctCount(cells);
    Subset(Members(reps), Members(cells));
  }

  lemma {:induction false} Subset(a: set<Value>, b: set<Value>)
    requires a <= b
    ensures |a| <= |b|
  {
    if a != {} {
      var v :| v in a;
      Subset(a - {v}, b - {v});
    }
  }

  // ---------------------------------------------------------------- coding value by value

  /** Distinct values of the column have distinct keys. */
  ghost predicate InjectiveOn<K(!new)>(key: Value -> K, cells: seq<Value>) {
    forall a, b :: a in cells && b in cells && a != Null && b != Null && key(a) == key(b) ==> a == b
  }

  /** `seen` maps the key of each representative to its code; null has its own. */
  ghost predicate Interned<K(!new)>(reps: seq<Value>, nullCode: Option<u32>, seen: map<K, u32>, key: Value -> K) {
    && (nullCode.Some? <==> Null in reps)
    && (nullCode.Some? ==> nullCode.value < |reps| && reps[nullCode.value] == Null)
    && (forall k :: k in seen ==> seen[k] < |reps| && reps[seen[k]] != Null && key(reps[seen[k]]) == k)
    && (forall v :: v in reps && v != Null ==> key(v) in seen)
  }

  /** The state of one coding pass over the values `vals` of a column. */
  ghost predicate Coding<K(!new)>(
    vals: seq<Value>, coded: Coded, nullCode: Option<u32>, seen: map<K, u32>, key: Value -> K, cells: seq<Value>)
  {
    && Grouped(vals, coded.0, coded.1) && Interned(coded.1, nullCode, seen, key)
    && (forall v :: v in vals ==> v in cells) && |cells| <= U32_MAX
  }

  lemma CodingRoom<K(!new)>(
    vals: seq<Value>, coded: Coded, nullCode: Option<u32>, seen: map<K, u32>, key: Value -> K, cells: seq<Value>,
    v: Value)
    requires Coding(vals, coded, nullCode, seen, key, cells) && v in cells
    ensures v !in coded.1 ==> |coded.1| < U32_MAX
    ensures |coded.1| <= U32_MAX
  {
    FirstsAreDistinct(vals);
    FewReps(coded.1, cells);
    if v !in coded.1 {
      FewReps(coded.1 + [v], cells);
    }
  }

  lemma SeenKey<K(!new)>(
    vals: seq<Value>, coded: Coded, nullCode: Option<u32>, seen: map<K, u32>, key: Value -> K, cells: seq<Value>,
    v: Value)
    requires Coding(vals, coded, nullCode, seen, key, cells) && InjectiveOn(key, cells)
    requires v in cells && v != Null && key(v) in seen
    ensures seen[key(v)] < |coded.1| && coded.1[seen[key(v)]] == v
    ensures Coding(vals + [v], (coded.0 + [seen[key(v)]], coded.1), nullCode, seen, key, cells)
  {
    FirstsAreDistinct(vals);
    assert coded.1[seen[key(v)]] in cells;
    KnownValue(vals, coded.0, coded.1, v, seen[key(v)]);
  }

  lemma NewKey<K(!new)>(
    vals: seq<Value>, coded: Coded, nullCode: Option<u32>, seen: map<K, u32>, key: Value -> K, cells: seq<Value>,
    v: Value)
    requires Coding(vals, coded, nullCode, seen, key, cells)
    requires v in cells && v != Null && key(v) !in seen
    ensures |coded.1| < U32_MAX
    ensures Coding(
      vals + [v], (coded.0 + [|coded.1|], coded.1 + [v]), nullCode, seen[key(v) := |coded.1|], key, cells)
  {
    CodingRoom(vals, coded, nullCode, seen, key, cells, v);
    NewValue(vals, coded.0, coded.1, v);
  }

  /** Code one non-null value by its key. */
  method Intern<K(==,!new)>(
    coded: Coded, nullCode: Option<u32>, seen: map<K, u32>, k: K, v: Value,
    ghost vals: seq<Value>, ghost key: Value -> K, ghost cells: seq<Value>)
    returns (coded': Coded, seen': map<K, u32>)
    requires Coding(vals, coded, nullCode, seen, key, cells) && InjectiveOn(key, cells)
    requires v in cells && v != Null && key(v) == k
    ensures Coding(vals + [v], coded', nullCode, seen', key, cells)
  {
    if k in seen {
      SeenKey(vals, coded, nullCode, seen, key, cells, v);
      coded', seen' := (coded.0 + [seen[k]], coded.1), seen;
    } else {
      NewKey(vals, coded, nullCode, seen, key, cells, v);
      coded', seen' := (coded.0 + [|coded.1|], coded.1 + [v]), seen[k := |coded.1|];
    }
  }

  /** Code one null, which gets its code only when the first one is met. */
  method InternNull<K(!new)>(
    coded: Coded, nullCode: Option<u32>,
    ghost vals: seq<Value>, ghost seen: map<K, u32>, ghost key: Value -> K, ghost cells: seq<Value>)
    returns (coded': Coded, nullCode': Option<u32>)
    requires Coding(vals, coded, nullCode, seen, key, cells) && Null in cells
    ensures Coding(vals + [Null], coded', nullCode', seen, key, cells)
  {
    if nullCode.Some? {
      KnownValue(vals, coded.0, coded.1, Null, nullCode.value);
      coded', nullCode' := (coded.0 + [nullCode.value], coded.1), nullCode;
    } else {
      CodingRoom(vals, coded, nullCode, seen, key, cells, Null);
      NewValue(vals, coded.0, coded.1, Null);
      coded', nullCode' := (coded.0 + [|coded.1|], coded.1 + [Null]), Some(|coded.1|);
    }
  }

  // ---------------------------------------------------------------- the pass over each column kind

  /** The property of each entity, in request order. */
  ghost function ValuesOf(view: View, ids: seq<EntityId>, prop: Text): seq<Value>
    requires forall i :: 0 <= i < |ids| ==> ids[i] in view
  {
    seq(|ids|, i requires 0 <= i < |ids| => PropOf(view, ids[i], prop))
  }

  /** A grouping of the entities by the property, or the first entity that does not exist. */
  ghost predicate GroupsOf(r: Gathered<Coded>, view: View, ids: seq<EntityId>, prop: Text) {
    match r
    case NotFound(id) => FirstMissing(ids, view, id)
    case Gathered(coded) =>
      (forall i :: 0 <= i < |ids| ==> ids[i] in view) && Grouped(ValuesOf(view, ids, prop), coded.0, coded.1)
  }

  /** Part way through a request: the first `i` entities exist and are coded. */
  ghost predicate CodedUpTo<K(!new)>(
    i: nat, view: View, ids: seq<EntityId>, prop: Text,
    coded: Coded, nullCode: Option<u32>, seen: map<K, u32>, key: Value -> K, cells: seq<Value>)
  {
    && i <= |ids| && (forall j :: 0 <= j < i ==> ids[j] in view)
    && Coding(ValuesOf(view, ids[..i], prop), coded, nullCode, seen, key, cells)
  }

  lemma NextCoded(view: View, ids: seq<EntityId>, prop: Text, i: nat, v: Value)
    requires i < |ids| && forall j :: 0 <= j <= i ==> ids[j] in view
    requires v == PropOf(view, ids[i], prop)
    ensures ValuesOf(view, ids[..i + 1], prop) == ValuesOf(view, ids[..i], prop) + [v]
  {
  }

  lemma NoneCoded<K(!new)>(view: View, ids: seq<EntityId>, prop: Text, key: Value -> K, cells: seq<Value>)
    requires |cells| <= U32_MAX
    ensures CodedUpTo(0, view, ids, prop, ([], []), None, map[], key, cells)
  {
    assert ValuesOf(view, ids[..0], prop) == [];
  }

  lemma AllCoded<K(!new)>(
    view: View, ids: seq<EntityId>, prop: Text,
    coded: Coded, nullCode: Option<u32>, seen: map<K, u32>, key: Value -> K, cells: seq<Value>)
    requires CodedUpTo(|ids|, view, ids, prop, coded, nullCode, seen, key, cells)
    ensures GroupsOf(Gathered(coded), view, ids, prop)
  {
    assert ids[..|ids|] == ids;
  }

  lemma CodedSoFar<K(!new)>(
    i: nat, view: View, ids: seq<EntityId>, prop: Text,
    coded: Coded, nullCode: Option<u32>, seen: map<K, u32>, key: Value -> K, cells: seq<Value>)
    requires CodedUpTo(i, view, ids, prop, coded, nullCode, seen, key, cells)
    ensures i <= |ids| && forall j :: 0 <= j < i ==> ids[j] in view
    ensures Coding(ValuesOf(view, ids[..i], prop), coded, nullCode, seen, key, cells)
    ensures i < |ids| && ids[i] !in view ==> GroupsOf(NotFound(ids[i]), view, ids, prop)
  {
  }

  lemma CodedOneMore<K(!new)>(
    i: nat, view: View, ids: seq<EntityId>, prop: Text, v: Value,
    coded: Coded, nullCode: Option<u32>, seen: map<K, u32>, key: Value -> K, cells: seq<Value>)
    requires i < |ids| && (forall j :: 0 <= j <= i ==> ids[j] in view) && v == PropOf(view, ids[i], prop)
    requires Coding(ValuesOf(view, ids[..i], prop) + [v], coded, nullCode, seen, key, cells)
    ensures CodedUpTo(i + 1, view, ids, prop, coded, nullCode, seen, key, cells)
  {
    NextCoded(view, ids, prop, i, v);
  }

  ghost function IntKey(v: Value): i64 {
    if v.Num? && v.n.Int? then v.n.i else 0
  }

  /** Keyed by the bits: 0.0 and -0.0 are different groups. */
  ghost function FloatKey(v: Value): f64 {
    if v.Num? && v.n.Float? then v.n.f else Double(false, 0, 0)
  }

  ghost function BoolKey(v: Value): bool {
    v.Bool? && v.b
  }

  ghost function StrKey(v: Value): Text {
    if v.Str? then v.s else []
  }

  lemma TypedKeysInjective(cells: seq<Value>)
    ensures AllOfKind(cells, KInt) ==> InjectiveOn(IntKey, cells)
    ensures AllOfKind(cells, KFloat) ==> InjectiveOn(FloatKey, cells)
    ensures AllOfKind(cells, KBool) ==> InjectiveOn(BoolKey, cells)
    ensures AllOfKind(cells, KStr) ==> InjectiveOn(StrKey, cells)
  {
  }

  method GroupInts(pc: PropColumns, c: PropColumn, ids: seq<EntityId>, prop: Text) returns (r: Gathered<Coded>)
    requires pc.Shaped() && prop in pc.cols && pc.cols[prop] == c && c.Valid() && c.rep.Ints?
    requires |c.cells| <= U32_MAX && InjectiveOn(IntKey, c.cells)
    ensures GroupsOf(r, pc.View(), ids, prop)
  {
    hide PropColumns.Shaped;
    hide PropColumn.Valid;
    hide Coding;
    hide InjectiveOn;
    hide ViewOf;
    var coded: Coded, nullCode: Option<u32>, seen: map<i64, u32> := ([], []), None, map[];
    NoneCoded(pc.View(), ids, prop, IntKey, c.cells);
    for i := 0 to |ids|
      invariant CodedUpTo(i, pc.View(), ids, prop, coded, nullCode, seen, IntKey, c.cells)
    {
      var dense := pc.RowOf(ids[i], prop);
      if dense == None {
        return NotFound(ids[i]);
      }
      var d := dense.value;
      c.IntAt(d);
      ghost var vals := ValuesOf(pc.View(), ids[..i], prop);
      NextCoded(pc.View(), ids, prop, i, c.cells[d]);
      match c.rep.ints.Get(d)
      case None =>
        coded, nullCode := InternNull(coded, nullCode, vals, seen, IntKey, c.cells);
      case Some(n) =>
        coded, seen := Intern(coded, nullCode, seen, n, IntValue(n), vals, IntKey, c.cells);
    }
    AllCoded(pc.View(), ids, prop, coded, nullCode, seen, IntKey, c.cells);
    r := Gathered(coded);
  }

  method GroupFloats(pc: PropColumns, c: PropColumn, ids: seq<EntityId>, prop: Text) returns (r: Gathered<Coded>)
    requires pc.Shaped() && prop in pc.cols && pc.cols[prop] == c && c.Valid() && c.rep.Floats?
    requires |c.cells| <= U32_MAX && InjectiveOn(FloatKey, c.cells)
    ensures GroupsOf(r, pc.View(), ids, prop)
  {
    hide PropColumns.Shaped;
    hide PropColumn.Valid;
    hide Coding;
    hide InjectiveOn;
    hide ViewOf;
    var coded: Coded, nullCode: Option<u32>, seen: map<f64, u32> := ([], []), None, map[];
    NoneCoded(pc.View(), ids, prop, FloatKey, c.cells);
    for i := 0 to |ids|
      invariant CodedUpTo(i, pc.View(), ids, prop, coded, nullCode, seen, FloatKey, c.cells)
    {
      var dense := pc.RowOf(ids[i], prop);
      if dense == None {
        return NotFound(ids[i]);
      }
      var d := dense.value;
      c.FloatAt(d);
      ghost var vals := ValuesOf(pc.View(), ids[..i], prop);
      NextCoded(pc.View(), ids, prop, i, c.cells[d]);
      match c.rep.floats.Get(d)
      case None =>
        coded, nullCode := InternNull(coded, nullCode, vals, seen, FloatKey, c.cells);
      case Some(f) =>
        coded, seen := Intern(coded, nullCode, seen, f, FloatValue(f), vals, FloatKey, c.cells);
    }
    AllCoded(pc.View(), ids, prop, coded, nullCode, seen, FloatKey, c.cells);
    r := Gathered(coded);
  }

  /** The two-slot table of a boolean column, as the map it stands for. */
  ghost predicate BoolSlots(slots: seq<Option<u32>>, seen: map<bool, u32>) {
    && |slots| == 2
    && (forall b :: b in seen ==> slots[if b then 1 else 0] == Some(seen[b]))
    && (forall b :: b !in seen ==> slots[if b then 1 else 0] == None)
  }

  method GroupBools(pc: PropColumns, c: PropColumn, ids: seq<EntityId>, prop: Text) returns (r: Gathered<Coded>)
    requires pc.Shaped() && prop in pc.cols && pc.cols[prop] == c && c.Valid() && c.rep.Bools?
    requires |c.cells| <= U32_MAX && InjectiveOn(BoolKey, c.cells)
    ensures GroupsOf(r, pc.View(), ids, prop)
  {
    hide PropColumns.Shaped;
    hide PropColumn.Valid;
    hide Coding;
    hide InjectiveOn;
    hide ViewOf;
    var coded: Coded, nullCode: Option<u32>, slots: seq<Option<u32>> := ([], []), None, [None, None];
    ghost var seen: map<bool, u32> := map[];
    NoneCoded(pc.View(), ids, prop, BoolKey, c.cells);
    for i := 0 to |ids|
      invariant CodedUpTo(i, pc.View(), ids, prop, coded, nullCode, seen, BoolKey, c.cells)
      invariant BoolSlots(slots, seen)
    {
      var dense := pc.RowOf(ids[i], prop);
      if dense == None {
        return NotFound(ids[i]);
      }
      var d := dense.value;
      c.BoolAt(d);
      ghost var vals := ValuesOf(pc.View(), ids[..i], prop);
      NextCoded(pc.View(), ids, prop, i, c.cells[d]);
      match c.rep.bools.Get(d)
      case None =>
        coded, nullCode := InternNull(coded, nullCode, vals, seen, BoolKey, c.cells);
      case Some(b) =>
        coded, slots, seen := InternBool(coded, nullCode, slots, b != 0, vals, seen, c.cells);
    }
    AllCoded(pc.View(), ids, prop, coded, nullCode, seen, BoolKey, c.cells);
    r := Gathered(coded);
  }

  method InternBool(
    coded: Coded, nullCode: Option<u32>, slots: seq<Option<u32>>, b: bool,
    ghost vals: seq<Value>, ghost seen: map<bool, u32>, ghost cells: seq<Value>)
    returns (coded': Coded, slots': seq<Option<u32>>, ghost seen': map<bool, u32>)
    requires Coding(vals, coded, nullCode, seen, BoolKey, cells) && InjectiveOn(BoolKey, cells)
    requires Bool(b) in cells && BoolSlots(slots, seen)
    ensures Coding(vals + [Bool(b)], coded', nullCode, seen', BoolKey, cells) && BoolSlots(slots', seen')
  {
    var at := if b then 1 else 0;
    if slots[at].Some? {
      SeenKey(vals, coded, nullCode, seen, BoolKey, cells, Bool(b));
      coded', slots', seen' := (coded.0 + [slots[at].value], coded.1), slots, seen;
    } else {
      NewKey(vals, coded, nullCode, seen, BoolKey, cells, Bool(b));
      var code := |coded.1|;
      coded', slots', seen' := (coded.0 + [code], coded.1 + [Bool(b)]), slots[at := Some(code)], seen[b := code];
    }
  }

  /** One code a dictionary entry, the largest 32-bit number where the entry has none yet. */
  ghost predicate DictSlots(slots: seq<u32>, entries: seq<Text>, seen: map<Text, u32>) {
    && |slots| == |entries|
    && forall i :: 0 <= i < |slots| ==>
      if slots[i] == U32_MAX then entries[i] !in seen else entries[i] in seen && seen[entries[i]] == slots[i]
  }

  method NoSlots(dict: StrDict) returns (slots: seq<u32>)
    requires dict.Shaped()
    ensures DictSlots(slots, dict.View(), map[])
  {
    slots := seq(dict.Len(), _ => U32_MAX);
  }

  /** What a string slot stands for. */
  ghost function SlotValue(dict: StrDict, code: u32): Value
    requires dict.Shaped() && (code == STR_NULL || code < dict.Len())
    reads dict
  {
    if code == STR_NULL then Null else Str(dict.Get(code))
  }

  lemma DictIsShaped(c: PropColumn)
    requires c.Valid() && c.rep.Strs?
    ensures c.rep.dict.Shaped()
  {
  }

  lemma StrSlot(c: PropColumn, d: nat)
    requires c.Valid() && c.rep.Strs? && d < |c.cells|
    ensures c.rep.dict.Shaped() && Distinct(c.rep.dict.View()) && d < |c.rep.idx|
    ensures c.rep.idx[d] == STR_NULL || c.rep.idx[d] < c.rep.dict.Len()
    ensures c.cells[d] == SlotValue(c.rep.dict, c.rep.idx[d])
  {
    c.StrAt(d);
  }

  /** Code one slot of a string column. */
  method InternSlot(
    coded: Coded, nullCode: Option<u32>, slots: seq<u32>, dict: StrDict, code: u32,
    ghost vals: seq<Value>, ghost seen: map<Text, u32>, ghost cells: seq<Value>)
    returns (coded': Coded, nullCode': Option<u32>, slots': seq<u32>, ghost seen': map<Text, u32>)
    requires dict.Shaped() && Distinct(dict.View()) && DictSlots(slots, dict.View(), seen)
    requires code == STR_NULL || code < dict.Len()
    requires Coding(vals, coded, nullCode, seen, StrKey, cells) && InjectiveOn(StrKey, cells)
    requires SlotValue(dict, code) in cells
    ensures Coding(vals + [SlotValue(dict, code)], coded', nullCode', seen', StrKey, cells)
    ensures DictSlots(slots', dict.View(), seen')
  {
    hide Coding;
    hide InjectiveOn;
    hide DictSlots;
    if code == STR_NULL {
      coded', nullCode' := InternNull(coded, nullCode, vals, seen, StrKey, cells);
      slots', seen' := slots, seen;
    } else {
      coded', slots', seen' := InternEntry(coded, nullCode, slots, dict, code, vals, seen, cells);
      nullCode' := nullCode;
    }
  }

  method GroupStrs(pc: PropColumns, c: PropColumn, ids: seq<EntityId>, prop: Text) returns (r: Gathered<Coded>)
    requires pc.Shaped() && prop in pc.cols && pc.cols[prop] == c && c.Valid() && c.rep.Strs?
    requires |c.cells| <= U32_MAX && InjectiveOn(StrKey, c.cells)
    ensures GroupsOf(r, pc.View(), ids, prop)
  {
    hide *;
    var dict := c.rep.dict;
    DictIsShaped(c);
    var slots := NoSlots(dict);
    var coded: Coded, nullCode: Option<u32> := ([], []), None;
    ghost var seen: map<Text, u32> := map[];
    NoneCoded(pc.View(), ids, prop, StrKey, c.cells);
    for i := 0 to |ids|
      invariant CodedUpTo(i, pc.View(), ids, prop, coded, nullCode, seen, StrKey, c.cells)
      invariant dict.Shaped() && DictSlots(slots, dict.View(), seen)
    {
      CodedSoFar(i, pc.View(), ids, prop, coded, nullCode, seen, StrKey, c.cells);
      var dense := pc.RowOf(ids[i], prop);
      if dense == None {
        return NotFound(ids[i]);
      }
      var d := dense.value;
      StrSlot(c, d);
      ghost var vals := ValuesOf(pc.View(), ids[..i], prop);
      coded, nullCode, slots, seen := InternSlot(coded, nullCode, slots, dict, c.rep.idx[d], vals, seen, c.cells);
      CodedOneMore(i, pc.View(), ids, prop, c.cells[d], coded, nullCode, seen, StrKey, c.cells);
    }
    AllCoded(pc.View(), ids, prop, coded, nullCode, seen, StrKey, c.cells);
    r := Gathered(coded);
  }

  method InternEntry(
    coded: Coded, nullCode: Option<u32>, slots: seq<u32>, dict: StrDict, entry: u32,
    ghost vals: seq<Value>, ghost seen: map<Text, u32>, ghost cells: seq<Value>)
    returns (coded': Coded, slots': seq<u32>, ghost seen': map<Text, u32>)
    requires dict.Shaped() && Distinct(dict.View()) && entry < dict.Len() && DictSlots(slots, dict.View(), seen)
    requires Coding(vals, coded, nullCode, seen, StrKey, cells) && InjectiveOn(StrKey, cells)
    requires Str(dict.Get(entry)) in cells
    ensures Coding(vals + [Str(dict.Get(entry))], coded', nullCode, seen', StrKey, cells)
    ensures DictSlots(slots', dict.View(), seen')
  {
    var s := dict.Get(entry);
    if slots[entry] == U32_MAX {
      NewKey(vals, coded, nullCode, seen, StrKey, cells, Str(s));
      var code := |coded.1|;
      coded', slots', seen' := (coded.0 + [code], coded.1 + [Str(s)]), slots[entry := code], seen[s := code];
    } else {
      SeenKey(vals, coded, nullCode, seen, StrKey, cells, Str(s));
      coded', slots', seen' := (coded.0 + [slots[entry]], coded.1), slots, seen;
    }
  }

  /** Mixed kinds are keyed by their serialization, which tells the column's values apart. */
  method GroupJsons(pc: PropColumns, c: PropColumn, ids: seq<EntityId>, prop: Text, serialize: Value -> Text)
    returns (r: Gathered<Coded>)
    requires pc.Shaped() && prop in pc.cols && pc.cols[prop] == c && c.Valid() && c.rep.Jsons?
    requires |c.cells| <= U32_MAX && InjectiveOn(serialize, c.cells)
    ensures GroupsOf(r, pc.View(), ids, prop)
  {
    hide PropColumns.Shaped;
    hide PropColumn.Valid;
    hide Coding;
    hide InjectiveOn;
    hide ViewOf;
    var coded: Coded, nullCode: Option<u32>, seen: map<Text, u32> := ([], []), None, map[];
    NoneCoded(pc.View(), ids, prop, serialize, c.cells);
    for i := 0 to |ids|
      invariant CodedUpTo(i, pc.View(), ids, prop, coded, nullCode, seen, serialize, c.cells)
    {
      var dense := pc.RowOf(ids[i], prop);
      if dense == None {
        return NotFound(ids[i]);
      }
      var d := dense.value;
      var slot := c.GetJsonOpt(d);
      ghost var vals := ValuesOf(pc.View(), ids[..i], prop);
      NextCoded(pc.View(), ids, prop, i, c.cells[d]);
      match slot
      case None =>
        coded, nullCode := InternNull(coded, nullCode, vals, seen, serialize, c.cells);
      case Some(v) =>
        coded, seen := Intern(coded, nullCode, seen, serialize(v), v, vals, serialize, c.cells);
    }
    AllCoded(pc.View(), ids, prop, coded, nullCode, seen, serialize, c.cells);
    r := Gathered(coded);
  }

  /** Without a column, every entity that exists is in the one null group. */
  method GroupNothing(pc: PropColumns, ids: seq<EntityId>, prop: Text) returns (r: Gathered<Coded>)
    requires pc.Shaped() && prop !in pc.cols
    ensures GroupsOf(r, pc.View(), ids, prop)
  {
    hide Hold;
    hide ViewOf;
    for i := 0 to |ids|
      invariant forall j :: 0 <= j < i ==> ids[j] in pc.View() && PropOf(pc.View(), ids[j], prop) == Null
    {
      var dense := pc.index.Get(ids[i]);
      if dense == None {
        NotFoundRow(pc.AsTable(), pc.index.rep, ids[i]);
        return NotFound(ids[i]);
      }
      FoundRow(pc.AsTable(), pc.index.rep, ids[i], dense.value, prop);
      assert prop !in pc.columns by { pc.ColumnNames(); }
    }
    OneGroup(ValuesOf(pc.View(), ids, prop));
    r := Gathered((seq(|ids|, _ => 0), if ids == [] then [] else [Null]));
  }

  lemma OneGroup(vals: seq<Value>)
    requires forall i :: 0 <= i < |vals| ==> vals[i] == Null
    ensures Grouped(vals, seq(|vals|, _ => 0), if vals == [] then [] else [Null])
  {
    AllNullFirsts(vals);
  }

  lemma {:induction false} AllNullFirsts(vals: seq<Value>)
    requires forall i :: 0 <= i < |vals| ==> vals[i] == Null
    ensures Firsts(vals) == if vals == [] then [] else [Null]
  {
    if vals != [] {
      AllNullFirsts(vals[..|vals| - 1]);
    }
  }

  /** One dense code an entity under exact identity of `prop`, and one representative value a code. */
  method GroupCodes(pc: PropColumns, ids: seq<EntityId>, prop: Text, serialize: Value -> Text)
    returns (r: Gathered<Coded>)
    requires pc.Shaped() && (prop in pc.cols ==> InjectiveOn(serialize, pc.cols[prop].cells))
    ensures GroupsOf(r, pc.View(), ids, prop)
  {
    if prop !in pc.cols {
      r := GroupNothing(pc, ids, prop);
    } else {
      var c := pc.cols[prop];
      HoldOwns(pc.cols, pc.owned, pc.columns, pc.counts, prop);
      TypedKeysInjective(c.cells);
      if !c.rep.Jsons? {
        TypedColumnKind(c);
      }
      hide PropColumns.Shaped;
      hide PropColumn.Valid;
      hide InjectiveOn;
      hide GroupsOf;
      match c.rep
      case Ints(_) => r := GroupInts(pc, c, ids, prop);
      case Floats(_) => r := GroupFloats(pc, c, ids, prop);
      case Bools(_) => r := GroupBools(pc, c, ids, prop);
      case Strs(_, _) => r := GroupStrs(pc, c, ids, prop);
      case Jsons(_) => r := GroupJsons(pc, c, ids, prop, serialize);
    }
  }

  // ---------------------------------------------------------------- whichever columns answer

  /** Any two column sets that agree on the requested values group them alike, whatever kinds their
    * columns have.
    */
  lemma SameValuesSameGroups(
    r: Gathered<Coded>, r': Gathered<Coded>, view: View, view': View, ids: seq<EntityId>, prop: Text)
    requires GroupsOf(r, view, ids, prop) && GroupsOf(r', view', ids, prop)
    requires forall i :: 0 <= i < |ids| ==> ids[i] in view && ids[i] in view'
    requires forall i :: 0 <= i < |ids| ==> PropOf(view, ids[i], prop) == PropOf(view', ids[i], prop)
    ensures r == r' && r.Gathered?
  {
    assert ValuesOf(view, ids, prop) == ValuesOf(view', ids, prop);
    GroupingIsUnique(ValuesOf(view, ids, prop), r.out.0, r.out.1, r'.out.0, r'.out.1);
  }

  lemma ItemRow(items: seq<Item>, only: Option<Text>, id: EntityId, prop: Text, json: Value)
    requires OneRecordEach(items) && (id, json) in items && (only == None || only == Some(prop))
    ensures id in ViewOf(TableOfItems(items, only))
    ensures PropOf(ViewOf(TableOfItems(items, only)), id, prop)
      == (if prop in Clean(json) then Clean(json)[prop] else Null)
  {
    var t := TableOfItems(items, only);
    var i :| 0 <= i < |items| && items[i] == (id, json);
    assert t.ids[i] == id;
    var d := PositionOf(t.ids, id);
    assert items[d].0 == id && items[d].1 == json;
    if prop in t.columns {
      assert t.columns[prop][d] == MemberOf(json, only, prop);
    } else if prop in Wanted(json, only) {
      assert false;
    }
  }

  /** A column set over just the requested entities, of just the one property, groups them as the
    * whole-graph column set does: the narrower population may infer another column kind, and the codes
    * and representatives are the same.
    */
  lemma SubsetGroupsAlike(
    all: seq<Item>, some: seq<Item>, store: Snapshot, ids: seq<EntityId>, prop: Text,
    r: Gathered<Coded>, r': Gathered<Coded>)
    requires ScanOf(all, store)
    requires forall item :: item in some ==> item.0 in store && store[item.0] == item.1
    requires forall id :: id in ids ==> id in store && (id, store[id]) in some
    requires GroupsOf(r, ViewOf(TableOfItems(all, None)), ids, prop)
    requires GroupsOf(r', ViewOf(TableOfItems(some, Some(prop))), ids, prop)
    ensures r == r' && r.Gathered?
  {
    forall i | 0 <= i < |ids|
      ensures ids[i] in ViewOf(TableOfItems(all, None)) && ids[i] in ViewOf(TableOfItems(some, Some(prop)))
      ensures PropOf(ViewOf(TableOfItems(all, None)), ids[i], prop)
        == PropOf(ViewOf(TableOfItems(some, Some(prop))), ids[i], prop)
    {
      var id := ids[i];
      var d := PositionOf(IdsOf(all), id);
      assert all[d].0 == id && all[d] == (id, store[id]);
      ItemRow(all, None, id, prop, store[id]);
      ItemRow(some, Some(prop), id, prop, store[id]);
    }
    SameValuesSameGroups(
      r, r', ViewOf(TableOfItems(all, None)), ViewOf(TableOfItems(some, Some(prop))), ids, prop);
  }
}
