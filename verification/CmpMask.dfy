/** Evaluating a comparison over typed columns, against the boxed comparison it stands in for. */
module CmpMask {
  import opened Json
  import opened ColumnParts
  import opened Column
  import opened Tables
  import opened ColumnSets
  import opened PropertyColumns
  import opened Stats

  datatype PropCmp = Eq | Ne | Lt | Le | Gt | Ge

  predicate Keeps(op: PropCmp, o: Ordering) {
    match op
    case Eq => o == Equal
    case Ne => o != Equal
    case Lt => o == Less
    case Le => o != Greater
    case Gt => o == Greater
    case Ge => o != Less
  }

  /** Whether a filter keeps a row on `v <op> rhs`: never on a null operand, and on an incomparable pair
    * only for inequality.
    */
  predicate Kept(op: PropCmp, v: Value, rhs: Value) {
    v != Null && rhs != Null &&
    match CompareValues(v, rhs)
    case Some(o) => Keeps(op, o)
    case None => op == Ne
  }

  /** On integers a filter keeps exactly what the operator says of them. */
  lemma KeptOnIntegers(i: i64, j: i64)
    ensures var a, b := Num(Int(i)), Num(Int(j));
      && (Kept(Lt, a, b) <==> i < j) && (Kept(Le, a, b) <==> i <= j)
      && (Kept(Gt, a, b) <==> i > j) && (Kept(Ge, a, b) <==> i >= j)
      && (Kept(Eq, a, b) <==> i == j) && (Kept(Ne, a, b) <==> i != j)
  {
  }

  /** On a comparable pair the six operators are one order: everything is said by less and equal. */
  lemma KeptOnComparable(a: Value, b: Value)
    requires CompareValues(a, b).Some?
    ensures Kept(Lt, a, b) <==> CompareValues(a, b) == Some(Less)
    ensures Kept(Eq, a, b) <==> CompareValues(a, b) == Some(Equal)
    ensures Kept(Le, a, b) <==> Kept(Lt, a, b) || Kept(Eq, a, b)
    ensures Kept(Ne, a, b) <==> !Kept(Eq, a, b)
    ensures (Kept(Gt, a, b) <==> Kept(Lt, b, a)) && (Kept(Ge, a, b) <==> Kept(Le, b, a))
    ensures Kept(Gt, a, b) <==> !Kept(Le, a, b)
  {
    CompareFlip(a, b);
  }

  /** A null operand fails every operator, an incomparable pair every one but inequality. */
  lemma KeptOtherwise(op: PropCmp, a: Value, b: Value)
    requires CompareValues(a, b) == None
    ensures a == Null || b == Null ==> !Kept(op, a, b)
    ensures a != Null && b != Null ==> (Kept(op, a, b) <==> op == Ne)
  {
  }

  // ---------------------------------------------------------------- the test each column kind makes

  /** The row test chosen once for a column, an operator and a constant. */
  datatype RowTest =
    | IntNative(i: i64)         // an integer column against an integer
    | IntAsReal(r: real)        // an integer column against another number, both as doubles
    | FloatAsReal(r: real)      // a floating-point column against a number
    | BoolNative(b: bool)
    | InPass(pass: seq<bool>)   // a string column: one flag a dictionary entry
    | IfPresent(keeps: bool)    // a constant of another kind

  /** The test reads this column's representation. */
  ghost predicate Fits(c: PropColumn, test: RowTest)
    requires c.Valid()
    reads c, c.Repr
  {
    match test
    case IntNative(_) => c.rep.Ints?
    case IntAsReal(_) => c.rep.Ints?
    case FloatAsReal(_) => c.rep.Floats?
    case BoolNative(_) => c.rep.Bools?
    case InPass(pass) => c.rep.Strs? && |pass| == c.rep.dict.Len()
    case IfPresent(_) => !c.rep.Jsons?
  }

  /** The test was chosen for this constant. */
  ghost predicate ChosenFor(c: PropColumn, test: RowTest, op: PropCmp, rhs: Value)
    requires c.Valid()
    reads c, c.Repr
  {
    Fits(c, test) &&
    match test
    case IntNative(i) => rhs.Num? && AsI64(rhs.n) == Some(i)
    case IntAsReal(r) => rhs.Num? && AsI64(rhs.n) == None && r == AsF64(rhs.n)
    case FloatAsReal(r) => rhs.Num? && r == AsF64(rhs.n)
    case BoolNative(b) => rhs == Bool(b)
    case InPass(pass) => rhs.Str? && Passes(pass, c.rep.dict.View(), op, rhs.s)
    case IfPresent(keeps) =>
      && keeps == (rhs != Null && op == Ne)
      && (c.rep.Ints? || c.rep.Floats? ==> !rhs.Num?)
      && (c.rep.Bools? ==> !rhs.Bool?) && (c.rep.Strs? ==> !rhs.Str?)
  }

  /** One flag a dictionary entry: whether a row holding it is kept. */
  ghost predicate Passes(pass: seq<bool>, entries: seq<Text>, op: PropCmp, s: Text) {
    |pass| == |entries| && forall i :: 0 <= i < |pass| ==> pass[i] == Keeps(op, CmpText(entries[i], s))
  }

  predicate RowPasses(c: PropColumn, test: RowTest, op: PropCmp, d: nat)
    requires c.Valid() && Fits(c, test) && d < c.Len()
    reads c, c.Repr
  {
    match test
    case IntNative(i) => (match c.rep.ints.Get(d) case Some(x) => Keeps(op, CmpInt(x, i)) case None => false)
    case IntAsReal(r) =>
      (match c.rep.ints.Get(d) case Some(x) => Keeps(op, CmpReal(AsF64(Int(x)), r)) case None => false)
    case FloatAsReal(r) =>
      (match c.rep.floats.Get(d) case Some(x) => Keeps(op, CmpReal(RealOf(x), r)) case None => false)
    case BoolNative(b) => (match c.rep.bools.Get(d) case Some(x) => Keeps(op, CmpBool(x != 0, b)) case None => false)
    case InPass(pass) => c.rep.idx[d] != STR_NULL && pass[c.rep.idx[d]]
    case IfPresent(keeps) => keeps && c.IsPresent(d)
  }

  /** The test on a slot decides exactly what the boxed comparison does on its value. */
  lemma RowPassesIffKept(c: PropColumn, test: RowTest, op: PropCmp, rhs: Value, d: nat)
    requires c.Valid() && ChosenFor(c, test, op, rhs) && d < |c.cells|
    ensures RowPasses(c, test, op, d) <==> Kept(op, c.cells[d], rhs)
  {
    hide PropColumn.Valid;
    hide ChosenFor;
    hide RowPasses;
    hide Kept;
    match test
    case InPass(_) => StringRow(c, test, op, rhs, d);
    case IfPresent(_) => OtherRow(c, test, op, rhs, d);
    case _ => TypedRow(c, test, op, rhs, d);
  }

  lemma TypedRow(c: PropColumn, test: RowTest, op: PropCmp, rhs: Value, d: nat)
    requires c.Valid() && ChosenFor(c, test, op, rhs) && d < |c.cells| && !test.InPass? && !test.IfPresent?
    ensures RowPasses(c, test, op, d) <==> Kept(op, c.cells[d], rhs)
  {
    hide PropColumn.Valid;
    hide RealOf;
    hide RoundInt;
    match test
    case IntNative(_) => c.IntAt(d);
    case IntAsReal(_) => c.IntAt(d);
    case FloatAsReal(_) => c.FloatAt(d);
    case BoolNative(_) => c.BoolAt(d);
  }

  lemma StringRow(c: PropColumn, test: RowTest, op: PropCmp, rhs: Value, d: nat)
    requires c.Valid() && ChosenFor(c, test, op, rhs) && d < |c.cells| && test.InPass?
    ensures RowPasses(c, test, op, d) <==> Kept(op, c.cells[d], rhs)
  {
    hide PropColumn.Valid;
    hide CmpText;
    c.StrAt(d);
  }

  lemma OtherRow(c: PropColumn, test: RowTest, op: PropCmp, rhs: Value, d: nat)
    requires c.Valid() && ChosenFor(c, test, op, rhs) && d < |c.cells| && test.IfPresent?
    ensures RowPasses(c, test, op, d) <==> Kept(op, c.cells[d], rhs)
  {
    hide PropColumn.Valid;
    if c.cells[d] != Null {
      OtherKind(c, rhs, d);
    }
  }

  lemma OtherKind(c: PropColumn, rhs: Value, d: nat)
    requires c.Valid() && !c.rep.Jsons? && d < |c.cells| && c.cells[d] != Null
    requires (c.rep.Ints? || c.rep.Floats? ==> !rhs.Num?)
    requires (c.rep.Bools? ==> !rhs.Bool?) && (c.rep.Strs? ==> !rhs.Str?)
    ensures CompareValues(c.cells[d], rhs) == None
  {
    TypedColumnKind(c);
    assert KindOf(c.cells[d]) == KindOfRep(c.rep);
  }

  // ---------------------------------------------------------------- choosing it

  /** Compare each dictionary entry once. */
  method PassOf(dict: StrDict, op: PropCmp, s: Text) returns (pass: seq<bool>)
    requires dict.Shaped()
    ensures Passes(pass, dict.View(), op, s)
  {
    pass := [];
    for i := 0 to dict.Len()
      invariant |pass| == i
      invariant forall j :: 0 <= j < i ==> pass[j] == Keeps(op, CmpText(dict.View()[j], s))
    {
      pass := pass + [Keeps(op, CmpText(dict.Get(i), s))];
    }
  }

  method Choose(c: PropColumn, op: PropCmp, rhs: Value) returns (test: RowTest)
    requires c.Valid() && !c.rep.Jsons?
    ensures ChosenFor(c, test, op, rhs)
  {
    var mismatchKeeps := rhs != Null && op == Ne;
    match c.rep
    case Ints(_) =>
      if rhs.Num? {
        var i := AsI64(rhs.n);
        test := if i.Some? then IntNative(i.value) else IntAsReal(AsF64(rhs.n));
      } else {
        test := IfPresent(mismatchKeeps);
      }
    case Floats(_) =>
      test := if rhs.Num? then FloatAsReal(AsF64(rhs.n)) else IfPresent(mismatchKeeps);
    case Bools(_) =>
      test := if rhs.Bool? then BoolNative(rhs.b) else IfPresent(mismatchKeeps);
    case Strs(dict, _) =>
      if rhs.Str? {
        var pass := PassOf(dict, op, rhs.s);
        test := InPass(pass);
      } else {
        test := IfPresent(mismatchKeeps);
      }
  }

  // ---------------------------------------------------------------- the mask

  /** One keep flag an entity, or the first entity that does not exist. */
  ghost predicate MaskOf(r: Gathered<seq<bool>>, view: View, ids: seq<EntityId>, prop: Text, op: PropCmp, rhs: Value) {
    match r
    case NotFound(id) => FirstMissing(ids, view, id)
    case Gathered(mask) => |mask| == |ids| && MaskedUpTo(mask, view, ids, prop, op, rhs)
  }

  ghost predicate MaskedUpTo(mask: seq<bool>, view: View, ids: seq<EntityId>, prop: Text, op: PropCmp, rhs: Value) {
    |mask| <= |ids| && forall i :: 0 <= i < |mask| ==>
      ids[i] in view && mask[i] == Kept(op, PropOf(view, ids[i], prop), rhs)
  }

  lemma MissingAfter(mask: seq<bool>, view: View, ids: seq<EntityId>, prop: Text, op: PropCmp, rhs: Value)
    requires MaskedUpTo(mask, view, ids, prop, op, rhs) && |mask| < |ids| && ids[|mask|] !in view
    ensures MaskOf(NotFound(ids[|mask|]), view, ids, prop, op, rhs)
  {
  }

  lemma OneMoreMasked(
    mask: seq<bool>, on: bool, view: View, ids: seq<EntityId>, prop: Text, op: PropCmp, rhs: Value, v: Value)
    requires MaskedUpTo(mask, view, ids, prop, op, rhs) && |mask| < |ids| && ids[|mask|] in view
    requires v == PropOf(view, ids[|mask|], prop) && on == Kept(op, v, rhs)
    ensures MaskedUpTo(mask + [on], view, ids, prop, op, rhs)
  {
  }

  method MaskRows(
    pc: PropColumns, c: PropColumn, ids: seq<EntityId>, prop: Text, op: PropCmp, test: RowTest, ghost rhs: Value)
    returns (r: Gathered<seq<bool>>)
    requires pc.Shaped() && prop in pc.cols && pc.cols[prop] == c && c.Valid() && ChosenFor(c, test, op, rhs)
    ensures MaskOf(r, pc.View(), ids, prop, op, rhs)
  {
    hide *;
    var mask := [];
    assert MaskedUpTo(mask, pc.View(), ids, prop, op, rhs) by { NothingMasked(pc.View(), ids, prop, op, rhs); }
    for i := 0 to |ids|
      invariant |mask| == i && MaskedUpTo(mask, pc.View(), ids, prop, op, rhs)
    {
      var dense := pc.RowOf(ids[i], prop);
      if dense == None {
        MissingAfter(mask, pc.View(), ids, prop, op, rhs);
        return NotFound(ids[i]);
      }
      FitsWhatItWasChosenFor(c, test, op, rhs);
      RowPassesIffKept(c, test, op, rhs, dense.value);
      var on := RowPasses(c, test, op, dense.value);
      OneMoreMasked(mask, on, pc.View(), ids, prop, op, rhs, c.cells[dense.value]);
      mask := mask + [on];
    }
    AllMasked(mask, pc.View(), ids, prop, op, rhs);
    r := Gathered(mask);
  }

  lemma NothingMasked(view: View, ids: seq<EntityId>, prop: Text, op: PropCmp, rhs: Value)
    ensures MaskedUpTo([], view, ids, prop, op, rhs)
  {
  }

  lemma AllMasked(mask: seq<bool>, view: View, ids: seq<EntityId>, prop: Text, op: PropCmp, rhs: Value)
    requires MaskedUpTo(mask, view, ids, prop, op, rhs) && |mask| == |ids|
    ensures MaskOf(Gathered(mask), view, ids, prop, op, rhs)
  {
  }

  lemma FitsWhatItWasChosenFor(c: PropColumn, test: RowTest, op: PropCmp, rhs: Value)
    requires c.Valid() && ChosenFor(c, test, op, rhs)
    ensures Fits(c, test)
  {
  }

  /** Without a column every value is null, and null fails every operator. */
  method MaskNothing(pc: PropColumns, ids: seq<EntityId>, prop: Text, op: PropCmp, ghost rhs: Value)
    returns (r: Gathered<seq<bool>>)
    requires pc.Shaped() && prop !in pc.cols
    ensures MaskOf(r, pc.View(), ids, prop, op, rhs)
  {
    hide Hold;
    hide ViewOf;
    for i := 0 to |ids|
      invariant forall j :: 0 <= j < i ==> ids[j] in pc.View() && PropOf(pc.View(), ids[j], prop) == Null
    {
      var dense := pc.index.Get(ids[i]);
      if dense == None {
        NotFoundRow(pc.AsTable(), pc.index.rep, ids[i]);
        return NotFound(ids[i]);
      }
      FoundRow(pc.AsTable(), pc.index.rep, ids[i], dense.value, prop);
      assert prop !in pc.columns by { pc.ColumnNames(); }
    }
    r := Gathered(seq(|ids|, _ => false));
  }

  /** The whole evaluation; `None` declines, for the column that keeps boxed values and no other. */
  method Mask(pc: PropColumns, ids: seq<EntityId>, prop: Text, op: PropCmp, rhs: Value)
    returns (r: Option<Gathered<seq<bool>>>)
    requires pc.Shaped()
    ensures r == None <==> prop in pc.cols && pc.cols[prop].rep.Jsons?
    ensures r.Some? ==> MaskOf(r.value, pc.View(), ids, prop, op, rhs)
  {
    hide MaskOf;
    hide PropColumn.Valid;
    if prop !in pc.cols {
      var m := MaskNothing(pc, ids, prop, op, rhs);
      return Some(m);
    }
    var c := pc.cols[prop];
    HoldOwns(pc.cols, pc.owned, pc.columns, pc.counts, prop);
    if c.rep.Jsons? {
      return None;
    }
    hide ChosenFor;
    hide PropColumns.Shaped;
    var test := Choose(c, op, rhs);
    var m := MaskRows(pc, c, ids, prop, op, test, rhs);
    r := Some(m);
  }
}
