/** Distribution statistics over one typed column: its bounds, its histogram and its most common values. */
module Stats {
  import opened Json
  import opened Column
  import opened Histograms

  const MCV_LIMIT: nat := 8
  const HISTOGRAM_BUCKETS: nat := 10

  datatype PropStats = PropStats(histogram: Histogram, mcvs: seq<(Value, nat)>)

  // ---------------------------------------------------------------- the values of a column

  function NonNull(cells: seq<Value>): (vals: seq<Value>)
    ensures forall i :: 0 <= i < |vals| ==> vals[i] != Null && vals[i] in cells
  {
    if cells == [] then []
    else NonNull(cells[..|cells| - 1]) + if cells[|cells| - 1] == Null then [] else [cells[|cells| - 1]]
  }

  lemma {:induction false} NonNullComplete(cells: seq<Value>, v: Value)
    requires v in cells && v != Null
    ensures v in NonNull(cells)
  {
    if cells[|cells| - 1] != v {
      NonNullComplete(cells[..|cells| - 1], v);
    }
  }

  /** Values of one kind that a typed column holds. */
  ghost predicate OneKind(vals: seq<Value>) {
    && (forall i, j :: 0 <= i < j < |vals| ==> KindOf(vals[i]) == KindOf(vals[j]))
    && (forall i :: 0 <= i < |vals| ==> Typed(KindOf(vals[i])))
  }

  lemma TypedColumnKind(c: PropColumn)
    requires c.Valid() && !c.rep.Jsons?
    ensures AllOfKind(c.cells, KindOfRep(c.rep))
  {
  }

  lemma TypedColumnHasOneKind(c: PropColumn)
    requires c.Valid() && !c.rep.Jsons?
    ensures OneKind(NonNull(c.cells))
  {
    TypedColumnKind(c);
    KindOfNonNull(c.cells, KindOfRep(c.rep));
  }

  lemma KindOfNonNull(cells: seq<Value>, kind: Kind)
    requires AllOfKind(cells, kind) && Typed(kind)
    ensures OneKind(NonNull(cells))
  {
    forall i | 0 <= i < |NonNull(cells)|
      ensures KindOf(NonNull(cells)[i]) == kind
    {
      assert NonNull(cells)[i] in cells;
    }
  }

  method NonNullValues(c: PropColumn) returns (vals: seq<Value>)
    requires c.Valid()
    ensures vals == NonNull(c.cells)
  {
    ghost var cells := c.cells;
    vals := [];
    var n, d := c.Len(), 0;
    while d < n
      invariant 0 <= d <= n == |cells|
      invariant vals == NonNull(cells[..d])
    {
      var v := c.GetJsonOpt(d);
      NonNullStep(cells, d);
      if v.Some? {
        vals := vals + [v.value];
      }
      d := d + 1;
    }
    assert cells[..d] == cells;
  }

  // ---------------------------------------------------------------- sorting

  lemma AppendAscending(s: seq<Value>, v: Value)
    requires Ascending(s) && Typed(KindOf(v))
    requires s != [] ==> KindOf(s[|s| - 1]) == KindOf(v) && LessOrEqual(s[|s| - 1], v)
    ensures Ascending(s + [v])
  {
    forall i | 0 <= i < |s|
      ensures KindOf(s[i]) == KindOf(v) && LessOrEqual(s[i], v)
    {
      Reflexive(s[i]);
      assert LessOrEqual(s[i], s[|s| - 1]);
      BoundTransitive(s[i], s[|s| - 1], v);
    }
  }

  /** Put `v` into an ascending sequence, after the values it is level with. */
  method Insert(s: seq<Value>, v: Value) returns (r: seq<Value>)
    requires Ascending(s) && Typed(KindOf(v)) && forall i :: 0 <= i < |s| ==> KindOf(s[i]) == KindOf(v)
    ensures Ascending(r) && multiset(r) == multiset(s) + multiset{v}
    decreases |s|
  {
    if s == [] || LessOrEqual(s[|s| - 1], v) {
      AppendAscending(s, v);
      r := s + [v];
    } else {
      var last, init := s[|s| - 1], s[..|s| - 1];
      assert s == init + [last];
      AscendingParts(init, [last]);
      KindIsOrdered(last, v);
      var r0 := Insert(init, v);
      forall i | 0 <= i < |r0|
        ensures KindOf(r0[i]) == KindOf(last) && LessOrEqual(r0[i], last)
      {
        assert r0[i] in multiset(r0);
        if r0[i] != v {
          assert r0[i] in init;
        }
      }
      AppendAscending(r0, last);
      r := r0 + [last];
    }
  }

  /** Some ascending arrangement of the values: which of several level ones comes first is not promised. */
  method Sort(vals: seq<Value>) returns (s: seq<Value>)
    requires OneKind(vals)
    ensures Ascending(s) && multiset(s) == multiset(vals)
  {
    s := [];
    var i := 0;
    while i < |vals|
      invariant 0 <= i <= |vals|
      invariant Ascending(s) && multiset(s) == multiset(vals[..i])
    {
      forall j | 0 <= j < |s|
        ensures KindOf(s[j]) == KindOf(vals[i])
      {
        assert s[j] in multiset(s);
        assert s[j] in vals[..i];
      }
      s := Insert(s, vals[i]);
      assert vals[..i + 1] == vals[..i] + [vals[i]];
      i := i + 1;
    }
    assert vals[..i] == vals;
  }

  // ---------------------------------------------------------------- bounds in one pass

  /** One step of the fold: a value replaces a bound it is strictly outside of. */
  function Tightened(acc: Option<(Value, Value)>, v: Value): Option<(Value, Value)> {
    match acc
    case None => Some((v, v))
    case Some((lo, hi)) =>
      Some((if CompareValues(v, lo) == Some(Less) then v else lo,
            if CompareValues(v, hi) == Some(Greater) then v else hi))
  }

  function Bounds(vals: seq<Value>): Option<(Value, Value)> {
    if vals == [] then None else Tightened(Bounds(vals[..|vals| - 1]), vals[|vals| - 1])
  }

  ghost predicate AreBounds(vals: seq<Value>, lo: Value, hi: Value) {
    lo in vals && hi in vals && forall v :: v in vals ==> LessOrEqual(lo, v) && LessOrEqual(v, hi)
  }

  lemma {:induction false} BoundsAreBounds(vals: seq<Value>)
    requires OneKind(vals)
    ensures vals == [] <==> Bounds(vals) == None
    ensures vals != [] ==> AreBounds(vals, Bounds(vals).value.0, Bounds(vals).value.1)
  {
    if vals != [] {
      var init, v := vals[..|vals| - 1], vals[|vals| - 1];
      BoundsAreBounds(init);
      Reflexive(v);
      if init != [] {
        var (lo, hi) := Bounds(init).value;
        BoundsStep(init, v, lo, hi);
      }
    }
  }

  lemma BoundsStep(init: seq<Value>, v: Value, lo: Value, hi: Value)
    requires OneKind(init + [v]) && AreBounds(init, lo, hi)
    ensures AreBounds(init + [v],
      if CompareValues(v, lo) == Some(Less) then v else lo, if CompareValues(v, hi) == Some(Greater) then v else hi)
  {
    var all := init + [v];
    forall w | w in all
      ensures KindOf(w) == KindOf(v) && Typed(KindOf(w))
    {
      var i :| 0 <= i < |all| && all[i] == w;
      assert all[|init|] == v;
    }
    assert forall w :: w in init ==> w in all;
    KindIsOrdered(v, lo);
    KindIsOrdered(v, hi);
    CompareFlip(v, lo);
    CompareFlip(v, hi);
    Reflexive(v);
    forall w | w in init
      ensures CompareValues(v, lo) == Some(Less) ==> LessOrEqual(v, w)
      ensures CompareValues(v, hi) == Some(Greater) ==> LessOrEqual(w, v)
    {
      BoundTransitive(v, lo, w);
      if CompareValues(v, hi) == Some(Greater) {
        BoundTransitive(w, hi, v);
      }
    }
  }

  /** The one-pass bounds are level with the first and the last of the sorted values. */
  lemma BoundsAreEnds(vals: seq<Value>, sorted: seq<Value>)
    requires OneKind(vals) && Ascending(sorted) && multiset(sorted) == multiset(vals) && vals != []
    ensures sorted != []
    ensures var b := Bounds(vals).value;
      SameValue(b.0, sorted[0]) && SameValue(b.1, sorted[|sorted| - 1])
  {
    BoundsAreBounds(vals);
    hide Bounds;
    var (lo, hi) := Bounds(vals).value;
    assert forall v :: v in vals ==> LessOrEqual(lo, v) && LessOrEqual(v, hi);
    assert lo in multiset(vals) && hi in multiset(vals);
    assert lo in sorted && hi in sorted;
    var first, last := sorted[0], sorted[|sorted| - 1];
    assert first in multiset(sorted) && last in multiset(sorted);
    var i :| 0 <= i < |sorted| && sorted[i] == lo;
    var j :| 0 <= j < |sorted| && sorted[j] == hi;
    Reflexive(lo);
    Reflexive(hi);
    hide SameValue;
    hide LessOrEqual;
    hide AreBounds;
    assert LessOrEqual(first, lo) && LessOrEqual(hi, last);
    Level(lo, first);
    Level(hi, last);
  }

  lemma Level(a: Value, b: Value)
    requires KindOf(a) == KindOf(b) && Typed(KindOf(a)) && LessOrEqual(a, b) && LessOrEqual(b, a)
    ensures SameValue(a, b)
  {
    CompareFlip(a, b);
    KindIsOrdered(a, b);
  }

  /** `column_bounds`: nothing for the fallback column or a column without values. */
  ghost function BoundsOf(c: PropColumn): Option<(Value, Value)>
    requires c.Valid()
    reads c, c.Repr
  {
    if c.rep.Jsons? then None else Bounds(NonNull(c.cells))
  }

  method FoldBounds(vals: seq<Value>) returns (r: Option<(Value, Value)>)
    ensures r == Bounds(vals)
  {
    r := None;
    var i := 0;
    while i < |vals|
      invariant 0 <= i <= |vals|
      invariant r == Bounds(vals[..i])
    {
      r := Tightened(r, vals[i]);
      assert vals[..i + 1][..i] == vals[..i];
      i := i + 1;
    }
    assert vals[..i] == vals;
  }

  /** The non-null values of a typed column, nothing for the fallback column. */
  method TypedValues(c: PropColumn) returns (vals: Option<seq<Value>>)
    requires c.Valid()
    ensures vals == if c.rep.Jsons? then None else Some(NonNull(c.cells))
    ensures vals.Some? ==> OneKind(vals.value)
  {
    if c.rep.Jsons? {
      vals := None;
    } else {
      TypedColumnHasOneKind(c);
      var vs := NonNullValues(c);
      vals := Some(vs);
    }
  }

  /** What a scan that prunes by the bounds relies on: both occur and no value lies outside of them. */
  ghost predicate BoundCells(cells: seq<Value>, r: Option<(Value, Value)>) {
    match r
    case None => forall d :: 0 <= d < |cells| ==> cells[d] == Null
    case Some((lo, hi)) =>
      && lo in cells && hi in cells && lo != Null && hi != Null
      && forall d :: 0 <= d < |cells| && cells[d] != Null ==> LessOrEqual(lo, cells[d]) && LessOrEqual(cells[d], hi)
  }

  lemma BoundsOfCells(c: PropColumn)
    requires c.Valid() && !c.rep.Jsons?
    ensures BoundCells(c.cells, BoundsOf(c))
  {
    TypedColumnHasOneKind(c);
    assert BoundsOf(c) == Bounds(NonNull(c.cells));
    hide *;
    BoundsOfNonNull(c.cells);
  }

  lemma BoundsOfNonNull(cells: seq<Value>)
    requires OneKind(NonNull(cells))
    ensures BoundCells(cells, Bounds(NonNull(cells)))
  {
    var vals := NonNull(cells);
    BoundsAreBounds(vals);
    hide OneKind;
    hide Bounds;
    hide LessOrEqual;
    forall d | 0 <= d < |cells| && cells[d] != Null
      ensures cells[d] in vals
    {
      NonNullComplete(cells, cells[d]);
    }
    hide NonNull;
  }

  method ColumnBounds(c: PropColumn) returns (r: Option<(Value, Value)>)
    requires c.Valid()
    ensures r == BoundsOf(c)
    ensures if c.rep.Jsons? then r == None else BoundCells(c.cells, r)
  {
    var vals := TypedValues(c);
    r := None;
    if vals.Some? {
      r := FoldBounds(vals.value);
      BoundsOfCells(c);
    }
  }

  lemma NonNullStep(cells: seq<Value>, d: nat)
    requires d < |cells|
    ensures NonNull(cells[..d + 1]) ==
      if cells[d] == Null then NonNull(cells[..d]) else NonNull(cells[..d]) + [cells[d]]
  {
    assert cells[..d + 1][..d] == cells[..d];
  }

  // ---------------------------------------------------------------- most common values

  /** How many of the values are `v`. */
  function Multiplicity(vals: seq<Value>, v: Value): nat {
    if vals == [] then 0
    else Multiplicity(vals[..|vals| - 1], v) + if SameValue(vals[|vals| - 1], v) then 1 else 0
  }

  lemma {:induction false} NotThere(vals: seq<Value>, v: Value)
    requires forall w :: w in vals ==> !SameValue(w, v)
    ensures Multiplicity(vals, v) == 0
  {
    if vals != [] {
      NotThere(vals[..|vals| - 1], v);
    }
  }

  /** Values all of the one typed kind. */
  ghost predicate Uniform(vals: seq<Value>, kind: Kind) {
    Typed(kind) && forall v :: v in vals ==> KindOf(v) == kind
  }

  lemma AscendingIsUniform(s: seq<Value>)
    requires Ascending(s) && s != []
    ensures Uniform(s, KindOf(s[0]))
  {
    forall v | v in s
      ensures KindOf(v) == KindOf(s[0])
    {
      var i :| 0 <= i < |s| && s[i] == v;
    }
  }

  lemma SameSymmetric(a: Value, b: Value)
    requires KindOf(a) == KindOf(b) && Typed(KindOf(a))
    ensures SameValue(a, b) == SameValue(b, a) && SameValue(a, a)
  {
  }

  lemma {:induction false} MultiplicityOfSame(vals: seq<Value>, kind: Kind, v: Value, w: Value)
    requires Uniform(vals, kind) && KindOf(v) == KindOf(w) == kind && SameValue(v, w)
    ensures Multiplicity(vals, v) == Multiplicity(vals, w)
  {
    if vals != [] {
      var last := vals[|vals| - 1];
      MultiplicityOfSame(vals[..|vals| - 1], kind, v, w);
      assert SameValue(last, v) == SameValue(last, w);
    }
  }

  lemma {:induction false} MultiplicityWithout(a: seq<Value>, x: Value, b: seq<Value>, v: Value)
    ensures Multiplicity(a + [x] + b, v) == Multiplicity(a + b, v) + if SameValue(x, v) then 1 else 0
    decreases |b|
  {
    if b == [] {
      assert a + [x] + b == a + [x] && a + b == a;
    } else {
      var init, last := b[..|b| - 1], b[|b| - 1];
      assert (a + [x] + b)[..|a| + |b|] == a + [x] + init;
      assert (a + b)[..|a| + |b| - 1] == a + init;
      MultiplicityWithout(a, x, init, v);
    }
  }

  lemma MultisetWithout(s: seq<Value>, i: nat)
    requires i < |s|
    ensures multiset(s) == multiset(s[..i] + s[i + 1..]) + multiset{s[i]}
  {
    assert s == s[..i] + [s[i]] + s[i + 1..];
  }

  lemma MultisetCancel(a: multiset<Value>, b: multiset<Value>, x: Value)
    requires a + multiset{x} == b + multiset{x}
    ensures a == b
  {
    assert a == a + multiset{x} - multiset{x};
    assert b == b + multiset{x} - multiset{x};
  }

  lemma MatchLast(s: seq<Value>, t: seq<Value>) returns (i: nat)
    requires multiset(s) == multiset(t) && s != []
    ensures i < |t| && t[i] == s[|s| - 1]
    ensures multiset(s[..|s| - 1]) == multiset(t[..i] + t[i + 1..])
  {
    var n := |s| - 1;
    var x := s[n];
    assert x in multiset(s) && x in t;
    i :| 0 <= i < |t| && t[i] == x;
    MultisetWithout(s, n);
    MultisetWithout(t, i);
    assert s[..n] + s[n + 1..] == s[..n];
    MultisetCancel(multiset(s[..n]), multiset(t[..i] + t[i + 1..]), x);
  }

  /** Multiplicity does not depend on the order of the values. */
  lemma {:induction false} MultiplicityOfPermutation(s: seq<Value>, t: seq<Value>, v: Value)
    requires multiset(s) == multiset(t)
    ensures Multiplicity(s, v) == Multiplicity(t, v)
    decreases |s|
  {
    if s == [] {
      assert |multiset(t)| == 0;
    } else {
      var i := MatchLast(s, t);
      MultiplicityOfPermutation(s[..|s| - 1], t[..i] + t[i + 1..], v);
      MultiplicityWithout(t[..i], t[i], t[i + 1..], v);
      assert t == t[..i] + [t[i]] + t[i + 1..];
    }
  }

  // ---------------------------------------------------------------- runs

  type Run = (Value, nat)

  /** Each listed value is one of the values, with its exact multiplicity. */
  ghost predicate Counted(runs: seq<Run>, vals: seq<Value>) {
    forall i :: 0 <= i < |runs| ==> runs[i].0 in vals && runs[i].1 == Multiplicity(vals, runs[i].0)
  }

  ghost predicate Separate(runs: seq<Run>) {
    forall i, j :: 0 <= i < j < |runs| ==> !SameValue(runs[i].0, runs[j].0)
  }

  ghost predicate ValuesAscend(runs: seq<Run>) {
    forall i, j :: 0 <= i < j < |runs| ==> LessOrEqual(runs[i].0, runs[j].0)
  }

  ghost predicate Listed(runs: seq<Run>, v: Value) {
    exists i :: 0 <= i < |runs| && SameValue(v, runs[i].0)
  }

  /** Every value once, with its multiplicity, in ascending order. */
  ghost predicate AreRuns(runs: seq<Run>, vals: seq<Value>) {
    && Counted(runs, vals) && Separate(runs) && ValuesAscend(runs)
    && forall v :: v in vals ==> Listed(runs, v)
  }

  /** Count one more value into the last run, or start a run with it. */
  function NextRuns(runs: seq<Run>, v: Value): seq<Run> {
    if runs != [] && SameValue(runs[|runs| - 1].0, v)
    then runs[..|runs| - 1] + [(runs[|runs| - 1].0, runs[|runs| - 1].1 + 1)]
    else runs + [(v, 1)]
  }

  lemma MultiplicityOfOneMore(vals: seq<Value>, v: Value, w: Value)
    ensures Multiplicity(vals + [v], w) == Multiplicity(vals, w) + if SameValue(v, w) then 1 else 0
  {
    assert (vals + [v])[..|vals|] == vals;
  }

  lemma SameRunCounted(runs: seq<Run>, s: seq<Value>, v: Value, kind: Kind)
    requires Uniform(s, kind) && KindOf(v) == kind && Counted(runs, s) && Separate(runs)
    requires runs != [] && SameValue(runs[|runs| - 1].0, v)
    ensures Counted(NextRuns(runs, v), s + [v])
  {
    var n := |runs| - 1;
    var next := NextRuns(runs, v);
    forall i | 0 <= i <= n
      ensures next[i].0 in s + [v] && next[i].1 == Multiplicity(s + [v], next[i].0)
    {
      var r := runs[i].0;
      assert next[i].0 == r;
      MultiplicityOfOneMore(s, v, r);
      SameSymmetric(v, r);
      SameSymmetric(v, runs[n].0);
      assert i < n ==> !SameValue(r, runs[n].0);
    }
  }

  lemma ListedAfterSame(runs: seq<Run>, v: Value, w: Value)
    requires runs != [] && Listed(runs, w)
    ensures Listed(NextRuns(runs, v), w)
  {
    var i :| 0 <= i < |runs| && SameValue(w, runs[i].0);
    assert NextRuns(runs, v)[i].0 == runs[i].0;
  }

  lemma SameRunOrder(runs: seq<Run>, v: Value)
    requires Separate(runs) && ValuesAscend(runs)
    requires runs != [] && SameValue(runs[|runs| - 1].0, v)
    ensures Separate(NextRuns(runs, v)) && ValuesAscend(NextRuns(runs, v))
  {
    var next := NextRuns(runs, v);
    assert forall i :: 0 <= i < |runs| ==> next[i].0 == runs[i].0;
  }

  lemma SameRun(runs: seq<Run>, s: seq<Value>, v: Value, kind: Kind)
    requires Uniform(s, kind) && KindOf(v) == kind && AreRuns(runs, s)
    requires runs != [] && SameValue(runs[|runs| - 1].0, v)
    ensures AreRuns(NextRuns(runs, v), s + [v])
  {
    SameRunCounted(runs, s, v, kind);
    SameRunOrder(runs, v);
    assert runs[|runs| - 1].0 in s;
    SameSymmetric(v, runs[|runs| - 1].0);
    assert Listed(runs, v);
    forall w | w in s + [v]
      ensures Listed(NextRuns(runs, v), w)
    {
      ListedAfterSame(runs, v, w);
    }
  }

  lemma NewRunCounted(runs: seq<Run>, s: seq<Value>, v: Value, kind: Kind)
    requires Uniform(s, kind) && KindOf(v) == kind && Counted(runs, s)
    requires forall w :: w in s ==> !SameValue(w, v)
    ensures Counted(runs + [(v, 1)], s + [v])
  {
    SameSymmetric(v, v);
    NotThere(s, v);
    MultiplicityOfOneMore(s, v, v);
    forall i | 0 <= i < |runs|
      ensures runs[i].0 in s + [v] && runs[i].1 == Multiplicity(s + [v], runs[i].0)
    {
      MultiplicityOfOneMore(s, v, runs[i].0);
      SameSymmetric(v, runs[i].0);
    }
  }

  lemma ListedInLonger(runs: seq<Run>, r: Run, w: Value)
    requires Listed(runs, w) || SameValue(w, r.0)
    ensures Listed(runs + [r], w)
  {
    if Listed(runs, w) {
      var i :| 0 <= i < |runs| && SameValue(w, runs[i].0);
      assert (runs + [r])[i] == runs[i];
    } else {
      assert (runs + [r])[|runs|] == r;
    }
  }

  lemma NewRunOrder(runs: seq<Run>, s: seq<Value>, v: Value)
    requires Counted(runs, s) && Separate(runs) && ValuesAscend(runs)
    requires forall w :: w in s ==> !SameValue(w, v) && LessOrEqual(w, v)
    ensures Separate(runs + [(v, 1)]) && ValuesAscend(runs + [(v, 1)])
  {
    assert forall i :: 0 <= i < |runs| ==> runs[i].0 in s;
  }

  lemma NewRunAdded(runs: seq<Run>, s: seq<Value>, v: Value, kind: Kind)
    requires Uniform(s, kind) && KindOf(v) == kind && Typed(kind) && AreRuns(runs, s)
    requires forall w :: w in s ==> !SameValue(w, v) && LessOrEqual(w, v)
    ensures AreRuns(runs + [(v, 1)], s + [v])
  {
    NewRunCounted(runs, s, v, kind);
    NewRunOrder(runs, s, v);
    SameSymmetric(v, v);
    forall w | w in s + [v]
      ensures Listed(runs + [(v, 1)], w)
    {
      ListedInLonger(runs, (v, 1), w);
    }
  }

  lemma UniformPrefix(s: seq<Value>, v: Value)
    requires Ascending(s + [v])
    ensures Uniform(s, KindOf(v))
  {
    var all := s + [v];
    assert all[|s|] == v;
    forall w | w in s
      ensures KindOf(w) == KindOf(v)
    {
      var i :| 0 <= i < |s| && s[i] == w;
      assert all[i] == w;
    }
  }

  lemma ExtendRuns(runs: seq<Run>, s: seq<Value>, v: Value)
    requires Ascending(s + [v]) && AreRuns(runs, s)
    requires s != [] ==> runs != [] && SameValue(runs[|runs| - 1].0, s[|s| - 1])
    ensures AreRuns(NextRuns(runs, v), s + [v])
  {
    var kind := KindOf(v);
    UniformPrefix(s, v);
    if runs != [] && SameValue(runs[|runs| - 1].0, v) {
      SameRun(runs, s, v, kind);
    } else {
      if s != [] {
        RunEnds(runs[|runs| - 1].0, s[|s| - 1], v);
      }
      AllBefore(s, v);
      NewRunAdded(runs, s, v, kind);
      assert NextRuns(runs, v) == runs + [(v, 1)];
    }
  }

  lemma LastRun(runs: seq<Run>, v: Value)
    requires Typed(KindOf(v))
    ensures NextRuns(runs, v) != []
    ensures SameValue(NextRuns(runs, v)[|NextRuns(runs, v)| - 1].0, v)
  {
    SameSymmetric(v, v);
  }

  lemma RunEnds(last: Value, end: Value, v: Value)
    requires Typed(KindOf(v)) && KindOf(last) == KindOf(end) == KindOf(v)
    requires SameValue(last, end) && !SameValue(last, v)
    ensures !SameValue(end, v)
  {
  }

  lemma AllBefore(s: seq<Value>, v: Value)
    requires Ascending(s + [v]) && (s != [] ==> !SameValue(s[|s| - 1], v))
    ensures forall w :: w in s ==> !SameValue(w, v) && LessOrEqual(w, v)
  {
    var all := s + [v];
    forall w | w in s
      ensures !SameValue(w, v) && LessOrEqual(w, v)
    {
      NewRun(s, v, w);
      var j :| 0 <= j < |s| && s[j] == w;
      assert all[j] == w && all[|s|] == v;
    }
  }

  method RunsOf(sorted: seq<Value>) returns (runs: seq<Run>)
    requires Ascending(sorted)
    ensures AreRuns(runs, sorted)
  {
    runs := [];
    var i := 0;
    assert AreRuns(runs, sorted[..0]);
    hide AreRuns;
    hide NextRuns;
    while i < |sorted|
      invariant 0 <= i <= |sorted|
      invariant AreRuns(runs, sorted[..i])
      invariant i > 0 ==> runs != [] && SameValue(runs[|runs| - 1].0, sorted[i - 1])
    {
      PrefixAscends(sorted, i + 1);
      assert Typed(KindOf(sorted[i]));
      hide Ascending;
      hide SameValue;
      assert sorted[..i + 1] == sorted[..i] + [sorted[i]];
      ExtendRuns(runs, sorted[..i], sorted[i]);
      LastRun(runs, sorted[i]);
      runs := NextRuns(runs, sorted[i]);
      i := i + 1;
    }
    assert sorted[..i] == sorted;
  }

  lemma PrefixAscends(s: seq<Value>, n: nat)
    requires Ascending(s) && n <= |s|
    ensures Ascending(s[..n])
  {
    assert s == s[..n] + s[n..];
    AscendingParts(s[..n], s[n..]);
  }

  // ---------------------------------------------------------------- the most common values

  /** More frequent first, and of equally frequent values the smaller first. */
  ghost predicate Before(a: Run, b: Run) {
    a.1 > b.1 || (a.1 == b.1 && LessOrEqual(a.0, b.0))
  }

  ghost predicate ByCount(runs: seq<Run>) {
    forall i, j :: 0 <= i < j < |runs| ==> Before(runs[i], runs[j])
  }

  /** Put `r` after every run at least as frequent: an insertion step of a stable descending sort. */
  method InsertRun(runs: seq<Run>, r: Run) returns (out: seq<Run>)
    requires ByCount(runs) && forall a :: a in runs ==> LessOrEqual(a.0, r.0)
    ensures ByCount(out) && multiset(out) == multiset(runs) + multiset{r}
  {
    var at := |runs|;
    hide ByCount;
    hide LessOrEqual;
    while at > 0 && runs[at - 1].1 < r.1
      invariant 0 <= at <= |runs|
      invariant forall i :: at <= i < |runs| ==> runs[i].1 < r.1
    {
      at := at - 1;
    }
    out := runs[..at] + [r] + runs[at..];
    assert runs == runs[..at] + runs[at..];
    InsertedByCount(runs, r, at);
  }

  lemma InsertedByCount(runs: seq<Run>, r: Run, at: nat)
    requires ByCount(runs) && forall a :: a in runs ==> LessOrEqual(a.0, r.0)
    requires at <= |runs| && (at > 0 ==> runs[at - 1].1 >= r.1)
    requires forall i :: at <= i < |runs| ==> runs[i].1 < r.1
    ensures ByCount(runs[..at] + [r] + runs[at..])
  {
    var out := runs[..at] + [r] + runs[at..];
    forall i | 0 <= i < at
      ensures Before(runs[i], r)
    {
      assert runs[i] in runs;
      assert i < at - 1 ==> Before(runs[i], runs[at - 1]);
    }
    forall i, j | 0 <= i < j < |out|
      ensures Before(out[i], out[j])
    {
      if i != at && j != at {
        var i', j' := if i < at then i else i - 1, if j < at then j else j - 1;
        assert out[i] == runs[i'] && out[j] == runs[j'] && Before(runs[i'], runs[j']);
      }
    }
  }

  method SortByCount(runs: seq<Run>) returns (out: seq<Run>)
    requires ValuesAscend(runs)
    ensures ByCount(out) && multiset(out) == multiset(runs)
    ensures forall i, j :: 0 <= i < j < |out| ==>
      out[i].1 > out[j].1 || (out[i].1 == out[j].1 && LessOrEqual(out[i].0, out[j].0))
  {
    out := [];
    var i := 0;
    while i < |runs|
      invariant 0 <= i <= |runs|
      invariant ByCount(out) && multiset(out) == multiset(runs[..i])
    {
      forall a | a in out
        ensures LessOrEqual(a.0, runs[i].0)
      {
        assert a in multiset(out);
        assert a in runs[..i];
      }
      out := InsertRun(out, runs[i]);
      assert runs[..i + 1] == runs[..i] + [runs[i]];
      i := i + 1;
    }
    assert runs[..i] == runs;
  }

  /** Up to `MCV_LIMIT` of the values, each once with its exact multiplicity, most frequent first,
    * such that every value left out is less frequent than those listed, or as frequent and not smaller.
    */
  ghost predicate AreMcvs(mcvs: seq<Run>, vals: seq<Value>) {
    && |mcvs| <= MCV_LIMIT && Counted(mcvs, vals) && Separate(mcvs) && ByCount(mcvs)
    && forall v :: v in vals ==> Listed(mcvs, v) || LeftOut(mcvs, vals, v)
  }

  ghost predicate LeftOut(mcvs: seq<Run>, vals: seq<Value>, v: Value) {
    |mcvs| == MCV_LIMIT && forall i :: 0 <= i < |mcvs| ==> Before(mcvs[i], (v, Multiplicity(vals, v)))
  }

  lemma CountedPermutation(runs: seq<Run>, out: seq<Run>, vals: seq<Value>)
    requires Counted(runs, vals) && multiset(out) == multiset(runs)
    ensures Counted(out, vals)
  {
    forall i | 0 <= i < |out|
      ensures out[i].0 in vals && out[i].1 == Multiplicity(vals, out[i].0)
    {
      assert out[i] in multiset(runs);
      var j :| 0 <= j < |runs| && runs[j] == out[i];
    }
  }

  /** Distinct positions of a permutation come from distinct positions. */
  lemma SeparatePermutation(runs: seq<Run>, out: seq<Run>, kind: Kind)
    requires Separate(runs) && multiset(out) == multiset(runs)
    requires Typed(kind) && forall r :: r in runs ==> KindOf(r.0) == kind
    ensures Separate(out)
  {
    forall i, j | 0 <= i < j < |out|
      ensures !SameValue(out[i].0, out[j].0)
    {
      var a, b := out[i], out[j];
      assert a in multiset(runs) && b in multiset(runs);
      var p :| 0 <= p < |runs| && runs[p] == a;
      var q :| 0 <= q < |runs| && runs[q] == b;
      SameSymmetric(a.0, b.0);
      if p == q {
        TwiceInMultiset(out, i, j);
        OnceInMultiset(runs, p);
        assert false;
      }
    }
  }

  lemma TwiceInMultiset(s: seq<Run>, i: nat, j: nat)
    requires i < j < |s| && s[i] == s[j]
    ensures multiset(s)[s[i]] >= 2
  {
    assert s == s[..i] + [s[i]] + s[i + 1..j] + [s[j]] + s[j + 1..];
  }

  lemma OnceInMultiset(s: seq<Run>, p: nat)
    requires p < |s| && forall i :: 0 <= i < |s| && i != p ==> s[i] != s[p]
    ensures multiset(s)[s[p]] == 1
  {
    assert s == s[..p] + [s[p]] + s[p + 1..];
    assert s[p] !in s[..p] && s[p] !in s[p + 1..];
  }

  lemma ListedInPermutation(runs: seq<Run>, out: seq<Run>, v: Value)
    requires Listed(runs, v) && multiset(out) == multiset(runs)
    ensures Listed(out, v)
  {
    var i :| 0 <= i < |runs| && SameValue(v, runs[i].0);
    assert runs[i] in multiset(out);
    var j :| 0 <= j < |out| && out[j] == runs[i];
  }

  lemma ListedOrLeftOut(out: seq<Run>, vals: seq<Value>, kind: Kind, v: Value)
    requires Uniform(vals, kind) && Counted(out, vals) && ByCount(out) && |out| > MCV_LIMIT
    requires v in vals && Listed(out, v)
    ensures Listed(out[..MCV_LIMIT], v) || LeftOut(out[..MCV_LIMIT], vals, v)
  {
    var i :| 0 <= i < |out| && SameValue(v, out[i].0);
    if i < MCV_LIMIT {
      assert out[..MCV_LIMIT][i] == out[i];
    } else {
      assert out[i].0 in vals;
      MultiplicityOfSame(vals, kind, v, out[i].0);
      assert forall j :: 0 <= j < MCV_LIMIT ==> Before(out[j], out[i]);
    }
  }

  /** Keeping the first entries of the sorted runs leaves out nothing more frequent. */
  lemma TruncatedAreMcvs(out: seq<Run>, vals: seq<Value>, kind: Kind)
    requires Uniform(vals, kind) && Counted(out, vals) && Separate(out) && ByCount(out)
    requires forall v :: v in vals ==> Listed(out, v)
    ensures AreMcvs(if |out| > MCV_LIMIT then out[..MCV_LIMIT] else out, vals)
  {
    if |out| > MCV_LIMIT {
      forall v | v in vals
        ensures Listed(out[..MCV_LIMIT], v) || LeftOut(out[..MCV_LIMIT], vals, v)
      {
        ListedOrLeftOut(out, vals, kind, v);
      }
    }
  }

  lemma McvsOfSorted(runs: seq<Run>, out: seq<Run>, sorted: seq<Value>)
    requires Ascending(sorted) && sorted != [] && AreRuns(runs, sorted)
    requires ByCount(out) && multiset(out) == multiset(runs)
    ensures AreMcvs(if |out| > MCV_LIMIT then out[..MCV_LIMIT] else out, sorted)
  {
    AscendingIsUniform(sorted);
    var kind := KindOf(sorted[0]);
    CountedPermutation(runs, out, sorted);
    forall r | r in runs
      ensures KindOf(r.0) == kind
    {
      var i :| 0 <= i < |runs| && runs[i] == r;
      assert runs[i].0 in sorted;
    }
    SeparatePermutation(runs, out, kind);
    forall v | v in sorted
      ensures Listed(out, v)
    {
      ListedInPermutation(runs, out, v);
    }
    TruncatedAreMcvs(out, sorted, kind);
  }

  /** The statistics of these values, for some ascending arrangement of them. */
  ghost predicate Describes(st: PropStats, vals: seq<Value>, sorted: seq<Value>) {
    && Ascending(sorted) && multiset(sorted) == multiset(vals)
    && st.histogram.buckets == BucketsOf(EquiDepth(sorted, HISTOGRAM_BUCKETS))
    && st.histogram.total == |vals|
    && AreMcvs(st.mcvs, sorted)
  }

  ghost predicate AreStats(r: Option<PropStats>, jsons: bool, vals: seq<Value>) {
    if jsons || vals == [] then r == None
    else r.Some? && exists sorted :: Describes(r.value, vals, sorted)
  }

  method ComputePropStats(c: PropColumn) returns (r: Option<PropStats>)
    requires c.Valid()
    ensures AreStats(r, c.rep.Jsons?, NonNull(c.cells))
  {
    var vals := TypedValues(c);
    r := None;
    if vals.Some? {
      r := StatsOfValues(vals.value);
    }
  }

  method StatsOfValues(vals: seq<Value>) returns (r: Option<PropStats>)
    requires OneKind(vals)
    ensures AreStats(r, false, vals)
  {
    var sorted := Sort(vals);
    assert |multiset(sorted)| == |multiset(vals)|;
    if sorted == [] {
      return None;
    }
    var histogram := Build(sorted, HISTOGRAM_BUCKETS);
    var runs := RunsOf(sorted);
    var mcvs := SortByCount(runs);
    McvsOfSorted(runs, mcvs, sorted);
    if |mcvs| > MCV_LIMIT {
      mcvs := mcvs[..MCV_LIMIT];
    }
    r := Some(PropStats(histogram, mcvs));
    assert Describes(r.value, vals, sorted);
  }

  /** Entry `i` is the first of the most common values equal to `v`. */
  ghost predicate FirstSame(mcvs: seq<Run>, v: Value, i: nat) {
    i < |mcvs| && SameValue(mcvs[i].0, v) && forall j :: 0 <= j < i ==> !SameValue(mcvs[j].0, v)
  }

  /** The estimated share of a value: its listed count, or the histogram's estimate when unlisted. */
  ghost predicate ShareOf(st: PropStats, v: Value, sel: real)
    requires st.histogram.total > 0
  {
    if exists i: nat :: FirstSame(st.mcvs, v, i) then
      exists i: nat :: FirstSame(st.mcvs, v, i) && sel == st.mcvs[i].1 as real / st.histogram.total as real
    else
      EqualityEstimate(st.histogram, v, sel)
  }

  method EqualitySelectivity(st: PropStats, v: Value) returns (sel: real)
    requires st.histogram.total > 0
    ensures ShareOf(st, v, sel)
  {
    hide EqualityEstimate;
    var i := 0;
    while i < |st.mcvs|
      invariant 0 <= i <= |st.mcvs|
      invariant forall j :: 0 <= j < i ==> !SameValue(st.mcvs[j].0, v)
    {
      if SameValue(st.mcvs[i].0, v) {
        assert FirstSame(st.mcvs, v, i);
        return st.mcvs[i].1 as real / st.histogram.total as real;
      }
      i := i + 1;
    }
    sel := EstimateEqualitySelectivity(st.histogram, v);
  }

  /** A most common value is estimated at its exact share of the rows. */
  lemma ListedShareIsExact(st: PropStats, v: Value, vals: seq<Value>, sorted: seq<Value>, sel: real)
    requires Describes(st, vals, sorted) && v in vals && Listed(st.mcvs, v) && st.histogram.total > 0
    requires ShareOf(st, v, sel)
    ensures sel == Multiplicity(vals, v) as real / |vals| as real
  {
    hide EqualityEstimate;
    ListedBothWays(st.mcvs, vals, sorted, v);
    var i := FirstListed(st.mcvs, v);
    ListedShare(st.mcvs, vals, sorted, v, i);
  }

  lemma FirstListed(mcvs: seq<Run>, v: Value) returns (i: nat)
    requires exists k :: 0 <= k < |mcvs| && SameValue(mcvs[k].0, v)
    ensures FirstSame(mcvs, v, i)
  {
    var k :| 0 <= k < |mcvs| && SameValue(mcvs[k].0, v);
    i := 0;
    while i < k && !SameValue(mcvs[i].0, v)
      invariant i <= k
      invariant forall j :: 0 <= j < i ==> !SameValue(mcvs[j].0, v)
    {
      i := i + 1;
    }
  }

  lemma ListedBothWays(mcvs: seq<Run>, vals: seq<Value>, sorted: seq<Value>, v: Value)
    requires Ascending(sorted) && multiset(sorted) == multiset(vals) && Counted(mcvs, sorted)
    requires Listed(mcvs, v) && v in vals
    ensures exists k :: 0 <= k < |mcvs| && SameValue(mcvs[k].0, v)
  {
    var k :| 0 <= k < |mcvs| && SameValue(v, mcvs[k].0);
    assert v in multiset(vals) && v in sorted;
    AscendingIsUniform(sorted);
    assert mcvs[k].0 in sorted;
    SameSymmetric(v, mcvs[k].0);
  }

  lemma ListedShare(mcvs: seq<Run>, vals: seq<Value>, sorted: seq<Value>, v: Value, i: nat)
    requires Ascending(sorted) && multiset(sorted) == multiset(vals) && Counted(mcvs, sorted)
    requires i < |mcvs| && SameValue(mcvs[i].0, v) && v in vals
    ensures mcvs[i].1 == Multiplicity(vals, v)
  {
    assert v in multiset(vals) && v in sorted;
    AscendingIsUniform(sorted);
    MultiplicityOfSame(sorted, KindOf(sorted[0]), mcvs[i].0, v);
    MultiplicityOfPermutation(sorted, vals, v);
  }
}
