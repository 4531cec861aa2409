/** One typed column over dense entity slots, and the builder that streams values into one. */
module Column {
  import opened Words
  import opened Json
  import opened ColumnParts

  // ---------------------------------------------------------------- the arrays of a column

  /** The arrays a column consists of, as they are saved to and mapped from a file. */
  datatype Raw =
    | IntCol(words: seq<u64>, ints: seq<i64>)
    | FloatCol(words: seq<u64>, floats: seq<f64>)
    | BoolCol(words: seq<u64>, bools: seq<byte>)
    | StrCol(offsets: seq<nat>, bytes: seq<byte>, idx: seq<u32>)
    | JsonCol(cells: seq<Option<Value>>)

  function RawLen(raw: Raw): nat {
    match raw
    case IntCol(_, v) => |v|
    case FloatCol(_, v) => |v|
    case BoolCol(_, v) => |v|
    case StrCol(_, _, idx) => |idx|
    case JsonCol(v) => |v|
  }

  /** The array lengths fit together and every string code is in range: all that a loader checks. */
  ghost predicate RawShaped(raw: Raw) {
    match raw
    case IntCol(w, v) => |w| == WordsFor(|v|)
    case FloatCol(w, v) => |w| == WordsFor(|v|)
    case BoolCol(w, v) => |w| == WordsFor(|v|) && Flags(v)
    case StrCol(o, b, idx) =>
      DictShaped(o, b) && CodesInRange(idx, |o| - 1)
    case JsonCol(_) => true
  }

  /** What the column code relies on beyond that, and no loader checks again. */
  ghost predicate RawValid(raw: Raw) {
    RawShaped(raw) &&
    match raw
    case IntCol(w, v) => TailClear(w, |v|)
    case FloatCol(w, v) => TailClear(w, |v|)
    case BoolCol(w, v) => TailClear(w, |v|)
    case StrCol(o, b, idx) => Distinct(Entries(o, b))
    case JsonCol(cells) => forall i :: 0 <= i < |cells| ==> cells[i] != Some(Null)
  }

  /** The value of one slot, `Null` when it holds none. */
  ghost function Read(raw: Raw, d: nat): Value
    requires RawShaped(raw) && d < RawLen(raw)
  {
    match raw
    case IntCol(w, v) => if Bit(w, d) then Num(Int(v[d])) else Null
    case FloatCol(w, v) => if Bit(w, d) then Num(Float(v[d])) else Null
    case BoolCol(w, v) => if Bit(w, d) then Bool(v[d] != 0) else Null
    case StrCol(o, b, idx) => ReadCode(Entries(o, b), idx[d])
    case JsonCol(cells) => if cells[d].Some? then cells[d].value else Null
  }

  /** Every slot's value: what a column means. */
  ghost function Cells(raw: Raw): seq<Value>
    requires RawShaped(raw)
  {
    seq(RawLen(raw), d requires 0 <= d < RawLen(raw) => Read(raw, d))
  }

  /** How many dictionary entries the arrays hold. */
  ghost function RawStrings(raw: Raw): nat
    requires RawShaped(raw)
  {
    if raw.StrCol? then |raw.offsets| - 1 else 0
  }

  function Nulls(n: nat): seq<Value> {
    seq(n, _ => Null)
  }

  /** `s` extended with nulls to cover `n` slots. */
  function Padded(s: seq<Value>, n: nat): (r: seq<Value>)
    ensures |r| == if n > |s| then n else |s|
  {
    if n > |s| then s + Nulls(n - |s|) else s
  }

  function CellOf(v: Value): Option<Value> {
    if v == Null then None else Some(v)
  }

  // ---------------------------------------------------------------- reading the parts of a column

  function IntValue(i: i64): Value { Num(Int(i)) }

  function FloatValue(f: f64): Value { Num(Float(f)) }

  function BoolValue(b: byte): Value { Bool(b != 0) }

  function JsonValue(v: Value): Value { v }

  function OptionalValue<T>(v: Option<T>, f: T -> Value): Value {
    if v.Some? then f(v.value) else Null
  }

  function Values<T>(s: seq<Option<T>>, f: T -> Value): seq<Value> {
    seq(|s|, i requires 0 <= i < |s| => OptionalValue(s[i], f))
  }

  lemma ValuesUpdated<T>(s: seq<Option<T>>, f: T -> Value, i: nat, v: Option<T>)
    requires i < |s|
    ensures Values(s[i := v], f) == Values(s, f)[i := OptionalValue(v, f)]
  {
  }

  lemma ValuesPadded<T>(s: seq<Option<T>>, f: T -> Value, n: nat)
    ensures Values(s + seq(n, _ => None), f) == Values(s, f) + Nulls(n)
  {
  }

  lemma ValuesOfNones<T>(n: nat, f: T -> Value)
    ensures Values(seq(n, _ => None), f) == Nulls(n)
  {
  }

  /** Every boolean is stored as 0 or 1. */
  predicate Flags(bools: seq<byte>) {
    forall i :: 0 <= i < |bools| ==> bools[i] <= 1
  }

  ghost function Decoded(entries: seq<Text>, idx: seq<u32>): seq<Value> {
    seq(|idx|, i requires 0 <= i < |idx| => ReadCode(entries, idx[i]))
  }

  predicate CodesInRange(idx: seq<u32>, n: nat) {
    forall i :: 0 <= i < |idx| ==> idx[i] == STR_NULL || idx[i] < n
  }

  lemma DecodedUpdated(entries: seq<Text>, grown: seq<Text>, idx: seq<u32>, i: nat, code: u32)
    requires i < |idx| && CodesInRange(idx, |entries|) && entries <= grown
    ensures Decoded(grown, idx[i := code]) == Decoded(entries, idx)[i := ReadCode(grown, code)]
  {
  }

  // ---------------------------------------------------------------- the column

  datatype Rep =
    | Ints(ints: Nullable<i64>)
    | Floats(floats: Nullable<f64>)
    | Bools(bools: Nullable<byte>)
    | Strs(dict: StrDict, idx: seq<u32>)
    | Jsons(slots: seq<Option<Value>>)

  function KindOfRep(rep: Rep): Kind {
    match rep
    case Ints(_) => KInt
    case Floats(_) => KFloat
    case Bools(_) => KBool
    case Strs(_, _) => KStr
    case Jsons(_) => KOther
  }

  ghost predicate AllOfKind(vals: seq<Value>, kind: Kind) {
    forall i :: 0 <= i < |vals| ==> vals[i] == Null || KindOf(vals[i]) == kind
  }

  /** No one typed kind holds all the values. */
  ghost predicate Mixed(vals: seq<Value>) {
    forall kind :: Typed(kind) ==> !AllOfKind(vals, kind)
  }

  /** A typed column holds some value and only values of its kind; the fallback, once it holds a
    * value, holds values that no typed column could.
    */
  ghost predicate Inferred(kind: Kind, cells: seq<Value>) {
    && (kind != KOther ==> Typed(kind) && AllOfKind(cells, kind) && SomeValue(cells))
    && (kind == KOther && SomeValue(cells) ==> Mixed(cells))
  }

  /** The kind a column has after `v` goes into it. */
  function NextKind(kind: Kind, untyped: bool, v: Value): Kind {
    if untyped then (if Typed(KindOf(v)) then KindOf(v) else KOther)
    else if kind == KindOf(v) then kind else KOther
  }

  lemma InferredPadded(kind: Kind, cells: seq<Value>, n: nat)
    requires Inferred(kind, cells)
    ensures Inferred(kind, Padded(cells, n))
    ensures SomeValue(Padded(cells, n)) == SomeValue(cells)
  {
    var padded := Padded(cells, n);
    if SomeValue(padded) {
      var i :| 0 <= i < |padded| && padded[i] != Null;
      assert i < |cells| && cells[i] == padded[i];
    }
    if SomeValue(cells) {
      var i :| 0 <= i < |cells| && cells[i] != Null;
      assert padded[i] == cells[i];
    }
    forall k | AllOfKind(padded, k)
      ensures AllOfKind(cells, k)
    {
      assert forall i :: 0 <= i < |cells| ==> padded[i] == cells[i];
    }
  }

  lemma InferredSet(kind: Kind, cells: seq<Value>, d: nat, v: Value)
    requires Inferred(kind, cells) && d < |cells| && cells[d] == Null && v != Null
    ensures Inferred(NextKind(kind, !SomeValue(cells), v), cells[d := v])
  {
    var cells' := cells[d := v];
    assert cells'[d] == v;
    if SomeValue(cells) {
      var i :| 0 <= i < |cells| && cells[i] != Null;
      assert i != d && cells'[i] == cells[i];
      forall k | AllOfKind(cells', k)
        ensures AllOfKind(cells, k) && k == KindOf(v)
      {
        assert forall j :: 0 <= j < |cells| && j != d ==> cells'[j] == cells[j];
      }
    }
  }

  /** A string column stays one of strings when a slot reads as some string, or none, instead. */
  lemma InferredCode(before: seq<Value>, after: seq<Value>, d: nat)
    requires d < |before| == |after| && before[d] == Null && after == before[d := after[d]]
    requires after[d] == Null || after[d].Str?
    ensures Inferred(KStr, before) ==> Inferred(KStr, after)
  {
    if SomeValue(before) {
      var i :| 0 <= i < |before| && before[i] != Null;
      assert after[i] != Null;
    }
  }

  ghost predicate SomeValue(vals: seq<Value>) {
    exists i :: 0 <= i < |vals| && vals[i] != Null
  }

  /** The parts of a representation, each well formed. */
  ghost predicate RepHolds(rep: Rep, parts: set<object>, raw: Raw)
    reads parts
  {
    match rep
    case Ints(v) =>
      && parts == {v, v.present} && v.Valid() && raw == IntCol(v.present.words, v.values)
    case Floats(v) =>
      && parts == {v, v.present} && v.Valid() && raw == FloatCol(v.present.words, v.values)
    case Bools(v) =>
      && parts == {v, v.present} && v.Valid() && raw == BoolCol(v.present.words, v.values) && v.default == 0
    case Strs(d, idx) =>
      && parts == {d} && d.Valid() && raw == StrCol(d.offsets, d.bytes, idx)
    case Jsons(slots) => parts == {} && raw == JsonCol(slots)
  }

  /** The cells of a representation are those of its arrays. */
  lemma CellsOfRep(rep: Rep, parts: set<object>, raw: Raw)
    requires RawShaped(raw) && RepHolds(rep, parts, raw)
    ensures rep.Ints? ==> rep.ints.Shaped() && Cells(raw) == Values(rep.ints.View(), IntValue)
    ensures rep.Floats? ==> rep.floats.Shaped() && Cells(raw) == Values(rep.floats.View(), FloatValue)
    ensures rep.Bools? ==> rep.bools.Shaped() && Cells(raw) == Values(rep.bools.View(), BoolValue)
    ensures rep.Strs? ==> rep.dict.Shaped() && Cells(raw) == Decoded(rep.dict.View(), rep.idx)
    ensures rep.Jsons? ==> Cells(raw) == Values(rep.slots, JsonValue)
  {
    match rep
    case Ints(v) =>
      forall i | 0 <= i < |v.values|
        ensures Cells(raw)[i] == Values(v.View(), IntValue)[i]
      {
        assert v.View()[i] == v.Get(i) && v.present.Get(i) == Bit(v.present.words, i);
      }
    case Floats(v) =>
      forall i | 0 <= i < |v.values|
        ensures Cells(raw)[i] == Values(v.View(), FloatValue)[i]
      {
        assert v.View()[i] == v.Get(i) && v.present.Get(i) == Bit(v.present.words, i);
      }
    case Bools(v) =>
      forall i | 0 <= i < |v.values|
        ensures Cells(raw)[i] == Values(v.View(), BoolValue)[i]
      {
        assert v.View()[i] == v.Get(i) && v.present.Get(i) == Bit(v.present.words, i);
      }
    case Strs(d, idx) =>
      forall i | 0 <= i < |idx|
        ensures Cells(raw)[i] == Decoded(d.View(), idx)[i]
      {
      }
    case Jsons(slots) =>
      forall i | 0 <= i < |slots|
        ensures Cells(raw)[i] == Values(slots, JsonValue)[i]
      {
      }
  }

  method RepOf(raw: Raw) returns (rep: Rep, ghost parts: set<object>)
    requires RawValid(raw)
    ensures RepHolds(rep, parts, raw) && fresh(parts)
  {
    if raw.IntCol? {
      var b := new Bitmap.Wrap(raw.words, |raw.ints|);
      var v := new Nullable.Wrap(b, raw.ints, 0);
      rep, parts := Ints(v), {v, b};
    } else if raw.FloatCol? {
      var b := new Bitmap.Wrap(raw.words, |raw.floats|);
      var v := new Nullable<f64>.Wrap(b, raw.floats, Double(false, 0, 0));
      rep, parts := Floats(v), {v, b};
    } else if raw.BoolCol? {
      var b := new Bitmap.Wrap(raw.words, |raw.bools|);
      var v := new Nullable.Wrap(b, raw.bools, 0);
      rep, parts := Bools(v), {v, b};
    } else if raw.StrCol? {
      var d := new StrDict.Wrap(raw.offsets, raw.bytes);
      rep, parts := Strs(d, raw.idx), {d};
    } else {
      rep, parts := Jsons(raw.cells), {};
    }
  }

  /** `after` is `before` with one slot reading as the string's position, truncated to 32 bits, stands for. */
  ghost predicate Coded(dict: StrDict, s: Text, dense: nat, before: seq<Value>, after: seq<Value>)
    reads dict
  {
    && dict.Shaped() && dense < |before|
    && exists i :: 0 <= i < |dict.View()| && dict.View()[i] == s
         && after == before[dense := ReadCode(dict.View(), i % CODES)]
  }

  class PropColumn {
    var rep: Rep
    ghost var Repr: set<object>
    /** Every slot's value, `Null` where it has none: what the column means. */
    ghost var cells: seq<Value>

    ghost predicate Valid()
      reads this, Repr
      ensures Valid() ==> this in Repr
    {
      this in Repr &&
      match rep
      case Ints(v) =>
        v in Repr && v.present in Repr && v.Valid() && cells == Values(v.View(), IntValue)
      case Floats(v) =>
        v in Repr && v.present in Repr && v.Valid() && cells == Values(v.View(), FloatValue)
      case Bools(v) =>
        v in Repr && v.present in Repr && v.Valid() && cells == Values(v.View(), BoolValue)
        && v.default == 0 && Flags(v.values)
      case Strs(d, idx) =>
        d in Repr && d.Valid() && CodesInRange(idx, d.Len()) && cells == Decoded(d.View(), idx)
      case Jsons(slots) =>
        cells == Values(slots, JsonValue) && forall i :: 0 <= i < |slots| ==> slots[i] != Some(Null)
    }

    /** The arrays of the column. */
    ghost function Raw(): Raw
      requires Valid()
      reads this, Repr
    {
      match rep
      case Ints(v) => IntCol(v.present.words, v.values)
      case Floats(v) => FloatCol(v.present.words, v.values)
      case Bools(v) => BoolCol(v.present.words, v.values)
      case Strs(d, idx) => StrCol(d.offsets, d.bytes, idx)
      case Jsons(slots) => JsonCol(slots)
    }

    /** How many dictionary entries the column has. */
    ghost function Strings(): nat
      requires Valid()
      reads this, Repr
    {
      if rep.Strs? then rep.dict.Len() else 0
    }

    constructor Json(n: nat)
      ensures Valid() && fresh(Repr) && cells == Nulls(n)
      ensures Strings() == 0 && rep == Jsons(seq(n, _ => None))
    {
      rep := Jsons(seq(n, _ => None));
      Repr := {this};
      cells := Nulls(n);
    }

    /** A column around mapped arrays. What no loader checks is required here: a saved column has it. */
    constructor FromRaw(raw: Raw)
      requires RawValid(raw)
      ensures Valid() && fresh(Repr) && this.Raw() == raw && cells == Cells(raw) && Strings() == RawStrings(raw)
    {
      var r: Rep;
      ghost var parts: set<object>;
      r, parts := RepOf(raw);
      rep := r;
      Repr := {this} + parts;
      cells := Cells(raw);
      new;
      hide *;
      HoldsRaw(parts, raw);
    }

    lemma HoldsRaw(parts: set<object>, raw: Raw)
      requires RawValid(raw) && RepHolds(rep, parts, raw) && Repr == {this} + parts && cells == Cells(raw)
      ensures Valid() && this.Raw() == raw && Strings() == RawStrings(raw)
    {
      CellsOfRep(rep, parts, raw);
      hide Cells;
      hide Values;
      hide Decoded;
    }

    /** The arrays of a column are well formed and hold its values. */
    lemma RawHoldsCells()
      requires Valid()
      ensures RawValid(Raw()) && Cells(Raw()) == cells
    {
      var parts := match rep
        case Ints(v) => {v, v.present}
        case Floats(v) => {v, v.present}
        case Bools(v) => {v, v.present}
        case Strs(d, _) => {d}
        case Jsons(_) => {};
      assert RepHolds(rep, parts, Raw());
      CellsOfRep(rep, parts, Raw());
    }

    function Len(): (n: nat)
      requires Valid()
      reads this, Repr
      ensures n == |cells|
    {
      match rep
      case Ints(v) => |v.values|
      case Floats(v) => |v.values|
      case Bools(v) => |v.values|
      case Strs(_, idx) => |idx|
      case Jsons(slots) => |slots|
    }

    /** The value at `dense`, or `None` for null or missing. */
    function GetJsonOpt(dense: nat): (v: Option<Value>)
      requires Valid() && dense < Len()
      reads this, Repr
      ensures v == CellOf(cells[dense])
    {
      match rep
      case Ints(v) => (match v.Get(dense) case Some(i) => Some(Num(Int(i))) case None => None)
      case Floats(v) => (match v.Get(dense) case Some(f) => Some(Num(Float(f))) case None => None)
      case Bools(v) => (match v.Get(dense) case Some(b) => Some(Bool(b != 0)) case None => None)
      case Strs(d, idx) => if idx[dense] == STR_NULL then None else Some(Str(d.Get(idx[dense])))
      case Jsons(slots) => slots[dense]
    }

    predicate IsPresent(dense: nat)
      requires Valid() && dense < Len()
      reads this, Repr
      ensures IsPresent(dense) <==> cells[dense] != Null
    {
      match rep
      case Ints(v) => v.present.Get(dense)
      case Floats(v) => v.present.Get(dense)
      case Bools(v) => v.present.Get(dense)
      case Strs(_, idx) => idx[dense] != STR_NULL
      case Jsons(slots) => slots[dense].Some?
    }

    // One slot of each representation, against the value it stands for.

    lemma IntAt(d: nat)
      requires Valid() && rep.Ints? && d < |cells|
      ensures rep.ints.Shaped() && d < |rep.ints.values|
      ensures cells[d] == OptionalValue(rep.ints.Get(d), IntValue)
    {
    }

    lemma FloatAt(d: nat)
      requires Valid() && rep.Floats? && d < |cells|
      ensures rep.floats.Shaped() && d < |rep.floats.values|
      ensures cells[d] == OptionalValue(rep.floats.Get(d), FloatValue)
    {
    }

    lemma BoolAt(d: nat)
      requires Valid() && rep.Bools? && d < |cells|
      ensures rep.bools.Shaped() && d < |rep.bools.values|
      ensures cells[d] == OptionalValue(rep.bools.Get(d), BoolValue)
    {
    }

    lemma StrAt(d: nat)
      requires Valid() && rep.Strs? && d < |cells|
      ensures rep.dict.Shaped() && Distinct(rep.dict.View()) && d < |rep.idx|
      ensures rep.idx[d] == STR_NULL || rep.idx[d] < rep.dict.Len()
      ensures cells[d] == if rep.idx[d] == STR_NULL then Null else Str(rep.dict.Get(rep.idx[d]))
    {
    }

    /** Cover `len` slots, the new ones null. */
    method Grow(len: nat)
      requires Valid()
      modifies Repr
      ensures Valid() && Repr == old(Repr)
      ensures cells == Padded(old(cells), len) && Strings() == old(Strings())
      ensures KindOfRep(rep) == old(KindOfRep(rep))
    {
      if len > Len() {
        match rep
        case Ints(_) => GrowInts(len);
        case Floats(_) => GrowFloats(len);
        case Bools(_) => GrowBools(len);
        case Strs(d, idx) =>
          rep := Strs(d, idx + seq(len - |idx|, _ => STR_NULL));
          cells := Padded(cells, len);
        case Jsons(slots) =>
          ValuesPadded(slots, JsonValue, len - |slots|);
          rep := Jsons(slots + seq(len - |slots|, _ => None));
          cells := Padded(cells, len);
      }
    }

    method GrowInts(len: nat)
      requires Valid() && rep.Ints? && len > |cells|
      modifies Repr
      ensures Valid() && Repr == old(Repr) && rep == old(rep)
      ensures cells == Padded(old(cells), len)
    {
      var v := rep.ints;
      ValuesPadded(v.View(), IntValue, len - |v.values|);
      v.Grow(len);
      cells := Padded(cells, len);
    }

    method GrowFloats(len: nat)
      requires Valid() && rep.Floats? && len > |cells|
      modifies Repr
      ensures Valid() && Repr == old(Repr) && rep == old(rep)
      ensures cells == Padded(old(cells), len)
    {
      var v := rep.floats;
      ValuesPadded(v.View(), FloatValue, len - |v.values|);
      v.Grow(len);
      cells := Padded(cells, len);
    }

    method GrowBools(len: nat)
      requires Valid() && rep.Bools? && len > |cells|
      modifies Repr
      ensures Valid() && Repr == old(Repr) && rep == old(rep)
      ensures cells == Padded(old(cells), len)
    {
      var v := rep.bools;
      ValuesPadded(v.View(), BoolValue, len - |v.values|);
      v.Grow(len);
      cells := Padded(cells, len);
    }

    /** Set one slot to null. */
    method Clear(dense: nat)
      requires Valid() && dense < |cells|
      modifies Repr
      ensures Valid() && Repr == old(Repr)
      ensures cells == old(cells)[dense := Null] && Strings() == old(Strings())
      ensures KindOfRep(rep) == old(KindOfRep(rep))
    {
      match rep
      case Ints(_) => ClearInts(dense);
      case Floats(_) => ClearFloats(dense);
      case Bools(_) => ClearBools(dense);
      case Strs(d, idx) =>
        DecodedUpdated(d.View(), d.View(), idx, dense, STR_NULL);
        rep := Strs(d, idx[dense := STR_NULL]);
        cells := cells[dense := Null];
      case Jsons(slots) =>
        ValuesUpdated(slots, JsonValue, dense, None);
        rep := Jsons(slots[dense := None]);
        cells := cells[dense := Null];
    }

    method ClearInts(dense: nat)
      requires Valid() && rep.Ints? && dense < |cells|
      modifies Repr
      ensures Valid() && Repr == old(Repr) && rep == old(rep)
      ensures cells == old(cells)[dense := Null]
    {
      var v := rep.ints;
      ValuesUpdated(v.View(), IntValue, dense, None);
      v.Set(dense, None);
      cells := cells[dense := Null];
    }

    method ClearFloats(dense: nat)
      requires Valid() && rep.Floats? && dense < |cells|
      modifies Repr
      ensures Valid() && Repr == old(Repr) && rep == old(rep)
      ensures cells == old(cells)[dense := Null]
    {
      var v := rep.floats;
      ValuesUpdated(v.View(), FloatValue, dense, None);
      v.Set(dense, None);
      cells := cells[dense := Null];
    }

    method ClearBools(dense: nat)
      requires Valid() && rep.Bools? && dense < |cells|
      modifies Repr
      ensures Valid() && Repr == old(Repr) && rep == old(rep)
      ensures cells == old(cells)[dense := Null]
    {
      var v := rep.bools;
      ValuesUpdated(v.View(), BoolValue, dense, None);
      v.Set(dense, None);
      cells := cells[dense := Null];
    }

    /** Convert to the exact fallback in place: the representation changes and no value does. */
    method DegradeToJson()
      requires Valid()
      modifies this`rep
      ensures Valid() && rep.Jsons?
    {
      var slots: seq<Option<Value>> := [];
      var n, d := Len(), 0;
      while d < n
        invariant 0 <= d <= n == |cells| && |slots| == d
        invariant forall i :: 0 <= i < d ==> slots[i] == CellOf(cells[i])
      {
        slots := slots + [GetJsonOpt(d)];
        d := d + 1;
      }
      rep := Jsons(slots);
    }

    /** Set one slot, degrading the column when the value's kind is not the column's. */
    method Set(dense: nat, value: Value)
      requires Valid() && dense < |cells|
      modifies Repr
      ensures Valid() && Repr == old(Repr)
      ensures old(Strings()) < STR_NULL || !value.Str? ==> cells == old(cells)[dense := value]
      // A full dictionary: the slot reads as what the string's truncated position stands for.
      ensures old(rep.Strs?) && value.Str? ==> rep.Strs? && Coded(rep.dict, value.s, dense, old(cells), cells)
      ensures Strings() <= old(Strings()) + 1
      ensures KindOfRep(rep) == old(if value == Null || Accepts(KindOf(value)) then KindOfRep(rep) else KOther)
      decreases !rep.Jsons?
    {
      if value == Null {
        Clear(dense);
      } else if Accepts(KindOf(value)) {
        SetSame(dense, value);
      } else {
        DegradeToJson();
        Set(dense, value);
      }
    }

    /** Whether a value of this kind goes into the column as it is. */
    predicate Accepts(kind: Kind)
      reads this
    {
      match rep
      case Ints(_) => kind == KInt
      case Floats(_) => kind == KFloat
      case Bools(_) => kind == KBool
      case Strs(_, _) => kind == KStr
      case Jsons(_) => true
    }

    method SetSame(dense: nat, value: Value)
      requires Valid() && dense < |cells|
      requires value != Null && Accepts(KindOf(value))
      modifies Repr
      ensures Valid() && Repr == old(Repr)
      ensures old(Strings()) < STR_NULL || !value.Str? ==> cells == old(cells)[dense := value]
      ensures rep.Strs? && value.Str? ==> Coded(rep.dict, value.s, dense, old(cells), cells)
      ensures Strings() <= old(Strings()) + 1
      ensures KindOfRep(rep) == old(KindOfRep(rep))
    {
      match rep
      case Ints(_) => SetInt(dense, value.n.i);
      case Floats(_) => SetFloat(dense, value.n.f);
      case Bools(_) => SetBool(dense, value.b);
      case Strs(_, _) => SetString(dense, value.s);
      case Jsons(_) => SetJson(dense, value);
    }

    method SetInt(dense: nat, value: i64)
      requires Valid() && dense < |cells| && rep.Ints?
      modifies Repr
      ensures Valid() && Repr == old(Repr) && rep == old(rep)
      ensures cells == old(cells)[dense := IntValue(value)]
    {
      var v := rep.ints;
      ValuesUpdated(v.View(), IntValue, dense, Some(value));
      v.Set(dense, Some(value));
      cells := cells[dense := IntValue(value)];
    }

    method SetFloat(dense: nat, value: f64)
      requires Valid() && dense < |cells| && rep.Floats?
      modifies Repr
      ensures Valid() && Repr == old(Repr) && rep == old(rep)
      ensures cells == old(cells)[dense := FloatValue(value)]
    {
      var v := rep.floats;
      ValuesUpdated(v.View(), FloatValue, dense, Some(value));
      v.Set(dense, Some(value));
      cells := cells[dense := FloatValue(value)];
    }

    method SetBool(dense: nat, value: bool)
      requires Valid() && dense < |cells| && rep.Bools?
      modifies Repr
      ensures Valid() && Repr == old(Repr) && rep == old(rep)
      ensures cells == old(cells)[dense := Bool(value)]
    {
      var v := rep.bools;
      var b: byte := if value then 1 else 0;
      ValuesUpdated(v.View(), BoolValue, dense, Some(b));
      v.Set(dense, Some(b));
      cells := cells[dense := Bool(value)];
    }

    method SetString(dense: nat, s: Text)
      requires Valid() && rep.Strs? && dense < |cells|
      modifies Repr
      ensures Valid() && Repr == old(Repr) && rep.Strs?
      ensures old(Strings()) < STR_NULL ==> cells == old(cells)[dense := Str(s)]
      ensures Coded(rep.dict, s, dense, old(cells), cells)
      ensures Strings() <= old(Strings()) + 1
    {
      var d, idx := rep.dict, rep.idx;
      ghost var before := d.View();
      var code := d.Intern(s);
      DecodedUpdated(before, d.View(), idx, dense, code);
      rep := Strs(d, idx[dense := code]);
      cells := cells[dense := ReadCode(d.View(), code)];
    }

    method SetJson(dense: nat, value: Value)
      requires Valid() && rep.Jsons? && value != Null && dense < |cells|
      modifies this`rep, this`cells
      ensures Valid() && rep.Jsons?
      ensures cells == old(cells)[dense := value]
    {
      ValuesUpdated(rep.slots, JsonValue, dense, Some(value));
      rep := Jsons(rep.slots[dense := Some(value)]);
      cells := cells[dense := value];
    }
  }

  // ---------------------------------------------------------------- the streaming builder

  predicate AllNone(slots: seq<Option<Value>>) {
    forall i :: 0 <= i < |slots| ==> slots[i] == None
  }

  lemma PaddedByOne(s: seq<Value>, n: nat)
    requires |s| <= n
    ensures var p := Padded(s, n + 1); |p| == n + 1 && p[n] == Null && p[..n] == s + Nulls(n - |s|)
  {
  }

  /** Accumulates one property's values slot by slot, choosing the column kind as it goes. */
  class ColumnBuilder {
    const col: PropColumn

    ghost predicate Valid()
      reads col, col.Repr
      ensures Valid() ==> col.Valid() && col in col.Repr
    {
      col.Valid() && col.Strings() <= |col.cells| && Inferred(KindOfRep(col.rep), col.cells)
    }

    constructor ()
      ensures Valid() && fresh(col) && fresh(col.Repr) && col.cells == []
    {
      col := new PropColumn.Json(0);
    }

    /** Whether no value was set yet. */
    predicate Untyped()
      requires col.Valid()
      reads col, col.Repr
    {
      col.rep.Jsons? && AllNone(col.rep.slots)
    }

    lemma UntypedMeansAllNull()
      requires col.Valid() && col.rep.Jsons?
      ensures Untyped() <==> !SomeValue(col.cells)
      ensures Untyped() ==> col.cells == Nulls(|col.cells|)
    {
      var slots := col.rep.slots;
      if !Untyped() {
        var i :| 0 <= i < |slots| && slots[i] != None;
        assert col.cells[i] != Null;
      }
    }

    /** Give an all-null column the kind of its first value. */
    method PickKind(kind: Kind)
      requires col.Valid() && kind != KNull && Untyped()
      modifies col
      ensures col.Valid() && fresh(col.Repr - old(col.Repr)) && col.cells == old(col.cells)
      ensures col.Strings() == 0 && KindOfRep(col.rep) == if Typed(kind) then kind else KOther
    {
      UntypedMeansAllNull();
      var n := |col.rep.slots|;
      if kind == KInt {
        PickInt(n);
      } else if kind == KFloat {
        ValuesOfNones(n, FloatValue);
        var v := new Nullable<f64>.WithLen(n, Double(false, 0, 0));
        col.rep := Floats(v);
        col.Repr := col.Repr + {v, v.present};
      } else if kind == KBool {
        ValuesOfNones(n, BoolValue);
        var v := new Nullable<byte>.WithLen(n, 0);
        col.rep := Bools(v);
        col.Repr := col.Repr + {v, v.present};
      } else if kind == KStr {
        var d := new StrDict();
        col.rep := Strs(d, seq(n, _ => STR_NULL));
        col.Repr := col.Repr + {d};
      }
    }

    /** Make an all-null column one of integers. */
    method PickInt(n: nat)
      requires col.Valid() && col.cells == Nulls(n)
      modifies col
      ensures col.Valid() && fresh(col.Repr - old(col.Repr)) && col.cells == old(col.cells)
      ensures col.rep.Ints?
    {
      ValuesOfNones(n, IntValue);
      var v := new Nullable<i64>.WithLen(n, 0);
      col.rep := Ints(v);
      col.Repr := col.Repr + {v, v.present};
    }

    /** Record `value` at `dense`, at or past the end of what was pushed; the gap reads as null. */
    method Push(dense: nat, value: Value)
      requires Valid() && |col.cells| <= dense
      modifies col.Repr
      ensures Valid() && fresh(col.Repr - old(col.Repr))
      ensures |col.cells| == dense + 1 && col.cells[..dense] == old(col.cells) + Nulls(dense - |old(col.cells)|)
      ensures old(col.Strings()) < STR_NULL || !value.Str? ==> col.cells[dense] == value
    {
      hide *;
      Parts();
      InferredPadded(KindOfRep(col.rep), col.cells, dense + 1);
      PaddedByOne(col.cells, dense);
      col.Grow(dense + 1);
      FromParts();
      if value != Null {
        Place(dense, value);
      }
    }

    lemma Parts()
      requires Valid()
      ensures col.Valid() && col.Strings() <= |col.cells| && Inferred(KindOfRep(col.rep), col.cells)
    {
    }

    lemma FromParts()
      requires col.Valid() && col.Strings() <= |col.cells| && Inferred(KindOfRep(col.rep), col.cells)
      ensures Valid()
    {
    }

    /** Set the last slot, an all-null column taking the kind of the value first. */
    method Place(dense: nat, value: Value)
      requires Valid() && value != Null && dense + 1 == |col.cells|
      requires col.cells[dense] == Null && col.Strings() <= dense
      modifies col.Repr
      ensures Valid() && fresh(col.Repr - old(col.Repr))
      ensures |col.cells| == dense + 1 && col.cells[..dense] == old(col.cells[..dense])
      ensures old(col.Strings()) < STR_NULL || !value.Str? ==> col.cells[dense] == value
    {
      ghost var before, strings := col.cells, col.Strings();
      InferredSet(KindOfRep(col.rep), col.cells, dense, value);
      if col.rep.Jsons? {
        UntypedMeansAllNull();
      }
      if Untyped() {
        PickKind(KindOf(value));
      }
      col.Set(dense, value);
      if strings >= STR_NULL && value.Str? {
        InferredCode(before, col.cells, dense);
      }
    }

    /** The finished column over `n` slots. It is the fallback exactly when no typed column could
      * hold the values; all-null integers when nothing was ever set.
      */
    method Finish(n: nat) returns (c: PropColumn)
      requires Valid() && |col.cells| <= n
      modifies col.Repr
      ensures c == col && c.Valid() && fresh(c.Repr - old(col.Repr))
      ensures c.cells == Padded(old(col.cells), n) && |c.cells| == n && c.Strings() <= n
      ensures c.rep.Jsons? <==> Mixed(c.cells)
      ensures !SomeValue(c.cells) ==> c.rep.Ints?
    {
      InferredPadded(KindOfRep(col.rep), col.cells, n);
      col.Grow(n);
      if col.rep.Jsons? {
        UntypedMeansAllNull();
      }
      if Untyped() {
        PickInt(n);
        assert AllOfKind(col.cells, KInt);
      }
      c := col;
    }
  }
}
