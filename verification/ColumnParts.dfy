/** The building blocks of a typed column: a packed bitmap, nullable values and a string dictionary. */
module ColumnParts {
  import opened Words
  import opened Json

  // ---------------------------------------------------------------- packed bits

  /** The fewest words that hold `len` bits. */
  function WordsFor(len: nat): (n: nat)
    ensures len <= 64 * n < len + 64
  {
    (len + 63) / 64
  }

  /** Bit `i` of packed words. */
  predicate Bit(words: seq<u64>, i: nat)
    requires i < 64 * |words|
  {
    TestBit(words[i / 64], i % 64)
  }

  /** No bit at or past `len` is set. The code relies on this when it grows a bitmap. */
  ghost predicate TailClear(words: seq<u64>, len: nat) {
    forall i :: len <= i < 64 * |words| ==> !Bit(words, i)
  }

  function Bits(words: seq<u64>, len: nat): seq<bool>
    requires |words| == WordsFor(len)
  {
    seq(len, i requires 0 <= i < len => Bit(words, i))
  }

  /** The words with bit `i` written. */
  function WithBit(words: seq<u64>, i: nat, on: bool): seq<u64>
    requires i < 64 * |words|
  {
    Pow2Values();
    SetBitBound(words[i / 64], i % 64, on, 64);
    words[i / 64 := SetBit(words[i / 64], i % 64, on)]
  }

  lemma BitOfWritten(words: seq<u64>, i: nat, on: bool, j: nat)
    requires i < 64 * |words| && j < 64 * |words|
    ensures Bit(WithBit(words, i, on), j) == if i == j then on else Bit(words, j)
  {
    TestSetBit(words[i / 64], i % 64, on, j % 64);
  }

  lemma BitsOfZeros(words: seq<u64>, i: nat)
    requires i < 64 * |words| && words[i / 64] == 0
    ensures !Bit(words, i)
  {
    TestBitOfZero(i % 64);
  }

  /** A bit per slot, packed into 64-bit words. */
  class Bitmap {
    var words: seq<u64>
    var len: nat

    /** What `FromWords` checks. */
    ghost predicate Shaped()
      reads this
    {
      |words| == WordsFor(len)
    }

    ghost predicate Valid()
      reads this
    {
      Shaped() && TailClear(words, len)
    }

    ghost function View(): seq<bool>
      reads this
      requires Shaped()
    {
      Bits(words, len)
    }

    constructor Zeroed(len: nat)
      ensures Valid() && View() == seq(len, _ => false)
    {
      this.words := seq(WordsFor(len), _ => 0);
      this.len := len;
      new;
      forall i | 0 <= i < 64 * |words|
        ensures !Bit(words, i)
      {
        BitsOfZeros(words, i);
      }
    }

    constructor Wrap(words: seq<u64>, len: nat)
      requires |words| == WordsFor(len)
      ensures Shaped() && this.words == words && this.len == len
    {
      this.words := words;
      this.len := len;
    }

    /** Wrap mapped words covering `len` bits; `None` when the word count does not fit the length. */
    static method FromWords(words: seq<u64>, len: nat) returns (r: Option<Bitmap>)
      ensures r.Some? <==> |words| == WordsFor(len)
      ensures r.Some? ==> fresh(r.value) && r.value.Shaped() && r.value.words == words && r.value.len == len
    {
      if |words| == WordsFor(len) {
        var b := new Bitmap.Wrap(words, len);
        r := Some(b);
      } else {
        r := None;
      }
    }

    function Get(i: nat): (on: bool)
      requires Shaped() && i < len
      reads this
      ensures on == View()[i]
    {
      Bit(words, i)
    }

    method Set(i: nat, on: bool)
      requires Shaped() && i < len
      modifies this`words
      ensures Shaped() && View() == old(View())[i := on]
      ensures old(Valid()) ==> Valid()
    {
      forall j | 0 <= j < 64 * |words|
        ensures Bit(WithBit(words, i, on), j) == if i == j then on else Bit(words, j)
      {
        BitOfWritten(words, i, on, j);
      }
      words := WithBit(words, i, on);
    }

    /** Cover `newLen` bits. What the new positions read as is whatever the last word held there. */
    method Grow(newLen: nat)
      requires Shaped()
      modifies this
      ensures Shaped() && len == if newLen > old(len) then newLen else old(len)
      ensures View()[..old(len)] == old(View())
      ensures forall i :: old(len) <= i < len ==> View()[i] == (i < 64 * |old(words)| && Bit(old(words), i))
      ensures old(Valid()) ==> Valid() && View() == old(View()) + seq(len - old(len), _ => false)
    {
      if newLen > len {
        words := words + seq(WordsFor(newLen) - |words|, _ => 0);
        len := newLen;
        forall i | 0 <= i < 64 * |words|
          ensures Bit(words, i) == (i < 64 * |old(words)| && Bit(old(words), i))
        {
          if i >= 64 * |old(words)| {
            BitsOfZeros(words, i);
          }
        }
      }
    }
  }

  // ---------------------------------------------------------------- nullable values

  /** A column of plain values with a presence bit per slot. */
  class Nullable<T> {
    const present: Bitmap
    const default: T
    var values: seq<T>

    ghost predicate Shaped()
      reads this, present
    {
      present.Shaped() && present.len == |values|
    }

    ghost predicate Valid()
      reads this, present
    {
      Shaped() && present.Valid()
    }

    ghost function View(): seq<Option<T>>
      reads this, present
      requires Shaped()
    {
      seq(|values|, i requires 0 <= i < |values| reads this, present requires Shaped() =>
        if present.View()[i] then Some(values[i]) else None)
    }

    constructor WithLen(len: nat, default: T)
      ensures Valid() && fresh(present) && this.default == default
      ensures View() == seq(len, _ => None) && values == seq(len, _ => default)
    {
      var p := new Bitmap.Zeroed(len);
      present := p;
      this.default := default;
      values := seq(len, _ => default);
    }

    constructor Wrap(present: Bitmap, values: seq<T>, default: T)
      requires present.Shaped() && present.len == |values|
      ensures Shaped() && this.present == present && this.values == values && this.default == default
    {
      this.present := present;
      this.values := values;
      this.default := default;
    }

    /** Pair mapped parts; `None` when their lengths disagree. */
    static method FromParts(present: Bitmap, values: seq<T>, default: T) returns (r: Option<Nullable<T>>)
      requires present.Shaped()
      ensures r.Some? <==> present.len == |values|
      ensures r.Some? ==> fresh(r.value) && r.value.Shaped() && r.value.present == present
      ensures r.Some? ==> r.value.values == values && r.value.default == default
    {
      if present.len == |values| {
        var n := new Nullable.Wrap(present, values, default);
        r := Some(n);
      } else {
        r := None;
      }
    }

    function Get(i: nat): (v: Option<T>)
      requires Shaped() && i < |values|
      reads this, present
      ensures v == View()[i]
    {
      if present.Get(i) then Some(values[i]) else None
    }

    method Set(i: nat, v: Option<T>)
      requires Valid() && i < |values|
      modifies this`values, present
      ensures Valid() && View() == old(View())[i := v]
      ensures values == if v.Some? then old(values)[i := v.value] else old(values)
    {
      match v
      case Some(x) =>
        values := values[i := x];
        present.Set(i, true);
      case None =>
        present.Set(i, false);
    }

    method Grow(len: nat)
      requires Valid()
      modifies this`values, present
      ensures Valid()
      ensures View() == if len > |old(values)| then old(View()) + seq(len - |old(values)|, _ => None) else old(View())
      ensures len <= |old(values)| ==> values == old(values)
      ensures len > |old(values)| ==> values == old(values) + seq(len - |old(values)|, _ => default)
    {
      if len > |values| {
        values := values + seq(len - |values|, _ => default);
        present.Grow(len);
      }
    }
  }

  // ---------------------------------------------------------------- the string dictionary

  const STR_NULL: u32 := U32_MAX
  const CODES: nat := U32_MAX + 1

  /** String `i` lies between offsets `i` and `i + 1`. */
  ghost predicate DictShaped(offsets: seq<nat>, bytes: seq<byte>) {
    && |offsets| >= 1 && offsets[0] == 0 && offsets[|offsets| - 1] == |bytes|
    && forall i, j :: 0 <= i <= j < |offsets| ==> offsets[i] <= offsets[j]
  }

  function DictGet(offsets: seq<nat>, bytes: seq<byte>, i: nat): Text
    requires i + 1 < |offsets| && offsets[i] <= offsets[i + 1] <= |bytes|
  {
    bytes[offsets[i]..offsets[i + 1]]
  }

  ghost function Entries(offsets: seq<nat>, bytes: seq<byte>): seq<Text>
    requires DictShaped(offsets, bytes)
  {
    seq(|offsets| - 1, i requires 0 <= i < |offsets| - 1 => DictGet(offsets, bytes, i))
  }

  ghost predicate Distinct<T(!new)>(s: seq<T>) {
    forall i, j :: 0 <= i < j < |s| ==> s[i] != s[j]
  }

  /** The interning map lists every entry, under its position truncated to 32 bits. */
  ghost predicate IndexesEntries(lookup: map<Text, u32>, entries: seq<Text>) {
    && (forall i :: 0 <= i < |entries| ==> entries[i] in lookup && lookup[entries[i]] == i % CODES)
    && (forall s :: s in lookup ==> s in entries)
  }

  lemma IndexesOneMore(lookup: map<Text, u32>, entries: seq<Text>, s: Text)
    requires IndexesEntries(lookup, entries) && s !in entries
    ensures IndexesEntries(lookup[s := |entries| % CODES], entries + [s])
  {
    forall t | t in lookup[s := |entries| % CODES]
      ensures t in entries + [s]
    {
      assert (entries + [s])[|entries|] == s;
    }
  }

  /** The map's code for a listed string, and that it is the position while positions fit 32 bits. */
  lemma LookedUp(lookup: map<Text, u32>, entries: seq<Text>, s: Text)
    requires IndexesEntries(lookup, entries) && s in lookup
    ensures exists i :: 0 <= i < |entries| && entries[i] == s && lookup[s] == i % CODES
    ensures |entries| < STR_NULL ==> lookup[s] < |entries| && entries[lookup[s]] == s
  {
    var i :| 0 <= i < |entries| && entries[i] == s;
    assert lookup[entries[i]] == i % CODES;
    SmallCode(i);
  }

  lemma SmallCode(i: nat)
    ensures i <= STR_NULL ==> i % CODES == i
  {
  }

  lemma AppendedEntry(offsets: seq<nat>, bytes: seq<byte>, s: Text)
    requires DictShaped(offsets, bytes)
    ensures DictShaped(offsets + [|bytes + s|], bytes + s)
    ensures Entries(offsets + [|bytes + s|], bytes + s) == Entries(offsets, bytes) + [s]
  {
    var o, b := offsets + [|bytes + s|], bytes + s;
    assert DictShaped(o, b);
    forall i | 0 <= i < |offsets|
      ensures Entries(o, b)[i] == (Entries(offsets, bytes) + [s])[i]
    {
      if i < |offsets| - 1 {
        assert offsets[i + 1] <= |bytes|;
        assert b[offsets[i]..offsets[i + 1]] == bytes[offsets[i]..offsets[i + 1]];
      } else {
        assert b[|bytes|..] == s;
      }
    }
  }

  /** The distinct strings of a dictionary-encoded column. */
  class StrDict {
    var offsets: seq<nat>
    var bytes: seq<byte>
    var lookup: Option<map<Text, u32>>

    /** What `FromParts` checks. */
    ghost predicate Shaped()
      reads this
    {
      DictShaped(offsets, bytes)
    }

    /** The dictionary is injective, and a present interning map is exact. */
    ghost predicate Valid()
      reads this
    {
      && Shaped() && Distinct(View())
      && (lookup.Some? ==> IndexesEntries(lookup.value, View()))
    }

    ghost function View(): seq<Text>
      reads this
      requires Shaped()
    {
      Entries(offsets, bytes)
    }

    constructor ()
      ensures Valid() && View() == []
    {
      offsets := [0];
      bytes := [];
      lookup := Some(map[]);
    }

    constructor Wrap(offsets: seq<nat>, bytes: seq<byte>)
      requires DictShaped(offsets, bytes)
      ensures Shaped() && this.offsets == offsets && this.bytes == bytes && lookup == None
    {
      this.offsets := offsets;
      this.bytes := bytes;
      lookup := None;
    }

    /** Wrap mapped parts; `None` unless the offsets never decrease, from 0 to the byte length. */
    static method FromParts(offsets: seq<nat>, bytes: seq<byte>) returns (r: Option<StrDict>)
      ensures r.Some? <==> DictShaped(offsets, bytes)
      ensures r.Some? ==> fresh(r.value) && r.value.Shaped() && r.value.offsets == offsets && r.value.bytes == bytes
    {
      if |offsets| == 0 || offsets[0] != 0 || offsets[|offsets| - 1] != |bytes| {
        return None;
      }
      var w := 0;
      while w + 1 < |offsets|
        invariant 0 <= w < |offsets|
        invariant forall i, j :: 0 <= i <= j <= w ==> offsets[i] <= offsets[j]
      {
        if offsets[w] > offsets[w + 1] {
          return None;
        }
        w := w + 1;
      }
      var d := new StrDict.Wrap(offsets, bytes);
      r := Some(d);
    }

    function Len(): nat
      requires Shaped()
      reads this
    {
      |offsets| - 1
    }

    function Get(i: nat): (s: Text)
      requires Shaped() && i < Len()
      reads this
      ensures s == View()[i]
    {
      DictGet(offsets, bytes, i)
    }

    /** Rebuild the interning map from the entries, a later entry overriding an earlier one. */
    method BuildLookup()
      requires Shaped() && Distinct(View())
      modifies this`lookup
      ensures Valid() && lookup.Some?
    {
      var m: map<Text, u32> := map[];
      var i := 0;
      while i < Len()
        invariant 0 <= i <= Len()
        invariant IndexesEntries(m, View()[..i])
      {
        IndexesOneMore(m, View()[..i], View()[i]);
        m := m[Get(i) := i % CODES];
        i := i + 1;
        assert View()[..i] == View()[..i - 1] + [View()[i - 1]];
      }
      assert View()[..i] == View();
      lookup := Some(m);
    }

    /** The code of `s`, appending it when new. The code is the position truncated to 32 bits. */
    method Intern(s: Text) returns (code: u32)
      requires Valid()
      modifies this
      ensures Valid()
      ensures View() == if s in old(View()) then old(View()) else old(View()) + [s]
      ensures exists i :: 0 <= i < |View()| && View()[i] == s && code == i % CODES
      ensures |old(View())| < STR_NULL ==> code < |View()| && View()[code] == s
    {
      if lookup == None {
        BuildLookup();
      }
      if s in lookup.value {
        LookedUp(lookup.value, View(), s);
        return lookup.value[s];
      }
      var n := Len();
      SmallCode(n);
      AppendedEntry(offsets, bytes, s);
      bytes := bytes + s;
      offsets := offsets + [|bytes|];
      code := n % CODES;
      IndexesOneMore(lookup.value, old(View()), s);
      lookup := Some(lookup.value[s := code]);
      assert View()[n] == s;
    }
  }

  /** What a string slot holding `code` reads as. */
  ghost function ReadCode(entries: seq<Text>, code: u32): Value {
    if code == STR_NULL || code >= |entries| then Null else Str(entries[code])
  }

  /** A string reads back through its 32-bit code exactly while its position is below `STR_NULL`. */
  lemma ReadsBackIff(entries: seq<Text>, i: nat)
    requires Distinct(entries) && i < |entries|
    ensures ReadCode(entries, i % CODES) == Str(entries[i]) <==> i < STR_NULL
  {
    var code := i % CODES;
    if i >= STR_NULL && code != STR_NULL {
      assert code < i;
      assert entries[code] != entries[i];
    }
  }
}
