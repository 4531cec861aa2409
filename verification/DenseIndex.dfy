/** Entity id to dense index: the inverse of the dense-to-id array, without a table where none is needed. */
module DenseIndex {
  import opened Words
  import opened Json
  import opened ColumnParts

  datatype IndexRep =
    | Contiguous(first: u64, n: u32)   // the ids are first, first + 1, ..., first + n - 1
    | Hashed(m: map<u64, u32>)

  function Lookup(rep: IndexRep, id: u64): Option<u32> {
    match rep
    case Contiguous(first, n) =>
      // checked_sub, then the bounds check
      if id < first then None else if id - first < n then Some(id - first) else None
    case Hashed(m) => if id in m then Some(m[id]) else None
  }

  function Size(rep: IndexRep): nat {
    match rep
    case Contiguous(_, n) => n
    case Hashed(m) => |m|
  }

  /** `rep` finds exactly the listed ids, each at its own position. */
  ghost predicate Exact(rep: IndexRep, ids: seq<u64>) {
    && Size(rep) == |ids|
    && (forall d :: 0 <= d < |ids| ==> Lookup(rep, ids[d]) == Some(d))
    && (forall id: u64 :: Lookup(rep, id).Some? ==>
          Lookup(rep, id).value < |ids| && ids[Lookup(rep, id).value] == id)
  }

  /** `rep` finds each listed id at a position that holds it, and nothing else. */
  ghost predicate Finds(rep: IndexRep, ids: seq<u64>) {
    && (forall d :: 0 <= d < |ids| ==> Lookup(rep, ids[d]).Some?)
    && (forall id: u64 :: Lookup(rep, id).Some? ==>
          Lookup(rep, id).value < |ids| && ids[Lookup(rep, id).value] == id)
  }

  /** The test `from_ids` makes: each id follows the one before, modulo 2^64. */
  ghost predicate IsRun(ids: seq<u64>) {
    forall d :: 0 <= d < |ids| ==> ids[d] == (ids[0] + d) % U64_LIMIT
  }

  ghost predicate WrapsAround(ids: seq<u64>) {
    |ids| > 0 && IsRun(ids) && ids[0] + |ids| > U64_LIMIT
  }

  /** `a.wrapping_add(b)`. */
  function WrappingSum(a: u64, b: u32): (s: u64)
    ensures s == if a + b < U64_LIMIT then a + b else a + b - U64_LIMIT
  {
    (a + b) % U64_LIMIT
  }

  /** A position as a 32-bit index. */
  function Truncated(d: nat): (t: u32)
    ensures d < CODES ==> t == d
    ensures exists k: nat :: d == t + Times(CODES, k)
  {
    assert d == d % CODES + Times(CODES, d / CODES);
    d % CODES
  }

  class Index {
    var rep: IndexRep

    constructor FromIds(ids: seq<u64>)
      ensures rep.Contiguous? <==> IsRun(ids) && |ids| <= U32_MAX
      ensures rep.Contiguous? ==> rep == Contiguous(if ids == [] then 0 else ids[0], |ids|)
      ensures rep.Hashed? ==> Tabulates(rep.m, ids)
      ensures |ids| <= U32_MAX && !WrapsAround(ids) ==> Finds(rep, ids)
      ensures |ids| <= U32_MAX && !WrapsAround(ids) && Distinct(ids) ==> Exact(rep, ids)
    {
      var run := false;
      if |ids| <= U32_MAX {
        run := AllFollow(ids);
      }
      if run {
        rep := Contiguous(if ids == [] then 0 else ids[0], |ids|);
        RunIsExact(ids);
      } else {
        var m := TableOf(ids);
        rep := Hashed(m);
        hide *;
        if |ids| <= U32_MAX {
          TableFinds(m, ids);
        }
      }
    }

    function Get(id: u64): Option<u32>
      reads this
    {
      Lookup(rep, id)
    }

    /** Record that `id` has the next dense index. It then finds it, unless the index does not fit 32 bits
      * or the id 0 continues a run that ends at the largest id.
      */
    method Push(id: u64, ghost ids: seq<u64>)
      requires Exact(rep, ids) && Distinct(ids) && id !in ids
      modifies this
      ensures Exact(rep, ids + [id]) <==> |ids| <= U32_MAX && !old(PastLargest(rep, id))
    {
      AtMostCodes(rep, ids);
      hide Exact;
      hide Distinct;
      hide Lookup;
      hide WrappingSum;
      hide Truncated;
      match rep
      case Contiguous(first, n) =>
        RunMembers(first, n, ids);
        if WrappingSum(first, n) == id && n < U32_MAX {
          if first + n < U64_LIMIT {
            RunGrows(first, n, ids, id);
          } else {
            PastLargestIsLost(first, n, ids);
          }
          rep := Contiguous(first, n + 1);
        } else {
          var m := ToTable(first, n, ids);
          TableGrows(m, ids, id);
          rep := Hashed(m[id := n]);
        }
      case Hashed(m) =>
        if |m| <= U32_MAX {
          TableGrows(m, ids, id);
        } else {
          NoRoom(Hashed(m[id := 0]), ids + [id]);
        }
        rep := Hashed(m[id := Truncated(|m|)]);
    }
  }

  /** Whether every id follows the one before. */
  method AllFollow(ids: seq<u64>) returns (run: bool)
    ensures run <==> IsRun(ids)
  {
    var d := 0;
    while d < |ids| && ids[d] == (ids[0] + d) % U64_LIMIT
      invariant 0 <= d <= |ids|
      invariant forall i :: 0 <= i < d ==> ids[i] == (ids[0] + i) % U64_LIMIT
    {
      d := d + 1;
    }
    run := d == |ids|;
  }

  /** The id continues a run that ends at the largest id. */
  predicate PastLargest(rep: IndexRep, id: u64) {
    rep.Contiguous? && rep.n < U32_MAX && rep.first + rep.n == U64_LIMIT && id == 0
  }

  /** The table lists each id under one of its positions, truncated to 32 bits. */
  ghost predicate Tabulates(m: map<u64, u32>, ids: seq<u64>) {
    && (forall k :: k in m <==> k in ids)
    && (forall k :: k in m ==> exists d :: 0 <= d < |ids| && ids[d] == k && m[k] == Truncated(d))
    && (Distinct(ids) ==> |m| == |ids|)
  }

  /** A later position of an id overrides an earlier one. */
  method TableOf(ids: seq<u64>) returns (m: map<u64, u32>)
    ensures Tabulates(m, ids)
  {
    NothingTabulated();
    hide *;
    m := map[];
    var i := 0;
    assert ids[..0] == [];
    while i < |ids|
      invariant 0 <= i <= |ids|
      invariant Tabulates(m, ids[..i])
    {
      TabulatesOneMore(m, ids[..i], ids[i]);
      assert ids[..i + 1] == ids[..i] + [ids[i]];
      m := m[ids[i] := Truncated(i)];
      i := i + 1;
    }
    assert ids[..i] == ids;
  }

  lemma NothingTabulated()
    ensures Tabulates(map[], [])
  {
  }

  lemma TabulatesOneMore(m: map<u64, u32>, ids: seq<u64>, id: u64)
    requires Tabulates(m, ids)
    ensures Tabulates(m[id := Truncated(|ids|)], ids + [id])
  {
    hide Truncated;
    var m', all := m[id := Truncated(|ids|)], ids + [id];
    forall k | k in m'
      ensures exists d :: 0 <= d < |all| && all[d] == k && m'[k] == Truncated(d)
    {
      if k == id {
        assert all[|ids|] == id;
      } else {
        var d :| 0 <= d < |ids| && ids[d] == k && m[k] == Truncated(d);
        assert all[d] == k;
      }
    }
    if Distinct(all) {
      forall d | 0 <= d < |ids|
        ensures ids[d] != id
      {
        assert all[d] == ids[d] && all[|ids|] == id;
      }
      forall i, j | 0 <= i < j < |ids|
        ensures ids[i] != ids[j]
      {
        assert all[i] == ids[i] && all[j] == ids[j];
      }
    }
  }

  /** While positions fit 32 bits, a table finds what it lists. */
  lemma TableFinds(m: map<u64, u32>, ids: seq<u64>)
    requires Tabulates(m, ids) && |ids| <= CODES
    ensures Finds(Hashed(m), ids)
    ensures Distinct(ids) ==> Exact(Hashed(m), ids)
  {
    hide Truncated;
    forall k | k in m
      ensures m[k] < |ids| && ids[m[k]] == k
    {
      var d :| 0 <= d < |ids| && ids[d] == k && m[k] == Truncated(d);
    }
  }

  /** An exact index has no more ids than 32-bit numbers. */
  lemma AtMostCodes(rep: IndexRep, ids: seq<u64>)
    requires Exact(rep, ids)
    ensures Size(rep) == |ids| <= CODES
  {
    if ids != [] {
      var last: Option<u32> := Lookup(rep, ids[|ids| - 1]);
      assert last.value == |ids| - 1;
    }
  }

  lemma NoRoom(rep: IndexRep, ids: seq<u64>)
    requires |ids| > CODES
    ensures !Exact(rep, ids)
  {
    if Exact(rep, ids) {
      AtMostCodes(rep, ids);
    }
  }

  /** A run cannot continue past the largest id: the id 0 after it is not found. */
  lemma PastLargestIsLost(first: u64, n: u32, ids: seq<u64>)
    requires Exact(Contiguous(first, n), ids) && n < U32_MAX && first + n >= U64_LIMIT
    ensures first + n == U64_LIMIT && !Exact(Contiguous(first, n + 1), ids + [0])
  {
    RunMembers(first, n, ids);
    assert n > 0 && ids[n - 1] == first + (n - 1);
    assert Lookup(Contiguous(first, n + 1), (ids + [0])[n]) == None;
  }

  method ToTable(first: u64, n: u32, ghost ids: seq<u64>) returns (m: map<u64, u32>)
    requires Exact(Contiguous(first, n), ids)
    ensures Exact(Hashed(m), ids)
  {
    RunMembers(first, n, ids);
    m := map[];
    var d := 0;
    while d < n
      invariant 0 <= d <= n && |m| == d
      invariant forall k :: k in m <==> first <= k < first + d
      invariant forall k :: k in m ==> m[k] == k - first
    {
      assert ids[d] == first + d;
      m := m[first + d := d];
      d := d + 1;
    }
    forall k: u64
      ensures Lookup(Hashed(m), k) == Lookup(Contiguous(first, n), k)
    {
    }
  }

  lemma RunMembers(first: u64, n: u32, ids: seq<u64>)
    requires Exact(Contiguous(first, n), ids)
    ensures forall d :: 0 <= d < |ids| ==> ids[d] == first + d
  {
    forall d | 0 <= d < |ids|
      ensures ids[d] == first + d
    {
      assert Lookup(Contiguous(first, n), ids[d]) == Some(d);
    }
  }

  lemma ConsecutiveIsExact(first: u64, ids: seq<u64>)
    requires |ids| <= U32_MAX && forall d :: 0 <= d < |ids| ==> ids[d] == first + d
    ensures Exact(Contiguous(first, |ids|), ids)
  {
    var rep := Contiguous(first, |ids|);
    forall d | 0 <= d < |ids|
      ensures Lookup(rep, ids[d]) == Some(d)
    {
      var id := ids[d];
      assert id == first + d;
    }
  }

  lemma RunIsExact(ids: seq<u64>)
    requires |ids| <= U32_MAX && IsRun(ids)
    ensures !WrapsAround(ids) ==> Exact(Contiguous(if ids == [] then 0 else ids[0], |ids|), ids)
  {
    if ids != [] && !WrapsAround(ids) {
      forall d | 0 <= d < |ids|
        ensures ids[d] == ids[0] + d
      {
        SmallResidue(ids[0] + d);
      }
      ConsecutiveIsExact(ids[0], ids);
    }
  }

  lemma SmallResidue(n: nat)
    ensures n < U64_LIMIT ==> n % U64_LIMIT == n
  {
  }

  lemma TableGrows(m: map<u64, u32>, ids: seq<u64>, id: u64)
    requires Exact(Hashed(m), ids) && id !in ids && |ids| <= U32_MAX
    ensures Exact(Hashed(m[id := |ids|]), ids + [id])
  {
    var rep, grown := Hashed(m[id := |ids|]), ids + [id];
    assert !Lookup(Hashed(m), id).Some?;
    forall d | 0 <= d < |ids|
      ensures Lookup(rep, grown[d]) == Some(d)
    {
      assert ids[d] != id;
      assert Lookup(Hashed(m), ids[d]) == Some(d);
    }
    forall k: u64 | Lookup(rep, k).Some?
      ensures Lookup(rep, k).value < |grown| && grown[Lookup(rep, k).value] == k
    {
      if k != id {
        assert Lookup(Hashed(m), k).Some?;
      }
    }
  }

  lemma RunGrows(first: u64, n: u32, ids: seq<u64>, id: u64)
    requires Exact(Contiguous(first, n), ids) && n < U32_MAX
    requires forall d :: 0 <= d < |ids| ==> ids[d] == first + d
    requires first + n == id
    ensures Exact(Contiguous(first, n + 1), ids + [id])
  {
    ConsecutiveIsExact(first, ids + [id]);
  }

  /** A run that wraps past the largest id loses the ids after the wrap: they are listed and not found. */
  lemma WrappedIdIsLost(ids: seq<u64>)
    requires |ids| <= U32_MAX && WrapsAround(ids)
    ensures var d := U64_LIMIT - ids[0];
      0 <= d < |ids| && ids[d] == 0 && Lookup(Contiguous(ids[0], |ids|), ids[d]) == None
  {
    var d := U64_LIMIT - ids[0];
    assert ids[d] == (ids[0] + d) % U64_LIMIT;
  }
}
