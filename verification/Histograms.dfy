/** Equi-depth histograms over sorted column values, and the selectivities estimated from them.
  *
  * Selectivities are reals here: the rounding of the final double arithmetic is not modelled, the
  * rounding of a 64-bit integer to a double is (`AsF64`).
  */
module Histograms {
  import opened Json

  datatype Bucket = Bucket(lower: Value, upper: Value, distinct: nat, rows: nat)

  datatype Histogram = Histogram(buckets: seq<Bucket>, total: nat)

  // ---------------------------------------------------------------- the values a histogram describes

  /** Ascending values of one kind that a typed column holds. */
  ghost predicate Ascending(s: seq<Value>) {
    && (forall i, j :: 0 <= i < j < |s| ==> KindOf(s[i]) == KindOf(s[j]) && LessOrEqual(s[i], s[j]))
    && (forall i :: 0 <= i < |s| ==> Typed(KindOf(s[i])))
  }

  predicate BoundLe(bound: Option<Value>, v: Value) {
    bound == None || LessOrEqual(bound.value, v)
  }

  predicate BoundGe(bound: Option<Value>, v: Value) {
    bound == None || GreaterOrEqual(bound.value, v)
  }

  predicate InRange(lo: Option<Value>, up: Option<Value>, v: Value) {
    BoundLe(lo, v) && BoundGe(up, v)
  }

  /** The rows a range predicate matches. */
  function Count(s: seq<Value>, lo: Option<Value>, up: Option<Value>): nat {
    if s == [] then 0 else Count(s[1..], lo, up) + if InRange(lo, up, s[0]) then 1 else 0
  }

  lemma {:induction false} CountOfConcat(a: seq<Value>, b: seq<Value>, lo: Option<Value>, up: Option<Value>)
    ensures Count(a + b, lo, up) == Count(a, lo, up) + Count(b, lo, up)
  {
    if a == [] {
      assert a + b == b;
    } else {
      assert (a + b)[1..] == a[1..] + b;
      CountOfConcat(a[1..], b, lo, up);
    }
  }

  lemma {:induction false} CountBounds(s: seq<Value>, lo: Option<Value>, up: Option<Value>)
    ensures Count(s, lo, up) <= |s|
    ensures (forall i :: 0 <= i < |s| ==> InRange(lo, up, s[i])) ==> Count(s, lo, up) == |s|
    ensures (forall i :: 0 <= i < |s| ==> !InRange(lo, up, s[i])) ==> Count(s, lo, up) == 0
  {
    if s != [] {
      CountBounds(s[1..], lo, up);
    }
  }

  ghost predicate AllNonEmpty(parts: seq<seq<Value>>) {
    forall i :: 0 <= i < |parts| ==> parts[i] != []
  }

  // ---------------------------------------------------------------- building

  /** Adjacent positions with different values. */
  function Changes(s: seq<Value>): nat {
    if |s| < 2 then 0
    else Changes(s[..|s| - 1]) + if SameValue(s[|s| - 2], s[|s| - 1]) then 0 else 1
  }

  function BucketOf(s: seq<Value>): Bucket
    requires s != []
  {
    Bucket(s[0], s[|s| - 1], 1 + Changes(s), |s|)
  }

  /** Cut `s` into `k` parts of `depth` values, the last taking the remainder too. */
  function Parts(s: seq<Value>, depth: nat, k: nat): (parts: seq<seq<Value>>)
    requires k > 0 && depth > 0 && k * depth <= |s|
    ensures |parts| == k
    ensures AllNonEmpty(parts)
    decreases k
  {
    if k == 1 then [s] else
      assert (k - 1) * depth == k * depth - depth;
      [s[..depth]] + Parts(s[depth..], depth, k - 1)
  }

  function Clamp(n: nat, len: nat): (k: nat)
    requires len > 0
    ensures 1 <= k <= len
  {
    if n < 1 then 1 else if n > len then len else n
  }

  lemma DepthFits(len: nat, k: nat)
    requires 1 <= k <= len
    ensures len / k > 0 && k * (len / k) <= len && len == k * (len / k) + len % k
  {
    var q, r := len / k, len % k;
    assert len == q * k + r && r < k;
    assert q > 0;
  }

  ghost function BucketsOf(parts: seq<seq<Value>>): seq<Bucket>
    requires AllNonEmpty(parts)
  {
    seq(|parts|, i requires 0 <= i < |parts| => BucketOf(parts[i]))
  }

  /** The parts the histogram of `s` is built from. */
  ghost function EquiDepth(s: seq<Value>, n: nat): (parts: seq<seq<Value>>)
    ensures AllNonEmpty(parts)
  {
    if s == [] then [] else
      var k := Clamp(n, |s|);
      DepthFits(|s|, k);
      Parts(s, |s| / k, k)
  }

  method CountChanges(s: seq<Value>) returns (n: nat)
    requires s != []
    ensures n == Changes(s)
  {
    n := 0;
    var w := 0;
    while w + 1 < |s|
      invariant 0 <= w < |s|
      invariant n == Changes(s[..w + 1])
    {
      assert s[..w + 2][..w + 1] == s[..w + 1];
      if !SameValue(s[w], s[w + 1]) {
        n := n + 1;
      }
      w := w + 1;
    }
    assert s[..w + 1] == s;
  }

  /** The last `m` parts are those of the values from `start` on. */
  ghost predicate PartsLeft(sorted: seq<Value>, start: nat, depth: nat, m: nat, rest: seq<seq<Value>>) {
    && start <= |sorted| && depth > 0
    && (m == 0 ==> rest == [] && start == |sorted|)
    && (m > 0 ==> m * depth <= |sorted| - start && rest == Parts(sorted[start..], depth, m))
  }

  lemma NextCut(sorted: seq<Value>, start: nat, depth: nat, m: nat, rest: seq<seq<Value>>)
    requires m > 0 && PartsLeft(sorted, start, depth, m, rest)
    ensures var end := if m == 1 then |sorted| else start + depth;
      && start < end <= |sorted| && rest != [] && rest[0] == sorted[start..end]
      && PartsLeft(sorted, end, depth, m - 1, rest[1..])
  {
    NextPart(sorted[start..], depth, m);
    if m > 1 {
      assert sorted[start + depth..] == sorted[start..][depth..];
    }
  }

  method Build(sorted: seq<Value>, numBuckets: nat) returns (h: Histogram)
    ensures h.buckets == BucketsOf(EquiDepth(sorted, numBuckets))
    ensures h.total == |sorted|
  {
    var buckets: seq<Bucket> := [];
    var total := 0;
    if sorted != [] {
      var k := Clamp(numBuckets, |sorted|);
      var depth := |sorted| / k;
      DepthFits(|sorted|, k);
      ghost var parts := Parts(sorted, depth, k);
      ghost var done, rest: seq<seq<Value>> := [], parts;
      var start := 0;
      var i := 0;
      assert BucketsOf(done) == [];
      assert sorted[0..] == sorted && PartsLeft(sorted, start, depth, k, rest);
      assert EquiDepth(sorted, numBuckets) == parts;
      hide *;
      while i < k
        invariant 0 <= i <= k && start <= |sorted| && total == start
        invariant PartsLeft(sorted, start, depth, k - i, rest)
        invariant parts == done + rest && AllNonEmpty(done) && buckets == BucketsOf(done)
      {
        var end := if i == k - 1 then |sorted| else start + depth;
        NextCut(sorted, start, depth, k - i, rest);
        var values := sorted[start..end];
        var changes := CountChanges(values);
        BucketIs(values, changes);
        BucketsOneMore(done, values);
        buckets := buckets + [Bucket(values[0], values[|values| - 1], 1 + changes, |values|)];
        total := total + |values|;
        done, rest := done + [rest[0]], rest[1..];
        start := end;
        i := i + 1;
      }
      NothingLeft(sorted, start, depth, rest);
      assert done == parts;
    }
    h := Histogram(buckets, total);
  }

  lemma BucketIs(s: seq<Value>, changes: nat)
    requires s != [] && changes == Changes(s)
    ensures BucketOf(s) == Bucket(s[0], s[|s| - 1], 1 + changes, |s|)
  {
  }

  lemma NothingLeft(sorted: seq<Value>, start: nat, depth: nat, rest: seq<seq<Value>>)
    requires PartsLeft(sorted, start, depth, 0, rest)
    ensures rest == [] && start == |sorted|
  {
  }

  lemma BucketsOneMore(done: seq<seq<Value>>, part: seq<Value>)
    requires AllNonEmpty(done) && part != []
    ensures AllNonEmpty(done + [part]) && BucketsOf(done + [part]) == BucketsOf(done) + [BucketOf(part)]
  {
  }

  lemma NextPart(s: seq<Value>, depth: nat, k: nat)
    requires k > 0 && depth > 0 && k * depth <= |s|
    ensures Parts(s, depth, k)[0] == if k == 1 then s else s[..depth]
    ensures depth <= |s|
    ensures k > 1 ==> (k - 1) * depth <= |s| - depth && Parts(s, depth, k)[1..] == Parts(s[depth..], depth, k - 1)
  {
    assert (k - 1) * depth == k * depth - depth;
    assert k * depth >= depth;
  }

  // ---------------------------------------------------------------- estimating

  /** `Value::as_f64` of an optional bound. */
  function BoundF64(bound: Option<Value>, otherwise: real): real {
    if bound.Some? && bound.value.Num? then AsF64(bound.value.n) else otherwise
  }

  function Max(a: real, b: real): real { if a < b then b else a }

  function Min(a: real, b: real): real { if b < a then b else a }

  predicate Overlaps(b: Bucket, lo: Option<Value>, up: Option<Value>) {
    BoundLe(lo, b.upper) && BoundGe(up, b.lower)
  }

  predicate Covers(b: Bucket, lo: Option<Value>, up: Option<Value>) {
    BoundLe(lo, b.lower) && BoundGe(up, b.upper)
  }

  /** Linear interpolation between two numbers. */
  function Interpolate(bl: real, bu: real, lo: real, up: real): real {
    if bu - bl <= 0.0 then 1.0
    else
      var ol, ou := Max(lo, bl), Min(up, bu);
      if ou < ol then 0.0 else (ou - ol) / (bu - bl)
  }

  /** `estimate_bucket_overlap`: the share of a bucket inside the range. */
  function BucketOverlap(b: Bucket, lo: Option<Value>, up: Option<Value>): real {
    if Covers(b, lo, up) then 1.0
    else if b.lower.Num? && b.upper.Num? then
      var bl, bu := AsF64(b.lower.n), AsF64(b.upper.n);
      Interpolate(bl, bu, BoundF64(lo, bl), BoundF64(up, bu))
    else 0.5
  }

  /** `rows * fraction`, as repeated addition. */
  function Weighted(rows: nat, fraction: real): real {
    if rows == 0 then 0.0 else Weighted(rows - 1, fraction) + fraction
  }

  lemma {:induction false} WeightedIsProduct(rows: nat, fraction: real)
    ensures Weighted(rows, fraction) == rows as real * fraction
  {
    if rows > 0 {
      WeightedIsProduct(rows - 1, fraction);
    }
  }

  lemma {:induction false} WeightedMonotone(rows: nat, f: real, g: real)
    requires 0.0 <= f <= g <= 1.0
    ensures 0.0 <= Weighted(rows, f) <= Weighted(rows, g) <= rows as real
  {
    if rows > 0 {
      WeightedMonotone(rows - 1, f, g);
    }
  }

  function BucketRows(b: Bucket, lo: Option<Value>, up: Option<Value>): real {
    if Overlaps(b, lo, up) then Weighted(b.rows, BucketOverlap(b, lo, up)) else 0.0
  }

  function EstimatedRows(buckets: seq<Bucket>, lo: Option<Value>, up: Option<Value>): real {
    if buckets == [] then 0.0
    else EstimatedRows(buckets[..|buckets| - 1], lo, up) + BucketRows(buckets[|buckets| - 1], lo, up)
  }

  method AddBucket(rows: real, b: Bucket, lo: Option<Value>, up: Option<Value>) returns (sum: real)
    ensures sum == rows + BucketRows(b, lo, up)
  {
    hide BucketOverlap;
    hide Weighted;
    hide BoundLe;
    hide BoundGe;
    sum := rows;
    if BoundLe(lo, b.upper) && BoundGe(up, b.lower) {
      var fraction := BucketOverlap(b, lo, up);
      WeightedIsProduct(b.rows, fraction);
      sum := sum + b.rows as real * fraction;
    }
  }

  method EstimateRangeSelectivity(h: Histogram, lo: Option<Value>, up: Option<Value>) returns (sel: real)
    ensures sel == if h.total == 0 then 0.0 else EstimatedRows(h.buckets, lo, up) / h.total as real
  {
    if h.total == 0 {
      return 0.0;
    }
    var rows := 0.0;
    var i := 0;
    while i < |h.buckets|
      invariant 0 <= i <= |h.buckets|
      invariant rows == EstimatedRows(h.buckets[..i], lo, up)
    {
      rows := AddBucket(rows, h.buckets[i], lo, up);
      assert h.buckets[..i + 1][..i] == h.buckets[..i];
      i := i + 1;
    }
    assert h.buckets[..i] == h.buckets;
    sel := rows / h.total as real;
  }

  // ---------------------------------------------------------------- one bucket

  lemma InterpolateBounds(bl: real, bu: real, lo: real, up: real)
    ensures 0.0 <= Interpolate(bl, bu, lo, up) <= 1.0
  {
    var ol, ou := Max(lo, bl), Min(up, bu);
    if bu - bl > 0.0 && ou >= ol {
      QuotientBounds(ou - ol, bu - bl);
    }
  }

  lemma QuotientBounds(x: real, y: real)
    requires 0.0 <= x <= y && y > 0.0
    ensures 0.0 <= x / y <= 1.0
  {
  }

  lemma OverlapBounds(b: Bucket, lo: Option<Value>, up: Option<Value>)
    ensures 0.0 <= BucketOverlap(b, lo, up) <= 1.0
  {
    if b.lower.Num? && b.upper.Num? {
      var bl, bu := AsF64(b.lower.n), AsF64(b.upper.n);
      InterpolateBounds(bl, bu, BoundF64(lo, bl), BoundF64(up, bu));
    }
  }

  lemma RowsBounds(b: Bucket, lo: Option<Value>, up: Option<Value>)
    ensures 0.0 <= BucketRows(b, lo, up) <= b.rows as real
  {
    OverlapBounds(b, lo, up);
    WeightedMonotone(b.rows, BucketOverlap(b, lo, up), 1.0);
    WeightedMonotone(b.rows, 1.0, 1.0);
  }

  /** A bucket the range meets without covering it. */
  predicate Straddles(b: Bucket, lo: Option<Value>, up: Option<Value>) {
    Overlaps(b, lo, up) && !Covers(b, lo, up)
  }

  lemma BoundAlong(bound: Option<Value>, v: Value, w: Value)
    requires KindOf(v) == KindOf(w) && Typed(KindOf(v)) && LessOrEqual(v, w)
    ensures BoundLe(bound, v) ==> BoundLe(bound, w)
    ensures BoundGe(bound, w) ==> BoundGe(bound, v)
  {
    if bound.Some? {
      BoundTransitive(bound.value, v, w);
      CompareFlip(bound.value, v);
      CompareFlip(bound.value, w);
    }
  }

  lemma Reflexive(v: Value)
    requires Typed(KindOf(v))
    ensures LessOrEqual(v, v)
  {
    KindIsOrdered(v, v);
  }

  /** Outside the straddling buckets the estimate is exact; inside, off by no more than the bucket. */
  lemma BucketError(part: seq<Value>, lo: Option<Value>, up: Option<Value>)
    requires part != [] && Ascending(part)
    ensures var b := BucketOf(part);
      var err := BucketRows(b, lo, up) - Count(part, lo, up) as real;
      if Straddles(b, lo, up) then -(b.rows as real) <= err <= b.rows as real else err == 0.0
  {
    var b := BucketOf(part);
    RowsBounds(b, lo, up);
    WeightedIsProduct(b.rows, 1.0);
    CountBounds(part, lo, up);
    PartInRange(part, lo, up);
    hide LessOrEqual;
    hide GreaterOrEqual;
    hide Ascending;
    hide InRange;
    hide Count;
  }

  /** A covered part lies in the range, one the range does not meet lies outside it. */
  lemma PartInRange(part: seq<Value>, lo: Option<Value>, up: Option<Value>)
    requires part != [] && Ascending(part)
    ensures Covers(BucketOf(part), lo, up) ==> Overlaps(BucketOf(part), lo, up)
    ensures forall i :: 0 <= i < |part| ==>
      && (Covers(BucketOf(part), lo, up) ==> InRange(lo, up, part[i]))
      && (!Overlaps(BucketOf(part), lo, up) ==> !InRange(lo, up, part[i]))
  {
    hide LessOrEqual;
    var n := |part| - 1;
    Reflexive(part[0]);
    Reflexive(part[n]);
    BoundAlong(lo, part[0], part[n]);
    BoundAlong(up, part[0], part[n]);
    forall i | 0 <= i < |part|
      ensures BoundLe(lo, part[0]) ==> BoundLe(lo, part[i])
      ensures BoundLe(lo, part[i]) ==> BoundLe(lo, part[n])
      ensures BoundGe(up, part[n]) ==> BoundGe(up, part[i])
      ensures BoundGe(up, part[i]) ==> BoundGe(up, part[0])
    {
      assert LessOrEqual(part[0], part[i]) && LessOrEqual(part[i], part[n]);
      assert KindOf(part[0]) == KindOf(part[i]) == KindOf(part[n]);
      BoundAlong(lo, part[0], part[i]);
      BoundAlong(up, part[i], part[n]);
      BoundAlong(lo, part[i], part[n]);
      BoundAlong(up, part[0], part[i]);
    }
  }

  // ---------------------------------------------------------------- all buckets

  ghost function Concat(parts: seq<seq<Value>>): seq<Value> {
    if parts == [] then [] else Concat(parts[..|parts| - 1]) + parts[|parts| - 1]
  }

  /** The rows of the straddling buckets. */
  ghost function StraddlingRows(buckets: seq<Bucket>, lo: Option<Value>, up: Option<Value>): nat {
    if buckets == [] then 0
    else
      var last := buckets[|buckets| - 1];
      StraddlingRows(buckets[..|buckets| - 1], lo, up) + (if Straddles(last, lo, up) then last.rows else 0)
  }

  lemma AscendingParts(a: seq<Value>, b: seq<Value>)
    requires Ascending(a + b)
    ensures Ascending(a) && Ascending(b)
  {
    var s := a + b;
    forall i, j | 0 <= i < j < |a|
      ensures KindOf(a[i]) == KindOf(a[j]) && LessOrEqual(a[i], a[j])
    {
      assert s[i] == a[i] && s[j] == a[j];
    }
    forall i, j | 0 <= i < j < |b|
      ensures KindOf(b[i]) == KindOf(b[j]) && LessOrEqual(b[i], b[j])
    {
      assert s[|a| + i] == b[i] && s[|a| + j] == b[j];
    }
    forall i | 0 <= i < |a| ensures Typed(KindOf(a[i])) { assert s[i] == a[i]; }
    forall i | 0 <= i < |b| ensures Typed(KindOf(b[i])) { assert s[|a| + i] == b[i]; }
  }

  lemma {:induction false} RowsError(parts: seq<seq<Value>>, lo: Option<Value>, up: Option<Value>)
    requires AllNonEmpty(parts) && Ascending(Concat(parts))
    ensures var buckets := BucketsOf(parts);
      var err := EstimatedRows(buckets, lo, up) - Count(Concat(parts), lo, up) as real;
      -(StraddlingRows(buckets, lo, up) as real) <= err <= StraddlingRows(buckets, lo, up) as real
  {
    if parts != [] {
      var init, last := parts[..|parts| - 1], parts[|parts| - 1];
      assert BucketsOf(parts)[..|parts| - 1] == BucketsOf(init);
      AscendingParts(Concat(init), last);
      RowsError(init, lo, up);
      BucketError(last, lo, up);
      CountOfConcat(Concat(init), last, lo, up);
    }
  }

  lemma ConcatLast(init: seq<seq<Value>>, last: seq<Value>)
    ensures Concat(init + [last]) == Concat(init) + last
  {
    assert (init + [last])[..|init|] == init;
  }

  lemma {:induction false} ConcatFront(p: seq<Value>, rest: seq<seq<Value>>)
    ensures Concat([p] + rest) == p + Concat(rest)
  {
    if rest == [] {
      ConcatLast([], p);
      assert [p] + rest == [] + [p];
    } else {
      hide Concat;
      var init, last := rest[..|rest| - 1], rest[|rest| - 1];
      ConcatFront(p, init);
      ConcatLast(init, last);
      ConcatLast([p] + init, last);
      Regroup(p, Concat(init), last);
      Regroup([p], init, [last]);
      assert rest == init + [last];
    }
  }

  lemma Regroup<T>(a: seq<T>, b: seq<T>, c: seq<T>)
    ensures a + b + c == a + (b + c)
  {
  }

  /** The parts are `s` cut in order: all of depth `depth` but the last, which has `extra` more. */
  lemma {:induction false} PartsOf(s: seq<Value>, depth: nat, k: nat, extra: nat)
    requires k > 0 && depth > 0 && |s| == k * depth + extra
    ensures var parts := Parts(s, depth, k);
      && Concat(parts) == s
      && |parts[k - 1]| == depth + extra
      && forall i :: 0 <= i < k - 1 ==> |parts[i]| == depth
    decreases k
  {
    NextPart(s, depth, k);
    if k == 1 {
      assert Concat([s]) == Concat([s][..0]) + s;
    } else {
      assert (k - 1) * depth == k * depth - depth;
      var head, tail := s[..depth], s[depth..];
      PartsOf(tail, depth, k - 1, extra);
      var rest := Parts(tail, depth, k - 1);
      hide Parts;
      hide Concat;
      assert Parts(s, depth, k) == [head] + rest;
      ConcatFront(head, rest);
      assert s == head + tail;
    }
  }

  // ---------------------------------------------------------------- at most two buckets straddle

  predicate CutBelow(b: Bucket, lo: Option<Value>) {
    BoundLe(lo, b.upper) && !BoundLe(lo, b.lower)
  }

  predicate CutAbove(b: Bucket, up: Option<Value>) {
    BoundGe(up, b.lower) && !BoundGe(up, b.upper)
  }

  /** Position `i` of part `p` comes before position `j` of a later part `q` in the concatenation. */
  lemma {:induction false} PartsAscend(parts: seq<seq<Value>>, p: nat, q: nat)
    requires AllNonEmpty(parts) && Ascending(Concat(parts)) && p < q < |parts|
    ensures var v, w := parts[p][|parts[p]| - 1], parts[q][0];
      KindOf(v) == KindOf(w) && Typed(KindOf(v)) && LessOrEqual(v, w)
    decreases |parts|
  {
    var init, last := parts[..|parts| - 1], parts[|parts| - 1];
    var c := Concat(init);
    AscendingParts(c, last);
    if q < |init| {
      PartsAscend(init, p, q);
    } else {
      var i := PositionOf(init, p);
      assert Concat(parts)[i] == parts[p][|parts[p]| - 1];
      assert Concat(parts)[|c|] == last[0];
    }
  }

  /** Where the last value of part `p` is in the concatenation. */
  lemma {:induction false} PositionOf(parts: seq<seq<Value>>, p: nat) returns (i: nat)
    requires AllNonEmpty(parts) && p < |parts|
    ensures i < |Concat(parts)| && Concat(parts)[i] == parts[p][|parts[p]| - 1]
    decreases |parts|
  {
    var init, last := parts[..|parts| - 1], parts[|parts| - 1];
    if p < |init| {
      i := PositionOf(init, p);
    } else {
      i := |Concat(init)| + |last| - 1;
    }
  }

  lemma OneCut(parts: seq<seq<Value>>, lo: Option<Value>, up: Option<Value>, p: nat, q: nat)
    requires AllNonEmpty(parts) && Ascending(Concat(parts)) && p < q < |parts|
    ensures !(CutBelow(BucketOf(parts[p]), lo) && CutBelow(BucketOf(parts[q]), lo))
    ensures !(CutAbove(BucketOf(parts[p]), up) && CutAbove(BucketOf(parts[q]), up))
  {
    PartsAscend(parts, p, q);
    BoundAlong(lo, parts[p][|parts[p]| - 1], parts[q][0]);
    BoundAlong(up, parts[p][|parts[p]| - 1], parts[q][0]);
  }

  lemma {:induction false} TwoStraddle(buckets: seq<Bucket>, lo: Option<Value>, up: Option<Value>, p: nat, q: nat)
    requires forall i :: 0 <= i < |buckets| && Straddles(buckets[i], lo, up) ==> i == p || i == q
    ensures StraddlingRows(buckets, lo, up) <=
      (if p < |buckets| then buckets[p].rows else 0) + (if q < |buckets| && q != p then buckets[q].rows else 0)
    decreases |buckets|
  {
    if buckets != [] {
      TwoStraddle(buckets[..|buckets| - 1], lo, up, p, q);
    }
  }

  /** The straddling buckets are no more than the one the lower bound cuts and the one the upper does. */
  lemma StraddlingPositions(parts: seq<seq<Value>>, lo: Option<Value>, up: Option<Value>) returns (p: nat, q: nat)
    requires parts != [] && AllNonEmpty(parts) && Ascending(Concat(parts))
    ensures p < |parts| && q < |parts|
    ensures forall i :: 0 <= i < |parts| && Straddles(BucketOf(parts[i]), lo, up) ==> i == p || i == q
  {
    p := if exists i :: 0 <= i < |parts| && CutBelow(BucketOf(parts[i]), lo)
      then var i :| 0 <= i < |parts| && CutBelow(BucketOf(parts[i]), lo); i else 0;
    q := if exists i :: 0 <= i < |parts| && CutAbove(BucketOf(parts[i]), up)
      then var i :| 0 <= i < |parts| && CutAbove(BucketOf(parts[i]), up); i else 0;
    forall i | 0 <= i < |parts| && Straddles(BucketOf(parts[i]), lo, up)
      ensures i == p || i == q
    {
      assert CutBelow(BucketOf(parts[i]), lo) || CutAbove(BucketOf(parts[i]), up);
      if i < p { OneCut(parts, lo, up, i, p); } else if p < i { OneCut(parts, lo, up, p, i); }
      if i < q { OneCut(parts, lo, up, i, q); } else if q < i { OneCut(parts, lo, up, q, i); }
    }
  }

  // ---------------------------------------------------------------- the error bound

  /** The straddling buckets of an equi-depth histogram hold at most two buckets' rows. */
  lemma StraddlingTotal(s: seq<Value>, n: nat, lo: Option<Value>, up: Option<Value>)
    requires s != [] && Ascending(s)
    ensures var k := Clamp(n, |s|);
      StraddlingRows(BucketsOf(EquiDepth(s, n)), lo, up) <= 2 * (|s| / k) + |s| % k
  {
    var k := Clamp(n, |s|);
    var depth, extra := |s| / k, |s| % k;
    DepthFits(|s|, k);
    PartsOf(s, depth, k, extra);
    var parts := EquiDepth(s, n);
    var p, q := StraddlingPositions(parts, lo, up);
    var buckets := BucketsOf(parts);
    TwoStraddle(buckets, lo, up, p, q);
    assert buckets[p].rows == |parts[p]| && buckets[q].rows == |parts[q]|;
    assert p == k - 1 || |parts[p]| == depth;
    assert q == k - 1 || |parts[q]| == depth;
  }

  /** The parts of an equi-depth histogram are the values, in order. */
  /** As many buckets as asked for, at least one and at most one a value; all are equally deep but the last,
    * which takes the remainder too.
    */
  lemma DepthsAreEqual(s: seq<Value>, n: nat)
    requires s != []
    ensures var parts := EquiDepth(s, n);
      && |parts| == (if n < 1 then 1 else if n > |s| then |s| else n)
      && (forall i :: 0 <= i < |parts| - 1 ==> |parts[i]| == |s| / |parts|)
      && |parts[|parts| - 1]| == |s| / |parts| + |s| % |parts|
  {
    var k := Clamp(n, |s|);
    DepthFits(|s|, k);
    PartLengths(s, |s| / k, k, |s| % k);
  }

  lemma {:induction false} PartLengths(s: seq<Value>, depth: nat, k: nat, rest: nat)
    requires k > 0 && depth > 0 && |s| == k * depth + rest
    ensures var parts := Parts(s, depth, k);
      (forall i :: 0 <= i < k - 1 ==> |parts[i]| == depth) && |parts[k - 1]| == depth + rest
    decreases k
  {
    NextPart(s, depth, k);
    if k > 1 {
      assert (k - 1) * depth == k * depth - depth;
      PartLengths(s[depth..], depth, k - 1, rest);
      var parts := Parts(s, depth, k);
      assert forall i :: 1 <= i < k ==> parts[i] == parts[1..][i - 1];
    }
  }

  lemma EquiDepthConcat(s: seq<Value>, n: nat)
    ensures Concat(EquiDepth(s, n)) == s
  {
    if s != [] {
      var k := Clamp(n, |s|);
      DepthFits(|s|, k);
      PartsOf(s, |s| / k, k, |s| % k);
    }
  }

  /** The estimated rows of any range are within two buckets of the rows it matches. */
  lemma RangeEstimateError(s: seq<Value>, n: nat, lo: Option<Value>, up: Option<Value>)
    requires s != [] && Ascending(s)
    ensures var k := Clamp(n, |s|);
      var err := EstimatedRows(BucketsOf(EquiDepth(s, n)), lo, up) - Count(s, lo, up) as real;
      -((2 * (|s| / k) + |s| % k) as real) <= err <= (2 * (|s| / k) + |s| % k) as real
  {
    EquiDepthConcat(s, n);
    RowsError(EquiDepth(s, n), lo, up);
    StraddlingTotal(s, n, lo, up);
  }

  lemma {:induction false} EstimateBounds(parts: seq<seq<Value>>, lo: Option<Value>, up: Option<Value>)
    requires AllNonEmpty(parts)
    ensures 0.0 <= EstimatedRows(BucketsOf(parts), lo, up) <= |Concat(parts)| as real
  {
    if parts != [] {
      var init, last := parts[..|parts| - 1], parts[|parts| - 1];
      assert BucketsOf(parts)[..|parts| - 1] == BucketsOf(init);
      EstimateBounds(init, lo, up);
      RowsBounds(BucketOf(last), lo, up);
    }
  }

  /** The estimated selectivity is a fraction. */
  lemma SelectivityIsFraction(s: seq<Value>, n: nat, lo: Option<Value>, up: Option<Value>)
    requires s != []
    ensures 0.0 <= EstimatedRows(BucketsOf(EquiDepth(s, n)), lo, up) / |s| as real <= 1.0
  {
    EquiDepthConcat(s, n);
    EstimateBounds(EquiDepth(s, n), lo, up);
    QuotientBounds(EstimatedRows(BucketsOf(EquiDepth(s, n)), lo, up), |s| as real);
  }

  // ---------------------------------------------------------------- widening the range

  /** Every column value on the inner side of `bound` is on the inner side of `wider`. */
  ghost predicate WidensLower(wider: Value, bound: Value) {
    forall v :: Typed(KindOf(v)) && LessOrEqual(bound, v) ==> LessOrEqual(wider, v)
  }

  ghost predicate WidensUpper(wider: Value, bound: Value) {
    forall v :: Typed(KindOf(v)) && GreaterOrEqual(bound, v) ==> GreaterOrEqual(wider, v)
  }

  /** The pairs of bounds that compare as level only because a 64-bit integer was rounded to a double. */
  predicate RoundedPast(wider: Value, bound: Value, step: int) {
    && wider.Num? && wider.n.Int? && bound.Num? && !bound.n.Int?
    && -0x8000_0000_0000_0000 <= wider.n.i + step < 0x8000_0000_0000_0000
    && (if step < 0 then AsF64(bound.n) <= RoundInt(wider.n.i + step) as real
        else RoundInt(wider.n.i + step) as real <= AsF64(bound.n))
  }

  /** A lower bound that compares at or below another one widens the range, except across that rounding. */
  lemma LowerWidensIff(wider: Value, bound: Value)
    requires LessOrEqual(wider, bound)
    ensures WidensLower(wider, bound) <==> !RoundedPast(wider, bound, -1)
  {
    if RoundedPast(wider, bound, -1) {
      var v := Num(Int(wider.n.i - 1));
      assert LessOrEqual(bound, v) && !LessOrEqual(wider, v);
    } else {
      forall v | Typed(KindOf(v)) && LessOrEqual(bound, v)
        ensures LessOrEqual(wider, v)
      {
        LowerWidens(wider, bound, v);
      }
    }
  }

  lemma LowerWidens(wider: Value, bound: Value, v: Value)
    requires LessOrEqual(wider, bound) && LessOrEqual(bound, v) && Typed(KindOf(v))
    requires !RoundedPast(wider, bound, -1)
    ensures LessOrEqual(wider, v)
  {
    if wider.Str? {
      CmpTextTransitive(wider.s, bound.s, v.s);
    } else if wider.Num? && wider.n.Int? {
      if v.n.Int? && v.n.i < wider.n.i && !bound.n.Int? {
        RoundIntMonotone(v.n.i, wider.n.i - 1);
        assert false;
      }
      if bound.n.Int? {
        RoundIntMonotone(wider.n.i, bound.n.i);
      }
    } else if wider.Num? && bound.n.Int? && v.n.Int? {
      RoundIntMonotone(bound.n.i, v.n.i);
    }
  }

  lemma UpperWidensIff(wider: Value, bound: Value)
    requires GreaterOrEqual(wider, bound)
    ensures WidensUpper(wider, bound) <==> !RoundedPast(wider, bound, 1)
  {
    if RoundedPast(wider, bound, 1) {
      var v := Num(Int(wider.n.i + 1));
      assert GreaterOrEqual(bound, v) && !GreaterOrEqual(wider, v);
    } else {
      forall v | Typed(KindOf(v)) && GreaterOrEqual(bound, v)
        ensures GreaterOrEqual(wider, v)
      {
        UpperWidens(wider, bound, v);
      }
    }
  }

  lemma UpperWidens(wider: Value, bound: Value, v: Value)
    requires GreaterOrEqual(wider, bound) && GreaterOrEqual(bound, v) && Typed(KindOf(v))
    requires !RoundedPast(wider, bound, 1)
    ensures GreaterOrEqual(wider, v)
  {
    CompareFlip(wider, bound);
    CompareFlip(bound, v);
    CompareFlip(wider, v);
    if wider.Str? {
      CmpTextTransitive(v.s, bound.s, wider.s);
    } else if wider.Num? && wider.n.Int? {
      if v.n.Int? && wider.n.i < v.n.i && !bound.n.Int? {
        RoundIntMonotone(wider.n.i + 1, v.n.i);
        assert false;
      }
      if bound.n.Int? {
        RoundIntMonotone(bound.n.i, wider.n.i);
      }
    } else if wider.Num? && bound.n.Int? && v.n.Int? {
      RoundIntMonotone(v.n.i, bound.n.i);
    }
  }

  /** Both bounds compare at or outside the old ones. */
  predicate Widened(lo': Option<Value>, up': Option<Value>, lo: Option<Value>, up: Option<Value>) {
    && (lo' == None || (lo.Some? && LessOrEqual(lo'.value, lo.value)))
    && (up' == None || (up.Some? && GreaterOrEqual(up'.value, up.value)))
  }

  /** Whether the range held an integer below the new lower bound, `w`. Only the largest one that the upper
    * bound can admit needs to be looked at.
    */
  predicate LosesBelow(w: i64, lo: Option<Value>, up: Option<Value>) {
    var x := if up.Some? && up.value.Num? && up.value.n.Int? && up.value.n.i < w then up.value.n.i else w - 1;
    -0x8000_0000_0000_0000 <= x && InRange(lo, up, Num(Int(x)))
  }

  /** Whether the range held an integer above the new upper bound, `w`. */
  predicate LosesAbove(w: i64, lo: Option<Value>, up: Option<Value>) {
    var x := if lo.Some? && lo.value.Num? && lo.value.n.Int? && lo.value.n.i > w then lo.value.n.i else w + 1;
    x < 0x8000_0000_0000_0000 && InRange(lo, up, Num(Int(x)))
  }

  /** Whether the new bounds leave out a value the old ones admit. */
  predicate Loses(lo': Option<Value>, up': Option<Value>, lo: Option<Value>, up: Option<Value>) {
    || (lo'.Some? && lo'.value.Num? && lo'.value.n.Int? && LosesBelow(lo'.value.n.i, lo, up))
    || (up'.Some? && up'.value.Num? && up'.value.n.Int? && LosesAbove(up'.value.n.i, lo, up))
  }

  lemma KeepsLower(lo': Option<Value>, up': Option<Value>, lo: Option<Value>, up: Option<Value>, v: Value)
    requires Widened(lo', up', lo, up) && !Loses(lo', up', lo, up)
    requires Typed(KindOf(v)) && InRange(lo, up, v)
    ensures BoundLe(lo', v)
  {
    if lo'.Some? && !LessOrEqual(lo'.value, v) {
      var wider, bound := lo'.value, lo.value;
      if RoundedPast(wider, bound, -1) {
        LostBelow(wider.n.i, lo, up, v);
        assert false;
      }
      LowerWidens(wider, bound, v);
      assert false;
    }
  }

  lemma LostBelow(w: i64, lo: Option<Value>, up: Option<Value>, v: Value)
    requires Typed(KindOf(v)) && InRange(lo, up, v) && !LessOrEqual(Num(Int(w)), v)
    requires lo.Some? && lo.value.Num? && !lo.value.n.Int? && LessOrEqual(Num(Int(w)), lo.value)
    ensures LosesBelow(w, lo, up)
  {
    if v.n.Int? {
      var x := if up.Some? && up.value.Num? && up.value.n.Int? && up.value.n.i < w then up.value.n.i else w - 1;
      RoundIntMonotone(v.n.i, x);
      RoundIntMonotone(x, w);
    }
  }

  lemma KeepsUpper(lo': Option<Value>, up': Option<Value>, lo: Option<Value>, up: Option<Value>, v: Value)
    requires Widened(lo', up', lo, up) && !Loses(lo', up', lo, up)
    requires Typed(KindOf(v)) && InRange(lo, up, v)
    ensures BoundGe(up', v)
  {
    if up'.Some? && !GreaterOrEqual(up'.value, v) {
      var wider, bound := up'.value, up.value;
      if RoundedPast(wider, bound, 1) {
        LostAbove(wider.n.i, lo, up, v);
        assert false;
      }
      UpperWidens(wider, bound, v);
      assert false;
    }
  }

  lemma LostAbove(w: i64, lo: Option<Value>, up: Option<Value>, v: Value)
    requires Typed(KindOf(v)) && InRange(lo, up, v) && !GreaterOrEqual(Num(Int(w)), v)
    requires up.Some? && up.value.Num? && !up.value.n.Int? && GreaterOrEqual(Num(Int(w)), up.value)
    ensures LosesAbove(w, lo, up)
  {
    if v.n.Int? {
      var x := if lo.Some? && lo.value.Num? && lo.value.n.Int? && lo.value.n.i > w then lo.value.n.i else w + 1;
      RoundIntMonotone(x, v.n.i);
      RoundIntMonotone(w, x);
    }
  }

  lemma InterpolateMonotone(bl: real, bu: real, lo: real, up: real, lo': real, up': real)
    requires Max(lo', bl) <= Max(lo, bl) && Min(up, bu) <= Min(up', bu)
    ensures Interpolate(bl, bu, lo, up) <= Interpolate(bl, bu, lo', up')
  {
    var x := Min(up, bu) - Max(lo, bl);
    var x' := Min(up', bu) - Max(lo', bl);
    InterpolateBounds(bl, bu, lo', up');
    if bu - bl > 0.0 && x >= 0.0 {
      DivideMonotone(x, x', bu - bl);
    }
  }

  lemma DivideMonotone(x: real, y: real, d: real)
    requires x <= y && d > 0.0
    ensures x / d <= y / d
  {
  }

  lemma AsF64Monotone(m: Number, n: Number)
    requires LessOrEqual(Num(m), Num(n))
    ensures AsF64(m) <= AsF64(n)
  {
    if m.Int? && n.Int? {
      RoundIntMonotone(m.i, n.i);
    }
  }

  lemma LowerClampMonotone(bl: real, lo: Option<Value>, lo': Option<Value>)
    requires lo.Some? ==> lo.value.Num?
    requires lo' == None || (lo.Some? && LessOrEqual(lo'.value, lo.value))
    ensures Max(BoundF64(lo', bl), bl) <= Max(BoundF64(lo, bl), bl)
  {
    if lo'.Some? {
      AsF64Monotone(lo'.value.n, lo.value.n);
    }
  }

  lemma UpperClampMonotone(bu: real, up: Option<Value>, up': Option<Value>)
    requires up.Some? ==> up.value.Num?
    requires up' == None || (up.Some? && GreaterOrEqual(up'.value, up.value))
    ensures Min(BoundF64(up, bu), bu) <= Min(BoundF64(up', bu), bu)
  {
    if up'.Some? {
      CompareFlip(up'.value, up.value);
      AsF64Monotone(up.value.n, up'.value.n);
    }
  }

  /** A bucket that the new bounds do not meet was met at one end only, and counted for nothing. */
  lemma LeftBehind(b: Bucket, lo: Option<Value>, up: Option<Value>, lo': Option<Value>, up': Option<Value>)
    requires KindOf(b.lower) == KindOf(b.upper) && Typed(KindOf(b.lower)) && LessOrEqual(b.lower, b.upper)
    requires Widened(lo', up', lo, up) && !Loses(lo', up', lo, up)
    requires Overlaps(b, lo, up) && !Overlaps(b, lo', up')
    ensures BucketOverlap(b, lo, up) == 0.0
  {
    if InRange(lo, up, b.lower) {
      KeepsLower(lo', up', lo, up, b.lower);
      KeepsUpper(lo', up', lo, up, b.lower);
      BoundAlong(lo', b.lower, b.upper);
      assert false;
    }
    if InRange(lo, up, b.upper) {
      KeepsLower(lo', up', lo, up, b.upper);
      KeepsUpper(lo', up', lo, up, b.upper);
      BoundAlong(up', b.lower, b.upper);
      assert false;
    }
    LevelEnds(b, lo, up, lo', up');
  }

  lemma LevelEnds(b: Bucket, lo: Option<Value>, up: Option<Value>, lo': Option<Value>, up': Option<Value>)
    requires KindOf(b.lower) == KindOf(b.upper) && Typed(KindOf(b.lower)) && LessOrEqual(b.lower, b.upper)
    requires Widened(lo', up', lo, up) && Overlaps(b, lo, up) && !Overlaps(b, lo', up')
    requires !BoundLe(lo, b.lower) && !BoundGe(up, b.upper)
    ensures BucketOverlap(b, lo, up) == 0.0
  {
    hide Interpolate;
    if !BoundLe(lo', b.upper) {
      LevelAtUpper(b, lo.value, lo'.value);
      InterpolateEnds(AsF64(b.lower.n), AsF64(b.upper.n), AsF64(lo.value.n), BoundF64(up, AsF64(b.upper.n)));
    } else {
      LevelAtLower(b, up.value, up'.value);
      InterpolateEnds(AsF64(b.lower.n), AsF64(b.upper.n), BoundF64(lo, AsF64(b.lower.n)), AsF64(up.value.n));
    }
  }

  lemma InterpolateEnds(bl: real, bu: real, lo: real, up: real)
    requires bl < bu && (bu <= lo || up <= bl)
    ensures Interpolate(bl, bu, lo, up) == 0.0
  {
  }

  lemma LevelAtUpper(b: Bucket, lo: Value, lo': Value)
    requires KindOf(b.lower) == KindOf(b.upper) && Typed(KindOf(b.lower)) && LessOrEqual(b.lower, b.upper)
    requires LessOrEqual(lo', lo) && LessOrEqual(lo, b.upper) && !LessOrEqual(lo', b.upper) && !LessOrEqual(lo, b.lower)
    ensures lo.Num? && b.lower.Num? && b.upper.Num?
    ensures AsF64(b.lower.n) < AsF64(b.upper.n) <= AsF64(lo.n)
  {
    if !RoundedPast(lo', lo, -1) {
      LowerWidens(lo', lo, b.upper);
      assert false;
    }
    AsF64Monotone(lo'.n, lo.n);
    AsF64Monotone(lo.n, b.upper.n);
    if b.upper.n.Int? {
      RoundIntMonotone(b.upper.n.i, lo'.n.i);
    }
  }

  lemma LevelAtLower(b: Bucket, up: Value, up': Value)
    requires KindOf(b.lower) == KindOf(b.upper) && Typed(KindOf(b.lower)) && LessOrEqual(b.lower, b.upper)
    requires GreaterOrEqual(up', up) && GreaterOrEqual(up, b.lower)
    requires !GreaterOrEqual(up', b.lower) && !GreaterOrEqual(up, b.upper)
    ensures up.Num? && b.lower.Num? && b.upper.Num?
    ensures AsF64(up.n) <= AsF64(b.lower.n) < AsF64(b.upper.n)
  {
    if !RoundedPast(up', up, 1) {
      UpperWidens(up', up, b.lower);
      assert false;
    }
    if b.lower.n.Int? {
      RoundIntMonotone(up'.n.i, b.lower.n.i);
    }
  }

  lemma BucketWidens(b: Bucket, lo: Option<Value>, up: Option<Value>, lo': Option<Value>, up': Option<Value>)
    requires KindOf(b.lower) == KindOf(b.upper) && Typed(KindOf(b.lower)) && LessOrEqual(b.lower, b.upper)
    requires Widened(lo', up', lo, up) && !Loses(lo', up', lo, up)
    ensures BucketRows(b, lo, up) <= BucketRows(b, lo', up')
  {
    RowsBounds(b, lo', up');
    if Overlaps(b, lo, up) {
      OverlapBounds(b, lo, up);
      OverlapBounds(b, lo', up');
      if Overlaps(b, lo', up') {
        OverlapWidens(b, lo, up, lo', up');
        WeightedMonotone(b.rows, BucketOverlap(b, lo, up), BucketOverlap(b, lo', up'));
      } else {
        LeftBehind(b, lo, up, lo', up');
        WeightedIsProduct(b.rows, 0.0);
      }
    }
  }

  lemma OverlapWidens(b: Bucket, lo: Option<Value>, up: Option<Value>, lo': Option<Value>, up': Option<Value>)
    requires KindOf(b.lower) == KindOf(b.upper) && Typed(KindOf(b.lower)) && LessOrEqual(b.lower, b.upper)
    requires Widened(lo', up', lo, up) && !Loses(lo', up', lo, up)
    requires Overlaps(b, lo, up) && Overlaps(b, lo', up')
    ensures BucketOverlap(b, lo, up) <= BucketOverlap(b, lo', up')
  {
    OverlapBounds(b, lo, up);
    if Covers(b, lo, up) {
      BoundAlong(lo, b.lower, b.upper);
      BoundAlong(up, b.lower, b.upper);
      KeepsLower(lo', up', lo, up, b.lower);
      KeepsUpper(lo', up', lo, up, b.upper);
    } else if !Covers(b, lo', up') && b.lower.Num? {
      var bl, bu := AsF64(b.lower.n), AsF64(b.upper.n);
      LowerClampMonotone(bl, lo, lo');
      UpperClampMonotone(bu, up, up');
      InterpolateMonotone(bl, bu, BoundF64(lo, bl), BoundF64(up, bu), BoundF64(lo', bl), BoundF64(up', bu));
    }
  }

  /** Widening a range that loses no value never lowers its estimate. */
  lemma {:induction false} EstimateMonotone(
    parts: seq<seq<Value>>, lo: Option<Value>, up: Option<Value>, lo': Option<Value>, up': Option<Value>)
    requires AllNonEmpty(parts) && Ascending(Concat(parts))
    requires Widened(lo', up', lo, up) && !Loses(lo', up', lo, up)
    ensures EstimatedRows(BucketsOf(parts), lo, up) <= EstimatedRows(BucketsOf(parts), lo', up')
  {
    if parts != [] {
      var init, last := parts[..|parts| - 1], parts[|parts| - 1];
      assert BucketsOf(parts)[..|parts| - 1] == BucketsOf(init);
      AscendingParts(Concat(init), last);
      EstimateMonotone(init, lo, up, lo', up');
      Reflexive(last[0]);
      BucketWidens(BucketOf(last), lo, up, lo', up');
    }
  }

  /** No histogram's estimate falls when the range goes from the old bounds to the new ones. */
  ghost predicate NeverFalls(lo': Option<Value>, up': Option<Value>, lo: Option<Value>, up: Option<Value>) {
    forall s, n: nat :: Ascending(s) ==>
      EstimatedRows(BucketsOf(EquiDepth(s, n)), lo, up) <= EstimatedRows(BucketsOf(EquiDepth(s, n)), lo', up')
  }

  /** Widening a range lowers no estimate if and only if it loses no value. */
  lemma EstimateNeverFallsIff(lo': Option<Value>, up': Option<Value>, lo: Option<Value>, up: Option<Value>)
    requires Widened(lo', up', lo, up)
    ensures NeverFalls(lo', up', lo, up) <==> !Loses(lo', up', lo, up)
  {
    if Loses(lo', up', lo, up) {
      var v := LostValue(lo', up', lo, up);
      OneValueEstimate(v, 1, lo, up);
      OneValueEstimate(v, 1, lo', up');
      assert Ascending([v]);
    } else {
      forall s, n: nat | Ascending(s)
        ensures EstimatedRows(BucketsOf(EquiDepth(s, n)), lo, up) <= EstimatedRows(BucketsOf(EquiDepth(s, n)), lo', up')
      {
        EquiDepthConcat(s, n);
        EstimateMonotone(EquiDepth(s, n), lo, up, lo', up');
      }
    }
  }

  lemma LostValue(lo': Option<Value>, up': Option<Value>, lo: Option<Value>, up: Option<Value>) returns (v: Value)
    requires Loses(lo', up', lo, up)
    ensures Typed(KindOf(v)) && InRange(lo, up, v) && !InRange(lo', up', v)
  {
    if lo'.Some? && lo'.value.Num? && lo'.value.n.Int? && LosesBelow(lo'.value.n.i, lo, up) {
      var w := lo'.value.n.i;
      v := Num(Int(if up.Some? && up.value.Num? && up.value.n.Int? && up.value.n.i < w then up.value.n.i else w - 1));
    } else {
      var w := up'.value.n.i;
      v := Num(Int(if lo.Some? && lo.value.Num? && lo.value.n.Int? && lo.value.n.i > w then lo.value.n.i else w + 1));
    }
  }

  /** A column of one value is estimated exactly. */
  lemma OneValueEstimate(v: Value, n: nat, lo: Option<Value>, up: Option<Value>)
    requires Typed(KindOf(v))
    ensures EstimatedRows(BucketsOf(EquiDepth([v], n)), lo, up) == if InRange(lo, up, v) then 1.0 else 0.0
  {
    assert EquiDepth([v], n) == [[v]];
    var buckets := BucketsOf([[v]]);
    assert buckets == [Bucket(v, v, 1, 1)] && buckets[..0] == [];
    WeightedIsProduct(1, 1.0);
  }

  /** With a lower bound only, that is the rounding of an integer to a double. */
  lemma LowerNeverFallsIff(lo': Value, lo: Value)
    requires LessOrEqual(lo', lo)
    ensures NeverFalls(Some(lo'), None, Some(lo), None) <==> !RoundedPast(lo', lo, -1)
  {
    EstimateNeverFallsIff(Some(lo'), None, Some(lo), None);
    LowerLosesIff(lo', lo);
  }

  lemma LowerLosesIff(lo': Value, lo: Value)
    requires LessOrEqual(lo', lo)
    ensures Loses(Some(lo'), None, Some(lo), None) <==> RoundedPast(lo', lo, -1)
  {
  }

  /** And the same for an upper bound. */
  lemma UpperNeverFallsIff(up': Value, up: Value)
    requires GreaterOrEqual(up', up)
    ensures NeverFalls(None, Some(up'), None, Some(up)) <==> !RoundedPast(up', up, 1)
  {
    EstimateNeverFallsIff(None, Some(up'), None, Some(up));
    UpperLosesIff(up', up);
  }

  lemma UpperLosesIff(up': Value, up: Value)
    requires GreaterOrEqual(up', up)
    ensures Loses(None, Some(up'), None, Some(up)) <==> RoundedPast(up', up, 1)
  {
  }

  const TWO_TO_53: Value := Num(Int(0x20_0000_0000_0000))

  /** A falling estimate: in a column holding the integer 2^53 only, the range from the double 2^53 up is
    * estimated at that one row, and the range from the integer 2^53 + 1 up, which compares level, at none.
    */
  lemma RoundingNarrows(n: nat)
    ensures var v, lo, lo' := TWO_TO_53, Num(Float(Double(false, 1076, 0))), Num(Int(0x20_0000_0000_0001));
      && LessOrEqual(lo', lo) && RoundedPast(lo', lo, -1)
      && EstimatedRows(BucketsOf(EquiDepth([v], n)), Some(lo), None) == 1.0
      && EstimatedRows(BucketsOf(EquiDepth([v], n)), Some(lo'), None) == 0.0
  {
    assert Ulp(0x20_0000_0000_0001) == 2 * Ulp(0x10_0000_0000_0000);
    assert RoundNat(0x20_0000_0000_0001) == 0x20_0000_0000_0000;
    assert RoundNat(0x20_0000_0000_0000) == 0x20_0000_0000_0000;
    var v, lo, lo' := TWO_TO_53, Num(Float(Double(false, 1076, 0))), Num(Int(0x20_0000_0000_0001));
    OneValueEstimate(v, n, Some(lo), None);
    OneValueEstimate(v, n, Some(lo'), None);
  }

  // ---------------------------------------------------------------- rows are spread evenly in a bucket

  /** A bucket between two different numbers. */
  predicate Spans(b: Bucket) {
    b.lower.Num? && b.upper.Num? && AsF64(b.lower.n) < AsF64(b.upper.n)
  }

  predicate NumericBound(bound: Option<Value>) {
    bound.Some? ==> bound.value.Num?
  }

  /** The length of what `[lo, up]` and `[bl, bu]` have in common. */
  function CommonLength(bl: real, bu: real, lo: real, up: real): real {
    if up <= bl || bu <= lo || up <= lo then 0.0
    else (if up < bu then up else bu) - (if lo > bl then lo else bl)
  }

  function Product(x: real, y: real): real {
    x * y
  }

  /** A bucket counts in proportion to how much of it lies in the range. */
  lemma RowsByLength(b: Bucket, lo: Option<Value>, up: Option<Value>)
    requires Spans(b) && NumericBound(lo) && NumericBound(up)
    ensures var bl, bu := AsF64(b.lower.n), AsF64(b.upper.n);
      Product(BucketRows(b, lo, up), bu - bl)
      == Product(b.rows as real, CommonLength(bl, bu, BoundF64(lo, bl), BoundF64(up, bu)))
  {
    var bl, bu := AsF64(b.lower.n), AsF64(b.upper.n);
    var length := CommonLength(bl, bu, BoundF64(lo, bl), BoundF64(up, bu));
    var share := BucketOverlap(b, lo, up);
    OverlapLength(b, lo, up);
    WeightedShare(b, lo, up);
    hide *;
    if Overlaps(b, lo, up) {
      ShareRows(b.rows as real, share, bu - bl, length);
    } else {
      ShareRows(b.rows as real, 0.0, bu - bl, length);
    }
  }

  lemma WeightedShare(b: Bucket, lo: Option<Value>, up: Option<Value>)
    ensures BucketRows(b, lo, up)
      == Product(b.rows as real, if Overlaps(b, lo, up) then BucketOverlap(b, lo, up) else 0.0)
  {
    hide Overlaps;
    hide BucketOverlap;
    WeightedIsProduct(b.rows, BucketOverlap(b, lo, up));
  }

  lemma OverlapLength(b: Bucket, lo: Option<Value>, up: Option<Value>)
    requires Spans(b) && NumericBound(lo) && NumericBound(up)
    ensures var bl, bu := AsF64(b.lower.n), AsF64(b.upper.n);
      Product(if Overlaps(b, lo, up) then BucketOverlap(b, lo, up) else 0.0, bu - bl)
      == CommonLength(bl, bu, BoundF64(lo, bl), BoundF64(up, bu))
  {
    var bl, bu := AsF64(b.lower.n), AsF64(b.upper.n);
    var fl, fu := BoundF64(lo, bl), BoundF64(up, bu);
    BoundSides(lo, b.lower);
    BoundSides(lo, b.upper);
    BoundSides(up, b.lower);
    BoundSides(up, b.upper);
    hide AsF64;
    hide CompareValues;
    hide LessOrEqual;
    hide GreaterOrEqual;
    hide Product;
    hide Interpolate;
    if !Overlaps(b, lo, up) {
      NoShare(bu - bl);
    } else if Covers(b, lo, up) {
      WholeShare(bu - bl);
    } else {
      InterpolatedLength(bl, bu, fl, fu);
    }
  }

  lemma NoShare(width: real)
    ensures Product(0.0, width) == 0.0
  {
  }

  lemma WholeShare(width: real)
    ensures Product(1.0, width) == width
  {
  }

  lemma InterpolatedLength(bl: real, bu: real, lo: real, up: real)
    requires bl < bu
    ensures Product(Interpolate(bl, bu, lo, up), bu - bl) == CommonLength(bl, bu, lo, up)
  {
    var ol, ou := Max(lo, bl), Min(up, bu);
    if ou >= ol {
      QuotientTimes(ou - ol, bu - bl);
      assert CommonLength(bl, bu, lo, up) == ou - ol;
    }
  }

  lemma QuotientTimes(x: real, y: real)
    requires y > 0.0
    ensures Product(x / y, y) == x
  {
  }

  lemma ShareRows(rows: real, share: real, width: real, length: real)
    requires Product(share, width) == length
    ensures Product(Product(rows, share), width) == Product(rows, length)
  {
  }

  /** A bound compares with a number on the side its double lies on. */
  lemma BoundSides(bound: Option<Value>, v: Value)
    requires NumericBound(bound) && v.Num?
    ensures bound.Some? && BoundLe(bound, v) ==> AsF64(bound.value.n) <= AsF64(v.n)
    ensures bound.Some? && !BoundLe(bound, v) ==> AsF64(bound.value.n) >= AsF64(v.n)
    ensures bound.Some? && BoundGe(bound, v) ==> AsF64(bound.value.n) >= AsF64(v.n)
    ensures bound.Some? && !BoundGe(bound, v) ==> AsF64(bound.value.n) <= AsF64(v.n)
  {
    if bound.Some? {
      CompareFlip(bound.value, v);
      if LessOrEqual(bound.value, v) {
        AsF64Monotone(bound.value.n, v.n);
      }
      if LessOrEqual(v, bound.value) {
        AsF64Monotone(v.n, bound.value.n);
      }
      hide AsF64;
    }
  }

  /** Between two cuts inside a bucket lies the share of its rows that their distance is of its width. */
  lemma EvenInside(b: Bucket, x: Number, y: Number)
    requires Spans(b) && AsF64(b.lower.n) <= AsF64(x) <= AsF64(y) <= AsF64(b.upper.n)
    ensures Product(BucketRows(b, Some(Num(x)), Some(Num(y))), AsF64(b.upper.n) - AsF64(b.lower.n))
      == Product(b.rows as real, AsF64(y) - AsF64(x))
  {
    RowsByLength(b, Some(Num(x)), Some(Num(y)));
    hide AsF64;
    hide BucketRows;
    hide Product;
    assert CommonLength(AsF64(b.lower.n), AsF64(b.upper.n), AsF64(x), AsF64(y)) == AsF64(y) - AsF64(x);
  }

  /** So the estimates of two ranges inside a bucket are as their lengths. */
  lemma EvenRanges(b: Bucket, x: Number, y: Number, z: Number, w: Number)
    requires Spans(b) && AsF64(b.lower.n) <= AsF64(x) <= AsF64(y) <= AsF64(b.upper.n)
    requires AsF64(b.lower.n) <= AsF64(z) <= AsF64(w) <= AsF64(b.upper.n)
    ensures Product(BucketRows(b, Some(Num(x)), Some(Num(y))), AsF64(w) - AsF64(z))
      == Product(BucketRows(b, Some(Num(z)), Some(Num(w))), AsF64(y) - AsF64(x))
  {
    EvenInside(b, x, y);
    EvenInside(b, z, w);
    assert AsF64(b.lower.n) < AsF64(b.upper.n);
    hide *;
    SameRatio(
      BucketRows(b, Some(Num(x)), Some(Num(y))), BucketRows(b, Some(Num(z)), Some(Num(w))),
      AsF64(y) - AsF64(x), AsF64(w) - AsF64(z), AsF64(b.upper.n) - AsF64(b.lower.n), b.rows as real);
  }

  lemma SameRatio(p: real, q: real, x: real, z: real, width: real, rows: real)
    requires width > 0.0 && Product(p, width) == Product(rows, x) && Product(q, width) == Product(rows, z)
    ensures Product(p, z) == Product(q, x)
  {
    assert p == rows * x / width;
    assert q == rows * z / width;
  }

  ghost predicate AllSpan(buckets: seq<Bucket>) {
    forall i :: 0 <= i < |buckets| ==> Spans(buckets[i])
  }

  /** `c` lies between the bounds. */
  predicate Cuts(lo: Option<Value>, c: Number, up: Option<Value>) {
    && NumericBound(lo) && NumericBound(up)
    && (lo.Some? ==> AsF64(lo.value.n) <= AsF64(c)) && (up.Some? ==> AsF64(c) <= AsF64(up.value.n))
  }

  /** Cutting a range in two anywhere loses no estimated row and counts none twice. */
  lemma {:induction false} CutAddsUp(buckets: seq<Bucket>, lo: Option<Value>, c: Number, up: Option<Value>)
    requires AllSpan(buckets) && Cuts(lo, c, up)
    ensures EstimatedRows(buckets, lo, Some(Num(c))) + EstimatedRows(buckets, Some(Num(c)), up)
      == EstimatedRows(buckets, lo, up)
  {
    if buckets != [] {
      CutAddsUp(buckets[..|buckets| - 1], lo, c, up);
      BucketAddsUp(buckets[|buckets| - 1], lo, c, up);
    }
  }

  lemma BucketAddsUp(b: Bucket, lo: Option<Value>, c: Number, up: Option<Value>)
    requires Spans(b) && Cuts(lo, c, up)
    ensures BucketRows(b, lo, Some(Num(c))) + BucketRows(b, Some(Num(c)), up) == BucketRows(b, lo, up)
  {
    var cut := Some(Num(c));
    RowsByLength(b, lo, cut);
    RowsByLength(b, cut, up);
    RowsByLength(b, lo, up);
    var bl, bu := AsF64(b.lower.n), AsF64(b.upper.n);
    var fl, fc, fu := BoundF64(lo, bl), AsF64(c), BoundF64(up, bu);
    assert fc == BoundF64(cut, bl) == BoundF64(cut, bu);
    assert bl < bu && (if lo == None then fl == bl else fl <= fc) && (if up == None then fu == bu else fc <= fu);
    hide *;
    LengthAddsUp(bl, bu, fl, fc, fu, lo == None, up == None);
    SumOfShares(
      BucketRows(b, lo, cut), BucketRows(b, cut, up), BucketRows(b, lo, up), bu - bl, b.rows as real,
      CommonLength(bl, bu, fl, fc), CommonLength(bl, bu, fc, fu), CommonLength(bl, bu, fl, fu));
  }

  /** Lengths add up; a missing bound is the end of the bucket, wherever the cut is. */
  lemma LengthAddsUp(bl: real, bu: real, lo: real, c: real, up: real, noLo: bool, noUp: bool)
    requires bl < bu && (if noLo then lo == bl else lo <= c) && (if noUp then up == bu else c <= up)
    ensures CommonLength(bl, bu, lo, c) + CommonLength(bl, bu, c, up) == CommonLength(bl, bu, lo, up)
  {
  }

  lemma SumOfShares(p: real, q: real, r: real, width: real, rows: real, x: real, y: real, z: real)
    requires width > 0.0 && x + y == z
    requires Product(p, width) == Product(rows, x) && Product(q, width) == Product(rows, y)
    requires Product(r, width) == Product(rows, z)
    ensures p + q == r
  {
    assert (p + q) * width == rows * x + rows * y == rows * z;
  }

  /** Where nothing can be interpolated: all rows of a bucket of one number, and half of those of a bucket of
    * strings or booleans that the range cuts.
    */
  lemma NothingToInterpolate(b: Bucket, lo: Option<Value>, up: Option<Value>)
    requires Overlaps(b, lo, up) && !Spans(b)
    requires b.lower.Num? && b.upper.Num? ==> AsF64(b.lower.n) == AsF64(b.upper.n)
    ensures Covers(b, lo, up) || (b.lower.Num? && b.upper.Num?) ==> BucketRows(b, lo, up) == b.rows as real
    ensures !Covers(b, lo, up) && !(b.lower.Num? && b.upper.Num?) ==> 2.0 * BucketRows(b, lo, up) == b.rows as real
  {
    WeightedIsProduct(b.rows, BucketOverlap(b, lo, up));
  }

  // ---------------------------------------------------------------- equality

  /** The value lies between the ends of the bucket, both included. */
  ghost predicate Contains(b: Bucket, v: Value) {
    LessOrEqual(b.lower, v) && LessOrEqual(v, b.upper)
  }

  /** The first bucket whose closed range holds `v`. */
  ghost predicate FirstContaining(buckets: seq<Bucket>, v: Value, i: nat) {
    && i < |buckets| && Contains(buckets[i], v)
    && forall j :: 0 <= j < i ==> !Contains(buckets[j], v)
  }

  /** The rows of the bucket holding the value, spread evenly over the bucket's distinct values. */
  ghost predicate EqualityEstimate(h: Histogram, v: Value, sel: real) {
    if h.total == 0 || (forall i :: 0 <= i < |h.buckets| ==> !Contains(h.buckets[i], v)) then sel == 0.0
    else exists i: nat :: FirstContaining(h.buckets, v, i) && sel == EvenShare(h, h.buckets[i])
  }

  function EvenShare(h: Histogram, b: Bucket): real
    requires h.total > 0
  {
    if b.distinct == 0 then 0.0 else b.rows as real / b.distinct as real / h.total as real
  }

  method EstimateEqualitySelectivity(h: Histogram, v: Value) returns (sel: real)
    ensures EqualityEstimate(h, v, sel)
  {
    if h.total == 0 {
      return 0.0;
    }
    var i := 0;
    while i < |h.buckets|
      invariant 0 <= i <= |h.buckets|
      invariant forall j :: 0 <= j < i ==> !Contains(h.buckets[j], v)
    {
      var b := h.buckets[i];
      CompareFlip(v, b.lower);
      if GreaterOrEqual(v, b.lower) && LessOrEqual(v, b.upper) {
        assert FirstContaining(h.buckets, v, i);
        if b.distinct == 0 {
          return 0.0;
        }
        return b.rows as real / b.distinct as real / h.total as real;
      }
      i := i + 1;
    }
    return 0.0;
  }

  ghost predicate Represented(v: Value, reps: seq<Value>) {
    exists j :: 0 <= j < |reps| && SameValue(v, reps[j])
  }

  ghost predicate PairwiseDifferent(reps: seq<Value>) {
    forall i, j :: 0 <= i < j < |reps| ==> !SameValue(reps[i], reps[j])
  }

  /** A bucket's distinct count is the number of values in it that differ from one another. */
  lemma {:induction false} DistinctIsExact(s: seq<Value>) returns (reps: seq<Value>)
    requires s != [] && Ascending(s)
    ensures |reps| == BucketOf(s).distinct && PairwiseDifferent(reps)
    ensures forall r :: r in reps ==> r in s
    ensures forall v :: v in s ==> Represented(v, reps)
    ensures SameValue(s[|s| - 1], reps[|reps| - 1])
    decreases |s|
  {
    var last := s[|s| - 1];
    KindIsOrdered(last, last);
    Reflexive(last);
    if |s| == 1 {
      reps := [last];
      assert SameValue(last, reps[0]);
    } else {
      var init := s[..|s| - 1];
      assert s == init + [last];
      AscendingParts(init, [last]);
      var before := DistinctIsExact(init);
      var end := init[|init| - 1];
      if SameValue(end, last) {
        reps := before;
        assert KindOf(end) == KindOf(last);
        SameTransitive(last, end, reps[|reps| - 1]);
        assert Represented(last, reps);
      } else {
        reps := before + [last];
        forall r | r in before
          ensures !SameValue(r, last)
        {
          NewRun(init, last, r);
        }
        forall v | v in s
          ensures Represented(v, reps)
        {
          StillRepresented(v, before, last);
        }
      }
    }
  }

  lemma StillRepresented(v: Value, reps: seq<Value>, r: Value)
    requires Represented(v, reps) || SameValue(v, r)
    ensures Represented(v, reps + [r])
  {
    if Represented(v, reps) {
      var j :| 0 <= j < |reps| && SameValue(v, reps[j]);
      assert (reps + [r])[j] == reps[j];
    } else {
      assert (reps + [r])[|reps|] == r;
    }
  }

  lemma SameTransitive(a: Value, b: Value, c: Value)
    requires Typed(KindOf(a)) && KindOf(a) == KindOf(b) == KindOf(c)
    requires SameValue(b, a) && SameValue(b, c)
    ensures SameValue(a, c)
  {
  }

  /** A value after the end of an ascending run that differs from its last value differs from all of it. */
  lemma NewRun(s: seq<Value>, v: Value, r: Value)
    requires s != [] && Ascending(s + [v]) && !SameValue(s[|s| - 1], v) && r in s
    ensures !SameValue(r, v)
  {
    var end := s[|s| - 1];
    var i :| 0 <= i < |s| && s[i] == r;
    var all := s + [v];
    assert all[i] == r && all[|s| - 1] == end && all[|s|] == v;
    KindIsOrdered(r, v);
    KindIsOrdered(end, v);
    Reflexive(r);
    assert LessOrEqual(r, end);
    if SameValue(r, v) {
      CompareFlip(r, v);
      BoundTransitive(v, r, end);
      CompareFlip(end, v);
    }
  }

  /** A value of the column is never estimated as absent. */
  lemma StoredValueHasBucket(s: seq<Value>, n: nat, v: Value) returns (i: nat)
    requires Ascending(s) && v in s
    ensures FirstContaining(BucketsOf(EquiDepth(s, n)), v, i)
  {
    var parts := EquiDepth(s, n);
    var buckets := BucketsOf(parts);
    EquiDepthConcat(s, n);
    hide EquiDepth;
    hide Ascending;
    hide Concat;
    hide Contains;
    hide BucketOf;
    var p := PartHolding(parts, v);
    InOwnBucket(parts[p], v);
    assert buckets[p] == BucketOf(parts[p]);
    i := FirstUpTo(buckets, v, p);
  }

  lemma FirstUpTo(buckets: seq<Bucket>, v: Value, p: nat) returns (i: nat)
    requires p < |buckets| && Contains(buckets[p], v)
    ensures FirstContaining(buckets, v, i)
  {
    hide Contains;
    i := 0;
    while !Contains(buckets[i], v)
      invariant 0 <= i <= p
      invariant forall j :: 0 <= j < i ==> !Contains(buckets[j], v)
      decreases p - i
    {
      i := i + 1;
    }
  }

  lemma {:induction false} PartHolding(parts: seq<seq<Value>>, v: Value) returns (p: nat)
    requires Ascending(Concat(parts)) && v in Concat(parts)
    ensures p < |parts| && v in parts[p] && Ascending(parts[p])
    decreases |parts|
  {
    var init, last := parts[..|parts| - 1], parts[|parts| - 1];
    AscendingParts(Concat(init), last);
    if v in last {
      p := |parts| - 1;
    } else {
      p := PartHolding(init, v);
    }
  }

  lemma InOwnBucket(part: seq<Value>, v: Value)
    requires Ascending(part) && v in part
    ensures Contains(BucketOf(part), v)
  {
    var i :| 0 <= i < |part| && part[i] == v;
    Reflexive(v);
    assert LessOrEqual(part[0], v) && LessOrEqual(v, part[|part| - 1]);
    CompareFlip(v, part[0]);
  }

  ghost function Sum(xs: seq<real>): real {
    if xs == [] then 0.0 else Sum(xs[..|xs| - 1]) + xs[|xs| - 1]
  }

  lemma {:induction false} SumOfEqual(xs: seq<real>, x: real)
    requires forall i :: 0 <= i < |xs| ==> xs[i] == x
    ensures Sum(xs) == Product(|xs| as real, x)
  {
    if xs != [] {
      SumOfEqual(xs[..|xs| - 1], x);
      assert |xs| as real * x == (|xs| - 1) as real * x + x;
    }
  }

  lemma ShareTimes(rows: nat, distinct: nat, total: nat)
    requires distinct > 0 && total > 0
    ensures Product(Product(distinct as real, rows as real / distinct as real / total as real), total as real)
      == rows as real
  {
    var share := rows as real / distinct as real;
    QuotientTimes(rows as real, distinct as real);
    QuotientTimes(share, total as real);
    var part := share / total as real;
    assert distinct as real * part * total as real == distinct as real * (part * total as real);
  }

  lemma ShareOfFirst(h: Histogram, v: Value, sel: real, k: nat)
    requires h.total > 0 && FirstContaining(h.buckets, v, k) && EqualityEstimate(h, v, sel)
    ensures sel == EvenShare(h, h.buckets[k])
  {
    var i: nat :| FirstContaining(h.buckets, v, i) && sel == EvenShare(h, h.buckets[i]);
    assert i == k;
  }

  /** Where no earlier bucket holds a value of bucket `k`, the estimates of its distinct values add up to its
    * rows' share of the column.
    */
  lemma BucketSharesAddUp(s: seq<Value>, n: nat, k: nat, reps: seq<Value>, sels: seq<real>)
    requires Ascending(s) && k < |EquiDepth(s, n)| && |sels| == |reps|
    requires var part := EquiDepth(s, n)[k];
      |reps| == BucketOf(part).distinct && forall i :: 0 <= i < |reps| ==> reps[i] in part
    requires var h := Histogram(BucketsOf(EquiDepth(s, n)), |s|);
      && (forall i, j :: 0 <= i < |reps| && 0 <= j < k ==> !Contains(h.buckets[j], reps[i]))
      && (forall i :: 0 <= i < |reps| ==> EqualityEstimate(h, reps[i], sels[i]))
    ensures Product(Sum(sels), |s| as real) == |EquiDepth(s, n)[k]| as real
  {
    var parts := EquiDepth(s, n);
    var h := Histogram(BucketsOf(parts), |s|);
    EquiDepthConcat(s, n);
    PartAscends(parts, k);
    assert h.buckets[k] == BucketOf(parts[k]);
    var share := EvenShare(h, h.buckets[k]);
    hide EquiDepth;
    hide Contains;
    hide EqualityEstimate;
    hide BucketOf;
    hide Ascending;
    forall i | 0 <= i < |sels|
      ensures sels[i] == share
    {
      InOwnBucket(parts[k], reps[i]);
      ShareOfFirst(h, reps[i], sels[i], k);
    }
    SumOfEqual(sels, share);
    hide Product;
    BucketCounts(parts[k]);
    ShareTimes(|parts[k]|, |sels|, |s|);
  }

  lemma BucketCounts(part: seq<Value>)
    requires part != []
    ensures BucketOf(part).distinct > 0 && BucketOf(part).rows == |part|
  {
  }

  lemma {:induction false} PartAscends(parts: seq<seq<Value>>, k: nat)
    requires Ascending(Concat(parts)) && k < |parts| && AllNonEmpty(parts)
    ensures Ascending(parts[k]) && Concat(parts) != []
  {
    var init, last := parts[..|parts| - 1], parts[|parts| - 1];
    AscendingParts(Concat(init), last);
    if k < |init| {
      PartAscends(init, k);
    }
  }
}
