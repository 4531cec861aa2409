/** Importing edges from a CSV file: keys resolved in batches, then the pairs written sorted in batches. */
module EdgeImport {
  import opened Json
  import Csv

  type Keys = (string, string)
  type Ids = (nat, nat)

  /** The store a resolving read sees: a vertex for a key of the source or the target label. */
  datatype Resolver = Resolver(src: string -> Option<nat>, dst: string -> Option<nat>)

  // ---------------------------------------------------------------- the rows of the file

  predicate Blank(line: string, space: Csv.Space) {
    Csv.Trim(line, space) == ""
  }

  /** The lines that are not blank. */
  function Filled(lines: seq<string>, space: Csv.Space): seq<string> {
    if lines == [] then []
    else Filled(lines[..|lines| - 1], space) + if Blank(lines[|lines| - 1], space) then [] else [lines[|lines| - 1]]
  }

  /** Every filled line after the header. */
  function DataRows(lines: seq<string>, space: Csv.Space): seq<string> {
    var filled := Filled(lines, space);
    if filled == [] then [] else filled[1..]
  }

  /** The two keys of a row; none where either is missing or empty. */
  function KeysOf(row: string, space: Csv.Space): Option<Keys> {
    var cols := Csv.Fields(row, "", false, space);
    if |cols| < 2 then None
    else
      var s, d := Csv.Trim(cols[0], space), Csv.Trim(cols[1], space);
      if s == "" || d == "" then None else Some((s, d))
  }

  /** A line is blank when there is nothing but spaces in it. */
  lemma BlankIff(line: string, space: Csv.Space)
    ensures Blank(line, space) <==> forall i :: 0 <= i < |line| ==> space(line[i])
  {
    Csv.TrimIs(line, space);
    var a: nat, b: nat :| Csv.TrimsTo(line, Csv.Trim(line, space), a, b, space);
    assert a < b ==> Csv.Trim(line, space)[0] == line[a];
  }

  /** The keys of a written row are its first two fields without the spaces around them. */
  lemma KeysOfWritten(row: seq<string>, space: Csv.Space)
    requires row != []
    ensures KeysOf(Csv.Line(row), space) ==
      if |row| < 2 || Blank(row[0], space) || Blank(row[1], space) then None
      else Some((Csv.Trim(row[0], space), Csv.Trim(row[1], space)))
  {
    Csv.RowReadsBack(row, space);
    forall i | 0 <= i < |row|
      ensures Csv.Trim(Csv.Trim(row[i], space), space) == Csv.Trim(row[i], space)
    {
      Csv.TrimIs(row[i], space);
      Csv.TrimKeepsIff(Csv.Trim(row[i], space), space);
    }
    hide Csv.Line;
    hide Csv.Fields;
    hide Csv.Trim;
  }

  /** The key pairs of the well-formed rows, in order. */
  function Pairs(rows: seq<string>, space: Csv.Space): seq<Keys> {
    if rows == [] then []
    else
      var k := KeysOf(rows[|rows| - 1], space);
      Pairs(rows[..|rows| - 1], space) + if k.Some? then [k.value] else []
  }

  /** The vertex pairs of the key pairs that resolve on both ends, in order. */
  function Resolved(pairs: seq<Keys>, r: Resolver): seq<Ids> {
    if pairs == [] then []
    else
      var (s, d) := pairs[|pairs| - 1];
      var src, dst := r.src(s), r.dst(d);
      Resolved(pairs[..|pairs| - 1], r) + if src.Some? && dst.Some? then [(src.value, dst.value)] else []
  }

  lemma {:induction false} ResolvedConcat(a: seq<Keys>, b: seq<Keys>, r: Resolver)
    ensures Resolved(a + b, r) == Resolved(a, r) + Resolved(b, r)
    ensures |Resolved(b, r)| <= |b|
    decreases |b|
  {
    if b == [] {
      assert a + b == a;
    } else {
      assert (a + b)[..|a + b| - 1] == a + b[..|b| - 1];
      ResolvedConcat(a, b[..|b| - 1], r);
    }
  }

  lemma ResolvedStep(pairs: seq<Keys>, i: nat, r: Resolver)
    requires i < |pairs|
    ensures var src, dst := r.src(pairs[i].0), r.dst(pairs[i].1);
      && (src.Some? && dst.Some? ==>
            Resolved(pairs[..i + 1], r) == Resolved(pairs[..i], r) + [(src.value, dst.value)])
      && (src == None || dst == None ==> Resolved(pairs[..i + 1], r) == Resolved(pairs[..i], r))
  {
    assert pairs[..i + 1][..i] == pairs[..i];
  }

  /** The buffer is the end of the pairs: resolving it resolves all of them. */
  lemma ResolvedNext(pairs: seq<Keys>, buf: seq<Keys>, r: Resolver)
    requires |buf| <= |pairs| && buf == pairs[|pairs| - |buf|..]
    ensures Resolved([], r) == []
    ensures Resolved(pairs, r) == Resolved(pairs[..|pairs| - |buf|], r) + Resolved(buf, r)
    ensures |Resolved(buf, r)| <= |buf|
  {
    var done := pairs[..|pairs| - |buf|];
    assert pairs == done + buf;
    ResolvedConcat(done, buf, r);
  }

  // ---------------------------------------------------------------- sorting

  predicate Before(a: Ids, b: Ids) {
    a.0 < b.0 || (a.0 == b.0 && a.1 <= b.1)
  }

  predicate Sorted(s: seq<Ids>) {
    forall i, j :: 0 <= i < j < |s| ==> Before(s[i], s[j])
  }

  function Inserted(s: seq<Ids>, x: Ids): seq<Ids> {
    if s == [] then [x]
    else if Before(s[|s| - 1], x) then s + [x]
    else Inserted(s[..|s| - 1], x) + [s[|s| - 1]]
  }

  function SortedPairs(s: seq<Ids>): seq<Ids> {
    if s == [] then [] else Inserted(SortedPairs(s[..|s| - 1]), s[|s| - 1])
  }

  lemma SortedIsAscending(t: seq<Ids>)
    ensures Sorted(t) <==>
      forall i, j :: 0 <= i < j < |t| ==> t[i].0 < t[j].0 || (t[i].0 == t[j].0 && t[i].1 <= t[j].1)
  {
  }

  lemma {:induction false} InsertedSorted(s: seq<Ids>, x: Ids)
    requires Sorted(s)
    ensures Sorted(Inserted(s, x)) && multiset(Inserted(s, x)) == multiset(s) + multiset{x}
  {
    if s != [] {
      var init, last := s[..|s| - 1], s[|s| - 1];
      assert s == init + [last];
      if !Before(last, x) {
        InsertedSorted(init, x);
        var r := Inserted(init, x);
        forall i | 0 <= i < |r|
          ensures Before(r[i], last)
        {
          assert r[i] in multiset(r);
          assert r[i] == x || r[i] in init;
        }
      }
    }
  }

  lemma {:induction false} SortedPairsKeep(s: seq<Ids>)
    ensures Sorted(SortedPairs(s)) && multiset(SortedPairs(s)) == multiset(s)
  {
    hide Inserted;
    hide Sorted;
    if s == [] {
      NothingSorted();
    } else {
      var init, last := s[..|s| - 1], s[|s| - 1];
      SortedPairsKeep(init);
      assert SortedPairs(s) == Inserted(SortedPairs(init), last);
      hide SortedPairs;
      InsertedSorted(SortedPairs(init), last);
      OneMorePair(s);
    }
  }

  lemma NothingSorted()
    ensures Sorted([]) && SortedPairs([]) == []
  {
  }

  lemma OneMorePair(s: seq<Ids>)
    requires s != []
    ensures multiset(s) == multiset(s[..|s| - 1]) + multiset{s[|s| - 1]}
  {
    assert s == s[..|s| - 1] + [s[|s| - 1]];
  }

  lemma SortedLength(s: seq<Ids>)
    ensures |SortedPairs(s)| == |s|
  {
    SortedPairsKeep(s);
    SameSize(SortedPairs(s), s);
  }

  /** Ascending by the first vertex and then by the second, each pair as often as it was given. */
  lemma SortedPairsSorted(s: seq<Ids>)
    ensures multiset(SortedPairs(s)) == multiset(s)
    ensures var t := SortedPairs(s);
      forall i, j :: 0 <= i < j < |t| ==> t[i].0 < t[j].0 || (t[i].0 == t[j].0 && t[i].1 <= t[j].1)
  {
    hide *;
    SortedPairsKeep(s);
    SortedIsAscending(SortedPairs(s));
  }

  lemma LastIsGreatest(s: seq<Ids>, x: Ids)
    requires Sorted(s) && s != [] && x in multiset(s)
    ensures Before(x, s[|s| - 1])
  {
    assert x in s;
  }

  lemma DropLast(s: seq<Ids>)
    requires Sorted(s) && s != []
    ensures Sorted(s[..|s| - 1]) && multiset(s) == multiset(s[..|s| - 1]) + multiset{s[|s| - 1]}
    ensures s[|s| - 1] in multiset(s) && s == s[..|s| - 1] + [s[|s| - 1]]
  {
    assert s == s[..|s| - 1] + [s[|s| - 1]];
  }

  lemma Cancel(a: multiset<Ids>, b: multiset<Ids>, x: Ids)
    requires a + multiset{x} == b + multiset{x}
    ensures a == b
  {
    assert a == (a + multiset{x}) - multiset{x};
    assert b == (b + multiset{x}) - multiset{x};
  }

  /** There is only one sorted order of the pairs, so it does not matter how they were sorted. */
  lemma {:induction false} SortIsUnique(s: seq<Ids>, t: seq<Ids>)
    requires Sorted(s) && Sorted(t) && multiset(s) == multiset(t)
    ensures s == t
    decreases |s|
  {
    SameSize(s, t);
    if s != [] {
      hide Sorted;
      var n := |s| - 1;
      DropLast(s);
      DropLast(t);
      LastIsGreatest(t, s[n]);
      LastIsGreatest(s, t[n]);
      Cancel(multiset(s[..n]), multiset(t[..n]), s[n]);
      SortIsUnique(s[..n], t[..n]);
    }
  }

  // ---------------------------------------------------------------- the import

  datatype Failure = EmptyFile | ReadFailed | ResolveFailed | InsertFailed

  /** What can fail and when: reading a line, resolving a batch, writing a batch. */
  datatype Faults = Faults(line: nat -> bool, resolve: nat -> bool, insert: nat -> bool)

  function AtLeastOne(batchSize: nat): (size: nat)
    ensures size > 0 && (batchSize > 0 ==> size == batchSize) && (batchSize == 0 ==> size == 1)
  {
    if batchSize < 1 then 1 else batchSize
  }

  ghost predicate NoneBefore(fails: nat -> bool, k: nat) {
    forall j: nat :: j < k ==> !fails(j)
  }

  ghost predicate FirstAt(fails: nat -> bool, k: nat) {
    fails(k) && NoneBefore(fails, k)
  }

  /** Of `n` pairs, all but those buffered were resolved, in full batches. */
  ghost predicate Batched(n: nat, buffered: nat, batches: nat, size: nat) {
    buffered < size && n == Times(size, batches) + buffered
  }

  /** All `n` pairs were resolved, the last batch being what was left. */
  ghost predicate AllBatched(n: nat, batches: nat, size: nat) {
    n <= Times(size, batches) < n + size
  }

  /** Line `i` could not be read, and nothing failed before. */
  ghost predicate StopsReading(
    lines: seq<string>, i: nat, faults: Faults, batches: nat, size: nat, space: Csv.Space)
  {
    && i < |lines| && FirstAt(faults.line, i) && NoneBefore(faults.resolve, batches)
    && exists buffered: nat :: Batched(|Pairs(DataRows(lines[..i], space), space)|, buffered, batches, size)
  }

  /** The batch that line `i` completed could not be resolved, and nothing failed before. */
  ghost predicate StopsResolving(
    lines: seq<string>, i: nat, faults: Faults, batches: nat, size: nat, space: Csv.Space)
  {
    && i < |lines| && NoneBefore(faults.line, i + 1)
    && FailedOn(DataRows(lines[..i + 1], space), batches, size, faults, space)
  }

  /** The last batch, after all lines, could not be resolved. */
  ghost predicate StopsAfterReading(lines: seq<string>, faults: Faults, batches: nat, size: nat, space: Csv.Space) {
    && NoneBefore(faults.line, |lines|) && batches > 0 && FirstAt(faults.resolve, batches - 1)
    && AllBatched(|Pairs(DataRows(lines, space), space)|, batches, size)
  }

  lemma NextBatch(n: nat, buffered: nat, batches: nat, size: nat)
    requires Batched(n, buffered, batches, size)
    ensures buffered + 1 == size ==> Batched(n + 1, 0, batches + 1, size) && n + 1 == Times(size, batches + 1)
    ensures buffered + 1 < size ==> Batched(n + 1, buffered + 1, batches, size)
    ensures AllBatched(n, if buffered == 0 then batches else batches + 1, size)
  {
    NextMultiple(size, batches);
  }

  lemma BatchOutcome(fails: nat -> bool, k: nat)
    requires NoneBefore(fails, k)
    ensures if fails(k) then FirstAt(fails, k) else NoneBefore(fails, k + 1)
  {
  }

  /** The pairs committed when transaction `chunk` is the next: whole batches up to the first that fails. */
  function Committed(pairs: seq<Ids>, size: nat, insert: nat -> bool, chunk: nat): seq<Ids>
    requires size > 0
    decreases |pairs|
  {
    if pairs == [] || insert(chunk) then []
    else if |pairs| <= size then pairs
    else pairs[..size] + Committed(pairs[size..], size, insert, chunk + 1)
  }

  /** A prefix; all of the pairs where no transaction fails. */
  lemma {:induction false} CommittedPrefix(pairs: seq<Ids>, size: nat, insert: nat -> bool, chunk: nat)
    requires size > 0
    ensures Committed(pairs, size, insert, chunk) <= pairs
    ensures (forall k :: chunk <= k ==> !insert(k)) ==> Committed(pairs, size, insert, chunk) == pairs
    decreases |pairs|
  {
    if |pairs| > size && !insert(chunk) {
      assert pairs == pairs[..size] + pairs[size..];
      CommittedPrefix(pairs[size..], size, insert, chunk + 1);
    }
  }

  lemma NothingMore(pairs: seq<Ids>, size: nat, insert: nat -> bool, chunk: nat)
    requires size > 0
    ensures pairs[|pairs|..] == [] && Committed([], size, insert, chunk) == []
    ensures pairs[..|pairs|] == pairs
  {
  }

  /** The next transaction fails, or commits the next batch. */
  lemma CommittedStep(pairs: seq<Ids>, at: nat, n: nat, size: nat, insert: nat -> bool, chunk: nat)
    requires size > 0 && at < |pairs| && n == if |pairs| - at < size then |pairs| - at else size
    ensures insert(chunk) ==> Committed(pairs[at..], size, insert, chunk) == []
    ensures !insert(chunk) ==>
      (pairs[..at] + Committed(pairs[at..], size, insert, chunk)
       == pairs[..at + n] + Committed(pairs[at + n..], size, insert, chunk + 1))
    ensures pairs[..at + n] == pairs[..at] + pairs[at..at + n]
  {
    var rest, taken, later := pairs[at..], pairs[at..at + n], pairs[at + n..];
    assert rest[..n] == taken && rest[n..] == later;
    if !insert(chunk) {
      var more := Committed(later, size, insert, chunk + 1);
      assert Committed(rest, size, insert, chunk) == taken + more by {
        if n < size || |rest| == size {
          assert rest == taken && more == [];
        }
      }
      hide Committed;
      assert pairs[..at] + (taken + more) == pairs[..at] + taken + more;
    }
  }

  /** The edges a file asks for: the sorted resolved pairs of its well-formed rows. */
  function EdgesOf(lines: seq<string>, r: Resolver, space: Csv.Space): seq<Ids> {
    SortedPairs(Resolved(Pairs(DataRows(lines, space), space), r))
  }

  /** The buffer is the end of the pairs; those before it are resolved or counted as unresolved. */
  ghost predicate Upto(pairs: seq<Keys>, buf: seq<Keys>, resolved: seq<Ids>, unresolved: nat, r: Resolver) {
    && |buf| <= |pairs| && buf == pairs[|pairs| - |buf|..]
    && resolved == Resolved(pairs[..|pairs| - |buf|], r)
    && |resolved| + unresolved == |pairs| - |buf|
  }

  /** Resolving the buffer accounts for every pair. */
  lemma BufferResolved(pairs: seq<Keys>, buf: seq<Keys>, resolved: seq<Ids>, unresolved: nat, r: Resolver)
    requires Upto(pairs, buf, resolved, unresolved, r)
    ensures |Resolved(buf, r)| <= |buf|
    ensures Upto(pairs, [], resolved + Resolved(buf, r), unresolved + (|buf| - |Resolved(buf, r)|), r)
  {
    ResolvedNext(pairs, buf, r);
    assert pairs[|pairs|..] == [] && pairs[..|pairs|] == pairs;
  }

  lemma EmptyBuffer(pairs: seq<Keys>, resolved: seq<Ids>, unresolved: nat, r: Resolver)
    requires Upto(pairs, [], resolved, unresolved, r)
    ensures resolved == Resolved(pairs, r) && |resolved| + unresolved == |pairs|
  {
    assert pairs[..|pairs|] == pairs;
  }

  /** One more pair in the buffer. */
  lemma BufferedPair(pairs: seq<Keys>, buf: seq<Keys>, resolved: seq<Ids>, unresolved: nat, r: Resolver, k: Keys)
    requires Upto(pairs, buf, resolved, unresolved, r)
    ensures Upto(pairs + [k], buf + [k], resolved, unresolved, r)
  {
    var all, more := pairs + [k], buf + [k];
    assert more == all[|all| - |more|..] && all[..|all| - |more|] == pairs[..|pairs| - |buf|];
  }

  /** The pairs of one read view. */
  method ResolveEach(batch: seq<Keys>, r: Resolver) returns (found: seq<Ids>)
    ensures found == Resolved(batch, r)
  {
    found := [];
    for i := 0 to |batch|
      invariant found == Resolved(batch[..i], r)
    {
      ResolvedStep(batch, i, r);
      hide Resolved;
      var src, dst := r.src(batch[i].0), r.dst(batch[i].1);
      if src.Some? && dst.Some? {
        found := found + [(src.value, dst.value)];
      }
    }
    assert batch[..|batch|] == batch;
  }

  /** Every data row so far is buffered, resolved or counted; no resolved batch failed. */
  ghost predicate Counted(
    rows: seq<string>, buf: seq<Keys>, resolved: seq<Ids>, unresolved: nat, malformed: nat, batches: nat,
    r: Resolver, size: nat, faults: Faults, space: Csv.Space)
  {
    && Upto(Pairs(rows, space), buf, resolved, unresolved, r) && malformed + |Pairs(rows, space)| == |rows|
    && Batched(|Pairs(rows, space)|, |buf|, batches, size) && NoneBefore(faults.resolve, batches)
  }

  /** The last batch these rows complete could not be resolved, the first to fail. */
  ghost predicate FailedOn(rows: seq<string>, batches: nat, size: nat, faults: Faults, space: Csv.Space) {
    batches > 0 && FirstAt(faults.resolve, batches - 1) && |Pairs(rows, space)| == Times(size, batches)
  }

  lemma NothingCounted(r: Resolver, size: nat, faults: Faults, space: Csv.Space)
    requires size > 0
    ensures Counted([], [], [], 0, 0, 0, r, size, faults, space)
  {
    NoBatches(size);
    hide Times;
  }

  lemma NoBatches(size: nat)
    ensures Times(size, 0) == 0
  {
  }

  lemma MalformedRow(
    rows: seq<string>, row: string, buf: seq<Keys>, resolved: seq<Ids>, unresolved: nat, malformed: nat, batches: nat,
    r: Resolver, size: nat, faults: Faults, space: Csv.Space)
    requires Counted(rows, buf, resolved, unresolved, malformed, batches, r, size, faults, space)
    requires KeysOf(row, space) == None
    ensures Counted(rows + [row], buf, resolved, unresolved, malformed + 1, batches, r, size, faults, space)
  {
    PairsStep(rows, row, space);
    hide Pairs;
    hide KeysOf;
    hide Upto;
    hide Batched;
  }

  /** A row with keys goes to the buffer; the full buffer is not accounted for until it is resolved. */
  lemma GoodRow(
    rows: seq<string>, row: string, k: Keys, buf: seq<Keys>, resolved: seq<Ids>, unresolved: nat, malformed: nat,
    batches: nat, r: Resolver, size: nat, faults: Faults, space: Csv.Space)
    requires Counted(rows, buf, resolved, unresolved, malformed, batches, r, size, faults, space)
    requires KeysOf(row, space) == Some(k)
    ensures var all := rows + [row];
      && Upto(Pairs(all, space), buf + [k], resolved, unresolved, r) && malformed + |Pairs(all, space)| == |all|
      && NoneBefore(faults.resolve, batches)
      && (|buf| + 1 < size ==>
            Counted(all, buf + [k], resolved, unresolved, malformed, batches, r, size, faults, space))
      && (|buf| + 1 >= size ==>
            Batched(|Pairs(all, space)|, 0, batches + 1, size) && |Pairs(all, space)| == Times(size, batches + 1))
  {
    PairsStep(rows, row, space);
    BufferedPair(Pairs(rows, space), buf, resolved, unresolved, r, k);
    NextBatch(|Pairs(rows, space)|, |buf|, batches, size);
    hide Pairs;
    hide KeysOf;
    hide Upto;
    hide Times;
  }

  lemma FullBatch(
    rows: seq<string>, resolved: seq<Ids>, unresolved: nat, malformed: nat, batches: nat,
    r: Resolver, size: nat, faults: Faults, space: Csv.Space)
    requires Upto(Pairs(rows, space), [], resolved, unresolved, r) && malformed + |Pairs(rows, space)| == |rows|
    requires Batched(|Pairs(rows, space)|, 0, batches + 1, size)
    requires NoneBefore(faults.resolve, batches) && !faults.resolve(batches)
    ensures Counted(rows, [], resolved, unresolved, malformed, batches + 1, r, size, faults, space)
  {
  }

  lemma FullBatchFails(rows: seq<string>, batches: nat, size: nat, faults: Faults, space: Csv.Space)
    requires NoneBefore(faults.resolve, batches) && faults.resolve(batches)
    requires |Pairs(rows, space)| == Times(size, batches + 1)
    ensures FailedOn(rows, batches + 1, size, faults, space)
  {
  }

  class Import {
    var buf: seq<Keys>
    var resolved: seq<Ids>
    var inserted: nat
    var unresolved: nat
    var malformed: nat
    /** How many batches were resolved. */
    var batches: nat
    /** The edges of the committed write transactions. */
    var written: seq<Ids>

    constructor ()
      ensures buf == [] && resolved == [] && inserted == 0 && unresolved == 0 && malformed == 0
      ensures written == [] && batches == 0
    {
      buf, resolved, inserted, unresolved, malformed, batches, written := [], [], 0, 0, 0, 0, [];
    }

    /** Of the pairs read so far, those before the buffer are resolved or counted as unresolved. */
    ghost predicate Holds(pairs: seq<Keys>, r: Resolver)
      reads this
    {
      Upto(pairs, buf, resolved, unresolved, r)
    }

    lemma HoldsNothing(pairs: seq<Keys>, r: Resolver)
      requires Holds(pairs, r) && buf == []
      ensures resolved == Resolved(pairs, r) && |resolved| + unresolved == |pairs|
    {
      EmptyBuffer(pairs, resolved, unresolved, r);
    }

    /** Resolve the buffered pairs in one read view and clear the buffer. */
    method ResolveBatch(r: Resolver, faults: Faults, ghost pairs: seq<Keys>) returns (ok: bool)
      requires Holds(pairs, r)
      modifies this
      ensures ok <==> old(buf) == [] || !faults.resolve(old(batches))
      ensures batches == old(batches) + if old(buf) == [] then 0 else 1
      ensures ok ==> Holds(pairs, r) && buf == []
      ensures malformed == old(malformed) && inserted == old(inserted) && written == old(written)
    {
      if buf == [] {
        return true;
      }
      batches := batches + 1;
      if faults.resolve(batches - 1) {
        return false;
      }
      BufferResolved(pairs, buf, resolved, unresolved, r);
      hide Resolved;
      hide Upto;
      var found := ResolveEach(buf, r);
      resolved := resolved + found;
      unresolved := unresolved + (|buf| - |found|);
      buf := [];
      ok := true;
    }

    /** Write the pairs, a batch a transaction; `inserted` advances with every committed one. */
    method InsertResolved(pairs: seq<Ids>, batchSize: nat, faults: Faults) returns (ok: bool)
      requires written == [] && inserted == 0
      modifies this
      ensures written == Committed(pairs, AtLeastOne(batchSize), faults.insert, 0) && inserted == |written|
      ensures ok <==> written == pairs
      ensures buf == old(buf) && resolved == old(resolved)
      ensures unresolved == old(unresolved) && malformed == old(malformed) && batches == old(batches)
    {
      var size := AtLeastOne(batchSize);
      var at, chunk := 0, 0;
      assert pairs[0..] == pairs;
      assert [] + Committed(pairs, size, faults.insert, 0) == Committed(pairs, size, faults.insert, 0);
      hide Committed;
      while at < |pairs|
        invariant 0 <= at <= |pairs| && written == pairs[..at] && inserted == at
        invariant Committed(pairs, size, faults.insert, 0)
          == pairs[..at] + Committed(pairs[at..], size, faults.insert, chunk)
        invariant buf == old(buf) && resolved == old(resolved)
        invariant unresolved == old(unresolved) && malformed == old(malformed) && batches == old(batches)
        decreases |pairs| - at
      {
        var n := if |pairs| - at < size then |pairs| - at else size;
        CommittedStep(pairs, at, n, size, faults.insert, chunk);
        if faults.insert(chunk) {
          return false;
        }
        written := written + pairs[at..at + n];
        inserted := inserted + n;
        at, chunk := at + n, chunk + 1;
      }
      NothingMore(pairs, size, faults.insert, chunk);
      ok := true;
    }

    ghost predicate Accounts(rows: seq<string>, r: Resolver, size: nat, faults: Faults, space: Csv.Space)
      reads this
    {
      && inserted == 0 && written == []
      && Counted(rows, buf, resolved, unresolved, malformed, batches, r, size, faults, space)
    }

    /** Buffer one data row's keys, resolving the buffer once it is full, or count the row as malformed. */
    method TakeRow(row: string, r: Resolver, size: nat, faults: Faults, space: Csv.Space, ghost rows: seq<string>)
      returns (ok: bool)
      requires Accounts(rows, r, size, faults, space)
      modifies this
      ensures inserted == 0 && written == []
      ensures ok ==> Accounts(rows + [row], r, size, faults, space)
      ensures !ok ==> FailedOn(rows + [row], batches, size, faults, space)
    {
      hide Counted;
      hide KeysOf;
      hide FailedOn;
      hide Upto;
      hide Pairs;
      hide Times;
      hide Batched;
      hide Resolved;
      var keys := KeysOf(row, space);
      if keys == None {
        MalformedRow(rows, row, buf, resolved, unresolved, malformed, batches, r, size, faults, space);
        malformed := malformed + 1;
        return true;
      }
      GoodRow(rows, row, keys.value, buf, resolved, unresolved, malformed, batches, r, size, faults, space);
      buf := buf + [keys.value];
      ok := true;
      if |buf| >= size {
        ghost var before := batches;
        ok := ResolveBatch(r, faults, Pairs(rows + [row], space));
        if ok {
          FullBatch(rows + [row], resolved, unresolved, malformed, before, r, size, faults, space);
        } else {
          FullBatchFails(rows + [row], before, size, faults, space);
        }
      }
    }

    /** Read the lines, skipping blank ones and the header; buffer or count each row. */
    method ReadRows(lines: seq<string>, r: Resolver, batchSize: nat, faults: Faults, space: Csv.Space)
      returns (failure: Option<Failure>)
      requires buf == [] && resolved == [] && inserted == 0 && unresolved == 0 && malformed == 0 && written == []
      requires batches == 0
      modifies this
      ensures inserted == 0 && written == []
      ensures var size := AtLeastOne(batchSize);
        match failure
        case None =>
          && Filled(lines, space) != [] && NoneBefore(faults.line, |lines|)
          && Accounts(DataRows(lines, space), r, size, faults, space)
        case Some(EmptyFile) => Filled(lines, space) == [] && NoneBefore(faults.line, |lines|)
        case Some(ReadFailed) => exists i: nat :: StopsReading(lines, i, faults, batches, size, space)
        case Some(ResolveFailed) => exists i: nat :: StopsResolving(lines, i, faults, batches, size, space)
        case Some(InsertFailed) => false
    {
      var size := AtLeastOne(batchSize);
      var sawHeader := false;
      assert Filled(lines[..0], space) == [] && DataRows(lines[..0], space) == [];
      NothingCounted(r, size, faults, space);
      hide Counted;
      hide Filled;
      hide Blank;
      hide DataRows;
      hide FailedOn;
      hide StopsReading;
      for i := 0 to |lines|
        invariant inserted == 0 && written == [] && NoneBefore(faults.line, i)
        invariant sawHeader == (Filled(lines[..i], space) != [])
        invariant Accounts(DataRows(lines[..i], space), r, size, faults, space)
      {
        if faults.line(i) {
          ReadingStops(lines, i, buf, resolved, unresolved, malformed, batches, r, size, faults, space);
          return Some(ReadFailed);
        }
        LinesStep(lines, i, space);
        if !Blank(lines[i], space) {
          if sawHeader {
            var ok := TakeRow(lines[i], r, size, faults, space, DataRows(lines[..i], space));
            if !ok {
              assert StopsResolving(lines, i, faults, batches, size, space);
              return Some(ResolveFailed);
            }
          }
          sawHeader := true;
        }
      }
      assert lines[..|lines|] == lines;
      if !sawHeader {
        return Some(EmptyFile);
      }
      failure := None;
    }

    /** The rest of the buffer resolved, then the pairs sorted and written. */
    method WriteAll(r: Resolver, batchSize: nat, faults: Faults, ghost pairs: seq<Keys>)
      returns (failure: Option<Failure>)
      requires Holds(pairs, r) && inserted == 0 && written == []
      requires Batched(|pairs|, |buf|, batches, AtLeastOne(batchSize)) && NoneBefore(faults.resolve, batches)
      modifies this
      ensures malformed == old(malformed) && inserted == |written|
      ensures AllBatched(|pairs|, batches, AtLeastOne(batchSize))
      ensures failure == None ==> written == SortedPairs(Resolved(pairs, r)) && inserted + unresolved == |pairs|
      ensures failure == Some(ResolveFailed) ==> written == [] && batches > 0 && FirstAt(faults.resolve, batches - 1)
      ensures failure != Some(ResolveFailed) ==>
        && written == Committed(SortedPairs(Resolved(pairs, r)), AtLeastOne(batchSize), faults.insert, 0)
        && NoneBefore(faults.resolve, batches)
      ensures failure == Some(InsertFailed) ==> written != SortedPairs(Resolved(pairs, r))
      ensures failure.Some? ==> failure.value.ResolveFailed? || failure.value.InsertFailed?
    {
      NextBatch(|pairs|, |buf|, batches, AtLeastOne(batchSize));
      BatchOutcome(faults.resolve, batches);
      hide *;
      var ok := ResolveBatch(r, faults, pairs);
      if !ok {
        return Some(ResolveFailed);
      }
      HoldsNothing(pairs, r);
      SortedLength(resolved);
      resolved := SortedPairs(resolved);
      ok := InsertResolved(resolved, batchSize, faults);
      failure := if ok then None else Some(InsertFailed);
    }

    /** The whole import. On success every data row is inserted, unresolved or malformed, and the edges
      * written are the sorted resolved pairs whatever the batch size. The failure reported is the first
      * one met. Nothing is written when reading or resolving fails; when writing does, exactly the
      * batches before the failing one are.
      */
    method Run(lines: seq<string>, r: Resolver, batchSize: nat, faults: Faults, space: Csv.Space)
      returns (failure: Option<Failure>)
      requires buf == [] && resolved == [] && inserted == 0 && unresolved == 0 && malformed == 0 && written == []
      requires batches == 0
      modifies this
      ensures inserted == |written|
      ensures failure == None ==>
        written == EdgesOf(lines, r, space) && inserted + unresolved + malformed == |DataRows(lines, space)|
      ensures var size := AtLeastOne(batchSize);
        match failure
        case Some(EmptyFile) => written == [] && Filled(lines, space) == [] && NoneBefore(faults.line, |lines|)
        case Some(ReadFailed) => written == [] && exists i: nat :: StopsReading(lines, i, faults, batches, size, space)
        case Some(ResolveFailed) =>
          && written == []
          && (StopsAfterReading(lines, faults, batches, size, space)
              || exists i: nat :: StopsResolving(lines, i, faults, batches, size, space))
        case _ =>
          && Filled(lines, space) != [] && NoneBefore(faults.line, |lines|) && NoneBefore(faults.resolve, batches)
          && AllBatched(|Pairs(DataRows(lines, space), space)|, batches, size)
          && written == Committed(EdgesOf(lines, r, space), size, faults.insert, 0)
          && (failure == None <==> written == EdgesOf(lines, r, space))
    {
      hide DataRows;
      hide Pairs;
      hide Resolved;
      hide SortedPairs;
      hide Filled;
      hide Batched;
      hide AllBatched;
      hide StopsReading;
      hide StopsResolving;
      failure := ReadRows(lines, r, batchSize, faults, space);
      if failure == None {
        failure := WriteAll(r, batchSize, faults, Pairs(DataRows(lines, space), space));
      }
    }
  }

  lemma ReadingStops(
    lines: seq<string>, i: nat, buf: seq<Keys>, resolved: seq<Ids>, unresolved: nat, malformed: nat, batches: nat,
    r: Resolver, size: nat, faults: Faults, space: Csv.Space)
    requires i < |lines| && FirstAt(faults.line, i)
    requires Counted(
      DataRows(lines[..i], space), buf, resolved, unresolved, malformed, batches, r, size, faults, space)
    ensures StopsReading(lines, i, faults, batches, size, space)
  {
    assert Batched(|Pairs(DataRows(lines[..i], space), space)|, |buf|, batches, size);
  }

  lemma PairsStep(rows: seq<string>, row: string, space: Csv.Space)
    ensures var k := KeysOf(row, space);
      && (k.Some? ==> Pairs(rows + [row], space) == Pairs(rows, space) + [k.value])
      && (k == None ==> Pairs(rows + [row], space) == Pairs(rows, space))
  {
    assert (rows + [row])[..|rows|] == rows;
  }

  /** What one more line adds to the filled lines and to the rows after the header. */
  lemma LinesStep(lines: seq<string>, i: nat, space: Csv.Space)
    requires i < |lines|
    ensures var now, next := lines[..i], lines[..i + 1];
      && (Blank(lines[i], space) ==>
            (Filled(next, space) == [] <==> Filled(now, space) == []) && DataRows(next, space) == DataRows(now, space))
      && (!Blank(lines[i], space) ==> Filled(next, space) != [])
      && (!Blank(lines[i], space) && Filled(now, space) == [] ==> DataRows(next, space) == DataRows(now, space))
      && (!Blank(lines[i], space) && Filled(now, space) != [] ==>
            DataRows(next, space) == DataRows(now, space) + [lines[i]])
  {
    var now, next := lines[..i], lines[..i + 1];
    assert next[..|next| - 1] == now;
    if Blank(lines[i], space) {
      assert Filled(now, space) + [] == Filled(now, space);
    } else if Filled(now, space) != [] {
      assert (Filled(now, space) + [lines[i]])[1..] == Filled(now, space)[1..] + [lines[i]];
    }
  }

  lemma SameSize(a: seq<Ids>, b: seq<Ids>)
    requires multiset(a) == multiset(b)
    ensures |a| == |b|
  {
    assert |multiset(a)| == |multiset(b)|;
  }
}
