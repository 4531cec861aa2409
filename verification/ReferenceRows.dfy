/** The reference evaluator: every assignment of a hop chain with pairwise distinct relationships. */
module ReferenceRows {
  /** A directed relationship; its identity is its position in the list. */
  type Edge = (nat, nat)

  /** Neighbours with the relationship reaching them, in both directions. */
  datatype Graph = Graph(out: seq<seq<(nat, nat)>>, inc: seq<seq<(nat, nat)>>)

  datatype Query = Query(sources: seq<nat>, hops: seq<bool>, cycle: bool)   // a hop is incoming or outgoing

  /** Bound variables and the relationships bound between them. */
  datatype Item = Item(vars: seq<nat>, used: seq<nat>)

  predicate EdgesWithin(knows: seq<Edge>, n: nat) {
    forall e :: 0 <= e < |knows| ==> knows[e].0 < n && knows[e].1 < n
  }

  // ---------------------------------------------------------------- the graph

  /** The end a list leads to and the end it starts from. */
  function Ends(knows: seq<Edge>, e: nat, incoming: bool): (nat, nat)
    requires e < |knows|
  {
    if incoming then (knows[e].1, knows[e].0) else knows[e]
  }

  /** `list` holds the first `k` relationships at `v` in order, each once. */
  ghost predicate Lists(list: seq<(nat, nat)>, knows: seq<Edge>, k: nat, v: nat, incoming: bool) {
    && k <= |knows|
    && (forall i :: 0 <= i < |list| ==> list[i].1 < k && Ends(knows, list[i].1, incoming) == (v, list[i].0))
    && (forall i, j :: 0 <= i < j < |list| ==> list[i].1 < list[j].1)
    && (forall e :: 0 <= e < k && Ends(knows, e, incoming).0 == v ==> (Ends(knows, e, incoming).1, e) in list)
  }

  ghost predicate ListsAll(lists: seq<seq<(nat, nat)>>, knows: seq<Edge>, k: nat, n: nat, incoming: bool) {
    |lists| == n && forall v :: 0 <= v < n ==> Lists(lists[v], knows, k, v, incoming)
  }

  ghost predicate Represents(g: Graph, knows: seq<Edge>, n: nat) {
    ListsAll(g.out, knows, |knows|, n, false) && ListsAll(g.inc, knows, |knows|, n, true)
  }

  /** The first `k` relationships at `v`, in order. */
  function ListOf(knows: seq<Edge>, k: nat, v: nat, incoming: bool): seq<(nat, nat)>
    requires k <= |knows|
  {
    if k == 0 then []
    else
      var ends := Ends(knows, k - 1, incoming);
      ListOf(knows, k - 1, v, incoming) + if ends.0 == v then [(ends.1, k - 1)] else []
  }

  function ListsOf(knows: seq<Edge>, k: nat, n: nat, incoming: bool): (r: seq<seq<(nat, nat)>>)
    requires k <= |knows|
    ensures |r| == n
  {
    seq(n, v requires 0 <= v < n && k <= |knows| => ListOf(knows, k, v, incoming))
  }

  function GraphOf(knows: seq<Edge>, n: nat): Graph {
    Graph(ListsOf(knows, |knows|, n, false), ListsOf(knows, |knows|, n, true))
  }

  lemma {:induction false} ListOfLists(knows: seq<Edge>, k: nat, v: nat, incoming: bool)
    requires k <= |knows|
    ensures Lists(ListOf(knows, k, v, incoming), knows, k, v, incoming)
  {
    if k > 0 {
      ListOfLists(knows, k - 1, v, incoming);
      var before, list := ListOf(knows, k - 1, v, incoming), ListOf(knows, k, v, incoming);
      forall e | 0 <= e < k && Ends(knows, e, incoming).0 == v
        ensures (Ends(knows, e, incoming).1, e) in list
      {
        if e < k - 1 {
          assert (Ends(knows, e, incoming).1, e) in before;
        } else {
          assert list[|before|] == (Ends(knows, e, incoming).1, e);
        }
      }
    }
  }

  /** The two adjacencies list every relationship at its ends, once each. */
  lemma GraphRepresents(knows: seq<Edge>, n: nat)
    ensures Represents(GraphOf(knows, n), knows, n)
  {
    forall v | 0 <= v < n
      ensures Lists(GraphOf(knows, n).out[v], knows, |knows|, v, false)
      ensures Lists(GraphOf(knows, n).inc[v], knows, |knows|, v, true)
    {
      ListOfLists(knows, |knows|, v, false);
      ListOfLists(knows, |knows|, v, true);
    }
  }

  lemma ListsOfNext(knows: seq<Edge>, k: nat, n: nat, incoming: bool)
    requires k < |knows| && Ends(knows, k, incoming).0 < n
    ensures var (v, to) := Ends(knows, k, incoming);
      ListsOf(knows, k + 1, n, incoming)
      == ListsOf(knows, k, n, incoming)[v := ListsOf(knows, k, n, incoming)[v] + [(to, k)]]
  {
    var (v, to) := Ends(knows, k, incoming);
    var now, next := ListsOf(knows, k, n, incoming), ListsOf(knows, k + 1, n, incoming);
    var updated := now[v := now[v] + [(to, k)]];
    forall u | 0 <= u < n
      ensures next[u] == updated[u]
    {
      assert next[u] == ListOf(knows, k + 1, u, incoming) && now[u] == ListOf(knows, k, u, incoming);
    }
    assert next == updated;
  }

  /** Both adjacencies in one pass over the relationships. */
  method Build(knows: seq<Edge>, n: nat) returns (g: Graph)
    requires EdgesWithin(knows, n)
    ensures g == GraphOf(knows, n)
  {
    var out: seq<seq<(nat, nat)>> := seq(n, _ => []);
    var inc: seq<seq<(nat, nat)>> := seq(n, _ => []);
    for e := 0 to |knows|
      invariant out == ListsOf(knows, e, n, false) && inc == ListsOf(knows, e, n, true)
    {
      var (src, dst) := knows[e];
      ListsOfNext(knows, e, n, false);
      ListsOfNext(knows, e, n, true);
      out := out[src := out[src] + [(dst, e)]];
      inc := inc[dst := inc[dst] + [(src, e)]];
    }
    g := Graph(out, inc);
  }

  // ---------------------------------------------------------------- what a match is

  /** The vertices a query walks over exist. */
  ghost predicate Bound(item: Item, n: nat) {
    |item.vars| > 0 && forall i :: 0 <= i < |item.vars| ==> item.vars[i] < n
  }

  /** Relationship `i` joins variables `i` and `i + 1`, the way the hop says. */
  ghost predicate Joined(item: Item, knows: seq<Edge>, q: Query, i: nat) {
    && i < |item.used| && i + 1 < |item.vars| && i < |q.hops| && item.used[i] < |knows|
    && Ends(knows, item.used[i], q.hops[i]) == (item.vars[i], item.vars[i + 1])
  }

  ghost predicate Unique(used: seq<nat>) {
    forall i, j :: 0 <= i < j < |used| ==> used[i] != used[j]
  }

  /** A partial assignment: the first hops are bound, each to a relationship of its own. */
  ghost predicate IsPartial(item: Item, knows: seq<Edge>, q: Query, n: nat) {
    && Bound(item, n) && |item.used| == |item.vars| - 1 <= |q.hops|
    && (forall i :: 0 <= i < |item.used| ==> Joined(item, knows, q, i))
    && Unique(item.used)
  }

  /** The relationship that closes a cycle goes out of the last variable to the first. */
  ghost predicate Closes(vars: seq<nat>, knows: seq<Edge>, e: nat) {
    |vars| > 0 && e < |knows| && knows[e] == (vars[|vars| - 1], vars[0])
  }

  /** A complete match of the pattern: no relationship fills two slots, the closing one included. */
  ghost predicate IsMatch(m: Item, knows: seq<Edge>, q: Query, n: nat) {
    && Bound(m, n) && |m.vars| == |q.hops| + 1 && |m.used| == |q.hops| + (if q.cycle then 1 else 0)
    && (forall i :: 0 <= i < |q.hops| ==> Joined(m, knows, q, i))
    && Unique(m.used)
    && (q.cycle ==> Closes(m.vars, knows, m.used[|q.hops|]))
  }

  ghost predicate Extends(m: Item, item: Item) {
    item.vars <= m.vars && item.used <= m.used
  }

  // ---------------------------------------------------------------- the search

  function EdgesFrom(g: Graph, item: Item, q: Query): seq<(nat, nat)>
    requires |item.vars| > 0 && |item.vars| - 1 < |q.hops|
    requires item.vars[|item.vars| - 1] < |g.out| && item.vars[|item.vars| - 1] < |g.inc|
  {
    var from := item.vars[|item.vars| - 1];
    if q.hops[|item.vars| - 1] then g.inc[from] else g.out[from]
  }

  function Step(item: Item, next: (nat, nat)): Item {
    Item(item.vars + [next.0], item.used + [next.1])
  }

  /** The items pushed for the first relationships of the list: those not used yet. */
  function Pushed(item: Item, edges: seq<(nat, nat)>): seq<Item> {
    if edges == [] then []
    else
      var last := edges[|edges| - 1];
      Pushed(item, edges[..|edges| - 1]) + if last.1 in item.used then [] else [Step(item, last)]
  }

  /** The closing relationships of a complete chain. */
  function Closings(item: Item, edges: seq<(nat, nat)>): seq<Item>
    requires |item.vars| > 0
  {
    if edges == [] then []
    else
      var last := edges[|edges| - 1];
      Closings(item, edges[..|edges| - 1])
      + if last.0 == item.vars[0] && last.1 !in item.used then [Item(item.vars, item.used + [last.1])] else []
  }

  predicate Searchable(item: Item, g: Graph, q: Query) {
    && |g.out| == |g.inc| && 0 < |item.vars| <= |q.hops| + 1
    && forall i :: 0 <= i < |item.vars| ==> item.vars[i] < |g.out|
  }

  predicate GraphOk(g: Graph) {
    && |g.out| == |g.inc|
    && (forall v, i :: 0 <= v < |g.out| && 0 <= i < |g.out[v]| ==> g.out[v][i].0 < |g.out|)
    && (forall v, i :: 0 <= v < |g.inc| && 0 <= i < |g.inc[v]| ==> g.inc[v][i].0 < |g.out|)
  }

  lemma {:induction false} PushedSearchable(item: Item, edges: seq<(nat, nat)>, g: Graph, q: Query)
    requires Searchable(item, g, q) && |item.vars| <= |q.hops|
    requires forall i :: 0 <= i < |edges| ==> edges[i].0 < |g.out|
    ensures forall i :: 0 <= i < |Pushed(item, edges)| ==>
      Searchable(Pushed(item, edges)[i], g, q) && |Pushed(item, edges)[i].vars| == |item.vars| + 1
  {
    if edges != [] {
      PushedSearchable(item, edges[..|edges| - 1], g, q);
    }
  }

  /** The completions of an item, in the order the worklist reaches them. */
  function Completions(g: Graph, q: Query, item: Item): seq<Item>
    requires GraphOk(g) && Searchable(item, g, q)
    decreases |q.hops| + 1 - |item.vars|, 0, 0
  {
    if |item.vars| == |q.hops| + 1 then
      if q.cycle then Closings(item, g.out[item.vars[|item.vars| - 1]]) else [item]
    else
      PushedSearchable(item, EdgesFrom(g, item, q), g, q);
      AllCompletions(g, q, Pushed(item, EdgesFrom(g, item, q)), |item.vars| + 1)
  }

  /** The completions of a stack, its top first, while no item has fewer than `k` variables. */
  function AllCompletions(g: Graph, q: Query, stack: seq<Item>, k: nat): seq<Item>
    requires GraphOk(g) && k <= |q.hops| + 1
    requires forall i :: 0 <= i < |stack| ==> Searchable(stack[i], g, q) && |stack[i].vars| >= k
    decreases |q.hops| + 1 - k, 1, |stack|
  {
    if stack == [] then []
    else Completions(g, q, stack[|stack| - 1]) + AllCompletions(g, q, stack[..|stack| - 1], k)
  }

  // ---------------------------------------------------------------- the worklist

  lemma {:induction false} AllConcat(g: Graph, q: Query, a: seq<Item>, b: seq<Item>, k: nat)
    requires GraphOk(g) && k <= |q.hops| + 1
    requires forall i :: 0 <= i < |a + b| ==> Searchable((a + b)[i], g, q) && |(a + b)[i].vars| >= k
    requires forall i :: 0 <= i < |a| ==> Searchable(a[i], g, q) && |a[i].vars| >= k
    requires forall i :: 0 <= i < |b| ==> Searchable(b[i], g, q) && |b[i].vars| >= k
    ensures AllCompletions(g, q, a + b, k) == AllCompletions(g, q, b, k) + AllCompletions(g, q, a, k)
    decreases |b|
  {
    if b == [] {
      assert a + b == a;
    } else {
      assert (a + b)[..|a + b| - 1] == a + b[..|b| - 1];
      AllConcat(g, q, a, b[..|b| - 1], k);
    }
  }

  lemma {:induction false} DepthIrrelevant(g: Graph, q: Query, stack: seq<Item>, j: nat, k: nat)
    requires GraphOk(g) && j <= k <= |q.hops| + 1
    requires forall i :: 0 <= i < |stack| ==> Searchable(stack[i], g, q) && |stack[i].vars| >= k
    ensures AllCompletions(g, q, stack, j) == AllCompletions(g, q, stack, k)
  {
    if stack != [] {
      DepthIrrelevant(g, q, stack[..|stack| - 1], j, k);
    }
  }

  /** How many items the search below an item pops, itself included. */
  function Work(g: Graph, q: Query, item: Item): nat
    requires GraphOk(g) && Searchable(item, g, q)
    decreases |q.hops| + 1 - |item.vars|, 0, 0
  {
    if |item.vars| == |q.hops| + 1 then 1
    else
      PushedSearchable(item, EdgesFrom(g, item, q), g, q);
      1 + AllWork(g, q, Pushed(item, EdgesFrom(g, item, q)), |item.vars| + 1)
  }

  function AllWork(g: Graph, q: Query, stack: seq<Item>, k: nat): nat
    requires GraphOk(g) && k <= |q.hops| + 1
    requires forall i :: 0 <= i < |stack| ==> Searchable(stack[i], g, q) && |stack[i].vars| >= k
    decreases |q.hops| + 1 - k, 1, |stack|
  {
    if stack == [] then 0 else Work(g, q, stack[|stack| - 1]) + AllWork(g, q, stack[..|stack| - 1], k)
  }

  lemma {:induction false} WorkConcat(g: Graph, q: Query, a: seq<Item>, b: seq<Item>, j: nat, k: nat)
    requires GraphOk(g) && j <= k <= |q.hops| + 1
    requires forall i :: 0 <= i < |a| ==> Searchable(a[i], g, q) && |a[i].vars| >= j
    requires forall i :: 0 <= i < |b| ==> Searchable(b[i], g, q) && |b[i].vars| >= k
    ensures AllWork(g, q, a + b, j) == AllWork(g, q, b, k) + AllWork(g, q, a, j)
    decreases |b|
  {
    if b == [] {
      assert a + b == a;
    } else {
      assert (a + b)[..|a + b| - 1] == a + b[..|b| - 1];
      WorkConcat(g, q, a, b[..|b| - 1], j, k);
    }
  }

  function VarsOf(ms: seq<Item>): (r: seq<seq<nat>>)
    ensures |r| == |ms|
  {
    seq(|ms|, i requires 0 <= i < |ms| => ms[i].vars)
  }

  function Starts(sources: seq<nat>): (r: seq<Item>)
    ensures |r| == |sources|
  {
    seq(|sources|, i requires 0 <= i < |sources| => Item([sources[i]], []))
  }

  ghost predicate Ready(stack: seq<Item>, g: Graph, q: Query) {
    forall i :: 0 <= i < |stack| ==> Searchable(stack[i], g, q)
  }

  /** Everything the query enumerates, in order. */
  ghost function Answer(g: Graph, q: Query): seq<Item>
    requires GraphOk(g) && forall i :: 0 <= i < |q.sources| ==> q.sources[i] < |g.out|
  {
    AllCompletions(g, q, Starts(q.sources), 1)
  }

  /** Push the continuations by relationships not used yet. */
  method Push(item: Item, edges: seq<(nat, nat)>, rest: seq<Item>) returns (stack: seq<Item>)
    ensures stack == rest + Pushed(item, edges)
  {
    stack := rest;
    for i := 0 to |edges|
      invariant stack == rest + Pushed(item, edges[..i])
    {
      assert edges[..i + 1][..i] == edges[..i];
      if edges[i].1 !in item.used {
        stack := stack + [Step(item, edges[i])];
      }
    }
    assert edges[..|edges|] == edges;
  }

  /** Popping an item and pushing its continuations keeps the completions of the stack. */
  lemma Expanded(g: Graph, q: Query, item: Item, rest: seq<Item>)
    requires GraphOk(g) && Searchable(item, g, q) && Ready(rest, g, q) && |item.vars| <= |q.hops|
    ensures var stack := rest + Pushed(item, EdgesFrom(g, item, q));
      && Ready(stack, g, q)
      && AllCompletions(g, q, stack, 1) == Completions(g, q, item) + AllCompletions(g, q, rest, 1)
      && AllWork(g, q, stack, 1) + 1 == Work(g, q, item) + AllWork(g, q, rest, 1)
  {
    hide GraphOk;
    hide Pushed;
    var pushed := Pushed(item, EdgesFrom(g, item, q));
    PushedSearchableAll(g, item, q);
    AllConcat(g, q, rest, pushed, 1);
    DepthIrrelevant(g, q, pushed, 1, |item.vars| + 1);
    WorkConcat(g, q, rest, pushed, 1, |item.vars| + 1);
  }

  /** Emit a complete chain: as it is, or once for every unused relationship that closes it. */
  method Emit(g: Graph, q: Query, item: Item, assignments: seq<seq<nat>>, ghost matches: seq<Item>)
    returns (assignments': seq<seq<nat>>)
    requires GraphOk(g) && Searchable(item, g, q) && |item.vars| == |q.hops| + 1
    requires assignments == VarsOf(matches)
    ensures assignments' == VarsOf(matches + Completions(g, q, item))
  {
    assignments' := assignments;
    if !q.cycle {
      assignments' := assignments' + [item.vars];
    } else {
      var edges := g.out[item.vars[|item.vars| - 1]];
      for i := 0 to |edges|
        invariant assignments' == VarsOf(matches + Closings(item, edges[..i]))
      {
        assert edges[..i + 1][..i] == edges[..i];
        if edges[i].0 == item.vars[0] && edges[i].1 !in item.used {
          assignments' := assignments' + [item.vars];
        }
      }
      assert edges[..|edges|] == edges;
    }
  }

  /** The worklist ends, having emitted the whole answer: what it has emitted followed by the completions
    * of what it holds never changes.
    */
  method Enumerate(g: Graph, q: Query) returns (assignments: seq<seq<nat>>)
    requires GraphOk(g) && forall i :: 0 <= i < |q.sources| ==> q.sources[i] < |g.out|
    ensures assignments == VarsOf(Answer(g, q))
  {
    var stack := Starts(q.sources);
    ghost var matches: seq<Item> := [];
    assignments := [];
    assert matches + AllCompletions(g, q, stack, 1) == Answer(g, q);
    while stack != []
      invariant Ready(stack, g, q) && assignments == VarsOf(matches)
      invariant matches + AllCompletions(g, q, stack, 1) == Answer(g, q)
      decreases AllWork(g, q, stack, 1)
    {
      var item, rest := stack[|stack| - 1], stack[..|stack| - 1];
      assert AllWork(g, q, stack, 1) == Work(g, q, item) + AllWork(g, q, rest, 1);
      if |item.vars| == |q.hops| + 1 {
        assignments := Emit(g, q, item, assignments, matches);
        Shift(matches, Completions(g, q, item), AllCompletions(g, q, rest, 1));
        matches := matches + Completions(g, q, item);
        stack := rest;
      } else {
        Expanded(g, q, item, rest);
        stack := Push(item, EdgesFrom(g, item, q), rest);
      }
    }
    assert matches == Answer(g, q);
  }

  lemma Shift(a: seq<Item>, b: seq<Item>, c: seq<Item>)
    ensures a + (b + c) == a + b + c
  {
  }

  // ---------------------------------------------------------------- the answer is exactly the matches

  lemma {:induction false} PushedExact(item: Item, edges: seq<(nat, nat)>, c: Item)
    ensures c in Pushed(item, edges) <==>
      exists i :: 0 <= i < |edges| && edges[i].1 !in item.used && c == Step(item, edges[i])
  {
    if edges != [] {
      var n := |edges| - 1;
      PushedExact(item, edges[..n], c);
      if c in Pushed(item, edges[..n]) {
        var i :| 0 <= i < n && edges[..n][i].1 !in item.used && c == Step(item, edges[..n][i]);
        assert edges[i] == edges[..n][i];
      }
      if i :| 0 <= i < |edges| && edges[i].1 !in item.used && c == Step(item, edges[i]) {
        if i < n {
          assert edges[..n][i] == edges[i];
        }
      }
    }
  }

  /** `m` is the item closed by this relationship, still unused. */
  predicate ClosedBy(item: Item, e: (nat, nat), m: Item)
    requires |item.vars| > 0
  {
    e.0 == item.vars[0] && e.1 !in item.used && m == Item(item.vars, item.used + [e.1])
  }

  lemma {:induction false} ClosingsExact(item: Item, edges: seq<(nat, nat)>, m: Item)
    requires |item.vars| > 0
    ensures m in Closings(item, edges) <==> exists i :: 0 <= i < |edges| && ClosedBy(item, edges[i], m)
  {
    if edges != [] {
      var n := |edges| - 1;
      ClosingsExact(item, edges[..n], m);
      if m in Closings(item, edges[..n]) {
        var i :| 0 <= i < n && ClosedBy(item, edges[..n][i], m);
        assert edges[i] == edges[..n][i];
      }
      if i :| 0 <= i < |edges| && ClosedBy(item, edges[i], m) {
        if i < n {
          assert edges[..n][i] == edges[i];
        }
      }
    }
  }

  lemma RepresentsOk(g: Graph, knows: seq<Edge>, n: nat)
    requires Represents(g, knows, n) && EdgesWithin(knows, n)
    ensures GraphOk(g) && |g.out| == n
  {
    forall v, i | 0 <= v < n && 0 <= i < |g.out[v]|
      ensures g.out[v][i].0 < n
    {
      assert Lists(g.out[v], knows, |knows|, v, false);
    }
    forall v, i | 0 <= v < n && 0 <= i < |g.inc[v]|
      ensures g.inc[v][i].0 < n
    {
      assert Lists(g.inc[v], knows, |knows|, v, true);
    }
  }

  /** A continuation by an unused relationship of the right list is again a partial assignment. */
  lemma StepIsPartial(g: Graph, knows: seq<Edge>, n: nat, q: Query, item: Item, next: (nat, nat))
    requires Represents(g, knows, n) && EdgesWithin(knows, n) && IsPartial(item, knows, q, n) && |item.vars| <= |q.hops|
    requires Searchable(item, g, q) && next in EdgesFrom(g, item, q) && next.1 !in item.used
    ensures IsPartial(Step(item, next), knows, q, n)
  {
    var from := item.vars[|item.vars| - 1];
    assert Lists(EdgesFrom(g, item, q), knows, |knows|, from, q.hops[|item.vars| - 1]);
    var c := Step(item, next);
    forall i | 0 <= i < |c.used|
      ensures Joined(c, knows, q, i)
    {
      if i < |item.used| {
        assert Joined(item, knows, q, i);
      }
    }
  }

  /** The next step of a match out of a partial assignment is one the search pushes. */
  lemma NextOfMatch(g: Graph, knows: seq<Edge>, n: nat, q: Query, item: Item, m: Item) returns (c: Item)
    requires Represents(g, knows, n) && EdgesWithin(knows, n) && IsPartial(item, knows, q, n) && |item.vars| <= |q.hops|
    requires Searchable(item, g, q) && IsMatch(m, knows, q, n) && Extends(m, item)
    ensures c in Pushed(item, EdgesFrom(g, item, q)) && Extends(m, c)
  {
    var d := |item.vars| - 1;
    var edges := EdgesFrom(g, item, q);
    assert Lists(edges, knows, |knows|, item.vars[d], q.hops[d]);
    assert Joined(m, knows, q, d);
    var next := (m.vars[d + 1], m.used[d]);
    assert m.vars[d] == item.vars[d];
    assert next in edges;
    assert next.1 !in item.used by {
      forall i | 0 <= i < |item.used|
        ensures item.used[i] != m.used[d]
      {
        assert item.used[i] == m.used[i];
      }
    }
    c := Step(item, next);
    PushedExact(item, edges, c);
  }

  lemma {:induction false} InAll(g: Graph, q: Query, stack: seq<Item>, k: nat, m: Item)
    requires GraphOk(g) && k <= |q.hops| + 1
    requires forall i :: 0 <= i < |stack| ==> Searchable(stack[i], g, q) && |stack[i].vars| >= k
    ensures m in AllCompletions(g, q, stack, k) <==>
      exists i :: 0 <= i < |stack| && m in Completions(g, q, stack[i])
  {
    hide GraphOk;
    hide Searchable;
    hide Completions;
    if stack != [] {
      var n := |stack| - 1;
      InAll(g, q, stack[..n], k, m);
      if i :| 0 <= i < |stack| && m in Completions(g, q, stack[i]) {
        if i < n {
          assert stack[..n][i] == stack[i];
        }
      }
    }
  }

  lemma ClosedExact(g: Graph, knows: seq<Edge>, n: nat, q: Query, item: Item, m: Item)
    requires Represents(g, knows, n) && IsPartial(item, knows, q, n) && q.cycle
    requires |item.vars| == |q.hops| + 1 && item.vars[|item.vars| - 1] < |g.out|
    ensures m in Closings(item, g.out[item.vars[|item.vars| - 1]]) <==> IsMatch(m, knows, q, n) && Extends(m, item)
  {
    var last := item.vars[|item.vars| - 1];
    var edges := g.out[last];
    ClosingsExact(item, edges, m);
    assert Lists(edges, knows, |knows|, last, false);
    hide Represents;
    hide Closings;
    if m in Closings(item, edges) {
      var i :| 0 <= i < |edges| && ClosedBy(item, edges[i], m);
      ClosedIsMatch(knows, n, q, item, m);
    }
    if IsMatch(m, knows, q, n) && Extends(m, item) {
      var e := m.used[|q.hops|];
      assert m.vars == item.vars && m.used == item.used + [e];
      assert Ends(knows, e, false) == (last, item.vars[0]);
      assert (item.vars[0], e) in edges;
      var i :| 0 <= i < |edges| && edges[i] == (item.vars[0], e);
      assert ClosedBy(item, edges[i], m);
    }
  }

  lemma OpenExact(knows: seq<Edge>, n: nat, q: Query, item: Item, m: Item)
    requires IsPartial(item, knows, q, n) && !q.cycle && |item.vars| == |q.hops| + 1
    ensures m == item <==> IsMatch(m, knows, q, n) && Extends(m, item)
  {
    if IsMatch(m, knows, q, n) && Extends(m, item) {
      assert m.vars == item.vars && m.used == item.used;
    }
  }

  lemma ChainExact(g: Graph, knows: seq<Edge>, n: nat, q: Query, item: Item, m: Item)
    requires Represents(g, knows, n) && EdgesWithin(knows, n) && IsPartial(item, knows, q, n)
    requires GraphOk(g) && Searchable(item, g, q) && |item.vars| == |q.hops| + 1
    ensures m in Completions(g, q, item) <==> IsMatch(m, knows, q, n) && Extends(m, item)
  {
    hide IsMatch;
    hide IsPartial;
    hide Represents;
    hide Extends;
    hide Closings;
    if q.cycle {
      ClosedExact(g, knows, n, q, item, m);
    } else {
      OpenExact(knows, n, q, item, m);
    }
  }

  lemma ClosedIsMatch(knows: seq<Edge>, n: nat, q: Query, item: Item, m: Item)
    requires IsPartial(item, knows, q, n) && |item.vars| == |q.hops| + 1 && q.cycle
    requires |m.used| == |item.used| + 1 && m.vars == item.vars && m.used == item.used + [m.used[|item.used|]]
    requires m.used[|item.used|] !in item.used && Closes(item.vars, knows, m.used[|item.used|])
    ensures IsMatch(m, knows, q, n)
  {
    forall i | 0 <= i < |q.hops|
      ensures Joined(m, knows, q, i)
    {
      assert Joined(item, knows, q, i);
    }
  }

  lemma ChildOf(g: Graph, knows: seq<Edge>, n: nat, q: Query, item: Item, i: nat, m: Item)
    requires Represents(g, knows, n) && EdgesWithin(knows, n) && IsPartial(item, knows, q, n)
    requires GraphOk(g) && Searchable(item, g, q) && |item.vars| <= |q.hops|
    requires i < |Pushed(item, EdgesFrom(g, item, q))|
    ensures var c := Pushed(item, EdgesFrom(g, item, q))[i];
      && IsPartial(c, knows, q, n) && Searchable(c, g, q)
      && |c.vars| == |item.vars| + 1 && (Extends(m, c) ==> Extends(m, item))
  {
    var edges := EdgesFrom(g, item, q);
    var c := Pushed(item, edges)[i];
    PushedSearchable(item, edges, g, q);
    PushedExact(item, edges, c);
    var j :| 0 <= j < |edges| && edges[j].1 !in item.used && c == Step(item, edges[j]);
    StepIsPartial(g, knows, n, q, item, edges[j]);
  }

  /** The completions of a partial assignment are exactly the matches that extend it. */
  lemma {:induction false} CompletionsExact(g: Graph, knows: seq<Edge>, n: nat, q: Query, item: Item, m: Item)
    requires Represents(g, knows, n) && EdgesWithin(knows, n) && IsPartial(item, knows, q, n)
    requires GraphOk(g) && Searchable(item, g, q)
    ensures m in Completions(g, q, item) <==> IsMatch(m, knows, q, n) && Extends(m, item)
    decreases |q.hops| + 1 - |item.vars|
  {
    if |item.vars| == |q.hops| + 1 {
      ChainExact(g, knows, n, q, item, m);
    } else {
      hide Represents;
      hide IsPartial;
      hide IsMatch;
      hide Extends;
      hide GraphOk;
      hide EdgesWithin;
      hide Pushed;
      var pushed := Pushed(item, EdgesFrom(g, item, q));
      PushedSearchableAll(g, item, q);
      InAll(g, q, pushed, |item.vars| + 1, m);
      forall i | 0 <= i < |pushed|
        ensures m in Completions(g, q, pushed[i]) <==> IsMatch(m, knows, q, n) && Extends(m, pushed[i])
        ensures Extends(m, pushed[i]) ==> Extends(m, item)
      {
        ChildOf(g, knows, n, q, item, i, m);
        CompletionsExact(g, knows, n, q, pushed[i], m);
      }
      if IsMatch(m, knows, q, n) && Extends(m, item) {
        var c := NextOfMatch(g, knows, n, q, item, m);
      }
    }
  }

  lemma PushedSearchableAll(g: Graph, item: Item, q: Query)
    requires GraphOk(g) && Searchable(item, g, q) && |item.vars| <= |q.hops|
    ensures forall i :: 0 <= i < |Pushed(item, EdgesFrom(g, item, q))| ==>
      Searchable(Pushed(item, EdgesFrom(g, item, q))[i], g, q)
      && |Pushed(item, EdgesFrom(g, item, q))[i].vars| == |item.vars| + 1
  {
    PushedSearchable(item, EdgesFrom(g, item, q), g, q);
  }

  // ---------------------------------------------------------------- each match once

  /** Two items no match can extend both of. */
  ghost predicate Conflict(a: Item, b: Item) {
    || (exists i :: 0 <= i < |a.used| && i < |b.used| && a.used[i] != b.used[i])
    || (exists i :: 0 <= i < |a.vars| && i < |b.vars| && a.vars[i] != b.vars[i])
  }

  ghost predicate AllConflict(stack: seq<Item>) {
    forall i, j :: 0 <= i < j < |stack| ==> Conflict(stack[i], stack[j])
  }

  ghost predicate NoRepeats(ms: seq<Item>) {
    forall i, j :: 0 <= i < j < |ms| ==> ms[i] != ms[j]
  }

  lemma NoRepeatsConcat(a: seq<Item>, b: seq<Item>)
    requires NoRepeats(a) && NoRepeats(b) && forall m :: m in a ==> m !in b
    ensures NoRepeats(a + b)
  {
    forall i, j | 0 <= i < j < |a + b|
      ensures (a + b)[i] != (a + b)[j]
    {
      if i < |a| <= j {
        assert (a + b)[i] in a && (a + b)[j] in b;
      }
    }
  }

  lemma {:induction false} PushedConflict(item: Item, edges: seq<(nat, nat)>)
    requires forall i, j :: 0 <= i < j < |edges| ==> edges[i].1 != edges[j].1
    ensures AllConflict(Pushed(item, edges))
  {
    if edges != [] {
      var k := |edges| - 1;
      PushedConflict(item, edges[..k]);
      if edges[k].1 !in item.used {
        forall i | 0 <= i < |Pushed(item, edges[..k])|
          ensures Conflict(Pushed(item, edges)[i], Step(item, edges[k]))
        {
          var c := Pushed(item, edges[..k])[i];
          PushedExact(item, edges[..k], c);
          assert c.used[|item.used|] != Step(item, edges[k]).used[|item.used|];
        }
      }
    }
  }

  lemma {:induction false} ClosingsOnce(item: Item, edges: seq<(nat, nat)>)
    requires |item.vars| > 0 && forall i, j :: 0 <= i < j < |edges| ==> edges[i].1 != edges[j].1
    ensures NoRepeats(Closings(item, edges))
  {
    if edges != [] {
      var k := |edges| - 1;
      ClosingsOnce(item, edges[..k]);
      if ClosedBy(item, edges[k], Item(item.vars, item.used + [edges[k].1])) {
        var m := Item(item.vars, item.used + [edges[k].1]);
        ClosingsExact(item, edges[..k], m);
        forall i | 0 <= i < k
          ensures !ClosedBy(item, edges[..k][i], m)
        {
          assert (item.used + [edges[i].1])[|item.used|] != m.used[|item.used|];
        }
        NoRepeatsConcat(Closings(item, edges[..k]), [m]);
      }
    }
  }

  lemma ConflictSplits(a: Item, b: Item, m: Item)
    requires Conflict(a, b)
    ensures !(Extends(m, a) && Extends(m, b))
  {
  }

  /** Completions of conflicting items, each without repeats, do not repeat. */
  lemma {:induction false} AllOnce(g: Graph, knows: seq<Edge>, n: nat, q: Query, stack: seq<Item>, k: nat)
    requires Represents(g, knows, n) && EdgesWithin(knows, n) && GraphOk(g) && k <= |q.hops| + 1
    requires forall i :: 0 <= i < |stack| ==> Searchable(stack[i], g, q) && |stack[i].vars| >= k
    requires forall i :: 0 <= i < |stack| ==> IsPartial(stack[i], knows, q, n)
    requires forall i :: 0 <= i < |stack| ==> NoRepeats(Completions(g, q, stack[i]))
    requires AllConflict(stack)
    ensures NoRepeats(AllCompletions(g, q, stack, k))
  {
    if stack != [] {
      hide Represents;
      hide IsPartial;
      hide IsMatch;
      hide Extends;
      hide GraphOk;
      hide EdgesWithin;
      hide NoRepeats;
      hide Conflict;
      var top, rest := stack[|stack| - 1], stack[..|stack| - 1];
      AllOnce(g, knows, n, q, rest, k);
      forall m | m in Completions(g, q, top)
        ensures m !in AllCompletions(g, q, rest, k)
      {
        CompletionsExact(g, knows, n, q, top, m);
        InAll(g, q, rest, k, m);
        forall i | 0 <= i < |rest|
          ensures m !in Completions(g, q, rest[i])
        {
          CompletionsExact(g, knows, n, q, rest[i], m);
          ConflictSplits(rest[i], top, m);
        }
      }
      NoRepeatsConcat(Completions(g, q, top), AllCompletions(g, q, rest, k));
    } else {
      assert AllCompletions(g, q, stack, k) == [];
    }
  }

  lemma EdgesOnce(g: Graph, knows: seq<Edge>, n: nat, v: nat, incoming: bool)
    requires Represents(g, knows, n) && v < n
    ensures v < |g.out| && v < |g.inc|
    ensures var edges := if incoming then g.inc[v] else g.out[v];
      forall i, j :: 0 <= i < j < |edges| ==> edges[i].1 != edges[j].1
  {
    assert Lists(g.out[v], knows, |knows|, v, false) && Lists(g.inc[v], knows, |knows|, v, true);
  }

  lemma {:induction false} CompletionsOnce(g: Graph, knows: seq<Edge>, n: nat, q: Query, item: Item)
    requires Represents(g, knows, n) && EdgesWithin(knows, n) && IsPartial(item, knows, q, n)
    requires GraphOk(g) && Searchable(item, g, q)
    ensures NoRepeats(Completions(g, q, item))
    decreases |q.hops| + 1 - |item.vars|
  {
    var last := item.vars[|item.vars| - 1];
    if |item.vars| == |q.hops| + 1 {
      EdgesOnce(g, knows, n, last, false);
      ClosingsOnce(item, g.out[last]);
    } else {
      EdgesOnce(g, knows, n, last, q.hops[|item.vars| - 1]);
      PushedConflict(item, EdgesFrom(g, item, q));
      hide Represents;
      hide IsPartial;
      hide GraphOk;
      hide EdgesWithin;
      hide NoRepeats;
      hide Conflict;
      hide AllConflict;
      hide Pushed;
      var pushed := Pushed(item, EdgesFrom(g, item, q));
      PushedSearchableAll(g, item, q);
      forall i | 0 <= i < |pushed|
        ensures NoRepeats(Completions(g, q, pushed[i])) && IsPartial(pushed[i], knows, q, n)
      {
        ChildOf(g, knows, n, q, item, i, item);
        CompletionsOnce(g, knows, n, q, pushed[i]);
      }
      AllOnce(g, knows, n, q, pushed, |item.vars| + 1);
    }
  }

  // ---------------------------------------------------------------- the theorem

  lemma StartsArePartial(knows: seq<Edge>, n: nat, q: Query)
    requires forall i :: 0 <= i < |q.sources| ==> q.sources[i] < n
    ensures forall i :: 0 <= i < |q.sources| ==> IsPartial(Starts(q.sources)[i], knows, q, n)
  {
  }

  /** The reference answer is exactly the matches that start at a source. */
  lemma AnswerExact(g: Graph, knows: seq<Edge>, n: nat, q: Query, m: Item)
    requires Represents(g, knows, n) && EdgesWithin(knows, n)
    requires forall i :: 0 <= i < |q.sources| ==> q.sources[i] < n
    ensures GraphOk(g) && |g.out| == n
    ensures m in Answer(g, q) <==> IsMatch(m, knows, q, n) && m.vars[0] in q.sources
  {
    RepresentsOk(g, knows, n);
    StartsArePartial(knows, n, q);
    hide Represents;
    hide EdgesWithin;
    hide GraphOk;
    hide IsPartial;
    hide Completions;
    hide Extends;
    var starts := Starts(q.sources);
    InAll(g, q, starts, 1, m);
    forall i | 0 <= i < |starts|
      ensures m in Completions(g, q, starts[i]) <==> IsMatch(m, knows, q, n) && m.vars[0] == q.sources[i]
    {
      CompletionsExact(g, knows, n, q, starts[i], m);
      if |m.vars| > 0 {
        StartExtends(q, i, m);
      }
    }
  }

  lemma StartExtends(q: Query, i: nat, m: Item)
    requires i < |q.sources| && |m.vars| > 0
    ensures Extends(m, Starts(q.sources)[i]) <==> m.vars[0] == q.sources[i]
  {
  }

  /** It lists each match once, for distinct sources. */
  lemma AnswerOnce(g: Graph, knows: seq<Edge>, n: nat, q: Query)
    requires Represents(g, knows, n) && EdgesWithin(knows, n)
    requires forall i :: 0 <= i < |q.sources| ==> q.sources[i] < n
    requires forall i, j :: 0 <= i < j < |q.sources| ==> q.sources[i] != q.sources[j]
    ensures GraphOk(g) && |g.out| == n
    ensures NoRepeats(Answer(g, q))
  {
    RepresentsOk(g, knows, n);
    StartsArePartial(knows, n, q);
    var starts := Starts(q.sources);
    forall i | 0 <= i < |starts|
      ensures NoRepeats(Completions(g, q, starts[i]))
    {
      CompletionsOnce(g, knows, n, q, starts[i]);
    }
    forall i, j | 0 <= i < j < |starts|
      ensures Conflict(starts[i], starts[j])
    {
      assert starts[i].vars[0] != starts[j].vars[0];
    }
    AllOnce(g, knows, n, q, starts, 1);
  }

  datatype Anchor = Probe(id: nat) | IdBelow(k: nat)

  /** The anchored start vertices. */
  function SourcesOf(anchor: Anchor, n: nat): seq<nat> {
    match anchor
    case Probe(id) => if id < n then [id] else []
    case IdBelow(k) => seq(if k < n then k else n, i => i)
  }

  /** The vertices an anchor lets a match start from. */
  ghost predicate Anchored(anchor: Anchor, n: nat, v: nat) {
    match anchor
    case Probe(id) => v == id && id < n
    case IdBelow(k) => v < k && v < n
  }

  lemma SourcesAreAnchored(anchor: Anchor, n: nat)
    ensures var s := SourcesOf(anchor, n);
      && (forall v :: v in s <==> Anchored(anchor, n, v)) && (forall i :: 0 <= i < |s| ==> s[i] < n)
      && (forall i, j :: 0 <= i < j < |s| ==> s[i] != s[j])
  {
    var s := SourcesOf(anchor, n);
    forall v | Anchored(anchor, n, v)
      ensures v in s
    {
      assert s[if anchor.Probe? then 0 else v] == v;
    }
  }

  /** The evaluator over a data set: each assignment of a match from an anchored vertex, once for every way
    * to choose its relationships.
    */
  method Rows(knows: seq<Edge>, n: nat, anchor: Anchor, hops: seq<bool>, cycle: bool)
    returns (assignments: seq<seq<nat>>, ghost matches: seq<Item>)
    requires EdgesWithin(knows, n)
    ensures assignments == VarsOf(matches) && NoRepeats(matches)
    ensures forall m :: m in matches <==>
      IsMatch(m, knows, Query([], hops, cycle), n) && Anchored(anchor, n, m.vars[0])
  {
    var q := Query(SourcesOf(anchor, n), hops, cycle);
    SourcesAreAnchored(anchor, n);
    GraphRepresents(knows, n);
    var g := Build(knows, n);
    AnswerOnce(g, knows, n, q);
    assignments := Enumerate(g, q);
    matches := Answer(g, q);
    forall m
      ensures m in matches <==> IsMatch(m, knows, Query([], hops, cycle), n) && Anchored(anchor, n, m.vars[0])
    {
      AnswerExact(g, knows, n, q, m);
      SamePattern(m, knows, q, n);
    }
  }

  /** What a match is does not depend on where the query starts. */
  lemma SamePattern(m: Item, knows: seq<Edge>, q: Query, n: nat)
    ensures IsMatch(m, knows, q, n) <==> IsMatch(m, knows, q.(sources := []), n)
  {
    assert forall i: nat :: Joined(m, knows, q, i) <==> Joined(m, knows, q.(sources := []), i);
  }
}
