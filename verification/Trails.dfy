/** The recursive trail counters, and when they agree with the reference evaluator. */
module Trails {
  import opened ReferenceRows

  // ---------------------------------------------------------------- the adjacency the counters walk

  function Neighbours(lists: seq<seq<(nat, nat)>>): (r: seq<seq<nat>>)
    ensures |r| == |lists|
  {
    seq(|lists|, v requires 0 <= v < |lists| => Firsts(lists[v]))
  }

  function Firsts(list: seq<(nat, nat)>): (r: seq<nat>)
    ensures |r| == |list|
  {
    seq(|list|, i requires 0 <= i < |list| => list[i].0)
  }

  /** Out-neighbours in relationship order. */
  method OutAdjacency(knows: seq<Edge>, n: nat) returns (adj: seq<seq<nat>>)
    requires EdgesWithin(knows, n)
    ensures adj == Neighbours(GraphOf(knows, n).out)
  {
    adj := seq(n, _ => []);
    assert adj == Neighbours(ListsOf(knows, 0, n, false));
    for e := 0 to |knows|
      invariant adj == Neighbours(ListsOf(knows, e, n, false))
    {
      var (src, dst) := knows[e];
      ListsOfNext(knows, e, n, false);
      var before := adj;
      adj := adj[src := adj[src] + [dst]];
      assert adj == Neighbours(ListsOf(knows, e + 1, n, false)) by {
        Appended(ListsOf(knows, e, n, false), src, dst, e);
      }
    }
  }

  lemma Appended(lists: seq<seq<(nat, nat)>>, v: nat, to: nat, e: nat)
    requires v < |lists|
    ensures Neighbours(lists[v := lists[v] + [(to, e)]]) == Neighbours(lists)[v := Neighbours(lists)[v] + [to]]
  {
    assert Firsts(lists[v] + [(to, e)]) == Firsts(lists[v]) + [to];
  }

  predicate AdjOk(adj: seq<seq<nat>>) {
    forall v, i :: 0 <= v < |adj| && 0 <= i < |adj[v]| ==> adj[v][i] < |adj|
  }

  // ---------------------------------------------------------------- what the counters count

  /** Trails of `min..=max` hops out of `node` at `depth` that use no vertex pair twice. */
  function Count(adj: seq<seq<nat>>, node: nat, used: seq<Edge>, depth: nat, min: nat, max: nat): nat
    requires AdjOk(adj) && node < |adj| && depth <= max
    decreases max - depth, 1, 0
  {
    (if depth >= min then 1 else 0)
    + if depth == max then 0 else CountOver(adj, node, used, depth, min, max, |adj[node]|)
  }

  /** Those that continue by one of the first `k` neighbours. */
  function CountOver(adj: seq<seq<nat>>, node: nat, used: seq<Edge>, depth: nat, min: nat, max: nat, k: nat): nat
    requires AdjOk(adj) && node < |adj| && depth < max && k <= |adj[node]|
    decreases max - depth, 0, k
  {
    if k == 0 then 0
    else
      var next := adj[node][k - 1];
      CountOver(adj, node, used, depth, min, max, k - 1)
      + if (node, next) in used then 0 else Count(adj, next, used + [(node, next)], depth + 1, min, max)
  }

  /** The vertices such trails of exactly `hops` hops end in. */
  function Reached(adj: seq<seq<nat>>, node: nat, used: seq<Edge>, depth: nat, hops: nat): set<nat>
    requires AdjOk(adj) && node < |adj| && depth <= hops
    decreases hops - depth, 1, 0
  {
    if depth == hops then {node} else ReachedOver(adj, node, used, depth, hops, |adj[node]|)
  }

  function ReachedOver(adj: seq<seq<nat>>, node: nat, used: seq<Edge>, depth: nat, hops: nat, k: nat): set<nat>
    requires AdjOk(adj) && node < |adj| && depth < hops && k <= |adj[node]|
    decreases hops - depth, 0, k
  {
    if k == 0 then {}
    else
      var next := adj[node][k - 1];
      ReachedOver(adj, node, used, depth, hops, k - 1)
      + if (node, next) in used then {} else Reached(adj, next, used + [(node, next)], depth + 1, hops)
  }

  // ---------------------------------------------------------------- the counters

  /** The shared state of a count: the pairs on the current path and the running results. */
  class Walk {
    var used: seq<Edge>
    var total: nat
    var endpoints: set<nat>

    constructor ()
      ensures used == [] && total == 0 && endpoints == {}
    {
      used, total, endpoints := [], 0, {};
    }

    /** Every return restores the pairs used. */
    method CountFrom(adj: seq<seq<nat>>, node: nat, depth: nat, min: nat, max: nat)
      requires AdjOk(adj) && node < |adj| && depth <= max
      modifies this
      ensures used == old(used) && endpoints == old(endpoints)
      ensures total == old(total) + Count(adj, node, old(used), depth, min, max)
      decreases max - depth
    {
      if depth >= min {
        total := total + 1;
      }
      if depth == max {
        return;
      }
      for i := 0 to |adj[node]|
        invariant used == old(used) && endpoints == old(endpoints)
        invariant total == old(total) + (if depth >= min then 1 else 0) + CountOver(adj, node, used, depth, min, max, i)
      {
        var edge := (node, adj[node][i]);
        if edge !in used {
          used := used + [edge];
          CountFrom(adj, edge.1, depth + 1, min, max);
          used := used[..|used| - 1];
          assert used == old(used);
        }
      }
    }

    method EndsFrom(adj: seq<seq<nat>>, node: nat, depth: nat, hops: nat)
      requires AdjOk(adj) && node < |adj| && depth <= hops
      modifies this
      ensures used == old(used) && total == old(total)
      ensures endpoints == old(endpoints) + Reached(adj, node, old(used), depth, hops)
      decreases hops - depth
    {
      if depth == hops {
        endpoints := endpoints + {node};
        return;
      }
      for i := 0 to |adj[node]|
        invariant used == old(used) && total == old(total)
        invariant endpoints == old(endpoints) + ReachedOver(adj, node, used, depth, hops, i)
      {
        var edge := (node, adj[node][i]);
        if edge !in used {
          used := used + [edge];
          EndsFrom(adj, edge.1, depth + 1, hops);
          used := used[..|used| - 1];
          assert used == old(used);
        }
      }
    }
  }

  method CountTrails(adj: seq<seq<nat>>, start: nat, min: nat, max: nat) returns (total: nat)
    requires AdjOk(adj) && start < |adj|
    ensures total == Count(adj, start, [], 0, min, max)
  {
    var walk := new Walk();
    walk.CountFrom(adj, start, 0, min, max);
    total := walk.total;
  }

  method CountTrailEndpoints(adj: seq<seq<nat>>, start: nat, hops: nat) returns (count: nat)
    requires AdjOk(adj) && start < |adj|
    ensures count == |Reached(adj, start, [], 0, hops)|
  {
    var walk := new Walk();
    walk.EndsFrom(adj, start, 0, hops);
    assert {} + Reached(adj, start, [], 0, hops) == Reached(adj, start, [], 0, hops);
    count := |walk.endpoints|;
  }

  // ---------------------------------------------------------------- one hop count at a time

  lemma {:induction false} OneMoreHop(adj: seq<seq<nat>>, node: nat, used: seq<Edge>, depth: nat, min: nat, max: nat)
    requires AdjOk(adj) && node < |adj| && depth < max && min <= max
    ensures Count(adj, node, used, depth, min, max)
      == Count(adj, node, used, depth, min, max - 1) + Count(adj, node, used, depth, max, max)
    decreases max - depth, 1, 0
  {
    if depth == max - 1 {
      LastHop(adj, node, used, depth, min, max, |adj[node]|);
    } else {
      OneMoreHopOver(adj, node, used, depth, min, max, |adj[node]|);
    }
  }

  lemma {:induction false} LastHop(
    adj: seq<seq<nat>>, node: nat, used: seq<Edge>, depth: nat, min: nat, max: nat, k: nat)
    requires AdjOk(adj) && node < |adj| && depth + 1 == max && min <= max && k <= |adj[node]|
    ensures CountOver(adj, node, used, depth, min, max, k) == CountOver(adj, node, used, depth, max, max, k)
  {
    if k > 0 {
      LastHop(adj, node, used, depth, min, max, k - 1);
    }
  }

  lemma {:induction false} OneMoreHopOver(
    adj: seq<seq<nat>>, node: nat, used: seq<Edge>, depth: nat, min: nat, max: nat, k: nat)
    requires AdjOk(adj) && node < |adj| && depth + 1 < max && min <= max && k <= |adj[node]|
    ensures CountOver(adj, node, used, depth, min, max, k)
      == CountOver(adj, node, used, depth, min, max - 1, k) + CountOver(adj, node, used, depth, max, max, k)
    decreases max - depth, 0, k
  {
    if k > 0 {
      var next := adj[node][k - 1];
      OneMoreHopOver(adj, node, used, depth, min, max, k - 1);
      if (node, next) !in used {
        OneMoreHop(adj, next, used + [(node, next)], depth + 1, min, max);
      }
    }
  }

  // ---------------------------------------------------------------- against the reference answer

  /** `h` outgoing hops anchored at `s`. */
  function Hops(s: nat, h: nat): Query {
    Query([s], seq(h, _ => false), false)
  }

  /** No two relationships of the match join the same ordered pair of vertices. */
  ghost predicate PairsDistinct(knows: seq<Edge>, m: Item) {
    && (forall i :: 0 <= i < |m.used| ==> m.used[i] < |knows|)
    && (forall i, j :: 0 <= i < j < |m.used| ==> knows[m.used[i]] != knows[m.used[j]])
  }

  ghost function PairsOf(knows: seq<Edge>, used: seq<nat>): seq<Edge>
    requires forall i :: 0 <= i < |used| ==> used[i] < |knows|
  {
    seq(|used|, i requires 0 <= i < |used| => knows[used[i]])
  }

  /** How many of the matches use no vertex pair twice. */
  ghost function DistinctPairs(knows: seq<Edge>, ms: seq<Item>): nat {
    if ms == [] then 0
    else DistinctPairs(knows, ms[..|ms| - 1]) + if PairsDistinct(knows, ms[|ms| - 1]) then 1 else 0
  }

  ghost function Lasts(knows: seq<Edge>, ms: seq<Item>): set<nat> {
    set m | m in ms && PairsDistinct(knows, m) && |m.vars| > 0 :: m.vars[|m.vars| - 1]
  }

  lemma {:induction false} DistinctConcat(knows: seq<Edge>, a: seq<Item>, b: seq<Item>)
    ensures DistinctPairs(knows, a + b) == DistinctPairs(knows, a) + DistinctPairs(knows, b)
    decreases |b|
  {
    if b == [] {
      assert a + b == a;
    } else {
      assert (a + b)[..|a + b| - 1] == a + b[..|b| - 1];
      DistinctConcat(knows, a, b[..|b| - 1]);
    }
  }

  lemma LastsConcat(knows: seq<Edge>, a: seq<Item>, b: seq<Item>)
    ensures Lasts(knows, a + b) == Lasts(knows, a) + Lasts(knows, b)
  {
  }

  lemma {:induction false} NoneDistinct(knows: seq<Edge>, ms: seq<Item>)
    requires forall m :: m in ms ==> !PairsDistinct(knows, m)
    ensures DistinctPairs(knows, ms) == 0 && Lasts(knows, ms) == {}
  {
    if ms != [] {
      NoneDistinct(knows, ms[..|ms| - 1]);
    }
  }

  /** An item whose pairs repeat has no completion whose pairs do not. */
  lemma RepeatStays(knows: seq<Edge>, item: Item, m: Item)
    requires Extends(m, item) && !PairsDistinct(knows, item)
    ensures !PairsDistinct(knows, m)
  {
    if i :| 0 <= i < |item.used| && item.used[i] >= |knows| {
      assert m.used[i] == item.used[i];
    } else {
      var i, j :| 0 <= i < j < |item.used| && knows[item.used[i]] == knows[item.used[j]];
      assert m.used[i] == item.used[i] && m.used[j] == item.used[j];
    }
  }

  /** A partial outgoing chain, at its last vertex. */
  ghost predicate OnChain(knows: seq<Edge>, n: nat, s: nat, h: nat, item: Item) {
    && EdgesWithin(knows, n) && s < n && IsPartial(item, knows, Hops(s, h), n)
    && GraphOk(GraphOf(knows, n)) && AdjOk(Neighbours(GraphOf(knows, n).out))
    && Represents(GraphOf(knows, n), knows, n) && Searchable(item, GraphOf(knows, n), Hops(s, h))
  }

  lemma GraphReady(knows: seq<Edge>, n: nat)
    requires EdgesWithin(knows, n)
    ensures Represents(GraphOf(knows, n), knows, n) && GraphOk(GraphOf(knows, n))
    ensures AdjOk(Neighbours(GraphOf(knows, n).out))
  {
    GraphRepresents(knows, n);
    RepresentsOk(GraphOf(knows, n), knows, n);
  }

  /** The continuation by relationship `k` of the list: what it means for the pairs used. */
  lemma ChildPairs(knows: seq<Edge>, n: nat, s: nat, h: nat, item: Item, k: nat)
    requires OnChain(knows, n, s, h, item) && |item.vars| <= h && PairsDistinct(knows, item)
    requires var node := item.vars[|item.vars| - 1]; k < |GraphOf(knows, n).out[node]|
    ensures var node := item.vars[|item.vars| - 1];
      var next := GraphOf(knows, n).out[node][k];
      && next.1 < |knows| && knows[next.1] == (node, next.0)
      && (next.1 in item.used ==> (node, next.0) in PairsOf(knows, item.used))
      && (next.1 !in item.used ==> OnChain(knows, n, s, h, Step(item, next)))
      && (PairsDistinct(knows, Step(item, next)) <==> (node, next.0) !in PairsOf(knows, item.used))
      && PairsOf(knows, item.used + [next.1]) == PairsOf(knows, item.used) + [(node, next.0)]
  {
    var g := GraphOf(knows, n);
    var node := item.vars[|item.vars| - 1];
    var next := g.out[node][k];
    assert Lists(g.out[node], knows, |knows|, node, false);
    assert Ends(knows, next.1, false) == (node, next.0);
    if next.1 in item.used {
      var i :| 0 <= i < |item.used| && item.used[i] == next.1;
      assert PairsOf(knows, item.used)[i] == (node, next.0);
    } else {
      StepIsPartial(g, knows, n, Hops(s, h), item, next);
    }
    var c := Step(item, next);
    if (node, next.0) in PairsOf(knows, item.used) {
      var i :| 0 <= i < |item.used| && PairsOf(knows, item.used)[i] == (node, next.0);
      assert knows[c.used[i]] == knows[c.used[|item.used|]];
    } else {
      forall i | 0 <= i < |item.used|
        ensures knows[item.used[i]] != knows[next.1]
      {
        assert PairsOf(knows, item.used)[i] == knows[item.used[i]];
      }
    }
  }

  /** The counter at an item counts its completions whose pairs are distinct. */
  lemma {:induction false} CountIsDistinct(knows: seq<Edge>, n: nat, s: nat, h: nat, item: Item)
    requires OnChain(knows, n, s, h, item) && PairsDistinct(knows, item)
    ensures var node := item.vars[|item.vars| - 1];
      var adj, done := Neighbours(GraphOf(knows, n).out), Completions(GraphOf(knows, n), Hops(s, h), item);
      && Count(adj, node, PairsOf(knows, item.used), |item.used|, h, h) == DistinctPairs(knows, done)
      && Reached(adj, node, PairsOf(knows, item.used), |item.used|, h) == Lasts(knows, done)
    decreases h + 1 - |item.vars|, 1, 0
  {
    var node := item.vars[|item.vars| - 1];
    var g, q := GraphOf(knows, n), Hops(s, h);
    if |item.used| == h {
      assert Completions(g, q, item) == [item] && [item][..0] == [];
    } else {
      assert EdgesFrom(g, item, q) == g.out[node];
      AgreesUpTo(knows, n, s, h, item, |g.out[node]|);
      assert g.out[node][..|g.out[node]|] == g.out[node];
    }
  }

  /** What being on a chain says of the item's last vertex. */
  lemma ChainEnd(knows: seq<Edge>, n: nat, s: nat, h: nat, item: Item)
    requires OnChain(knows, n, s, h, item)
    ensures EdgesWithin(knows, n) && |item.vars| == |item.used| + 1 <= h + 1 && |Hops(s, h).hops| == h
    ensures item.vars[|item.vars| - 1] < n && |GraphOf(knows, n).out| == n && |Neighbours(GraphOf(knows, n).out)| == n
    ensures GraphOk(GraphOf(knows, n)) && AdjOk(Neighbours(GraphOf(knows, n).out))
    ensures Represents(GraphOf(knows, n), knows, n) && Searchable(item, GraphOf(knows, n), Hops(s, h))
    ensures IsPartial(item, knows, Hops(s, h), n)
    ensures forall i :: 0 <= i < |item.used| ==> item.used[i] < |knows|
  {
    hide Represents;
    hide GraphOk;
    hide AdjOk;
    hide EdgesWithin;
    forall i | 0 <= i < |item.used|
      ensures item.used[i] < |knows|
    {
      assert Joined(item, knows, Hops(s, h), i);
    }
  }

  lemma StepEnd(item: Item, next: (nat, nat))
    ensures var c := Step(item, next);
      && c.used == item.used + [next.1] && |c.vars| == |item.vars| + 1 && c.vars[|c.vars| - 1] == next.0
  {
  }

  /** No completion of an item whose pairs repeat is counted. */
  lemma RepeatNotCounted(knows: seq<Edge>, n: nat, s: nat, h: nat, c: Item)
    requires OnChain(knows, n, s, h, c) && !PairsDistinct(knows, c)
    ensures GraphOk(GraphOf(knows, n)) && Searchable(c, GraphOf(knows, n), Hops(s, h))
    ensures var done := Completions(GraphOf(knows, n), Hops(s, h), c);
      DistinctPairs(knows, done) == 0 && Lasts(knows, done) == {}
  {
    ChainEnd(knows, n, s, h, c);
    hide *;
    var g, q := GraphOf(knows, n), Hops(s, h);
    forall m | m in Completions(g, q, c)
      ensures !PairsDistinct(knows, m)
    {
      CompletionsExact(g, knows, n, q, c, m);
      RepeatStays(knows, c, m);
    }
    NoneDistinct(knows, Completions(g, q, c));
  }

  /** A continuation that the search pushes: the counter follows it exactly when its pair is new. */
  lemma ChildCounted(knows: seq<Edge>, n: nat, s: nat, h: nat, item: Item, next: (nat, nat))
    requires OnChain(knows, n, s, h, item) && PairsDistinct(knows, item) && |item.vars| == |item.used| + 1 <= h
    requires OnChain(knows, n, s, h, Step(item, next)) && next.1 < |knows|
    requires var pair := (item.vars[|item.vars| - 1], next.0);
      && (PairsDistinct(knows, Step(item, next)) <==> pair !in PairsOf(knows, item.used))
      && PairsOf(knows, item.used + [next.1]) == PairsOf(knows, item.used) + [pair]
    ensures GraphOk(GraphOf(knows, n)) && AdjOk(Neighbours(GraphOf(knows, n).out)) && |Hops(s, h).hops| == h
    ensures ChildAgrees(
      knows, GraphOf(knows, n), Hops(s, h), item, next, Neighbours(GraphOf(knows, n).out), PairsOf(knows, item.used))
    decreases h + 1 - |item.vars|, 0, 0
  {
    var c := Step(item, next);
    ChainEnd(knows, n, s, h, item);
    ChainEnd(knows, n, s, h, c);
    StepEnd(item, next);
    hide *;
    if PairsDistinct(knows, c) {
      CountIsDistinct(knows, n, s, h, c);
    } else {
      RepeatNotCounted(knows, n, s, h, c);
    }
    ChildAgreesIs(
      knows, GraphOf(knows, n), Hops(s, h), item, next, Neighbours(GraphOf(knows, n).out), PairsOf(knows, item.used));
  }

  lemma ChildAgreesIs(
    knows: seq<Edge>, g: Graph, q: Query, item: Item, next: (nat, nat), adj: seq<seq<nat>>, pairs: seq<Edge>)
    requires GraphOk(g) && AdjOk(adj) && |item.vars| > 0 && |item.used| < |q.hops|
    requires next.0 < |adj| && Searchable(Step(item, next), g, q)
    requires var pair, done := (item.vars[|item.vars| - 1], next.0), Completions(g, q, Step(item, next));
      if pair in pairs then DistinctPairs(knows, done) == 0 && Lasts(knows, done) == {}
      else
        && Count(adj, next.0, pairs + [pair], |item.used| + 1, |q.hops|, |q.hops|) == DistinctPairs(knows, done)
        && Reached(adj, next.0, pairs + [pair], |item.used| + 1, |q.hops|) == Lasts(knows, done)
    ensures ChildAgrees(knows, g, q, item, next, adj, pairs)
  {
  }

  lemma CountOverStep(adj: seq<seq<nat>>, node: nat, used: seq<Edge>, depth: nat, h: nat, k: nat)
    requires AdjOk(adj) && node < |adj| && depth < h && 0 < k <= |adj[node]|
    ensures var next := adj[node][k - 1];
      && next < |adj|
      && CountOver(adj, node, used, depth, h, h, k)
         == CountOver(adj, node, used, depth, h, h, k - 1)
            + (if (node, next) in used then 0 else Count(adj, next, used + [(node, next)], depth + 1, h, h))
      && ReachedOver(adj, node, used, depth, h, k)
         == ReachedOver(adj, node, used, depth, h, k - 1)
            + (if (node, next) in used then {} else Reached(adj, next, used + [(node, next)], depth + 1, h))
  {
  }

  lemma PushedStep(item: Item, edges: seq<(nat, nat)>, k: nat)
    requires 0 < k <= |edges|
    ensures edges[k - 1].1 in item.used ==> Pushed(item, edges[..k]) == Pushed(item, edges[..k - 1])
    ensures edges[k - 1].1 !in item.used ==>
      Pushed(item, edges[..k]) == Pushed(item, edges[..k - 1]) + [Step(item, edges[k - 1])]
  {
    assert edges[..k][..k - 1] == edges[..k - 1];
  }

  lemma UnionCommutes(a: set<nat>, b: set<nat>)
    ensures a + b == b + a
  {
  }

  lemma TopFirst(knows: seq<Edge>, g: Graph, q: Query, before: seq<Item>, c: Item, k: nat)
    requires GraphOk(g) && k <= |q.hops| + 1 && Searchable(c, g, q) && |c.vars| >= k
    requires forall i :: 0 <= i < |before| ==> Searchable(before[i], g, q) && |before[i].vars| >= k
    ensures forall i :: 0 <= i < |before + [c]| ==> Searchable((before + [c])[i], g, q) && |(before + [c])[i].vars| >= k
    ensures DistinctPairs(knows, AllCompletions(g, q, before + [c], k))
      == DistinctPairs(knows, Completions(g, q, c)) + DistinctPairs(knows, AllCompletions(g, q, before, k))
    ensures Lasts(knows, AllCompletions(g, q, before + [c], k))
      == Lasts(knows, AllCompletions(g, q, before, k)) + Lasts(knows, Completions(g, q, c))
  {
    hide Searchable;
    hide GraphOk;
    hide DistinctPairs;
    hide Lasts;
    assert (before + [c])[..|before|] == before;
    DistinctConcat(knows, Completions(g, q, c), AllCompletions(g, q, before, k));
    LastsConcat(knows, Completions(g, q, c), AllCompletions(g, q, before, k));
    UnionCommutes(Lasts(knows, AllCompletions(g, q, before, k)), Lasts(knows, Completions(g, q, c)));
  }

  /** The counter's neighbours and the search's relationships at the item are the same list. */
  ghost predicate SideBySide(g: Graph, q: Query, item: Item, edges: seq<(nat, nat)>, adj: seq<seq<nat>>) {
    && GraphOk(g) && AdjOk(adj) && Searchable(item, g, q) && |item.used| == |item.vars| - 1 < |q.hops|
    && (forall i :: 0 <= i < |edges| ==> edges[i].0 < |g.out|)
    && item.vars[|item.vars| - 1] < |adj| && |adj[item.vars[|item.vars| - 1]]| == |edges|
    && (forall i :: 0 <= i < |edges| ==> adj[item.vars[|item.vars| - 1]][i] == edges[i].0)
  }

  /** The completions of what the search pushes for the first `k` relationships. */
  ghost function DoneFor(g: Graph, q: Query, item: Item, edges: seq<(nat, nat)>, adj: seq<seq<nat>>, k: nat): seq<Item>
    requires SideBySide(g, q, item, edges, adj) && k <= |edges|
  {
    PushedSearchable(item, edges[..k], g, q);
    AllCompletions(g, q, Pushed(item, edges[..k]), |item.vars| + 1)
  }

  /** What the counter has seen after `k` neighbours is what the search has pushed for them. */
  ghost predicate Agrees(
    knows: seq<Edge>, g: Graph, q: Query, item: Item, edges: seq<(nat, nat)>, adj: seq<seq<nat>>,
    pairs: seq<Edge>, k: nat)
    requires SideBySide(g, q, item, edges, adj) && k <= |edges|
  {
    var node := item.vars[|item.vars| - 1];
    && CountOver(adj, node, pairs, |item.used|, |q.hops|, |q.hops|, k)
      == DistinctPairs(knows, DoneFor(g, q, item, edges, adj, k))
    && ReachedOver(adj, node, pairs, |item.used|, |q.hops|, k) == Lasts(knows, DoneFor(g, q, item, edges, adj, k))
  }

  /** The counter's share of one continuation is what its completions give. */
  ghost predicate ChildAgrees(
    knows: seq<Edge>, g: Graph, q: Query, item: Item, next: (nat, nat), adj: seq<seq<nat>>, pairs: seq<Edge>)
    requires GraphOk(g) && AdjOk(adj) && |item.vars| > 0 && |item.used| < |q.hops|
  {
    var node := item.vars[|item.vars| - 1];
    var c := Step(item, next);
    next.0 < |adj| && Searchable(c, g, q)
    && DistinctPairs(knows, Completions(g, q, c))
       == (if (node, next.0) in pairs then 0
           else Count(adj, next.0, pairs + [(node, next.0)], |item.used| + 1, |q.hops|, |q.hops|))
    && Lasts(knows, Completions(g, q, c))
       == (if (node, next.0) in pairs then {}
           else Reached(adj, next.0, pairs + [(node, next.0)], |item.used| + 1, |q.hops|))
  }

  /** One relationship more in what the search pushes. */
  lemma DoneStep(knows: seq<Edge>, g: Graph, q: Query, item: Item, edges: seq<(nat, nat)>, adj: seq<seq<nat>>, k: nat)
    requires SideBySide(g, q, item, edges, adj) && 0 < k <= |edges|
    ensures edges[k - 1].1 in item.used ==> DoneFor(g, q, item, edges, adj, k) == DoneFor(g, q, item, edges, adj, k - 1)
    ensures edges[k - 1].1 !in item.used ==>
      var c := Step(item, edges[k - 1]);
      var now, before := DoneFor(g, q, item, edges, adj, k), DoneFor(g, q, item, edges, adj, k - 1);
      && Searchable(c, g, q)
      && DistinctPairs(knows, now) == DistinctPairs(knows, Completions(g, q, c)) + DistinctPairs(knows, before)
      && Lasts(knows, now) == Lasts(knows, before) + Lasts(knows, Completions(g, q, c))
  {
    PushedSearchable(item, edges[..k - 1], g, q);
    PushedStep(item, edges, k);
    hide AllCompletions;
    hide Completions;
    hide DistinctPairs;
    hide Lasts;
    hide Pushed;
    if edges[k - 1].1 !in item.used {
      TopFirst(knows, g, q, Pushed(item, edges[..k - 1]), Step(item, edges[k - 1]), |item.vars| + 1);
    }
  }

  /** One more neighbour on both sides. */
  lemma AgreesNext(
    knows: seq<Edge>, g: Graph, q: Query, item: Item, edges: seq<(nat, nat)>, adj: seq<seq<nat>>,
    pairs: seq<Edge>, k: nat)
    requires SideBySide(g, q, item, edges, adj) && 0 < k <= |edges|
    requires Agrees(knows, g, q, item, edges, adj, pairs, k - 1)
    requires edges[k - 1].1 in item.used ==> (item.vars[|item.vars| - 1], edges[k - 1].0) in pairs
    requires edges[k - 1].1 !in item.used ==> ChildAgrees(knows, g, q, item, edges[k - 1], adj, pairs)
    ensures Agrees(knows, g, q, item, edges, adj, pairs, k)
  {
    CountOverStep(adj, item.vars[|item.vars| - 1], pairs, |item.used|, |q.hops|, k);
    hide CountOver;
    hide ReachedOver;
    hide Completions;
    hide DistinctPairs;
    hide Lasts;
    hide GraphOk;
    hide AdjOk;
    hide Searchable;
    hide Count;
    hide Reached;
    hide DoneFor;
    DoneStep(knows, g, q, item, edges, adj, k);
  }

  lemma ChainSideBySide(knows: seq<Edge>, n: nat, s: nat, h: nat, item: Item)
    requires OnChain(knows, n, s, h, item) && |item.used| < h
    ensures var g := GraphOf(knows, n);
      SideBySide(g, Hops(s, h), item, g.out[item.vars[|item.vars| - 1]], Neighbours(g.out))
  {
  }

  lemma {:induction false} AgreesUpTo(knows: seq<Edge>, n: nat, s: nat, h: nat, item: Item, k: nat)
    requires OnChain(knows, n, s, h, item) && PairsDistinct(knows, item) && |item.used| < h
    requires k <= |GraphOf(knows, n).out[item.vars[|item.vars| - 1]]|
    ensures var g := GraphOf(knows, n);
      var edges, adj := g.out[item.vars[|item.vars| - 1]], Neighbours(g.out);
      && SideBySide(g, Hops(s, h), item, edges, adj)
      && Agrees(knows, g, Hops(s, h), item, edges, adj, PairsOf(knows, item.used), k)
    decreases h + 1 - |item.vars|, 0, k + 1
  {
    ChainSideBySide(knows, n, s, h, item);
    ChainEnd(knows, n, s, h, item);
    var g, q := GraphOf(knows, n), Hops(s, h);
    var edges, adj := g.out[item.vars[|item.vars| - 1]], Neighbours(g.out);
    NoneAgree(knows, g, q, item, edges, adj, PairsOf(knows, item.used));
    hide *;
    if k > 0 {
      AgreesUpTo(knows, n, s, h, item, k - 1);
      ChildPairs(knows, n, s, h, item, k - 1);
      if edges[k - 1].1 !in item.used {
        ChildCounted(knows, n, s, h, item, edges[k - 1]);
      }
      AgreesNext(knows, g, q, item, edges, adj, PairsOf(knows, item.used), k);
    }
  }

  lemma NoneAgree(
    knows: seq<Edge>, g: Graph, q: Query, item: Item, edges: seq<(nat, nat)>, adj: seq<seq<nat>>, pairs: seq<Edge>)
    requires SideBySide(g, q, item, edges, adj)
    ensures Agrees(knows, g, q, item, edges, adj, pairs, 0)
  {
    assert edges[..0] == [];
    hide SideBySide;
  }

  // ---------------------------------------------------------------- the two oracles

  /** The reference answer for `h` outgoing hops anchored at `s`. */
  ghost function RowsAt(knows: seq<Edge>, n: nat, s: nat, h: nat): seq<Item>
    requires EdgesWithin(knows, n) && s < n
  {
    GraphReady(knows, n);
    Answer(GraphOf(knows, n), Hops(s, h))
  }

  lemma StartOnChain(knows: seq<Edge>, n: nat, s: nat, h: nat)
    requires EdgesWithin(knows, n) && s < n
    ensures OnChain(knows, n, s, h, Item([s], [])) && PairsDistinct(knows, Item([s], []))
  {
    GraphReady(knows, n);
  }

  lemma AnswerFromOne(g: Graph, q: Query, s: nat)
    requires GraphOk(g) && q.sources == [s] && s < |g.out|
    ensures Searchable(Item([s], []), g, q) && Answer(g, q) == Completions(g, q, Item([s], []))
  {
    var start := Item([s], []);
    var starts := Starts(q.sources);
    assert starts == [start] && starts[..0] == [];
    assert AllCompletions(g, q, starts[..0], 1) == [];
    hide Completions;
    assert AllCompletions(g, q, starts, 1) == Completions(g, q, start) + [];
  }

  /** At each hop count, the counter counts the reference rows whose vertex pairs are distinct. */
  lemma CountAtIsRows(knows: seq<Edge>, n: nat, s: nat, h: nat)
    requires EdgesWithin(knows, n) && s < n
    ensures var adj := Neighbours(GraphOf(knows, n).out);
      && AdjOk(adj) && Count(adj, s, [], 0, h, h) == DistinctPairs(knows, RowsAt(knows, n, s, h))
      && Reached(adj, s, [], 0, h) == Lasts(knows, RowsAt(knows, n, s, h))
  {
    GraphReady(knows, n);
    StartOnChain(knows, n, s, h);
    AnswerFromOne(GraphOf(knows, n), Hops(s, h), s);
    assert PairsOf(knows, []) == [];
    hide Completions;
    hide Count;
    hide Reached;
    hide DistinctPairs;
    hide Lasts;
    hide Answer;
    hide PairsOf;
    CountIsDistinct(knows, n, s, h, Item([s], []));
  }

  /** How many reference rows there are for `min..=max` hops. */
  ghost function SumRows(knows: seq<Edge>, n: nat, s: nat, min: nat, max: nat): nat
    requires EdgesWithin(knows, n) && s < n && min <= max
    decreases max - min
  {
    |RowsAt(knows, n, s, max)| + if min == max then 0 else SumRows(knows, n, s, min, max - 1)
  }

  /** No row of these hop counts uses two relationships between the same ordered pair of vertices. */
  ghost predicate RowsDistinct(knows: seq<Edge>, n: nat, s: nat, h: nat)
    requires EdgesWithin(knows, n) && s < n
  {
    forall m :: m in RowsAt(knows, n, s, h) ==> PairsDistinct(knows, m)
  }

  lemma {:induction false} DistinctAtMost(knows: seq<Edge>, ms: seq<Item>)
    ensures DistinctPairs(knows, ms) <= |ms|
    ensures DistinctPairs(knows, ms) == |ms| <==> forall m :: m in ms ==> PairsDistinct(knows, m)
  {
    hide PairsDistinct;
    if ms != [] {
      DistinctAtMost(knows, ms[..|ms| - 1]);
      assert ms == ms[..|ms| - 1] + [ms[|ms| - 1]];
    }
  }

  ghost predicate RangeDistinct(knows: seq<Edge>, n: nat, s: nat, min: nat, max: int)
    requires EdgesWithin(knows, n) && s < n
  {
    forall h :: min <= h <= max ==> RowsDistinct(knows, n, s, h)
  }

  lemma RangeOneMore(knows: seq<Edge>, n: nat, s: nat, min: nat, max: nat)
    requires EdgesWithin(knows, n) && s < n && min <= max
    ensures RangeDistinct(knows, n, s, min, max) <==>
      RangeDistinct(knows, n, s, min, max - 1) && RowsDistinct(knows, n, s, max)
  {
    hide RowsDistinct;
  }

  lemma TermAgrees(knows: seq<Edge>, n: nat, s: nat, h: nat)
    requires EdgesWithin(knows, n) && s < n
    ensures var adj := Neighbours(GraphOf(knows, n).out);
      && AdjOk(adj) && Count(adj, s, [], 0, h, h) <= |RowsAt(knows, n, s, h)|
      && (Count(adj, s, [], 0, h, h) == |RowsAt(knows, n, s, h)| <==> RowsDistinct(knows, n, s, h))
  {
    CountAtIsRows(knows, n, s, h);
    hide PairsDistinct;
    hide DistinctPairs;
    hide RowsAt;
    hide Lasts;
    hide Count;
    DistinctAtMost(knows, RowsAt(knows, n, s, h));
  }

  /** The trail counter never exceeds the reference, and equals it exactly when no row of a counted length
    * uses the same ordered vertex pair twice.
    */
  lemma {:induction false} OraclesAgreeIff(knows: seq<Edge>, n: nat, s: nat, min: nat, max: nat)
    requires EdgesWithin(knows, n) && s < n && min <= max
    ensures var adj := Neighbours(GraphOf(knows, n).out);
      && AdjOk(adj) && Count(adj, s, [], 0, min, max) <= SumRows(knows, n, s, min, max)
      && (Count(adj, s, [], 0, min, max) == SumRows(knows, n, s, min, max) <==> RangeDistinct(knows, n, s, min, max))
    decreases max - min
  {
    TermAgrees(knows, n, s, max);
    RangeOneMore(knows, n, s, min, max);
    if min < max {
      OraclesAgreeIff(knows, n, s, min, max - 1);
      OneMoreHop(Neighbours(GraphOf(knows, n).out), s, [], 0, min, max);
    } else {
      assert RangeDistinct(knows, n, s, min, max - 1);
    }
    hide RowsAt;
    hide RowsDistinct;
    hide RangeDistinct;
    hide GraphOf;
    hide Count;
  }

  ghost predicate NoParallel(knows: seq<Edge>) {
    forall e, f :: 0 <= e < f < |knows| ==> knows[e] != knows[f]
  }

  lemma NoParallelDistinct(knows: seq<Edge>, n: nat, s: nat, h: nat)
    requires EdgesWithin(knows, n) && s < n && NoParallel(knows)
    ensures RowsDistinct(knows, n, s, h)
  {
    GraphReady(knows, n);
    forall m | m in RowsAt(knows, n, s, h)
      ensures PairsDistinct(knows, m)
    {
      AnswerExact(GraphOf(knows, n), knows, n, Hops(s, h), m);
      forall i | 0 <= i < |m.used|
        ensures m.used[i] < |knows|
      {
        assert Joined(m, knows, Hops(s, h), i);
      }
    }
  }

  /** Without parallel relationships the two oracles agree: on the number of trails for any hop range, and
    * on the vertices trails of one length end in.
    */
  lemma OraclesAgree(knows: seq<Edge>, n: nat, s: nat, min: nat, max: nat)
    requires EdgesWithin(knows, n) && s < n && min <= max && NoParallel(knows)
    ensures var adj := Neighbours(GraphOf(knows, n).out);
      && AdjOk(adj) && Count(adj, s, [], 0, min, max) == SumRows(knows, n, s, min, max)
  {
    OraclesAgreeIff(knows, n, s, min, max);
    forall h | min <= h <= max
      ensures RowsDistinct(knows, n, s, h)
    {
      NoParallelDistinct(knows, n, s, h);
    }
  }

  lemma EndpointsAgree(knows: seq<Edge>, n: nat, s: nat, h: nat)
    requires EdgesWithin(knows, n) && s < n && NoParallel(knows)
    ensures var adj := Neighbours(GraphOf(knows, n).out);
      && AdjOk(adj)
      && Reached(adj, s, [], 0, h) == set m | m in RowsAt(knows, n, s, h) && |m.vars| > 0 :: m.vars[|m.vars| - 1]
  {
    CountAtIsRows(knows, n, s, h);
    NoParallelDistinct(knows, n, s, h);
    hide PairsDistinct;
    hide RowsAt;
    hide Reached;
  }

  /** With parallel relationships they differ: 0 -> 1 -> 0 -> 1 over two relationships from 0 to 1 is a row
    * of the reference that the counter does not count.
    */
  lemma ParallelEdgesDisagree()
    ensures EdgesWithin(PARALLEL, 2) && AdjOk(Neighbours(GraphOf(PARALLEL, 2).out))
    ensures Count(Neighbours(GraphOf(PARALLEL, 2).out), 0, [], 0, 3, 3) < SumRows(PARALLEL, 2, 0, 3, 3)
  {
    RepeatedPairRow();
    hide *;
    OraclesAgreeIff(PARALLEL, 2, 0, 3, 3);
  }

  const PARALLEL: seq<Edge> := [(0, 1), (1, 0), (0, 1)]

  lemma RepeatedPairRow()
    ensures EdgesWithin(PARALLEL, 2) && !RangeDistinct(PARALLEL, 2, 0, 3, 3)
  {
    var m := Item([0, 1, 0, 1], [0, 1, 2]);
    RepeatedPairMatch();
    GraphReady(PARALLEL, 2);
    hide GraphOf;
    hide IsMatch;
    AnswerExact(GraphOf(PARALLEL, 2), PARALLEL, 2, Hops(0, 3), m);
    assert PARALLEL[m.used[0]] == PARALLEL[m.used[2]];
    assert !PairsDistinct(PARALLEL, m) && m in RowsAt(PARALLEL, 2, 0, 3);
    assert !RowsDistinct(PARALLEL, 2, 0, 3);
  }

  lemma RepeatedPairMatch()
    ensures EdgesWithin(PARALLEL, 2) && IsMatch(Item([0, 1, 0, 1], [0, 1, 2]), PARALLEL, Hops(0, 3), 2)
  {
    var m, q := Item([0, 1, 0, 1], [0, 1, 2]), Hops(0, 3);
    assert Joined(m, PARALLEL, q, 0) && Joined(m, PARALLEL, q, 1) && Joined(m, PARALLEL, q, 2);
  }
}
