/** The two-row edit distance, against scripts of insertions, deletions and substitutions. */
module EditDistance {

  function Min(a: nat, b: nat): nat {
    if a < b then a else b
  }

  function Init<T>(s: seq<T>): seq<T>
    requires s != []
  {
    s[..|s| - 1]
  }

  function Last<T>(s: seq<T>): T
    requires s != []
  {
    s[|s| - 1]
  }

  /** The recurrence over prefixes. */
  function Dist<T(==)>(a: seq<T>, b: seq<T>): nat
    decreases |a| + |b|
  {
    if a == [] then |b|
    else if b == [] then |a|
    else if Last(a) == Last(b) then Dist(Init(a), Init(b))
    else 1 + Min(Dist(Init(a), Init(b)), Min(Dist(Init(a), b), Dist(a, Init(b))))
  }

  /** Row by row, holding two rows of the matrix. */
  method Compute<T(==)>(a: seq<T>, b: seq<T>) returns (d: nat)
    ensures d == Dist(a, b)
  {
    var previous: seq<nat> := seq(|b| + 1, j => j);
    for i := 0 to |a|
      invariant |previous| == |b| + 1
      invariant forall j :: 0 <= j <= |b| ==> previous[j] == Dist(a[..i], b[..j])
    {
      var current := [i + 1];
      assert b[..0] == [];
      for j := 0 to |b|
        invariant |current| == j + 1
        invariant forall k :: 0 <= k <= j ==> current[k] == Dist(a[..i + 1], b[..k])
      {
        CellOf(a, b, i, j);
        current := current + [
          if a[i] == b[j] then previous[j] else 1 + Min(previous[j], Min(previous[j + 1], current[j]))];
      }
      previous := current;
    }
    assert a[..|a|] == a && b[..|b|] == b;
    d := previous[|b|];
  }

  lemma CellOf<T>(a: seq<T>, b: seq<T>, i: nat, j: nat)
    requires i < |a| && j < |b|
    ensures var p, q := a[..i + 1], b[..j + 1];
      && Init(p) == a[..i] && Init(q) == b[..j] && Last(p) == a[i] && Last(q) == b[j]
      && Dist(p, q) == if a[i] == b[j] then Dist(a[..i], b[..j])
                       else 1 + Min(Dist(a[..i], b[..j]), Min(Dist(a[..i], q), Dist(p, b[..j])))
  {
    var p, q := a[..i + 1], b[..j + 1];
    assert Init(p) == a[..i] && Init(q) == b[..j];
  }

  // ---------------------------------------------------------------- edit scripts

  datatype Edit<T> = Keep(c: T) | Change(from: T, to: T) | Insert(c: T) | Delete(c: T)

  /** What one edit reads, what it leaves, and what it costs. */
  function From<T>(e: Edit<T>): seq<T> {
    match e case Keep(c) => [c] case Change(x, _) => [x] case Insert(_) => [] case Delete(c) => [c]
  }

  function To<T>(e: Edit<T>): seq<T> {
    match e case Keep(c) => [c] case Change(_, y) => [y] case Insert(c) => [c] case Delete(_) => []
  }

  function Price<T>(e: Edit<T>): nat {
    if e.Keep? then 0 else 1
  }

  function Source<T>(script: seq<Edit<T>>): seq<T> {
    if script == [] then [] else Source(Init(script)) + From(Last(script))
  }

  function Target<T>(script: seq<Edit<T>>): seq<T> {
    if script == [] then [] else Target(Init(script)) + To(Last(script))
  }

  function Cost<T>(script: seq<Edit<T>>): nat {
    if script == [] then 0 else Cost(Init(script)) + Price(Last(script))
  }

  ghost predicate Turns<T(!new)>(script: seq<Edit<T>>, a: seq<T>, b: seq<T>) {
    Source(script) == a && Target(script) == b
  }

  lemma Extended<T(!new)>(script: seq<Edit<T>>, e: Edit<T>)
    ensures Source(script + [e]) == Source(script) + From(e)
    ensures Target(script + [e]) == Target(script) + To(e)
    ensures Cost(script + [e]) == Cost(script) + Price(e)
  {
    assert Init(script + [e]) == script;
  }

  lemma InitAndLast<T(!new)>(s: seq<T>)
    requires s != []
    ensures s == Init(s) + [Last(s)]
  {
  }

  /** Which way the recurrence reaches its value. */
  lemma DistCase<T(!new)>(a: seq<T>, b: seq<T>)
    requires a != [] && b != [] && Last(a) != Last(b)
    ensures
      || Dist(a, b) == 1 + Dist(Init(a), Init(b))
      || Dist(a, b) == 1 + Dist(Init(a), b)
      || Dist(a, b) == 1 + Dist(a, Init(b))
  {
  }

  lemma OneSided<T(!new)>(a: seq<T>)
    requires a != []
    ensures Dist(a, []) == 1 + Dist(Init(a), []) && Dist([], a) == 1 + Dist([], Init(a))
  {
  }

  /** A script as cheap as the recurrence says. */
  lemma {:induction false} BestScript<T(!new)>(a: seq<T>, b: seq<T>) returns (script: seq<Edit<T>>)
    ensures Turns(script, a, b) && Cost(script) == Dist(a, b)
    decreases |a| + |b|
  {
    if a == [] && b == [] {
      script := [];
      return;
    }
    if a != [] {
      InitAndLast(a);
      OneSided(a);
    }
    if b != [] {
      InitAndLast(b);
      OneSided(b);
    }
    if a != [] && b != [] && Last(a) != Last(b) {
      DistCase(a, b);
    }
    hide Source;
    hide Target;
    hide Cost;
    var rest, e;
    if a == [] || (b != [] && Last(a) != Last(b) && Dist(a, b) == 1 + Dist(a, Init(b))) {
      rest := BestScript(a, Init(b));
      e := Insert(Last(b));
    } else if b == [] || (Last(a) != Last(b) && Dist(a, b) == 1 + Dist(Init(a), b)) {
      rest := BestScript(Init(a), b);
      e := Delete(Last(a));
    } else {
      rest := BestScript(Init(a), Init(b));
      e := if Last(a) == Last(b) then Keep(Last(a)) else Change(Last(a), Last(b));
    }
    script := rest + [e];
    Extended(rest, e);
  }

  /** Dropping one element changes the distance by at most one. */
  lemma {:induction false} NearPrefixes<T(!new)>(a: seq<T>, b: seq<T>)
    ensures a != [] ==> Dist(Init(a), b) <= Dist(a, b) + 1 && Dist(a, b) <= Dist(Init(a), b) + 1
    ensures b != [] ==> Dist(a, Init(b)) <= Dist(a, b) + 1 && Dist(a, b) <= Dist(a, Init(b)) + 1
    decreases |a| + |b|
  {
    if a != [] && b != [] {
      NearPrefixes(Init(a), b);
      NearPrefixes(a, Init(b));
      NearPrefixes(Init(a), Init(b));
    }
  }

  /** No script is cheaper. */
  lemma {:induction false} NoCheaper<T(!new)>(script: seq<Edit<T>>, a: seq<T>, b: seq<T>)
    requires Turns(script, a, b)
    ensures Cost(script) >= Dist(a, b)
  {
    if script != [] {
      var rest := Init(script);
      NoCheaper(rest, Source(rest), Target(rest));
      NearPrefixes(a, b);
      match Last(script)
      case Keep(c) =>
        assert Init(a) == Source(rest) && Init(b) == Target(rest);
      case Change(from, to) =>
        assert Init(a) == Source(rest) && Init(b) == Target(rest);
      case Insert(c) =>
        assert a == Source(rest) && Init(b) == Target(rest);
      case Delete(c) =>
        assert Init(a) == Source(rest) && b == Target(rest);
    }
  }

  /** The distance is the least cost of a script: some script costs that much and none costs less. */
  lemma DistIsLeast<T(!new)>(a: seq<T>, b: seq<T>)
    ensures exists script :: Turns(script, a, b) && Cost(script) == Dist(a, b)
    ensures forall script :: Turns(script, a, b) ==> Cost(script) >= Dist(a, b)
  {
    var best := BestScript(a, b);
    assert Turns(best, a, b);
    forall script | Turns(script, a, b)
      ensures Cost(script) >= Dist(a, b)
    {
      NoCheaper(script, a, b);
    }
  }

  // ---------------------------------------------------------------- a metric

  lemma {:induction false} ZeroIffEqual<T(!new)>(a: seq<T>, b: seq<T>)
    ensures Dist(a, b) == 0 <==> a == b
    decreases |a| + |b|
  {
    if a != [] && b != [] {
      ZeroIffEqual(Init(a), Init(b));
      assert a == Init(a) + [Last(a)] && b == Init(b) + [Last(b)];
    }
  }

  lemma {:induction false} Symmetric<T(!new)>(a: seq<T>, b: seq<T>)
    ensures Dist(a, b) == Dist(b, a)
    decreases |a| + |b|
  {
    if a != [] && b != [] {
      Symmetric(Init(a), Init(b));
      Symmetric(Init(a), b);
      Symmetric(a, Init(b));
    }
  }

  /** Two edits of the same middle element as one edit, or as none where the element comes and goes. */
  function Joined<T>(first: Edit<T>, second: Edit<T>): seq<Edit<T>> {
    match (first, second)
    case (Keep(_), _) => [second]
    case (_, Keep(_)) => [first]
    case (Change(x, _), Change(_, z)) => [Change(x, z)]
    case (Change(x, _), Delete(_)) => [Delete(x)]
    case (Insert(_), Change(_, z)) => [Insert(z)]
    case _ => []
  }

  lemma JoinedOk<T(!new)>(first: Edit<T>, second: Edit<T>)
    requires To(first) == From(second) && !first.Delete? && !second.Insert?
    ensures var joined := Joined(first, second);
      && (joined == [] ==> From(first) == [] && To(second) == [])
      && (joined != [] ==> |joined| == 1 && From(joined[0]) == From(first) && To(joined[0]) == To(second)
                           && Price(joined[0]) <= Price(first) + Price(second))
  {
  }

  lemma ScriptSplits<T(!new)>(s: seq<Edit<T>>)
    requires s != []
    ensures Source(s) == Source(Init(s)) + From(Last(s)) && Target(s) == Target(Init(s)) + To(Last(s))
    ensures Cost(s) == Cost(Init(s)) + Price(Last(s))
  {
  }

  /** Running one script after another is a script that costs no more than both. */
  lemma {:induction false} Compose<T(!new)>(s: seq<Edit<T>>, t: seq<Edit<T>>) returns (st: seq<Edit<T>>)
    requires Target(s) == Source(t)
    ensures Turns(st, Source(s), Target(t)) && Cost(st) <= Cost(s) + Cost(t)
    decreases |s| + |t|
  {
    if s == [] && t == [] {
      return [];
    }
    if s != [] {
      ScriptSplits(s);
    }
    if t != [] {
      ScriptSplits(t);
    }
    if s == [] || t == [] {
      NoneLeft(s, t);
    }
    hide Source;
    hide Target;
    hide Cost;
    if s != [] && Last(s).Delete? {
      var rest := Compose(Init(s), t);
      st := rest + [Last(s)];
      Extended(rest, Last(s));
    } else if t != [] && Last(t).Insert? {
      var rest := Compose(s, Init(t));
      st := rest + [Last(t)];
      Extended(rest, Last(t));
    } else {
      SameMiddle(Target(Init(s)), To(Last(s)), Source(Init(t)), From(Last(t)));
      var rest := Compose(Init(s), Init(t));
      var joined := Joined(Last(s), Last(t));
      JoinedOk(Last(s), Last(t));
      if joined == [] {
        st := rest;
      } else {
        st := rest + [joined[0]];
        Extended(rest, joined[0]);
      }
    }
  }

  /** With one script used up, the other only inserts or only deletes. */
  lemma NoneLeft<T(!new)>(s: seq<Edit<T>>, t: seq<Edit<T>>)
    requires Target(s) == Source(t) && (s == [] || t == []) && (s != [] || t != [])
    ensures (s != [] && Last(s).Delete?) || (t != [] && Last(t).Insert?)
  {
    if s != [] {
      ScriptSplits(s);
    }
    if t != [] {
      ScriptSplits(t);
    }
  }

  lemma SameMiddle<T(!new)>(a: seq<T>, x: seq<T>, b: seq<T>, y: seq<T>)
    requires a + x == b + y && |x| == 1 && |y| == 1
    ensures a == b && x == y
  {
    assert (a + x)[..|a|] == a && (b + y)[..|b|] == b;
    assert (a + x)[|a|] == x[0] && (b + y)[|b|] == y[0];
  }

  lemma Triangle<T(!new)>(a: seq<T>, b: seq<T>, c: seq<T>)
    ensures Dist(a, c) <= Dist(a, b) + Dist(b, c)
  {
    var s := BestScript(a, b);
    var t := BestScript(b, c);
    var st := Compose(s, t);
    NoCheaper(st, a, c);
  }
}
