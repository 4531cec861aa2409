/** The JSON values that properties hold, and the comparison the engine uses on them.
  *
  * A string is its UTF-8 bytes, whose bytewise order is the order of the source's strings. A double
  * is its sign, exponent and fraction fields, so two doubles are the same value here exactly when
  * their bits are (0.0 and -0.0 differ); JSON holds neither NaN nor infinities.
  */
module Json {
  import opened Words

  datatype Option<+T> = None | Some(value: T) {
    function GetOr(default: T): T {
      if Some? then value else default
    }
  }

  type Text = seq<byte>

  type i64 = n: int | -0x8000_0000_0000_0000 <= n < 0x8000_0000_0000_0000

  datatype Double = Double(negative: bool, exponent: nat, fraction: nat)
  type f64 = d: Double | d.exponent < 0x7FF && d.fraction < 0x10_0000_0000_0000
    witness Double(false, 0, 0)

  /** A number as `serde_json` holds it: a signed integer when it fits one, then an unsigned one. */
  datatype Number = Int(i: i64) | Big(u: u64) | Float(f: f64)

  datatype Value =
    | Null
    | Bool(b: bool)
    | Num(n: Number)
    | Str(s: Text)
    | Array(items: seq<Value>)
    | Object(members: map<Text, Value>)

  // ---------------------------------------------------------------- numbers as reals

  /** `m * 2^k`, by doubling or halving. */
  function Scaled(m: real, k: int): real
    decreases if k < 0 then -k else k
  {
    if k == 0 then m else if k > 0 then Scaled(m + m, k - 1) else Scaled(m / 2.0, k + 1)
  }

  function RealOf(d: f64): real {
    var magnitude :=
      if d.exponent == 0 then Scaled(d.fraction as real, -1074)
      else Scaled((0x10_0000_0000_0000 + d.fraction) as real, d.exponent - 1075);
    if d.negative then -magnitude else magnitude
  }

  /** The spacing of doubles at `n`: with 53 significant bits, `n < 2^53 * Ulp(n)`. */
  function Ulp(n: nat): (u: nat)
    ensures u > 0
  {
    if n < 0x20_0000_0000_0000 then 1 else 2 * Ulp(n / 2)
  }

  /** The quotient `q` or the next one up: whichever is nearer to `q + r / u`, ties to the even one. */
  function Nearest(q: int, r: int, u: int): (k: int)
    ensures q <= k <= q + 1
  {
    if 2 * r > u || (2 * r == u && q % 2 == 1) then q + 1 else q
  }

  /** The double nearest to `n`, ties to the even one (`n as f64`). */
  function RoundNat(n: nat): int {
    var u := Ulp(n);
    u * Nearest(n / u, n % u, u)
  }

  function RoundInt(i: int): int {
    if i < 0 then -RoundNat(-i) else RoundNat(i)
  }

  /** `Number::as_i64`. */
  function AsI64(n: Number): Option<i64> {
    if n.Int? then Some(n.i) else None
  }

  /** `Number::as_f64`, which every number has. */
  function AsF64(n: Number): real {
    match n
    case Int(i) => RoundInt(i) as real
    case Big(u) => RoundInt(u) as real
    case Float(f) => RealOf(f)
  }

  // ---------------------------------------------------------------- rounding keeps the order

  lemma {:induction false} UlpBounds(n: nat)
    ensures n < 0x20_0000_0000_0000 * Ulp(n)
    ensures Ulp(n) == 1 || 0x10_0000_0000_0000 * Ulp(n) <= n
  {
    if n >= 0x20_0000_0000_0000 {
      UlpBounds(n / 2);
    }
  }

  lemma {:induction false} UlpMonotone(m: nat, n: nat)
    requires m <= n
    ensures Ulp(m) == Ulp(n) || 2 * Ulp(m) <= Ulp(n)
  {
    if n >= 0x20_0000_0000_0000 {
      if m >= 0x20_0000_0000_0000 {
        UlpMonotone(m / 2, n / 2);
      }
    }
  }

  lemma ProductMonotone(u: nat, a: int, b: int)
    requires a <= b
    ensures u * a <= u * b
  {
  }

  lemma SameUlpMonotone(m: nat, n: nat, u: nat)
    requires m <= n && u > 0
    ensures u * Nearest(m / u, m % u, u) <= u * Nearest(n / u, n % u, u)
  {
    DivisionMonotone(m, n, u);
    ProductMonotone(u, Nearest(m / u, m % u, u), Nearest(n / u, n % u, u));
  }

  /** Between two binades: `RoundNat(m) <= 2^53 Ulp(m) <= 2^52 Ulp(n) <= RoundNat(n)`. */
  lemma NextUlpMonotone(m: nat, n: nat)
    requires 2 * Ulp(m) <= Ulp(n)
    ensures RoundNat(m) <= RoundNat(n)
  {
    var u, v := Ulp(m), Ulp(n);
    UlpBounds(m);
    UlpBounds(n);
    QuotientBelow(m, u, 0x20_0000_0000_0000);
    ProductMonotone(u, Nearest(m / u, m % u, u), 0x20_0000_0000_0000);
    QuotientAtLeast(n, v, 0x10_0000_0000_0000);
    ProductMonotone(v, 0x10_0000_0000_0000, Nearest(n / v, n % v, v));
  }

  lemma RoundNatMonotone(m: nat, n: nat)
    requires m <= n
    ensures RoundNat(m) <= RoundNat(n)
  {
    UlpMonotone(m, n);
    if Ulp(m) == Ulp(n) {
      SameUlpMonotone(m, n, Ulp(m));
    } else {
      NextUlpMonotone(m, n);
    }
  }

  lemma DivisionMonotone(m: nat, n: nat, u: nat)
    requires m <= n && u > 0
    ensures m / u <= n / u
    ensures m / u == n / u ==> m % u <= n % u
  {
    var p, q := m / u, n / u;
    if p > q {
      ProductMonotone(u, q + 1, p);
    }
  }

  lemma QuotientBelow(n: nat, u: nat, k: nat)
    requires u > 0 && n < k * u
    ensures n / u < k
  {
    if n / u >= k {
      ProductMonotone(u, k, n / u);
    }
  }

  lemma QuotientAtLeast(n: nat, u: nat, k: nat)
    requires u > 0 && k * u <= n
    ensures k <= n / u
  {
    if n / u + 1 <= k {
      ProductMonotone(u, n / u + 1, k);
    }
  }

  lemma RoundIntMonotone(i: int, j: int)
    requires i <= j
    ensures RoundInt(i) <= RoundInt(j)
  {
    if i >= 0 {
      RoundNatMonotone(i, j);
    } else if j < 0 {
      RoundNatMonotone(-j, -i);
    } else {
      assert RoundNat(0) == 0;
      RoundNatMonotone(0, -i);
      RoundNatMonotone(0, j);
    }
  }

  function Times(u: nat, k: int): int {
    u * k
  }

  /** `r` is a multiple of `u` at most half of `u` away from `i`, and an even multiple on a tie. */
  ghost predicate IsNearest(r: int, i: int, u: nat) {
    && -(u as int) <= 2 * (r - i) <= u
    && exists k: int :: r == Times(u, k) && (2 * (r - i) == u || 2 * (i - r) == u ==> k % 2 == 0)
  }

  lemma RoundNatNearest(n: nat)
    ensures n <= 0x20_0000_0000_0000 ==> RoundNat(n) == n
    ensures IsNearest(RoundNat(n), n, Ulp(n)) && IsNearest(0 - RoundNat(n), 0 - n, Ulp(n))
  {
    var u, q := Ulp(n), n / Ulp(n);
    var k := Nearest(q, n % u, u);
    QuotientOf(n, u);
    NextMultiple(u, q);
    assert RoundNat(n) == Times(u, k);
    if n <= 0x20_0000_0000_0000 {
      RoundSmall(n);
    }
    hide *;
    NearestMultiple(n, u, q, n % u);
  }

  lemma RoundSmall(n: nat)
    requires n <= 0x20_0000_0000_0000
    ensures RoundNat(n) == n
  {
    if n == 0x20_0000_0000_0000 {
      assert Ulp(n) == 2 * Ulp(0x10_0000_0000_0000);
    }
  }

  lemma QuotientOf(n: nat, u: nat)
    requires u > 0
    ensures n == Times(u, n / u) + n % u
  {
  }

  lemma NearestMultiple(n: nat, u: nat, q: int, r: nat)
    requires r < u && n == Times(u, q) + r
    ensures var m := Times(u, Nearest(q, r, u)); IsNearest(m, n, u) && IsNearest(0 - m, 0 - n, u)
  {
    NextMultiple(u, q);
    hide Times;
    var k := Nearest(q, r, u);
    assert 0 - Times(u, k) == Times(u, -k);
  }

  lemma NextMultiple(u: nat, q: int)
    ensures Times(u, q + 1) == Times(u, q) + u && Times(u, -q) == -Times(u, q) && Times(u, -q - 1) == Times(u, -q) - u
  {
  }

  /** Integers of at most 53 bits are doubles already; past them the nearest multiple of the spacing of
    * doubles is.
    */
  lemma RoundIntNearest(i: int)
    ensures -0x20_0000_0000_0000 <= i <= 0x20_0000_0000_0000 ==> RoundInt(i) == i
    ensures IsNearest(RoundInt(i), i, Ulp(if i < 0 then -i else i))
  {
    RoundNatNearest(if i < 0 then -i else i);
  }

  /** The spacing is the power of two that leaves 53 significant bits. */
  lemma {:induction false} UlpIsBinary(n: nat)
    ensures n < 0x20_0000_0000_0000 ==> Ulp(n) == 1
    ensures n >= 0x20_0000_0000_0000 ==> 0x10_0000_0000_0000 * Ulp(n) <= n < 0x20_0000_0000_0000 * Ulp(n)
    ensures exists e: nat :: Ulp(n) == Pow2(e)
  {
    UlpBounds(n);
    if n >= 0x20_0000_0000_0000 {
      UlpIsBinary(n / 2);
      var e: nat :| Ulp(n / 2) == Pow2(e);
      assert Ulp(n) == Pow2(e + 1);
    } else {
      assert Ulp(n) == Pow2(0);
    }
  }

  // ---------------------------------------------------------------- the order of doubles

  lemma {:induction false} ScaledMonotone(m: real, n: real, k: int)
    requires m < n
    ensures Scaled(m, k) < Scaled(n, k)
    decreases if k < 0 then -k else k
  {
    if k > 0 {
      ScaledMonotone(m + m, n + n, k - 1);
    } else if k < 0 {
      ScaledMonotone(m / 2.0, n / 2.0, k + 1);
    }
  }

  lemma {:induction false} ScaledZero(k: int)
    ensures Scaled(0.0, k) == 0.0
    decreases if k < 0 then -k else k
  {
    if k > 0 {
      ScaledZero(k - 1);
    } else if k < 0 {
      ScaledZero(k + 1);
    }
  }

  lemma ScaledTwice(m: real, k: int)
    ensures Scaled(m, k + 1) == Scaled(m + m, k)
  {
    assert k < 0 ==> (m + m) / 2.0 == m;
  }

  lemma {:induction false} ScaledDoubles(m: real, k: int)
    ensures Scaled(m + m, k) == 2.0 * Scaled(m, k)
    decreases if k < 0 then -k else k
  {
    if k > 0 {
      ScaledDoubles(m + m, k - 1);
    } else if k < 0 {
      ScaledDoubles(m / 2.0, k + 1);
      assert (m + m) / 2.0 == m / 2.0 + m / 2.0;
    }
  }

  /** The fields of `a` come before those of `b`: a smaller exponent, or the same and a smaller fraction. */
  predicate FieldsBefore(a: f64, b: f64) {
    a.exponent < b.exponent || (a.exponent == b.exponent && a.fraction < b.fraction)
  }

  function Magnitude(d: f64): f64 {
    Double(false, d.exponent, d.fraction)
  }

  /** The next binade starts past the end of this one. */
  lemma NextBinade(f: nat, e: nat)
    requires f < 0x10_0000_0000_0000 && e + 1 < 0x7FF
    ensures RealOf(Double(false, e, f)) < RealOf(Double(false, e + 1, 0))
  {
    if e == 0 {
      ScaledMonotone(f as real, 0x10_0000_0000_0000 as real, -1074);
    } else {
      ScaledMonotone((0x10_0000_0000_0000 + f) as real, 0x20_0000_0000_0000 as real, e - 1075);
      ScaledTwice(0x10_0000_0000_0000 as real, e - 1075);
    }
  }

  lemma SameBinade(e: nat, f: nat, g: nat)
    requires f < g < 0x10_0000_0000_0000 && e < 0x7FF
    ensures RealOf(Double(false, e, f)) < RealOf(Double(false, e, g))
  {
    if e == 0 {
      ScaledMonotone(f as real, g as real, -1074);
    } else {
      ScaledMonotone((0x10_0000_0000_0000 + f) as real, (0x10_0000_0000_0000 + g) as real, e - 1075);
    }
  }

  lemma {:induction false} MagnitudeBefore(a: f64, b: f64)
    requires !a.negative && !b.negative && FieldsBefore(a, b)
    ensures RealOf(a) < RealOf(b)
    decreases b.exponent
  {
    hide RealOf;
    if a.exponent == b.exponent {
      SameBinade(a.exponent, a.fraction, b.fraction);
    } else {
      var start: f64 := Double(false, b.exponent, 0);
      if a.exponent + 1 == b.exponent {
        NextBinade(a.fraction, a.exponent);
      } else {
        var below: f64 := Double(false, b.exponent - 1, 0);
        MagnitudeBefore(a, below);
        NextBinade(0, b.exponent - 1);
      }
      if b.fraction > 0 {
        SameBinade(b.exponent, 0, b.fraction);
      }
    }
  }

  lemma SignOnly(d: f64)
    ensures RealOf(d) == if d.negative then -RealOf(Magnitude(d)) else RealOf(Magnitude(d))
    ensures RealOf(Magnitude(d)) >= 0.0
    ensures RealOf(d) == 0.0 <==> d.exponent == 0 && d.fraction == 0
  {
    var zero: f64 := Double(false, 0, 0);
    ScaledZero(-1074);
    if FieldsBefore(zero, Magnitude(d)) {
      MagnitudeBefore(zero, Magnitude(d));
    }
  }

  /** The order of doubles is the order of their fields, turned around below zero; both zeros are level. */
  lemma DoubleOrder(a: f64, b: f64)
    ensures !a.negative && !b.negative ==> (RealOf(a) < RealOf(b) <==> FieldsBefore(a, b))
    ensures a.negative && b.negative ==> (RealOf(a) < RealOf(b) <==> FieldsBefore(b, a))
    ensures a.negative && !b.negative ==>
      RealOf(a) <= RealOf(b) && (RealOf(a) == RealOf(b) <==> a.exponent == b.exponent == a.fraction == b.fraction == 0)
  {
    SignOnly(a);
    SignOnly(b);
    var m, n := Magnitude(a), Magnitude(b);
    hide RealOf;
    if FieldsBefore(m, n) {
      MagnitudeBefore(m, n);
    } else if FieldsBefore(n, m) {
      MagnitudeBefore(n, m);
    }
  }

  /** The scale: at exponent 1075 a double is its significand, one exponent more doubles it, and the
    * doubles of exponent zero are the multiples of the smallest, up to the first of exponent one.
    */
  lemma DoubleScale(d: f64)
    ensures d.exponent == 1075 && !d.negative ==> RealOf(d) == (0x10_0000_0000_0000 + d.fraction) as real
    ensures 0 < d.exponent < 0x7FE ==> RealOf(d.(exponent := d.exponent + 1)) == 2.0 * RealOf(d)
    ensures d.exponent == 0 && d.fraction < 0xF_FFFF_FFFF_FFFF ==>
      RealOf(d.(fraction := d.fraction + 1)) - RealOf(d) == RealOf(Double(d.negative, 0, 1))
    ensures d.exponent == 0 && d.fraction == 0xF_FFFF_FFFF_FFFF ==>
      RealOf(Double(d.negative, 1, 0)) - RealOf(d) == RealOf(Double(d.negative, 0, 1))
  {
    if d.exponent > 0 {
      var m := (0x10_0000_0000_0000 + d.fraction) as real;
      ScaledTwice(m, d.exponent - 1075);
      ScaledDoubles(m, d.exponent - 1075);
    } else {
      ScaledAdds(d.fraction as real, 1.0, -1074);
    }
  }

  lemma {:induction false} ScaledAdds(m: real, n: real, k: int)
    ensures Scaled(m + n, k) == Scaled(m, k) + Scaled(n, k)
    decreases if k < 0 then -k else k
  {
    if k > 0 {
      ScaledAdds(m + m, n + n, k - 1);
      assert (m + n) + (m + n) == (m + m) + (n + n);
    } else if k < 0 {
      ScaledAdds(m / 2.0, n / 2.0, k + 1);
      assert (m + n) / 2.0 == m / 2.0 + n / 2.0;
    }
  }

  // ---------------------------------------------------------------- comparison

  datatype Ordering = Less | Equal | Greater

  function CmpInt(a: int, b: int): Ordering {
    if a < b then Less else if a == b then Equal else Greater
  }

  function CmpReal(a: real, b: real): Ordering {
    if a < b then Less else if a == b then Equal else Greater
  }

  /** Bytewise lexicographic order, a proper prefix first. */
  function CmpText(s: Text, t: Text): Ordering {
    if s == [] then (if t == [] then Equal else Less)
    else if t == [] then Greater
    else if s[0] != t[0] then CmpInt(s[0], t[0])
    else CmpText(s[1..], t[1..])
  }

  function CmpBool(a: bool, b: bool): Ordering {
    if a == b then Equal else if b then Less else Greater
  }

  /** `compare_values`: two scalars of one kind, `None` for incomparable kinds. */
  function CompareValues(a: Value, b: Value): Option<Ordering> {
    match (a, b)
    case (Num(m), Num(n)) =>
      if m.Int? && n.Int? then Some(CmpInt(m.i, n.i)) else Some(CmpReal(AsF64(m), AsF64(n)))
    case (Str(s), Str(t)) => Some(CmpText(s, t))
    case (Bool(x), Bool(y)) => Some(CmpBool(x, y))
    case _ => None
  }

  predicate LessOrEqual(a: Value, b: Value) {
    CompareValues(a, b) == Some(Less) || CompareValues(a, b) == Some(Equal)
  }

  predicate GreaterOrEqual(a: Value, b: Value) {
    CompareValues(a, b) == Some(Greater) || CompareValues(a, b) == Some(Equal)
  }

  /** Equality as the source's `==` decides it where one side is a scalar: doubles by value, so 0.0
    * equals -0.0.
    */
  predicate SameValue(a: Value, b: Value) {
    if a.Num? && b.Num? && a.n.Float? && b.n.Float? then RealOf(a.n.f) == RealOf(b.n.f) else a == b
  }

  /** `s` and `t` part after `k` bytes, where `s` ends or holds the smaller one. */
  ghost predicate PartsAt(s: Text, t: Text, k: nat) {
    k <= |s| && k < |t| && s[..k] == t[..k] && (k == |s| || s[k] < t[k])
  }

  lemma {:induction false} TextOrder(s: Text, t: Text)
    ensures CmpText(s, t) == Less <==> exists k: nat :: PartsAt(s, t, k)
  {
    if s != [] && t != [] && s[0] == t[0] {
      TextOrder(s[1..], t[1..]);
      if k: nat :| PartsAt(s[1..], t[1..], k) {
        assert s[..k + 1] == [s[0]] + s[1..][..k] && t[..k + 1] == [t[0]] + t[1..][..k];
        assert PartsAt(s, t, k + 1);
      }
      if k: nat :| PartsAt(s, t, k) {
        assert k > 0;
        assert s[1..][..k - 1] == s[..k][1..] && t[1..][..k - 1] == t[..k][1..];
        assert PartsAt(s[1..], t[1..], k - 1);
      }
    } else {
      assert PartsAt(s, t, 0) <==> CmpText(s, t) == Less;
      assert forall k: nat :: k > 0 && PartsAt(s, t, k) ==> s[..k][0] == t[..k][0];
    }
  }

  /** What `Less` means: the order of integers, of doubles as reals, of an integer of at most 53 bits and a
    * double as reals, of larger integers after rounding, of strings by the first byte that differs, and
    * false below true. Values that are not two numbers, two strings or two booleans are incomparable.
    */
  lemma ValueOrder(a: Value, b: Value)
    ensures CompareValues(a, b).Some? <==> (a.Num? && b.Num?) || (a.Str? && b.Str?) || (a.Bool? && b.Bool?)
    ensures a.Num? && b.Num? ==> match (a.n, b.n)
      case (Int(i), Int(j)) => CompareValues(a, b) == Some(Less) <==> i < j
      case (Float(f), Float(g)) => CompareValues(a, b) == Some(Less) <==> RealOf(f) < RealOf(g)
      case (Int(i), Float(g)) =>
        -0x20_0000_0000_0000 <= i <= 0x20_0000_0000_0000 ==>
          (CompareValues(a, b) == Some(Less) <==> i as real < RealOf(g))
      case (Float(f), Int(j)) =>
        -0x20_0000_0000_0000 <= j <= 0x20_0000_0000_0000 ==>
          (CompareValues(a, b) == Some(Less) <==> RealOf(f) < j as real)
      case (Big(u), Big(v)) => CompareValues(a, b) == Some(Less) <==> RoundInt(u) < RoundInt(v)
      case (Int(i), Big(v)) => CompareValues(a, b) == Some(Less) <==> RoundInt(i) < RoundInt(v)
      case (Big(u), Int(j)) => CompareValues(a, b) == Some(Less) <==> RoundInt(u) < RoundInt(j)
      case (Big(u), Float(g)) => CompareValues(a, b) == Some(Less) <==> RoundInt(u) as real < RealOf(g)
      case (Float(f), Big(v)) => CompareValues(a, b) == Some(Less) <==> RealOf(f) < RoundInt(v) as real
    ensures a.Str? && b.Str? ==> (CompareValues(a, b) == Some(Less) <==> exists k: nat :: PartsAt(a.s, b.s, k))
    ensures a.Bool? && b.Bool? ==> (CompareValues(a, b) == Some(Less) <==> !a.b && b.b)
  {
    hide RealOf;
    hide CmpText;
    hide RoundInt;
    if a.Str? && b.Str? {
      TextOrder(a.s, b.s);
    }
    if a.Num? && a.n.Int? {
      RoundIntNearest(a.n.i);
    }
    if b.Num? && b.n.Int? {
      RoundIntNearest(b.n.i);
    }
  }

  // ---------------------------------------------------------------- the order within one column kind

  datatype Kind = KNull | KInt | KFloat | KBool | KStr | KOther

  /** `kind_of`: the scalar kind of one value, an integer beyond `i64` being of no column kind. */
  function KindOf(v: Value): Kind {
    match v
    case Null => KNull
    case Bool(_) => KBool
    case Num(Int(_)) => KInt
    case Num(Float(_)) => KFloat
    case Num(Big(_)) => KOther
    case Str(_) => KStr
    case _ => KOther
  }

  /** A kind whose values a typed column holds. */
  predicate Typed(k: Kind) {
    k in {KInt, KFloat, KBool, KStr}
  }

  function Flip(o: Ordering): Ordering {
    match o case Less => Greater case Equal => Equal case Greater => Less
  }

  lemma {:induction false} CmpTextFlip(s: Text, t: Text)
    ensures CmpText(t, s) == Flip(CmpText(s, t))
    ensures CmpText(s, t) == Equal <==> s == t
  {
    if s != [] && t != [] && s[0] == t[0] {
      CmpTextFlip(s[1..], t[1..]);
      assert s == [s[0]] + s[1..] && t == [t[0]] + t[1..];
    }
  }

  lemma {:induction false} CmpTextTransitive(s: Text, t: Text, u: Text)
    requires CmpText(s, t) != Greater && CmpText(t, u) != Greater
    ensures CmpText(s, u) != Greater
    ensures CmpText(s, u) == Equal ==> CmpText(s, t) == Equal
  {
    if s != [] && t != [] && u != [] && s[0] == t[0] == u[0] {
      CmpTextTransitive(s[1..], t[1..], u[1..]);
    }
  }

  lemma CompareFlip(a: Value, b: Value)
    ensures CompareValues(a, b).Some? == CompareValues(b, a).Some?
    ensures CompareValues(a, b).Some? ==> CompareValues(b, a) == Some(Flip(CompareValues(a, b).value))
    ensures GreaterOrEqual(a, b) == LessOrEqual(b, a)
  {
    if a.Str? && b.Str? {
      CmpTextFlip(a.s, b.s);
    }
  }

  /** Values of one column kind are totally ordered, and only equal values are level. */
  lemma KindIsOrdered(a: Value, b: Value)
    requires KindOf(a) == KindOf(b) && Typed(KindOf(a))
    ensures CompareValues(a, b).Some?
    ensures CompareValues(a, b) == Some(Equal) <==> SameValue(a, b)
    ensures LessOrEqual(a, b) || LessOrEqual(b, a)
  {
    CompareFlip(a, b);
    if a.Str? {
      CmpTextFlip(a.s, b.s);
    }
  }

  /** A bound of any kind keeps its side along ascending values of one kind. */
  lemma BoundTransitive(bound: Value, v: Value, w: Value)
    requires KindOf(v) == KindOf(w) && Typed(KindOf(v))
    requires LessOrEqual(v, w)
    ensures LessOrEqual(bound, v) ==> LessOrEqual(bound, w)
    ensures LessOrEqual(w, bound) ==> LessOrEqual(v, bound)
    ensures CompareValues(bound, v).Some? == CompareValues(bound, w).Some?
  {
    match v
    case Num(m) =>
      if m.Int? {
        RoundIntMonotone(m.i, w.n.i);
      }
    case Str(s) =>
      if bound.Str? {
        if LessOrEqual(bound, v) {
          CmpTextTransitive(bound.s, s, w.s);
        }
        if LessOrEqual(w, bound) {
          CmpTextTransitive(s, w.s, bound.s);
        }
      }
    case _ =>
  }
}
