/** The random number generator of path/local/sys_lib.c, after L'Ecuyer: three multiplicative
    generators, updated without large products, and their combination. */
module Random {
  import opened Arith

  // ------------------------------------------------------------------ one generator

  /** `s := a * (s - k * q) - k * r` with `k = s / q`, and `+ m` when that is negative. */
  function Next(s: int, m: int, a: int, q: int, r: int): int
    requires q > 0
  {
    var v := Schrage(s, a, q, r);
    if v < 0 then v + m else v
  }

  function Schrage(s: int, a: int, q: int, r: int): int
    requires q > 0
  {
    var k := s / q;
    a * (s - k * q) - k * r
  }

  /** The constants split the modulus: m == a * q + r with r < q. */
  predicate Splits(m: int, a: int, q: int, r: int) {
    0 < a < m && 0 < q && 0 <= r < q && m == a * q + r
  }

  /** What is stored never exceeds the modulus in magnitude, and ends up as a * s mod m. */
  lemma SchrageIsMultiplication(s: int, m: int, a: int, q: int, r: int)
    requires Splits(m, a, q, r) && 0 < s < m
    ensures -m < Schrage(s, a, q, r) < m
    ensures Next(s, m, a, q, r) == (a * s) % m
  {
    var k, e, v := s / q, s % q, Schrage(s, a, q, r);
    SchrageValue(s, a, q, r, k, e);
    hide Schrage, Splits;
    SchrageFacts(s, m, a, q, r, k, e, v);
    ModFrom(a * s, m, k, v);
  }

  lemma SchrageValue(s: int, a: int, q: int, r: int, k: int, e: int)
    requires q > 0 && k == s / q && e == s % q
    ensures s == q * k + e && 0 <= e < q
    ensures Schrage(s, a, q, r) == a * e - k * r
  {
    assert k * q == q * k;
  }

  lemma SchrageFacts(s: int, m: int, a: int, q: int, r: int, k: int, e: int, v: int)
    requires Splits(m, a, q, r) && 0 < s < m
    requires s == q * k + e && 0 <= e < q && v == a * e - k * r
    ensures -m < v < m && v == a * s - m * k
  {
    SchrageBounds(m, a, q, r, k, e);
    SchrageIdentity(s, m, a, q, r, k);
    assert q * k == k * q;
  }

  lemma ModFrom(x: int, m: int, k: int, v: int)
    requires -m < v < m && v == x - m * k
    ensures x % m == if v < 0 then v + m else v
  {
    if v < 0 {
      assert m * (k - 1) == m * k - m;
      DivModUnique(m, k - 1, v + m);
    } else {
      DivModUnique(m, k, v);
    }
  }

  lemma SchrageIdentity(s: int, m: int, a: int, q: int, r: int, k: int)
    requires m == a * q + r
    ensures a * (s - k * q) - k * r == a * s - m * k
  {
    MulDistributes(a * q, r, k);
    MulDistributes(s, -(k * q), a);
    assert (a * q) * k == a * (k * q);
  }

  lemma SchrageBounds(m: int, a: int, q: int, r: int, k: int, e: int)
    requires Splits(m, a, q, r) && 0 <= e < q && 0 <= q * k + e < m
    ensures 0 <= a * e < m && 0 <= k * r < m
  {
    MulMonotone(e, q - 1, a);
    MulDistributes(q, -1, a);
    if k < 0 {
      MulMonotone(k, -1, q);
    }
    MulMonotone(r, q, k);
    MulMonotone(0, r, k);
    MulMonotone(0, e, a);
  }

  /** A multiplier with an inverse b never leads to 0, and no two seeds to the same one. */
  predicate Inverse(m: int, a: int, b: int) {
    m > 1 && (b * a) % m == 1
  }

  lemma Undo(s: int, m: int, a: int, b: int)
    requires Inverse(m, a, b) && 0 <= s < m
    ensures (b * ((a * s) % m)) % m == s
  {
    var k, e := (a * s) / m, (a * s) % m;
    var c := (b * a) / m;
    assert a * s == m * k + e && b * a == m * c + 1;
    MulAssociates(b, a, s);
    MulDistributes(m * c, 1, s);
    MulAssociates(m, c, s);
    assert b * (a * s) == m * (c * s) + s;
    assert b * (m * k + e) == b * (m * k) + b * e;
    assert b * (m * k) == m * (b * k);
    assert b * e == m * (c * s - b * k) + s;
    DivModUnique(m, c * s - b * k, s);
  }

  lemma NeverZero(s: int, m: int, a: int, b: int)
    requires Inverse(m, a, b) && 0 < s < m
    ensures 0 < (a * s) % m < m
  {
    Undo(s, m, a, b);
    if (a * s) % m == 0 {
      DivModUnique(m, 0, 0);
    }
  }

  lemma StepIsInjective(s: int, t: int, m: int, a: int, b: int)
    requires Inverse(m, a, b) && 0 <= s < m && 0 <= t < m && (a * s) % m == (a * t) % m
    ensures s == t
  {
    Undo(s, m, a, b);
    Undo(t, m, a, b);
  }

  // ------------------------------------------------------------------ the combined generator

  const M1 := 32363
  const M2 := 31727
  const M3 := 31657

  datatype Seeds = Seeds(s1: int, s2: int, s3: int)

  predicate Ok(s: Seeds) {
    0 < s.s1 < M1 && 0 < s.s2 < M2 && 0 < s.s3 < M3
  }

  /** One draw, as plain modular arithmetic. */
  function Step(s: Seeds): Seeds {
    Seeds((157 * s.s1) % M1, (146 * s.s2) % M2, (142 * s.s3) % M3)
  }

  lemma StepOk(s: Seeds)
    requires Ok(s)
    ensures Ok(Step(s))
  {
    NeverZero(s.s1, M1, 157, 29271);
    NeverZero(s.s2, M2, 146, 28902);
    NeverZero(s.s3, M3, 142, 17612);
  }

  /** No two states lead to the same state: every run can be traced back. */
  lemma StepsApart(s: Seeds, t: Seeds)
    requires Ok(s) && Ok(t)
    ensures Step(s) == Step(t) ==> s == t
  {
    if Step(s) == Step(t) {
      StepIsInjective(s.s1, t.s1, M1, 157, 29271);
      StepIsInjective(s.s2, t.s2, M2, 146, 28902);
      StepIsInjective(s.s3, t.s3, M3, 142, 17612);
    }
  }

  /** The combination: s1 - s2 + s3 brought into 1..32362. */
  function Combined(s: Seeds): int {
    1 + (s.s1 - s.s2 + s.s3 - 1) % 32362
  }

  /** The two conditional corrections of drand48 amount to that. */
  lemma CorrectionsCombine(s: Seeds, z: int)
    requires Ok(s)
    requires var d := s.s1 - s.s2;
      var z0 := (if d > 706 then d - 32362 else d) + s.s3;
      z == if z0 < 1 then z0 + 32362 else z0
    ensures z == Combined(s) && 1 <= z <= 32362
  {
    var t := s.s1 - s.s2 + s.s3 - 1;
    var q := (t - (z - 1)) / 32362;
    assert q == -1 || q == 0 || q == 1;
    DivModUnique(32362, q, z - 1);
  }

  function StepN(s: Seeds, n: nat): Seeds {
    if n == 0 then s else Step(StepN(s, n - 1))
  }

  function Power(a: nat, n: nat): nat {
    if n == 0 then 1 else a * Power(a, n - 1)
  }

  /** After n draws each seed is its first value times the n-th power of its multiplier. */
  lemma {:induction false} StepNIsPower(s: Seeds, n: nat)
    requires Ok(s)
    ensures StepN(s, n) == Seeds((Power(157, n) * s.s1) % M1, (Power(146, n) * s.s2) % M2, (Power(142, n) * s.s3) % M3)
  {
    if n == 0 {
      DivModUnique(M1, 0, s.s1);
      DivModUnique(M2, 0, s.s2);
      DivModUnique(M3, 0, s.s3);
    } else {
      StepNIsPower(s, n - 1);
      PowerStep(157, Power(157, n - 1), s.s1, M1);
      PowerStep(146, Power(146, n - 1), s.s2, M2);
      PowerStep(142, Power(142, n - 1), s.s3, M3);
    }
  }

  lemma PowerStep(a: int, p: int, s: int, m: int)
    requires m > 0
    ensures (a * ((p * s) % m)) % m == ((a * p) * s) % m
  {
    var k, e := (p * s) / m, (p * s) % m;
    var c, d := (a * e) / m, (a * e) % m;
    assert p * s == m * k + e && a * e == m * c + d;
    MulAssociates(a, p, s);
    assert a * (m * k + e) == a * (m * k) + a * e;
    assert a * (m * k) == m * (a * k);
    assert (a * p) * s == m * (a * k + c) + d;
    DivModUnique(m, a * k + c, d);
  }

  const SCALE := 0.000030899

  lemma Scaled(z: int)
    requires 1 <= z <= 32362
    ensures 0.0 < z as real * SCALE < 1.0
  {
    assert z as real <= 32362.0;
  }

  /** The scaled result is below one half for one half of the values. */
  lemma HalfScaled(z: int)
    requires 1 <= z <= 32362
    ensures z as real * SCALE < 0.5 <==> z <= 32362 / 2
  {
    if z <= 16181 {
      assert z as real <= 16181.0;
    } else {
      assert z as real >= 16182.0;
    }
  }

  function Abs(x: real): real {
    if x < 0.0 then -x else x
  }

  lemma Positive(x: real, y: real)
    requires x > 0.0 && y >= 0.0
    ensures x * y >= 0.0 && (x * y == 0.0 <==> y == 0.0)
  {
  }

  lemma Fraction(p: real, w: real, v: real)
    requires 0.0 < p < 1.0 && w >= 0.0 && v == p * w
    ensures w > 0.0 ==> 0.0 < v < w
  {
    Positive(p, w);
    Positive(1.0 - p, w);
    assert (1.0 - p) * w == w - p * w;
  }

  lemma Signs(p: real, w: real)
    ensures p * w == if (p < 0.0) == (w < 0.0) then Abs(p) * Abs(w) else -(Abs(p) * Abs(w))
  {
  }

  lemma ProductInside(p: real, w: real, v: real)
    requires -1.0 < p < 1.0 && p != 0.0 && v == p * w
    ensures w != 0.0 ==> 0.0 < Abs(v) < Abs(w) && (v > 0.0 <==> (p > 0.0 <==> w > 0.0))
    ensures w == 0.0 ==> v == 0.0
  {
    var a, b := Abs(p), Abs(w);
    var x := a * b;
    Fraction(a, b, x);
    Signs(p, w);
    assert v == if (p < 0.0) == (w < 0.0) then x else -x;
  }

  /** A proper fraction of something is smaller in size and not nothing. */
  function Times(p: real, w: real): (v: real)
    requires -1.0 < p < 1.0 && p != 0.0
    ensures w != 0.0 ==> 0.0 < Abs(v) < Abs(w) && (v > 0.0 <==> (p > 0.0 <==> w > 0.0))
    ensures w == 0.0 ==> v == 0.0
  {
    ProductInside(p, w, p * w);
    p * w
  }

  class Generator {
    var seed1: int
    var seed2: int
    var seed3: int

    ghost function State(): Seeds
      reads this
    {
      Seeds(seed1, seed2, seed3)
    }

    /** The fixed seeds. */
    constructor ()
      ensures Ok(State()) && State() == Seeds(127, 29345, 10999)
    {
      seed1, seed2, seed3 := 127, 29345, 10999;
    }

    /** drand48. */
    method Drand48() returns (p: real)
      requires Ok(State())
      modifies this
      ensures Ok(State()) && State() == Step(old(State()))
      ensures p == Combined(State()) as real * SCALE && 0.0 < p < 1.0
    {
      SchrageIsMultiplication(seed1, M1, 157, 206, 21);
      SchrageIsMultiplication(seed2, M2, 146, 217, 45);
      SchrageIsMultiplication(seed3, M3, 142, 222, 133);
      StepOk(State());
      hide Step, Combined;
      NextSeeds();
      var z := seed1 - seed2;
      if z > 706 {
        z := z - 32362;
      }
      z := z + seed3;
      if z < 1 {
        z := z + 32362;
      }
      CorrectionsCombine(State(), z);
      Scaled(z);
      p := z as real * SCALE;
    }

    /** The three seed updates of drand48. */
    method NextSeeds()
      modifies this
      ensures seed1 == Next(old(seed1), M1, 157, 206, 21)
      ensures seed2 == Next(old(seed2), M2, 146, 217, 45)
      ensures seed3 == Next(old(seed3), M3, 142, 222, 133)
    {
      var k := seed1 / 206;
      seed1 := 157 * (seed1 - k * 206) - k * 21;
      if seed1 < 0 {
        seed1 := seed1 + 32363;
      }
      k := seed2 / 217;
      seed2 := 146 * (seed2 - k * 217) - k * 45;
      if seed2 < 0 {
        seed2 := seed2 + 31727;
      }
      k := seed3 / 222;
      seed3 := 142 * (seed3 - k * 222) - k * 133;
      if seed3 < 0 {
        seed3 := seed3 + 31657;
      }
    }

    /** rand_range: strictly inside the bounds, or the minimum when they leave nothing inside. */
    method RandRange(minimum: real, maximum: real) returns (v: real)
      requires Ok(State())
      modifies this
      ensures Ok(State())
      ensures minimum < maximum ==> minimum < v < maximum && State() == Step(old(State()))
      ensures maximum <= minimum ==> v == minimum && State() == old(State())
    {
      hide Step, Times;
      if maximum <= minimum {
        return minimum;
      }
      var p := Drand48();
      var value := Times(p, maximum - minimum);
      v := minimum + value;
    }

    /** get_val: two draws; strictly within the range of the mean, and the second draw chooses the
        side. */
    method GetVal(mean: real, range: real) returns (v: real)
      requires Ok(State())
      modifies this
      ensures Ok(State()) && State() == Step(Step(old(State())))
      ensures range != 0.0 ==> 0.0 < Abs(v - mean) < Abs(range)
      ensures range != 0.0 ==> (v < mean <==> (range > 0.0 <==> Combined(State()) <= 32362 / 2))
      ensures range == 0.0 ==> v == mean
    {
      hide Step, Times;
      var prob := Drand48();
      var sign := Drand48();
      HalfScaled(Combined(State()));
      if sign < 0.5 {
        prob := -prob;
      }
      v := mean + Times(prob, range);
    }
  }

  /** Any number of draws from the fixed seeds. */
  method Draws(n: nat) returns (g: Generator, ps: seq<real>)
    ensures Ok(g.State()) && g.State() == StepN(Seeds(127, 29345, 10999), n)
    ensures |ps| == n && forall i :: 0 <= i < n ==>
              0.0 < ps[i] < 1.0 && ps[i] == Combined(StepN(Seeds(127, 29345, 10999), i + 1)) as real * SCALE
  {
    hide Step, Combined;
    g := new Generator();
    ps := [];
    var i := 0;
    while i < n
      invariant 0 <= i <= n && |ps| == i && fresh(g)
      invariant Ok(g.State()) && g.State() == StepN(Seeds(127, 29345, 10999), i)
      invariant forall j :: 0 <= j < i ==>
                  0.0 < ps[j] < 1.0 && ps[j] == Combined(StepN(Seeds(127, 29345, 10999), j + 1)) as real * SCALE
    {
      var p := g.Drand48();
      ps := ps + [p];
      i := i + 1;
    }
  }
}
