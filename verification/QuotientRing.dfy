/** Euclid's algorithm over the integers, plain and extended, as the Euclidean domain and
    its quotient rings run it. Integer division has a non-negative remainder. */
module QuotientRings {
  import opened Bits

  ghost predicate Divides(d: int, x: int) {
    exists k :: x == d * k
  }

  lemma DividesSum(d: int, x: int, y: int, c: int)
    requires Divides(d, x) && Divides(d, y)
    ensures Divides(d, x + c * y)
  {
    var j :| x == d * j;
    var k :| y == d * k;
    assert c * (d * k) == d * (c * k);
    assert x + c * y == d * (j + c * k);
  }

  lemma DividesOne(d: int)
    requires Divides(d, 1)
    ensures d == 1 || d == -1
  {
    var k :| 1 == d * k;
    MultipleOutgrows(k, if d >= 0 then d else -d);
    assert (-d) * k == -(d * k);
  }

  lemma EuclideanDivision(x: int, d: int)
    requires d != 0
    ensures x == x / d * d + x % d
    ensures 0 <= x % d < if d < 0 then -d else d
  {
  }

  /** The common divisors of both pairs are the same. */
  ghost predicate SameDivisors(a: int, b: int, c: int, d: int) {
    forall e :: SameDivisorAt(e, a, b, c, d)
  }

  ghost predicate SameDivisorAt(e: int, a: int, b: int, c: int, d: int) {
    Divides(e, a) && Divides(e, b) <==> Divides(e, c) && Divides(e, d)
  }

  /** A division step keeps the common divisors. */
  lemma DivisionKeepsDivisors(a: int, b: int, x: int, y: int, q: int, r: int)
    requires SameDivisors(a, b, x, y) && x == q * y + r
    ensures SameDivisors(a, b, y, r)
  {
    forall e ensures SameDivisorAt(e, a, b, y, r) {
      assert SameDivisorAt(e, a, b, x, y);
      if Divides(e, x) && Divides(e, y) {
        DividesSum(e, x, y, -q);
        assert x + (-q) * y == r;
      }
      if Divides(e, y) && Divides(e, r) {
        DividesSum(e, r, y, q);
      }
    }
  }

  /** `g` is a greatest common divisor of `a` and `b`: it divides both, and every common
      divisor divides it. */
  ghost predicate IsGcd(g: int, a: int, b: int) {
    SameDivisors(a, b, g, 0)
  }

  lemma GcdMeaning(g: int, a: int, b: int)
    requires IsGcd(g, a, b)
    ensures Divides(g, a) && Divides(g, b)
    ensures forall e :: Divides(e, a) && Divides(e, b) ==> Divides(e, g)
  {
    assert g == g * 1 && 0 == g * 0;
    assert SameDivisorAt(g, a, b, g, 0);
    forall e | Divides(e, a) && Divides(e, b) ensures Divides(e, g) {
      assert SameDivisorAt(e, a, b, g, 0);
    }
  }

  /** Three distinct places of a three-element buffer. */
  predicate Rotated(i0: nat, i1: nat, i2: nat) {
    i0 < 3 && i1 < 3 && i2 < 3 && i0 != i1 && i1 != i2 && i0 != i2
  }

  ghost function Size(x: int): nat {
    if x < 0 then 0 - x else x
  }

  predicate IsIntegerUnit(a: int) {
    a == 1 || a == -1
  }

  /** `g` as an integer combination of `a` and `b`. */
  ghost predicate Combines(g: int, a: int, b: int, v: int, w: int) {
    g == v * a + w * b
  }

  /** A division step, and the combination that expresses its remainder. */
  lemma CombinationStep(a: int, b: int, g0: int, v0: int, w0: int, g1: int, v1: int, w1: int, y: int)
    requires Combines(g0, a, b, v0, w0) && Combines(g1, a, b, v1, w1)
    ensures Combines(g0 - y * g1, a, b, v0 - v1 * y, w0 - w1 * y)
  {
    assert (v0 - v1 * y) * a == v0 * a - v1 * y * a;
    assert (w0 - w1 * y) * b == w0 * b - w1 * y * b;
    assert y * (v1 * a + w1 * b) == v1 * y * a + w1 * y * b;
  }

  /** `AbstractEuclideanDomain::Gcd` over the integers. */
  method Gcd(a: int, b: int) returns (result: int)
    ensures IsGcd(result, a, b)
    ensures exists v, w :: Combines(result, a, b, v, w)
  {
    var g := [b, a, 0];
    var i0, i1, i2 := 0, 1, 2;
    ghost var v0, w0, v1, w1 := 0, 1, 1, 0;
    forall e ensures SameDivisorAt(e, a, b, b, a) {}
    while g[i1] != 0
      invariant |g| == 3 && Rotated(i0, i1, i2)
      invariant SameDivisors(a, b, g[i0], g[i1])
      invariant Combines(g[i0], a, b, v0, w0) && Combines(g[i1], a, b, v1, w1)
      decreases if g[i1] < 0 then -g[i1] else g[i1]
    {
      ghost var y := g[i0] / g[i1];
      EuclideanDivision(g[i0], g[i1]);
      DivisionKeepsDivisors(a, b, g[i0], g[i1], y, g[i0] % g[i1]);
      CombinationStep(a, b, g[i0], v0, w0, g[i1], v1, w1, y);
      g := g[i2 := g[i0] % g[i1]];
      i0, i1, i2 := i1, i2, i0;
      v0, w0, v1, w1 := v1, w1, v0 - v1 * y, w0 - w1 * y;
    }
    result := g[i0];
  }

  /** Some element inverts `a` modulo `m`. */
  ghost predicate Invertible(a: int, m: int) {
    exists x :: Divides(m, a * x - 1)
  }

  lemma UnitGcdInverts(a: int, m: int, g: int, v: int, w: int)
    requires IsIntegerUnit(g) && Combines(g, a, m, v, w)
    ensures Divides(m, a * (v * g) - 1) && Invertible(a, m)
  {
    assert g * g == 1;
    var p, q := v * g, w * g;
    assert 1 == p * a + q * m by {
      assert g * (v * a + w * m) == v * g * a + w * g * m;
    }
    assert a * p - 1 == m * -q;
  }

  lemma InvertibleHasUnitGcd(a: int, m: int, g: int)
    requires Invertible(a, m) && Divides(g, a) && Divides(g, m)
    ensures IsIntegerUnit(g)
  {
    var x :| Divides(m, a * x - 1);
    var k :| a * x - 1 == m * k;
    assert 0 == g * 0;
    DividesSum(g, 0, a, x);
    DividesSum(g, 0 + x * a, m, -k);
    assert 0 + x * a + -k * m == 1;
    DividesOne(g);
  }

  /** An element is invertible exactly when its greatest common divisor with the modulus is
      a unit. */
  lemma InvertibleByGcd(a: int, m: int, g: int, v: int, w: int)
    requires IsGcd(g, a, m) && Combines(g, a, m, v, w)
    ensures IsIntegerUnit(g) <==> Invertible(a, m)
  {
    GcdMeaning(g, a, m);
    if IsIntegerUnit(g) {
      UnitGcdInverts(a, m, g, v, w);
    }
    if Invertible(a, m) {
      InvertibleHasUnitGcd(a, m, g);
    }
  }

  datatype QuotientRing = QuotientRing(modulus: int)
  {
    predicate Equal(a: int, b: int)
      requires modulus > 0
    {
      (a - b) % modulus == 0
    }

    /** Whether an element is a unit, by the greatest common divisor with the modulus. */
    method IsUnit(a: int) returns (unit: bool)
      requires modulus > 0
      ensures unit <==> Invertible(a, modulus)
    {
      var g := Gcd(a, modulus);
      ghost var v, w :| Combines(g, a, modulus, v, w);
      InvertibleByGcd(a, modulus, g, v, w);
      unit := IsIntegerUnit(g);
    }

    /** What an inverse should be: a solution of `a * x = 1` if there is one, else zero. */
    ghost predicate InverseIsRight(a: int, x: int) {
      if Invertible(a, modulus) then Divides(modulus, a * x - 1) else x == 0
    }

    lemma GcdGivesInverse(a: int, g: int, v: int, w: int)
      requires modulus > 0 && IsGcd(g, a, modulus) && Combines(g, a, modulus, v, w)
      ensures InverseIsRight(a, if IsIntegerUnit(g) then v / g else 0)
    {
      InvertibleByGcd(a, modulus, g, v, w);
      if IsIntegerUnit(g) {
        UnitGcdInverts(a, modulus, g, v, w);
        assert v / g == v * g;
      }
    }

    lemma ZeroAsInverse(a: int)
      requires modulus > 0
      ensures InverseIsRight(a, 0) <==> modulus == 1 || !Invertible(a, modulus)
    {
      assert a * 0 - 1 == -1;
      if modulus == 1 {
        assert -1 == modulus * -1;
      }
      if Divides(modulus, -1) {
        var k :| -1 == modulus * k;
        assert 1 == modulus * -k;
        DividesOne(modulus);
      }
    }

    /** Below the modulus, the loop's comparison with zero is the integer one. */
    lemma SmallEqualsZero(x: int)
      requires modulus > 0 && -modulus < x < modulus
      ensures Equal(x, 0) <==> x == 0
    {
      if x > 0 {
        Unquotient(x, modulus, 0, x);
      } else if x < 0 {
        Unquotient(x, modulus, -1, x + modulus);
      }
    }

    /** The loop on an element at or above the modulus: it stops at once, or after one step
        that only exchanges the two numbers. */
    ghost predicate Swapping(a: int, g0: int, g1: int, v0: int) {
      (g0 == modulus && g1 == a && v0 == 0) || (g0 == a && g1 == modulus && !IsIntegerUnit(a))
    }

    lemma SwapStep(a: int, g0: int, g1: int, v0: int)
      requires modulus > 0 && !(-modulus < a < modulus) && Swapping(a, g0, g1, v0) && !Equal(g1, 0)
      ensures g0 == modulus && g1 == a && !IsIntegerUnit(a) && g0 % g1 == modulus && g0 / g1 == 0
    {
      Unquotient(modulus, modulus, 1, 0);
      if a == -modulus {
        Unquotient(a, modulus, -1, 0);
      }
      Unquotient(modulus, if a >= 0 then a else -a, 0, modulus);
      assert modulus == a * (modulus / a) + modulus % a;
      if a < 0 {
        MultipleOutgrows(modulus / a, -a);
        assert a * (modulus / a) == -((modulus / a) * (-a));
      }
    }

    /** What holds between division steps: the numbers are combinations of `a` and the
        modulus with their common divisors, and below the modulus they stay below it. */
    ghost predicate LoopState(a: int, g0: int, v0: int, w0: int, g1: int, v1: int, w1: int)
      requires modulus > 0
    {
      && SameDivisors(a, modulus, g0, g1)
      && Combines(g0, a, modulus, v0, w0) && Combines(g1, a, modulus, v1, w1)
      && if -modulus < a < modulus then -modulus < g1 < modulus else Swapping(a, g0, g1, v0)
    }

    lemma DivisionStep(a: int, g0: int, v0: int, w0: int, g1: int, v1: int, w1: int, y: int, r: int)
      requires modulus > 0 && LoopState(a, g0, v0, w0, g1, v1, w1) && g1 != 0 && !Equal(g1, 0)
      requires y == g0 / g1 && r == g0 % g1
      ensures LoopState(a, g1, v1, w1, r, v0 - v1 * y, w0 - w1 * y)
      ensures 0 <= r < if g1 < 0 then -g1 else g1
    {
      EuclideanDivision(g0, g1);
      DivisionKeepsDivisors(a, modulus, g0, g1, y, r);
      CombinationStep(a, modulus, g0, v0, w0, g1, v1, w1, y);
      if !(-modulus < a < modulus) {
        SwapStep(a, g0, g1, v0);
      }
    }

    lemma LoopEnd(a: int, g0: int, v0: int, w0: int, g1: int, v1: int, w1: int)
      requires modulus > 0 && LoopState(a, g0, v0, w0, g1, v1, w1) && Equal(g1, 0)
      ensures InverseIsRight(a, if IsIntegerUnit(g0) then v0 / g0 else 0)
         <==> (-modulus < a < modulus) || modulus == 1 || !Invertible(a, modulus)
      ensures !(-modulus < a < modulus) ==> (if IsIntegerUnit(g0) then v0 / g0 else 0) == 0
    {
      if -modulus < a < modulus {
        SmallEqualsZero(g1);
        GcdGivesInverse(a, g0, v0, w0);
      } else {
        ZeroAsInverse(a);
      }
    }

    /** One division, and the coefficient that goes with its remainder. */
    method DivisionAlgorithm(a: int, g0: int, v0: int, ghost w0: int, g1: int, v1: int, ghost w1: int)
      returns (r: int, v2: int, ghost w2: int)
      requires modulus > 0 && LoopState(a, g0, v0, w0, g1, v1, w1) && !Equal(g1, 0)
      ensures LoopState(a, g1, v1, w1, r, v2, w2)
      ensures Size(r) < Size(g1)
    {
      ZeroEqualsZero();
      var y := g0 / g1;
      r := g0 % g1;
      v2 := v0 - v1 * y;
      w2 := w0 - w1 * y;
      DivisionStep(a, g0, v0, w0, g1, v1, w1, y, r);
    }

    lemma ZeroEqualsZero()
      requires modulus > 0
      ensures Equal(0, 0)
    {
      Unquotient(0, modulus, 0, 0);
    }

    /** The extended Euclidean loop. Its stopping test compares modulo the modulus, which
        is the same as comparing with zero only below the modulus; so the result is right
        exactly for elements smaller than the modulus, non-units, and in the zero ring; it is
        zero for all elements that are not smaller. */
    method MultiplicativeInverse(a: int) returns (result: int)
      requires modulus > 0
      ensures InverseIsRight(a, result) <==> (-modulus < a < modulus) || modulus == 1 || !Invertible(a, modulus)
      ensures !(-modulus < a < modulus) ==> result == 0
    {
      var g := [modulus, a, 0];
      var v := [0, 1, 0];
      var i0, i1, i2 := 0, 1, 2;
      ghost var w0, w1 := 1, 0;
      forall e ensures SameDivisorAt(e, a, modulus, modulus, a) {}
      while !Equal(g[i1], 0)
        invariant |g| == |v| == 3 && Rotated(i0, i1, i2)
        invariant LoopState(a, g[i0], v[i0], w0, g[i1], v[i1], w1)
        decreases Size(g[i1])
      {
        var r, v2; ghost var w2;
        r, v2, w2 := DivisionAlgorithm(a, g[i0], v[i0], w0, g[i1], v[i1], w1);
        g, v := g[i2 := r], v[i2 := v2];
        w0, w1 := w1, w2;
        i0, i1, i2 := i1, i2, i0;
      }
      LoopEnd(a, g[i0], v[i0], w0, g[i1], v[i1], w1);
      result := if IsIntegerUnit(g[i0]) then v[i0] / g[i0] else 0;
    }
  }

  const MODULO_THREE: QuotientRing := QuotientRing(3)

  /** Modulo three, five has the inverse two, but the loop answers zero. */
  lemma FiveModuloThree()
    ensures Invertible(5, 3) && !MODULO_THREE.InverseIsRight(5, 0)
  {
    assert 5 * 2 - 1 == 3 * 3;
    assert Divides(3, 5 * 2 - 1);
    MODULO_THREE.ZeroAsInverse(5);
  }
}
