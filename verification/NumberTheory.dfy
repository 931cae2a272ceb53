/** Congruences, prime numbers, and the theorems of Fermat and Euler for a product of two
    primes. */
module NumberTheory {
  import opened Bits
  import opened Groups
  import opened QuotientRings

  ghost predicate Congruent(x: int, y: int, m: int) {
    Divides(m, x - y)
  }

  lemma CongruentProduct(x: int, y: int, u: int, v: int, m: int)
    requires Congruent(x, y, m) && Congruent(u, v, m)
    ensures Congruent(x * u, y * v, m)
  {
    var j :| x - y == m * j;
    var k :| u - v == m * k;
    assert x * u - y * v == (x - y) * u + y * (u - v);
    assert (m * j) * u + y * (m * k) == m * (j * u + y * k);
  }

  lemma CongruentTransitive(x: int, y: int, z: int, m: int)
    requires Congruent(x, y, m) && Congruent(y, z, m)
    ensures Congruent(x, z, m)
  {
    DividesSum(m, x - y, y - z, 1);
  }

  lemma CongruentSymmetric(x: int, y: int, m: int)
    requires Congruent(x, y, m)
    ensures Congruent(y, x, m)
  {
    var k :| x - y == m * k;
    assert y - x == m * -k;
  }

  lemma RemainderCongruent(x: int, m: int)
    requires m > 0
    ensures Congruent(x % m, x, m) && Congruent(x, x % m, m)
  {
    assert x % m - x == m * -(x / m);
    CongruentSymmetric(x % m, x, m);
  }

  /** Congruent numbers have the same remainder. */
  lemma SameRemainder(x: int, y: int, m: int)
    requires m > 0 && Congruent(x, y, m)
    ensures x % m == y % m
  {
    var k :| x - y == m * k;
    EuclideanDivision(y, m);
    assert (y / m + k) * m == y / m * m + m * k;
    Unquotient(x, m, y / m + k, y % m);
  }

  lemma SmallCongruent(x: int, y: int, m: int)
    requires 0 <= x < m && 0 <= y < m && Congruent(x, y, m)
    ensures x == y
  {
    SameRemainder(x, y, m);
    Unquotient(x, m, 0, x);
    Unquotient(y, m, 0, y);
  }

  function Pow(x: int, n: nat): int {
    if n == 0 then 1 else x * Pow(x, n - 1)
  }

  lemma {:induction false} PowSum(x: int, m: nat, n: nat)
    ensures Pow(x, m + n) == Pow(x, m) * Pow(x, n)
  {
    if m > 0 {
      PowSum(x, m - 1, n);
      assert x * (Pow(x, m - 1) * Pow(x, n)) == x * Pow(x, m - 1) * Pow(x, n);
    }
  }

  lemma {:induction false} PowPow(x: int, m: nat, n: nat)
    ensures m * n >= 0 && Pow(x, m * n) == Pow(Pow(x, m), n)
  {
    if n == 0 {
      assert m * n == 0;
    } else {
      PowPow(x, m, n - 1);
      assert m * n == m + m * (n - 1);
      PowSum(x, m, m * (n - 1));
    }
  }

  lemma {:induction false} CongruentPow(x: int, y: int, n: nat, m: int)
    requires Congruent(x, y, m)
    ensures Congruent(Pow(x, n), Pow(y, n), m)
  {
    if n == 0 {
      assert 0 == m * 0;
    } else {
      CongruentPow(x, y, n - 1, m);
      CongruentProduct(x, y, Pow(x, n - 1), Pow(y, n - 1), m);
    }
  }

  lemma {:induction false} PowOfOne(n: nat)
    ensures Pow(1, n) == 1
  {
    if n > 0 {
      PowOfOne(n - 1);
    }
  }

  ghost predicate Prime(p: int) {
    p > 1 && forall d :: d > 0 && Divides(d, p) ==> d == 1 || d == p
  }

  /** A greatest common divisor and its combination, for any two numbers. */
  lemma Bezout(a: int, b: int) returns (g: int, v: int, w: int)
    ensures g >= 0 && IsGcd(g, a, b) && Combines(g, a, b, v, w)
    decreases if b < 0 then -b else b
  {
    if b == 0 {
      g, v, w := if a < 0 then -a else a, if a < 0 then -1 else 1, 0;
      forall e ensures SameDivisorAt(e, a, b, g, 0) { DividesNegated(e, a); DividesNegated(e, -a); }
    } else {
      var v', w';
      g, v', w' := Bezout(b, a % b);
      v, w := w', v' - w' * (a / b);
      EuclideanDivision(a, b);
      CombinesUp(g, a, b, v', w', a / b, a % b);
      GcdUp(g, a, b);
    }
  }

  /** A combination of the divisor and the remainder is one of both numbers. */
  lemma CombinesUp(g: int, a: int, b: int, v: int, w: int, q: int, r: int)
    requires a == q * b + r && Combines(g, b, r, v, w)
    ensures Combines(g, a, b, w, v - w * q)
  {
    assert w * (a - q * b) == w * a - w * q * b;
    assert (v - w * q) * b == v * b - w * q * b;
  }

  lemma GcdUp(g: int, a: int, b: int)
    requires b != 0 && IsGcd(g, b, a % b)
    ensures IsGcd(g, a, b)
  {
    EuclideanDivision(a, b);
    forall e ensures SameDivisorAt(e, a, b, a, b) {}
    DivisionKeepsDivisors(a, b, a, b, a / b, a % b);
    forall e ensures SameDivisorAt(e, a, b, g, 0) {
      assert SameDivisorAt(e, a, b, b, a % b) && SameDivisorAt(e, b, a % b, g, 0);
    }
  }

  lemma DividesNegated(d: int, x: int)
    ensures Divides(d, x) <==> Divides(d, -x)
  {
    if Divides(d, x) {
      var k :| x == d * k;
      assert -x == d * -k;
    }
    if Divides(d, -x) {
      var k :| -x == d * k;
      assert x == d * -k;
    }
  }

  /** Euclid's lemma. */
  lemma PrimeDividesFactor(p: int, a: int, b: int)
    requires Prime(p) && Divides(p, a * b)
    ensures Divides(p, a) || Divides(p, b)
  {
    var g, v, w := Bezout(a, p);
    GcdMeaning(g, a, p);
    if g == 0 {
      var k :| p == g * k;
    }
    if g == 1 {
      // b == b * (v a + w p)
      var k :| a * b == p * k;
      assert b == b * (v * a + w * p);
      assert b * (v * a + w * p) == v * (a * b) + b * w * p;
      assert b == p * (v * k + b * w) by {
        assert v * (p * k) + b * w * p == p * (v * k + b * w);
      }
    } else {
      assert g == p;
    }
  }

  const Multiplication: Group<int> := Group(1, (a, b) => a * b, a => a, false)

  lemma MultiplicationCommutes()
    ensures IsCommutativeMonoid(Multiplication)
  {
    forall a, b, c ensures AssociativeAt(Multiplication, a, b, c) {}
    forall a ensures IdentityAt(Multiplication, a) {}
    forall a, b ensures CommutativeAt(Multiplication, a, b) {}
  }

  ghost function Product(s: seq<int>): int {
    Total(Multiplication, x => x, s)
  }

  /** 1, 2, ..., n */
  ghost function UpTo(n: nat): seq<int> {
    if n == 0 then [] else UpTo(n - 1) + [n]
  }

  /** a, 2a, ..., na, reduced modulo p. */
  ghost function MultiplesUpTo(a: int, p: int, n: nat): seq<int>
    requires p > 0
  {
    if n == 0 then [] else MultiplesUpTo(a, p, n - 1) + [a * n % p]
  }

  lemma {:induction false} MultiplesAt(a: int, p: int, n: nat, i: nat)
    requires p > 0 && i < n
    ensures |MultiplesUpTo(a, p, n)| == n && MultiplesUpTo(a, p, n)[i] == a * (i + 1) % p
    decreases n
  {
    if n > 1 {
      MultiplesAt(a, p, n - 1, if i < n - 1 then i else 0);
    }
  }

  ghost predicate DistinctBelow(s: seq<int>, n: nat) {
    && (forall i :: 0 <= i < |s| ==> 1 <= s[i] <= n)
    && forall i, j :: 0 <= i < j < |s| ==> s[i] != s[j]
  }

  lemma WithoutLargest(s: seq<int>, n: nat, i: nat)
    requires n > 0 && DistinctBelow(s, n) && i < |s| && s[i] == n
    ensures DistinctBelow(s[..i] + s[i + 1..], n - 1)
  {
  }

  lemma NothingBelowOne(s: seq<int>)
    ensures DistinctBelow(s, 0) <==> s == []
  {
    if s != [] && s[0] >= 1 {
      assert s[0] > 0;
    }
  }

  lemma {:induction false} Pigeonhole(s: seq<int>, n: nat)
    requires DistinctBelow(s, n)
    ensures |s| <= n
    decreases n
  {
    if n > 0 {
      if i :| 0 <= i < |s| && s[i] == n {
        WithoutLargest(s, n, i);
        Pigeonhole(s[..i] + s[i + 1..], n - 1);
      } else {
        Pigeonhole(s, n - 1);
      }
    } else {
      NothingBelowOne(s);
    }
  }

  /** n distinct numbers between 1 and n are those numbers in some order. */
  lemma {:induction false} DistinctIsPermutation(s: seq<int>, n: nat)
    requires DistinctBelow(s, n) && |s| == n
    ensures multiset(s) == multiset(UpTo(n))
    decreases n
  {
    if n > 0 {
      if i :| 0 <= i < |s| && s[i] == n {
        WithoutLargest(s, n, i);
        DistinctIsPermutation(s[..i] + s[i + 1..], n - 1);
        RemoveOne(s, i);
      } else {
        Pigeonhole(s, n - 1);
      }
    }
  }

  /** Multiplying by a number coprime to `p` permutes the non-zero remainders. */
  lemma MultiplesPermute(a: int, p: int)
    requires Prime(p) && !Divides(p, a)
    ensures multiset(MultiplesUpTo(a, p, p - 1)) == multiset(UpTo(p - 1))
  {
    var s := MultiplesUpTo(a, p, p - 1);
    MultiplesAt(a, p, p - 1, 0);
    forall i | 0 <= i < |s| ensures 1 <= s[i] <= p - 1 {
      MultiplesAt(a, p, p - 1, i);
      MultipleDistinct(a, p, i + 1, 0);
      MultipleZero(a, p);
      EuclideanDivision(a * (i + 1), p);
    }
    forall i, j | 0 <= i < j < |s| ensures s[i] != s[j] {
      MultiplesAt(a, p, p - 1, i);
      MultiplesAt(a, p, p - 1, j);
      MultipleDistinct(a, p, j + 1, i + 1);
    }
    DistinctIsPermutation(s, p - 1);
  }

  lemma MultipleZero(a: int, p: int)
    requires p > 0
    ensures a * 0 % p == 0
  {
    Unquotient(0, p, 0, 0);
  }

  lemma MultipleDistinct(a: int, p: int, j: int, i: int)
    requires Prime(p) && !Divides(p, a) && 0 <= i < j < p
    ensures a * j % p != a * i % p
  {
    if a * j % p == a * i % p {
      RemainderCongruent(a * j, p);
      RemainderCongruent(a * i, p);
      CongruentTransitive(a * j, a * j % p, a * i, p);
      assert a * j - a * i == a * (j - i);
      PrimeDividesFactor(p, a, j - i);
      assert 0 - 0 == p * 0;
      assert Congruent(j - i, 0, p);
      SmallCongruent(j - i, 0, p);
    }
  }

  lemma {:induction false} ProductOfMultiples(a: int, p: int, n: nat)
    requires p > 0
    ensures Congruent(Product(MultiplesUpTo(a, p, n)), Pow(a, n) * Product(UpTo(n)), p)
  {
    if n == 0 {
      assert 0 == p * 0;
    } else {
      ProductOfMultiples(a, p, n - 1);
      RemainderCongruent(a * n, p);
      var x, y := Product(MultiplesUpTo(a, p, n - 1)), Product(UpTo(n - 1));
      CongruentProduct(x, Pow(a, n - 1) * y, a * n % p, a * n, p);
      assert Pow(a, n - 1) * y * (a * n) == Pow(a, n) * (y * n);
      assert MultiplesUpTo(a, p, n)[..|MultiplesUpTo(a, p, n)| - 1] == MultiplesUpTo(a, p, n - 1);
      assert UpTo(n)[..|UpTo(n)| - 1] == UpTo(n - 1);
    }
  }

  lemma {:induction false} FactorialCoprime(p: int, n: nat)
    requires Prime(p) && n < p
    ensures !Divides(p, Product(UpTo(n)))
  {
    if n == 0 {
      if Divides(p, 1) {
        DividesOne(p);
      }
    } else {
      FactorialCoprime(p, n - 1);
      assert UpTo(n)[..|UpTo(n)| - 1] == UpTo(n - 1);
      if Divides(p, Product(UpTo(n - 1)) * n) {
        PrimeDividesFactor(p, Product(UpTo(n - 1)), n);
        assert Congruent(n, 0, p);
        SmallCongruent(n, 0, p);
      }
    }
  }

  /** Fermat: a^(p-1) is 1 modulo a prime p that does not divide a. */
  lemma Fermat(a: int, p: int)
    requires Prime(p) && !Divides(p, a)
    ensures Congruent(Pow(a, p - 1), 1, p)
  {
    var f := Product(UpTo(p - 1));
    ProductOfMultiples(a, p, p - 1);
    MultiplesPermute(a, p);
    MultiplicationCommutes();
    TotalPermuted(Multiplication, x => x, MultiplesUpTo(a, p, p - 1), UpTo(p - 1));
    CongruentSymmetric(f, Pow(a, p - 1) * f, p);
    assert Pow(a, p - 1) * f - f == (Pow(a, p - 1) - 1) * f;
    FactorialCoprime(p, p - 1);
    PrimeDividesFactor(p, Pow(a, p - 1) - 1, f);
  }
}
