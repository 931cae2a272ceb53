/** Abstract groups given by their operations, and multiples of an element.

    Each axiom is quantified over a predicate about its own instances, so that a proof
    names the instances it uses. Elements are values: equality is `==`. */
module Groups {

  datatype Group<!T(!new)> = Group(
    identity: T,
    add: (T, T) -> T,
    inverse: T -> T,
    inversionIsFast: bool)
  {
    function Double(a: T): T {
      add(a, a)
    }
  }

  ghost predicate AssociativeAt<T(!new)>(g: Group<T>, a: T, b: T, c: T) {
    g.add(g.add(a, b), c) == g.add(a, g.add(b, c))
  }

  ghost predicate IdentityAt<T(!new)>(g: Group<T>, a: T) {
    g.add(a, g.identity) == a && g.add(g.identity, a) == a
  }

  ghost predicate InverseAt<T(!new)>(g: Group<T>, a: T) {
    g.add(a, g.inverse(a)) == g.identity && g.add(g.inverse(a), a) == g.identity
  }

  ghost predicate CommutativeAt<T(!new)>(g: Group<T>, a: T, b: T) {
    g.add(a, b) == g.add(b, a)
  }

  ghost predicate IsGroup<T(!new)>(g: Group<T>) {
    && (forall a, b, c :: AssociativeAt(g, a, b, c))
    && (forall a :: IdentityAt(g, a))
    && (forall a :: InverseAt(g, a))
  }

  /** What sums in any order need: no inverses. */
  ghost predicate IsCommutativeMonoid<T(!new)>(g: Group<T>) {
    && (forall a, b, c :: AssociativeAt(g, a, b, c))
    && (forall a :: IdentityAt(g, a))
    && (forall a, b :: CommutativeAt(g, a, b))
  }

  ghost predicate IsCommutativeGroup<T(!new)>(g: Group<T>) {
    IsGroup(g) && IsCommutativeMonoid(g)
  }

  /** `x` added to itself `n` times: scalar multiplication as it is defined. */
  ghost function TimesNat<T(!new)>(g: Group<T>, x: T, n: nat): T {
    if n == 0 then g.identity else g.add(TimesNat(g, x, n - 1), x)
  }

  ghost function Times<T(!new)>(g: Group<T>, x: T, n: int): T {
    if n >= 0 then TimesNat(g, x, n) else g.inverse(TimesNat(g, x, -n))
  }

  lemma {:induction false} TimesNatSum<T(!new)>(g: Group<T>, x: T, m: nat, n: nat)
    requires IsGroup(g)
    ensures g.add(TimesNat(g, x, m), TimesNat(g, x, n)) == TimesNat(g, x, m + n)
  {
    if n == 0 {
      assert IdentityAt(g, TimesNat(g, x, m));
    } else {
      TimesNatSum(g, x, m, n - 1);
      assert AssociativeAt(g, TimesNat(g, x, m), TimesNat(g, x, n - 1), x);
    }
  }

  lemma CancelLeft<T(!new)>(g: Group<T>, a: T, b: T, c: T)
    requires IsGroup(g) && g.add(a, b) == g.add(a, c)
    ensures b == c
  {
    assert AssociativeAt(g, g.inverse(a), a, b) && AssociativeAt(g, g.inverse(a), a, c);
    assert InverseAt(g, a) && IdentityAt(g, b) && IdentityAt(g, c);
  }

  lemma CancelRight<T(!new)>(g: Group<T>, a: T, b: T, c: T)
    requires IsGroup(g) && g.add(a, c) == g.add(b, c)
    ensures a == b
  {
    assert AssociativeAt(g, a, c, g.inverse(c)) && AssociativeAt(g, b, c, g.inverse(c));
    assert InverseAt(g, c) && IdentityAt(g, a) && IdentityAt(g, b);
  }

  lemma InverseUnique<T(!new)>(g: Group<T>, a: T, b: T)
    requires IsGroup(g) && g.add(a, b) == g.identity
    ensures b == g.inverse(a) && a == g.inverse(b)
  {
    assert InverseAt(g, a) && InverseAt(g, b);
    CancelLeft(g, a, b, g.inverse(a));
    CancelRight(g, a, g.inverse(b), b);
  }

  lemma TimesInverse<T(!new)>(g: Group<T>, x: T, n: int)
    requires IsGroup(g)
    ensures g.inverse(Times(g, x, n)) == Times(g, x, -n)
  {
    if n == 0 {
      assert IdentityAt(g, g.identity);
      InverseUnique(g, g.identity, g.identity);
    } else if n < 0 {
      assert InverseAt(g, TimesNat(g, x, -n));
      InverseUnique(g, TimesNat(g, x, -n), g.inverse(TimesNat(g, x, -n)));
    }
  }

  /** Multiples of one element add like their coefficients, in any group. */
  lemma TimesSum<T(!new)>(g: Group<T>, x: T, m: int, n: int)
    requires IsGroup(g)
    ensures g.add(Times(g, x, m), Times(g, x, n)) == Times(g, x, m + n)
  {
    var X := n => Times(g, x, n);
    if m >= 0 && n >= 0 {
      TimesNatSum(g, x, m, n);
    } else if n < 0 && m + n >= 0 {
      // (m + n) + (-n) == m, then add the inverse of -n on the right
      TimesNatSum(g, x, m + n, -n);
      assert AssociativeAt(g, X(m + n), X(-n), X(n));
      assert InverseAt(g, X(-n)) && IdentityAt(g, X(m + n));
    } else if m < 0 && m + n >= 0 {
      TimesNatSum(g, x, -m, m + n);
      assert AssociativeAt(g, X(m), X(-m), X(m + n));
      assert InverseAt(g, X(-m)) && IdentityAt(g, X(m + n));
    } else {
      // the sum is negative: add the inverses of both sides
      TimesSumNegative(g, x, m, n);
    }
  }

  lemma TimesSumNegative<T(!new)>(g: Group<T>, x: T, m: int, n: int)
    requires IsGroup(g)
    requires m + n < 0
    ensures g.add(Times(g, x, m), Times(g, x, n)) == Times(g, x, m + n)
  {
    var a, b, c := Times(g, x, m), Times(g, x, n), Times(g, x, -(m + n));
    // b + c == -a, hence a + (b + c) is the identity
    assert g.add(b, c) == Times(g, x, -m) by {
      if n >= 0 {
        TimesNatSum(g, x, n, -(m + n));
      } else if -m >= 0 {
        TimesNatSum(g, x, -n, -m);
        assert AssociativeAt(g, b, Times(g, x, -n), Times(g, x, -m));
        assert InverseAt(g, TimesNat(g, x, -n)) && IdentityAt(g, Times(g, x, -m));
      } else {
        TimesNatSum(g, x, -(m + n), m);
        TimesNatSum(g, x, m, -(m + n));
        // -n == -(m + n) + m
        var p, q := TimesNat(g, x, m), TimesNat(g, x, -(m + n));
        assert g.add(q, p) == TimesNat(g, x, -n);
        assert AssociativeAt(g, b, q, p) && InverseAt(g, TimesNat(g, x, -n));
        InverseUnique(g, g.add(b, q), p);
      }
    }
    assert AssociativeAt(g, a, b, c);
    TimesInverse(g, x, m);
    assert InverseAt(g, a);
    InverseUnique(g, g.add(a, b), c);
    TimesInverse(g, x, -(m + n));
  }

  lemma TimesOne<T(!new)>(g: Group<T>, x: T)
    requires IsGroup(g)
    ensures Times(g, x, 1) == x
  {
    assert TimesNat(g, x, 1) == g.add(TimesNat(g, x, 0), x);
    assert IdentityAt(g, x);
  }

  /** The total of `f` over a sequence, in a group. */
  ghost function Total<A, T(!new)>(g: Group<T>, f: A -> T, s: seq<A>): T {
    if s == [] then g.identity else g.add(Total(g, f, s[..|s| - 1]), f(s[|s| - 1]))
  }

  lemma {:induction false} TotalRemove<A, T(!new)>(g: Group<T>, f: A -> T, s: seq<A>, i: nat)
    requires IsCommutativeMonoid(g) && i < |s|
    ensures Total(g, f, s) == g.add(Total(g, f, s[..i] + s[i + 1..]), f(s[i]))
  {
    var n := |s| - 1;
    var rest := s[..i] + s[i + 1..];
    if i == n {
      assert rest == s[..n];
    } else {
      TotalRemove(g, f, s[..n], i);
      assert rest[..n - 1] == s[..n][..i] + s[..n][i + 1..] && rest[n - 1] == s[n];
      var a := Total(g, f, rest[..n - 1]);
      assert AssociativeAt(g, a, f(s[i]), f(s[n])) && AssociativeAt(g, a, f(s[n]), f(s[i]));
      assert CommutativeAt(g, f(s[i]), f(s[n]));
    }
  }

  lemma RemoveOne<A>(s: seq<A>, i: nat)
    requires i < |s|
    ensures multiset(s) == multiset(s[..i] + s[i + 1..]) + multiset{s[i]}
  {
    assert s == s[..i] + [s[i]] + s[i + 1..];
    assert multiset(s) == multiset(s[..i]) + multiset{s[i]} + multiset(s[i + 1..]);
  }

  /** The order of the terms does not matter. */
  lemma {:induction false} TotalPermuted<A, T(!new)>(g: Group<T>, f: A -> T, s: seq<A>, t: seq<A>)
    requires IsCommutativeMonoid(g) && multiset(s) == multiset(t)
    ensures Total(g, f, s) == Total(g, f, t)
    decreases |s|
  {
    assert |s| == |multiset(s)| == |multiset(t)| == |t|;
    if s != [] {
      var n := |s| - 1;
      RemoveOne(s, n);
      assert s[..n] + s[n + 1..] == s[..n];
      assert s[n] in multiset(t);
      var i :| 0 <= i < |t| && t[i] == s[n];
      RemoveOne(t, i);
      var rest := t[..i] + t[i + 1..];
      assert multiset(s[..n]) == multiset(s) - multiset{s[n]} == multiset(rest);
      TotalPermuted(g, f, s[..n], rest);
      TotalRemove(g, f, t, i);
    }
  }
}
