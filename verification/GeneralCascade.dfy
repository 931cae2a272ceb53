/** The multiplication of any number of base-exponent pairs: repeated division of the
    largest exponent by the next largest, which a heap keeps at hand. */
module GeneralCascade {
  import opened Bits
  import opened Groups
  import opened SimultaneousMultiplication
  import opened CascadeMultiplication

  datatype BaseAndExponent<T> = BaseAndExponent(base: T, exponent: nat)

  /** Changing the first and the last term changes the total by what it changes them. */
  lemma TotalEnds<A, T(!new)>(g: Group<T>, f: A -> T, s: seq<A>)
    requires IsCommutativeGroup(g) && |s| >= 2
    ensures Total(g, f, s) == g.add(Total(g, f, s[1..|s| - 1]), g.add(f(s[0]), f(s[|s| - 1])))
  {
    var n := |s| - 1;
    TotalRemove(g, f, s[..n], 0);
    assert s[..n][..0] + s[..n][1..] == s[1..n];
    assert AssociativeAt(g, Total(g, f, s[1..n]), f(s[0]), f(s[n]));
  }

  const Integers: Group<int> := Group(0, (a, b) => a + b, a => 0 - a, true)

  lemma IntegersCommute()
    ensures IsCommutativeGroup(Integers)
  {
    forall a, b, c ensures AssociativeAt(Integers, a, b, c) {}
    forall a ensures IdentityAt(Integers, a) && InverseAt(Integers, a) {}
    forall a, b ensures CommutativeAt(Integers, a, b) {}
  }

  ghost function Term<T(!new)>(g: Group<T>): BaseAndExponent<T> -> T {
    (p: BaseAndExponent<T>) => Times(g, p.base, p.exponent)
  }

  ghost function Exponent<T>(): BaseAndExponent<T> -> int {
    (p: BaseAndExponent<T>) => p.exponent
  }

  /** What the pairs are worth: the sum of exponent times base. */
  ghost function Combination<T(!new)>(g: Group<T>, pairs: seq<BaseAndExponent<T>>): T {
    Total(g, Term(g), pairs)
  }

  ghost function ExponentSum<T>(pairs: seq<BaseAndExponent<T>>): int {
    Total(Integers, Exponent<T>(), pairs)
  }

  ghost predicate BelowParent<T>(s: seq<BaseAndExponent<T>>, i: nat) {
    0 < i < |s| ==> s[(i - 1) / 2].exponent >= s[i].exponent
  }

  /** The order of a binary max-heap: no element exceeds its parent. */
  ghost predicate IsHeap<T>(s: seq<BaseAndExponent<T>>) {
    forall i: nat :: BelowParent(s, i)
  }

  /** A heap before the last element, which is a largest one. */
  ghost predicate LargestLast<T>(s: seq<BaseAndExponent<T>>) {
    && |s| > 0 && IsHeap(s[..|s| - 1])
    && forall i :: 0 <= i < |s| ==> s[i].exponent <= s[|s| - 1].exponent
  }

  lemma {:induction false} RootIsLargest<T>(s: seq<BaseAndExponent<T>>, i: nat)
    requires IsHeap(s) && i < |s|
    ensures s[0].exponent >= s[i].exponent
  {
    if i > 0 {
      assert BelowParent(s, i);
      RootIsLargest(s, (i - 1) / 2);
    }
  }

  function Insert<T>(p: BaseAndExponent<T>, s: seq<BaseAndExponent<T>>): seq<BaseAndExponent<T>> {
    if s == [] || p.exponent >= s[0].exponent then [p] + s else [s[0]] + Insert(p, s[1..])
  }

  function Descending<T>(s: seq<BaseAndExponent<T>>): seq<BaseAndExponent<T>> {
    if s == [] then [] else Insert(s[0], Descending(s[1..]))
  }

  ghost predicate IsDescending<T>(s: seq<BaseAndExponent<T>>) {
    forall i, j :: 0 <= i < j < |s| ==> s[i].exponent >= s[j].exponent
  }

  lemma {:induction false} InsertSpec<T>(p: BaseAndExponent<T>, s: seq<BaseAndExponent<T>>)
    requires IsDescending(s)
    ensures IsDescending(Insert(p, s)) && multiset(Insert(p, s)) == multiset{p} + multiset(s)
  {
    if s != [] && p.exponent < s[0].exponent {
      InsertSpec(p, s[1..]);
      var r := Insert(p, s[1..]);
      assert s == [s[0]] + s[1..];
      forall j | 0 <= j < |r| ensures s[0].exponent >= r[j].exponent {
        InsertedIn(p, s[1..], r, j);
      }
    }
  }

  lemma InsertedIn<T>(p: BaseAndExponent<T>, s: seq<BaseAndExponent<T>>, r: seq<BaseAndExponent<T>>, j: nat)
    requires j < |r| && multiset(r) == multiset{p} + multiset(s)
    ensures r[j] == p || r[j] in s
  {
    assert r[j] in multiset(r);
  }

  lemma {:induction false} DescendingSpec<T>(s: seq<BaseAndExponent<T>>)
    ensures IsDescending(Descending(s)) && multiset(Descending(s)) == multiset(s)
  {
    if s != [] {
      DescendingSpec(s[1..]);
      InsertSpec(s[0], Descending(s[1..]));
      assert s == [s[0]] + s[1..];
    }
  }

  // The heap calls of the C++ standard library, by what the standard says of them. Callers
  // see only these contracts; each body picks one of the results they allow.

  /** `std::make_heap`: rearranges the whole range into a heap. */
  method MakeHeap<T>(a: array<BaseAndExponent<T>>)
    modifies a
    ensures IsHeap(a[..]) && multiset(a[..]) == old(multiset(a[..]))
  {
    ghost var was := a[..];
    var d := Descending(a[..]);
    DescendingSpec(a[..]);
    assert |d| == |multiset(d)| == |multiset(was)| == a.Length;
    forall i | 0 <= i < a.Length {
      a[i] := d[i];
    }
    assert a[..] == d;
  }

  /** `std::push_heap`: the range but its last element is a heap; afterwards all of it is. */
  method PushHeap<T>(a: array<BaseAndExponent<T>>)
    requires a.Length > 0 && IsHeap(a[..a.Length - 1])
    modifies a
    ensures IsHeap(a[..]) && multiset(a[..]) == old(multiset(a[..]))
  {
    MakeHeap(a);
  }

  lemma PoppedHeap<T>(s: seq<BaseAndExponent<T>>)
    requires |s| > 0 && IsHeap(s)
    ensures var d := Descending(s[1..]) + [s[0]];
            |d| == |s| && LargestLast(d) && multiset(d) == multiset(s)
  {
    var rest := Descending(s[1..]);
    DescendingSpec(s[1..]);
    assert s == [s[0]] + s[1..];
    assert |rest| == |multiset(rest)| == |multiset(s[1..])| == |s[1..]|;
    assert (rest + [s[0]])[..|rest|] == rest;
    forall i | 0 <= i < |rest| ensures rest[i].exponent <= s[0].exponent {
      assert rest[i] in multiset(s[1..]);
      var j :| 0 <= j < |s[1..]| && s[1..][j] == rest[i];
      RootIsLargest(s, j + 1);
    }
  }

  /** `std::pop_heap`: moves a largest element to the end and leaves a heap before it. */
  method PopHeap<T>(a: array<BaseAndExponent<T>>)
    requires a.Length > 0 && IsHeap(a[..])
    modifies a
    ensures LargestLast(a[..]) && multiset(a[..]) == old(multiset(a[..]))
  {
    var d := Descending(a[1..]) + [a[0]];
    assert a[1..] == a[..][1..];
    PoppedHeap(a[..]);
    forall i | 0 <= i < a.Length {
      a[i] := d[i];
    }
    assert a[..] == d;
  }

  /** b(x + qy) + ry == bx + (qb + r)y */
  lemma DivisionConserves<T(!new)>(g: Group<T>, x: T, y: T, b: nat, q: nat, r: nat)
    requires IsCommutativeGroup(g)
    ensures b * q + r >= 0
    ensures Pair(g, g.add(x, Times(g, y, q)), y, b, r) == Pair(g, x, y, b, b * q + r)
  {
    var z := Times(g, y, q);
    TimesDistributes(g, x, z, b);
    TimesTimes(g, y, q, b);
    TimesSum(g, y, b * q, r);
    assert AssociativeAt(g, Times(g, x, b), Times(g, z, b), Times(g, y, r));
  }

  lemma EndsChanged<T(!new)>(g: Group<T>, s: seq<BaseAndExponent<T>>, s': seq<BaseAndExponent<T>>)
    requires IsCommutativeGroup(g) && |s| == |s'| >= 2 && s[1..|s| - 1] == s'[1..|s| - 1]
    requires Pair(g, s'[0].base, s'[|s| - 1].base, s'[0].exponent, s'[|s| - 1].exponent)
          == Pair(g, s[0].base, s[|s| - 1].base, s[0].exponent, s[|s| - 1].exponent)
    ensures Combination(g, s') == Combination(g, s)
    ensures ExponentSum(s') - ExponentSum(s)
         == s'[0].exponent + s'[|s| - 1].exponent - s[0].exponent - s[|s| - 1].exponent
  {
    IntegersCommute();
    TotalEnds(g, Term(g), s);
    TotalEnds(g, Term(g), s');
    TotalEnds(Integers, Exponent<T>(), s);
    TotalEnds(Integers, Exponent<T>(), s');
  }

  /** One division: the largest pair gives all it can of its exponent to the next largest. */
  method DivideLargest<T(!new)>(g: Group<T>, a: array<BaseAndExponent<T>>)
    requires IsCommutativeGroup(g) && a.Length >= 2
    requires 0 < a[0].exponent <= a[a.Length - 1].exponent
    modifies a
    ensures Combination(g, a[..]) == old(Combination(g, a[..]))
    ensures ExponentSum(a[..]) < old(ExponentSum(a[..]))
    ensures a[0].exponent == old(a[0].exponent)
    ensures forall i :: 0 < i < a.Length - 1 ==> a[i] == old(a[i])
  {
    var n := a.Length - 1;
    ghost var was := a[..];
    var t, b := a[n].exponent, a[0].exponent;
    var q, r := t / b, t % b;
    a[n] := a[n].(exponent := r);
    if q == 1 {
      a[0] := a[0].(base := g.add(a[0].base, a[n].base));
    } else {
      var multiple := ScalarMultiply(g, a[n].base, q);
      a[0] := a[0].(base := g.add(a[0].base, multiple));
    }
    TimesOne(g, a[n].base);
    assert t == b * q + r;
    DivisionConserves(g, was[0].base, was[n].base, b, q, r);
    EndsChanged(g, was, a[..]);
  }

  lemma {:induction false} OnlyLastLeft<T(!new)>(g: Group<T>, s: seq<BaseAndExponent<T>>)
    requires IsCommutativeGroup(g) && forall i :: 0 <= i < |s| ==> s[i].exponent == 0
    ensures Combination(g, s) == g.identity
  {
    if s != [] {
      OnlyLastLeft(g, s[..|s| - 1]);
      assert IdentityAt(g, g.identity);
    }
  }

  lemma {:induction false} ExponentSumNatural<T>(s: seq<BaseAndExponent<T>>)
    ensures ExponentSum(s) >= 0
  {
    if s != [] {
      ExponentSumNatural(s[..|s| - 1]);
    }
  }

  lemma ZeroRoot<T(!new)>(g: Group<T>, s: seq<BaseAndExponent<T>>)
    requires IsCommutativeGroup(g) && |s| > 1 && LargestLast(s) && s[0].exponent == 0
    ensures Combination(g, s) == Times(g, s[|s| - 1].base, s[|s| - 1].exponent)
  {
    var rest := s[..|s| - 1];
    forall i | 0 <= i < |rest| ensures rest[i].exponent == 0 { RootIsLargest(rest, i); }
    OnlyLastLeft(g, rest);
    assert IdentityAt(g, Term(g)(s[|s| - 1]));
  }

  lemma SameElements<T(!new)>(g: Group<T>, s: seq<BaseAndExponent<T>>, t: seq<BaseAndExponent<T>>)
    requires IsCommutativeGroup(g) && multiset(s) == multiset(t)
    ensures Combination(g, s) == Combination(g, t) && ExponentSum(s) == ExponentSum(t)
  {
    IntegersCommute();
    TotalPermuted(g, Term(g), s, t);
    TotalPermuted(Integers, Exponent<T>(), s, t);
  }

  lemma HeapKept<T>(s: seq<BaseAndExponent<T>>, t: seq<BaseAndExponent<T>>)
    requires IsHeap(s) && |s| == |t| && forall i :: 0 <= i < |s| ==> s[i].exponent == t[i].exponent
    ensures IsHeap(t)
  {
    forall i: nat ensures BelowParent(t, i) { assert BelowParent(s, i); }
  }

  /** One division, and the heap put right again. */
  method DivideAndRestore<T(!new)>(g: Group<T>, a: array<BaseAndExponent<T>>)
    requires IsCommutativeGroup(g) && a.Length >= 2
    requires LargestLast(a[..]) && a[0].exponent != 0
    modifies a
    ensures LargestLast(a[..])
    ensures Combination(g, a[..]) == old(Combination(g, a[..]))
    ensures 0 <= ExponentSum(a[..]) < old(ExponentSum(a[..]))
  {
    var last := a.Length - 1;
    ghost var was := a[..];
    DivideLargest(g, a);
    ghost var divided := a[..];
    HeapKept(was[..last], divided[..last]);
    assert a[..last] == a[..][..last];
    PushHeap(a);
    PopHeap(a);
    SameElements(g, divided, a[..]);
    ExponentSumNatural(a[..]);
  }

  /** Multiplies three or more pairs together, using up their exponents. */
  method DivideOut<T(!new)>(g: Group<T>, a: array<BaseAndExponent<T>>) returns (result: T)
    requires IsCommutativeGroup(g) && a.Length >= 3
    modifies a
    ensures result == old(Combination(g, a[..]))
  {
    var last := a.Length - 1;
    ghost var was := a[..];
    MakeHeap(a);
    PopHeap(a);
    SameElements(g, was, a[..]);
    ExponentSumNatural(a[..]);
    while a[0].exponent != 0
      invariant LargestLast(a[..])
      invariant Combination(g, a[..]) == Combination(g, was)
      invariant ExponentSum(a[..]) >= 0
      decreases ExponentSum(a[..])
    {
      DivideAndRestore(g, a);
    }
    ZeroRoot(g, a[..]);
    result := ScalarMultiply(g, a[last].base, a[last].exponent);
  }

  lemma SmallCombination<T(!new)>(g: Group<T>, p: BaseAndExponent<T>, q: BaseAndExponent<T>)
    requires IsCommutativeGroup(g)
    ensures Combination(g, [p]) == Times(g, p.base, p.exponent)
    ensures Combination(g, [p, q]) == Pair(g, p.base, q.base, p.exponent, q.exponent)
  {
    assert [p][..0] == [] && [p, q][..1] == [p];
    assert Total(g, Term(g), [p]) == g.add(g.identity, Term(g)(p));
    assert IdentityAt(g, Term(g)(p));
  }

  /** The sum of exponent times base over all pairs of a non-empty range. */
  method GeneralCascadeMultiplication<T(!new)>(g: Group<T>, a: array<BaseAndExponent<T>>, blank: T) returns (result: T)
    requires IsCommutativeGroup(g) && a.Length > 0
    modifies a
    ensures result == old(Combination(g, a[..]))
  {
    if a.Length == 1 {
      assert a[..] == [a[0]];
      SmallCombination(g, a[0], a[0]);
      result := ScalarMultiply(g, a[0].base, a[0].exponent);
    } else if a.Length == 2 {
      assert a[..] == [a[0], a[1]];
      SmallCombination(g, a[0], a[1]);
      result := CascadeScalarMultiply(g, a[0].base, a[0].exponent, a[1].base, a[1].exponent, blank);
    } else {
      result := DivideOut(g, a);
    }
  }
}
