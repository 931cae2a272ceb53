/** The Adler-32 checksum with deferred reductions. */
module Adler32Checksums {
  import opened Bits
  import opened OctetStrings

  const BASE: nat := 65521
  const LONG_LIMIT: nat := 0x1_0000_0000   // unsigned long may have 32 bits

  // ---- Section 2.2 of RFC 1950 ---------------------------------------------------------------

  /** The sum of all octets, from `a` on. */
  function Sum1(a: nat, s: Octets): nat {
    if s == [] then a else Sum1(a, s[..|s| - 1]) + s[|s| - 1]
  }

  /** The sum of all values of the first sum, from `b` on. */
  function Sum2(a: nat, b: nat, s: Octets): nat {
    if s == [] then b else Sum2(a, b, s[..|s| - 1]) + Sum1(a, s)
  }

  function Checksum(s: Octets): Octets {
    var s1, s2 := Sum1(1, s) % BASE, Sum2(1, 0, s) % BASE;
    [s2 / 256, s2 % 256, s1 / 256, s1 % 256]
  }

  /** For three octets, in numbers. */
  lemma ShortChecksum(a: Octet, b: Octet, c: Octet)
    ensures var s1, s2 := 1 + a + b + c, 3 + 3 * a + 2 * b + c;
            Checksum([a, b, c]) == [s2 / 256, s2 % 256, s1 / 256, s1 % 256]
  {
    hide Sum1, Sum2;
    var one, two, three: Octets := [a], [a, b], [a, b, c];
    assert one[..0] == [] && two[..1] == one && three[..2] == two;
    NoSums();
    OneMore([], a, one);
    OneMore(one, b, two);
    OneMore(two, c, three);
    InBase(1 + a + b + c);
    InBase(3 + 3 * a + 2 * b + c);
  }

  lemma InBase(n: nat)
    requires n < BASE
    ensures n % BASE == n
  {
  }

  lemma NoSums()
    ensures Sum1(1, []) == 1 && Sum2(1, 0, []) == 0
  {
  }

  lemma OneMore(s: Octets, o: Octet, more: Octets)
    requires more == s + [o]
    ensures Sum1(1, more) == Sum1(1, s) + o && Sum2(1, 0, more) == Sum2(1, 0, s) + Sum1(1, more)
  {
    assert more[..|more| - 1] == s;
  }

  predicate Same(x: nat, y: nat) {
    x % BASE == y % BASE
  }

  /** Adding the same or congruent amounts keeps sums congruent. */
  lemma AddSame(x: nat, y: nat, c: nat, d: nat)
    requires Same(x, y) && Same(c, d)
    ensures Same(x + c, y + d)
  {
    var p, q, m, n := x / BASE, y / BASE, c / BASE, d / BASE;
    var r, t := x % BASE, c % BASE;
    assert x == BASE * p + r && y == BASE * q + r && c == BASE * m + t && d == BASE * n + t;
    Remainder(p + m, r + t);
    Remainder(q + n, r + t);
  }

  lemma Remainder(k: nat, r: nat)
    ensures (BASE * k + r) % BASE == r % BASE
  {
    var q, t := r / BASE, r % BASE;
    assert BASE * k + r == BASE * (k + q) + t;
    Unquotient(BASE * k + r, BASE, k + q, t);
  }

  lemma Reduced(x: nat)
    ensures Same(x % BASE, x)
  {
  }

  lemma Subtracted(x: nat)
    requires BASE <= x
    ensures Same(x - BASE, x)
  {
    Remainder(1, x - BASE);
  }

  lemma {:induction false} SumsConcat(a: nat, b: nat, s: Octets, t: Octets)
    ensures Sum1(a, s + t) == Sum1(Sum1(a, s), t)
    ensures Sum2(a, b, s + t) == Sum2(Sum1(a, s), Sum2(a, b, s), t)
  {
    if t == [] {
      assert s + t == s;
    } else {
      var u := t[..|t| - 1];
      assert (s + t)[..|s + t| - 1] == s + u;
      SumsConcat(a, b, s, u);
    }
  }

  /** The sums may start from reduced values. */
  lemma {:induction false} SumsFromReduced(a: nat, b: nat, c: nat, d: nat, s: Octets)
    requires Same(a, c) && Same(b, d)
    ensures Same(Sum1(a, s), Sum1(c, s)) && Same(Sum2(a, b, s), Sum2(c, d, s))
  {
    if s != [] {
      var t, x := s[..|s| - 1], s[|s| - 1];
      SumsFromReduced(a, b, c, d, t);
      AddSame(Sum1(a, t), Sum1(c, t), x, x);
      AddSame(Sum2(a, b, t), Sum2(c, d, t), Sum1(a, s), Sum1(c, s));
    }
  }

  // ---- The object ----------------------------------------------------------------------------

  datatype Status = Done(digest: Octets) | InvalidArgument

  /** Both sums agree with the exact ones so far. */
  ghost predicate Agrees(s1: nat, s2: nat, a: nat, b: nat, read: Octets) {
    Same(s1, Sum1(a, read)) && Same(s2, Sum2(a, b, read))
  }

  lemma AgreesNext(s1: nat, s2: nat, a: nat, b: nat, read: Octets, x: Octet)
    requires Agrees(s1, s2, a, b, read)
    ensures Agrees(s1 + x, s2 + (s1 + x), a, b, read + [x])
  {
    assert (read + [x])[..|read|] == read;
    AddSame(s1, Sum1(a, read), x, x);
    AddSame(s2, Sum2(a, b, read), s1 + x, Sum1(a, read + [x]));
  }

  /** Adds the octets from `at` on; in 32 bits nothing overflows. */
  method AddOctets(input: Octets, at: nat, count: nat, s1: nat, s2: nat, ghost a: nat, ghost b: nat)
    returns (t1: nat, t2: nat)
    requires at + count <= |input| && count <= 8 && s1 < BASE && s2 < LONG_LIMIT - 67560 * 8
    requires Agrees(s1, s2, a, b, input[..at])
    ensures Agrees(t1, t2, a, b, input[..at + count])
    ensures t1 <= s1 + 255 * count && t2 <= s2 + 67560 * count
  {
    t1, t2 := s1, s2;
    var i := 0;
    while i < count
      invariant 0 <= i <= count && Agrees(t1, t2, a, b, input[..at + i])
      invariant t1 <= s1 + 255 * i && t2 <= s2 + 67560 * i
    {
      AgreesNext(t1, t2, a, b, input[..at + i], input[at + i]);
      assert input[..at + i + 1] == input[..at + i] + [input[at + i]];
      t1 := t1 + input[at + i];
      t2 := t2 + t1;
      assert t1 < LONG_LIMIT && t2 < LONG_LIMIT;
      i := i + 1;
    }
  }

  /** One subtraction when needed. */
  method ReduceFirst(s1: nat, s2: nat, ghost a: nat, ghost b: nat, ghost read: Octets) returns (t1: nat)
    requires s1 < 2 * BASE && Agrees(s1, s2, a, b, read)
    ensures t1 < BASE && Agrees(t1, s2, a, b, read)
  {
    t1 := s1;
    if t1 >= BASE {
      Subtracted(t1);
      t1 := t1 - BASE;
    }
  }

  class Adler32 {
    var s1: nat
    var s2: nat
    ghost var message: Octets

    ghost predicate Valid()
      reads this
    {
      s1 == Sum1(1, message) % BASE && s2 == Sum2(1, 0, message) % BASE
    }

    constructor ()
      ensures Valid() && message == []
    {
      s1, s2, message := 1, 0, [];
    }

    method Update(input: Octets)
      requires Valid()
      modifies this
      ensures Valid() && message == old(message) + input
    {
      hide Sum1, Sum2;
      var count := |input| % 8;
      var t1, t2 := AddOdd(input, count, s1, s2);
      t1, t2 := AddEights(input, count, t1, t2, s1, s2);
      assert input[..|input|] == input;
      SumsConcat(1, 0, message, input);
      SumsFromReduced(s1, s2, Sum1(1, message), Sum2(1, 0, message), input);
      s1, s2 := t1, t2;
      message := message + input;
    }

    /** The octets before a multiple of eight, at most seven. */
    method AddOdd(input: Octets, count: nat, first: nat, second: nat) returns (t1: nat, t2: nat)
      requires count <= |input| && count < 8 && first < BASE && second < BASE
      ensures t1 < BASE && t2 < BASE && Agrees(t1, t2, first, second, input[..count])
    {
      t1, t2 := first, second;
      assert input[..0] == [];
      if count != 0 {
        t1, t2 := AddOctets(input, 0, count, t1, t2, first, second);
        t1 := ReduceFirst(t1, t2, first, second, input[..count]);
        Reduced(t2);
        t2 := t2 % BASE;
      }
    }

    /** Eight octets at a time; the second sum is reduced only when a multiple of 0x8000 is left. */
    method AddEights(input: Octets, start: nat, first: nat, second: nat, ghost a: nat, ghost b: nat)
      returns (t1: nat, t2: nat)
      requires start <= |input| && (|input| - start) % 8 == 0
      requires first < BASE && second < BASE && Agrees(first, second, a, b, input[..start])
      ensures t1 < BASE && t2 < BASE && Agrees(t1, t2, a, b, input[..|input|])
    {
      t1, t2 := first, second;
      var length := |input| - start;
      ghost var since := 0;
      while length > 0
        invariant 0 <= length <= |input| && length % 8 == 0
        invariant t1 < BASE && Agrees(t1, t2, a, b, input[..|input| - length])
        invariant t2 < BASE + 67560 * since && (since == 0 || since + length % 0x8000 <= 0x8000)
        invariant length % 0x8000 == 0 ==> since == 0
      {
        Block(length, since);
        t1, t2 := AddOctets(input, |input| - length, 8, t1, t2, a, b);
        length := length - 8;
        since := since + 8;
        t1 := ReduceFirst(t1, t2, a, b, input[..|input| - length]);
        if length % 0x8000 == 0 {
          Reduced(t2);
          t2 := t2 % BASE;
          since := 0;
        }
      }
    }

    /** The first `size` octets of the checksum; then ready for the next message. */
    method TruncatedFinal(size: nat) returns (status: Status)
      requires Valid()
      modifies this
      ensures Valid()
      ensures size > 4 ==> status == InvalidArgument && message == old(message)
      ensures size <= 4 ==> status == Done(Checksum(old(message))[..size]) && message == []
    {
      if size > 4 {
        return InvalidArgument;
      }
      var hash: Octets := [];
      if size >= 1 {
        hash := hash + [s2 / 256];
      }
      if size >= 2 {
        hash := hash + [s2 % 256];
      }
      if size >= 3 {
        hash := hash + [s1 / 256];
      }
      if size >= 4 {
        hash := hash + [s1 % 256];
      }
      status := Done(hash);
      s1, s2, message := 1, 0, [];
    }
  }

  /** Less than 0x8000 octets lie behind the last reduction when eight more are added. */
  lemma Block(length: nat, since: nat)
    requires length > 0 && length % 8 == 0 && (since == 0 || since + length % 0x8000 <= 0x8000)
    requires length % 0x8000 == 0 ==> since == 0
    ensures length >= 8 && since + 8 <= 0x8000 && since + 8 + (length - 8) % 0x8000 <= 0x8000
    ensures (length - 8) % 8 == 0
  {
    var q, r := length / 0x8000, length % 0x8000;
    assert length == 0x8000 * q + r;
    if r == 0 {
      assert length - 8 == 0x8000 * (q - 1) + 0x7ff8;
    } else {
      assert r % 8 == 0;
      assert length - 8 == 0x8000 * q + (r - 8);
    }
  }

  /** Any message in any pieces. */
  method ChecksumOf(pieces: seq<Octets>) returns (digest: Octets)
    ensures digest == Checksum(Concat(pieces))
  {
    var hash := new Adler32();
    var i := 0;
    assert [] + Concat(pieces) == Concat(pieces);
    while i < |pieces|
      invariant 0 <= i <= |pieces| && hash.Valid() && hash.message + Concat(pieces[i..]) == Concat(pieces)
    {
      NextPiece(hash.message, pieces, i);
      hash.Update(pieces[i]);
      i := i + 1;
    }
    assert hash.message + Concat(pieces[i..]) == hash.message;
    var status := hash.TruncatedFinal(4);
    digest := status.digest;
  }
}
