/** The 3-Way block cipher: decryption is the encryption program between two bit reversals. */
module ThreeWayCipher {
  import opened ByteStrings

  datatype Words = Words(a0: bv32, a1: bv32, a2: bv32)

  // ---- Rounds between two conjugations -------------------------------------------------------

  /** Rounds `i` to `n`: key, theta and p, with no p in the last round. */
  function Run<S>(theta: S -> S, p: S -> S, add: (nat, S) -> S, n: nat, i: nat, x: S): S
    requires i <= n
    decreases n - i
  {
    if i == n then theta(add(n, x)) else Run(theta, p, add, n, i + 1, p(theta(add(i, x))))
  }

  /** The first `i` rounds. */
  function Reached<S>(theta: S -> S, p: S -> S, add: (nat, S) -> S, i: nat, x: S): S {
    if i == 0 then x else p(theta(add(i - 1, Reached(theta, p, add, i - 1, x))))
  }

  lemma {:induction false} RunFromReached<S>(theta: S -> S, p: S -> S, add: (nat, S) -> S, n: nat, i: nat, x: S)
    requires i <= n
    ensures Run(theta, p, add, n, i, Reached(theta, p, add, i, x)) == Run(theta, p, add, n, 0, x)
  {
    if i > 0 {
      RunFromReached(theta, p, add, n, i - 1, x);
    }
  }

  /** What makes a round keyed from the other end undo a round. */
  ghost predicate Conjugate<S(!new)>(theta: S -> S, p: S -> S, mu: S -> S,
                                     add: (nat, S) -> S, back: (nat, S) -> S, n: nat)
  {
    && (forall x :: theta(mu(theta(x))) == mu(x))
    && (forall x :: p(mu(p(x))) == mu(x))
    && (forall x :: mu(mu(x)) == x)
    && forall i: nat, x | i <= n :: UndoesKey(theta, mu, add, back, n, i, x)
  }

  ghost predicate UndoesKey<S>(theta: S -> S, mu: S -> S, add: (nat, S) -> S, back: (nat, S) -> S,
                               n: nat, i: nat, x: S)
    requires i <= n
  {
    back(n - i, mu(theta(add(i, x)))) == mu(theta(x))
  }

  /** After `j` rounds back, the state is the conjugate of what round `n - j` made. */
  lemma {:induction false} RunBack<S(!new)>(theta: S -> S, p: S -> S, mu: S -> S,
                                            add: (nat, S) -> S, back: (nat, S) -> S, n: nat, j: nat, x: S)
    requires Conjugate(theta, p, mu, add, back, n) && j <= n
    ensures Reached(theta, p, back, j, mu(Run(theta, p, add, n, 0, x)))
         == mu(theta(add(n - j, Reached(theta, p, add, n - j, x))))
  {
    if j == 0 {
      RunFromReached(theta, p, add, n, n, x);
    } else {
      RunBack(theta, p, mu, add, back, n, j - 1, x);
      var i := n - j;
      var y := Reached(theta, p, add, i, x);
      assert Reached(theta, p, add, i + 1, x) == p(theta(add(i, y)));
      assert UndoesKey(theta, mu, add, back, n, i + 1, p(theta(add(i, y))));
    }
  }

  lemma RoundTrip<S(!new)>(theta: S -> S, p: S -> S, mu: S -> S,
                           add: (nat, S) -> S, back: (nat, S) -> S, n: nat, x: S)
    requires Conjugate(theta, p, mu, add, back, n)
    ensures mu(Run(theta, p, back, n, 0, mu(Run(theta, p, add, n, 0, x)))) == x
  {
    var z := mu(Run(theta, p, add, n, 0, x));
    RunBack(theta, p, mu, add, back, n, n, x);
    RunFromReached(theta, p, back, n, n, z);
    assert UndoesKey(theta, mu, add, back, n, 0, x);
  }

  // ---- Reversing words -----------------------------------------------------------------------

  /** Reverses the bits within each byte. */
  function ReverseBits(a: bv32): bv32 {
    var b := ((a & 0xAAAAAAAA) >> 1) | ((a & 0x55555555) << 1);
    var c := ((b & 0xCCCCCCCC) >> 2) | ((b & 0x33333333) << 2);
    ((c & 0xF0F0F0F0) >> 4) | ((c & 0x0F0F0F0F) << 4)
  }

  function ByteReverse(a: bv32): bv32 {
    (a >> 24) | ((a >> 8) & 0xff00) | ((a << 8) & 0xff0000) | (a << 24)
  }

  /** The whole word backwards. */
  function Reverse(a: bv32): bv32 {
    var b := ((a & 0xAAAAAAAA) >> 1) | ((a & 0x55555555) << 1);
    var c := ((b & 0xCCCCCCCC) >> 2) | ((b & 0x33333333) << 2);
    var d := ((c & 0xF0F0F0F0) >> 4) | ((c & 0x0F0F0F0F) << 4);
    (d >> 24) | ((d >> 8) & 0xff00) | ((d << 8) & 0xff0000) | (d << 24)
  }

  lemma ReverseTwice(a: bv32)
    ensures Reverse(Reverse(a)) == a
  {
  }

  function Add(a: bv32, b: bv32): bv32 {
    a ^ b
  }

  lemma ReverseAdd(a: bv32, b: bv32)
    ensures Reverse(Add(a, b)) == Add(Reverse(a), Reverse(b))
  {
  }

  function Rotl1(a: bv32): bv32 {
    (a << 1) | (a >> 31)
  }

  function Rotl22(a: bv32): bv32 {
    (a << 22) | (a >> 10)
  }

  // ---- The diffusion step --------------------------------------------------------------------

  function Theta0(a0: bv32, a1: bv32, a2: bv32): bv32 {
    var c := a0 ^ a1 ^ a2;
    var d := ((c << 16) | (c >> 16)) ^ ((c << 8) | (c >> 24));
    var b0 := (a0 << 24) ^ (a2 >> 8) ^ (a1 << 8) ^ (a0 >> 24);
    a0 ^ d ^ b0
  }

  function Theta1(a0: bv32, a1: bv32, a2: bv32): bv32 {
    var c := a0 ^ a1 ^ a2;
    var d := ((c << 16) | (c >> 16)) ^ ((c << 8) | (c >> 24));
    var b1 := (a1 << 24) ^ (a0 >> 8) ^ (a2 << 8) ^ (a1 >> 24);
    a1 ^ d ^ b1
  }

  function Theta2(a0: bv32, a1: bv32, a2: bv32): bv32 {
    var c := a0 ^ a1 ^ a2;
    var d := ((c << 16) | (c >> 16)) ^ ((c << 8) | (c >> 24));
    var b0 := (a0 << 24) ^ (a2 >> 8) ^ (a1 << 8) ^ (a0 >> 24);
    var b1 := (a1 << 24) ^ (a0 >> 8) ^ (a2 << 8) ^ (a1 >> 24);
    a2 ^ d ^ (b0 >> 16) ^ (b1 << 16)
  }

  /** The step is the same on each of the three words, in turn. */
  lemma Theta1Turned(a0: bv32, a1: bv32, a2: bv32)
    ensures Theta1(a0, a1, a2) == Theta0(a1, a2, a0)
  {
  }

  lemma Theta2Turned(a0: bv32, a1: bv32, a2: bv32)
    ensures Theta2(a0, a1, a2) == Theta0(a2, a0, a1)
  {
  }

  function B0(a: bv32): bv8 {
    (a & 0xff) as bv8
  }

  function B1(a: bv32): bv8 {
    ((a >> 8) & 0xff) as bv8
  }

  function B2(a: bv32): bv8 {
    ((a >> 16) & 0xff) as bv8
  }

  function B3(a: bv32): bv8 {
    (a >> 24) as bv8
  }

  /** Bit `j` of a byte, as a bit vector of its own. */
  function BitValue(b: bv8, j: nat): bv1 {
    if BitOf(b, j) then 1 else 0
  }

  /** A way to read bit `j` of a byte. */
  type Reading = (bv8, nat) -> bv1

  /** The sum of seven bits. */
  function Plus7(a: bv1, b: bv1, c: bv1, d: bv1, e: bv1, f: bv1, g: bv1): bv1 {
    a ^ b ^ c ^ d ^ e ^ f ^ g
  }

  /** Bit `j` of a sum of seven bytes. */
  function Sum7(bit: Reading, j: nat, a: bv8, b: bv8, c: bv8, d: bv8, e: bv8, f: bv8, g: bv8): bv1 {
    Plus7(bit(a, j), bit(b, j), bit(c, j), bit(d, j), bit(e, j), bit(f, j), bit(g, j))
  }

  lemma XorValue(a: bv8, b: bv8, j: nat)
    ensures BitValue(a ^ b, j) == BitValue(a, j) ^ BitValue(b, j)
  {
    XorBit(a, b, j);
    ValueOfXor(BitOf(a ^ b, j), BitOf(a, j), BitOf(b, j));
  }

  lemma ValueOfXor(t: bool, a: bool, b: bool)
    requires t == (a != b)
    ensures (if t then 1 as bv1 else 0) == (if a then 1 as bv1 else 0) ^ (if b then 1 as bv1 else 0)
  {
  }

  ghost predicate Adds(bit: Reading, t: bv8, a: bv8, b: bv8) {
    forall j: nat :: AddsAt(bit, t, a, b, j)
  }

  ghost predicate AddsAt(bit: Reading, t: bv8, a: bv8, b: bv8, j: nat) {
    bit(t, j) == bit(a, j) ^ bit(b, j)
  }

  lemma XorAdds(a: bv8, b: bv8)
    ensures Adds(BitValue, a ^ b, a, b)
  {
    var t := a ^ b;
    forall j: nat ensures AddsAt(BitValue, t, a, b, j) {
      XorValue(a, b, j);
    }
  }

  lemma XorIsSum7(t: bv8, a: bv8, b: bv8, c: bv8, d: bv8, e: bv8, f: bv8, g: bv8, j: nat)
    requires t == a ^ b ^ c ^ d ^ e ^ f ^ g
    ensures BitValue(t, j) == Sum7(BitValue, j, a, b, c, d, e, f, g)
  {
    var p1 := a ^ b;
    var p2 := p1 ^ c;
    var p3 := p2 ^ d;
    var p4 := p3 ^ e;
    var p5 := p4 ^ f;
    XorAdds(a, b);
    XorAdds(p1, c);
    XorAdds(p2, d);
    XorAdds(p3, e);
    XorAdds(p4, f);
    XorAdds(p5, g);
    SumSteps(BitValue, p1, p2, p3, p4, p5, t, a, b, c, d, e, f, g, j);
  }

  lemma SumSteps(bit: Reading, p1: bv8, p2: bv8, p3: bv8, p4: bv8, p5: bv8, t: bv8,
                 a: bv8, b: bv8, c: bv8, d: bv8, e: bv8, f: bv8, g: bv8, j: nat)
    requires Adds(bit, p1, a, b) && Adds(bit, p2, p1, c) && Adds(bit, p3, p2, d)
    requires Adds(bit, p4, p3, e) && Adds(bit, p5, p4, f) && Adds(bit, t, p5, g)
    ensures bit(t, j) == Sum7(bit, j, a, b, c, d, e, f, g)
  {
    assert AddsAt(bit, p1, a, b, j) && AddsAt(bit, p2, p1, c, j) && AddsAt(bit, p3, p2, d, j);
    assert AddsAt(bit, p4, p3, e, j) && AddsAt(bit, p5, p4, f, j) && AddsAt(bit, t, p5, g, j);
  }

  /** Bit `j` of each byte of `t` is the sum of seven, at the same distances for all twelve bytes. */
  ghost predicate ThetaSums(bit: Reading, j: nat, t: bv32, a0: bv32, a1: bv32, a2: bv32) {
    && bit(B0(t), j) == Sum7(bit, j, B0(a0), B2(a0), B2(a1), B3(a1), B1(a2), B2(a2), B3(a2))
    && bit(B1(t), j) == Sum7(bit, j, B1(a0), B3(a0), B3(a1), B0(a2), B2(a2), B3(a2), B0(a0))
    && bit(B2(t), j) == Sum7(bit, j, B2(a0), B0(a1), B0(a2), B1(a2), B3(a2), B0(a0), B1(a0))
    && bit(B3(t), j) == Sum7(bit, j, B3(a0), B1(a1), B1(a2), B2(a2), B0(a0), B1(a0), B2(a0))
  }

  lemma Theta0Byte0(a0: bv32, a1: bv32, a2: bv32, j: nat)
    ensures BitValue(B0(Theta0(a0, a1, a2)), j)
         == Sum7(BitValue, j, B0(a0), B2(a0), B2(a1), B3(a1), B1(a2), B2(a2), B3(a2))
  {
    XorIsSum7(B0(Theta0(a0, a1, a2)), B0(a0), B2(a0), B2(a1), B3(a1), B1(a2), B2(a2), B3(a2), j);
  }

  lemma Theta0Byte1(a0: bv32, a1: bv32, a2: bv32, j: nat)
    ensures BitValue(B1(Theta0(a0, a1, a2)), j)
         == Sum7(BitValue, j, B1(a0), B3(a0), B3(a1), B0(a2), B2(a2), B3(a2), B0(a0))
  {
    XorIsSum7(B1(Theta0(a0, a1, a2)), B1(a0), B3(a0), B3(a1), B0(a2), B2(a2), B3(a2), B0(a0), j);
  }

  lemma Theta0Byte2(a0: bv32, a1: bv32, a2: bv32, j: nat)
    ensures BitValue(B2(Theta0(a0, a1, a2)), j)
         == Sum7(BitValue, j, B2(a0), B0(a1), B0(a2), B1(a2), B3(a2), B0(a0), B1(a0))
  {
    XorIsSum7(B2(Theta0(a0, a1, a2)), B2(a0), B0(a1), B0(a2), B1(a2), B3(a2), B0(a0), B1(a0), j);
  }

  lemma Theta0Byte3(a0: bv32, a1: bv32, a2: bv32, j: nat)
    ensures BitValue(B3(Theta0(a0, a1, a2)), j)
         == Sum7(BitValue, j, B3(a0), B1(a1), B1(a2), B2(a2), B0(a0), B1(a0), B2(a0))
  {
    XorIsSum7(B3(Theta0(a0, a1, a2)), B3(a0), B1(a1), B1(a2), B2(a2), B0(a0), B1(a0), B2(a0), j);
  }

  lemma Theta0Sums(a0: bv32, a1: bv32, a2: bv32, j: nat)
    ensures ThetaSums(BitValue, j, Theta0(a0, a1, a2), a0, a1, a2)
  {
    Theta0Byte0(a0, a1, a2, j);
    Theta0Byte1(a0, a1, a2, j);
    Theta0Byte2(a0, a1, a2, j);
    Theta0Byte3(a0, a1, a2, j);
  }

  function ReverseByte(b: bv8): bv8 {
    var c := ((b & 0xAA) >> 1) | ((b & 0x55) << 1);
    var d := ((c & 0xCC) >> 2) | ((c & 0x33) << 2);
    (d >> 4) | (d << 4)
  }

  lemma ReverseByteMirrors(t: bv8, b: bv8, j: nat)
    requires t == ReverseByte(b) && j < 8
    ensures BitValue(t, j) == BitValue(b, 7 - j)
  {
    if j == 0 {} else if j == 1 {} else if j == 2 {} else if j == 3 {}
    else if j == 4 {} else if j == 5 {} else if j == 6 {} else {}
  }

  /** Bit `j` of the bytes of `x` is bit `i` of those of `a`, from the other end. */
  ghost predicate Mirrors(bit: Reading, j: nat, i: nat, x: bv32, a: bv32) {
    && bit(B0(x), j) == bit(B3(a), i) && bit(B1(x), j) == bit(B2(a), i)
    && bit(B2(x), j) == bit(B1(a), i) && bit(B3(x), j) == bit(B0(a), i)
  }

  lemma ReverseByte0(a: bv32, j: nat)
    requires j < 8
    ensures BitValue(B0(Reverse(a)), j) == BitValue(B3(a), 7 - j)
  {
    ReverseByteMirrors(B0(Reverse(a)), B3(a), j);
  }

  lemma ReverseByte1(a: bv32, j: nat)
    requires j < 8
    ensures BitValue(B1(Reverse(a)), j) == BitValue(B2(a), 7 - j)
  {
    ReverseByteMirrors(B1(Reverse(a)), B2(a), j);
  }

  lemma ReverseByte2(a: bv32, j: nat)
    requires j < 8
    ensures BitValue(B2(Reverse(a)), j) == BitValue(B1(a), 7 - j)
  {
    ReverseByteMirrors(B2(Reverse(a)), B1(a), j);
  }

  lemma ReverseByte3(a: bv32, j: nat)
    requires j < 8
    ensures BitValue(B3(Reverse(a)), j) == BitValue(B0(a), 7 - j)
  {
    ReverseByteMirrors(B3(Reverse(a)), B0(a), j);
  }

  lemma ReverseMirrors(a: bv32, j: nat)
    requires j < 8
    ensures Mirrors(BitValue, j, 7 - j, Reverse(a), a)
  {
    ReverseByte0(a, j);
    ReverseByte1(a, j);
    ReverseByte2(a, j);
    ReverseByte3(a, j);
  }

  /** Seven sums of seven: all but one bit cancel. */
  lemma Undone(s0: bv1, s1: bv1, s2: bv1, s3: bv1, s4: bv1, s5: bv1,
               s6: bv1, s7: bv1, s8: bv1, s9: bv1, s10: bv1, s11: bv1)
    ensures Plus7(Plus7(s11, s1, s5, s6, s8, s9, s10), Plus7(s9, s11, s3, s4, s6, s7, s8),
                  Plus7(s5, s7, s11, s0, s2, s3, s4), Plus7(s4, s6, s10, s11, s1, s2, s3),
                  Plus7(s2, s4, s8, s9, s11, s0, s1), Plus7(s1, s3, s7, s8, s10, s11, s0),
                  Plus7(s0, s2, s6, s7, s9, s10, s11)) == s11
  {
  }

  /** The same for bytes read bit by bit. */
  lemma UndoneBytes(bit: Reading, j: nat, i: nat,
                    s0: bv8, s1: bv8, s2: bv8, s3: bv8, s4: bv8, s5: bv8,
                    s6: bv8, s7: bv8, s8: bv8, s9: bv8, s10: bv8, s11: bv8,
                    t11: bv8, t9: bv8, t5: bv8, t4: bv8, t2: bv8, t1: bv8, t0: bv8,
                    x0: bv8, x2: bv8, x6: bv8, x7: bv8, x9: bv8, x10: bv8, x11: bv8, r: bv8)
    requires bit(t11, i) == Sum7(bit, i, s11, s1, s5, s6, s8, s9, s10)
    requires bit(t9, i) == Sum7(bit, i, s9, s11, s3, s4, s6, s7, s8)
    requires bit(t5, i) == Sum7(bit, i, s5, s7, s11, s0, s2, s3, s4)
    requires bit(t4, i) == Sum7(bit, i, s4, s6, s10, s11, s1, s2, s3)
    requires bit(t2, i) == Sum7(bit, i, s2, s4, s8, s9, s11, s0, s1)
    requires bit(t1, i) == Sum7(bit, i, s1, s3, s7, s8, s10, s11, s0)
    requires bit(t0, i) == Sum7(bit, i, s0, s2, s6, s7, s9, s10, s11)
    requires bit(x0, j) == bit(t11, i) && bit(x2, j) == bit(t9, i) && bit(x6, j) == bit(t5, i)
             && bit(x7, j) == bit(t4, i)
    requires bit(x9, j) == bit(t2, i) && bit(x10, j) == bit(t1, i) && bit(x11, j) == bit(t0, i)
    requires bit(r, j) == Sum7(bit, j, x0, x2, x6, x7, x9, x10, x11)
    ensures bit(r, j) == bit(s11, i)
  {
    Undone(bit(s0, i), bit(s1, i), bit(s2, i), bit(s3, i), bit(s4, i), bit(s5, i),
           bit(s6, i), bit(s7, i), bit(s8, i), bit(s9, i), bit(s10, i), bit(s11, i));
  }

  /** Stepping the reversed step gives the reversed word. */
  lemma SumsUndone(bit: Reading, j: nat, i: nat, a0: bv32, a1: bv32, a2: bv32, t0: bv32, t1: bv32, t2: bv32,
                   x0: bv32, x1: bv32, x2: bv32, r: bv32)
    requires ThetaSums(bit, i, t0, a0, a1, a2) && ThetaSums(bit, i, t1, a1, a2, a0) && ThetaSums(bit, i, t2, a2, a0, a1)
    requires Mirrors(bit, j, i, x0, t2) && Mirrors(bit, j, i, x1, t1) && Mirrors(bit, j, i, x2, t0)
    requires ThetaSums(bit, j, r, x0, x1, x2)
    ensures Mirrors(bit, j, i, r, a2)
  {
    UndoneBytes(bit, j, i,
                B0(a0), B1(a0), B2(a0), B3(a0), B0(a1), B1(a1), B2(a1), B3(a1), B0(a2), B1(a2), B2(a2), B3(a2),
                B3(t2), B1(t2), B1(t1), B0(t1), B2(t0), B1(t0), B0(t0),
                B0(x0), B2(x0), B2(x1), B3(x1), B1(x2), B2(x2), B3(x2), B0(r));
    UndoneBytes(bit, j, i,
                B3(a2), B0(a0), B1(a0), B2(a0), B3(a0), B0(a1), B1(a1), B2(a1), B3(a1), B0(a2), B1(a2), B2(a2),
                B2(t2), B0(t2), B0(t1), B3(t0), B1(t0), B0(t0), B3(t2),
                B1(x0), B3(x0), B3(x1), B0(x2), B2(x2), B3(x2), B0(x0), B1(r));
    UndoneBytes(bit, j, i,
                B2(a2), B3(a2), B0(a0), B1(a0), B2(a0), B3(a0), B0(a1), B1(a1), B2(a1), B3(a1), B0(a2), B1(a2),
                B1(t2), B3(t1), B3(t0), B2(t0), B0(t0), B3(t2), B2(t2),
                B2(x0), B0(x1), B0(x2), B1(x2), B3(x2), B0(x0), B1(x0), B2(r));
    UndoneBytes(bit, j, i,
                B1(a2), B2(a2), B3(a2), B0(a0), B1(a0), B2(a0), B3(a0), B0(a1), B1(a1), B2(a1), B3(a1), B0(a2),
                B0(t2), B2(t1), B2(t0), B1(t0), B3(t2), B2(t2), B1(t2),
                B3(x0), B1(x1), B1(x2), B2(x2), B0(x0), B1(x0), B2(x0), B3(r));
  }

  ghost predicate SameBits(bit: Reading, x: bv32, y: bv32, j: nat) {
    && bit(B0(x), j) == bit(B0(y), j) && bit(B1(x), j) == bit(B1(y), j)
    && bit(B2(x), j) == bit(B2(y), j) && bit(B3(x), j) == bit(B3(y), j)
  }

  lemma SameByte(a: bv8, b: bv8)
    requires BitValue(a, 0) == BitValue(b, 0) && BitValue(a, 1) == BitValue(b, 1)
    requires BitValue(a, 2) == BitValue(b, 2) && BitValue(a, 3) == BitValue(b, 3)
    requires BitValue(a, 4) == BitValue(b, 4) && BitValue(a, 5) == BitValue(b, 5)
    requires BitValue(a, 6) == BitValue(b, 6) && BitValue(a, 7) == BitValue(b, 7)
    ensures a == b
  {
  }

  lemma SameWord(a: bv32, b: bv32)
    requires B0(a) == B0(b) && B1(a) == B1(b) && B2(a) == B2(b) && B3(a) == B3(b)
    ensures a == b
  {
  }

  lemma SameWordBits(x: bv32, y: bv32)
    requires forall j: nat | j < 8 :: SameBits(BitValue, x, y, j)
    ensures x == y
  {
    assert SameBits(BitValue, x, y, 0) && SameBits(BitValue, x, y, 1) && SameBits(BitValue, x, y, 2);
    assert SameBits(BitValue, x, y, 3) && SameBits(BitValue, x, y, 4) && SameBits(BitValue, x, y, 5);
    assert SameBits(BitValue, x, y, 6) && SameBits(BitValue, x, y, 7);
    SameByte(B0(x), B0(y));
    SameByte(B1(x), B1(y));
    SameByte(B2(x), B2(y));
    SameByte(B3(x), B3(y));
    SameWord(x, y);
  }

  lemma SameMirrors(bit: Reading, j: nat, i: nat, x: bv32, y: bv32, a: bv32)
    requires Mirrors(bit, j, i, x, a) && Mirrors(bit, j, i, y, a)
    ensures SameBits(bit, x, y, j)
  {
  }

  lemma ThetaUndoneAt(a0: bv32, a1: bv32, a2: bv32, t0: bv32, t1: bv32, t2: bv32, j: nat)
    requires t0 == Theta0(a0, a1, a2) && t1 == Theta0(a1, a2, a0) && t2 == Theta0(a2, a0, a1) && j < 8
    ensures SameBits(BitValue, Theta0(Reverse(t2), Reverse(t1), Reverse(t0)), Reverse(a2), j)
  {
    var i := 7 - j;
    Theta0Sums(a0, a1, a2, i);
    Theta0Sums(a1, a2, a0, i);
    Theta0Sums(a2, a0, a1, i);
    ReverseMirrors(t0, j);
    ReverseMirrors(t1, j);
    ReverseMirrors(t2, j);
    var x0, x1, x2 := Reverse(t2), Reverse(t1), Reverse(t0);
    Theta0Sums(x0, x1, x2, j);
    SumsUndone(BitValue, j, i, a0, a1, a2, t0, t1, t2, x0, x1, x2, Theta0(x0, x1, x2));
    ReverseMirrors(a2, j);
    SameMirrors(BitValue, j, i, Theta0(x0, x1, x2), Reverse(a2), a2);
  }

  /** On the first word: theta, backwards, theta is backwards. */
  lemma Theta0Undone(a0: bv32, a1: bv32, a2: bv32, t0: bv32, t1: bv32, t2: bv32)
    requires t0 == Theta0(a0, a1, a2) && t1 == Theta0(a1, a2, a0) && t2 == Theta0(a2, a0, a1)
    ensures Theta0(Reverse(t2), Reverse(t1), Reverse(t0)) == Reverse(a2)
  {
    forall j: nat | j < 8
      ensures SameBits(BitValue, Theta0(Reverse(t2), Reverse(t1), Reverse(t0)), Reverse(a2), j)
    {
      ThetaUndoneAt(a0, a1, a2, t0, t1, t2, j);
    }
    SameWordBits(Theta0(Reverse(t2), Reverse(t1), Reverse(t0)), Reverse(a2));
  }

  // ---- The step is additive ------------------------------------------------------------------

  ghost predicate AddsWord(bit: Reading, j: nat, x: bv32, a: bv32, b: bv32) {
    && bit(B0(x), j) == Sum2(bit, j, B0(a), B0(b)) && bit(B1(x), j) == Sum2(bit, j, B1(a), B1(b))
    && bit(B2(x), j) == Sum2(bit, j, B2(a), B2(b)) && bit(B3(x), j) == Sum2(bit, j, B3(a), B3(b))
  }

  /** Bit `j` of a sum of two bytes. */
  function Sum2(bit: Reading, j: nat, a: bv8, b: bv8): bv1 {
    bit(a, j) ^ bit(b, j)
  }

  lemma Xor0(a: bv32, b: bv32, j: nat)
    ensures BitValue(B0(Add(a, b)), j) == Sum2(BitValue, j, B0(a), B0(b))
  {
    XorValue(B0(a), B0(b), j);
    assert B0(Add(a, b)) == B0(a) ^ B0(b);
  }

  lemma Xor1(a: bv32, b: bv32, j: nat)
    ensures BitValue(B1(Add(a, b)), j) == Sum2(BitValue, j, B1(a), B1(b))
  {
    XorValue(B1(a), B1(b), j);
    assert B1(Add(a, b)) == B1(a) ^ B1(b);
  }

  lemma Xor2(a: bv32, b: bv32, j: nat)
    ensures BitValue(B2(Add(a, b)), j) == Sum2(BitValue, j, B2(a), B2(b))
  {
    XorValue(B2(a), B2(b), j);
    assert B2(Add(a, b)) == B2(a) ^ B2(b);
  }

  lemma Xor3(a: bv32, b: bv32, j: nat)
    ensures BitValue(B3(Add(a, b)), j) == Sum2(BitValue, j, B3(a), B3(b))
  {
    XorValue(B3(a), B3(b), j);
    assert B3(Add(a, b)) == B3(a) ^ B3(b);
  }

  lemma XorAddsWord(a: bv32, b: bv32, j: nat)
    ensures AddsWord(BitValue, j, Add(a, b), a, b)
  {
    Xor0(a, b, j);
    Xor1(a, b, j);
    Xor2(a, b, j);
    Xor3(a, b, j);
  }

  /** Sums of seven sums. */
  lemma PairsAdd(x1: bv1, x2: bv1, x3: bv1, x4: bv1, x5: bv1, x6: bv1, x7: bv1,
                 a1: bv1, a2: bv1, a3: bv1, a4: bv1, a5: bv1, a6: bv1, a7: bv1,
                 b1: bv1, b2: bv1, b3: bv1, b4: bv1, b5: bv1, b6: bv1, b7: bv1,
                 r: bv1, t: bv1, u: bv1)
    requires x1 == a1 ^ b1 && x2 == a2 ^ b2 && x3 == a3 ^ b3 && x4 == a4 ^ b4
    requires x5 == a5 ^ b5 && x6 == a6 ^ b6 && x7 == a7 ^ b7
    requires r == Plus7(x1, x2, x3, x4, x5, x6, x7)
    requires t == Plus7(a1, a2, a3, a4, a5, a6, a7) && u == Plus7(b1, b2, b3, b4, b5, b6, b7)
    ensures r == t ^ u
  {
  }

  lemma PairsAddBytes(bit: Reading, j: nat,
                      x1: bv8, x2: bv8, x3: bv8, x4: bv8, x5: bv8, x6: bv8, x7: bv8,
                      a1: bv8, a2: bv8, a3: bv8, a4: bv8, a5: bv8, a6: bv8, a7: bv8,
                      b1: bv8, b2: bv8, b3: bv8, b4: bv8, b5: bv8, b6: bv8, b7: bv8,
                      r: bv8, t: bv8, u: bv8)
    requires bit(x1, j) == Sum2(bit, j, a1, b1)
    requires bit(x2, j) == Sum2(bit, j, a2, b2)
    requires bit(x3, j) == Sum2(bit, j, a3, b3)
    requires bit(x4, j) == Sum2(bit, j, a4, b4)
    requires bit(x5, j) == Sum2(bit, j, a5, b5)
    requires bit(x6, j) == Sum2(bit, j, a6, b6)
    requires bit(x7, j) == Sum2(bit, j, a7, b7)
    requires bit(r, j) == Sum7(bit, j, x1, x2, x3, x4, x5, x6, x7)
    requires bit(t, j) == Sum7(bit, j, a1, a2, a3, a4, a5, a6, a7)
             && bit(u, j) == Sum7(bit, j, b1, b2, b3, b4, b5, b6, b7)
    ensures bit(r, j) == Sum2(bit, j, t, u)
  {
    PairsAdd(bit(x1, j), bit(x2, j), bit(x3, j), bit(x4, j), bit(x5, j), bit(x6, j), bit(x7, j),
             bit(a1, j), bit(a2, j), bit(a3, j), bit(a4, j), bit(a5, j), bit(a6, j), bit(a7, j),
             bit(b1, j), bit(b2, j), bit(b3, j), bit(b4, j), bit(b5, j), bit(b6, j), bit(b7, j),
             bit(r, j), bit(t, j), bit(u, j));
  }

  lemma SumsAdd(bit: Reading, j: nat, r: bv32, t: bv32, u: bv32, x0: bv32, x1: bv32, x2: bv32,
                a0: bv32, a1: bv32, a2: bv32, b0: bv32, b1: bv32, b2: bv32)
    requires ThetaSums(bit, j, r, x0, x1, x2) && ThetaSums(bit, j, t, a0, a1, a2) && ThetaSums(bit, j, u, b0, b1, b2)
    requires AddsWord(bit, j, x0, a0, b0) && AddsWord(bit, j, x1, a1, b1) && AddsWord(bit, j, x2, a2, b2)
    ensures AddsWord(bit, j, r, t, u)
  {
    PairsAddBytes(bit, j, B0(x0), B2(x0), B2(x1), B3(x1), B1(x2), B2(x2), B3(x2),
                  B0(a0), B2(a0), B2(a1), B3(a1), B1(a2), B2(a2), B3(a2),
                  B0(b0), B2(b0), B2(b1), B3(b1), B1(b2), B2(b2), B3(b2),
                  B0(r), B0(t), B0(u));
    PairsAddBytes(bit, j, B1(x0), B3(x0), B3(x1), B0(x2), B2(x2), B3(x2), B0(x0),
                  B1(a0), B3(a0), B3(a1), B0(a2), B2(a2), B3(a2), B0(a0),
                  B1(b0), B3(b0), B3(b1), B0(b2), B2(b2), B3(b2), B0(b0),
                  B1(r), B1(t), B1(u));
    PairsAddBytes(bit, j, B2(x0), B0(x1), B0(x2), B1(x2), B3(x2), B0(x0), B1(x0),
                  B2(a0), B0(a1), B0(a2), B1(a2), B3(a2), B0(a0), B1(a0),
                  B2(b0), B0(b1), B0(b2), B1(b2), B3(b2), B0(b0), B1(b0),
                  B2(r), B2(t), B2(u));
    PairsAddBytes(bit, j, B3(x0), B1(x1), B1(x2), B2(x2), B0(x0), B1(x0), B2(x0),
                  B3(a0), B1(a1), B1(a2), B2(a2), B0(a0), B1(a0), B2(a0),
                  B3(b0), B1(b1), B1(b2), B2(b2), B0(b0), B1(b0), B2(b0),
                  B3(r), B3(t), B3(u));
  }

  lemma SameAdds(bit: Reading, j: nat, x: bv32, y: bv32, a: bv32, b: bv32)
    requires AddsWord(bit, j, x, a, b) && AddsWord(bit, j, y, a, b)
    ensures SameBits(bit, x, y, j)
  {
  }

  lemma ThetaAddsAt(x0: bv32, x1: bv32, x2: bv32, a0: bv32, a1: bv32, a2: bv32, b0: bv32, b1: bv32, b2: bv32,
                    r: bv32, t: bv32, u: bv32, v: bv32, j: nat)
    requires x0 == Add(a0, b0) && x1 == Add(a1, b1) && x2 == Add(a2, b2) && v == Add(t, u)
    requires r == Theta0(x0, x1, x2) && t == Theta0(a0, a1, a2) && u == Theta0(b0, b1, b2)
    ensures SameBits(BitValue, r, v, j)
  {
    XorAddsWord(a0, b0, j);
    XorAddsWord(a1, b1, j);
    XorAddsWord(a2, b2, j);
    XorAddsWord(t, u, j);
    Theta0Sums(x0, x1, x2, j);
    Theta0Sums(a0, a1, a2, j);
    Theta0Sums(b0, b1, b2, j);
    SumsAdd(BitValue, j, r, t, u, x0, x1, x2, a0, a1, a2, b0, b1, b2);
    SameAdds(BitValue, j, r, v, t, u);
  }

  lemma Theta0Adds(a0: bv32, a1: bv32, a2: bv32, b0: bv32, b1: bv32, b2: bv32)
    ensures Theta0(Add(a0, b0), Add(a1, b1), Add(a2, b2)) == Add(Theta0(a0, a1, a2), Theta0(b0, b1, b2))
  {
    SumOfSteps(Add(a0, b0), Add(a1, b1), Add(a2, b2), a0, a1, a2, b0, b1, b2,
               Theta0(Add(a0, b0), Add(a1, b1), Add(a2, b2)), Theta0(a0, a1, a2), Theta0(b0, b1, b2),
               Add(Theta0(a0, a1, a2), Theta0(b0, b1, b2)));
  }

  lemma SumOfSteps(x0: bv32, x1: bv32, x2: bv32, a0: bv32, a1: bv32, a2: bv32, b0: bv32, b1: bv32, b2: bv32,
                   r: bv32, t: bv32, u: bv32, v: bv32)
    requires x0 == Add(a0, b0) && x1 == Add(a1, b1) && x2 == Add(a2, b2) && v == Add(t, u)
    requires r == Theta0(x0, x1, x2) && t == Theta0(a0, a1, a2) && u == Theta0(b0, b1, b2)
    ensures r == v
  {
    forall j: nat | j < 8 ensures SameBits(BitValue, r, v, j) {
      ThetaAddsAt(x0, x1, x2, a0, a1, a2, b0, b1, b2, r, t, u, v, j);
    }
    SameWordBits(r, v);
  }

  // ---- The nonlinear step --------------------------------------------------------------------

  function Gamma0(b0: bv32, b1: bv32, b2: bv32): bv32 {
    b0 ^ (b1 | !b2)
  }

  function Gamma1(b0: bv32, b1: bv32, b2: bv32): bv32 {
    b1 ^ (b2 | !b0)
  }

  function Gamma2(b0: bv32, b1: bv32, b2: bv32): bv32 {
    b2 ^ (b0 | !b1)
  }

  lemma Gamma0Undone(a0: bv32, a1: bv32, a2: bv32)
    ensures Gamma0(Gamma2(a0, a1, a2), Gamma1(a0, a1, a2), Gamma0(a0, a1, a2)) == a2
  {
  }

  lemma Gamma1Undone(a0: bv32, a1: bv32, a2: bv32)
    ensures Gamma1(Gamma2(a0, a1, a2), Gamma1(a0, a1, a2), Gamma0(a0, a1, a2)) == a1
  {
  }

  lemma Gamma2Undone(a0: bv32, a1: bv32, a2: bv32)
    ensures Gamma2(Gamma2(a0, a1, a2), Gamma1(a0, a1, a2), Gamma0(a0, a1, a2)) == a0
  {
  }

  lemma ReverseGamma0(a0: bv32, a1: bv32, a2: bv32)
    ensures Gamma0(Reverse(a0), Reverse(a1), Reverse(a2)) == Reverse(Gamma0(a0, a1, a2))
  {
  }

  lemma ReverseGamma1(a0: bv32, a1: bv32, a2: bv32)
    ensures Gamma1(Reverse(a0), Reverse(a1), Reverse(a2)) == Reverse(Gamma1(a0, a1, a2))
  {
  }

  lemma ReverseGamma2(a0: bv32, a1: bv32, a2: bv32)
    ensures Gamma2(Reverse(a0), Reverse(a1), Reverse(a2)) == Reverse(Gamma2(a0, a1, a2))
  {
  }

  /** Turning, reversing and turning again is reversing. */
  lemma Rotl1Undone(a: bv32)
    ensures Rotl1(Reverse(Rotl1(a))) == Reverse(a)
  {
  }

  lemma Rotl22Undone(a: bv32)
    ensures Rotl22(Reverse(Rotl22(a))) == Reverse(a)
  {
  }

  // ---- On the three words --------------------------------------------------------------------

  /** All 96 bits backwards. */
  function Mu(a: Words): Words {
    Words(Reverse(a.a2), Reverse(a.a1), Reverse(a.a0))
  }

  function Theta(a: Words): Words {
    Words(Theta0(a.a0, a.a1, a.a2), Theta1(a.a0, a.a1, a.a2), Theta2(a.a0, a.a1, a.a2))
  }

  function PiGammaPi(a: Words): Words {
    var b0, b2 := Rotl22(a.a0), Rotl1(a.a2);
    Words(Rotl1(Gamma0(b0, a.a1, b2)), Gamma1(b0, a.a1, b2), Rotl22(Gamma2(b0, a.a1, b2)))
  }

  /** A round key and constant. */
  function AddKey(k: Words, c: bv32, a: Words): Words {
    Words(Add(a.a0, Add(k.a0, c << 16)), Add(a.a1, k.a1), Add(a.a2, Add(k.a2, c)))
  }

  lemma MuTwice(a: Words)
    ensures Mu(Mu(a)) == a
  {
    ReverseTwice(a.a0);
    ReverseTwice(a.a1);
    ReverseTwice(a.a2);
  }

  lemma ThetaConjugate(a: Words)
    ensures Theta(Mu(Theta(a))) == Mu(a)
  {
    var t0, t1, t2 := Theta0(a.a0, a.a1, a.a2), Theta0(a.a1, a.a2, a.a0), Theta0(a.a2, a.a0, a.a1);
    Theta1Turned(a.a0, a.a1, a.a2);
    Theta2Turned(a.a0, a.a1, a.a2);
    Theta1Turned(Reverse(t2), Reverse(t1), Reverse(t0));
    Theta2Turned(Reverse(t2), Reverse(t1), Reverse(t0));
    Theta0Undone(a.a0, a.a1, a.a2, t0, t1, t2);
    Theta0Undone(a.a2, a.a0, a.a1, t2, t0, t1);
    Theta0Undone(a.a1, a.a2, a.a0, t1, t2, t0);
  }

  lemma PiGammaPiConjugate(a: Words)
    ensures PiGammaPi(Mu(PiGammaPi(a))) == Mu(a)
  {
    var b0, b1, b2 := Rotl22(a.a0), a.a1, Rotl1(a.a2);
    var g0, g1, g2 := Gamma0(b0, b1, b2), Gamma1(b0, b1, b2), Gamma2(b0, b1, b2);
    Rotl1Undone(g0);
    Rotl22Undone(g2);
    ReverseGamma0(g2, g1, g0);
    ReverseGamma1(g2, g1, g0);
    ReverseGamma2(g2, g1, g0);
    Gamma0Undone(b0, b1, b2);
    Gamma1Undone(b0, b1, b2);
    Gamma2Undone(b0, b1, b2);
    Rotl1Undone(a.a2);
    Rotl22Undone(a.a0);
  }

  // ---- Round constants and keys --------------------------------------------------------------

  const START_E: bv32 := 0x0b0b
  const START_D: bv32 := 0xb1b1

  function NextConstant(c: bv32): bv32 {
    var d := c << 1;
    if d & 0x10000 != 0 then d ^ 0x11011 else d
  }

  function Constant(start: bv32, i: nat): bv32 {
    if i == 0 then start else NextConstant(Constant(start, i - 1))
  }

  /** Two equal bytes: all round constants are. */
  predicate TwoEqualBytes(c: bv32) {
    c == ((c & 0xff) << 8) | (c & 0xff)
  }

  /** The low 16 bits backwards. */
  function Reverse16(c: bv32): bv32 {
    Reverse(c) >> 16
  }

  lemma NextTwoEqualBytes(c: bv32)
    requires TwoEqualBytes(c)
    ensures TwoEqualBytes(NextConstant(c))
  {
  }

  lemma {:induction false} ConstantTwoEqualBytes(start: bv32, i: nat)
    requires TwoEqualBytes(start)
    ensures TwoEqualBytes(Constant(start, i))
  {
    if i > 0 {
      ConstantTwoEqualBytes(start, i - 1);
      NextTwoEqualBytes(Constant(start, i - 1));
    }
  }

  /** The feedback is the same read backwards. */
  lemma NextBackwards(c: bv32)
    requires TwoEqualBytes(c)
    ensures NextConstant(Reverse16(NextConstant(c))) == Reverse16(c)
  {
  }

  lemma Theta0Constant(c: bv32)
    requires TwoEqualBytes(c)
    ensures Theta0(c << 16, 0, c) == c << 16
  {
  }

  lemma Theta1Constant(c: bv32)
    requires TwoEqualBytes(c)
    ensures Theta0(0, c, c << 16) == 0
  {
  }

  lemma Theta2Constant(c: bv32)
    requires TwoEqualBytes(c)
    ensures Theta0(c, c << 16, 0) == c
  {
  }

  lemma ReverseConstant(c: bv32)
    requires TwoEqualBytes(c)
    ensures Reverse(c << 16) == Reverse16(c) && Reverse(c) == Reverse16(c) << 16
  {
  }

  /** Adding the key before the step is adding the stepped key after it. */
  lemma ThetaAddKey(k: Words, c: bv32, x: Words)
    requires TwoEqualBytes(c)
    ensures Theta(AddKey(k, c, x)) == AddKey(Theta(k), c, Theta(x))
  {
    ThetaTurned(x);
    ThetaTurned(k);
    ThetaTurned(AddKey(k, c, x));
    ThetaKeyWords(k.a0, k.a1, k.a2, c, x.a0, x.a1, x.a2);
  }

  lemma ThetaKeyWords(k0: bv32, k1: bv32, k2: bv32, c: bv32, x0: bv32, x1: bv32, x2: bv32)
    requires TwoEqualBytes(c)
    ensures Theta0(Add(x0, Add(k0, c << 16)), Add(x1, k1), Add(x2, Add(k2, c)))
         == Add(Theta0(x0, x1, x2), Add(Theta0(k0, k1, k2), c << 16))
    ensures Theta0(Add(x1, k1), Add(x2, Add(k2, c)), Add(x0, Add(k0, c << 16)))
         == Add(Theta0(x1, x2, x0), Theta0(k1, k2, k0))
    ensures Theta0(Add(x2, Add(k2, c)), Add(x0, Add(k0, c << 16)), Add(x1, k1))
         == Add(Theta0(x2, x0, x1), Add(Theta0(k2, k0, k1), c))
  {
    Theta0Constant(c);
    Theta1Constant(c);
    Theta2Constant(c);
    AddZero(k1);
    AddZero(Theta0(k1, k2, k0));
    ThetaAddWords(k0, k1, k2, c << 16, 0, c, x0, x1, x2, c << 16);
    ThetaAddWords(k1, k2, k0, 0, c, c << 16, x1, x2, x0, 0);
    ThetaAddWords(k2, k0, k1, c, c << 16, 0, x2, x0, x1, c);
  }

  lemma ThetaAddWords(k0: bv32, k1: bv32, k2: bv32, c0: bv32, c1: bv32, c2: bv32, x0: bv32, x1: bv32, x2: bv32, e: bv32)
    requires Theta0(c0, c1, c2) == e
    ensures Theta0(Add(x0, Add(k0, c0)), Add(x1, Add(k1, c1)), Add(x2, Add(k2, c2)))
         == Add(Theta0(x0, x1, x2), Add(Theta0(k0, k1, k2), e))
  {
    Theta0Adds(x0, x1, x2, Add(k0, c0), Add(k1, c1), Add(k2, c2));
    Theta0Adds(k0, k1, k2, c0, c1, c2);
  }

  lemma AddZero(a: bv32)
    ensures Add(a, 0) == a
  {
  }

  lemma ThetaTurned(a: Words)
    ensures Theta(a) == Words(Theta0(a.a0, a.a1, a.a2), Theta0(a.a1, a.a2, a.a0), Theta0(a.a2, a.a0, a.a1))
  {
    Theta1Turned(a.a0, a.a1, a.a2);
    Theta2Turned(a.a0, a.a1, a.a2);
  }

  lemma MuAddKey(k: Words, c: bv32, x: Words)
    requires TwoEqualBytes(c)
    ensures Mu(AddKey(k, c, x)) == AddKey(Mu(k), Reverse16(c), Mu(x))
  {
    ReverseConstant(c);
    ReverseAdd(x.a0, Add(k.a0, c << 16));
    ReverseAdd(k.a0, c << 16);
    ReverseAdd(x.a1, k.a1);
    ReverseAdd(x.a2, Add(k.a2, c));
    ReverseAdd(k.a2, c);
  }

  lemma AddKeyTwice(k: Words, c: bv32, x: Words)
    ensures AddKey(k, c, AddKey(k, c, x)) == x
  {
    AddTwice(x.a0, Add(k.a0, c << 16));
    AddTwice(x.a1, k.a1);
    AddTwice(x.a2, Add(k.a2, c));
  }

  lemma AddTwice(x: bv32, y: bv32)
    ensures Add(Add(x, y), y) == x
  {
  }

  // ---- The cipher ----------------------------------------------------------------------------

  function Keyed(k: Words, start: bv32): (nat, Words) -> Words {
    (i: nat, a: Words) => AddKey(k, Constant(start, i), a)
  }

  function Encrypted(k: Words, rounds: nat, block: Words): Words {
    Run(Theta, PiGammaPi, Keyed(k, START_E), rounds, 0, block)
  }

  function Decrypted(k: Words, rounds: nat, block: Words): Words {
    Mu(Run(Theta, PiGammaPi, Keyed(k, START_D), rounds, 0, Mu(block)))
  }

  /** The key of the decrypting object. */
  function DecryptionKey(k: Words): Words {
    Mu(Theta(k))
  }

  /** The constant after the last encryption round is the first decryption constant backwards. */
  predicate ConstantsMeet(rounds: nat) {
    Reverse16(Constant(START_E, rounds)) == START_D
  }

  /** From there the two sequences run against each other. */
  lemma {:induction false} ConstantsOpposed(rounds: nat, j: nat)
    requires ConstantsMeet(rounds) && j <= rounds
    ensures Constant(START_D, j) == Reverse16(Constant(START_E, rounds - j))
  {
    if j > 0 {
      ConstantsOpposed(rounds, j - 1);
      ConstantTwoEqualBytes(START_E, rounds - j);
      NextBackwards(Constant(START_E, rounds - j));
    }
  }

  lemma KeyUndone(k: Words, rounds: nat, i: nat, x: Words)
    requires ConstantsMeet(rounds) && i <= rounds
    ensures UndoesKey(Theta, Mu, Keyed(k, START_E), Keyed(DecryptionKey(k), START_D), rounds, i, x)
  {
    var c := Constant(START_E, i);
    ConstantTwoEqualBytes(START_E, i);
    ConstantsOpposed(rounds, rounds - i);
    ThetaAddKey(k, c, x);
    MuAddKey(Theta(k), c, Theta(x));
    AddKeyTwice(DecryptionKey(k), Reverse16(c), Mu(Theta(x)));
  }

  /** Decryption inverts encryption, for every key and block. */
  lemma DecryptEncrypt(k: Words, rounds: nat, block: Words)
    requires ConstantsMeet(rounds)
    ensures Decrypted(DecryptionKey(k), rounds, Encrypted(k, rounds, block)) == block
  {
    var add, back := Keyed(k, START_E), Keyed(DecryptionKey(k), START_D);
    forall x: Words ensures Theta(Mu(Theta(x))) == Mu(x) {
      ThetaConjugate(x);
    }
    forall x: Words ensures PiGammaPi(Mu(PiGammaPi(x))) == Mu(x) {
      PiGammaPiConjugate(x);
    }
    forall x: Words ensures Mu(Mu(x)) == x {
      MuTwice(x);
    }
    forall i: nat, x: Words | i <= rounds ensures UndoesKey(Theta, Mu, add, back, rounds, i, x) {
      KeyUndone(k, rounds, i, x);
    }
    RoundTrip(Theta, PiGammaPi, Mu, add, back, rounds, block);
  }

  /** The encryption constants repeat every twelve rounds. */
  function Cycle(i: nat): bv32 {
    match i
    case 0 => 0x0b0b
    case 1 => 0x1616
    case 2 => 0x2c2c
    case 3 => 0x5858
    case 4 => 0xb0b0
    case 5 => 0x7171
    case 6 => 0xe2e2
    case 7 => 0xd5d5
    case 8 => 0xbbbb
    case 9 => 0x6767
    case 10 => 0xcece
    case _ => 0x8d8d
  }

  lemma NextInCycle(i: nat)
    requires i < 12
    ensures NextConstant(Cycle(i)) == Cycle(if i == 11 then 0 else i + 1)
  {
  }

  lemma {:induction false} ConstantInCycle(n: nat)
    ensures Constant(START_E, n) == Cycle(n % 12)
  {
    if n > 0 {
      hide Cycle, NextConstant;
      ConstantInCycle(n - 1);
      NextInCycle((n - 1) % 12);
      assert n % 12 == if (n - 1) % 12 == 11 then 0 else (n - 1) % 12 + 1;
    }
  }

  lemma OneMeets(i: nat)
    requires i < 12
    ensures Reverse16(Cycle(i)) == START_D <==> i == 11
  {
  }

  /** The default 11 rounds, and every twelfth number after it. */
  lemma MeetingRounds(rounds: nat)
    ensures ConstantsMeet(rounds) <==> rounds % 12 == 11
  {
    ConstantInCycle(rounds);
    OneMeets(rounds % 12);
  }

  // ---- The objects ---------------------------------------------------------------------------

  /** The macro mu: the words swapped, the bits of each byte reversed. */
  function SwapWords(a: Words): Words {
    Words(ReverseBits(a.a2), ReverseBits(a.a1), ReverseBits(a.a0))
  }

  /** Words read or written with the other byte order. */
  function ByteReversed(a: Words): Words {
    Words(ByteReverse(a.a0), ByteReverse(a.a1), ByteReverse(a.a2))
  }

  lemma ReverseParts(a: bv32)
    ensures Reverse(a) == ByteReverse(ReverseBits(a))
  {
  }

  lemma ReversePartsSwapped(a: bv32)
    ensures Reverse(a) == ReverseBits(ByteReverse(a))
  {
  }

  /** With little-endian words at one end, the macro reverses all 96 bits. */
  lemma MuParts(a: Words)
    ensures Mu(a) == ByteReversed(SwapWords(a)) == SwapWords(ByteReversed(a))
  {
    ReverseParts(a.a0);
    ReverseParts(a.a1);
    ReverseParts(a.a2);
    ReversePartsSwapped(a.a0);
    ReversePartsSwapped(a.a1);
    ReversePartsSwapped(a.a2);
  }

  function BigEndianWord(s: Bytes, at: nat): bv32
    requires at + 4 <= |s|
  {
    (s[at + 3] as bv32) | (s[at + 2] as bv32 << 8) | (s[at + 1] as bv32 << 16) | (s[at] as bv32 << 24)
  }

  function KeyWords(userKey: Bytes): Words
    requires |userKey| == 12
  {
    Words(BigEndianWord(userKey, 0), BigEndianWord(userKey, 4), BigEndianWord(userKey, 8))
  }

  /** An encrypting or a decrypting object. Blocks are given as three big-endian words. */
  class ThreeWay {
    const forward: bool
    var rounds: nat
    var k: Words

    constructor (forward: bool)
      ensures this.forward == forward
    {
      this.forward, rounds, k := forward, 11, Words(0, 0, 0);
    }

    /** Fails, and changes nothing, on a round count below one. */
    method UncheckedSetKey(userKey: Bytes, rounds: nat) returns (ok: bool)
      requires |userKey| == 12
      modifies this
      ensures ok == (rounds >= 1)
      ensures !ok ==> unchanged(this)
      ensures ok ==> this.rounds == rounds
      ensures ok ==> k == if forward then KeyWords(userKey) else DecryptionKey(KeyWords(userKey))
    {
      if rounds < 1 {
        return false;
      }
      this.rounds := rounds;
      k := KeyWords(userKey);
      if !forward {
        k := Theta(k);
        MuParts(k);
        k := SwapWords(k);
        k := ByteReversed(k);
      }
      ok := true;
    }

    method RunRounds(start: bv32, block: Words) returns (a: Words)
      ensures a == Run(Theta, PiGammaPi, Keyed(k, start), rounds, 0, block)
    {
      a := block;
      var rc, i := start, 0;
      while i < rounds
        invariant 0 <= i <= rounds && rc == Constant(start, i)
        invariant Run(Theta, PiGammaPi, Keyed(k, start), rounds, i, a)
               == Run(Theta, PiGammaPi, Keyed(k, start), rounds, 0, block)
      {
        a := AddKey(k, rc, a);
        a := Theta(a);
        a := PiGammaPi(a);
        rc := NextConstant(rc);
        i := i + 1;
      }
      a := AddKey(k, rc, a);
      a := Theta(a);
    }

    method EncryptBlock(block: Words) returns (out: Words)
      ensures out == Encrypted(k, rounds, block)
    {
      out := RunRounds(START_E, block);
    }

    /** Reads and writes little-endian words. */
    method DecryptBlock(block: Words) returns (out: Words)
      ensures out == Decrypted(k, rounds, block)
    {
      MuParts(block);
      var a := RunRounds(START_D, SwapWords(ByteReversed(block)));
      MuParts(a);
      out := ByteReversed(SwapWords(a));
    }
  }

  /** Both objects under one key, with the default or any other good number of rounds. */
  method EncryptThenDecrypt(userKey: Bytes, rounds: nat, block: Words) returns (out: Words)
    requires |userKey| == 12 && rounds >= 1
    ensures rounds % 12 == 11 ==> out == block
  {
    var encryption := new ThreeWay(true);
    var decryption := new ThreeWay(false);
    var ok := encryption.UncheckedSetKey(userKey, rounds);
    ok := decryption.UncheckedSetKey(userKey, rounds);
    var sealed := encryption.EncryptBlock(block);
    out := decryption.DecryptBlock(sealed);
    if rounds % 12 == 11 {
      MeetingRounds(rounds);
      DecryptEncrypt(KeyWords(userKey), rounds, block);
    }
  }
}
