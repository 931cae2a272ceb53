/** The Blum Blum Shub generator, and its jump to any position of its own output. */
module BlumBlumShubs {
  import opened Bits
  import opened QuotientRings
  import opened NumberTheory

  function PowMod(x: int, e: nat, m: int): (r: nat)
    requires m > 0
  {
    Pow(x, e) % m
  }

  // ---- Reducing an exponent -------------------------------------------------------------

  lemma PowOfMultiple(x: int, p: int, e: nat)
    requires Divides(p, x) && e > 0
    ensures Divides(p, Pow(x, e))
  {
    var k :| x == p * k;
    assert Pow(x, e) == p * (k * Pow(x, e - 1));
  }

  /** Modulo a prime, multiples of `p - 1` in the exponent vanish, unless `x` vanishes and
      nothing of the exponent is left. */
  lemma ReduceModPrime(x: int, p: int, t: nat, r: nat)
    requires Prime(p)
    ensures (p - 1) * t + r >= 0
    ensures (p - 1) * t + r > 0 ==>
              (Congruent(Pow(x, (p - 1) * t + r), Pow(x, r), p) <==> !Divides(p, x) || r > 0)
  {
    var f := (p - 1) * t;
    MulMonotone(0, t, p - 1);
    if !Divides(p, x) {
      Fermat(x, p);
      PowPow(x, p - 1, t);
      CongruentPow(Pow(x, p - 1), 1, t, p);
      PowOfOne(t);
      PowSum(x, f, r);
      assert 0 == p * 0;
      CongruentProduct(Pow(x, f), 1, Pow(x, r), Pow(x, r), p);
    } else if f + r > 0 {
      PowOfMultiple(x, p, f + r);
      if r > 0 {
        PowOfMultiple(x, p, r);
        DividesSum(p, Pow(x, f + r), Pow(x, r), -1);
      } else if Congruent(Pow(x, f + r), 1, p) {
        DividesSum(p, Pow(x, f + r), Pow(x, f + r) - 1, -1);
        DividesOne(p);
      }
    }
  }

  lemma Regroup(p: int, q: int, k: int)
    ensures p * q * k == p * (q * k) && p * q * k == q * (p * k)
  {
  }

  lemma DividesProduct(p: int, q: int, z: int)
    requires Prime(p) && Prime(q) && p != q
    ensures Divides(p * q, z) <==> Divides(p, z) && Divides(q, z)
  {
    if Divides(p * q, z) {
      var k :| z == p * q * k;
      Regroup(p, q, k);
    }
    if Divides(p, z) && Divides(q, z) {
      var k :| z == p * k;
      assert !Divides(q, p);
      PrimeDividesFactor(q, p, k);
      var j :| k == q * j;
      Regroup(p, q, j);
      assert z == p * q * j;
    }
  }

  /** An exponent and its remainder differ by a multiple of either factor. */
  lemma SplitExponent(e: nat, a: nat, b: nat)
    requires a * b > 0
    ensures var t, r := e / (a * b), e % (a * b);
            b * t >= 0 && a * t >= 0 && e == a * (b * t) + r && e == b * (a * t) + r
  {
    var t := e / (a * b);
    EuclideanDivision(e, a * b);
    assert t * (a * b) == a * (b * t) && t * (a * b) == b * (a * t);
    MulMonotone(0, t, b);
    MulMonotone(0, t, a);
  }

  /** Modulo a product of two distinct primes, the exponent may be reduced modulo
      `(p-1)(q-1)` exactly when the reduced exponent is not zero or the base is coprime to
      both primes. */
  lemma ReduceExponent(x: int, p: int, q: int, e: nat)
    requires Prime(p) && Prime(q) && p != q && e > 0
    ensures (p - 1) * (q - 1) > 0
    ensures var r := e % ((p - 1) * (q - 1));
            Congruent(Pow(x, e), Pow(x, r), p * q) <==> (!Divides(p, x) && !Divides(q, x)) || r > 0
  {
    MulMonotone(1, p - 1, q - 1);
    var phi := (p - 1) * (q - 1);
    var t, r := e / phi, e % phi;
    SplitExponent(e, p - 1, q - 1);
    ReduceModPrime(x, p, (q - 1) * t, r);
    ReduceModPrime(x, q, (p - 1) * t, r);
    DividesProduct(p, q, Pow(x, e) - Pow(x, r));
  }

  // ---- The output, as one infinite stream ----------------------------------------------

  /** The state behind the `k`-th group of output bits: `x0` squared `k + 1` times. */
  function Word(x0: int, n: int, k: nat): nat
    requires n > 0
  {
    PowMod(x0, Pow2(k + 1), n)
  }

  lemma WordSquared(x0: int, n: int, k: nat)
    requires n > 0
    ensures Word(x0, n, k) * Word(x0, n, k) % n == Word(x0, n, k + 1)
  {
    var y := Pow(x0, Pow2(k + 1));
    RemainderCongruent(y, n);
    CongruentProduct(y % n, y, y % n, y, n);
    PowSum(x0, Pow2(k + 1), Pow2(k + 1));
    assert Pow2(k + 2) == Pow2(k + 1) + Pow2(k + 1);
    SameRemainder(y % n * (y % n), y * y, n);
  }

  /** Bit `j` of the output: each state gives its low `maxBits` bits, highest first. */
  function StreamBit(x0: int, n: int, maxBits: nat, j: nat): nat
    requires n > 0 && maxBits > 0
  {
    GetBit(Word(x0, n, j / maxBits), maxBits - 1 - j % maxBits)
  }

  /** The number whose `count` bits are the output bits from `j` on. */
  function StreamBits(x0: int, n: int, maxBits: nat, j: nat, count: nat): nat
    requires n > 0 && maxBits > 0
  {
    if count == 0 then 0
    else 2 * StreamBits(x0, n, maxBits, j, count - 1) + StreamBit(x0, n, maxBits, j + count - 1)
  }

  /** `size` output bytes starting at bit `j`. */
  function StreamBytes(x0: int, n: int, maxBits: nat, j: nat, size: nat): seq<nat>
    requires n > 0 && maxBits > 0
  {
    seq<nat>(size, i requires 0 <= i => StreamBits(x0, n, maxBits, j + 8 * i, 8))
  }

  /** Reading on from a position gives what reading through it would have given. */
  lemma StreamBytesSplit(x0: int, n: int, maxBits: nat, j: nat, skip: nat, size: nat)
    requires n > 0 && maxBits > 0
    ensures StreamBytes(x0, n, maxBits, j, skip + size)
         == StreamBytes(x0, n, maxBits, j, skip) + StreamBytes(x0, n, maxBits, j + 8 * skip, size)
  {
    var whole, tail := StreamBytes(x0, n, maxBits, j, skip + size), StreamBytes(x0, n, maxBits, j + 8 * skip, size);
    forall i | 0 <= i < size ensures whole[skip + i] == tail[i] {
      assert j + 8 * (skip + i) == j + 8 * skip + 8 * i;
    }
  }

  /** Whether the exponent `2^(k+1)` may be reduced modulo `(p-1)(q-1)` for the base `x0`. */
  ghost predicate ReductionIsSafe(x0: int, p: int, q: int, k: nat)
    requires (p - 1) * (q - 1) > 0
  {
    (!Divides(p, x0) && !Divides(q, x0)) || PowMod(2, k + 1, (p - 1) * (q - 1)) > 0
  }

  lemma {:induction false} Pow2IsPow(n: nat)
    ensures Pow2(n) == Pow(2, n)
  {
    if n > 0 {
      Pow2IsPow(n - 1);
    }
  }

  /** The reduced exponent leads to the same state exactly when the reduction is safe. */
  lemma JumpReachesWord(x0: int, p: int, q: int, k: nat)
    requires Prime(p) && Prime(q) && p != q
    ensures (p - 1) * (q - 1) > 0 && p * q > 0
    ensures PowMod(2, k + 1, (p - 1) * (q - 1)) >= 0
    ensures PowMod(x0, PowMod(2, k + 1, (p - 1) * (q - 1)), p * q) == Word(x0, p * q, k)
       <==> ReductionIsSafe(x0, p, q, k)
  {
    MulMonotone(2, p, q);
    var n, e := p * q, Pow2(k + 1);
    ReduceExponent(x0, p, q, e);
    Pow2IsPow(k + 1);
    var r := e % ((p - 1) * (q - 1));
    if Congruent(Pow(x0, e), Pow(x0, r), n) {
      SameRemainder(Pow(x0, e), Pow(x0, r), n);
    }
    if Pow(x0, e) % n == Pow(x0, r) % n {
      RemainderCongruent(Pow(x0, e), n);
      RemainderCongruent(Pow(x0, r), n);
      CongruentTransitive(Pow(x0, e), Pow(x0, r) % n, Pow(x0, r), n);
    }
  }

  /** An odd multiplier keeps the parity. */
  lemma OddTimes(d: int, j: int)
    requires d % 2 == 1
    ensures d * j == 2 * (d / 2 * j) + j
    ensures j % 2 == 0 ==> d * j == 2 * (d * (j / 2))
  {
    var h, i := d / 2, j / 2;
    assert d == 2 * h + 1;
    Distribute(h, j);
    if j % 2 == 0 {
      assert j == i + i;
      assert d * (i + i) == d * i + d * i;
    }
  }

  lemma Distribute(h: int, j: int)
    ensures (2 * h + 1) * j == 2 * (h * j) + j
  {
  }

  lemma HalfMultiple(d: int, j: int, e: int)
    requires d % 2 == 1 && 2 * e == d * j
    ensures Divides(d, e)
  {
    OddTimes(d, j);
    assert e == d * (j / 2);
  }

  lemma {:induction false} OddDividesNoPower(d: int, k: nat)
    requires d > 1 && d % 2 == 1
    ensures !Divides(d, Pow2(k))
  {
    if Divides(d, Pow2(k)) {
      var j :| Pow2(k) == d * j;
      if k == 0 {
        DividesOne(d);
      } else {
        HalfMultiple(d, j, Pow2(k - 1));
        OddDividesNoPower(d, k - 1);
      }
    }
  }

  /** For the primes the generator asks for, 3 modulo 4, every jump is safe, whatever the seed. */
  lemma BlumPrimesAreSafe(x0: int, p: int, q: int, k: nat)
    requires Prime(p) && Prime(q) && p != q && p % 4 == 3 && q % 4 == 3
    ensures (p - 1) * (q - 1) > 0 && ReductionIsSafe(x0, p, q, k)
  {
    MulMonotone(1, p - 1, q - 1);
    Pow2IsPow(k + 1);
    if PowMod(2, k + 1, (p - 1) * (q - 1)) == 0 {
      HalvesDivide(Pow2(k + 1), p - 1, q - 1);
      OddHalf(p);
      OddHalf(q);
      if (p - 1) / 2 > 1 {
        OddDividesNoPower((p - 1) / 2, k + 1);
      } else {
        OddDividesNoPower((q - 1) / 2, k + 1);
      }
    }
  }

  lemma OddHalf(p: int)
    requires p > 2 && p % 4 == 3
    ensures (p - 1) / 2 % 2 == 1 && ((p - 1) / 2 == 1 <==> p == 3)
  {
  }

  lemma HalvesDivide(x: int, a: int, b: int)
    requires a % 2 == 0 && b % 2 == 0 && a * b > 0 && x % (a * b) == 0
    ensures Divides(a / 2, x) && Divides(b / 2, x)
  {
    EuclideanDivision(x, a * b);
    var j := x / (a * b);
    Regroup(a, b, j);
    assert x == a / 2 * (2 * (b * j)) by { assert a == 2 * (a / 2); }
    assert x == b / 2 * (2 * (a * j)) by { assert b == 2 * (b / 2); }
  }

  // ---- The output, bit by bit ------------------------------------------------------------

  /** The number `n` has `length` bits. */
  predicate HasBits(n: nat, length: nat) {
    length > 0 && Pow2(length - 1) <= n < Pow2(length)
  }

  /** Each state gives `bits` bits: the logarithm of the bit length of the modulus, rounded down. */
  ghost predicate BitsOfState(n: nat, bits: nat) {
    exists length: nat :: HasBits(n, length) && Pow2(bits) <= length < Pow2(bits + 1)
  }

  lemma BitCountIs(n: nat)
    requires n > 0
    ensures HasBits(n, BitCount(n))
  {
    var k := BitCount(n) - 1;
    BitCountBounds(n);
    SplitAt(n, k);
    ShlOne(k);
  }

  lemma BitsOfStateAre(n: nat)
    requires n > 1
    ensures BitCount(BitCount(n)) > 1 && BitsOfState(n, BitCount(BitCount(n)) - 1)
  {
    ModulusHasBits(n);
    BitCountIs(n);
    BitCountIs(BitCount(n));
  }

  lemma OneBitLength(n: nat, a: nat, b: nat)
    requires HasBits(n, a) && HasBits(n, b)
    ensures a == b
  {
    if a < b {
      PowMonotone(a, b - 1);
    } else if b < a {
      PowMonotone(b, a - 1);
    }
  }

  /** There is only one such number. */
  lemma OneBitsOfState(n: nat, a: nat, b: nat)
    requires BitsOfState(n, a) && BitsOfState(n, b)
    ensures a == b
  {
    var k: nat :| HasBits(n, k) && Pow2(a) <= k < Pow2(a + 1);
    var l: nat :| HasBits(n, l) && Pow2(b) <= l < Pow2(b + 1);
    OneBitLength(n, k, l);
    OneBitLength(k, a + 1, b + 1);
  }

  /** Bit `j` of the bytes, and of the states: the seed squared twice, and once more for each state that is
      used up. */
  ghost predicate BitIs(p: int, q: int, seed: int, bits: nat, from: nat, output: seq<nat>, j: nat)
    requires p * q > 0 && bits > 0 && j < 8 * |output|
  {
    var at := from + j;
    output[j / 8] / Pow2(7 - j % 8) % 2
    == Pow(seed, Pow2(at / bits + 2)) % (p * q) / Pow2(bits - 1 - at % bits) % 2
  }

  /** The bytes are the output of the generator from bit `from` on. */
  ghost predicate Generated(p: int, q: int, seed: int, bits: nat, from: nat, output: seq<nat>)
    requires p * q > 0 && bits > 0
  {
    && (forall i: nat :: i < |output| ==> output[i] < 256)
    && forall j: nat :: j < 8 * |output| ==> BitIs(p, q, seed, bits, from, output, j)
  }

  lemma WordFromSeed(seed: int, n: int, k: nat)
    requires n > 0
    ensures Word(seed * seed % n, n, k) == Pow(seed, Pow2(k + 2)) % n
  {
    var s, e := seed * seed, Pow2(k + 1);
    RemainderCongruent(s, n);
    CongruentPow(s % n, s, e, n);
    SameRemainder(Pow(s % n, e), Pow(s, e), n);
    assert Pow(seed, 2) == seed * Pow(seed, 1) && Pow(seed, 1) == seed;
    PowPow(seed, 2, e);
  }

  lemma {:induction false} StreamBitsAre(x0: int, n: int, maxBits: nat, j: nat, count: nat, t: nat)
    requires n > 0 && maxBits > 0 && t < count
    ensures GetBit(StreamBits(x0, n, maxBits, j, count), count - 1 - t) == StreamBit(x0, n, maxBits, j + t)
    decreases count
  {
    var front, last := StreamBits(x0, n, maxBits, j, count - 1), StreamBit(x0, n, maxBits, j + count - 1);
    assert (2 * front + last) / 2 == front;
    if t < count - 1 {
      StreamBitsAre(x0, n, maxBits, j, count - 1, t);
    }
  }

  lemma {:induction false} StreamBitsBelow(x0: int, n: int, maxBits: nat, j: nat, count: nat)
    requires n > 0 && maxBits > 0
    ensures StreamBits(x0, n, maxBits, j, count) < Pow2(count)
  {
    if count > 0 {
      StreamBitsBelow(x0, n, maxBits, j, count - 1);
    }
  }

  lemma PlainBit(x: nat, k: nat)
    ensures GetBit(x, k) == x / Pow2(k) % 2
  {
    ShiftsAreDivision(x, k);
  }

  lemma WordBit(seed: int, n: int, bits: nat, at: nat)
    requires n > 0 && bits > 0
    ensures StreamBit(seed * seed % n, n, bits, at)
         == Pow(seed, Pow2(at / bits + 2)) % n / Pow2(bits - 1 - at % bits) % 2
  {
    hide Word, Pow2, Pow, GetBit;
    WordFromSeed(seed, n, at / bits);
    PlainBit(Word(seed * seed % n, n, at / bits), bits - 1 - at % bits);
  }

  lemma StreamBitIs(p: int, q: int, seed: int, bits: nat, from: nat, output: seq<nat>, j: nat)
    requires p * q > 0 && bits > 0 && j < 8 * |output|
    requires output[j / 8] == StreamBits(seed * seed % (p * q), p * q, bits, from + 8 * (j / 8), 8)
    ensures BitIs(p, q, seed, bits, from, output, j)
  {
    hide Word, StreamBits, StreamBit, Pow2, Pow, GetBit;
    StreamBitsAre(seed * seed % (p * q), p * q, bits, from + 8 * (j / 8), 8, j % 8);
    assert from + 8 * (j / 8) + j % 8 == from + j;
    WordBit(seed, p * q, bits, from + j);
    PlainBit(output[j / 8], 7 - j % 8);
  }

  lemma StreamIsGenerated(p: int, q: int, seed: int, bits: nat, from: nat, size: nat)
    requires p * q > 0 && bits > 0
    ensures Generated(p, q, seed, bits, from, StreamBytes(seed * seed % (p * q), p * q, bits, from, size))
  {
    hide Word, StreamBits, BitIs;
    var x0, n := seed * seed % (p * q), p * q;
    var output := StreamBytes(x0, n, bits, from, size);
    forall i: nat | i < size ensures output[i] < 256 {
      StreamBitsBelow(x0, n, bits, from + 8 * i, 8);
      assert Pow2(8) == 2 * Pow2(7) && Pow2(7) == 2 * Pow2(6) && Pow2(6) == 2 * Pow2(5) && Pow2(5) == 2 * Pow2(4);
    }
    forall j: nat | j < 8 * size ensures BitIs(p, q, seed, bits, from, output, j) {
      StreamBitIs(p, q, seed, bits, from, output, j);
    }
  }

  // ---- The generator -------------------------------------------------------------------

  class BlumBlumShub {
    const n: int
    const p: int
    const q: int
    const x0: int
    const maxBits: nat
    var current: nat
    var bitsLeft: nat
    ghost var word: nat

    ghost predicate Valid()
      reads this
    {
      && n == p * q > 0
      && maxBits > 0 && bitsLeft <= maxBits
      && current == Word(x0, n, word)
    }

    /** The number of the next output bit. A used-up state stands for the start of the next. */
    ghost function Position(): int
      reads this
    {
      word * maxBits + maxBits - bitsLeft
    }

    constructor (p: int, q: int, seed: int)
      requires p * q > 1
      ensures Valid() && Position() == 0
      ensures this.p == p && this.q == q && x0 == seed * seed % (p * q)
      ensures BitsOfState(p * q, maxBits)
      ensures Prime(p) && Prime(q) ==> (Divides(p, x0) <==> Divides(p, seed)) && (Divides(q, x0) <==> Divides(q, seed))
    {
      ModulusHasBits(p * q);
      BitsOfStateAre(p * q);
      FirstWord(seed * seed % (p * q), p * q);
      if Prime(p) && Prime(q) {
        SeedKeepsPrimes(p, q, seed);
      }
      this.p, this.q := p, q;
      var m := p * q;
      var square := seed * seed % m;
      n := m;
      x0 := square;
      current := square * square % m;
      var bits := BitCount(BitCount(m)) - 1;
      maxBits, bitsLeft := bits, bits;
      word := 0;
    }

    /** The next bit of the stream. */
    method GenerateBit() returns (bit: nat)
      requires Valid()
      modifies this
      ensures Valid() && Position() == old(Position()) + 1
      ensures 0 <= old(Position()) && bit == StreamBit(x0, n, maxBits, old(Position()))
    {
      if bitsLeft == 0 {
        WordSquared(x0, n, word);
        current := current * current % n;
        bitsLeft := maxBits;
        word := word + 1;
      }
      Unquotient(Position(), maxBits, word, maxBits - bitsLeft);
      bitsLeft := bitsLeft - 1;
      bit := GetBit(current, bitsLeft);
    }

    /** The next eight bits, first bit highest. */
    method GenerateByte() returns (b: nat)
      requires Valid()
      modifies this
      ensures Valid() && Position() == old(Position()) + 8
      ensures 0 <= old(Position()) && b == StreamBits(x0, n, maxBits, old(Position()), 8)
    {
      b := 0;
      ghost var start := Position();
      for i := 0 to 8
        invariant Valid() && Position() == start + i && start >= 0
        invariant b == StreamBits(x0, n, maxBits, start, i)
      {
        var bit := GenerateBit();
        b := 2 * b + bit;
      }
    }

    /** The next `size` bytes of the stream. */
    method GenerateBlock(size: nat) returns (output: seq<nat>)
      requires Valid()
      modifies this
      ensures Valid() && Position() == old(Position()) + 8 * size
      ensures 0 <= old(Position()) && output == StreamBytes(x0, n, maxBits, old(Position()), size)
    {
      ghost var start := Position();
      MulMonotone(0, word, maxBits);
      output := [];
      for i := 0 to size
        invariant Valid() && Position() == start + 8 * i && start >= 0
        invariant output == StreamBytes(x0, n, maxBits, start, i)
      {
        var b := GenerateByte();
        output := output + [b];
      }
    }

    /** Jumps to byte `index` of the output: whenever the reduction of the exponent is safe,
        the state is one that continues the stream from there. */
    method Seek(index: nat)
      requires Valid() && (p - 1) * (q - 1) > 0
      modifies this
      ensures current == PowMod(x0, PowMod(2, 8 * index / maxBits + 1, (p - 1) * (q - 1)), n)
      ensures bitsLeft == maxBits - 8 * index % maxBits && word == 8 * index / maxBits
      ensures Prime(p) && Prime(q) && p != q ==>
                (ReductionIsSafe(x0, p, q, 8 * index / maxBits) <==> current == Word(x0, n, 8 * index / maxBits))
      ensures Prime(p) && Prime(q) && p != q && ReductionIsSafe(x0, p, q, 8 * index / maxBits) ==>
                Valid() && Position() == 8 * index
    {
      var i := 8 * index;
      if Prime(p) && Prime(q) && p != q {
        JumpReachesWord(x0, p, q, i / maxBits);
      }
      var e := PowMod(2, i / maxBits + 1, (p - 1) * (q - 1));
      current := PowMod(x0, e, n);
      bitsLeft := maxBits - i % maxBits;
      word := i / maxBits;
      EuclideanDivision(i, maxBits);
    }

    /** Seeking and then generating gives the bytes that follow the skipped ones in the
        sequential output. */
    method SeekThenGenerate(index: nat, size: nat) returns (output: seq<nat>)
      requires Valid() && Prime(p) && Prime(q) && p != q
      requires (p - 1) * (q - 1) > 0 && ReductionIsSafe(x0, p, q, 8 * index / maxBits)
      modifies this
      ensures Valid() && Position() == 8 * (index + size)
      ensures StreamBytes(x0, n, maxBits, 0, index + size) == StreamBytes(x0, n, maxBits, 0, index) + output
    {
      Seek(index);
      output := GenerateBlock(size);
      StreamBytesSplit(x0, n, maxBits, 0, index, size);
    }
  }

  lemma AtLeastTwoBits(m: nat)
    requires m >= 2
    ensures BitCount(m) >= 2
  {
    assert BitCount(m) == 1 + BitCount(m / 2);
    assert BitCount(m / 2) == 1 + BitCount(m / 2 / 2);
  }

  lemma ModulusHasBits(m: nat)
    requires m > 1
    ensures BitCount(BitCount(m)) > 1
  {
    AtLeastTwoBits(m);
    AtLeastTwoBits(BitCount(m));
  }

  /** A square has the same prime divisors, also after reduction. */
  lemma SquareKeepsPrime(p: int, m: int, n: int, seed: int)
    requires Prime(p) && n == p * m > 0
    ensures Divides(p, seed * seed % n) <==> Divides(p, seed)
  {
    var s := seed * seed;
    EuclideanDivision(s, n);
    Regroup(p, m, s / n);
    if Divides(p, seed) {
      PowOfMultiple(seed, p, 2);
      assert Pow(seed, 2) == seed * Pow(seed, 1) && Pow(seed, 1) == seed;
      DividesSum(p, s, s / n * n, -1);
    }
    if Divides(p, s % n) {
      DividesSum(p, s % n, s / n * n, 1);
      PrimeDividesFactor(p, seed, seed);
    }
  }

  lemma FirstWord(x0: nat, n: nat)
    requires n > 0
    ensures x0 * x0 % n == Word(x0, n, 0)
  {
    assert Pow2(1) == 2 && Pow(x0, 2) == x0 * Pow(x0, 1) && Pow(x0, 1) == x0;
  }

  lemma SeedKeepsPrimes(p: int, q: int, seed: int)
    requires Prime(p) && Prime(q) && p * q > 0
    ensures var x0 := seed * seed % (p * q);
            (Divides(p, x0) <==> Divides(p, seed)) && (Divides(q, x0) <==> Divides(q, seed))
  {
    SquareKeepsPrime(p, q, p * q, seed);
    assert p * q == q * p;
    SquareKeepsPrime(q, p, p * q, seed);
  }

  /** A jump that goes wrong: with the primes 3 and 5 and the seed 3 each state gives two bits, byte
      1 lies in word 4, and the reduced exponent is zero, which leads to the state 1. */
  lemma SeekMisses()
    ensures 3 * 3 % 15 == 9 && BitCount(BitCount(15)) - 1 == 2 && 8 * 1 / 2 == 4
    ensures !ReductionIsSafe(9, 3, 5, 4)
    ensures PowMod(9, PowMod(2, 4 + 1, (3 - 1) * (5 - 1)), 15) != Word(9, 15, 4)
  {
    assert 9 == 3 * 3 && Divides(3, 9);
    assert Pow(2, 5) == 2 * Pow(2, 4) && Pow(2, 4) == 2 * Pow(2, 3) && Pow(2, 3) == 2 * Pow(2, 2);
    assert Pow(2, 2) == 2 * Pow(2, 1) && Pow(2, 1) == 2;
    assert Pow(9, 0) == 1;
    FirstWord(9, 15);
    WordSquared(9, 15, 0);
    WordSquared(9, 15, 1);
    WordSquared(9, 15, 2);
    WordSquared(9, 15, 3);
    assert BitCount(15) == 1 + BitCount(7) && BitCount(7) == 1 + BitCount(3) && BitCount(3) == 2;
    assert BitCount(4) == 1 + BitCount(2) && BitCount(2) == 2;
  }

  /** A whole run: the first bytes of a new generator. */
  method Generate(p: int, q: int, seed: int, size: nat) returns (output: seq<nat>, ghost bits: nat)
    requires p * q > 1
    ensures BitsOfState(p * q, bits) && bits > 0
    ensures |output| == size && Generated(p, q, seed, bits, 0, output)
  {
    var g := new BlumBlumShub(p, q, seed);
    bits := g.maxBits;
    output := g.GenerateBlock(size);
    StreamIsGenerated(p, q, seed, bits, 0, size);
  }

  /** A whole run with a jump: for different primes that are 3 modulo 4, the bytes are those of the run without
      the jump, from byte `index` on. */
  method SeekAndGenerate(p: int, q: int, seed: int, index: nat, size: nat)
    returns (output: seq<nat>, ghost bits: nat)
    requires Prime(p) && Prime(q) && p != q && p % 4 == 3 && q % 4 == 3
    ensures p * q > 1 && BitsOfState(p * q, bits) && bits > 0
    ensures |output| == size && Generated(p, q, seed, bits, 8 * index, output)
  {
    MulMonotone(2, p, q);
    var g := new BlumBlumShub(p, q, seed);
    bits := g.maxBits;
    BlumPrimesAreSafe(g.x0, p, q, 8 * index / bits);
    g.Seek(index);
    output := g.GenerateBlock(size);
    StreamIsGenerated(p, q, seed, bits, 8 * index, size);
  }
}
