/** CHAM on the vectors of its authors, and what its words and turns are as numbers and bits. */
module ChamVectors {
  import opened Bits
  import opened ChamCiphers
  import opened ChamRounds
  import opened RoundSequences
  import Words = MachineWords

  // ---- Words and turns -------------------------------------------------------------------

  /** The constant of a round is its number, cut to the word. */
  lemma RoundNumber16(n: nat)
    ensures Word16(n) as nat == n % 0x1_0000
  {
    Words.Number16(n % 0x1_0000);
  }

  lemma RoundNumber32(n: nat)
    ensures Word32(n) as nat == n % 0x1_0000_0000
  {
    Words.Number(n % 0x1_0000_0000);
  }

  lemma SmallNumber16(i: nat)
    requires i < 0x1_0000
    ensures Word16(i) == Words.Word16(i)
  {
    assert i % 0x1_0000 == i;
  }

  lemma NextNumber16(i: nat)
    requires i + 1 < 0x1_0000
    ensures Word16(i + 1) == Word16(i) + 1
  {
    hide Word16, Words.Word16;
    SmallNumber16(i);
    SmallNumber16(i + 1);
    Words.Successor16(i);
  }

  lemma SmallNumber32(i: nat)
    requires i < 0x1_0000_0000
    ensures Word32(i) == Words.Word(i)
  {
    assert i % 0x1_0000_0000 == i;
  }

  lemma NextNumber32(i: nat)
    requires i + 1 < 0x1_0000_0000
    ensures Word32(i + 1) == Word32(i) + 1
  {
    hide Word32, Words.Word;
    SmallNumber32(i);
    SmallNumber32(i + 1);
    Words.NextWord(i);
  }

  predicate Bit16(a: bv16, j: bv4) {
    (a >> j) & 1 == 1
  }

  predicate Bit32(a: bv32, j: bv5) {
    (a >> j) & 1 == 1
  }

  /** Turning moves each bit up; bit numbers wrap around. */
  lemma TurnByOneOf16(a: bv16, j: bv4)
    ensures Bit16(RotateLeft16(true, a), j) == Bit16(a, j - 1)
  {
  }

  lemma TurnByEightOf16(a: bv16, j: bv4)
    ensures Bit16(RotateLeft16(false, a), j) == Bit16(a, j - 8)
  {
  }

  lemma TurnByElevenOf16(a: bv16, j: bv4)
    ensures Bit16(RotateEleven16(a), j) == Bit16(a, j - 11)
  {
  }

  lemma TurnByOneOf32(a: bv32, j: bv5)
    ensures Bit32(RotateLeft32(true, a), j) == Bit32(a, j - 1)
  {
  }

  lemma TurnByEightOf32(a: bv32, j: bv5)
    ensures Bit32(RotateLeft32(false, a), j) == Bit32(a, j - 8)
  {
  }

  lemma TurnByElevenOf32(a: bv32, j: bv5)
    ensures Bit32(RotateEleven32(a), j) == Bit32(a, j - 11)
  {
  }

  /** Eleven is eight and three times one. */
  lemma ElevenOf16(a: bv16)
    ensures RotateEleven16(a) == RotateLeft16(true, RotateLeft16(true, RotateLeft16(true, RotateLeft16(false, a))))
  {
  }

  lemma ElevenOf32(a: bv32)
    ensures RotateEleven32(a) == RotateLeft32(true, RotateLeft32(true, RotateLeft32(true, RotateLeft32(false, a))))
  {
  }

  /** Eight rounds take eight neighbours of a table of eight or sixteen words. */
  lemma KeyPlace(i: nat, size: nat, t: nat)
    requires size in {8, 16} && i % 8 == 0 && t < 8
    ensures i % size + 7 < size && (i + t) % size == i % size + t && (i + t) % 2 == t % 2
  {
    var m := i / 8;
    assert i == 8 * m;
    Unquotient(i + t, 2, 4 * m + t / 2, t % 2);
    if size == 8 {
      Unquotient(i + t, 8, m, t);
    } else {
      PlaceOf16(i, m, t);
    }
  }

  lemma PlaceOf16(i: nat, m: nat, t: nat)
    requires i == 8 * m && t < 8
    ensures i % 16 <= 8 && (i + t) % 16 == i % 16 + t
  {
    var h, odd := m / 2, m % 2;
    Unquotient(i, 16, h, 8 * odd);
    Unquotient(i + t, 16, h, 8 * odd + t);
  }

  /** For two neighbours. */
  lemma PairPlace(i: nat, size: nat, t: nat)
    requires size in {8, 16} && i % 8 == 0 && t in {0, 2, 4, 6}
    ensures i % size + 7 < size && (i + t) % size == i % size + t && (i + t + 1) % size == i % size + t + 1
    ensures (i + t) % 2 == 0 && (i + t + 1) % 2 == 1
  {
    KeyPlace(i, size, t);
    KeyPlace(i, size, t + 1);
  }

  // ---- Rounds of 16-bit words --------------------------------------------------------------

  /** A block that turns by one word each round, so that the word to change comes first, and the number of
      the round. */
  datatype Block16 = Block16(a: bv16, b: bv16, c: bv16, d: bv16, number: bv16)

  function Round16(s: Block16, k: bv16, even: bool): Block16 {
    var sum := Plus16(Xor16(s.a, s.number), Xor16(RotateLeft16(even, s.b), k));
    Block16(s.b, s.c, s.d, RotateLeft16(!even, sum), s.number + 1)
  }

  function Pair16(s: Block16, k: bv16, l: bv16): Block16 {
    Round16(Round16(s, k, true), l, false)
  }

  /** Eight rounds. */
  function Eight16(s: Block16, k: bv16, l: bv16, m: bv16, n: bv16, o: bv16, p: bv16, q: bv16, r: bv16): Block16 {
    Pair16(Pair16(Pair16(Pair16(s, k, l), m, n), o, p), q, r)
  }

  ghost predicate Stands16(x: seq<bv16>, s: Block16, i: nat) {
    && |x| == 4 && s.number == Word16(i)
    && x[i % 4] == s.a && x[(i + 1) % 4] == s.b && x[(i + 2) % 4] == s.c && x[(i + 3) % 4] == s.d
  }

  lemma RoundStands16(x: seq<bv16>, s: Block16, keys: seq<bv16>, i: nat)
    requires |keys| > 0 && Stands16(x, s, i) && i + 1 < 0x1_0000
    ensures Stands16(EncRound(Operations16(), RoundKeys(keys), x, i), Round16(s, keys[i % |keys|], i % 2 == 0), i + 1)
  {
    hide Word16, RotateLeft16, Plus16, Xor16;
    NextNumber16(i);
  }

  lemma NextStands16(x: seq<bv16>, s: Block16, keys: seq<bv16>, i: nat)
    requires |keys| > 0 && i + 1 < 0x1_0000 && Stands16(Encrypted(Operations16(), RoundKeys(keys), x, i), s, i)
    ensures Stands16(Encrypted(Operations16(), RoundKeys(keys), x, i + 1),
                     Round16(s, keys[i % |keys|], i % 2 == 0), i + 1)
  {
    hide Round16, EncRound, Word16;
    RoundStands16(Encrypted(Operations16(), RoundKeys(keys), x, i), s, keys, i);
  }

  lemma PairStands16(x: seq<bv16>, s: Block16, keys: seq<bv16>, i: nat, j: nat)
    requires j + 1 < |keys| && i % |keys| == j && (i + 1) % |keys| == j + 1 && i % 2 == 0 && (i + 1) % 2 == 1
    requires i + 2 < 0x1_0000
    requires Stands16(Encrypted(Operations16(), RoundKeys(keys), x, i), s, i)
    ensures Stands16(Encrypted(Operations16(), RoundKeys(keys), x, i + 2), Pair16(s, keys[j], keys[j + 1]), i + 2)
  {
    hide Stands16, Round16, Encrypted, Operations16, RoundKeys;
    NextStands16(x, s, keys, i);
    NextStands16(x, Round16(s, keys[j], true), keys, i + 1);
  }

  /** Eight rounds take eight key words, when there is a whole number of eights. */
  lemma EightStand16(x: seq<bv16>, s: Block16, keys: seq<bv16>, i: nat, j: nat)
    requires |keys| in {8, 16} && i % 8 == 0 && i < 96 && j == i % |keys|
    requires Stands16(Encrypted(Operations16(), RoundKeys(keys), x, i), s, i)
    ensures j + 8 <= |keys|
    ensures Stands16(Encrypted(Operations16(), RoundKeys(keys), x, i + 8),
                     Eight16(s, keys[j], keys[j + 1], keys[j + 2], keys[j + 3], keys[j + 4], keys[j + 5], keys[j + 6],
                             keys[j + 7]), i + 8)
  {
    hide Stands16, Encrypted, Pair16, Operations16, RoundKeys;
    PairPlace(i, |keys|, 0);
    PairPlace(i, |keys|, 2);
    PairPlace(i, |keys|, 4);
    PairPlace(i, |keys|, 6);
    var a := Pair16(s, keys[j], keys[j + 1]);
    var b := Pair16(a, keys[j + 2], keys[j + 3]);
    var c := Pair16(b, keys[j + 4], keys[j + 5]);
    PairStands16(x, s, keys, i, j);
    PairStands16(x, a, keys, i + 2, j + 2);
    PairStands16(x, b, keys, i + 4, j + 4);
    PairStands16(x, c, keys, i + 6, j + 6);
  }

  lemma Start16(x: seq<bv16>, keys: seq<bv16>)
    requires |x| == 4 && |keys| > 0
    ensures Stands16(Encrypted(Operations16(), RoundKeys(keys), x, 0), Block16(x[0], x[1], x[2], x[3], 0), 0)
  {
    hide Words.Word16;
    SmallNumber16(0);
    Words.Zero16();
  }

  lemma Halves16(k: bv16)
    ensures FirstHalf(Operations16(), k) == Xor16(Xor16(k, RotateLeft16(true, k)), RotateLeft16(false, k))
    ensures SecondHalf(Operations16(), k) == Xor16(Xor16(k, RotateLeft16(true, k)), RotateEleven16(k))
  {
  }

  // ---- Rounds of 32-bit words --------------------------------------------------------------

  /** A block that turns by one word each round, so that the word to change comes first, and the number of
      the round. */
  datatype Block32 = Block32(a: bv32, b: bv32, c: bv32, d: bv32, number: bv32)

  function Round32(s: Block32, k: bv32, even: bool): Block32 {
    var sum := Plus32(Xor32(s.a, s.number), Xor32(RotateLeft32(even, s.b), k));
    Block32(s.b, s.c, s.d, RotateLeft32(!even, sum), s.number + 1)
  }

  function Pair32(s: Block32, k: bv32, l: bv32): Block32 {
    Round32(Round32(s, k, true), l, false)
  }

  /** Eight rounds. */
  function Eight32(s: Block32, k: bv32, l: bv32, m: bv32, n: bv32, o: bv32, p: bv32, q: bv32, r: bv32): Block32 {
    Pair32(Pair32(Pair32(Pair32(s, k, l), m, n), o, p), q, r)
  }

  ghost predicate Stands32(x: seq<bv32>, s: Block32, i: nat) {
    && |x| == 4 && s.number == Word32(i)
    && x[i % 4] == s.a && x[(i + 1) % 4] == s.b && x[(i + 2) % 4] == s.c && x[(i + 3) % 4] == s.d
  }

  lemma RoundStands32(x: seq<bv32>, s: Block32, keys: seq<bv32>, i: nat)
    requires |keys| > 0 && Stands32(x, s, i) && i + 1 < 0x1_0000
    ensures Stands32(EncRound(Operations32(), RoundKeys(keys), x, i), Round32(s, keys[i % |keys|], i % 2 == 0), i + 1)
  {
    hide Word32, RotateLeft32, Plus32, Xor32;
    NextNumber32(i);
  }

  lemma NextStands32(x: seq<bv32>, s: Block32, keys: seq<bv32>, i: nat)
    requires |keys| > 0 && i + 1 < 0x1_0000 && Stands32(Encrypted(Operations32(), RoundKeys(keys), x, i), s, i)
    ensures Stands32(Encrypted(Operations32(), RoundKeys(keys), x, i + 1),
                     Round32(s, keys[i % |keys|], i % 2 == 0), i + 1)
  {
    hide Round32, EncRound, Word32;
    RoundStands32(Encrypted(Operations32(), RoundKeys(keys), x, i), s, keys, i);
  }

  lemma PairStands32(x: seq<bv32>, s: Block32, keys: seq<bv32>, i: nat, j: nat)
    requires j + 1 < |keys| && i % |keys| == j && (i + 1) % |keys| == j + 1 && i % 2 == 0 && (i + 1) % 2 == 1
    requires i + 2 < 0x1_0000
    requires Stands32(Encrypted(Operations32(), RoundKeys(keys), x, i), s, i)
    ensures Stands32(Encrypted(Operations32(), RoundKeys(keys), x, i + 2), Pair32(s, keys[j], keys[j + 1]), i + 2)
  {
    hide Stands32, Round32, Encrypted, Operations32, RoundKeys;
    NextStands32(x, s, keys, i);
    NextStands32(x, Round32(s, keys[j], true), keys, i + 1);
  }

  /** Eight rounds take eight key words, when there is a whole number of eights. */
  lemma EightStand32(x: seq<bv32>, s: Block32, keys: seq<bv32>, i: nat, j: nat)
    requires |keys| in {8, 16} && i % 8 == 0 && i < 96 && j == i % |keys|
    requires Stands32(Encrypted(Operations32(), RoundKeys(keys), x, i), s, i)
    ensures j + 8 <= |keys|
    ensures Stands32(Encrypted(Operations32(), RoundKeys(keys), x, i + 8),
                     Eight32(s, keys[j], keys[j + 1], keys[j + 2], keys[j + 3], keys[j + 4], keys[j + 5], keys[j + 6],
                             keys[j + 7]), i + 8)
  {
    hide Stands32, Encrypted, Pair32, Operations32, RoundKeys;
    PairPlace(i, |keys|, 0);
    PairPlace(i, |keys|, 2);
    PairPlace(i, |keys|, 4);
    PairPlace(i, |keys|, 6);
    var a := Pair32(s, keys[j], keys[j + 1]);
    var b := Pair32(a, keys[j + 2], keys[j + 3]);
    var c := Pair32(b, keys[j + 4], keys[j + 5]);
    PairStands32(x, s, keys, i, j);
    PairStands32(x, a, keys, i + 2, j + 2);
    PairStands32(x, b, keys, i + 4, j + 4);
    PairStands32(x, c, keys, i + 6, j + 6);
  }

  lemma Start32(x: seq<bv32>, keys: seq<bv32>)
    requires |x| == 4 && |keys| > 0
    ensures Stands32(Encrypted(Operations32(), RoundKeys(keys), x, 0), Block32(x[0], x[1], x[2], x[3], 0), 0)
  {
    hide Words.Word;
    SmallNumber32(0);
    Words.Zero32();
  }

  lemma Halves32(k: bv32)
    ensures FirstHalf(Operations32(), k) == Xor32(Xor32(k, RotateLeft32(true, k)), RotateLeft32(false, k))
    ensures SecondHalf(Operations32(), k) == Xor32(Xor32(k, RotateLeft32(true, k)), RotateEleven32(k))
  {
  }

  // ---- CHAM-64 with a 128-bit key ----------------------------------------------------------

  const KEY_64: seq<bv16> :=
    [0x0100, 0x0302, 0x0504, 0x0706, 0x0908, 0x0b0a, 0x0d0c, 0x0f0e]
  const PLAIN_64: seq<bv16> := [0x1100, 0x3322, 0x5544, 0x7766]
  const CIPHER_64: seq<bv16> := [0x453c, 0x63bc, 0xdcfa, 0xbf4e]
  const TABLE_64: seq<bv16> :=
    [0x0301, 0x0705, 0x0b09, 0x0f0d, 0x1311, 0x1715, 0x1b19, 0x1f1d,
     0x151e, 0x0308, 0x3932, 0x2f24, 0x4d46, 0x5b50, 0x616a, 0x777c]

  lemma FirstEntries64()
    ensures var table := KeyTable(Operations16(), KEY_64);
            forall i :: 0 <= i < 8 ==> table[i] == TABLE_64[i]
  {
    Halves16(0x0100);
    Halves16(0x0302);
    Halves16(0x0504);
    Halves16(0x0706);
    Halves16(0x0908);
    Halves16(0x0b0a);
    Halves16(0x0d0c);
    Halves16(0x0f0e);
  }

  lemma SecondEntries64()
    ensures var table := KeyTable(Operations16(), KEY_64);
            forall i :: 8 <= i < 16 ==> table[i] == TABLE_64[i]
  {
    Halves16(0x0100);
    Halves16(0x0302);
    Halves16(0x0504);
    Halves16(0x0706);
    Halves16(0x0908);
    Halves16(0x0b0a);
    Halves16(0x0d0c);
    Halves16(0x0f0e);
  }

  lemma Table64()
    ensures KeyTable(Operations16(), KEY_64) == TABLE_64
  {
    hide TableEntry;
    FirstEntries64();
    SecondEntries64();
  }
  lemma Rounds64()
    ensures Eight16(Block16(0x1100, 0x3322, 0x5544, 0x7766, 0),
                   0x0301, 0x0705, 0x0b09, 0x0f0d, 0x1311, 0x1715, 0x1b19, 0x1f1d)
         == Block16(0x4e10, 0x3202, 0xebe4, 0xe15f, 8)
    ensures Eight16(Block16(0x4e10, 0x3202, 0xebe4, 0xe15f, 8),
                   0x151e, 0x0308, 0x3932, 0x2f24, 0x4d46, 0x5b50, 0x616a, 0x777c)
         == Block16(0xb15d, 0xdff9, 0xac20, 0x1b50, 16)
    ensures Eight16(Block16(0xb15d, 0xdff9, 0xac20, 0x1b50, 16),
                   0x0301, 0x0705, 0x0b09, 0x0f0d, 0x1311, 0x1715, 0x1b19, 0x1f1d)
         == Block16(0xcf4c, 0x1c0a, 0xcbc6, 0x999e, 24)
    ensures Eight16(Block16(0xcf4c, 0x1c0a, 0xcbc6, 0x999e, 24),
                   0x151e, 0x0308, 0x3932, 0x2f24, 0x4d46, 0x5b50, 0x616a, 0x777c)
         == Block16(0xfd28, 0xa4d6, 0x62be, 0x72c4, 32)
    ensures Eight16(Block16(0xfd28, 0xa4d6, 0x62be, 0x72c4, 32),
                   0x0301, 0x0705, 0x0b09, 0x0f0d, 0x1311, 0x1715, 0x1b19, 0x1f1d)
         == Block16(0xcb1e, 0x0542, 0x1213, 0xf278, 40)
    ensures Eight16(Block16(0xcb1e, 0x0542, 0x1213, 0xf278, 40),
                   0x151e, 0x0308, 0x3932, 0x2f24, 0x4d46, 0x5b50, 0x616a, 0x777c)
         == Block16(0x18ec, 0xbfa7, 0x357d, 0x1808, 48)
    ensures Eight16(Block16(0x18ec, 0xbfa7, 0x357d, 0x1808, 48),
                   0x0301, 0x0705, 0x0b09, 0x0f0d, 0x1311, 0x1715, 0x1b19, 0x1f1d)
         == Block16(0xaa1e, 0xb66d, 0xd93a, 0xcd52, 56)
    ensures Eight16(Block16(0xaa1e, 0xb66d, 0xd93a, 0xcd52, 56),
                   0x151e, 0x0308, 0x3932, 0x2f24, 0x4d46, 0x5b50, 0x616a, 0x777c)
         == Block16(0xf078, 0x107a, 0xcba0, 0x87b5, 64)
    ensures Eight16(Block16(0xf078, 0x107a, 0xcba0, 0x87b5, 64),
                   0x0301, 0x0705, 0x0b09, 0x0f0d, 0x1311, 0x1715, 0x1b19, 0x1f1d)
         == Block16(0x8720, 0x6f4e, 0xd9db, 0x0c09, 72)
    ensures Eight16(Block16(0x8720, 0x6f4e, 0xd9db, 0x0c09, 72),
                   0x151e, 0x0308, 0x3932, 0x2f24, 0x4d46, 0x5b50, 0x616a, 0x777c)
         == Block16(0x453c, 0x63bc, 0xdcfa, 0xbf4e, 80)
  {
  }

  lemma Halfway64()
    ensures Stands16(Encrypted(Operations16(), RoundKeys(TABLE_64), PLAIN_64, 40),
                     Block16(0xcb1e, 0x0542, 0x1213, 0xf278, 40), 40)
  {
    hide Eight16, Encrypted, Stands16;
    Start16(PLAIN_64, TABLE_64);
    Rounds64();
    EightStand16(PLAIN_64, Block16(0x1100, 0x3322, 0x5544, 0x7766, 0), TABLE_64, 0, 0);
    EightStand16(PLAIN_64, Block16(0x4e10, 0x3202, 0xebe4, 0xe15f, 8), TABLE_64, 8, 8);
    EightStand16(PLAIN_64, Block16(0xb15d, 0xdff9, 0xac20, 0x1b50, 16), TABLE_64, 16, 0);
    EightStand16(PLAIN_64, Block16(0xcf4c, 0x1c0a, 0xcbc6, 0x999e, 24), TABLE_64, 24, 8);
    EightStand16(PLAIN_64, Block16(0xfd28, 0xa4d6, 0x62be, 0x72c4, 32), TABLE_64, 32, 0);
  }

  /** The ciphertext of the published vector. */
  lemma KnownAnswer64()
    ensures Ciphertext(Operations16(), KEY_64, PLAIN_64, 80) == CIPHER_64
  {
    hide Eight16, Encrypted, KeyTable, Word16;
    Table64();
    Halfway64();
    Rounds64();
    EightStand16(PLAIN_64, Block16(0xcb1e, 0x0542, 0x1213, 0xf278, 40), TABLE_64, 40, 8);
    EightStand16(PLAIN_64, Block16(0x18ec, 0xbfa7, 0x357d, 0x1808, 48), TABLE_64, 48, 0);
    EightStand16(PLAIN_64, Block16(0xaa1e, 0xb66d, 0xd93a, 0xcd52, 56), TABLE_64, 56, 8);
    EightStand16(PLAIN_64, Block16(0xf078, 0x107a, 0xcba0, 0x87b5, 64), TABLE_64, 64, 0);
    EightStand16(PLAIN_64, Block16(0x8720, 0x6f4e, 0xd9db, 0x0c09, 72), TABLE_64, 72, 8);
  }

  // ---- CHAM-128 with a 128-bit key ---------------------------------------------------------

  const KEY_128: seq<bv32> :=
    [0x03020100, 0x07060504, 0x0b0a0908, 0x0f0e0d0c]
  const PLAIN_128: seq<bv32> := [0x33221100, 0x77665544, 0xbbaa9988, 0xffeeddcc]
  const CIPHER_128: seq<bv32> := [0xc3746034, 0xb55700c5, 0x8d64ec32, 0x489332f7]
  const TABLE_128: seq<bv32> :=
    [0x07070303, 0x0f0f0b0b, 0x17171313, 0x1f1f1b1b, 0x39222f34, 0x150e0318, 0x617a776c, 0x4d565b40]

  lemma Table128()
    ensures KeyTable(Operations32(), KEY_128) == TABLE_128
  {
    var ops, table := Operations32(), KeyTable(Operations32(), KEY_128);
    Halves32(0x03020100);
    Halves32(0x07060504);
    Halves32(0x0b0a0908);
    Halves32(0x0f0e0d0c);
    assert forall i :: 0 <= i < 8 ==> table[i] == TABLE_128[i];
  }
  lemma Rounds128()
    ensures Eight32(Block32(0x33221100, 0x77665544, 0xbbaa9988, 0xffeeddcc, 0),
                   0x07070303, 0x0f0f0b0b, 0x17171313, 0x1f1f1b1b, 0x39222f34, 0x150e0318, 0x617a776c, 0x4d565b40)
         == Block32(0x8bd7f838, 0x2228b2b9, 0xb3f51c6c, 0xcb685eaf, 8)
    ensures Eight32(Block32(0x8bd7f838, 0x2228b2b9, 0xb3f51c6c, 0xcb685eaf, 8),
                   0x07070303, 0x0f0f0b0b, 0x17171313, 0x1f1f1b1b, 0x39222f34, 0x150e0318, 0x617a776c, 0x4d565b40)
         == Block32(0x30e85778, 0x3068d702, 0xb16e4312, 0x7e9f125b, 16)
    ensures Eight32(Block32(0x30e85778, 0x3068d702, 0xb16e4312, 0x7e9f125b, 16),
                   0x07070303, 0x0f0f0b0b, 0x17171313, 0x1f1f1b1b, 0x39222f34, 0x150e0318, 0x617a776c, 0x4d565b40)
         == Block32(0xf65b8e3e, 0x262af43b, 0xbec66ba0, 0x95ef2308, 24)
    ensures Eight32(Block32(0xf65b8e3e, 0x262af43b, 0xbec66ba0, 0x95ef2308, 24),
                   0x07070303, 0x0f0f0b0b, 0x17171313, 0x1f1f1b1b, 0x39222f34, 0x150e0318, 0x617a776c, 0x4d565b40)
         == Block32(0x95ebc835, 0x69a47093, 0x783d3420, 0x3f0ad4c7, 32)
    ensures Eight32(Block32(0x95ebc835, 0x69a47093, 0x783d3420, 0x3f0ad4c7, 32),
                   0x07070303, 0x0f0f0b0b, 0x17171313, 0x1f1f1b1b, 0x39222f34, 0x150e0318, 0x617a776c, 0x4d565b40)
         == Block32(0x0699f092, 0x66a2352a, 0xaa0f46f1, 0x7a0eaae9, 40)
    ensures Eight32(Block32(0x0699f092, 0x66a2352a, 0xaa0f46f1, 0x7a0eaae9, 40),
                   0x07070303, 0x0f0f0b0b, 0x17171313, 0x1f1f1b1b, 0x39222f34, 0x150e0318, 0x617a776c, 0x4d565b40)
         == Block32(0xeca3a17f, 0xccd5dacc, 0x9d49f1b6, 0xda6423d4, 48)
    ensures Eight32(Block32(0xeca3a17f, 0xccd5dacc, 0x9d49f1b6, 0xda6423d4, 48),
                   0x07070303, 0x0f0f0b0b, 0x17171313, 0x1f1f1b1b, 0x39222f34, 0x150e0318, 0x617a776c, 0x4d565b40)
         == Block32(0xc83737c6, 0xf5b2e688, 0x56e61b15, 0x822e0bb7, 56)
    ensures Eight32(Block32(0xc83737c6, 0xf5b2e688, 0x56e61b15, 0x822e0bb7, 56),
                   0x07070303, 0x0f0f0b0b, 0x17171313, 0x1f1f1b1b, 0x39222f34, 0x150e0318, 0x617a776c, 0x4d565b40)
         == Block32(0x444b97dc, 0x9066e693, 0xac46ae3e, 0x7a79fa50, 64)
    ensures Eight32(Block32(0x444b97dc, 0x9066e693, 0xac46ae3e, 0x7a79fa50, 64),
                   0x07070303, 0x0f0f0b0b, 0x17171313, 0x1f1f1b1b, 0x39222f34, 0x150e0318, 0x617a776c, 0x4d565b40)
         == Block32(0x681efb67, 0x6e6397d2, 0xb5e3c5df, 0x7cc03c5c, 72)
    ensures Eight32(Block32(0x681efb67, 0x6e6397d2, 0xb5e3c5df, 0x7cc03c5c, 72),
                   0x07070303, 0x0f0f0b0b, 0x17171313, 0x1f1f1b1b, 0x39222f34, 0x150e0318, 0x617a776c, 0x4d565b40)
         == Block32(0xc3746034, 0xb55700c5, 0x8d64ec32, 0x489332f7, 80)
  {
  }

  lemma Halfway128()
    ensures Stands32(Encrypted(Operations32(), RoundKeys(TABLE_128), PLAIN_128, 40),
                     Block32(0x0699f092, 0x66a2352a, 0xaa0f46f1, 0x7a0eaae9, 40), 40)
  {
    hide Eight32, Encrypted, Stands32;
    Start32(PLAIN_128, TABLE_128);
    Rounds128();
    EightStand32(PLAIN_128, Block32(0x33221100, 0x77665544, 0xbbaa9988, 0xffeeddcc, 0), TABLE_128, 0, 0);
    EightStand32(PLAIN_128, Block32(0x8bd7f838, 0x2228b2b9, 0xb3f51c6c, 0xcb685eaf, 8), TABLE_128, 8, 0);
    EightStand32(PLAIN_128, Block32(0x30e85778, 0x3068d702, 0xb16e4312, 0x7e9f125b, 16), TABLE_128, 16, 0);
    EightStand32(PLAIN_128, Block32(0xf65b8e3e, 0x262af43b, 0xbec66ba0, 0x95ef2308, 24), TABLE_128, 24, 0);
    EightStand32(PLAIN_128, Block32(0x95ebc835, 0x69a47093, 0x783d3420, 0x3f0ad4c7, 32), TABLE_128, 32, 0);
  }

  /** The ciphertext of the published vector. */
  lemma KnownAnswer128()
    ensures Ciphertext(Operations32(), KEY_128, PLAIN_128, 80) == CIPHER_128
  {
    hide Eight32, Encrypted, KeyTable, Word32;
    Table128();
    Halfway128();
    Rounds128();
    EightStand32(PLAIN_128, Block32(0x0699f092, 0x66a2352a, 0xaa0f46f1, 0x7a0eaae9, 40), TABLE_128, 40, 0);
    EightStand32(PLAIN_128, Block32(0xeca3a17f, 0xccd5dacc, 0x9d49f1b6, 0xda6423d4, 48), TABLE_128, 48, 0);
    EightStand32(PLAIN_128, Block32(0xc83737c6, 0xf5b2e688, 0x56e61b15, 0x822e0bb7, 56), TABLE_128, 56, 0);
    EightStand32(PLAIN_128, Block32(0x444b97dc, 0x9066e693, 0xac46ae3e, 0x7a79fa50, 64), TABLE_128, 64, 0);
    EightStand32(PLAIN_128, Block32(0x681efb67, 0x6e6397d2, 0xb5e3c5df, 0x7cc03c5c, 72), TABLE_128, 72, 0);
  }

  // ---- CHAM-128 with a 256-bit key ---------------------------------------------------------

  const KEY_256: seq<bv32> :=
    [0x03020100, 0x07060504, 0x0b0a0908, 0x0f0e0d0c, 0xf3f2f1f0, 0xf7f6f5f4, 0xfbfaf9f8, 0xfffefdfc]
  const PLAIN_256: seq<bv32> := [0x33221100, 0x77665544, 0xbbaa9988, 0xffeeddcc]
  const CIPHER_256: seq<bv32> := [0xa899c8a0, 0xc929d55c, 0xab670d38, 0x0c4f7ac8]
  const TABLE_256: seq<bv32> :=
    [0x07070303, 0x0f0f0b0b, 0x17171313, 0x1f1f1b1b, 0xe6e6e2e2, 0xeeeeeaea, 0xf6f6f2f2, 0xfefefafa,
     0x39222f34, 0x150e0318, 0x617a776c, 0x4d565b40, 0xafb4b9a2, 0x8398958e, 0xf7ece1fa, 0xdbc0cdd6]

  lemma FirstEntries256()
    ensures var table := KeyTable(Operations32(), KEY_256);
            forall i :: 0 <= i < 8 ==> table[i] == TABLE_256[i]
  {
    Halves32(0x03020100);
    Halves32(0x07060504);
    Halves32(0x0b0a0908);
    Halves32(0x0f0e0d0c);
    Halves32(0xf3f2f1f0);
    Halves32(0xf7f6f5f4);
    Halves32(0xfbfaf9f8);
    Halves32(0xfffefdfc);
  }

  lemma SecondEntries256()
    ensures var table := KeyTable(Operations32(), KEY_256);
            forall i :: 8 <= i < 16 ==> table[i] == TABLE_256[i]
  {
    Halves32(0x03020100);
    Halves32(0x07060504);
    Halves32(0x0b0a0908);
    Halves32(0x0f0e0d0c);
    Halves32(0xf3f2f1f0);
    Halves32(0xf7f6f5f4);
    Halves32(0xfbfaf9f8);
    Halves32(0xfffefdfc);
  }

  lemma Table256()
    ensures KeyTable(Operations32(), KEY_256) == TABLE_256
  {
    hide TableEntry;
    FirstEntries256();
    SecondEntries256();
  }
  lemma Rounds256()
    ensures Eight32(Block32(0x33221100, 0x77665544, 0xbbaa9988, 0xffeeddcc, 0),
                   0x07070303, 0x0f0f0b0b, 0x17171313, 0x1f1f1b1b, 0xe6e6e2e2, 0xeeeeeaea, 0xf6f6f2f2, 0xfefefafa)
         == Block32(0xd00c4e82, 0xcde8011d, 0x3f7a86d6, 0x7b6c876c, 8)
    ensures Eight32(Block32(0xd00c4e82, 0xcde8011d, 0x3f7a86d6, 0x7b6c876c, 8),
                   0x39222f34, 0x150e0318, 0x617a776c, 0x4d565b40, 0xafb4b9a2, 0x8398958e, 0xf7ece1fa, 0xdbc0cdd6)
         == Block32(0xf37acc58, 0xfbd3de17, 0x02b6455d, 0x0b07eed2, 16)
    ensures Eight32(Block32(0xf37acc58, 0xfbd3de17, 0x02b6455d, 0x0b07eed2, 16),
                   0x07070303, 0x0f0f0b0b, 0x17171313, 0x1f1f1b1b, 0xe6e6e2e2, 0xeeeeeaea, 0xf6f6f2f2, 0xfefefafa)
         == Block32(0x29a7cc4e, 0xca4aa25e, 0x4d4c095a, 0x303520cf, 24)
    ensures Eight32(Block32(0x29a7cc4e, 0xca4aa25e, 0x4d4c095a, 0x303520cf, 24),
                   0x39222f34, 0x150e0318, 0x617a776c, 0x4d565b40, 0xafb4b9a2, 0x8398958e, 0xf7ece1fa, 0xdbc0cdd6)
         == Block32(0x2b379d82, 0x149da5ee, 0x568484b9, 0x83b553ea, 32)
    ensures Eight32(Block32(0x2b379d82, 0x149da5ee, 0x568484b9, 0x83b553ea, 32),
                   0x07070303, 0x0f0f0b0b, 0x17171313, 0x1f1f1b1b, 0xe6e6e2e2, 0xeeeeeaea, 0xf6f6f2f2, 0xfefefafa)
         == Block32(0x2a03cdda, 0x2fc47cc8, 0xf20b7805, 0xefb49a2b, 40)
    ensures Eight32(Block32(0x2a03cdda, 0x2fc47cc8, 0xf20b7805, 0xefb49a2b, 40),
                   0x39222f34, 0x150e0318, 0x617a776c, 0x4d565b40, 0xafb4b9a2, 0x8398958e, 0xf7ece1fa, 0xdbc0cdd6)
         == Block32(0x034d4b46, 0xaace5a97, 0xf4e0dfb0, 0x92ecaf8e, 48)
    ensures Eight32(Block32(0x034d4b46, 0xaace5a97, 0xf4e0dfb0, 0x92ecaf8e, 48),
                   0x07070303, 0x0f0f0b0b, 0x17171313, 0x1f1f1b1b, 0xe6e6e2e2, 0xeeeeeaea, 0xf6f6f2f2, 0xfefefafa)
         == Block32(0x9c5ad575, 0xf579f587, 0x7c985ddf, 0x0eff199c, 56)
    ensures Eight32(Block32(0x9c5ad575, 0xf579f587, 0x7c985ddf, 0x0eff199c, 56),
                   0x39222f34, 0x150e0318, 0x617a776c, 0x4d565b40, 0xafb4b9a2, 0x8398958e, 0xf7ece1fa, 0xdbc0cdd6)
         == Block32(0x1d7974d1, 0x4e7a2214, 0x3c2f7c95, 0xd4dd4dc6, 64)
    ensures Eight32(Block32(0x1d7974d1, 0x4e7a2214, 0x3c2f7c95, 0xd4dd4dc6, 64),
                   0x07070303, 0x0f0f0b0b, 0x17171313, 0x1f1f1b1b, 0xe6e6e2e2, 0xeeeeeaea, 0xf6f6f2f2, 0xfefefafa)
         == Block32(0x0d9dd0ca, 0x92ed2329, 0xfac2bfed, 0xac60216c, 72)
    ensures Eight32(Block32(0x0d9dd0ca, 0x92ed2329, 0xfac2bfed, 0xac60216c, 72),
                   0x39222f34, 0x150e0318, 0x617a776c, 0x4d565b40, 0xafb4b9a2, 0x8398958e, 0xf7ece1fa, 0xdbc0cdd6)
         == Block32(0x02da119c, 0x98058d76, 0x880688f0, 0x8820ef12, 80)
    ensures Eight32(Block32(0x02da119c, 0x98058d76, 0x880688f0, 0x8820ef12, 80),
                   0x07070303, 0x0f0f0b0b, 0x17171313, 0x1f1f1b1b, 0xe6e6e2e2, 0xeeeeeaea, 0xf6f6f2f2, 0xfefefafa)
         == Block32(0xfc7ab546, 0xfca2ed6f, 0x4492e163, 0xfbafc061, 88)
    ensures Eight32(Block32(0xfc7ab546, 0xfca2ed6f, 0x4492e163, 0xfbafc061, 88),
                   0x39222f34, 0x150e0318, 0x617a776c, 0x4d565b40, 0xafb4b9a2, 0x8398958e, 0xf7ece1fa, 0xdbc0cdd6)
         == Block32(0xa899c8a0, 0xc929d55c, 0xab670d38, 0x0c4f7ac8, 96)
  {
  }

  lemma Halfway256()
    ensures Stands32(Encrypted(Operations32(), RoundKeys(TABLE_256), PLAIN_256, 48),
                     Block32(0x034d4b46, 0xaace5a97, 0xf4e0dfb0, 0x92ecaf8e, 48), 48)
  {
    hide Eight32, Encrypted, Stands32;
    Start32(PLAIN_256, TABLE_256);
    Rounds256();
    EightStand32(PLAIN_256, Block32(0x33221100, 0x77665544, 0xbbaa9988, 0xffeeddcc, 0), TABLE_256, 0, 0);
    EightStand32(PLAIN_256, Block32(0xd00c4e82, 0xcde8011d, 0x3f7a86d6, 0x7b6c876c, 8), TABLE_256, 8, 8);
    EightStand32(PLAIN_256, Block32(0xf37acc58, 0xfbd3de17, 0x02b6455d, 0x0b07eed2, 16), TABLE_256, 16, 0);
    EightStand32(PLAIN_256, Block32(0x29a7cc4e, 0xca4aa25e, 0x4d4c095a, 0x303520cf, 24), TABLE_256, 24, 8);
    EightStand32(PLAIN_256, Block32(0x2b379d82, 0x149da5ee, 0x568484b9, 0x83b553ea, 32), TABLE_256, 32, 0);
    EightStand32(PLAIN_256, Block32(0x2a03cdda, 0x2fc47cc8, 0xf20b7805, 0xefb49a2b, 40), TABLE_256, 40, 8);
  }

  /** The ciphertext of the published vector. */
  lemma KnownAnswer256()
    ensures Ciphertext(Operations32(), KEY_256, PLAIN_256, 96) == CIPHER_256
  {
    hide Eight32, Encrypted, KeyTable, Word32;
    Table256();
    Halfway256();
    Rounds256();
    EightStand32(PLAIN_256, Block32(0x034d4b46, 0xaace5a97, 0xf4e0dfb0, 0x92ecaf8e, 48), TABLE_256, 48, 0);
    EightStand32(PLAIN_256, Block32(0x9c5ad575, 0xf579f587, 0x7c985ddf, 0x0eff199c, 56), TABLE_256, 56, 8);
    EightStand32(PLAIN_256, Block32(0x1d7974d1, 0x4e7a2214, 0x3c2f7c95, 0xd4dd4dc6, 64), TABLE_256, 64, 0);
    EightStand32(PLAIN_256, Block32(0x0d9dd0ca, 0x92ed2329, 0xfac2bfed, 0xac60216c, 72), TABLE_256, 72, 8);
    EightStand32(PLAIN_256, Block32(0x02da119c, 0x98058d76, 0x880688f0, 0x8820ef12, 80), TABLE_256, 80, 0);
    EightStand32(PLAIN_256, Block32(0xfc7ab546, 0xfca2ed6f, 0x4492e163, 0xfbafc061, 88), TABLE_256, 88, 8);
  }

  /** Through the methods. */
  method EncryptVectors() returns (c64: seq<bv16>, c128: seq<bv32>, c256: seq<bv32>)
    ensures c64 == [0x453c, 0x63bc, 0xdcfa, 0xbf4e]
    ensures c128 == [0xc3746034, 0xb55700c5, 0x8d64ec32, 0x489332f7]
    ensures c256 == [0xa899c8a0, 0xc929d55c, 0xab670d38, 0x0c4f7ac8]
  {
    c64 := Encrypt64(KEY_64, PLAIN_64);
    c128 := Encrypt128(KEY_128, PLAIN_128);
    c256 := Encrypt128(KEY_256, PLAIN_256);
    KnownAnswer64();
    KnownAnswer128();
    KnownAnswer256();
  }
}
