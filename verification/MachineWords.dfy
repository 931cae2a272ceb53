/** Machine words as numbers: what converting, adding, subtracting and cutting them into bytes comes to.
    Everything goes by halves, since a word and its half have the same bits but one. */
module MachineWords {

  const WORD: nat := 0x1_0000_0000

  // ---- Words and their halves ------------------------------------------------------------

  function Value(x: bv32): nat {
    x as nat
  }

  function Word(n: nat): bv32
    requires n < WORD
  {
    n as bv32
  }

  function Twice(x: bv32): bv32 {
    x << 1
  }

  function TwiceAndOne(x: bv32): bv32 {
    (x << 1) | 1
  }

  function Half(x: bv32): bv32 {
    x >> 1
  }

  predicate Odd(x: bv32) {
    x & 1 == 1
  }

  function Next(x: bv32): bv32 {
    x + 1
  }

  function Plus(x: bv32, y: bv32): bv32 {
    x + y
  }

  function Minus(x: bv32, y: bv32): bv32 {
    x - y
  }

  lemma ValueBelow(x: bv32)
    ensures Value(x) < WORD
  {
  }

  lemma TwiceValue(h: bv32)
    requires Value(h) < 0x8000_0000
    ensures Value(Twice(h)) == 2 * Value(h) && Value(TwiceAndOne(h)) == 2 * Value(h) + 1
  {
  }

  lemma TwiceClear(h: bv32)
    requires h & 0x8000_0000 == 0
    ensures Value(Twice(h)) == 2 * Value(h)
  {
  }

  lemma HalfClear(x: bv32)
    ensures Half(x) & 0x8000_0000 == 0
  {
  }

  lemma HalfBelow(x: bv32)
    ensures Value(Half(x)) < 0x8000_0000
  {
    hide Value, Half, Twice;
    HalfClear(x);
    TwiceClear(Half(x));
    ValueBelow(Twice(Half(x)));
  }

  lemma FromHalf(x: bv32)
    ensures x == if Odd(x) then TwiceAndOne(Half(x)) else Twice(Half(x))
  {
  }

  lemma NextByHalf(x: bv32)
    ensures Next(x) == if Odd(x) then Twice(Next(Half(x))) else TwiceAndOne(Half(x))
  {
  }

  lemma WordOfValue(x: bv32)
    ensures Value(x) < WORD && Word(Value(x)) == x
  {
  }

  lemma PlusZero(x: bv32)
    ensures Plus(x, 0) == x && Value(0) == 0
  {
  }

  lemma Zero32()
    ensures Value(0) == 0 && Word(0) == 0
  {
    WordOfValue(0);
  }

  lemma PlusNext(x: bv32, y: bv32)
    ensures Plus(x, Next(y)) == Next(Plus(x, y))
  {
    assert Plus(x, y + 1) == Next(x + y);
  }

  lemma MinusPlus(x: bv32, y: bv32)
    ensures Plus(Minus(x, y), y) == x
  {
    assert Plus(x - y, y) == x;
  }

  lemma NextOfLast()
    ensures Value(0xffff_ffff) == 0xffff_ffff && Next(0xffff_ffff) == 0
  {
  }

  // ---- Numbers ---------------------------------------------------------------------------

  lemma HalfValue(x: bv32)
    ensures Value(x) == 2 * Value(Half(x)) + if Odd(x) then 1 else 0
    ensures Value(Half(x)) < 0x8000_0000
  {
    hide Value, Twice, TwiceAndOne, Half, Odd;
    HalfBelow(x);
    FromHalf(x);
    TwiceValue(Half(x));
  }

  /** A number that fits a word comes back. */
  lemma {:induction false} Number(n: nat)
    requires n < WORD
    ensures Value(Word(n)) == n
  {
    hide Value, Word, Twice, TwiceAndOne;
    if n == 0 {
      PlusZero(0);
      WordOfValue(0);
    } else {
      var h := Word(n / 2);
      Number(n / 2);
      TwiceValue(h);
      WordOfValue(Twice(h));
      WordOfValue(TwiceAndOne(h));
    }
  }

  /** Counting on, below the last word. */
  lemma {:induction false} Successor(x: bv32)
    requires Value(x) + 1 < WORD
    ensures Value(Next(x)) == Value(x) + 1
    decreases Value(x)
  {
    hide Value, Twice, TwiceAndOne, Half, Odd, Next;
    var h := Half(x);
    HalfValue(x);
    NextByHalf(x);
    TwiceValue(h);
    if Odd(x) {
      Successor(h);
      TwiceValue(Next(h));
    }
  }

  lemma NextWord(n: nat)
    requires n + 1 < WORD
    ensures Word(n + 1) == Next(Word(n))
  {
    hide Value, Word, Next;
    Number(n);
    Successor(Word(n));
    WordOfValue(Next(Word(n)));
  }

  lemma NextValue(x: bv32)
    ensures Value(Next(x)) == (Value(x) + 1) % WORD
  {
    hide Value, Next, Word;
    WordOfValue(x);
    if Value(x) + 1 == WORD {
      NextOfLast();
      WordOfValue(0xffff_ffff);
      PlusZero(0);
    } else {
      Successor(x);
    }
  }

  /** Sums wrap around. */
  lemma {:induction false} PlusValue(x: bv32, y: bv32)
    ensures Value(Plus(x, y)) == (Value(x) + Value(y)) % WORD
    decreases Value(y)
  {
    hide Value, Next, Word, Plus;
    WordOfValue(x);
    WordOfValue(y);
    PlusZero(x);
    if Value(y) == 0 {
      WordOfValue(0);
    } else {
      var z := Word(Value(y) - 1);
      Number(Value(y) - 1);
      Successor(z);
      WordOfValue(Next(z));
      PlusValue(x, z);
      PlusNext(x, z);
      NextValue(Plus(x, z));
    }
  }

  /** So do differences. */
  lemma MinusValue(x: bv32, y: bv32)
    ensures Value(Minus(x, y)) == (Value(x) - Value(y)) % WORD
  {
    hide Value, Minus, Plus;
    ValueBelow(x);
    ValueBelow(y);
    ValueBelow(Minus(x, y));
    MinusPlus(x, y);
    PlusValue(Minus(x, y), y);
  }

  // ---- Words of 16 bits ------------------------------------------------------------------

  function Value16(x: bv16): nat {
    x as nat
  }

  function Word16(n: nat): bv16
    requires n < 0x1_0000
  {
    n as bv16
  }

  function Twice16(x: bv16): bv16 {
    x << 1
  }

  function TwiceAndOne16(x: bv16): bv16 {
    (x << 1) | 1
  }

  function Next16(x: bv16): bv16 {
    x + 1
  }

  lemma TwiceValue16(h: bv16)
    requires Value16(h) < 0x8000
    ensures Value16(Twice16(h)) == 2 * Value16(h) && Value16(TwiceAndOne16(h)) == 2 * Value16(h) + 1
  {
  }

  lemma WordOfValue16(x: bv16)
    ensures Value16(x) < 0x1_0000 && Word16(Value16(x)) == x
  {
  }

  lemma NextOfTwice16(h: bv16)
    ensures Next16(Twice16(h)) == TwiceAndOne16(h) && Next16(TwiceAndOne16(h)) == Twice16(Next16(h))
  {
  }

  lemma Zero16()
    ensures Value16(0) == 0 && Word16(0) == 0
  {
    WordOfValue16(0);
  }

  lemma {:induction false} Number16(n: nat)
    requires n < 0x1_0000
    ensures Value16(Word16(n)) == n
  {
    hide Value16, Word16, Twice16, TwiceAndOne16;
    if n == 0 {
      Zero16();
      WordOfValue16(0);
    } else {
      var h := Word16(n / 2);
      Number16(n / 2);
      TwiceValue16(h);
      WordOfValue16(Twice16(h));
      WordOfValue16(TwiceAndOne16(h));
    }
  }

  /** Numbers of words are twice or twice and one the word of half the number. */
  lemma HalfWord16(n: nat)
    requires n < 0x1_0000
    ensures Word16(n) == if n % 2 == 0 then Twice16(Word16(n / 2)) else TwiceAndOne16(Word16(n / 2))
  {
    hide Value16, Word16, Twice16, TwiceAndOne16;
    var h := Word16(n / 2);
    Number16(n / 2);
    TwiceValue16(h);
    WordOfValue16(Twice16(h));
    WordOfValue16(TwiceAndOne16(h));
  }

  lemma {:induction false} Successor16(n: nat)
    requires n + 1 < 0x1_0000
    ensures Word16(n + 1) == Next16(Word16(n))
  {
    hide Word16, Twice16, TwiceAndOne16, Next16;
    HalfWord16(n);
    HalfWord16(n + 1);
    NextOfTwice16(Word16(n / 2));
    if n % 2 == 1 {
      Successor16(n / 2);
    }
  }

  // ---- Words of 8 bits -------------------------------------------------------------------

  function Value8(x: bv8): nat {
    x as nat
  }

  function Word8(n: nat): bv8
    requires n < 0x100
  {
    n as bv8
  }

  function Twice8(x: bv8): bv8 {
    x << 1
  }

  function TwiceAndOne8(x: bv8): bv8 {
    (x << 1) | 1
  }

  lemma TwiceValue8(h: bv8)
    requires Value8(h) < 0x80
    ensures Value8(Twice8(h)) == 2 * Value8(h) && Value8(TwiceAndOne8(h)) == 2 * Value8(h) + 1
  {
  }

  lemma WordOfValue8(x: bv8)
    ensures Value8(x) < 0x100 && Word8(Value8(x)) == x
  {
  }

  lemma Zero8()
    ensures Value8(0) == 0
  {
  }

  lemma {:induction false} Number8(n: nat)
    requires n < 0x100
    ensures Value8(Word8(n)) == n
  {
    hide Value8, Word8, Twice8, TwiceAndOne8;
    if n == 0 {
      Zero8();
      WordOfValue8(0);
    } else {
      var h := Word8(n / 2);
      Number8(n / 2);
      TwiceValue8(h);
      WordOfValue8(Twice8(h));
      WordOfValue8(TwiceAndOne8(h));
    }
  }

  // ---- Bytes -----------------------------------------------------------------------------

  function Right(x: bv32, n: nat): bv32
    requires n <= 32
  {
    x >> n
  }

  function Low8(x: bv32): bv32 {
    x & 0xff
  }

  function BitNumber(x: bv32, n: nat): nat
    requires n <= 32
  {
    if Odd(Right(x, n)) then 1 else 0
  }

  /** The number of the lowest eight bits. */
  function LowValue(x: bv32): nat {
    BitNumber(x, 0) + 2 * BitNumber(x, 1) + 4 * BitNumber(x, 2) + 8 * BitNumber(x, 3)
    + 16 * BitNumber(x, 4) + 32 * BitNumber(x, 5) + 64 * BitNumber(x, 6) + 128 * BitNumber(x, 7)
  }

  lemma FirstHalves(x: bv32)
    ensures Half(Right(x, 0)) == Right(x, 1) && Half(Right(x, 1)) == Right(x, 2)
    ensures Half(Right(x, 2)) == Right(x, 3) && Half(Right(x, 3)) == Right(x, 4)
  {
    assert Half(x >> 0) == x >> 1 && Half(x >> 1) == x >> 2;
    assert Half(x >> 2) == x >> 3 && Half(x >> 3) == x >> 4;
  }

  lemma LaterHalves(x: bv32)
    ensures Half(Right(x, 4)) == Right(x, 5) && Half(Right(x, 5)) == Right(x, 6)
    ensures Half(Right(x, 6)) == Right(x, 7) && Half(Right(x, 7)) == Right(x, 8)
  {
    assert Half(x >> 4) == x >> 5 && Half(x >> 5) == x >> 6;
    assert Half(x >> 6) == x >> 7 && Half(x >> 7) == x >> 8;
  }

  lemma NextBit(x: bv32, n: nat)
    requires n < 32 && Half(Right(x, n)) == Right(x, n + 1)
    ensures Value(Right(x, n)) == 2 * Value(Right(x, n + 1)) + BitNumber(x, n)
  {
    hide Value, Half, Odd, Right;
    HalfValue(Right(x, n));
  }

  lemma EightBits(x: bv32)
    ensures Value(x) == 256 * Value(Right(x, 8)) + LowValue(x)
  {
    hide Value, Half, BitNumber;
    assert Right(x, 0) == x;
    hide Right;
    FirstHalves(x);
    LaterHalves(x);
    NextBit(x, 0);
    NextBit(x, 1);
    NextBit(x, 2);
    NextBit(x, 3);
    NextBit(x, 4);
    NextBit(x, 5);
    NextBit(x, 6);
    NextBit(x, 7);
  }

  lemma FirstBits(x: bv32)
    ensures BitNumber(Low8(x), 0) == BitNumber(x, 0) && BitNumber(Low8(x), 1) == BitNumber(x, 1)
    ensures BitNumber(Low8(x), 2) == BitNumber(x, 2) && BitNumber(Low8(x), 3) == BitNumber(x, 3)
  {
  }

  lemma LaterBits(x: bv32)
    ensures BitNumber(Low8(x), 4) == BitNumber(x, 4) && BitNumber(Low8(x), 5) == BitNumber(x, 5)
    ensures BitNumber(Low8(x), 6) == BitNumber(x, 6) && BitNumber(Low8(x), 7) == BitNumber(x, 7)
  {
  }

  lemma NothingLeft(x: bv32)
    ensures Right(Low8(x), 8) == 0
  {
  }

  /** The lowest byte is the last digit in base 256. */
  lemma ByteValue(x: bv32)
    ensures Value(Low8(x)) < 256 && Value(x) == 256 * Value(Right(x, 8)) + Value(Low8(x))
  {
    hide Value, Right, Low8, BitNumber;
    FirstBits(x);
    LaterBits(x);
    NothingLeft(x);
    EightBits(x);
    EightBits(Low8(x));
    PlusZero(0);
    BitBelow(x);
  }

  lemma BitBelow(x: bv32)
    ensures forall n: nat :: n < 32 ==> BitNumber(x, n) <= 1
  {
  }

  function Byte3(t: bv32): bv8 {
    (t >> 24) as bv8
  }

  function Byte2(t: bv32): bv8 {
    ((t >> 16) & 0xff) as bv8
  }

  function Byte1(t: bv32): bv8 {
    ((t >> 8) & 0xff) as bv8
  }

  function Byte0(t: bv32): bv8 {
    (t & 0xff) as bv8
  }

  lemma LowestByte(t: bv32)
    ensures Byte0(t) as nat == Value(Low8(t))
  {
  }

  lemma HighestByte(t: bv32)
    ensures Byte3(t) as nat == Value(Right(t, 24))
  {
  }

  lemma MiddleBytes(t: bv32)
    ensures Byte1(t) == Byte0(Right(t, 8)) && Byte2(t) == Byte0(Right(t, 16))
  {
    assert Byte0(t >> 8) == Byte1(t) && Byte0(t >> 16) == Byte2(t);
  }

  lemma RightRight(t: bv32)
    ensures Right(Right(t, 8), 8) == Right(t, 16) && Right(Right(t, 16), 8) == Right(t, 24)
  {
    assert Right(t >> 8, 8) == t >> 16 && Right(t >> 16, 8) == t >> 24;
  }

  /** The four bytes of a word are its digits in base 256. */
  lemma BytesAreDigits(t: bv32)
    ensures Value(t) == 0x100_0000 * (Byte3(t) as nat) + 0x1_0000 * (Byte2(t) as nat)
                        + 0x100 * (Byte1(t) as nat) + (Byte0(t) as nat)
  {
    hide Value, Right, Low8, Byte0, Byte1, Byte2, Byte3;
    ByteValue(t);
    ByteValue(Right(t, 8));
    ByteValue(Right(t, 16));
    RightRight(t);
    LowestByte(t);
    LowestByte(Right(t, 8));
    LowestByte(Right(t, 16));
    MiddleBytes(t);
    HighestByte(t);
  }
}
