/** The round functions of CAST as arithmetic modulo 2^32 on the bytes of the turned word. */
module CastNumbers {
  import opened CastCiphers
  import opened MachineWords

  predicate Bit(x: bv32, j: bv5) {
    (x >> j) & 1 == 1
  }

  lemma RotatedIs(x: bv32, turn: bv5)
    ensures Rotated(x, turn as bv32) == (x << turn) | (x >> (0 - turn))
  {
  }

  lemma TurnedBit(x: bv32, turn: bv5, j: bv5)
    ensures Bit((x << turn) | (x >> (0 - turn)), j) == Bit(x, j - turn)
  {
  }

  /** Turning moves each bit up; bit numbers wrap around. */
  lemma RotatedBit(x: bv32, turn: bv5, j: bv5)
    ensures Bit(Rotated(x, turn as bv32), j) == Bit(x, j - turn)
  {
    RotatedIs(x, turn);
    TurnedBit(x, turn, j);
  }

  /** A sum, a difference and a sum wrap around as one. */
  lemma WrapOnce(a: int, b: int, c: int)
    ensures ((a - b) % WORD + c) % WORD == (a - b + c) % WORD
    ensures ((a + b) % WORD - c) % WORD == (a + b - c) % WORD
  {
  }

  /** The first round function: the key added, the word turned, and one sum modulo 2^32. */
  lemma RoundOne(s: Boxes, r: bv32, km: bv32, kr: bv32)
    requires kr < 32
    ensures var turned := Word((Value(km) + Value(r)) % WORD);
            var t := Rotated(turned, kr);
            Value(RoundFunction(s, One, r, km, kr))
            == (Value(Add(s(0, Byte3(t)), s(1, Byte2(t)))) - Value(s(2, Byte1(t))) + Value(s(3, Byte0(t)))) % WORD
  {
    hide Value, Rotated, Byte0, Byte1, Byte2, Byte3, Plus, Minus, Add, Word;
    PlusValue(km, r);
    WordOfValue(Plus(km, r));
    var t := Rotated(Plus(km, r), kr);
    var x, y, z := Add(s(0, Byte3(t)), s(1, Byte2(t))), s(2, Byte1(t)), s(3, Byte0(t));
    MinusValue(x, y);
    PlusValue(Minus(x, y), z);
    WrapOnce(Value(x), Value(y), Value(z));
  }

  /** The second: the key combined, and one sum modulo 2^32 before the last combination. */
  lemma RoundTwo(s: Boxes, r: bv32, km: bv32, kr: bv32)
    requires kr < 32
    ensures var t := Rotated(Add(km, r), kr);
            var sum := (Value(s(0, Byte3(t))) - Value(s(1, Byte2(t))) + Value(s(2, Byte1(t)))) % WORD;
            RoundFunction(s, Two, r, km, kr) == Add(Word(sum), s(3, Byte0(t)))
  {
    hide Value, Rotated, Byte0, Byte1, Byte2, Byte3, Plus, Minus, Add, Word;
    var t := Rotated(Add(km, r), kr);
    var x, y, z := s(0, Byte3(t)), s(1, Byte2(t)), s(2, Byte1(t));
    MinusValue(x, y);
    PlusValue(Minus(x, y), z);
    WrapOnce(Value(x), Value(y), Value(z));
    WordOfValue(Plus(Minus(x, y), z));
  }

  /** The third: the word taken from the key, and a combination between a sum and a difference. */
  lemma RoundThree(s: Boxes, r: bv32, km: bv32, kr: bv32)
    requires kr < 32
    ensures var t := Rotated(Word((Value(km) - Value(r)) % WORD), kr);
            var sum := (Value(s(0, Byte3(t))) + Value(s(1, Byte2(t)))) % WORD;
            Value(RoundFunction(s, Three, r, km, kr))
            == (Value(Add(Word(sum), s(2, Byte1(t)))) - Value(s(3, Byte0(t)))) % WORD
  {
    hide Value, Rotated, Byte0, Byte1, Byte2, Byte3, Plus, Minus, Add, Word;
    MinusValue(km, r);
    WordOfValue(Minus(km, r));
    var t := Rotated(Minus(km, r), kr);
    var x, y, z, w := s(0, Byte3(t)), s(1, Byte2(t)), s(2, Byte1(t)), s(3, Byte0(t));
    PlusValue(x, y);
    WordOfValue(Plus(x, y));
    MinusValue(Add(Plus(x, y), z), w);
  }

  lemma LowBit(x: bv32, y: bv32)
    ensures ((x ^ y) & 1 == 1) == ((x & 1 == 1) != (y & 1 == 1))
  {
  }

  lemma MovedDown(x: bv32, y: bv32, j: bv5)
    ensures (x ^ y) >> j == (x >> j) ^ (y >> j)
  {
  }

  /** Combining is exclusive or, bit by bit. */
  lemma AddBit(x: bv32, y: bv32, j: bv5)
    ensures Bit(Add(x, y), j) == (Bit(x, j) != Bit(y, j))
  {
    MovedDown(x, y, j);
    LowBit(x >> j, y >> j);
  }
}
