/** The block-cipher MAC of NIST SP 800-38B: doubling in the field, and the streaming object
    that always holds the last block back. */
module Cmac {
  import opened Bits
  import opened ByteStrings
  import opened OctetStrings

  // ---- Doubling ------------------------------------------------------------------------

  /** Coefficient `p` of the polynomial a big-endian byte string stands for. */
  predicate Coefficient(s: Bytes, p: nat) {
    p / 8 < |s| && BitOf(s[|s| - 1 - p / 8], p % 8)
  }

  predicate SupportedLength(len: nat) {
    len == 8 || len == 16 || len == 32 || len == 64 || len == 128
  }

  /** The exponents, below the degree `8 len`, of the polynomial the field is built with. */
  function FieldPolynomial(len: nat): set<nat> {
    if len == 8 then {4, 3, 1, 0}
    else if len == 16 then {7, 2, 1, 0}
    else if len == 32 then {10, 5, 2, 0}
    else if len == 64 then {8, 5, 2, 0}
    else {19, 6, 1, 0}
  }

  /** `t` is `s` multiplied by x and reduced by the field polynomial. */
  ghost predicate TimesX(s: Bytes, t: Bytes) {
    |t| == |s| && forall p: nat :: TimesXAt(s, t, p)
  }

  ghost predicate TimesXAt(s: Bytes, t: Bytes, p: nat) {
    p < 8 * |s| ==>
      Coefficient(t, p) == ((p > 0 && Coefficient(s, p - 1))
                            != (Coefficient(s, 8 * |s| - 1) && p in FieldPolynomial(|s|)))
  }

  /** Adding a byte to itself and a carry shifts it and fills the low bit. */
  lemma DoubleByte(b: bv8, carry: bv8, j: nat)
    requires carry <= 1 && j < 8
    ensures BitOf(b + b + carry, j) == if j == 0 then carry == 1 else BitOf(b, j - 1)
    ensures (b >> 7 == 1) == BitOf(b, 7) && b >> 7 <= 1
  {
    if j == 0 {} else if j == 1 {} else if j == 2 {} else if j == 3 {}
    else if j == 4 {} else if j == 5 {} else if j == 6 {} else {}
  }

  /** Byte `m` of the string shifted up by one bit. */
  function ShiftedByte(s: Bytes, m: nat): bv8
    requires m < |s|
  {
    s[m] + s[m] + if m + 1 < |s| then s[m + 1] >> 7 else 0
  }

  lemma ShiftedCoefficient(s: Bytes, t: Bytes, p: nat)
    requires |t| == |s| && p < 8 * |s|
    requires t[|s| - 1 - p / 8] == ShiftedByte(s, |s| - 1 - p / 8)
    ensures Coefficient(t, p) == (p > 0 && Coefficient(s, p - 1))
  {
    var m, j := |s| - 1 - p / 8, p % 8;
    var carry := if m + 1 < |s| then s[m + 1] >> 7 else 0;
    if m + 1 < |s| {
      DoubleByte(s[m + 1], 0, 7);
    }
    DoubleByte(s[m], carry, j);
    if p > 0 {
      PreviousBit(p);
    }
  }

  lemma PreviousBit(p: nat)
    requires p > 0
    ensures p % 8 == 0 ==> (p - 1) / 8 == p / 8 - 1 && (p - 1) % 8 == 7
    ensures p % 8 > 0 ==> (p - 1) / 8 == p / 8 && (p - 1) % 8 == p % 8 - 1
  {
  }

  /** What is added to byte `m` when a bit has been shifted out. */
  function ReductionByte(len: nat, m: nat): bv8 {
    if len == 8 then (if m == 7 then 0x1b else 0)
    else if len == 16 then (if m == 15 then 0x87 else 0)
    else if len == 32 then (if m == 30 then 4 else if m == 31 then 0x25 else 0)
    else if len == 64 then (if m == 62 then 1 else if m == 63 then 0x25 else 0)
    else (if m == 125 then 8 else if m == 127 then 0x43 else 0)
  }

  lemma ReductionBits(len: nat, p: nat)
    requires SupportedLength(len) && p < 8 * len
    ensures BitOf(ReductionByte(len, len - 1 - p / 8), p % 8) == (p in FieldPolynomial(len))
  {
    if p < 8 {
      assert p / 8 == 0 && p % 8 == p;
    } else if p < 16 {
      assert p / 8 == 1 && p % 8 == p - 8;
    } else if p < 24 {
      assert p / 8 == 2 && p % 8 == p - 16;
    } else {
      assert p / 8 >= 3;
    }
  }

  /** The string shifted up by one bit. */
  function Shifted(s: Bytes): Bytes {
    seq(|s|, m requires 0 <= m < |s| => ShiftedByte(s, m))
  }

  /** The string with the low part of the field polynomial added. */
  function Reduced(s: Bytes): Bytes
    requires SupportedLength(|s|)
  {
    if |s| == 8 then s[7 := s[7] ^ 0x1b]
    else if |s| == 16 then s[15 := s[15] ^ 0x87]
    else if |s| == 32 then s[30 := s[30] ^ 4][31 := s[31] ^ 0x25]
    else if |s| == 64 then s[62 := s[62] ^ 1][63 := s[63] ^ 0x25]
    else s[125 := s[125] ^ 8][127 := s[127] ^ 0x43]
  }

  lemma NoReduction(b: bv8)
    ensures b ^ 0 == b
  {
  }

  lemma ReducedLength(s: Bytes)
    requires SupportedLength(|s|)
    ensures |Reduced(s)| == |s|
  {
  }

  lemma ReducedByte(s: Bytes, m: nat)
    requires SupportedLength(|s|) && m < |s|
    ensures Reduced(s)[m] == s[m] ^ ReductionByte(|s|, m)
  {
    NoReduction(s[m]);
  }

  lemma ReducedCoefficient(s: Bytes, p: nat)
    requires SupportedLength(|s|) && p < 8 * |s|
    ensures Coefficient(Reduced(s), p) == (Coefficient(s, p) != (p in FieldPolynomial(|s|)))
  {
    hide Reduced, ReductionByte, FieldPolynomial, BitOf;
    var m := |s| - 1 - p / 8;
    ReducedLength(s);
    ReducedByte(s, m);
    ReductionBits(|s|, p);
    XorBit(s[m], ReductionByte(|s|, m), p % 8);
  }

  /** The string doubled byte by byte. */
  function DoubledString(s: Bytes): Bytes
    requires SupportedLength(|s|)
  {
    if s[0] >> 7 != 0 then Reduced(Shifted(s)) else Shifted(s)
  }

  lemma TopCoefficient(s: Bytes)
    requires |s| > 0
    ensures Coefficient(s, 8 * |s| - 1) == (s[0] >> 7 != 0)
  {
    assert (8 * |s| - 1) / 8 == |s| - 1 && (8 * |s| - 1) % 8 == 7;
  }

  lemma DoubledAt(s: Bytes, p: nat)
    requires SupportedLength(|s|)
    ensures TimesXAt(s, DoubledString(s), p)
  {
    if p < 8 * |s| {
      ShiftedCoefficient(s, Shifted(s), p);
      ReducedCoefficient(Shifted(s), p);
      TopCoefficient(s);
    }
  }

  lemma Doubled(s: Bytes)
    requires SupportedLength(|s|)
    ensures TimesX(s, DoubledString(s))
  {
    forall p: nat ensures TimesXAt(s, DoubledString(s), p) {
      DoubledAt(s, p);
    }
  }

  ghost predicate ShiftedAt(s: Bytes, b: bv8, m: nat) {
    m < |s| && b == ShiftedByte(s, m)
  }

  /** Shifting up by one bit, in place; gives the bit shifted out. */
  method ShiftUp(k: array<bv8>) returns (carry: bv8)
    requires k.Length % 2 == 0 && k.Length > 0
    modifies k
    ensures k[..] == Shifted(old(k[..]))
    ensures carry == old(k[0]) >> 7
  {
    ghost var s := k[..];
    carry := 0;
    var i := k.Length - 1;
    while i >= 1
      invariant -1 <= i < k.Length && i % 2 == 1
      invariant forall m :: i < m < k.Length ==> ShiftedAt(s, k[m], m)
      invariant forall m :: 0 <= m <= i ==> k[m] == s[m]
      invariant carry == if i + 1 < k.Length then s[i + 1] >> 7 else 0
    {
      var carry2 := k[i] >> 7;
      k[i] := k[i] + k[i] + carry;
      carry := k[i - 1] >> 7;
      k[i - 1] := k[i - 1] + k[i - 1] + carry2;
      i := i - 2;
    }
    assert forall m :: 0 <= m < k.Length ==> ShiftedAt(s, k[m], m);
  }

  method AddReduction(k: array<bv8>)
    requires SupportedLength(k.Length)
    modifies k
    ensures k[..] == Reduced(old(k[..]))
  {
    if k.Length == 8 {
      k[7] := k[7] ^ 0x1b;
    } else if k.Length == 16 {
      k[15] := k[15] ^ 0x87;
    } else if k.Length == 32 {
      k[30] := k[30] ^ 4;
      k[31] := k[31] ^ 0x25;
    } else if k.Length == 64 {
      k[62] := k[62] ^ 1;
      k[63] := k[63] ^ 0x25;
    } else {
      NoReduction(k[126]);
      k[125] := k[125] ^ 8;
      k[126] := k[126] ^ 0x00;
      k[127] := k[127] ^ 0x43;
    }
  }

  /** Doubling in the field, in place. */
  method MulU(k: array<bv8>)
    requires SupportedLength(k.Length)
    modifies k
    ensures k[..] == DoubledString(old(k[..])) && TimesX(old(k[..]), k[..])
  {
    Doubled(k[..]);
    var carry := ShiftUp(k);
    if carry != 0 {
      AddReduction(k);
    }
  }

  // ---- The MAC -------------------------------------------------------------------------

  /** What a keyed block cipher promises here: blocks go to blocks. */
  ghost predicate KeepsLength(cipher: Bytes -> Bytes) {
    forall b :: |cipher(b)| == |b|
  }

  function CipherBlock(cipher: Bytes -> Bytes, x: Bytes, b: Bytes): Bytes {
    if |b| == |x| then cipher(Xor(x, b)) else x
  }

  function CipherStep(cipher: Bytes -> Bytes): (Bytes, Bytes) -> Bytes {
    (x, b) => CipherBlock(cipher, x, b)
  }

  /** Cipher block chaining over the whole blocks of `s`, from a zero block. */
  function Chained(cipher: Bytes -> Bytes, size: nat, s: Bytes): Bytes
    requires size > 0
  {
    Absorb(size, CipherStep(cipher), Zeros(size), s)
  }

  lemma {:induction false} AbsorbedLength(cipher: Bytes -> Bytes, size: nat, x: Bytes, s: Bytes)
    requires size > 0 && |x| == size && KeepsLength(cipher)
    ensures |Absorb(size, CipherStep(cipher), x, s)| == size
    decreases |s|
  {
    if |s| >= size {
      AbsorbedLength(cipher, size, CipherBlock(cipher, x, s[..size]), s[size..]);
    }
  }

  function Subkey1(cipher: Bytes -> Bytes, size: nat): (key: Bytes)
    requires SupportedLength(size) && KeepsLength(cipher)
    ensures |key| == size
  {
    DoubledString(cipher(Zeros(size)))
  }

  function Subkey2(cipher: Bytes -> Bytes, size: nat): (key: Bytes)
    requires SupportedLength(size) && KeepsLength(cipher)
    ensures |key| == size
  {
    DoubledString(Subkey1(cipher, size))
  }

  /** Section 6.2 of NIST SP 800-38B. */
  function Mac(cipher: Bytes -> Bytes, size: nat, message: Bytes): Bytes
    requires SupportedLength(size) && KeepsLength(cipher)
  {
    var last := LastLength(|message|, size);
    LastLengthBounds(|message|, size);
    var head, tail := message[..|message| - last], message[|message| - last..];
    AbsorbedLength(cipher, size, Zeros(size), head);
    var block := LastBlock(tail, Subkey1(cipher, size), Subkey2(cipher, size));
    cipher(Xor(block, Chained(cipher, size, head)))
  }

  /** A full last block with the first subkey, or a padded one with the second. */
  function LastBlock(tail: Bytes, k1: Bytes, k2: Bytes): (block: Bytes)
    requires |tail| <= |k1| == |k2|
    ensures |block| == |k1|
  {
    if |tail| == |k1| then Xor(tail, k1) else Xor(tail + [0x80] + Zeros(|k1| - |tail| - 1), k2)
  }

  /** A message of at most a block: one encipherment, of the message and the first subkey if it fills the
      block, and else of the message with a one bit and zeros behind it and the second. */
  lemma ShortMac(cipher: Bytes -> Bytes, size: nat, message: Bytes)
    requires SupportedLength(size) && KeepsLength(cipher) && |message| <= size
    ensures var k1 := DoubledString(cipher(Zeros(size)));
            Mac(cipher, size, message)
            == if |message| == size then cipher(Xor(message, k1))
               else cipher(Xor(message + [0x80] + Zeros(size - |message| - 1), DoubledString(k1)))
  {
    hide DoubledString;
    var last := LastLength(|message|, size);
    OnlyBlock(|message|, size);
    assert message[..|message| - last] == [] && message[|message| - last..] == message;
    var block := LastBlock(message, Subkey1(cipher, size), Subkey2(cipher, size));
    assert Chained(cipher, size, []) == Zeros(size);
    XorNothing(block);
  }

  lemma XorNothing(block: Bytes)
    ensures Xor(block, Zeros(|block|)) == block
  {
  }

  lemma OnlyBlock(len: nat, size: nat)
    requires len <= size && size > 0
    ensures LastLength(len, size) == len
  {
    if len > 0 {
      SmallRemainder(len - 1, size);
    }
  }

  /** `s` added into a buffer at a position. */
  function XorAt(buf: Bytes, at: nat, s: Bytes): Bytes {
    seq(|buf|, i requires 0 <= i < |buf| => if at <= i < at + |s| then buf[i] ^ s[i - at] else buf[i])
  }

  /** The register after `message`: whole blocks chained, and the last `counter` bytes added in
      but not yet enciphered. */
  ghost predicate Holds(cipher: Bytes -> Bytes, reg: Bytes, counter: nat, message: Bytes) {
    && counter <= |reg| && counter <= |message| && |reg| > 0
    && (|message| - counter) % |reg| == 0
    && reg == XorAt(Chained(cipher, |reg|, message[..|message| - counter]), 0, message[|message| - counter..])
  }

  lemma HoldsMore(cipher: Bytes -> Bytes, reg: Bytes, counter: nat, message: Bytes, more: Bytes)
    requires Holds(cipher, reg, counter, message) && counter + |more| <= |reg|
    ensures Holds(cipher, XorAt(reg, counter, more), counter + |more|, message + more)
  {
    var head, tail := message[..|message| - counter], message[|message| - counter..];
    assert (message + more)[..|message| - counter] == head;
    assert (message + more)[|message| - counter..] == tail + more;
    var x := Chained(cipher, |reg|, head);
    assert |x| == |reg|;
    assert XorAt(XorAt(x, 0, tail), counter, more) == XorAt(x, 0, tail + more);
  }

  lemma HoldsFull(cipher: Bytes -> Bytes, reg: Bytes, message: Bytes)
    requires Holds(cipher, reg, |reg|, message) && KeepsLength(cipher)
    ensures Holds(cipher, cipher(reg), 0, message)
  {
    var n := |reg|;
    var head, tail := message[..|message| - n], message[|message| - n..];
    var x := Chained(cipher, n, head);
    assert head + tail == message == message[..|message|];
    AbsorbConcat(n, CipherStep(cipher), Zeros(n), head, tail);
    AbsorbOne(n, CipherStep(cipher), x, tail);
    assert Xor(x, tail) == XorAt(x, 0, tail);
    assert XorAt(cipher(reg), 0, []) == cipher(reg);
    FullBlockLeft(|message|, n);
  }

  lemma HoldsWhole(cipher: Bytes -> Bytes, reg: Bytes, message: Bytes, more: Bytes)
    requires Holds(cipher, reg, 0, message) && |more| % |reg| == 0
    ensures |message + more| % |reg| == 0
    ensures Absorb(|reg|, CipherStep(cipher), reg, more) == Chained(cipher, |reg|, message + more)
  {
    var n := |reg|;
    assert message[..|message|] == message;
    assert reg == Chained(cipher, n, message);
    AbsorbConcat(n, CipherStep(cipher), Zeros(n), message, more);
    WholeSum(|message|, |more|, n);
  }

  /** The block the code enciphers last. */
  function FinalBlock(reg: Bytes, counter: nat, k1: Bytes, k2: Bytes): Bytes
    requires |reg| == |k1| == |k2|
  {
    if counter < |reg| then Xor(XorAt(reg, counter, [0x80]), k2) else Xor(reg, k1)
  }

  lemma SameBlock(x: Bytes, tail: Bytes, k1: Bytes, k2: Bytes)
    requires |tail| <= |x| == |k1| == |k2|
    ensures Xor(LastBlock(tail, k1, k2), x) == FinalBlock(XorAt(x, 0, tail), |tail|, k1, k2)
  {
    if |tail| == |x| {
      ReorderFull(x, tail, k1);
    } else {
      ReorderPadded(x, tail, k2);
    }
  }

  /** The tag from the register that holds the message. */
  lemma HeldMac(cipher: Bytes -> Bytes, reg: Bytes, counter: nat, message: Bytes)
    requires SupportedLength(|reg|) && KeepsLength(cipher)
    requires Holds(cipher, reg, counter, message) && (counter == 0 ==> message == [])
    ensures Mac(cipher, |reg|, message)
         == cipher(FinalBlock(reg, counter, Subkey1(cipher, |reg|), Subkey2(cipher, |reg|)))
  {
    var n := |reg|;
    LastIsCounter(|message|, counter, n);
    var head, tail := message[..|message| - counter], message[|message| - counter..];
    var x := Chained(cipher, n, head);
    AbsorbedLength(cipher, n, Zeros(n), head);
    SameBlock(x, tail, Subkey1(cipher, n), Subkey2(cipher, n));
  }

  lemma ReorderFull(x: Bytes, tail: Bytes, key: Bytes)
    requires |x| == |tail| == |key|
    ensures Xor(Xor(tail, key), x) == Xor(XorAt(x, 0, tail), key)
  {
    forall i | 0 <= i < |x| ensures Xor(Xor(tail, key), x)[i] == Xor(XorAt(x, 0, tail), key)[i] {
      ReorderByte(x[i], tail[i], key[i]);
    }
  }

  lemma ReorderPadded(x: Bytes, tail: Bytes, key: Bytes)
    requires |tail| < |x| == |key|
    ensures Xor(Xor(tail + [0x80] + Zeros(|x| - |tail| - 1), key), x)
         == Xor(XorAt(XorAt(x, 0, tail), |tail|, [0x80]), key)
  {
    var padded := tail + [0x80] + Zeros(|x| - |tail| - 1);
    forall i | 0 <= i < |x|
      ensures XorAt(XorAt(x, 0, tail), |tail|, [0x80])[i] == XorAt(x, 0, padded)[i]
    {
      NoReduction(x[i]);
    }
    assert XorAt(XorAt(x, 0, tail), |tail|, [0x80]) == XorAt(x, 0, padded);
    ReorderFull(x, padded, key);
  }

  lemma ReorderByte(a: bv8, b: bv8, c: bv8)
    ensures (b ^ c) ^ a == (a ^ b) ^ c
  {
  }

  datatype Status = Done(tag: Bytes) | InvalidArgument

  method MakeSubkeys(cipher: Bytes -> Bytes, size: nat) returns (k1: array<bv8>, k2: array<bv8>)
    requires SupportedLength(size) && KeepsLength(cipher)
    ensures fresh(k1) && fresh(k2)
    ensures k1[..] == Subkey1(cipher, size) && k2[..] == Subkey2(cipher, size)
  {
    var zeroBlock := cipher(Zeros(size));
    k1 := new bv8[size](i requires 0 <= i < size => zeroBlock[i]);
    assert k1[..] == zeroBlock;
    MulU(k1);
    var copied := k1[..];
    k2 := new bv8[size](i requires 0 <= i < size => copied[i]);
    assert k2[..] == copied;
    MulU(k2);
  }

  /** The streaming object. `reg`, `k1` and `k2` are the three parts of one buffer. */
  class CmacBase {
    const cipher: Bytes -> Bytes
    const blockSize: nat
    const reg: array<bv8>
    const k1: array<bv8>
    const k2: array<bv8>
    var counter: nat
    ghost var message: Bytes

    ghost predicate Valid()
      reads this, reg, k1, k2
    {
      && Keyed(k1[..], k2[..])
      && reg != k1 && reg != k2 && Held()
      && (counter == 0 ==> message == [])
    }

    ghost predicate Held()
      reads this, reg
    {
      && reg.Length == blockSize && KeepsLength(cipher)
      && Holds(cipher, reg[..], counter, message)
    }

    ghost predicate Keyed(first: Bytes, second: Bytes) {
      && SupportedLength(blockSize) && KeepsLength(cipher)
      && first == Subkey1(cipher, blockSize) && second == Subkey2(cipher, blockSize)
    }

    /** Keying: both subkeys by doubling the encrypted zero block. */
    constructor (cipher: Bytes -> Bytes, blockSize: nat)
      requires SupportedLength(blockSize) && KeepsLength(cipher)
      ensures Valid() && message == []
      ensures this.cipher == cipher && this.blockSize == blockSize
      ensures fresh(reg) && fresh(k1) && fresh(k2)
    {
      this.cipher, this.blockSize := cipher, blockSize;
      var zero := new bv8[blockSize](_ => 0);
      var first, second := MakeSubkeys(cipher, blockSize);
      reg, k1, k2 := zero, first, second;
      counter, message := 0, [];
      new;
      assert reg[..] == Zeros(blockSize) == XorAt(Zeros(blockSize), 0, []);
      assert message[..0] == [] && message[0..] == [];
    }

    /** `xorbuf` at the counter. */
    method XorIn(input: Bytes)
      requires counter + |input| <= reg.Length
      modifies reg
      ensures reg[..] == XorAt(old(reg[..]), counter, input)
    {
      forall i | 0 <= i < |input| {
        reg[counter + i] := reg[counter + i] ^ input[i];
      }
    }

    /** Replaces the register. */
    method Put(block: Bytes)
      requires |block| == reg.Length
      modifies reg
      ensures reg[..] == block
    {
      forall i | 0 <= i < reg.Length {
        reg[i] := block[i];
      }
    }

    /** Chains the whole blocks of the input into the register; gives the length left over. */
    method ProcessBlocks(input: Bytes, length: nat) returns (leftOver: nat)
      requires length <= |input| && reg.Length == blockSize > 0 && KeepsLength(cipher)
      modifies reg
      ensures leftOver == length % blockSize && leftOver <= length
      ensures reg[..] == Absorb(blockSize, CipherStep(cipher), old(reg[..]), input[..length - leftOver])
    {
      leftOver := length;
      var at := 0;
      ghost var step, start := CipherStep(cipher), reg[..];
      while leftOver >= blockSize
        invariant at + leftOver == length
        invariant at % blockSize == 0 && leftOver % blockSize == length % blockSize
        invariant reg[..] == Absorb(blockSize, step, start, input[..at])
      {
        ghost var block := input[at..at + blockSize];
        AbsorbConcat(blockSize, step, start, input[..at], block);
        AbsorbOne(blockSize, step, reg[..], block);
        assert input[..at + blockSize] == input[..at] + block;
        DropWhole(leftOver, blockSize);
        DropWhole(at + blockSize, blockSize);
        Put(cipher(Xor(reg[..], input[at..at + blockSize])));
        at, leftOver := at + blockSize, leftOver - blockSize;
      }
      SmallRemainder(leftOver, blockSize);
    }

    /** Takes message bytes, in any pieces; the last block waits for more. */
    method Update(input: Bytes)
      requires Valid()
      modifies this`counter, this`message, reg
      ensures Valid() && message == old(message) + input
    {
      if |input| == 0 {
        assert message + input == message;
        return;
      }
      var rest := FillBlock(input);
      if |rest| > blockSize {
        rest := WholeBlocks(rest);
      }
      if |rest| > 0 {
        HoldsMore(cipher, reg[..], counter, message, rest);
        XorIn(rest);
        counter := counter + |rest|;
        message := message + rest;
      }
    }

    /** The pending block first: it is enciphered only once more bytes follow. */
    method FillBlock(input: Bytes) returns (rest: Bytes)
      requires Held() && |input| > 0
      modifies this`counter, this`message, reg
      ensures Holds(cipher, reg[..], counter, message)
      ensures message + rest == old(message) + input
      ensures if rest == [] then counter > 0 else counter == 0
    {
      rest := input;
      if counter > 0 {
        var len := if blockSize - counter < |input| then blockSize - counter else |input|;
        if len > 0 {
          HoldsMore(cipher, reg[..], counter, message, input[..len]);
          XorIn(input[..len]);
          rest := rest[len..];
          counter := counter + len;
          message := message + input[..len];
        }
        if counter == blockSize && |rest| > 0 {
          HoldsFull(cipher, reg[..], message);
          Put(cipher(reg[..]));
          counter := 0;
        }
      }
    }

    /** All but the last 1 to `blockSize` bytes, in whole blocks. */
    method WholeBlocks(input: Bytes) returns (rest: Bytes)
      requires Held() && counter == 0 && |input| > blockSize
      modifies this`message, reg
      ensures Holds(cipher, reg[..], counter, message)
      ensures message + rest == old(message) + input && 0 < |rest| <= blockSize
    {
      ghost var before := reg[..];
      var leftOver := ProcessBlocks(input, |input| - 1);
      leftOver := 1 + leftOver;
      ghost var whole := input[..|input| - leftOver];
      WholePart(|input| - 1, blockSize);
      HoldsWhole(cipher, before, message, whole);
      rest := input[|input| - leftOver..];
      message := message + whole;
      assert message[..|message|] == message && message[|message|..] == [];
      assert XorAt(reg[..], 0, []) == reg[..];
    }

    /** The tag: the last block gets the first subkey when it is full, else padding and the
        second; then the object is ready for the next message. */
    method TruncatedFinal(size: nat) returns (status: Status)
      requires Valid()
      modifies this`counter, this`message, reg
      ensures Valid()
      ensures size > blockSize ==> status == InvalidArgument && message == old(message)
      ensures size <= blockSize ==> message == []
      ensures size <= blockSize ==> status == Done(Mac(cipher, blockSize, old(message))[..size])
    {
      if size > blockSize {
        return InvalidArgument;
      }
      HeldMac(cipher, reg[..], counter, message);
      if counter < blockSize {
        XorIn([0x80]);
        Put(cipher(Xor(reg[..], k2[..])));
      } else {
        Put(cipher(Xor(reg[..], k1[..])));
      }
      status := Done(reg[..size]);
      assert reg[..size] == reg[..][..size];
      counter, message := 0, [];
      Put(Zeros(blockSize));
      assert reg[..] == XorAt(Zeros(blockSize), 0, []);
      assert message[..0] == [] && message[0..] == [];
    }
  }

  /** Any message in any pieces, and any size of tag: section 6.2 of NIST SP 800-38B. */
  method MacOfPieces(cipher: Bytes -> Bytes, blockSize: nat, pieces: seq<Bytes>, size: nat) returns (status: Status)
    requires SupportedLength(blockSize) && KeepsLength(cipher)
    ensures status == if size > blockSize then InvalidArgument
                      else Done(Mac(cipher, blockSize, Concat(pieces))[..size])
  {
    var mac := new CmacBase(cipher, blockSize);
    assert [] + Concat(pieces) == Concat(pieces);
    for i := 0 to |pieces|
      invariant fresh(mac) && fresh(mac.reg) && mac.Valid()
      invariant mac.message + Concat(pieces[i..]) == Concat(pieces)
    {
      NextPiece(mac.message, pieces, i);
      mac.Update(pieces[i]);
    }
    assert mac.message + [] == mac.message;
    status := mac.TruncatedFinal(size);
  }
}
