/** Byte strings: exclusive or, padding, fixed-width integers, and chaining over blocks. */
module ByteStrings {
  import opened Bits
  import MachineWords

  type Bytes = seq<bv8>

  function Zeros(n: nat): Bytes {
    seq(n, _ => 0)
  }

  /** Byte-wise exclusive or with a string at least as long. */
  function Xor(a: Bytes, b: Bytes): Bytes
    requires |a| <= |b|
  {
    seq(|a|, i requires 0 <= i < |a| => a[i] ^ b[i])
  }

  lemma XorTwice(a: Bytes, b: Bytes)
    requires |a| <= |b|
    ensures Xor(Xor(a, b), b) == a
  {
  }

  /** Bit `j` of a byte, 0 being the lowest. */
  predicate BitOf(b: bv8, j: nat) {
    match j
    case 0 => b & 0x01 != 0
    case 1 => b & 0x02 != 0
    case 2 => b & 0x04 != 0
    case 3 => b & 0x08 != 0
    case 4 => b & 0x10 != 0
    case 5 => b & 0x20 != 0
    case 6 => b & 0x40 != 0
    case 7 => b & 0x80 != 0
    case _ => false
  }

  lemma XorBit(a: bv8, b: bv8, j: nat)
    ensures BitOf(a ^ b, j) == (BitOf(a, j) != BitOf(b, j))
  {
    if j == 0 {} else if j == 1 {} else if j == 2 {} else if j == 3 {}
    else if j == 4 {} else if j == 5 {} else if j == 6 {} else if j == 7 {} else {}
  }

  function Byte(n: nat): bv8 {
    (n % 256) as bv8
  }

  lemma SmallByte(n: nat)
    requires n < 256
    ensures Byte(n) == MachineWords.Word8(n)
  {
    assert n % 256 == n;
  }

  /** A byte is the number it was made from. */
  lemma ByteNumber(n: nat)
    requires n < 256
    ensures Byte(n) as nat == n
  {
    hide Byte;
    assert Byte(n) == MachineWords.Word8(n) by {
      SmallByte(n);
    }
    MachineWords.Number8(n);
  }

  /** The low `size` bytes of `n`, most significant first. */
  function BigEndian(n: nat, size: nat): Bytes {
    if size == 0 then [] else BigEndian(n / 256, size - 1) + [Byte(n)]
  }

  /** The low `size` bytes of `n`, least significant first. */
  function LittleEndian(n: nat, size: nat): Bytes {
    if size == 0 then [] else [Byte(n)] + LittleEndian(n / 256, size - 1)
  }

  lemma {:induction false} BigEndianLength(n: nat, size: nat)
    ensures |BigEndian(n, size)| == size
  {
    if size > 0 {
      BigEndianLength(n / 256, size - 1);
    }
  }

  lemma {:induction false} BigEndianSuffix(n: nat, wide: nat, narrow: nat)
    requires narrow <= wide
    ensures |BigEndian(n, wide)| == wide && BigEndian(n, wide)[wide - narrow..] == BigEndian(n, narrow)
  {
    BigEndianLength(n, wide);
    if narrow > 0 {
      BigEndianSuffix(n / 256, wide - 1, narrow - 1);
    }
  }

  /** `q` times `256^size`. */
  function Scaled(q: nat, size: nat): nat {
    if size == 0 then q else 256 * Scaled(q, size - 1)
  }

  /** What does not fit into the bytes does not show in them. */
  lemma {:induction false} LittleEndianWraps(r: nat, q: nat, size: nat)
    ensures LittleEndian(r + Scaled(q, size), size) == LittleEndian(r, size)
  {
    if size > 0 {
      LittleEndianWraps(r / 256, q, size - 1);
      assert (r + Scaled(q, size)) / 256 == r / 256 + Scaled(q, size - 1);
    }
  }

  /** A 64-bit counter and the number it counts have the same eight bytes. */
  lemma LittleEndianCounter(n: nat)
    ensures LittleEndian(n % 0x1_0000_0000_0000_0000, 8) == LittleEndian(n, 8)
  {
    var q, r := n / 0x1_0000_0000_0000_0000, n % 0x1_0000_0000_0000_0000;
    LittleEndianWraps(r, q, 8);
    assert Scaled(q, 8) == 256 * Scaled(q, 7) && Scaled(q, 7) == 256 * Scaled(q, 6);
    assert Scaled(q, 6) == 256 * Scaled(q, 5) && Scaled(q, 5) == 256 * Scaled(q, 4);
    assert Scaled(q, 4) == 256 * Scaled(q, 3) && Scaled(q, 3) == 256 * Scaled(q, 2);
    assert Scaled(q, 2) == 256 * Scaled(q, 1) && Scaled(q, 1) == 256 * Scaled(q, 0);
  }

  /** What is missing to a multiple of 16. */
  function PadLength(n: nat): nat {
    (16 - n % 16) % 16
  }

  function Pad16(s: Bytes): Bytes {
    s + Zeros(PadLength(|s|))
  }

  /** Takes a state through the whole blocks of a string, one step per block; a last part
      shorter than a block is left. */
  function Absorb<X>(size: nat, step: (X, Bytes) -> X, x: X, s: Bytes): X
    requires size > 0
    decreases |s|
  {
    if |s| < size then x else Absorb(size, step, step(x, s[..size]), s[size..])
  }

  lemma {:induction false} AbsorbConcat<X>(size: nat, step: (X, Bytes) -> X, x: X, a: Bytes, b: Bytes)
    requires size > 0 && |a| % size == 0
    ensures Absorb(size, step, x, a + b) == Absorb(size, step, Absorb(size, step, x, a), b)
    decreases |a|
  {
    if |a| < size {
      EmptyWhole(|a|, size);
      assert a + b == b;
    } else {
      assert (a + b)[..size] == a[..size] && (a + b)[size..] == a[size..] + b;
      DropWhole(|a|, size);
      AbsorbConcat(size, step, step(x, a[..size]), a[size..], b);
    }
  }

  lemma EmptyWhole(n: nat, size: nat)
    requires n < size && n % size == 0
    ensures n == 0
  {
  }

  lemma DropWhole(n: nat, size: nat)
    requires size > 0 && n >= size
    ensures (n - size) % size == n % size
  {
    var q, r := n / size, n % size;
    assert n == q * size + r;
    assert (q - 1) * size == q * size - size;
    Unquotient(n - size, size, q - 1, r);
  }

  lemma AbsorbNothing<X>(size: nat, step: (X, Bytes) -> X, x: X)
    requires size > 0
    ensures Absorb(size, step, x, []) == x
  {
  }

  /** A whole block on its own is one step. */
  lemma AbsorbOne<X>(size: nat, step: (X, Bytes) -> X, x: X, b: Bytes)
    requires size > 0 && |b| == size
    ensures Absorb(size, step, x, b) == step(x, b)
  {
    assert b[..size] == b && b[size..] == [];
  }

  /** The length of the last block: empty only for the empty message. */
  function LastLength(len: nat, size: nat): nat
    requires size > 0
  {
    if len == 0 then 0 else 1 + (len - 1) % size
  }

  lemma LastLengthBounds(len: nat, size: nat)
    requires size > 0
    ensures LastLength(len, size) <= size && LastLength(len, size) <= len
    ensures LastLength(len, size) == 0 <==> len == 0
    ensures (len - LastLength(len, size)) % size == 0
  {
    if len > 0 {
      var q, r := (len - 1) / size, (len - 1) % size;
      assert len - 1 == q * size + r;
      MulMonotone(0, q, size);
      Unquotient(q * size, size, q, 0);
    }
  }

  lemma FullBlockLeft(len: nat, n: nat)
    requires 0 < n <= len && (len - n) % n == 0
    ensures len % n == 0
  {
    DropWhole(len, n);
  }

  lemma WholeSum(a: nat, b: nat, n: nat)
    requires n > 0 && a % n == 0 && b % n == 0
    ensures (a + b) % n == 0
  {
    var p, q := a / n, b / n;
    assert (p + q) * n == p * n + q * n;
    Unquotient(a + b, n, p + q, 0);
  }

  lemma LastIsCounter(len: nat, counter: nat, n: nat)
    requires 0 < n && counter <= n && counter <= len && (len - counter) % n == 0
    requires counter == 0 ==> len == 0
    ensures LastLength(len, n) == counter
  {
    if counter > 0 {
      var q := (len - counter) / n;
      Unquotient(len - 1, n, q, counter - 1);
    }
  }

  lemma SmallRemainder(n: nat, size: nat)
    requires n < size
    ensures n % size == n
  {
  }

  lemma WholePart(n: nat, size: nat)
    requires size > 0
    ensures (n - n % size) % size == 0 && n % size <= n
  {
    var q := n / size;
    assert n == q * size + n % size;
    MulMonotone(0, q, size);
    Unquotient(q * size, size, q, 0);
  }

  type Block = b: Bytes | |b| == 16 witness [0, 0, 0, 0, 0, 0, 0, 0, 0, 0, 0, 0, 0, 0, 0, 0]

  function ChainBlock(cipher: Block -> Block, x: Block, b: Bytes): Block {
    if |b| == 16 then cipher(Xor(x, b)) else x
  }

  /** One step of chaining. */
  function ChainStep(cipher: Block -> Block): (Block, Bytes) -> Block {
    (x, b) => ChainBlock(cipher, x, b)
  }

  /** Chains the whole blocks of a string through a cipher. */
  function Chain(cipher: Block -> Block, x: Block, s: Bytes): Block {
    Absorb(16, ChainStep(cipher), x, s)
  }

  lemma ChainConcat(cipher: Block -> Block, x: Block, a: Bytes, b: Bytes)
    requires |a| % 16 == 0
    ensures Chain(cipher, x, a + b) == Chain(cipher, Chain(cipher, x, a), b)
  {
    AbsorbConcat(16, ChainStep(cipher), x, a, b);
  }

  lemma ChainOne(cipher: Block -> Block, x: Block, b: Block)
    ensures Chain(cipher, x, b) == cipher(Xor(x, b))
  {
    AbsorbOne(16, ChainStep(cipher), x, b);
  }
}
