/** BLAKE2: the buffering hash object, its two-word counter, and the block list of RFC 7693. */
module Blake2Hashes {
  import opened Bits
  import opened ByteStrings
  import opened OctetStrings

  /** BLAKE2s or BLAKE2b. The chain value is kept as the bytes of its eight words; the compression
      function also takes the two counter words and the two finalization flags. */
  datatype Variant = Variant(wordModulus: nat, blockSize: nat, iv: Bytes,
                             compress: (Bytes, Bytes, nat, nat, nat, nat) -> Bytes)

  ghost predicate IsVariant(v: Variant) {
    && (|| (v.wordModulus == 0x1_0000_0000 && v.blockSize == 64 && |v.iv| == 32)
        || (v.wordModulus == 0x1_0000_0000_0000_0000 && v.blockSize == 128 && |v.iv| == 64))
    && forall h, b, t0, t1, f0, f1 :: |v.compress(h, b, t0, t1, f0, f1)| == |h|
  }

  // ---- Section 3 of RFC 7693 -------------------------------------------------------------

  /** The function F: a counter of two words, all-ones flags on the last block. */
  function F(v: Variant, h: Bytes, block: Bytes, t: nat, last: bool, tree: bool): Bytes
    requires v.wordModulus > 0
  {
    v.compress(h, block, t % v.wordModulus, t / v.wordModulus % v.wordModulus,
               if last then v.wordModulus - 1 else 0,
               if last && tree then v.wordModulus - 1 else 0)
  }

  /** Cut into blocks, the last filled up with zeros. */
  function Pieces(size: nat, s: Bytes): seq<Bytes>
    requires size > 0
    decreases |s|
  {
    if s == [] then []
    else if |s| <= size then [s + Zeros(size - |s|)]
    else [s[..size]] + Pieces(size, s[size..])
  }

  function DataBlocks(size: nat, key: Bytes, message: Bytes): seq<Bytes>
    requires size > 0
  {
    var d := Pieces(size, key) + Pieces(size, message);
    if d == [] then [Zeros(size)] else d
  }

  function Rounds(v: Variant, h: Bytes, d: seq<Bytes>, n: nat): Bytes
    requires v.wordModulus > 0 && n <= |d|
  {
    if n == 0 then h else F(v, Rounds(v, h, d, n - 1), d[n - 1], n * v.blockSize, false, false)
  }

  function Hash(v: Variant, h: Bytes, key: Bytes, message: Bytes, tree: bool): Bytes
    requires v.wordModulus > 0 && v.blockSize > 0
  {
    var d := DataBlocks(v.blockSize, key, message);
    var length := |message| + if key == [] then 0 else v.blockSize;
    F(v, Rounds(v, h, d, |d| - 1), d[|d| - 1], length, true, tree)
  }

  // ---- The running form ------------------------------------------------------------------

  datatype Running = Running(h: Bytes, count: nat)

  function Next(v: Variant, x: Running, block: Bytes): Running
    requires v.wordModulus > 0
  {
    Running(F(v, x.h, block, x.count + v.blockSize, false, false), x.count + v.blockSize)
  }

  function Step(v: Variant): (Running, Bytes) -> Running
    requires v.wordModulus > 0
  {
    (x, b) => Next(v, x, b)
  }

  function Closed(v: Variant, x: Running, tail: Bytes, tree: bool): Bytes
    requires v.wordModulus > 0 && |tail| <= v.blockSize
  {
    F(v, x.h, tail + Zeros(v.blockSize - |tail|), x.count + |tail|, true, tree)
  }

  /** Every block but the last is compressed as it is; the last carries the flag. */
  function Streamed(v: Variant, x: Running, s: Bytes, tree: bool): Bytes
    requires v.wordModulus > 0 && v.blockSize > 0
  {
    var last := LastLength(|s|, v.blockSize);
    LastLengthBounds(|s|, v.blockSize);
    Closed(v, Absorb(v.blockSize, Step(v), x, s[..|s| - last]), s[|s| - last..], tree)
  }

  /** A first block followed by more is one step. */
  lemma StreamedStep(v: Variant, x: Running, s: Bytes, tree: bool)
    requires v.wordModulus > 0 && 0 < v.blockSize < |s|
    ensures Streamed(v, x, s, tree) == Streamed(v, Next(v, x, s[..v.blockSize]), s[v.blockSize..], tree)
  {
    hide LastLength, Closed, F;
    var size := v.blockSize;
    var last, rest := LastLength(|s|, size), s[size..];
    LastLengthBounds(|s|, size);
    LastOfRest(|s|, size);
    LastLengthBounds(|rest|, size);
    var head := s[..|s| - last];
    assert head[size..] == rest[..|rest| - last] && head[..size] == s[..size];
    assert s[|s| - last..] == rest[|rest| - last..];
  }

  lemma LastOfRest(len: nat, size: nat)
    requires 0 < size < len
    ensures LastLength(len - size, size) == LastLength(len, size)
  {
    DropWhole(len - 1, size);
  }

  /** The stream of what follows `i` blocks takes the rounds from `i` on. */
  lemma {:induction false} StreamedIsRounds(v: Variant, h: Bytes, s: Bytes, d: seq<Bytes>, i: nat, at: nat, tree: bool)
    requires v.wordModulus > 0 && v.blockSize > 0 && at == i * v.blockSize
    requires s != [] && i < |d| && d[i..] == Pieces(v.blockSize, s)
    ensures Streamed(v, Running(Rounds(v, h, d, i), at), s, tree)
         == F(v, Rounds(v, h, d, |d| - 1), d[|d| - 1], at + |s|, true, tree)
    decreases |d| - i
  {
    hide F;
    var size := v.blockSize;
    var x := Running(Rounds(v, h, d, i), at);
    if |s| <= size {
      hide Absorb;
      AbsorbNothing(size, Step(v), x);
      WholeTail(|s|, size);
      assert s[..0] == [] && s[0..] == s;
      assert d[i..][0] == d[i];
    } else {
      hide Streamed;
      StreamedStep(v, x, s, tree);
      assert d[i..][0] == d[i] && d[i..][1..] == d[i + 1..];
      assert d[i + 1..] == Pieces(size, s[size..]);
      assert at + size == (i + 1) * size;
      StreamedIsRounds(v, h, s[size..], d, i + 1, at + size, tree);
    }
  }

  lemma WholeTail(n: nat, size: nat)
    requires 0 < n <= size
    ensures LastLength(n, size) == n
  {
    SmallRemainder(n - 1, size);
  }

  lemma {:induction false} PiecesConcat(size: nat, a: Bytes, b: Bytes)
    requires size > 0 && |a| == size
    ensures Pieces(size, a) == [a]
    ensures Pieces(size, a + b) == [a] + Pieces(size, b)
  {
    assert a + Zeros(0) == a;
    if b == [] {
      assert a + b == a;
    } else {
      assert (a + b)[..size] == a && (a + b)[size..] == b;
    }
  }

  /** The key filled up to a block, as it is fed in before the message. */
  function KeyBlock(size: nat, key: Bytes): Bytes
    requires |key| <= size
  {
    if key == [] then [] else key + Zeros(size - |key|)
  }

  /** The streamed key and message give the hash of RFC 7693. */
  lemma StreamedIsHash(v: Variant, h: Bytes, key: Bytes, message: Bytes, tree: bool)
    requires v.wordModulus > 0 && v.blockSize > 0 && |key| <= v.blockSize
    ensures Streamed(v, Running(h, 0), KeyBlock(v.blockSize, key) + message, tree)
         == Hash(v, h, key, message, tree)
  {
    var size := v.blockSize;
    var s := KeyBlock(size, key) + message;
    if s == [] {
      assert DataBlocks(size, key, message) == [Zeros(size)];
      assert [] + Zeros(size) == Zeros(size);
    } else {
      BlocksOfStream(size, key, message);
      StreamedIsRounds(v, h, s, DataBlocks(size, key, message), 0, 0, tree);
    }
  }

  lemma BlocksOfStream(size: nat, key: Bytes, message: Bytes)
    requires size > 0 && |key| <= size && KeyBlock(size, key) + message != []
    ensures DataBlocks(size, key, message) == Pieces(size, KeyBlock(size, key) + message)
  {
    if key == [] {
      assert [] + message == message;
    } else {
      PiecesConcat(size, KeyBlock(size, key), message);
    }
  }

  // ---- The object ------------------------------------------------------------------------

  /** The two counter words hold `count`. */
  predicate Counts(modulus: nat, t0: nat, t1: nat, count: nat)
    requires modulus > 0
  {
    t0 == count % modulus && t1 == count / modulus % modulus
  }

  /** Adding to the low word and carrying when it wrapped is adding to the count. */
  lemma CounterStep(modulus: nat, t0: nat, t1: nat, count: nat, more: nat)
    requires more < modulus && Counts(modulus, t0, t1, count)
    ensures (t0 + more) % modulus < more <==> t0 + more >= modulus
    ensures Counts(modulus, (t0 + more) % modulus,
                   (t1 + if (t0 + more) % modulus < more then 1 else 0) % modulus, count + more)
  {
    var q := count / modulus;
    assert count == q * modulus + t0;
    if t0 + more < modulus {
      Unquotient(t0 + more, modulus, 0, t0 + more);
      Unquotient(count + more, modulus, q, t0 + more);
      Unquotient(t1, modulus, 0, t1);
    } else {
      Unquotient(t0 + more, modulus, 1, t0 + more - modulus);
      assert (q + 1) * modulus == q * modulus + modulus;
      Unquotient(count + more, modulus, q + 1, t0 + more - modulus);
      NextRemainder(q, modulus);
    }
  }

  lemma NextRemainder(q: nat, modulus: nat)
    requires modulus > 0
    ensures (q % modulus + 1) % modulus == (q + 1) % modulus
  {
    var k, r := q / modulus, q % modulus;
    assert q == k * modulus + r;
    if r + 1 < modulus {
      Unquotient(q + 1, modulus, k, r + 1);
      Unquotient(r + 1, modulus, 0, r + 1);
    } else {
      assert (k + 1) * modulus == k * modulus + modulus;
      Unquotient(q + 1, modulus, k + 1, 0);
      Unquotient(r + 1, modulus, 1, 0);
    }
  }

  /** The chain value and count from which `rest` of the fed bytes is still to come. */
  ghost predicate Holds(v: Variant, start: Running, now: Running, fed: Bytes, rest: Bytes)
    requires v.wordModulus > 0 && v.blockSize > 0
  {
    && |rest| <= |fed| && fed[|fed| - |rest|..] == rest
    && (|fed| - |rest|) % v.blockSize == 0
    && now == Absorb(v.blockSize, Step(v), start, fed[..|fed| - |rest|])
  }

  lemma HoldsMore(v: Variant, start: Running, now: Running, fed: Bytes, rest: Bytes, more: Bytes)
    requires v.wordModulus > 0 && v.blockSize > 0 && Holds(v, start, now, fed, rest)
    ensures Holds(v, start, now, fed + more, rest + more)
  {
    var at := |fed| - |rest|;
    assert (fed + more)[..at] == fed[..at] && (fed + more)[at..] == fed[at..] + more;
  }

  lemma HoldsBlock(v: Variant, start: Running, now: Running, fed: Bytes, rest: Bytes)
    requires v.wordModulus > 0 && 0 < v.blockSize <= |rest| && Holds(v, start, now, fed, rest)
    ensures Holds(v, start, Next(v, now, rest[..v.blockSize]), fed, rest[v.blockSize..])
  {
    var size, at := v.blockSize, |fed| - |rest|;
    var block := rest[..size];
    AbsorbConcat(size, Step(v), start, fed[..at], block);
    AbsorbOne(size, Step(v), now, block);
    assert fed[at..][..size] == block && fed[..at + size] == fed[..at] + block;
    assert fed[at + size..] == rest[size..];
    DropWhole(at + size, size);
  }

  lemma HoldsLast(v: Variant, start: Running, now: Running, fed: Bytes, rest: Bytes, tree: bool)
    requires v.wordModulus > 0 && v.blockSize > 0 && Holds(v, start, now, fed, rest)
    requires |rest| <= v.blockSize && (rest == [] ==> fed == [])
    ensures Closed(v, now, rest, tree) == Streamed(v, start, fed, tree)
  {
    LastIsCounter(|fed|, |rest|, v.blockSize);
  }

  datatype Status = Done(digest: Bytes) | InvalidArgument

  class Blake2 {
    const variant: Variant
    const key: Bytes          // empty, or filled up to a block
    const keyLength: nat
    const digestSize: nat
    var treeMode: bool
    var parameters: Bytes     // the parameter block
    var h: Bytes
    var t0: nat
    var t1: nat
    var f0: nat
    var f1: nat
    const buf: array<bv8>
    var len: nat
    ghost var start: Running  // chain value and count at the last restart
    ghost var now: Running
    ghost var fed: Bytes      // key block and message

    ghost predicate Configured()
      reads this
    {
      && IsVariant(variant) && buf.Length == variant.blockSize
      && |parameters| == |variant.iv|
      && (key == [] || |key| == variant.blockSize) && (keyLength > 0 <==> key != [])
      && keyLength <= |variant.iv| && digestSize <= |variant.iv|
    }

    /** The buffer holds the last bytes fed; everything before them is compressed. */
    ghost predicate Consistent()
      reads this, buf
    {
      && Configured() && f0 == f1 == 0 && len <= buf.Length
      && now.h == h && |h| == |variant.iv|
      && Counts(variant.wordModulus, t0, t1, now.count)
      && Holds(variant, start, now, fed, buf[..len])
    }

    /** And unless nothing was fed the buffer is not empty. */
    ghost predicate Valid()
      reads this, buf
    {
      Consistent() && (len == 0 ==> fed == [])
    }

    /** Keying: an empty key is no key. */
    constructor (v: Variant, key: Bytes, digestSize: nat, salt: Bytes, personalization: Bytes, treeMode: bool)
      requires IsVariant(v) && |key| <= |v.iv| && digestSize <= |v.iv|
      requires |salt| <= FieldSize(v) && |personalization| <= FieldSize(v)
      ensures Valid() && fresh(buf) && fed == KeyBlock(v.blockSize, key) == this.key
      ensures variant == v && this.digestSize == digestSize && this.treeMode == treeMode
      ensures parameters == ParameterBlock(v, digestSize, |key|, salt, personalization)
      ensures start == Running(Xor(parameters, v.iv), 0)
    {
      variant, this.digestSize, this.treeMode := v, digestSize, treeMode;
      this.key, keyLength := KeyBlock(v.blockSize, key), |key|;
      parameters := ParameterBlock(v, digestSize, |key|, salt, personalization);
      buf := new bv8[v.blockSize];
      h, t0, t1, f0, f1, len := Zeros(|v.iv|), 0, 0, 0, 0, 0;
      new;
      Restart();
    }

    method IncrementCounter(count: nat)
      requires IsVariant(variant) && count <= variant.blockSize
      requires Counts(variant.wordModulus, t0, t1, now.count)
      modifies this`t0, this`t1
      ensures Counts(variant.wordModulus, t0, t1, now.count + count)
    {
      CounterStep(variant.wordModulus, t0, t1, now.count, count);
      t0 := (t0 + count) % variant.wordModulus;
      t1 := (t1 + if t0 < count then 1 else 0) % variant.wordModulus;
    }

    method Compress(input: Bytes)
      requires IsVariant(variant)
      modifies this`h
      ensures h == variant.compress(old(h), input, t0, t1, f0, f1) && |h| == |old(h)|
    {
      h := variant.compress(h, input, t0, t1, f0, f1);
    }

    /** Compresses one block that more bytes follow. */
    method CompressBlock(input: Bytes)
      requires IsVariant(variant) && f0 == f1 == 0 && now.h == h
      requires Counts(variant.wordModulus, t0, t1, now.count)
      modifies this`h, this`t0, this`t1, this`now
      ensures now == Next(variant, old(now), input) && now.h == h && |h| == |old(h)|
      ensures Counts(variant.wordModulus, t0, t1, now.count)
    {
      IncrementCounter(variant.blockSize);
      Compress(input);
      now := Next(variant, now, input);
    }

    method Update(input: Bytes)
      requires Valid()
      modifies this`h, this`t0, this`t1, this`len, this`now, this`fed, buf
      ensures Valid() && fed == old(fed) + input
    {
      hide Holds, Counts;
      var rest := input;
      HoldsMore(variant, start, now, fed, buf[..len], input);
      fed := fed + input;
      if |rest| > variant.blockSize - len {
        if len != 0 {
          rest := CompletePending(rest);
        } else {
          assert buf[..0] + rest == rest;
        }
        rest := CompressFrom(rest);
        assert buf[..0] + rest == rest;
      }
      if |rest| > 0 {
        Store(rest);
        len := len + |rest|;
      } else {
        assert buf[..len] + rest == buf[..len];
      }
    }

    /** Fills the pending block up and compresses it, for more bytes follow. */
    method CompletePending(input: Bytes) returns (rest: Bytes)
      requires Configured() && f0 == f1 == 0 && now.h == h && 0 < len <= buf.Length
      requires Counts(variant.wordModulus, t0, t1, now.count)
      requires Holds(variant, start, now, fed, buf[..len] + input) && |input| > variant.blockSize - len
      modifies this`h, this`t0, this`t1, this`len, this`now, buf
      ensures now.h == h && |h| == |old(h)| && Counts(variant.wordModulus, t0, t1, now.count)
      ensures Holds(variant, start, now, fed, rest) && 0 < |rest| && len == 0
    {
      var fill := variant.blockSize - len;
      ghost var pending := buf[..len] + input;
      Store(input[..fill]);
      rest := input[fill..];
      assert pending[..variant.blockSize] == buf[..] && pending[variant.blockSize..] == rest;
      HoldsBlock(variant, start, now, fed, pending);
      CompressBlock(buf[..]);
      len := 0;
    }

    method UpdateAll(pieces: seq<Bytes>)
      requires Valid()
      modifies this`h, this`t0, this`t1, this`len, this`now, this`fed, buf
      ensures Valid() && fed == old(fed) + Concat(pieces)
    {
      var i := 0;
      assert fed + Concat(pieces[0..]) == fed + Concat(pieces);
      while i < |pieces|
        invariant 0 <= i <= |pieces| && Valid() && fed + Concat(pieces[i..]) == old(fed) + Concat(pieces)
      {
        NextPiece(fed, pieces, i);
        Update(pieces[i]);
        i := i + 1;
      }
      assert fed + Concat(pieces[i..]) == fed;
    }

    /** Copies bytes behind those in the buffer. */
    method Store(input: Bytes)
      requires len + |input| <= buf.Length
      modifies buf
      ensures buf[..len + |input|] == old(buf[..len]) + input
    {
      forall i | 0 <= i < |input| {
        buf[len + i] := input[i];
      }
    }

    /** Compresses straight from the input while more than a block is left. */
    method CompressFrom(input: Bytes) returns (rest: Bytes)
      requires IsVariant(variant) && f0 == f1 == 0 && now.h == h
      requires Counts(variant.wordModulus, t0, t1, now.count)
      requires Holds(variant, start, now, fed, input) && |input| > 0
      modifies this`h, this`t0, this`t1, this`now
      ensures now.h == h && |h| == |old(h)| && Counts(variant.wordModulus, t0, t1, now.count)
      ensures Holds(variant, start, now, fed, rest) && 0 < |rest| <= variant.blockSize
    {
      rest := input;
      while |rest| > variant.blockSize
        invariant now.h == h && |h| == |old(h)| && Counts(variant.wordModulus, t0, t1, now.count)
        invariant Holds(variant, start, now, fed, rest) && |rest| > 0
      {
        HoldsBlock(variant, start, now, fed, rest);
        CompressBlock(rest[..variant.blockSize]);
        rest := rest[variant.blockSize..];
      }
    }

    /** Starts over with a parameter block and a counter; the object's own digest size and key
        length always replace those in the block. A key goes in as the first block. */
    method RestartWith(block: Bytes, counter0: nat, counter1: nat)
      requires Configured() && |block| == |variant.iv|
      requires counter0 < variant.wordModulus && counter1 < variant.wordModulus
      modifies this, buf
      ensures Valid() && fed == key && treeMode == old(treeMode)
      ensures parameters == WithSizes(block, digestSize, keyLength)
      ensures start == Running(Xor(parameters, variant.iv), counter0 + variant.wordModulus * counter1)
    {
      t0, t1, f0, f1, len := counter0, counter1, 0, 0, 0;
      parameters := WithSizes(block, digestSize, keyLength);
      h := Xor(parameters, variant.iv);
      start := Running(h, counter0 + variant.wordModulus * counter1);
      now, fed := start, [];
      CounterWords(variant.wordModulus, counter0, counter1);
      assert buf[..0] == [] && fed[..0] == [] && fed[0..] == [];
      if keyLength > 0 {
        Update(key);
        assert [] + key == key;
      }
    }

    method Restart()
      requires Configured()
      modifies this, buf
      ensures Valid() && fed == key && treeMode == old(treeMode)
      ensures parameters == WithSizes(old(parameters), digestSize, keyLength)
      ensures start == Running(Xor(parameters, variant.iv), 0)
    {
      RestartWith(parameters, 0, 0);
    }

    /** The digest of everything fed, cut to `size` bytes; then ready for the next message. */
    method TruncatedFinal(size: nat) returns (status: Status)
      requires Valid()
      modifies this, buf
      ensures Valid() && treeMode == old(treeMode)
      ensures size > digestSize ==> status == InvalidArgument && fed == old(fed)
      ensures size <= digestSize ==>
                status == Done(Cut(Streamed(variant, old(start), old(fed), treeMode), size))
      ensures size <= digestSize ==> fed == key && start == Running(Xor(parameters, variant.iv), 0)
    {
      if size > digestSize {
        return InvalidArgument;
      }
      CloseHash();
      status := Done(h[..size]);
      Restart();
    }

    method CloseHash()
      requires Valid()
      modifies this`h, this`t0, this`t1, this`f0, this`f1, buf
      ensures Configured() && |h| == |variant.iv|
      ensures h == Streamed(variant, start, fed, treeMode)
    {
      ghost var held := buf[..len];
      HoldsLast(variant, start, now, fed, held, treeMode);
      f0 := variant.wordModulus - 1;
      if treeMode {
        f1 := variant.wordModulus - 1;
      }
      IncrementCounter(len);
      forall i | len <= i < buf.Length {
        buf[i] := 0;
      }
      assert buf[..] == held + Zeros(variant.blockSize - len);
      Compress(buf[..]);
    }
  }

  lemma CounterWords(modulus: nat, t0: nat, t1: nat)
    requires t0 < modulus && t1 < modulus
    ensures modulus * t1 >= 0 && Counts(modulus, t0, t1, t0 + modulus * t1)
  {
    MulMonotone(0, t1, modulus);
    Unquotient(t0 + modulus * t1, modulus, t1, t0);
    Unquotient(t1, modulus, 0, t1);
  }

  function WithSizes(block: Bytes, digestSize: nat, keyLength: nat): Bytes
    requires |block| >= 2
  {
    block[0 := Byte(digestSize)][1 := Byte(keyLength)]
  }

  /** A field of fixed size, filled up with zeros. */
  function Field(s: Bytes, size: nat): (field: Bytes)
    requires |s| <= size
    ensures |field| == size
  {
    s + Zeros(size - |s|)
  }

  /** Sizes, fanout and depth 1 in the first half, then salt and personalization. */
  function ParameterBlock(v: Variant, digestSize: nat, keyLength: nat, salt: Bytes,
                          personalization: Bytes): (block: Bytes)
    requires |salt| <= FieldSize(v) && |personalization| <= FieldSize(v)
    ensures |block| == 4 * FieldSize(v)
  {
    Field([Byte(digestSize), Byte(keyLength), 1, 1], 2 * FieldSize(v))
    + Field(salt, FieldSize(v)) + Field(personalization, FieldSize(v))
  }

  /** Where the fields of BLAKE2s lie: sizes of digest and key, fanout, depth, then nothing of a tree, and the
      two strings with zeros behind them. */
  lemma SmallFields(v: Variant, digestSize: nat, keyLength: nat, salt: Bytes, personalization: Bytes)
    requires v.blockSize == 64 && digestSize < 256 && keyLength < 256 && |salt| <= 8 && |personalization| <= 8
    ensures var block := ParameterBlock(v, digestSize, keyLength, salt, personalization);
            && |block| == 32 && block[0] as nat == digestSize && block[1] as nat == keyLength
            && block[2] == 1 && block[3] == 1 && block[4..16] == [0, 0, 0, 0, 0, 0, 0, 0, 0, 0, 0, 0]
            && block[16..16 + |salt|] == salt && (forall i :: 16 + |salt| <= i < 24 ==> block[i] == 0)
            && block[24..24 + |personalization|] == personalization
            && forall i :: 24 + |personalization| <= i < 32 ==> block[i] == 0
  {
    ByteNumber(digestSize);
    ByteNumber(keyLength);
  }

  /** And those of BLAKE2b. */
  lemma LargeFields(v: Variant, digestSize: nat, keyLength: nat, salt: Bytes, personalization: Bytes)
    requires v.blockSize == 128 && digestSize < 256 && keyLength < 256 && |salt| <= 16 && |personalization| <= 16
    ensures var block := ParameterBlock(v, digestSize, keyLength, salt, personalization);
            && |block| == 64 && block[0] as nat == digestSize && block[1] as nat == keyLength
            && block[2] == 1 && block[3] == 1 && (forall i :: 4 <= i < 32 ==> block[i] == 0)
            && block[32..32 + |salt|] == salt && (forall i :: 32 + |salt| <= i < 48 ==> block[i] == 0)
            && block[48..48 + |personalization|] == personalization
            && forall i :: 48 + |personalization| <= i < 64 ==> block[i] == 0
  {
    ByteNumber(digestSize);
    ByteNumber(keyLength);
  }

  /** A message that fits a block, without a key: one compression, with the last-block flag. */
  lemma ShortHash(v: Variant, h: Bytes, message: Bytes, tree: bool)
    requires IsVariant(v) && |message| <= v.blockSize
    ensures Hash(v, h, [], message, tree)
         == v.compress(h, message + Zeros(v.blockSize - |message|), |message|, 0, v.wordModulus - 1,
                       if tree then v.wordModulus - 1 else 0)
  {
    assert Pieces(v.blockSize, []) + Pieces(v.blockSize, message) == Pieces(v.blockSize, message);
    assert message == [] ==> message + Zeros(v.blockSize) == Zeros(v.blockSize);
  }

  function FieldSize(v: Variant): nat {
    if v.blockSize == 64 then 8 else 16
  }

  /** The first bytes of a string. */
  function Cut(s: Bytes, size: nat): Bytes {
    if size <= |s| then s[..size] else s
  }

  /** Any message, in any pieces, with or without a key: the hash of section 3.3 of RFC 7693. */
  method HashPieces(v: Variant, key: Bytes, digestSize: nat, salt: Bytes, personalization: Bytes,
                    tree: bool, pieces: seq<Bytes>, size: nat)
    returns (status: Status)
    requires IsVariant(v) && |key| <= |v.iv| && digestSize <= |v.iv|
    requires |salt| <= FieldSize(v) && |personalization| <= FieldSize(v)
    ensures status == if size > digestSize then InvalidArgument else
                      Done(Cut(Hash(v, Xor(ParameterBlock(v, digestSize, |key|, salt, personalization), v.iv),
                                    key, Concat(pieces), tree), size))
  {
    var hash := new Blake2(v, key, digestSize, salt, personalization, tree);
    StreamedIsHash(v, hash.start.h, key, Concat(pieces), tree);
    hash.UpdateAll(pieces);
    status := hash.TruncatedFinal(size);
  }
}
