/** Encoding bytes as digits of 1 to 7 bits, decoding them, and grouping the result. */
module BaseN {
  import opened Bits
  import opened Options

  // ---- A sequence of fixed-width units as one string of bits, most significant first -----

  /** Bit `k` of a string of `a`-bit units; clear past the end. */
  ghost function UnitBit(src: seq<nat>, a: nat, k: nat): nat
    requires a > 0
  {
    if k / a < |src| then GetBit(src[k / a], a - 1 - k % a) else 0
  }

  /** The number made of `n` bits from position `from` on. */
  ghost function Gather(src: seq<nat>, a: nat, from: nat, n: nat): nat
    requires a > 0
  {
    if n == 0 then 0 else 2 * Gather(src, a, from, n - 1) + UnitBit(src, a, from + n - 1)
  }

  lemma {:induction false} GatherBit(src: seq<nat>, a: nat, from: nat, n: nat, j: nat)
    requires a > 0
    ensures GetBit(Gather(src, a, from, n), j) == if j < n then UnitBit(src, a, from + n - 1 - j) else 0
  {
    if n == 0 {
      ShrOfSmall(0, j);
    } else if j > 0 {
      GatherBit(src, a, from, n - 1, j - 1);
      assert Gather(src, a, from, n) / 2 == Gather(src, a, from, n - 1);
    }
  }

  lemma {:induction false} GatherBelow(src: seq<nat>, a: nat, from: nat, n: nat)
    requires a > 0
    ensures Gather(src, a, from, n) < Pow2(n)
  {
    if n > 0 {
      GatherBelow(src, a, from, n - 1);
    }
  }

  /** Digit `i` of the string cut into pieces of `b` bits, the last one filled with zeros. */
  ghost function Digit(src: seq<nat>, a: nat, b: nat, i: nat): nat
    requires a > 0
  {
    Gather(src, a, i * b, b)
  }

  /** How many `b`-bit digits hold `n` units of `a` bits. */
  function DigitCount(n: nat, a: nat, b: nat): nat
    requires b > 0
  {
    (n * a + b - 1) / b
  }

  /** The string cut into `b`-bit digits. */
  ghost function Recut(src: seq<nat>, a: nat, b: nat, count: nat): seq<nat>
    requires a > 0
  {
    seq<nat>(count, i requires 0 <= i => Digit(src, a, b, i))
  }

  lemma UnitPosition(a: nat, i: nat, j: nat)
    requires a > 0 && j < a
    ensures (i * a + j) / a == i && (i * a + j) % a == j
  {
    Unquotient(i * a + j, a, i, j);
  }

  /** Recutting into the same units changes nothing. */
  lemma DigitOfUnit(src: seq<nat>, a: nat, i: nat)
    requires a > 0 && i < |src| && src[i] < Pow2(a)
    ensures Digit(src, a, a, i) == src[i]
  {
    GatherBelow(src, a, i * a, a);
    forall j | 0 <= j < a ensures GetBit(Digit(src, a, a, i), j) == GetBit(src[i], j) {
      GatherBit(src, a, i * a, a, j);
      UnitPosition(a, i, a - 1 - j);
    }
    SameBits(Digit(src, a, a, i), src[i], a);
  }

  /** Cutting into digits keeps every bit that the digits cover. */
  lemma RecutBit(src: seq<nat>, a: nat, b: nat, count: nat, k: nat)
    requires a > 0 && b > 0 && k < count * b
    ensures UnitBit(Recut(src, a, b, count), b, k) == UnitBit(src, a, k)
  {
    var i, j := k / b, k % b;
    assert k == i * b + j;
    MulMonotone(count, if i < count then count else i, b);
    GatherBit(src, a, i * b, b, b - 1 - j);
  }

  lemma {:induction false} SameGather(s: seq<nat>, a: nat, t: seq<nat>, b: nat, from: nat, n: nat)
    requires a > 0 && b > 0
    requires forall k :: from <= k < from + n ==> UnitBit(s, a, k) == UnitBit(t, b, k)
    ensures Gather(s, a, from, n) == Gather(t, b, from, n)
  {
    if n > 0 {
      SameGather(s, a, t, b, from, n - 1);
    }
  }

  /** Bytes cut into digits and the digits cut back into bytes are the bytes again. */
  lemma RecutRoundTrip(src: seq<nat>, a: nat, b: nat)
    requires a > 0 && b > 0 && forall i :: 0 <= i < |src| ==> src[i] < Pow2(a)
    ensures Recut(Recut(src, a, b, DigitCount(|src|, a, b)), b, a, |src|) == src
  {
    var count := DigitCount(|src|, a, b);
    var digits := Recut(src, a, b, count);
    RoundedUp(|src| * a, b);
    forall i | 0 <= i < |src| ensures Digit(digits, b, a, i) == src[i] {
      MulMonotone(i + 1, |src|, a);
      assert (i + 1) * a == i * a + a;
      forall k | i * a <= k < i * a + a ensures UnitBit(digits, b, k) == UnitBit(src, a, k) {
        RecutBit(src, a, b, count, k);
      }
      SameGather(digits, b, src, a, i * a, a);
      DigitOfUnit(src, a, i);
    }
  }

  // ---- The encoder ---------------------------------------------------------------------

  /** Bit `k` of the input, if it is among the first `limit` ones. */
  ghost function BitBelow(src: seq<nat>, k: nat, limit: nat): nat {
    if k < limit then UnitBit(src, 8, k) else 0
  }

  /** Place `i` of the buffer holds what the first `limit` input bits give digit `at`. */
  ghost predicate DigitSoFar(value: nat, src: seq<nat>, w: nat, at: nat, limit: nat) {
    value < Pow2(w) && forall j :: 0 <= j < w ==> DigitBitAt(value, src, w, at, limit, j)
  }

  ghost predicate DigitBitAt(value: nat, src: seq<nat>, w: nat, at: nat, limit: nat, j: nat) {
    j < w ==> GetBit(value, j) == BitBelow(src, at * w + w - 1 - j, limit)
  }

  /** What is left of an input byte: its low `left` bits, moved to the top. */
  ghost predicate TopBits(b: nat, x: nat, left: nat) {
    b < 256 && left <= 8 && forall j :: 0 <= j < 8 ==> TopBitAt(b, x, left, j)
  }

  ghost predicate TopBitAt(b: nat, x: nat, left: nat, j: nat) {
    j < 8 ==> GetBit(b, j) == if j < 8 - left then 0 else GetBit(x, j - (8 - left))
  }

  /** Moving the next `t` bits of a byte into the free low bits of a digit. */
  lemma DepositBits(value: nat, src: seq<nat>, w: nat, at: nat, limit: nat, b: nat, left: nat, t: nat)
    requires 0 < w < 8 && 0 < t <= w && |src| > 0 && 0 < left <= 8
    requires limit + left == 8 * |src| && limit + t == (at + 1) * w
    requires DigitSoFar(value, src, w, at, limit) && TopBits(b, src[|src| - 1], left)
    ensures DigitSoFar(Or(value, Shr(b, 8 - t)), src, w, at, if left >= t then limit + t else limit + left)
  {
    var r := Or(value, Shr(b, 8 - t));
    var limit' := if left >= t then limit + t else limit + left;
    assert (at + 1) * w == at * w + w;
    forall j: nat ensures GetBit(r, j) == if j < t then GetBit(b, 8 - t + j) else GetBit(value, j) {
      OrBit(value, Shr(b, 8 - t), j);
      ShrBit(b, 8 - t, j);
      if j >= t {
        HighBitZero(b, 8, 8 - t + j);
        assert Pow2(8) == 256;
      } else {
        assert DigitBitAt(value, src, w, at, limit, j);
      }
    }
    forall j | j >= w ensures GetBit(r, j) == 0 { HighBitZero(value, w, j); }
    BelowPower(r, w);
    forall j | 0 <= j < w ensures DigitBitAt(r, src, w, at, limit', j) {
      var k := at * w + w - 1 - j;
      if j >= t {
        assert DigitBitAt(value, src, w, at, limit, j);
      } else {
        var o := t - 1 - j;
        assert k == limit + o;
        assert TopBitAt(b, src[|src| - 1], left, 8 - t + j);
        if o < left {
          UnitPosition(8, |src| - 1, 8 - left + o);
        }
      }
    }
  }

  /** Shifting the consumed bits out at the top. */
  lemma ConsumeBits(b: nat, x: nat, left: nat, t: nat)
    requires TopBits(b, x, left) && t <= left
    ensures Shl(b, t) >= 0 && TopBits(Low(Shl(b, t), 8), x, left - t)
  {
    ShlGrows(b, t);
    var r, rest := Low(Shl(b, t), 8), left - t;
    SplitAt(Shl(b, t), 8);
    assert Pow2(8) == 256;
    forall j | 0 <= j < 8 ensures TopBitAt(r, x, rest, j) {
      LowBit(Shl(b, t), 8, j);
      ShlBit(b, t, j);
      if j >= t {
        assert TopBitAt(b, x, left, j - t);
      }
    }
  }

  predicate FillsUnits(size: nat, d: nat, step: nat)
    requires step > 0
  {
    size * d % step == 0
  }

  /** The least number of `d`-bit units that fills whole units of `step` bits. */
  ghost predicate IsLeastBlock(size: nat, d: nat, step: nat)
    requires step > 0
  {
    size > 0 && FillsUnits(size, d, step) && forall s :: 0 < s < size ==> !FillsUnits(s, d, step)
  }

  lemma LeastBlockUnique(a: nat, b: nat, d: nat, step: nat)
    requires step > 0 && IsLeastBlock(a, d, step) && IsLeastBlock(b, d, step)
    ensures a == b
  {
    assert !(a < b) && !(b < a);
  }

  method BlockSize(step: nat, d: nat) returns (size: nat)
    requires step > 0 && d > 0
    ensures IsLeastBlock(size, d, step)
  {
    var i := step;
    ghost var k := 1;
    while i % d != 0
      invariant i == k * step && 1 <= k <= d
      invariant forall j :: 1 <= j < k ==> !FillsUnits(j, step, d)
      decreases d - k
    {
      assert !FillsUnits(k, step, d);
      NotAll(k, step, d);
      i, k := i + step, k + 1;
    }
    size := i / d;
    FirstIsLeast(k, size, step, d);
  }

  /** The search ends: `d` steps fill whole units. */
  lemma NotAll(k: nat, step: nat, d: nat)
    requires d > 0 && !FillsUnits(k, step, d)
    ensures k != d
  {
    if k == d {
      Unquotient(d * step, d, step, 0);
    }
  }

  lemma FirstIsLeast(k: nat, size: nat, step: nat, d: nat)
    requires step > 0 && d > 0 && k >= 1 && FillsUnits(k, step, d) && size == k * step / d
    requires forall j :: 1 <= j < k ==> !FillsUnits(j, step, d)
    ensures IsLeastBlock(size, d, step)
  {
    assert size * d == k * step;
    Unquotient(k * step, step, k, 0);
    MulMonotone(1, k, step);
    forall s | 0 < s < size ensures !FillsUnits(s, d, step) {
      NoSmallerBlock(s, size, d, step, k);
    }
  }

  /** A smaller block would have ended the search earlier. */
  lemma NoSmallerBlock(s: nat, size: nat, d: nat, step: nat, k: nat)
    requires step > 0 && d > 0 && 0 < s < size && size * d == k * step
    requires forall j :: 1 <= j < k ==> !FillsUnits(j, step, d)
    ensures !FillsUnits(s, d, step)
  {
    if FillsUnits(s, d, step) {
      var j := s * d / step;
      assert s * d == j * step;
      Unquotient(j * step, d, s, 0);
      MulMonotone(s + 1, size, d);
      if j >= k {
        MulMonotone(k, j, step);
      }
      assert j != 0;
      assert FillsUnits(j, step, d);
    }
  }

  /** The digits of width `w` in the least block that is a whole number of bytes: 8 for odd widths,
      4 for the widths 2 and 6, 2 for the width 4. */
  function EncoderBlock(w: nat): nat {
    if w % 4 == 0 then 2 else if w % 2 == 0 then 4 else 8
  }

  lemma EncoderBlockIsLeast(w: nat)
    requires 0 < w < 8
    ensures IsLeastBlock(EncoderBlock(w), w, 8)
  {
    forall s | 0 < s < EncoderBlock(w) ensures !FillsUnits(s, w, 8) {}
  }

  /** The bytes in the least block that is a whole number of digits of width `w`. */
  function DecoderBlock(w: nat): nat {
    if w % 4 == 0 then w / 4 else if w % 2 == 0 then w / 2 else w
  }

  lemma DecoderBlockIsLeast(w: nat)
    requires 0 < w < 8
    ensures IsLeastBlock(DecoderBlock(w), 8, w)
  {
    forall s | 0 < s < DecoderBlock(w) ensures !FillsUnits(s, 8, w) {}
  }

  /** The characters of the first `count` digits. */
  ghost function Characters(message: seq<nat>, w: nat, alphabet: seq<nat>, count: nat): seq<nat>
    requires w > 0 && |alphabet| == Pow2(w)
  {
    seq<nat>(count, i requires 0 <= i => GatherBelow(message, 8, i * w, w); alphabet[Digit(message, 8, w, i)])
  }

  /** `n` rounded up to a multiple of `block`. */
  function RoundUp(n: nat, block: nat): nat
    requires block > 0
  {
    (n + block - 1) / block * block
  }

  /** The encoding of a whole message: the characters of its digits, and padding up to a
      whole block if there is a padding character. */
  ghost function Encoded(message: seq<nat>, w: nat, alphabet: seq<nat>, padding: Option<nat>, block: nat): seq<nat>
    requires w > 0 && block > 0 && |alphabet| == Pow2(w)
  {
    var count := DigitCount(|message|, 8, w);
    RoundedUp(count, block);
    Characters(message, w, alphabet, count)
      + match padding
        case None => []
        case Some(c) => seq<nat>(RoundUp(count, block) - count, _ => c)
  }

  /** A byte is the number of its bits. */
  lemma ByteOfBits(x: nat)
    requires x < 256
    ensures x == 128 * GetBit(x, 7) + 64 * GetBit(x, 6) + 32 * GetBit(x, 5) + 16 * GetBit(x, 4)
                 + 8 * GetBit(x, 3) + 4 * GetBit(x, 2) + 2 * GetBit(x, 1) + GetBit(x, 0)
  {
    hide Shr, GetBit;
    ShrStep(x, 0);
    ShrStep(x, 1);
    ShrStep(x, 2);
    ShrStep(x, 3);
    ShrStep(x, 4);
    ShrStep(x, 5);
    ShrStep(x, 6);
    ShrStep(x, 7);
    ShrEnds(x);
  }

  lemma ShrEnds(x: nat)
    requires x < 256
    ensures Shr(x, 0) == x && Shr(x, 8) == 0
  {
    assert Pow2(8) == 2 * Pow2(7) && Pow2(7) == 2 * Pow2(6) && Pow2(6) == 2 * Pow2(5) && Pow2(5) == 2 * Pow2(4);
    ShrOfSmall(x, 8);
  }

  lemma SixGathered(src: seq<nat>, from: nat)
    ensures Gather(src, 8, from, 6)
         == 32 * UnitBit(src, 8, from) + 16 * UnitBit(src, 8, from + 1) + 8 * UnitBit(src, 8, from + 2)
            + 4 * UnitBit(src, 8, from + 3) + 2 * UnitBit(src, 8, from + 4) + UnitBit(src, 8, from + 5)
  {
    hide UnitBit;
    assert Gather(src, 8, from, 6) == 2 * Gather(src, 8, from, 5) + UnitBit(src, 8, from + 5);
    assert Gather(src, 8, from, 5) == 2 * Gather(src, 8, from, 4) + UnitBit(src, 8, from + 4);
    assert Gather(src, 8, from, 4) == 2 * Gather(src, 8, from, 3) + UnitBit(src, 8, from + 3);
    assert Gather(src, 8, from, 3) == 2 * Gather(src, 8, from, 2) + UnitBit(src, 8, from + 2);
    assert Gather(src, 8, from, 2) == 2 * Gather(src, 8, from, 1) + UnitBit(src, 8, from + 1);
    assert Gather(src, 8, from, 1) == 2 * Gather(src, 8, from, 0) + UnitBit(src, 8, from + 0);
  }

  /** The quotients and remainders that a group takes. */
  lemma ByteParts(x: nat)
    requires x < 256
    ensures x / 4 == 32 * GetBit(x, 7) + 16 * GetBit(x, 6) + 8 * GetBit(x, 5) + 4 * GetBit(x, 4)
                     + 2 * GetBit(x, 3) + GetBit(x, 2) && x % 4 == 2 * GetBit(x, 1) + GetBit(x, 0)
    ensures x / 16 == 8 * GetBit(x, 7) + 4 * GetBit(x, 6) + 2 * GetBit(x, 5) + GetBit(x, 4)
    ensures x % 16 == 8 * GetBit(x, 3) + 4 * GetBit(x, 2) + 2 * GetBit(x, 1) + GetBit(x, 0)
    ensures x / 64 == 2 * GetBit(x, 7) + GetBit(x, 6)
    ensures x % 64 == 32 * GetBit(x, 5) + 16 * GetBit(x, 4) + 8 * GetBit(x, 3) + 4 * GetBit(x, 2)
                      + 2 * GetBit(x, 1) + GetBit(x, 0)
  {
    ByteOfBits(x);
    BitsAreSmall(x);
    hide GetBit;
    var low2, high2 := 2 * GetBit(x, 1) + GetBit(x, 0), 2 * GetBit(x, 7) + GetBit(x, 6);
    var low4 := 8 * GetBit(x, 3) + 4 * GetBit(x, 2) + low2;
    var high4 := 4 * high2 + 2 * GetBit(x, 5) + GetBit(x, 4);
    Unquotient(x, 4, 4 * high4 + 2 * GetBit(x, 3) + GetBit(x, 2), low2);
    Unquotient(x, 16, high4, low4);
    Unquotient(x, 64, high2, 16 * (2 * GetBit(x, 5) + GetBit(x, 4)) + low4);
  }

  lemma BitsAreSmall(x: nat)
    ensures forall k: nat :: GetBit(x, k) < 2
  {
  }

  /** A digit that is six bits of one byte, or of two. */
  lemma DigitBits(src: seq<nat>, i: nat)
    requires i < 4 && |src| == 3
    ensures Digit(src, 8, 6, i)
         == 32 * UnitBit(src, 8, 6 * i) + 16 * UnitBit(src, 8, 6 * i + 1) + 8 * UnitBit(src, 8, 6 * i + 2)
            + 4 * UnitBit(src, 8, 6 * i + 3) + 2 * UnitBit(src, 8, 6 * i + 4) + UnitBit(src, 8, 6 * i + 5)
  {
    hide Gather, UnitBit;
    assert i * 6 == 6 * i;
    SixGathered(src, 6 * i);
  }

  /** A group of section 4 of RFC 4648: three bytes are four digits of six bits, in numbers. */
  lemma Base64Group(a: nat, b: nat, c: nat)
    requires a < 256 && b < 256 && c < 256
    ensures Recut([a, b, c], 8, 6, 4) == [a / 4, a % 4 * 16 + b / 16, b % 16 * 4 + c / 64, c % 64]
  {
    hide Digit, GetBit;
    var src := [a, b, c];
    GroupDigits(src);
    ByteParts(a);
    ByteParts(b);
    ByteParts(c);
    FourDigits(src);
  }

  lemma FourDigits(src: seq<nat>)
    ensures Recut(src, 8, 6, 4) == [Digit(src, 8, 6, 0), Digit(src, 8, 6, 1), Digit(src, 8, 6, 2), Digit(src, 8, 6, 3)]
  {
    hide Digit;
  }

  lemma GroupDigits(src: seq<nat>)
    requires |src| == 3
    ensures Digit(src, 8, 6, 0) == 32 * GetBit(src[0], 7) + 16 * GetBit(src[0], 6) + 8 * GetBit(src[0], 5)
                                   + 4 * GetBit(src[0], 4) + 2 * GetBit(src[0], 3) + GetBit(src[0], 2)
    ensures Digit(src, 8, 6, 1) == 32 * GetBit(src[0], 1) + 16 * GetBit(src[0], 0) + 8 * GetBit(src[1], 7)
                                   + 4 * GetBit(src[1], 6) + 2 * GetBit(src[1], 5) + GetBit(src[1], 4)
    ensures Digit(src, 8, 6, 2) == 32 * GetBit(src[1], 3) + 16 * GetBit(src[1], 2) + 8 * GetBit(src[1], 1)
                                   + 4 * GetBit(src[1], 0) + 2 * GetBit(src[2], 7) + GetBit(src[2], 6)
    ensures Digit(src, 8, 6, 3) == 32 * GetBit(src[2], 5) + 16 * GetBit(src[2], 4) + 8 * GetBit(src[2], 3)
                                   + 4 * GetBit(src[2], 2) + 2 * GetBit(src[2], 1) + GetBit(src[2], 0)
  {
    hide GetBit, Digit;
    DigitBits(src, 0);
    DigitBits(src, 1);
    DigitBits(src, 2);
    DigitBits(src, 3);
  }

  /** The padded lengths of sections 4 and 6 of RFC 4648: four characters for each begun group of
      three bytes, and eight for each begun group of five. */
  lemma PaddedLengths(message: seq<nat>, alphabet: seq<nat>, padding: nat)
    ensures |alphabet| == Pow2(6) ==>
              |Encoded(message, 6, alphabet, Some(padding), EncoderBlock(6))| == 4 * ((|message| + 2) / 3)
    ensures |alphabet| == Pow2(5) ==>
              |Encoded(message, 5, alphabet, Some(padding), EncoderBlock(5))| == 8 * ((|message| + 4) / 5)
  {
    RoundedUp(DigitCount(|message|, 8, 6), 4);
    RoundedUp(DigitCount(|message|, 8, 5), 8);
    var n := |message|;
    GroupsOfThree(n, n / 3, n % 3);
    GroupsOfFive(n, n / 5, n % 5);
  }

  lemma GroupsOfThree(n: nat, q: nat, r: nat)
    requires n == 3 * q + r && r < 3
    ensures RoundUp(DigitCount(n, 8, 6), 4) == 4 * ((n + 2) / 3)
  {
    var rest := if r == 0 then 0 else r + 1;
    Unquotient(8 * n + 5, 6, 4 * q + rest, 8 * r + 5 - 6 * rest);
    Unquotient(4 * q + rest + 3, 4, if r == 0 then q else q + 1, if r == 0 then 3 else rest - 1);
    Unquotient(n + 2, 3, if r == 0 then q else q + 1, if r == 0 then 2 else r - 1);
  }

  lemma GroupsOfFive(n: nat, q: nat, r: nat)
    requires n == 5 * q + r && r < 5
    ensures RoundUp(DigitCount(n, 8, 5), 8) == 8 * ((n + 4) / 5)
  {
    var rest := if r == 0 then 0 else if r < 3 then 2 * r else if r == 3 then 5 else 7;
    Unquotient(8 * n + 4, 5, 8 * q + rest, 8 * r + 4 - 5 * rest);
    Unquotient(8 * q + rest + 7, 8, if r == 0 then q else q + 1, if r == 0 then 7 else rest - 1);
    Unquotient(n + 4, 5, if r == 0 then q else q + 1, if r == 0 then 4 else r - 1);
  }

  /** Place `i` of the buffer is digit `base + i`, as far as the first `limit` bits go. */
  ghost predicate PlaceHolds(buffer: seq<nat>, message: seq<nat>, w: nat, base: nat, limit: nat, i: nat) {
    i < |buffer| ==> DigitSoFar(buffer[i], message, w, base + i, limit)
  }

  ghost predicate BufferHolds(buffer: seq<nat>, message: seq<nat>, w: nat, base: nat, limit: nat) {
    forall i: nat :: PlaceHolds(buffer, message, w, base, limit, i)
  }

  class Encoder {
    const bitsPerChar: nat
    const alphabet: seq<nat>
    const padding: Option<nat>
    const outputBlockSize: nat
    const outBuf: array<nat>
    var bytePos: nat
    var bitPos: nat
    var output: seq<nat>
    ghost var message: seq<nat>  // the bytes of the current message so far
    ghost var before: seq<nat>   // what had been put out when it began

    /** The digits already put out. */
    ghost function Base(): nat
      reads this
    {
      if |before| <= |output| then |output| - |before| else 0
    }

    ghost predicate Configured()
      reads this
    {
      && 0 < bitsPerChar < 8 && |alphabet| == Pow2(bitsPerChar)
      && outBuf.Length == outputBlockSize == EncoderBlock(bitsPerChar)
      && outputBlockSize * bitsPerChar % 8 == 0
    }

    ghost predicate Valid()
      reads this, outBuf
    {
      && Configured()
      && bytePos < outputBlockSize && bitPos < bitsPerChar
      && |before| <= |output| && Base() % outputBlockSize == 0
      && output == before + Characters(message, bitsPerChar, alphabet, Base())
      && (Base() + bytePos) * bitsPerChar + bitPos == 8 * |message|
      && (bytePos == 0 ==> bitPos == 0)
      && (bytePos > 0 ==> BufferHolds(outBuf[..], message, bitsPerChar, Base(), 8 * |message|))
      && forall i :: 0 <= i < |message| ==> message[i] < 256
    }

    constructor (log2Base: nat, alphabet: seq<nat>, padding: Option<nat>)
      requires 0 < log2Base < 8 && |alphabet| == Pow2(log2Base)
      ensures Valid() && fresh(outBuf) && message == [] && before == output == []
      ensures bitsPerChar == log2Base && this.alphabet == alphabet && this.padding == padding
      ensures outputBlockSize == EncoderBlock(log2Base)
    {
      bitsPerChar, this.alphabet, this.padding := log2Base, alphabet, padding;
      bytePos, bitPos := 0, 0;
      var size := BlockSize(8, log2Base);
      EncoderBlockIsLeast(log2Base);
      LeastBlockUnique(size, EncoderBlock(log2Base), log2Base, 8);
      outputBlockSize := size;
      outBuf := new nat[size];
      output, message, before := [], [], [];
      EmptyMessage(size, log2Base);
    }

    /** A new encoder, or none when the digit width is not between 1 and 7. */
    static method IsolatedInitialize(log2Base: int, alphabet: seq<nat>, padding: Option<nat>)
      returns (encoder: Encoder?)
      requires 0 < log2Base < 8 ==> |alphabet| == Pow2(log2Base)
      ensures encoder == null <==> log2Base <= 0 || log2Base >= 8
      ensures encoder != null ==> encoder.Valid() && fresh(encoder) && fresh(encoder.outBuf)
      ensures encoder != null ==> encoder.message == [] && encoder.before == encoder.output == []
      ensures encoder != null ==>
        encoder.bitsPerChar == log2Base && encoder.alphabet == alphabet && encoder.padding == padding
      ensures encoder != null ==> encoder.outputBlockSize == EncoderBlock(log2Base)
    {
      if log2Base <= 0 || log2Base >= 8 {
        return null;
      }
      encoder := new Encoder(log2Base, alphabet, padding);
    }

    /** A fresh buffer is cleared before the first bits go in. */
    method ClearIfEmpty()
      requires Valid()
      modifies outBuf
      ensures Valid() && BufferHolds(outBuf[..], message, bitsPerChar, Base(), 8 * |message|)
    {
      if bytePos == 0 {
        forall i | 0 <= i < outBuf.Length {
          outBuf[i] := 0;
        }
        forall i: nat ensures PlaceHolds(outBuf[..], message, bitsPerChar, Base(), 8 * |message|, i) {
          NoBitsYet(message, bitsPerChar, Base() + i, 8 * |message|, Base());
        }
      }
    }

    /** Puts the next bits of a byte into the free low bits of the current digit. */
    method Deposit(b: nat, ghost x: nat, ghost left: nat, bitsLeftInTarget: nat, ghost limit: nat, ghost newLimit: nat)
      requires Configured() && |before| <= |output|
      requires |message| > 0 && x == message[|message| - 1]
      requires 0 < left <= 8 && TopBits(b, x, left) && limit + left == 8 * |message|
      requires bytePos < outputBlockSize && bitPos + bitsLeftInTarget == bitsPerChar && bitsLeftInTarget > 0
      requires (Base() + bytePos) * bitsPerChar + bitPos == limit
      requires newLimit == if left >= bitsLeftInTarget then limit + bitsLeftInTarget else limit + left
      requires BufferHolds(outBuf[..], message, bitsPerChar, Base(), limit)
      modifies outBuf
      ensures BufferHolds(outBuf[..], message, bitsPerChar, Base(), newLimit)
    {
      hide DigitSoFar, TopBits, Pow2, Or, Shr;
      ghost var at := Base() + bytePos;
      ghost var was := outBuf[..];
      assert (at + 1) * bitsPerChar == at * bitsPerChar + bitsPerChar;
      assert PlaceHolds(outBuf[..], message, bitsPerChar, Base(), limit, bytePos);
      DepositBits(outBuf[bytePos], message, bitsPerChar, at, limit, b, left, bitsLeftInTarget);
      forall i: nat | i < |was| && i != bytePos
        ensures DigitSoFar(was[i], message, bitsPerChar, Base() + i, newLimit)
      {
        assert PlaceHolds(was, message, bitsPerChar, Base(), limit, i);
        OtherDigit(was[i], message, bitsPerChar, Base() + i, at, limit, newLimit);
      }
      outBuf[bytePos] := Or(outBuf[bytePos], Shr(b, 8 - bitsLeftInTarget));
      forall i: nat ensures PlaceHolds(outBuf[..], message, bitsPerChar, Base(), newLimit, i) {}
    }

    /** The bits left of an input byte: as many as fit go into the current digit. */
    method SpreadBits(b: nat, ghost x: nat, bitsLeftInSource: nat) returns (rest: nat, left: nat)
      requires Configured() && |before| <= |output|
      requires |message| > 0 && x == message[|message| - 1]
      requires 0 < bitsLeftInSource <= 8 && TopBits(b, x, bitsLeftInSource)
      requires bytePos < outputBlockSize && bitPos < bitsPerChar
      requires (Base() + bytePos) * bitsPerChar + bitPos == 8 * |message| - bitsLeftInSource
      requires BufferHolds(outBuf[..], message, bitsPerChar, Base(), 8 * |message| - bitsLeftInSource)
      modifies this`bytePos, this`bitPos, outBuf
      ensures left < bitsLeftInSource && (left > 0 ==> TopBits(rest, x, left))
      ensures bytePos <= outputBlockSize && bitPos < bitsPerChar
      ensures (Base() + bytePos) * bitsPerChar + bitPos == 8 * |message| - left
      ensures BufferHolds(outBuf[..], message, bitsPerChar, Base(), 8 * |message| - left)
    {
      var bitsLeftInTarget := bitsPerChar - bitPos;
      ghost var limit := 8 * |message| - bitsLeftInSource;
      assert (Base() + bytePos + 1) * bitsPerChar == (Base() + bytePos) * bitsPerChar + bitsPerChar;
      if bitsLeftInSource >= bitsLeftInTarget {
        Deposit(b, x, bitsLeftInSource, bitsLeftInTarget, limit, limit + bitsLeftInTarget);
        ConsumeBits(b, x, bitsLeftInSource, bitsLeftInTarget);
        bitPos := 0;
        bytePos := bytePos + 1;
        left := bitsLeftInSource - bitsLeftInTarget;
        rest := Low(Shl(b, bitsLeftInTarget), 8);
      } else {
        Deposit(b, x, bitsLeftInSource, bitsLeftInTarget, limit, limit + bitsLeftInSource);
        bitPos := bitPos + bitsLeftInSource;
        left, rest := 0, b;
      }
    }

    /** Replaces the first `count` digits in the buffer by their characters. */
    method Translate(count: nat)
      requires Configured() && count <= outputBlockSize
      requires count > 0 ==> BufferHolds(outBuf[..], message, bitsPerChar, Base(), 8 * |message|)
      modifies outBuf
      ensures Base() == old(Base()) && Characters(message, bitsPerChar, alphabet, Base()) + outBuf[..count]
           == Characters(message, bitsPerChar, alphabet, Base() + count)
    {
      ghost var was := outBuf[..];
      ghost var all := Characters(message, bitsPerChar, alphabet, Base() + count);
      var i := 0;
      while i < count
        invariant 0 <= i <= count
        invariant forall j :: 0 <= j < i ==> outBuf[j] == all[Base() + j]
        invariant forall j :: i <= j < outBuf.Length ==> outBuf[j] == was[j]
      {
        assert PlaceHolds(was, message, bitsPerChar, Base(), 8 * |message|, i);
        WholeDigit(outBuf[i], message, bitsPerChar, Base() + i);
        outBuf[i] := alphabet[outBuf[i]];
        i := i + 1;
      }
    }

    /** Puts a full buffer out and starts the next one. */
    method Flush()
      requires Configured() && |before| <= |output| && bytePos == outputBlockSize && bitPos < bitsPerChar
      requires Base() % outputBlockSize == 0
      requires output == before + Characters(message, bitsPerChar, alphabet, Base())
      requires (Base() + bytePos) * bitsPerChar + bitPos == 8 * |message|
      requires BufferHolds(outBuf[..], message, bitsPerChar, Base(), 8 * |message|)
      requires forall i :: 0 <= i < |message| ==> message[i] < 256
      modifies this`bytePos, this`bitPos, this`output, outBuf
      ensures Valid()
    {
      FullBlockIsWhole(Base(), bitPos, bitsPerChar, outputBlockSize, |message|);
      Translate(bytePos);
      output := output + outBuf[..bytePos];
      bytePos, bitPos := 0, 0;
    }

    /** One input byte, spread over the digits it reaches; a full buffer goes out. */
    method PutByte(x: nat)
      requires Valid() && x < 256
      modifies this`bytePos, this`bitPos, this`output, this`message, outBuf
      ensures Valid() && message == old(message) + [x]
    {
      ClearIfEmpty();
      RoomForByte(Base(), bytePos, bitPos, bitsPerChar, outputBlockSize, |message|);
      NextByte(outBuf[..], message, x, bitsPerChar, Base(), bytePos, bitPos);
      CharactersKept(message, [x], bitsPerChar, alphabet, Base());
      message := message + [x];
      var b, bitsLeftInSource := x, 8;
      while bitsLeftInSource > 0
        invariant message == old(message) + [x] && output == old(output)
        invariant bitsLeftInSource <= 8 && (bitsLeftInSource > 0 ==> TopBits(b, x, bitsLeftInSource))
        invariant bytePos <= outputBlockSize && bitPos < bitsPerChar
        invariant (Base() + bytePos) * bitsPerChar + bitPos == 8 * |message| - bitsLeftInSource
        invariant BufferHolds(outBuf[..], message, bitsPerChar, Base(), 8 * |message| - bitsLeftInSource)
      {
        RoomLeft(Base(), bytePos, bitPos, bitsPerChar, outputBlockSize, 8 * |message|, bitsLeftInSource);
        b, bitsLeftInSource := SpreadBits(b, x, bitsLeftInSource);
      }
      if bytePos == outputBlockSize {
        Flush();
      }
    }

    /** Closes the digit under way and fills the block up. */
    method FinishBlock()
      requires Valid()
      modifies this`bytePos, outBuf
      ensures bytePos <= outputBlockSize
      ensures Characters(message, bitsPerChar, alphabet, Base()) + outBuf[..bytePos]
           == Encoded(message, bitsPerChar, alphabet, padding, EncoderBlock(bitsPerChar))
    {
      LastDigits(|message|, bitsPerChar, outputBlockSize, Base(), bytePos, bitPos);
      if bitPos > 0 {
        bytePos := bytePos + 1;
      }
      ghost var count, base := bytePos, Base();
      ghost var characters := Characters(message, bitsPerChar, alphabet, base);
      EncodedParts(message, bitsPerChar, alphabet, padding, outputBlockSize, base + count,
                   if count > 0 then base + outputBlockSize else base);
      Translate(bytePos);
      ghost var last := outBuf[..bytePos];
      if padding.Some? && bytePos > 0 {
        forall i | bytePos <= i < outputBlockSize {
          outBuf[i] := padding.value;
        }
        bytePos := outputBlockSize;
        assert outBuf[..bytePos] == last + seq<nat>(outputBlockSize - count, _ => padding.value);
      }
      assert characters + outBuf[..bytePos] == characters + last + outBuf[count..bytePos];
    }

    /** Ends the message. */
    method EndMessage()
      requires Valid()
      modifies this`bytePos, this`bitPos, this`output, this`message, this`before, outBuf
      ensures Valid() && message == [] && before == output
      ensures output == old(before) + Encoded(old(message), bitsPerChar, alphabet, padding, EncoderBlock(bitsPerChar))
    {
      FinishBlock();
      output := output + outBuf[..bytePos];
      bytePos, bitPos := 0, 0;
      message, before := [], output;
      EmptyMessage(outputBlockSize, bitsPerChar);
      assert Base() == 0 && bytePos == 0 && |message| == 0;
    }

    /** Takes any number of bytes; however the message is cut into calls, what comes out at
        its end is its encoding. */
    method Put2(input: seq<nat>, messageEnd: bool)
      requires Valid() && forall i :: 0 <= i < |input| ==> input[i] < 256
      modifies this`bytePos, this`bitPos, this`output, this`message, this`before, outBuf
      ensures Valid()
      ensures !messageEnd ==> message == old(message) + input && before == old(before)
      ensures messageEnd ==> message == [] && before == output
      ensures messageEnd ==>
        output == old(before) + Encoded(old(message) + input, bitsPerChar, alphabet, padding, EncoderBlock(bitsPerChar))
    {
      for i := 0 to |input|
        invariant Valid() && message == old(message) + input[..i] && before == old(before)
      {
        PutByte(input[i]);
      }
      assert input[..|input|] == input;
      if messageEnd {
        EndMessage();
      }
    }
  }

  lemma EmptyMessage(block: nat, w: nat)
    requires block > 0
    ensures 0 % block == 0 && (0 + 0) * w + 0 == 0
  {
    Unquotient(0, block, 0, 0);
  }

  lemma EncodedParts(message: seq<nat>, w: nat, alphabet: seq<nat>, padding: Option<nat>, block: nat, count: nat,
                     full: nat)
    requires w > 0 && block > 0 && |alphabet| == Pow2(w)
    requires count == DigitCount(|message|, 8, w) && full == RoundUp(count, block)
    ensures full >= count && Encoded(message, w, alphabet, padding, block)
         == Characters(message, w, alphabet, count)
            + if padding.Some? then seq<nat>(full - count, _ => padding.value) else []
  {
    RoundedUp(count, block);
  }

  /** The digits of the whole message, and how far they are from the end of a block. */
  lemma LastDigits(length: nat, w: nat, block: nat, base: nat, bytePos: nat, bitPos: nat)
    requires w > 0 && block > 0 && bytePos < block && bitPos < w && base % block == 0
    requires (base + bytePos) * w + bitPos == 8 * length && (bytePos == 0 ==> bitPos == 0)
    ensures DigitCount(length, 8, w) == base + bytePos + if bitPos > 0 then 1 else 0
    ensures RoundUp(DigitCount(length, 8, w), block) == if bytePos > 0 then base + block else base
  {
    var n := base + bytePos;
    var count := n + if bitPos > 0 then 1 else 0;
    assert (n + 1) * w == n * w + w;
    Unquotient(length * 8 + w - 1, w, count, if bitPos > 0 then bitPos - 1 else w - 1);
    var q := base / block;
    assert base == q * block && (q + 1) * block == q * block + block;
    Unquotient(count + block - 1, block, if bytePos > 0 then q + 1 else q,
               if bytePos > 0 then count - base - 1 else block - 1);
  }

  lemma RoomLeft(base: nat, bytePos: nat, bitPos: nat, w: nat, block: nat, total: nat, left: nat)
    requires (base + bytePos) * w + bitPos == total - left && left > 0 && total <= (base + block) * w
    ensures bytePos < block
  {
    if bytePos >= block {
      MulMonotone(base + block, base + bytePos, w);
    }
  }

  /** Before a byte is spread, all of its bits are still to come. */
  lemma NextByte(buffer: seq<nat>, message: seq<nat>, x: nat, w: nat, base: nat, bytePos: nat, bitPos: nat)
    requires x < 256 && w > 0 && (base + bytePos) * w + bitPos == 8 * |message|
    requires BufferHolds(buffer, message, w, base, 8 * |message|)
    ensures BufferHolds(buffer, message + [x], w, base, 8 * |message|)
    ensures TopBits(x, x, 8)
    ensures base * w <= 8 * |message|
  {
    MulMonotone(base, base + bytePos, w);
    forall i: nat ensures PlaceHolds(buffer, message + [x], w, base, 8 * |message|, i) {
      assert PlaceHolds(buffer, message, w, base, 8 * |message|, i);
      if i < |buffer| {
        DigitWithMore(buffer[i], message, [x], w, base + i);
      }
    }
    forall j | 0 <= j < 8 ensures TopBitAt(x, x, 8, j) {}
  }

  /** Whole blocks end on a boundary of the units on the other side. */
  lemma BlockAligned(base: nat, u: nat, block: nat, d: nat)
    requires block > 0 && d > 0 && block * u % d == 0 && base % block == 0
    ensures (base + block) * u % d == 0 && (base + block) % block == 0
  {
    var q, r := base / block + 1, block * u / d;
    assert base + block == q * block;
    Unquotient(base + block, block, q, 0);
    assert block * u == d * r;
    assert q * block * u == q * (d * r) && q * (d * r) == q * r * d;
    Unquotient((base + block) * u, d, q * r, 0);
  }

  /** A full block leaves no bits over. */
  lemma FullBlockIsWhole(base: nat, bitPos: nat, w: nat, block: nat, length: nat)
    requires 0 < w < 8 && block > 0 && block * w % 8 == 0 && base % block == 0 && bitPos < w
    requires (base + block) * w + bitPos == 8 * length
    ensures bitPos == 0 && (base + block) % block == 0
  {
    BlockAligned(base, w, block, 8);
  }

  /** There is room for the next byte in a buffer that is not full. */
  lemma RoomForByte(base: nat, bytePos: nat, bitPos: nat, w: nat, block: nat, length: nat)
    requires 0 < w < 8 && bytePos < block && block * w % 8 == 0 && base % block == 0 && bitPos < w
    requires (base + bytePos) * w + bitPos == 8 * length
    ensures 8 * length + 8 <= (base + block) * w
  {
    BlockAligned(base, w, block, 8);
    MulMonotone(base + bytePos + 1, base + block, w);
    assert (base + bytePos + 1) * w == (base + bytePos) * w + w;
    NextMultiple((base + block) * w, length);
  }

  lemma NextMultiple(top: nat, n: nat)
    requires top % 8 == 0 && top > 8 * n
    ensures top >= 8 * n + 8
  {
  }

  /** A digit that has all bits of the message is the digit of the message. */
  lemma WholeDigit(value: nat, src: seq<nat>, w: nat, at: nat)
    requires w > 0 && DigitSoFar(value, src, w, at, 8 * |src|)
    ensures value == Digit(src, 8, w, at)
  {
    GatherBelow(src, 8, at * w, w);
    forall j | 0 <= j < w ensures GetBit(value, j) == GetBit(Digit(src, 8, w, at), j) {
      GatherBit(src, 8, at * w, w, j);
      assert DigitBitAt(value, src, w, at, 8 * |src|, j);
    }
    SameBits(value, Digit(src, 8, w, at), w);
  }

  /** Characters already put out do not change when the message grows. */
  lemma CharactersKept(message: seq<nat>, more: seq<nat>, w: nat, alphabet: seq<nat>, count: nat)
    requires w > 0 && |alphabet| == Pow2(w) && count * w <= 8 * |message|
    ensures Characters(message + more, w, alphabet, count) == Characters(message, w, alphabet, count)
  {
    forall i | 0 <= i < count ensures Digit(message + more, 8, w, i) == Digit(message, 8, w, i) {
      MulMonotone(i + 1, count, w);
      assert (i + 1) * w == i * w + w;
      SameGather(message + more, 8, message, 8, i * w, w);
    }
  }

  /** Bits of digits from `base` on come after the `limit` bits that came before. */
  lemma NoBitsYet(src: seq<nat>, w: nat, at: nat, limit: nat, base: nat)
    requires w > 0 && base <= at && base * w == limit
    ensures DigitSoFar(0, src, w, at, limit)
  {
    MulMonotone(base, at, w);
    forall j | 0 <= j < w ensures DigitBitAt(0, src, w, at, limit, j) { ShrOfSmall(0, j); }
  }

  /** Bits that go into one digit leave the others as they are. */
  lemma OtherDigit(value: nat, src: seq<nat>, w: nat, at: nat, changed: nat, limit: nat, limit': nat)
    requires w > 0 && at != changed && limit <= limit'
    requires changed * w <= limit && limit' <= (changed + 1) * w
    requires DigitSoFar(value, src, w, at, limit)
    ensures DigitSoFar(value, src, w, at, limit')
  {
    assert (at + 1) * w == at * w + w && (changed + 1) * w == changed * w + w;
    if at < changed {
      MulMonotone(at + 1, changed, w);
    } else {
      MulMonotone(changed + 1, at, w);
    }
    forall j | 0 <= j < w ensures DigitBitAt(value, src, w, at, limit', j) {
      assert DigitBitAt(value, src, w, at, limit, j);
    }
  }

  /** Bits below the limit do not change when the message grows past it. */
  lemma DigitWithMore(value: nat, src: seq<nat>, more: seq<nat>, w: nat, at: nat)
    requires w > 0 && DigitSoFar(value, src, w, at, 8 * |src|)
    ensures DigitSoFar(value, src + more, w, at, 8 * |src|)
  {
    forall j | 0 <= j < w ensures DigitBitAt(value, src + more, w, at, 8 * |src|, j) {
      assert DigitBitAt(value, src, w, at, 8 * |src|, j);
    }
  }
}
