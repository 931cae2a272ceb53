/** Octet queues, and the length octets of BER and DER. */
module AsnLengths {
  import opened OctetStrings

  const SIZE_LIMIT: nat := 0x1_0000_0000_0000_0000   // lengths are 64-bit words

  /** A queue of octets that readers consume from the front. */
  class Queue {
    var data: Octets

    constructor (data: Octets)
      ensures this.data == data
    {
      this.data := data;
    }

    method Get() returns (ok: bool, b: Octet)
      modifies this
      ensures ok == (old(data) != [])
      ensures if ok then old(data) == [b] + data else data == old(data)
    {
      if data == [] {
        return false, 0;
      }
      ok, b := true, data[0];
      data := data[1..];
    }

    method Put(s: Octets)
      modifies this
      ensures data == old(data) + s
    {
      data := data + s;
    }
  }

  // ---- Big-endian numbers ----------------------------------------------------------------

  /** The number the octets stand for, most significant first. */
  function Value(s: Octets): nat {
    if s == [] then 0 else 256 * Value(s[..|s| - 1]) + s[|s| - 1]
  }

  /** How many octets a number needs. */
  function BytePrecision(n: nat): nat {
    if n == 0 then 0 else BytePrecision(n / 256) + 1
  }

  /** The low `size` octets of a number. */
  function NumberOctets(n: nat, size: nat): Octets {
    if size == 0 then [] else NumberOctets(n / 256, size - 1) + [n % 256]
  }

  /** 256 to the power of `k`. */
  function Power(k: nat): nat {
    if k == 0 then 1 else 256 * Power(k - 1)
  }

  lemma {:induction false} NumberOctetsLength(n: nat, size: nat)
    ensures |NumberOctets(n, size)| == size
  {
    if size > 0 {
      NumberOctetsLength(n / 256, size - 1);
    }
  }

  lemma {:induction false} ValueBounded(s: Octets)
    ensures Value(s) < Power(|s|)
  {
    if s != [] {
      ValueBounded(s[..|s| - 1]);
    }
  }

  /** Enough octets hold the number. */
  lemma {:induction false} ValueOfNumberOctets(n: nat, size: nat)
    requires n < Power(size)
    ensures Value(NumberOctets(n, size)) == n
  {
    if size > 0 {
      NumberOctetsLength(n / 256, size - 1);
      ValueOfNumberOctets(n / 256, size - 1);
      assert NumberOctets(n, size)[..size - 1] == NumberOctets(n / 256, size - 1);
    }
  }

  /** The precision is the fewest octets that are enough. */
  lemma {:induction false} PrecisionIsLeast(n: nat, size: nat)
    ensures n < Power(size) <==> BytePrecision(n) <= size
  {
    PowerPositive(size);
    if size > 0 && n > 0 {
      PrecisionIsLeast(n / 256, size - 1);
      DivideBelow(n, Power(size - 1));
    }
  }

  lemma DivideBelow(n: nat, p: nat)
    ensures n / 256 < p <==> n < 256 * p
  {
  }

  lemma {:induction false} ValueConcat(a: Octets, b: Octets)
    ensures Value(a + b) == Value(a) * Power(|b|) + Value(b)
  {
    if b == [] {
      assert a + b == a;
    } else {
      var c := b[..|b| - 1];
      ValueConcat(a, c);
      assert (a + b)[..|a + b| - 1] == a + c;
      ShiftedSum(Value(a), Power(|c|), Value(c), b[|b| - 1]);
    }
  }

  lemma ShiftedSum(a: nat, p: nat, c: nat, d: nat)
    ensures 256 * (a * p + c) + d == a * (256 * p) + (256 * c + d)
  {
  }

  lemma EightOctets()
    ensures Power(8) == SIZE_LIMIT
  {
    assert Power(8) == 256 * Power(7) && Power(7) == 256 * Power(6) && Power(6) == 256 * Power(5);
    assert Power(5) == 256 * Power(4) && Power(4) == 256 * Power(3) && Power(3) == 0x100_0000;
  }

  // ---- Length octets -----------------------------------------------------------------------

  /** The definite form with the fewest octets, section 10.1 of X.690. */
  function LengthOctets(n: nat): Octets
    requires n < SIZE_LIMIT
  {
    PrecisionIsLeast(n, 8);
    EightOctets();
    if n <= 0x7f then [n] else [0x80 + BytePrecision(n)] + NumberOctets(n, BytePrecision(n))
  }

  datatype Length = Definite(n: nat) | Indefinite

  datatype Decoded = Got(length: Length, rest: Octets) | Truncated | Overflow

  /** What a length means, section 8.1.3 of X.690: one octet below 128, or a count of octets that
      follow; a count of zero is the indefinite form. Lengths must fit 64 bits. */
  function DecodedLength(s: Octets): Decoded {
    if s == [] then Truncated
    else if s[0] < 0x80 then Got(Definite(s[0]), s[1..])
    else if s[0] == 0x80 then Got(Indefinite, s[1..])
    else DecodedLong(0, s[0] - 0x80, s[1..])
  }

  /** The value of `count` more octets after `n`. */
  function DecodedLong(n: nat, count: nat, s: Octets): Decoded
    decreases count
  {
    if count == 0 then Got(Definite(n), s)
    else if n >= 0x100_0000_0000_0000 then Overflow
    else if s == [] then Truncated
    else DecodedLong(256 * n + s[0], count - 1, s[1..])
  }

  /** The overflow guard rejects exactly the values that do not fit. */
  lemma {:induction false} LongValue(n: nat, count: nat, s: Octets)
    requires n < SIZE_LIMIT && count <= |s|
    ensures var v := n * Power(count) + Value(s[..count]);
            DecodedLong(n, count, s) == if v < SIZE_LIMIT then Got(Definite(v), s[count..]) else Overflow
    decreases count
  {
    var v := n * Power(count) + Value(s[..count]);
    if count == 0 {
      assert s[..0] == [] && s[0..] == s;
    } else {
      var head, tail := s[..1], s[1..][..count - 1];
      assert s[..count] == head + tail && Value(head) == s[0] by {
        assert head[..0] == [];
      }
      ValueConcat(head, tail);
      ValueBounded(tail);
      NextDigit(n, s[0], Power(count - 1), Value(tail));
      if n >= 0x100_0000_0000_0000 {
        PowerPositive(count - 1);
        Exceeds(n, 256 * Power(count - 1));
      } else {
        LongValue(256 * n + s[0], count - 1, s[1..]);
        assert s[1..][count - 1..] == s[count..];
      }
    }
  }

  lemma NextDigit(n: nat, b: nat, p: nat, t: nat)
    ensures n * (256 * p) + (b * p + t) == (256 * n + b) * p + t
  {
  }

  lemma {:induction false} PowerPositive(k: nat)
    ensures Power(k) >= 1
  {
    if k > 0 {
      PowerPositive(k - 1);
    }
  }

  lemma Exceeds(n: nat, p: nat)
    requires n >= 0x100_0000_0000_0000 && p >= 256
    ensures n * p >= SIZE_LIMIT
  {
    assert n * p >= n * 256;
  }

  lemma LongRead(digits: Octets, rest: Octets)
    requires Value(digits) < SIZE_LIMIT
    ensures DecodedLong(0, |digits|, digits + rest) == Got(Definite(Value(digits)), rest)
  {
    LongValue(0, |digits|, digits + rest);
    assert (digits + rest)[..|digits|] == digits && (digits + rest)[|digits|..] == rest;
  }

  lemma LongForm(s: Octets)
    requires s != [] && s[0] > 0x80
    ensures DecodedLength(s) == DecodedLong(0, s[0] - 0x80, s[1..])
  {
  }

  lemma LongFormRead(digits: Octets, rest: Octets)
    requires 0 < |digits| < 0x80 && Value(digits) < SIZE_LIMIT
    ensures DecodedLength([0x80 + |digits|] + digits + rest) == Got(Definite(Value(digits)), rest)
  {
    hide DecodedLong, DecodedLength;
    var s := [0x80 + |digits|] + digits + rest;
    assert s[1..] == digits + rest;
    LongRead(digits, rest);
    LongForm(s);
  }

  /** Lengths round-trip, and exactly their octets are consumed. */
  lemma DecodeEncodeLength(n: nat, rest: Octets)
    requires n < SIZE_LIMIT
    ensures DecodedLength(LengthOctets(n) + rest) == Got(Definite(n), rest)
  {
    if n > 0x7f {
      var size := BytePrecision(n);
      PrecisionIsLeast(n, size);
      PrecisionIsLeast(n, 8);
      EightOctets();
      NumberOctetsLength(n, size);
      ValueOfNumberOctets(n, size);
      LongFormRead(NumberOctets(n, size), rest);
    }
  }

  /** Tag and length of an element. */
  lemma TaggedLength(tag: Octet, c: Octets, rest: Octets)
    requires |c| < SIZE_LIMIT
    ensures var s := [tag] + LengthOctets(|c|) + c + rest;
            s[0] == tag && DecodedLength(s[1..]) == Got(Definite(|c|), c + rest)
  {
    DecodeEncodeLength(|c|, c + rest);
    var s := [tag] + LengthOctets(|c|) + c + rest;
    assert s[1..] == LengthOctets(|c|) + (c + rest);
  }

  /** No octets that decode to the same length are fewer. */
  lemma LengthIsShortest(s: Octets, n: nat, rest: Octets)
    requires n < SIZE_LIMIT && DecodedLength(s) == Got(Definite(n), rest)
    ensures |LengthOctets(n)| + |rest| <= |s|
  {
    if s[0] < 0x80 {
    } else {
      var count := s[0] - 0x80;
      LongConsumes(0, count, s[1..]);
      LongValue(0, count, s[1..]);
      ValueBounded(s[1..][..count]);
      PrecisionIsLeast(n, count);
      NumberOctetsLength(n, BytePrecision(n));
      if n == 0 {
        assert BytePrecision(n) == 0;
      }
    }
  }

  lemma {:induction false} LongConsumes(n: nat, count: nat, s: Octets)
    requires DecodedLong(n, count, s).Got?
    ensures count <= |s| && DecodedLong(n, count, s).rest == s[count..]
    decreases count
  {
    if count > 0 {
      LongConsumes(256 * n + s[0], count - 1, s[1..]);
    }
  }

  // ---- The loops ---------------------------------------------------------------------------

  /** `n` without its lowest `k` octets. */
  function ShiftedRight(n: nat, k: nat): nat {
    if k == 0 then n else ShiftedRight(n, k - 1) / 256
  }

  lemma {:induction false} PrecisionShifts(n: nat, k: nat)
    requires k <= BytePrecision(n)
    ensures BytePrecision(ShiftedRight(n, k)) == BytePrecision(n) - k
  {
    if k > 0 {
      PrecisionShifts(n, k - 1);
    }
  }

  method DERLengthEncode(bt: Queue, length: nat) returns (i: nat)
    requires length < SIZE_LIMIT
    modifies bt
    ensures bt.data == old(bt.data) + LengthOctets(length) && i == |LengthOctets(length)|
  {
    hide NumberOctets, BytePrecision;
    PrecisionIsLeast(length, 8);
    EightOctets();
    if length <= 0x7f {
      bt.Put([length]);
      i := 1;
    } else {
      var size := BytePrecision(length);
      bt.Put([size + 0x80]);
      PutDigits(bt, length, size);
      NumberOctetsLength(length, size);
      i := 1 + size;
    }
  }

  /** The octets of a length, highest first. */
  method PutDigits(bt: Queue, length: nat, size: nat)
    requires size == BytePrecision(length)
    modifies bt
    ensures bt.data == old(bt.data) + NumberOctets(length, size)
  {
    PrecisionShifts(length, size);
    ghost var start := bt.data;
    var j := size;
    while j > 0
      invariant 0 <= j <= size
      invariant bt.data == start + NumberOctets(ShiftedRight(length, j), size - j)
    {
      bt.Put([ShiftedRight(length, j - 1) % 256]);
      j := j - 1;
    }
  }

  datatype Outcome = Read(length: Length) | NoMore | TooLong

  /** Reads a length from the front of a queue. */
  method BERLengthDecode(bt: Queue) returns (r: Outcome)
    modifies bt
    ensures match DecodedLength(old(bt.data))
      case Got(length, rest) => r == Read(length) && bt.data == rest
      case Truncated => r == NoMore
      case Overflow => r == TooLong
  {
    ghost var start := bt.data;
    var ok, b := bt.Get();
    if !ok {
      return NoMore;
    }
    assert bt.data == start[1..];
    if b < 0x80 {
      return Read(Definite(b));
    }
    var lengthBytes: nat := b - 0x80;
    if lengthBytes == 0 {
      return Read(Indefinite);
    }
    var length: nat := 0;
    while lengthBytes > 0
      invariant DecodedLong(length, lengthBytes, bt.data) == DecodedLength(start)
    {
      if length >= 0x100_0000_0000_0000 {
        return TooLong;
      }
      ghost var before := bt.data;
      ok, b := bt.Get();
      if !ok {
        return NoMore;
      }
      assert bt.data == before[1..];
      lengthBytes := lengthBytes - 1;
      length := 256 * length + b;
    }
    r := Read(Definite(length));
  }
}
