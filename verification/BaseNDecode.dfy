/** Decoding digits back into bytes, building the lookup table, and grouping characters. */
module BaseNDecoding {
  import opened Bits
  import opened Options
  import opened BaseN

  // ---- The decoder ---------------------------------------------------------------------

  /** The bit that digit `v`, arriving after `bits` bits, gives to bit `j` of byte `at`. */
  ghost function NewBit(v: nat, w: nat, bits: nat, at: nat, j: nat): nat
    requires w > 0 && j < 8
  {
    var k := 8 * at + 7 - j;
    if bits <= k < bits + w then GetBit(v, w - 1 - (k - bits)) else 0
  }

  ghost predicate GivesBit(x: nat, v: nat, w: nat, bits: nat, at: nat, j: nat)
    requires w > 0
  {
    j < 8 ==> GetBit(x, j) == NewBit(v, w, bits, at, j)
  }

  /** A byte gains exactly the new bits that fall into it. */
  lemma ByteGains(digits: seq<nat>, v: nat, w: nat, at: nat, x: nat)
    requires w > 0 && x < 256
    requires forall j :: 0 <= j < 8 ==> GivesBit(x, v, w, |digits| * w, at, j)
    ensures Digit(digits + [v], w, 8, at) == Or(Digit(digits, w, 8, at), x)
  {
    var old', new' := Digit(digits, w, 8, at), Digit(digits + [v], w, 8, at);
    var r := Or(old', x);
    assert Pow2(8) == 256;
    GatherBelow(digits, w, at * 8, 8);
    GatherBelow(digits + [v], w, at * 8, 8);
    forall j | j >= 8 ensures GetBit(r, j) == 0 {
      OrBit(old', x, j);
      HighBitZero(old', 8, j);
      HighBitZero(x, 8, j);
    }
    BelowPower(r, 8);
    forall j | 0 <= j < 8 ensures GetBit(r, j) == GetBit(new', j) {
      OrBit(old', x, j);
      GatherBit(digits, w, at * 8, 8, j);
      GatherBit(digits + [v], w, at * 8, 8, j);
      assert GivesBit(x, v, w, |digits| * w, at, j);
      NextUnitBit(digits, v, w, at * 8 + 8 - 1 - j);
    }
    SameBits(r, new', 8);
  }

  /** Which side of unit `n` bit `k` lies on. */
  lemma UnitOfBit(w: nat, n: nat, k: nat)
    requires w > 0
    ensures k < n * w <==> k / w < n
    ensures k < n * w + w <==> k / w < n + 1
  {
    var q := k / w;
    assert k == q * w + k % w;
    assert (n + 1) * w == n * w + w && (q + 1) * w == q * w + w;
    MulMonotone(if q < n then q + 1 else n, if q < n then n else q, w);
    MulMonotone(if q < n + 1 then q + 1 else n + 1, if q < n + 1 then n + 1 else q, w);
  }

  /** Appending a digit appends its bits. */
  lemma NextUnitBit(digits: seq<nat>, v: nat, w: nat, k: nat)
    requires w > 0
    ensures UnitBit(digits + [v], w, k)
         == if k < |digits| * w then UnitBit(digits, w, k)
            else if k < |digits| * w + w then GetBit(v, w - 1 - (k - |digits| * w)) else 0
    ensures k >= |digits| * w ==> UnitBit(digits, w, k) == 0
  {
    var n := |digits|;
    UnitOfBit(w, n, k);
    if n * w <= k < n * w + w {
      UnitPosition(w, n, k - n * w);
    }
  }

  lemma SingleByteShift(v: nat, w: nat, bits: nat, at: nat, bitPos: nat)
    requires 0 < w < 8 && v < Pow2(w) && bits == 8 * at + bitPos && bitPos + w <= 8
    ensures var x := Shl(v, 8 - (bitPos + w));
            0 <= x < 256 && forall j :: 0 <= j < 8 ==> GivesBit(x, v, w, bits, at, j)
  {
    ShlGrows(v, 8 - (bitPos + w));
    var x := Shl(v, 8 - (bitPos + w));
    forall j | j >= 8 ensures GetBit(x, j) == 0 {
      ShlBit(v, 8 - (bitPos + w), j);
      HighBitZero(v, w, j - (8 - (bitPos + w)));
    }
    BelowPower(x, 8);
    assert Pow2(8) == 256;
    forall j | 0 <= j < 8 ensures GivesBit(x, v, w, bits, at, j) {
      ShlBit(v, 8 - (bitPos + w), j);
      if j >= 8 - bitPos {
        HighBitZero(v, w, j - (8 - (bitPos + w)));
      }
    }
  }

  lemma FirstByteShift(v: nat, w: nat, bits: nat, at: nat, bitPos: nat)
    requires 0 < w < 8 && v < Pow2(w) && bits == 8 * at + bitPos && bitPos < 8 < bitPos + w
    ensures var x := Shr(v, bitPos + w - 8);
            x < 256 && forall j :: 0 <= j < 8 ==> GivesBit(x, v, w, bits, at, j)
  {
    var x := Shr(v, bitPos + w - 8);
    PowMonotone(w, 8);
    assert Pow2(8) == 256;
    forall j | 0 <= j < 8 ensures GivesBit(x, v, w, bits, at, j) {
      ShrBit(v, bitPos + w - 8, j);
      if j >= 8 - bitPos {
        HighBitZero(v, w, j + (bitPos + w - 8));
      }
    }
  }

  lemma SecondByteShift(v: nat, w: nat, bits: nat, at: nat, bitPos: nat, next: nat)
    requires next == at + 1 && 0 < w < 8 && v < Pow2(w) && bits == 8 * at + bitPos && bitPos < 8 < bitPos + w
    ensures var x := Shl(v, 16 - (bitPos + w));
            x >= 0 && Low(x, 8) < 256 && forall j :: 0 <= j < 8 ==> GivesBit(Low(x, 8), v, w, bits, next, j)
  {
    ShlGrows(v, 16 - (bitPos + w));
    var x := Shl(v, 16 - (bitPos + w));
    SplitAt(x, 8);
    assert Pow2(8) == 256;
    var y := Low(x, 8);
    forall j | 0 <= j < 8 ensures GivesBit(y, v, w, bits, next, j) {
      LowBit(x, 8, j);
      ShlBit(v, 16 - (bitPos + w), j);
    }
  }

  /** A byte none of the new bits falls into stays as it is. */
  lemma ByteUntouched(digits: seq<nat>, v: nat, w: nat, at: nat)
    requires w > 0 && (8 * at + 8 <= |digits| * w || |digits| * w + w <= 8 * at)
    ensures Digit(digits + [v], w, 8, at) == Digit(digits, w, 8, at)
  {
    GatherBelow(digits, w, at * 8, 8);
    GatherBelow(digits + [v], w, at * 8, 8);
    forall j | 0 <= j < 8 ensures GetBit(Digit(digits, w, 8, at), j) == GetBit(Digit(digits + [v], w, 8, at), j) {
      GatherBit(digits, w, at * 8, 8, j);
      GatherBit(digits + [v], w, at * 8, 8, j);
      NextUnitBit(digits, v, w, at * 8 + 8 - 1 - j);
    }
    SameBits(Digit(digits, w, 8, at), Digit(digits + [v], w, 8, at), 8);
  }

  /** Place `i` of the buffer is byte `base + i` of the digit string. */
  ghost predicate ByteAt(buffer: seq<nat>, digits: seq<nat>, w: nat, base: nat, i: nat) {
    i < |buffer| && w > 0 ==> buffer[i] == Digit(digits, w, 8, base + i)
  }

  ghost predicate BytesHeld(buffer: seq<nat>, digits: seq<nat>, w: nat, base: nat) {
    forall i: nat :: ByteAt(buffer, digits, w, base, i)
  }

  /** The digits that the characters stand for; characters outside the alphabet are skipped. */
  function DigitsOf(characters: seq<nat>, lookup: seq<int>): seq<nat> {
    if characters == [] then []
    else
      var last := characters[|characters| - 1];
      DigitsOf(characters[..|characters| - 1], lookup) + if IsDigit(lookup, last) then [lookup[last]] else []
  }

  /** A table entry below 256, compared as an unsigned number. */
  predicate IsDigit(lookup: seq<int>, c: nat) {
    c < |lookup| && 0 <= lookup[c] < 256
  }

  /** The bytes that a string of digits fills completely. */
  ghost function Decoded(digits: seq<nat>, w: nat): seq<nat>
    requires w > 0
  {
    Recut(digits, w, 8, |digits| * w / 8)
  }

  class Decoder {
    const bitsPerChar: nat
    const lookup: seq<int>
    const outputBlockSize: nat
    const outBuf: array<nat>
    var bytePos: nat
    var bitPos: nat
    var output: seq<nat>
    ghost var digits: seq<nat>   // the digits of the current message so far
    ghost var before: seq<nat>   // what had been put out when it began

    ghost function Base(): nat
      reads this
    {
      if |before| <= |output| then |output| - |before| else 0
    }

    ghost predicate Configured()
      reads this
    {
      && 0 < bitsPerChar < 8 && |lookup| == 256
      && (forall c :: 0 <= c < 256 && 0 <= lookup[c] < 256 ==> lookup[c] < Pow2(bitsPerChar))
      && outBuf.Length == outputBlockSize == DecoderBlock(bitsPerChar)
      && outputBlockSize * 8 % bitsPerChar == 0
    }

    ghost predicate Valid()
      reads this, outBuf
    {
      && Configured()
      && bytePos < outputBlockSize && bitPos < 8
      && |before| <= |output| && Base() % outputBlockSize == 0
      && output == before + Recut(digits, bitsPerChar, 8, Base())
      && 8 * (Base() + bytePos) + bitPos == |digits| * bitsPerChar
      && (bytePos > 0 || bitPos > 0 ==> BytesHeld(outBuf[..], digits, bitsPerChar, Base()))
    }

    constructor (lookup: seq<int>, log2Base: nat)
      requires 0 < log2Base < 8 && |lookup| == 256
      requires forall c :: 0 <= c < 256 && 0 <= lookup[c] < 256 ==> lookup[c] < Pow2(log2Base)
      ensures Valid() && fresh(outBuf) && digits == [] && before == output == []
      ensures bitsPerChar == log2Base && this.lookup == lookup
    {
      bitsPerChar, this.lookup := log2Base, lookup;
      bytePos, bitPos := 0, 0;
      var size := BlockSize(log2Base, 8);
      DecoderBlockIsLeast(log2Base);
      LeastBlockUnique(size, DecoderBlock(log2Base), 8, log2Base);
      outputBlockSize := size;
      outBuf := new nat[size];
      output, digits, before := [], [], [];
      EmptyMessage(size, log2Base);
    }

    /** A new decoder, or none when the digit width is not between 1 and 7. */
    static method IsolatedInitialize(lookup: seq<int>, log2Base: int) returns (decoder: Decoder?)
      requires |lookup| == 256
      requires 0 < log2Base < 8 ==> forall c :: 0 <= c < 256 && 0 <= lookup[c] < 256 ==> lookup[c] < Pow2(log2Base)
      ensures decoder == null <==> log2Base <= 0 || log2Base >= 8
      ensures decoder != null ==> decoder.Valid() && fresh(decoder) && fresh(decoder.outBuf)
      ensures decoder != null ==> decoder.digits == [] && decoder.before == decoder.output == []
      ensures decoder != null ==> decoder.bitsPerChar == log2Base && decoder.lookup == lookup
    {
      if log2Base <= 0 || log2Base >= 8 {
        return null;
      }
      decoder := new Decoder(lookup, log2Base);
    }

    method ClearIfEmpty()
      requires Valid()
      modifies outBuf
      ensures Valid() && BytesHeld(outBuf[..], digits, bitsPerChar, Base())
    {
      if bytePos == 0 && bitPos == 0 {
        forall i | 0 <= i < outBuf.Length {
          outBuf[i] := 0;
        }
        forall i: nat ensures ByteAt(outBuf[..], digits, bitsPerChar, Base(), i) {
          ByteNotBegun(digits, bitsPerChar, Base() + i);
        }
      }
    }

    /** The places the bits of a digit do not reach. */
    lemma OtherBytes(was: seq<nat>, value: nat, second: bool)
      requires 0 < bitsPerChar < 8 && bitPos < 8 && 8 * (Base() + bytePos) + bitPos == |digits| * bitsPerChar
      requires second <==> bitPos + bitsPerChar > 8
      requires BytesHeld(was, digits, bitsPerChar, Base())
      ensures forall i: nat :: i != bytePos && !(second && i == bytePos + 1) ==>
                ByteAt(was, digits + [value], bitsPerChar, Base(), i)
    {
      forall i: nat | i != bytePos && !(second && i == bytePos + 1)
        ensures ByteAt(was, digits + [value], bitsPerChar, Base(), i)
      {
        assert ByteAt(was, digits, bitsPerChar, Base(), i);
        ByteUntouched(digits, value, bitsPerChar, Base() + i);
      }
    }

    /** Puts the bits of a digit into the buffer. */
    method Deposit(value: nat)
      requires Configured() && bytePos < outputBlockSize && bitPos < 8 && value < Pow2(bitsPerChar)
      requires bitPos + bitsPerChar > 8 ==> bytePos + 1 < outputBlockSize
      requires 8 * (Base() + bytePos) + bitPos == |digits| * bitsPerChar
      requires BytesHeld(outBuf[..], digits, bitsPerChar, Base())
      modifies outBuf
      ensures BytesHeld(outBuf[..], digits + [value], bitsPerChar, Base())
    {
      hide Or, Shr, Low, Shl;
      ghost var bits, at := |digits| * bitsPerChar, Base() + bytePos;
      ghost var was := outBuf[..];
      OtherBytes(was, value, bitPos + bitsPerChar > 8);
      assert ByteAt(outBuf[..], digits, bitsPerChar, Base(), bytePos);
      assert ByteAt(outBuf[..], digits, bitsPerChar, Base(), bytePos + 1);
      var newBitPos := bitPos + bitsPerChar;
      if newBitPos <= 8 {
        SingleByteShift(value, bitsPerChar, bits, at, bitPos);
        ByteGains(digits, value, bitsPerChar, at, Shl(value, 8 - newBitPos));
        outBuf[bytePos] := Or(outBuf[bytePos], Shl(value, 8 - newBitPos));
      } else {
        FirstByteShift(value, bitsPerChar, bits, at, bitPos);
        SecondByteShift(value, bitsPerChar, bits, at, bitPos, at + 1);
        ByteGains(digits, value, bitsPerChar, at, Shr(value, newBitPos - 8));
        ByteGains(digits, value, bitsPerChar, at + 1, Low(Shl(value, 16 - newBitPos), 8));
        outBuf[bytePos] := Or(outBuf[bytePos], Shr(value, newBitPos - 8));
        outBuf[bytePos + 1] := Or(outBuf[bytePos + 1], Low(Shl(value, 16 - newBitPos), 8));
      }
      forall i: nat ensures ByteAt(outBuf[..], digits + [value], bitsPerChar, Base(), i) {
        assert i == bytePos || (newBitPos > 8 && i == bytePos + 1)
               || ByteAt(was, digits + [value], bitsPerChar, Base(), i);
      }
    }

    /** The bytes in the buffer are the next ones of the digit string. */
    method AppendBytes(count: nat)
      requires Configured() && |before| <= |output| && count <= outputBlockSize
      requires output == before + Recut(digits, bitsPerChar, 8, Base())
      requires count > 0 ==> BytesHeld(outBuf[..], digits, bitsPerChar, Base())
      modifies this`output
      ensures |output| == old(|output|) + count
      ensures output == before + Recut(digits, bitsPerChar, 8, Base())
    {
      forall i: nat | i < count ensures outBuf[i] == Digit(digits, bitsPerChar, 8, Base() + i) {
        assert ByteAt(outBuf[..], digits, bitsPerChar, Base(), i);
      }
      assert output + outBuf[..count] == before + Recut(digits, bitsPerChar, 8, Base() + count);
      output := output + outBuf[..count];
    }

    /** One character: skipped if it is no digit, else put into the buffer, which goes out
        when it is full. */
    method PutCharacter(c: nat)
      requires Valid() && c < 256
      modifies this`bytePos, this`bitPos, this`output, this`digits, outBuf
      ensures Valid()
      ensures digits == if IsDigit(lookup, c) then old(digits) + [lookup[c]] else old(digits)
    {
      var value := lookup[c];
      if !(0 <= value < 256) {
        return;
      }
      ClearIfEmpty();
      RoomForDigit(Base(), bytePos, bitPos, bitsPerChar, outputBlockSize, |digits|);
      Deposit(value);
      BytesKept(digits, value, bitsPerChar, Base());
      digits := digits + [value];
      ghost var buffer := outBuf[..];
      bitPos := bitPos + bitsPerChar;
      while bitPos >= 8
        invariant 8 * (Base() + bytePos) + bitPos == |digits| * bitsPerChar
        invariant output == old(output) && digits == old(digits) + [value] && outBuf[..] == buffer
      {
        bitPos := bitPos - 8;
        bytePos := bytePos + 1;
      }
      if bytePos == outputBlockSize {
        AppendBytes(bytePos);
        bytePos, bitPos := 0, 0;
      }
    }

    /** Ends the message: the bytes that are complete go out. */
    method EndMessage()
      requires Valid()
      modifies this`bytePos, this`bitPos, this`output, this`digits, this`before
      ensures Valid() && digits == [] && before == output
      ensures output == old(before) + Decoded(old(digits), bitsPerChar)
    {
      Unquotient(|digits| * bitsPerChar, 8, Base() + bytePos, bitPos);
      AppendBytes(bytePos);
      bytePos, bitPos := 0, 0;
      digits, before := [], output;
      EmptyMessage(outputBlockSize, bitsPerChar);
      assert Base() == 0 && |digits| == 0;
    }

    /** Takes any number of characters; however the message is cut into calls, what comes
        out at its end is the decoding of its digits. */
    method Put2(input: seq<nat>, messageEnd: bool)
      requires Valid() && forall i :: 0 <= i < |input| ==> input[i] < 256
      modifies this`bytePos, this`bitPos, this`output, this`digits, this`before, outBuf
      ensures Valid()
      ensures !messageEnd ==> digits == old(digits) + DigitsOf(input, lookup) && before == old(before)
      ensures messageEnd ==> digits == [] && before == output
      ensures messageEnd ==> output == old(before) + Decoded(old(digits) + DigitsOf(input, lookup), bitsPerChar)
    {
      for i := 0 to |input|
        invariant Valid() && digits == old(digits) + DigitsOf(input[..i], lookup) && before == old(before)
      {
        assert input[..i + 1][..i] == input[..i];
        PutCharacter(input[i]);
      }
      assert input[..|input|] == input;
      if messageEnd {
        EndMessage();
      }
    }
  }

  lemma NextMultiple(a: nat, n: nat, w: nat)
    requires w > 0 && n % w == 0 && a * w < n
    ensures (a + 1) * w <= n
  {
    var k := n / w;
    assert n == k * w;
    if k <= a {
      MulMonotone(k, a, w);
    }
    MulMonotone(a + 1, k, w);
  }

  /** There is room for the next digit in a buffer that is not full. */
  lemma RoomForDigit(base: nat, bytePos: nat, bitPos: nat, w: nat, block: nat, count: nat)
    requires 0 < w < 8 && bytePos < block && bitPos < 8 && block * 8 % w == 0 && base % block == 0
    requires 8 * (base + bytePos) + bitPos == count * w
    ensures (count + 1) * w == count * w + w
    ensures 8 * bytePos + bitPos + w <= 8 * block
    ensures (base + block) % block == 0
  {
    BlockAligned(base, 8, block, w);
    NextMultiple(count, (base + block) * 8, w);
  }

  /** Bytes already put out do not change when a digit is added. */
  lemma BytesKept(digits: seq<nat>, v: nat, w: nat, count: nat)
    requires w > 0 && 8 * count <= |digits| * w
    ensures Recut(digits + [v], w, 8, count) == Recut(digits, w, 8, count)
  {
    forall i | 0 <= i < count ensures Digit(digits + [v], w, 8, i) == Digit(digits, w, 8, i) {
      ByteUntouched(digits, v, w, i);
    }
  }

  lemma ByteNotBegun(digits: seq<nat>, w: nat, at: nat)
    requires w > 0 && 8 * at >= |digits| * w
    ensures Digit(digits, w, 8, at) == 0
  {
    GatherBelow(digits, w, at * 8, 8);
    forall j | 0 <= j < 8 ensures GetBit(Digit(digits, w, 8, at), j) == GetBit(0, j) {
      GatherBit(digits, w, at * 8, 8, j);
      NextUnitBit(digits, 0, w, at * 8 + 8 - 1 - j);
      ShrOfSmall(0, j);
    }
    SameBits(Digit(digits, w, 8, at), 0, 8);
  }

  lemma {:induction false} DigitsOfConcat(a: seq<nat>, b: seq<nat>, lookup: seq<int>)
    ensures DigitsOf(a + b, lookup) == DigitsOf(a, lookup) + DigitsOf(b, lookup)
  {
    if b == [] {
      assert a + b == a;
    } else {
      assert (a + b)[..|a + b| - 1] == a + b[..|b| - 1];
      DigitsOfConcat(a, b[..|b| - 1], lookup);
    }
  }

  // ---- The lookup table ----------------------------------------------------------------

  predicate IsAlpha(c: nat) {
    65 <= c <= 90 || 97 <= c <= 122
  }

  function ToUpper(c: nat): nat {
    if 97 <= c <= 122 then c - 32 else c
  }

  function ToLower(c: nat): nat {
    if 65 <= c <= 90 then c + 32 else c
  }

  /** Whether character `c` stands for alphabet character `a`. */
  predicate Matches(a: nat, c: nat, caseInsensitive: bool) {
    if caseInsensitive && IsAlpha(a) then c == ToUpper(a) || c == ToLower(a) else c == a
  }

  /** The last of the first `n` alphabet characters that `c` stands for, or -1. */
  ghost function LastMatch(alphabet: seq<nat>, n: nat, c: nat, caseInsensitive: bool): int
    requires n <= |alphabet|
  {
    if n == 0 then -1
    else if Matches(alphabet[n - 1], c, caseInsensitive) then n - 1
    else LastMatch(alphabet, n - 1, c, caseInsensitive)
  }

  method InitializeDecodingLookupArray(lookup: array<int>, alphabet: seq<nat>, base: nat, caseInsensitive: bool)
    requires lookup.Length == 256 && base <= |alphabet|
    requires forall i :: 0 <= i < base ==> alphabet[i] < 256
    modifies lookup
    ensures forall c :: 0 <= c < 256 ==> lookup[c] == LastMatch(alphabet, base, c, caseInsensitive)
  {
    forall c | 0 <= c < 256 {
      lookup[c] := -1;
    }
    for i := 0 to base
      invariant forall c :: 0 <= c < 256 ==> lookup[c] == LastMatch(alphabet, i, c, caseInsensitive)
    {
      if caseInsensitive && IsAlpha(alphabet[i]) {
        lookup[ToUpper(alphabet[i])] := i;
        lookup[ToLower(alphabet[i])] := i;
      } else {
        lookup[alphabet[i]] := i;
      }
    }
  }

  /** No character stands for two characters of the alphabet. */
  ghost predicate Unambiguous(alphabet: seq<nat>, caseInsensitive: bool) {
    forall i, j, c :: 0 <= i < j < |alphabet| && Matches(alphabet[j], c, caseInsensitive) ==>
      !Matches(alphabet[i], c, caseInsensitive)
  }

  /** With an unambiguous alphabet the table maps exactly the characters that stand for a
      digit, each to its digit. */
  lemma {:induction false} LookupInverts(alphabet: seq<nat>, n: nat, c: nat, caseInsensitive: bool)
    requires Unambiguous(alphabet, caseInsensitive) && n <= |alphabet|
    ensures -1 <= LastMatch(alphabet, n, c, caseInsensitive) < n
    ensures forall i :: 0 <= i < n ==>
              (Matches(alphabet[i], c, caseInsensitive) <==> LastMatch(alphabet, n, c, caseInsensitive) == i)
  {
    if n > 0 {
      LookupInverts(alphabet, n - 1, c, caseInsensitive);
    }
  }

  // ---- Decoding what was encoded -------------------------------------------------------

  /** The table sends each character of the alphabet back to its digit. */
  ghost predicate InvertsAlphabet(lookup: seq<int>, alphabet: seq<nat>) {
    |lookup| == 256 && forall i: nat :: InvertsAt(lookup, alphabet, i)
  }

  ghost predicate InvertsAt(lookup: seq<int>, alphabet: seq<nat>, i: nat) {
    i < |alphabet| ==> alphabet[i] < |lookup| && lookup[alphabet[i]] == i
  }

  /** The table built for an unambiguous alphabet inverts it, and nothing else is a digit. */
  lemma TableInverts(lookup: seq<int>, alphabet: seq<nat>, caseInsensitive: bool)
    requires |lookup| == 256 && |alphabet| <= 256 && Unambiguous(alphabet, caseInsensitive)
    requires forall i :: 0 <= i < |alphabet| ==> alphabet[i] < 256
    requires forall c :: 0 <= c < 256 ==> lookup[c] == LastMatch(alphabet, |alphabet|, c, caseInsensitive)
    ensures InvertsAlphabet(lookup, alphabet)
    ensures forall c: nat :: IsDigit(lookup, c) ==>
              exists i :: 0 <= i < |alphabet| && Matches(alphabet[i], c, caseInsensitive)
  {
    forall i: nat ensures InvertsAt(lookup, alphabet, i) {
      if i < |alphabet| {
        LookupInverts(alphabet, |alphabet|, alphabet[i], caseInsensitive);
      }
    }
    forall c: nat | IsDigit(lookup, c)
      ensures exists i :: 0 <= i < |alphabet| && Matches(alphabet[i], c, caseInsensitive)
    {
      LookupInverts(alphabet, |alphabet|, c, caseInsensitive);
      assert Matches(alphabet[lookup[c]], c, caseInsensitive);
    }
  }

  lemma {:induction false} DigitsOfCharacters(message: seq<nat>, w: nat, alphabet: seq<nat>, lookup: seq<int>,
                                              count: nat)
    requires 0 < w < 8 && |alphabet| == Pow2(w) && InvertsAlphabet(lookup, alphabet)
    ensures DigitsOf(Characters(message, w, alphabet, count), lookup) == Recut(message, 8, w, count)
  {
    if count > 0 {
      var all := Characters(message, w, alphabet, count);
      assert all[..count - 1] == Characters(message, w, alphabet, count - 1);
      DigitsOfCharacters(message, w, alphabet, lookup, count - 1);
      GatherBelow(message, 8, (count - 1) * w, w);
      assert InvertsAt(lookup, alphabet, Digit(message, 8, w, count - 1));
      PowMonotone(w, 8);
      assert Pow2(8) == 256;
    }
  }

  lemma {:induction false} SkippedAddNothing(s: seq<nat>, lookup: seq<int>)
    requires forall i :: 0 <= i < |s| ==> !IsDigit(lookup, s[i])
    ensures DigitsOf(s, lookup) == []
  {
    if s != [] {
      SkippedAddNothing(s[..|s| - 1], lookup);
    }
  }

  /** The encoding has the digits of the message, and decoding them gives the message. */
  lemma EncodeDecode(message: seq<nat>, w: nat, alphabet: seq<nat>, padding: Option<nat>, block: nat, lookup: seq<int>)
    requires 0 < w < 8 && block > 0 && |alphabet| == Pow2(w) && InvertsAlphabet(lookup, alphabet)
    requires forall i :: 0 <= i < |message| ==> message[i] < 256
    requires padding.Some? ==> !IsDigit(lookup, padding.value)
    ensures var encoded := Encoded(message, w, alphabet, padding, block);
            && DigitsOf(encoded, lookup) == Recut(message, 8, w, DigitCount(|message|, 8, w))
            && Decoded(DigitsOf(encoded, lookup), w) == message
  {
    var count := DigitCount(|message|, 8, w);
    var full := RoundUp(count, block);
    EncodedParts(message, w, alphabet, padding, block, count, full);
    var characters := Characters(message, w, alphabet, count);
    var filling := if padding.Some? then seq<nat>(full - count, _ => padding.value) else [];
    DigitsOfCharacters(message, w, alphabet, lookup, count);
    SkippedAddNothing(filling, lookup);
    DigitsOfConcat(characters, filling, lookup);
    assert Pow2(8) == 256;
    RecutRoundTrip(message, 8, w);
    DigitsFillBytes(|message|, w);
  }

  /** The digits of a message fill its bytes and less than one byte more. */
  lemma DigitsFillBytes(n: nat, w: nat)
    requires 0 < w < 8
    ensures DigitCount(n, 8, w) * w / 8 == n
  {
    var s := n * 8 + w - 1;
    assert s == s / w * w + s % w;
    Unquotient(DigitCount(n, 8, w) * w, 8, n, DigitCount(n, 8, w) * w - 8 * n);
  }

  // ---- Grouping ------------------------------------------------------------------------

  /** The characters with a separator before each that would overfill its group, the current
      group already holding `counter`. */
  ghost function Grouped(s: seq<nat>, size: nat, separator: seq<nat>, counter: nat): seq<nat> {
    if s == [] then []
    else if counter == size then separator + [s[0]] + Grouped(s[1..], size, separator, 1)
    else [s[0]] + Grouped(s[1..], size, separator, counter + 1)
  }

  /** How full the group is after the characters. */
  ghost function CounterAfter(s: seq<nat>, size: nat, counter: nat): nat {
    if s == [] then counter else CounterAfter(s[1..], size, if counter == size then 1 else counter + 1)
  }

  lemma {:induction false} GroupedConcat(a: seq<nat>, b: seq<nat>, size: nat, separator: seq<nat>, counter: nat)
    ensures Grouped(a + b, size, separator, counter)
         == Grouped(a, size, separator, counter) + Grouped(b, size, separator, CounterAfter(a, size, counter))
    ensures CounterAfter(a + b, size, counter) == CounterAfter(b, size, CounterAfter(a, size, counter))
  {
    if a == [] {
      assert a + b == b;
    } else {
      assert (a + b)[1..] == a[1..] + b;
      GroupedConcat(a[1..], b, size, separator, if counter == size then 1 else counter + 1);
    }
  }

  lemma {:induction false} GroupedWithin(a: seq<nat>, size: nat, separator: seq<nat>, counter: nat)
    requires counter + |a| <= size
    ensures Grouped(a, size, separator, counter) == a
    ensures CounterAfter(a, size, counter) == counter + |a|
  {
    if a != [] {
      GroupedWithin(a[1..], size, separator, counter + 1);
    }
  }

  lemma PieceInNewGroup(piece: seq<nat>, size: nat, separator: seq<nat>)
    requires 0 < |piece| <= size
    ensures Grouped(piece, size, separator, size) == separator + piece
    ensures CounterAfter(piece, size, size) == |piece|
  {
    var rest := piece[1..];
    GroupedWithin(rest, size, separator, 1);
    assert piece == [piece[0]] + rest;
  }

  /** A piece that fits into the current group goes out after at most one separator. */
  lemma NextGroup(message: seq<nat>, piece: seq<nat>, size: nat, separator: seq<nat>, counter: nat)
    requires size > 0 && counter == CounterAfter(message, size, 0) <= size && piece != []
    requires |piece| <= size - if counter == size then 0 else counter
    ensures Grouped(message + piece, size, separator, 0)
         == Grouped(message, size, separator, 0) + (if counter == size then separator else []) + piece
    ensures CounterAfter(message + piece, size, 0) == (if counter == size then 0 else counter) + |piece|
  {
    GroupedConcat(message, piece, size, separator, 0);
    var before := Grouped(message, size, separator, 0);
    if counter == size {
      PieceInNewGroup(piece, size, separator);
      assert before + (separator + piece) == before + separator + piece;
    } else {
      assert before + [] == before;
      GroupedWithin(piece, size, separator, counter);
    }
  }

  /** The grouping of a whole message. */
  ghost function GroupedMessage(message: seq<nat>, groupSize: nat, separator: seq<nat>,
                                terminator: seq<nat>): seq<nat>
  {
    (if groupSize == 0 then message else Grouped(message, groupSize, separator, 0)) + terminator
  }

  class Grouper {
    const groupSize: nat
    const separator: seq<nat>
    const terminator: seq<nat>
    var counter: nat
    var output: seq<nat>
    ghost var message: seq<nat>
    ghost var before: seq<nat>

    ghost predicate Valid()
      reads this
    {
      && (groupSize == 0 ==> output == before + message && counter == 0)
      && (groupSize != 0 ==> output == before + Grouped(message, groupSize, separator, 0))
      && (groupSize != 0 ==> counter == CounterAfter(message, groupSize, 0) <= groupSize)
    }

    constructor (groupSize: nat, separator: seq<nat>, terminator: seq<nat>)
      ensures Valid() && message == [] && before == output == []
      ensures this.groupSize == groupSize && this.separator == separator && this.terminator == terminator
    {
      this.groupSize, this.separator, this.terminator := groupSize, separator, terminator;
      counter, output, message, before := 0, [], [], [];
    }

    /** Puts out as much of the input as fits into a group, after a separator if the last
        group is full. */
    method PutPiece(input: seq<nat>) returns (len: nat)
      requires Valid() && groupSize != 0 && input != []
      modifies this`counter, this`output, this`message
      ensures Valid() && 0 < len <= |input| && message == old(message) + input[..len]
    {
      ghost var was := counter;
      if counter == groupSize {
        output := output + separator;
        counter := 0;
      }
      len := if |input| <= groupSize - counter then |input| else groupSize - counter;
      NextGroup(message, input[..len], groupSize, separator, was);
      output := output + input[..len];
      message := message + input[..len];
      counter := counter + len;
    }

    /** Takes any number of characters; however the message is cut into calls, what comes
        out at its end is its grouping. */
    method Put2(input: seq<nat>, messageEnd: bool)
      requires Valid()
      modifies this
      ensures Valid()
      ensures !messageEnd ==> message == old(message) + input && before == old(before)
      ensures messageEnd ==> message == [] && before == output
      ensures messageEnd ==>
                output == old(before) + GroupedMessage(old(message) + input, groupSize, separator, terminator)
    {
      if groupSize != 0 {
        var position := 0;
        while position < |input|
          invariant 0 <= position <= |input|
          invariant Valid() && message == old(message) + input[..position] && before == old(before)
        {
          var len := PutPiece(input[position..]);
          assert input[..position + len] == input[..position] + input[position..][..len];
          position := position + len;
        }
        assert input[..|input|] == input;
      } else {
        output := output + input;
        message := message + input;
      }
      if messageEnd {
        output := output + terminator;
        counter := 0;
        message, before := [], output;
      }
    }
  }

  lemma DigitsAfterSeparator(separator: seq<nat>, rest: seq<nat>, lookup: seq<int>)
    requires forall i :: 0 <= i < |separator| ==> !IsDigit(lookup, separator[i])
    ensures DigitsOf(separator + rest, lookup) == DigitsOf(rest, lookup)
  {
    SkippedAddNothing(separator, lookup);
    DigitsOfConcat(separator, rest, lookup);
  }

  lemma {:induction false} GroupedDigits(s: seq<nat>, size: nat, separator: seq<nat>, counter: nat, lookup: seq<int>)
    requires forall i :: 0 <= i < |separator| ==> !IsDigit(lookup, separator[i])
    ensures DigitsOf(Grouped(s, size, separator, counter), lookup) == DigitsOf(s, lookup)
  {
    if s != [] {
      var next := if counter == size then 1 else counter + 1;
      var rest := Grouped(s[1..], size, separator, next);
      GroupedDigits(s[1..], size, separator, next, lookup);
      assert s == [s[0]] + s[1..];
      DigitsOfConcat([s[0]], s[1..], lookup);
      DigitsOfConcat([s[0]], rest, lookup);
      if counter == size {
        DigitsAfterSeparator(separator, [s[0]] + rest, lookup);
        assert separator + [s[0]] + rest == separator + ([s[0]] + rest);
      }
    }
  }

  /** Grouping changes none of the digits, when separator and terminator are no digits. */
  lemma GroupedMessageDigits(s: seq<nat>, groupSize: nat, separator: seq<nat>, terminator: seq<nat>, lookup: seq<int>)
    requires forall i :: 0 <= i < |separator| ==> !IsDigit(lookup, separator[i])
    requires forall i :: 0 <= i < |terminator| ==> !IsDigit(lookup, terminator[i])
    ensures DigitsOf(GroupedMessage(s, groupSize, separator, terminator), lookup) == DigitsOf(s, lookup)
  {
    GroupedDigits(s, groupSize, separator, 0, lookup);
    SkippedAddNothing(terminator, lookup);
    DigitsOfConcat(if groupSize == 0 then s else Grouped(s, groupSize, separator, 0), terminator, lookup);
  }

  /** Encoding, grouping and decoding is the identity on every message. */
  lemma EncodeGroupDecode(message: seq<nat>, w: nat, alphabet: seq<nat>, padding: Option<nat>, block: nat,
                          groupSize: nat, separator: seq<nat>, terminator: seq<nat>, lookup: seq<int>)
    requires 0 < w < 8 && block > 0 && |alphabet| == Pow2(w) && InvertsAlphabet(lookup, alphabet)
    requires forall i :: 0 <= i < |message| ==> message[i] < 256
    requires padding.Some? ==> !IsDigit(lookup, padding.value)
    requires forall i :: 0 <= i < |separator| ==> !IsDigit(lookup, separator[i])
    requires forall i :: 0 <= i < |terminator| ==> !IsDigit(lookup, terminator[i])
    ensures var grouped := GroupedMessage(Encoded(message, w, alphabet, padding, block), groupSize, separator,
                                          terminator);
            Decoded(DigitsOf(grouped, lookup), w) == message
  {
    EncodeDecode(message, w, alphabet, padding, block, lookup);
    GroupedMessageDigits(Encoded(message, w, alphabet, padding, block), groupSize, separator, terminator, lookup);
  }
}
