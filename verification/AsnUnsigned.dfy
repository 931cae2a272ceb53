/** Unsigned INTEGERs of a machine word, sections 8.2 to 8.4 of X.690. */
module AsnUnsigned {
  import opened OctetStrings
  import opened AsnLengths

  const BOOLEAN: Octet := 1
  const INTEGER: Octet := 2
  const ENUMERATED: Octet := 10

  /** The contents octets: two's complement, so a leading one bit needs a zero octet before it. */
  function UnsignedContents(w: nat): Octets {
    var digits := NumberOctets(w, if w == 0 then 1 else BytePrecision(w));
    NumberOctetsLength(w, if w == 0 then 1 else BytePrecision(w));
    if digits[0] >= 0x80 then [0] + digits else digits
  }

  function Contents(w: nat, tag: Octet): Octets {
    if tag == BOOLEAN then [if w != 0 then 0xff else 0] else UnsignedContents(w)
  }

  function EncodedUnsigned(w: nat, tag: Octet): Octets
    requires |Contents(w, tag)| < SIZE_LIMIT
  {
    [tag] + LengthOctets(|Contents(w, tag)|) + Contents(w, tag)
  }

  /** What the reader makes of a word of `size` octets. */
  datatype Unsigned = UnsignedRead(w: nat, rest: Octets) | Bad

  function DecodedUnsigned(s: Octets, size: nat, tag: Octet, least: nat, most: nat): Unsigned {
    if s == [] || s[0] != tag then Bad
    else match DecodedLength(s[1..])
         case Got(Definite(bc), r) =>
           if bc > |r| || (tag == BOOLEAN && bc != 1) || ((tag == INTEGER || tag == ENUMERATED) && bc == 0) then Bad
           else
             var v := Value(r[..bc]);
             if v < Power(size) && least <= v <= most then UnsignedRead(v, r[bc..]) else Bad
         case _ => Bad
  }

  /** The contents stand for the number, are not negative, and start with fewer than nine zero bits. */
  lemma ContentsAre(w: nat)
    ensures Value(UnsignedContents(w)) == w
    ensures UnsignedContents(w) != [] && UnsignedContents(w)[0] < 0x80
    ensures |UnsignedContents(w)| > 1 ==> UnsignedContents(w)[0] > 0 || UnsignedContents(w)[1] >= 0x80
  {
    hide NumberOctets, BytePrecision;
    var size := if w == 0 then 1 else BytePrecision(w);
    PrecisionIsLeast(w, size);
    NumberOctetsLength(w, size);
    ValueOfNumberOctets(w, size);
    var digits := NumberOctets(w, size);
    if digits[0] >= 0x80 {
      ValueConcat([0], digits);
      assert [0][..0] == [];
      assert Value([0]) == 0;
    } else if |digits| > 1 && digits[0] == 0 {
      LeadingZero(digits);
      PrecisionIsLeast(w, size - 1);
    }
  }

  lemma LeadingZero(s: Octets)
    requires s != [] && s[0] == 0
    ensures Value(s) < Power(|s| - 1) && Value(s) == Value(s[1..])
  {
    ValueConcat([0], s[1..]);
    assert [0] + s[1..] == s && [0][..0] == [] && Value([0]) == 0;
    ValueBounded(s[1..]);
  }

  /** No contents octets of the same number that are not negative are fewer. */
  lemma ContentsAreShortest(s: Octets, w: nat)
    requires s != [] && s[0] < 0x80 && Value(s) == w
    ensures |UnsignedContents(w)| <= |s|
  {
    ValueBounded(s);
    PrecisionIsLeast(w, |s|);
    var size := if w == 0 then 1 else BytePrecision(w);
    NumberOctetsLength(w, size);
    if size == |s| {
      PrecisionIsLeast(w, size);
      ValueOfNumberOctets(w, size);
      SameDigits(s, NumberOctets(w, size));
    }
  }

  lemma {:induction false} SameDigits(a: Octets, b: Octets)
    requires |a| == |b| && Value(a) == Value(b)
    ensures a == b
  {
    if a != [] {
      SameDigits(a[..|a| - 1], b[..|b| - 1]);
      assert a == a[..|a| - 1] + [a[|a| - 1]] && b == b[..|b| - 1] + [b[|b| - 1]];
    }
  }

  lemma ContentsLength(w: nat, size: nat, tag: Octet)
    requires 0 < size && w < Power(size)
    ensures 1 <= |Contents(w, tag)| <= size + 1
  {
    PrecisionIsLeast(w, size);
    NumberOctetsLength(w, if w == 0 then 1 else BytePrecision(w));
  }

  /** INTEGERs round-trip when they lie in the reader's range. */
  lemma DecodeEncodeUnsigned(w: nat, size: nat, tag: Octet, least: nat, most: nat, rest: Octets)
    requires 0 < size <= 8 && w < Power(size) && tag != BOOLEAN
    ensures |Contents(w, tag)| < SIZE_LIMIT
    ensures DecodedUnsigned(EncodedUnsigned(w, tag) + rest, size, tag, least, most)
         == if least <= w <= most then UnsignedRead(w, rest) else Bad
  {
    hide LengthOctets, UnsignedContents, DecodedLength;
    ContentsLength(w, size, tag);
    ContentsAre(w);
    var c := Contents(w, tag);
    TaggedLength(tag, c, rest);
    assert (c + rest)[..|c|] == c && (c + rest)[|c|..] == rest;
  }

  // ---- The loops ---------------------------------------------------------------------------

  method DEREncodeUnsigned(out: Queue, w: nat, size: nat, tag: Octet) returns (written: nat)
    requires 0 < size <= 8 && w < Power(size) && |Contents(w, tag)| < SIZE_LIMIT
    modifies out
    ensures out.data == old(out.data) + EncodedUnsigned(w, tag) && written == |EncodedUnsigned(w, tag)|
  {
    var buf := new Octet[size + 1];
    var bc: nat;
    if tag == BOOLEAN {
      buf[size] := if w != 0 then 0xff else 0;
      bc := 1;
      assert buf[size..] == [buf[size]];
    } else {
      bc := FillBuffer(buf, w, size);
    }
    var contents := buf[size + 1 - bc..];
    assert contents == Contents(w, tag) && |contents| == bc;
    written := PutTagged(out, tag, contents);
  }

  /** Tag, length and contents. */
  method PutTagged(out: Queue, tag: Octet, contents: Octets) returns (written: nat)
    requires |contents| < SIZE_LIMIT
    modifies out
    ensures out.data == old(out.data) + ([tag] + LengthOctets(|contents|) + contents)
    ensures written == |[tag] + LengthOctets(|contents|) + contents|
  {
    out.Put([tag]);
    var lengthBytes := DERLengthEncode(out, |contents|);
    out.Put(contents);
    written := 1 + lengthBytes + |contents|;
  }

  /** All octets of the word after a zero; gives how many of them are needed. */
  method FillBuffer(buf: array<Octet>, w: nat, size: nat) returns (bc: nat)
    requires buf.Length == size + 1 && 0 < size && w < Power(size)
    modifies buf
    ensures 1 <= bc <= size + 1 && buf[size + 1 - bc..] == UnsignedContents(w)
  {
    buf[0] := 0;
    var i := 0;
    NumberOctetsLength(w, size);
    while i < size
      invariant 0 <= i <= size && buf[0] == 0
      invariant buf[1..i + 1] == NumberOctets(w, size)[..i]
    {
      DigitOf(w, size, i);
      buf[i + 1] := ShiftedRight(w, size - 1 - i) % 256;
      assert buf[1..i + 2] == buf[1..i + 1] + [buf[i + 1]];
      assert NumberOctets(w, size)[..i + 1] == NumberOctets(w, size)[..i] + [NumberOctets(w, size)[i]];
      i := i + 1;
    }
    assert buf[1..] == buf[1..size + 1] == NumberOctets(w, size)[..size] == NumberOctets(w, size);
    bc := size;
    while bc > 1 && buf[size + 1 - bc] == 0
      invariant 1 <= bc <= size && buf[size - bc] == 0
      invariant w < Power(bc) && buf[size + 1 - bc..] == NumberOctets(w, bc)
    {
      DropZero(w, bc);
      assert buf[size + 1 - (bc - 1)..] == buf[size + 1 - bc..][1..];
      bc := bc - 1;
    }
    NeededDigits(w, bc);
    if buf[size + 1 - bc] >= 0x80 {
      OneMore(buf, size - bc);
      bc := bc + 1;
    }
  }

  lemma OneMore(buf: array<Octet>, k: nat)
    requires k < buf.Length
    ensures buf[k..] == [buf[k]] + buf[k + 1..]
  {
  }

  lemma {:induction false} DigitOf(w: nat, size: nat, i: nat)
    requires i < size
    ensures |NumberOctets(w, size)| == size && NumberOctets(w, size)[i] == ShiftedRight(w, size - 1 - i) % 256
  {
    NumberOctetsLength(w, size);
    if i < size - 1 {
      DigitOf(w / 256, size - 1, i);
      ShiftedOnce(w, size - 2 - i);
      NumberOctetsLength(w / 256, size - 1);
    }
  }

  lemma {:induction false} ShiftedOnce(n: nat, k: nat)
    ensures ShiftedRight(n / 256, k) == ShiftedRight(n, k + 1)
  {
    if k > 0 {
      ShiftedOnce(n, k - 1);
    }
  }

  lemma {:induction false} ZeroFirst(w: nat, size: nat)
    requires w < Power(size)
    ensures NumberOctets(w, size + 1) == [0] + NumberOctets(w, size)
  {
    if size > 0 {
      ZeroFirst(w / 256, size - 1);
    } else {
      assert NumberOctets(w / 256, 0) == [];
    }
  }

  lemma DropZero(w: nat, size: nat)
    requires size > 1 && w < Power(size) && NumberOctets(w, size) != [] && NumberOctets(w, size)[0] == 0
    ensures w < Power(size - 1) && NumberOctets(w, size)[1..] == NumberOctets(w, size - 1)
  {
    NumberOctetsLength(w, size);
    ValueOfNumberOctets(w, size);
    LeadingZero(NumberOctets(w, size));
    ZeroFirst(w, size - 1);
  }

  lemma NeededDigits(w: nat, size: nat)
    requires size >= 1 && w < Power(size) && NumberOctets(w, size) != []
    requires size == 1 || NumberOctets(w, size)[0] != 0
    ensures size == if w == 0 then 1 else BytePrecision(w)
  {
    PrecisionIsLeast(w, size);
    PrecisionIsLeast(w, size - 1);
    if size > 1 && w < Power(size - 1) {
      ZeroFirst(w, size - 1);
    }
  }

  /** Fails on anything but a definite, well-formed number in range. */
  method BERDecodeUnsigned(input: Queue, size: nat, tag: Octet, least: nat, most: nat) returns (ok: bool, w: nat)
    modifies input
    ensures match DecodedUnsigned(old(input.data), size, tag, least, most)
      case Bad => !ok
      case UnsignedRead(v, rest) => ok && w == v && input.data == rest
  {
    w := 0;
    ghost var start := input.data;
    var got, b := input.Get();
    if !got || b != tag {
      return false, 0;
    }
    assert input.data == start[1..];
    var r := BERLengthDecode(input);
    if !r.Read? || !r.length.Definite? {
      return false, 0;
    }
    var bc := r.length.n;
    if bc > |input.data| || (tag == BOOLEAN && bc != 1) || ((tag == INTEGER || tag == ENUMERATED) && bc == 0) {
      return false, 0;
    }
    var buf := input.data[..bc];
    input.data := input.data[bc..];
    var fits, v := ReadWord(buf, size);
    if !fits || v < least || v > most {
      return false, 0;
    }
    ok, w := true, v;
  }

  /** Leading zero octets go while there are more octets than the word has. */
  method ReadWord(buf: Octets, size: nat) returns (fits: bool, w: nat)
    ensures fits == (Value(buf) < Power(size))
    ensures fits ==> w == Value(buf)
  {
    var at := 0;
    while |buf| - at > size && buf[at] == 0
      invariant 0 <= at <= |buf| && Value(buf[at..]) == Value(buf)
    {
      LeadingZero(buf[at..]);
      assert buf[at..][1..] == buf[at + 1..];
      at := at + 1;
    }
    var digits := buf[at..];
    if |digits| > size {
      HighDigit(digits, size);
      return false, 0;
    }
    ValueBounded(digits);
    PowersGrow(|digits|, size);
    w := 0;
    var i := 0;
    assert digits[..0] == [];
    while i < |digits|
      invariant 0 <= i <= |digits| && w == Value(digits[..i])
    {
      assert digits[..i + 1][..i] == digits[..i];
      w := 256 * w + digits[i];
      i := i + 1;
    }
    assert digits[..i] == digits;
    fits := true;
  }

  lemma HighDigit(s: Octets, size: nat)
    requires |s| > size && s[0] != 0
    ensures Value(s) >= Power(size)
  {
    ValueConcat([s[0]], s[1..]);
    assert [s[0]] + s[1..] == s && [s[0]][..0] == [] && Value([s[0]]) == s[0];
    PowersGrow(size, |s| - 1);
    AtLeastOnce(s[0], Power(|s| - 1));
  }

  lemma AtLeastOnce(a: nat, p: nat)
    requires a > 0
    ensures a * p >= p
  {
    assert (a - 1) * p >= 0;
  }

  lemma {:induction false} PowersGrow(a: nat, b: nat)
    requires a <= b
    ensures Power(a) <= Power(b)
  {
    if a < b {
      PowersGrow(a, b - 1);
    }
  }
}
