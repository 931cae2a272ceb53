/** What CCM authenticates in front of a message, for every order of announcing lengths and giving
    data. The nonce of the first block is read from the buffer in which data waits, so what is there
    when the lengths are announced takes its place. */
module CcmHistories {
  import opened ByteStrings

  // ---- What the standard says --------------------------------------------------------------

  predicate IsNonce(nonce: Bytes) {
    7 <= |nonce| <= 13
  }

  /** Section 2.2 of RFC 3610: flags, nonce, and the message length in the bytes left over. */
  ghost function FirstBlock(tagSize: nat, nonce: Bytes, aadLength: nat, messageLength: nat): Bytes
    requires |nonce| <= 13 && tagSize >= 2
  {
    var L := 15 - |nonce|;
    [Byte((if aadLength > 0 then 64 else 0) + 8 * ((tagSize - 2) / 2) + (L - 1))] + nonce + BigEndian(messageLength, L)
  }

  /** The length of the additional data, in the shortest of its three forms. */
  function EncodedLength(n: nat): Bytes {
    if n == 0 then []
    else if n < 0x1_0000 - 0x100 then BigEndian(n, 2)
    else if n < 0x1_0000_0000 then [0xff, 0xfe] + BigEndian(n, 4)
    else [0xff, 0xff] + BigEndian(n, 8)
  }

  /** What comes before the additional data. */
  ghost function Opening(tagSize: nat, nonce: Bytes, aadLength: nat, messageLength: nat): Bytes
    requires |nonce| <= 13 && tagSize >= 2
  {
    FirstBlock(tagSize, nonce, aadLength, messageLength) + EncodedLength(aadLength)
  }

  /** The blocks B_0 ... B_n. */
  ghost function CcmTranscript(tagSize: nat, nonce: Bytes, aad: Bytes, message: Bytes): Bytes
    requires IsNonce(nonce) && tagSize >= 2
  {
    Pad16(Pad16(Opening(tagSize, nonce, |aad|, |message|) + aad) + message)
  }

  /** The first counter block: flags, nonce, zero. */
  function CounterBlock(nonce: Bytes): Block
    requires IsNonce(nonce)
  {
    [Byte(15 - |nonce| - 1)] + nonce + Zeros(15 - |nonce|)
  }

  // ---- Packet vector 1 of RFC 3610 ---------------------------------------------------------

  const VECTOR_NONCE: Bytes := [0x00, 0x00, 0x00, 0x03, 0x02, 0x01, 0x00, 0xa0, 0xa1, 0xa2, 0xa3, 0xa4, 0xa5]
  const VECTOR_HEADER: Bytes := [0x00, 0x01, 0x02, 0x03, 0x04, 0x05, 0x06, 0x07]
  const VECTOR_MESSAGE: Bytes :=
    [0x08, 0x09, 0x0a, 0x0b, 0x0c, 0x0d, 0x0e, 0x0f, 0x10, 0x11, 0x12, 0x13,
     0x14, 0x15, 0x16, 0x17, 0x18, 0x19, 0x1a, 0x1b, 0x1c, 0x1d, 0x1e]

  const B_0: Block := [0x59, 0x00, 0x00, 0x00, 0x03, 0x02, 0x01, 0x00, 0xa0, 0xa1, 0xa2, 0xa3, 0xa4, 0xa5, 0x00, 0x17]
  const B_1: Block := [0x00, 0x08, 0x00, 0x01, 0x02, 0x03, 0x04, 0x05, 0x06, 0x07, 0, 0, 0, 0, 0, 0]
  const B_2: Block := [0x08, 0x09, 0x0a, 0x0b, 0x0c, 0x0d, 0x0e, 0x0f, 0x10, 0x11, 0x12, 0x13, 0x14, 0x15, 0x16, 0x17]
  const B_3: Block := [0x18, 0x19, 0x1a, 0x1b, 0x1c, 0x1d, 0x1e, 0, 0, 0, 0, 0, 0, 0, 0, 0]

  /** Its first counter block. */
  lemma VectorCounter()
    ensures CounterBlock(VECTOR_NONCE)
         == [0x01, 0x00, 0x00, 0x00, 0x03, 0x02, 0x01, 0x00, 0xa0, 0xa1, 0xa2, 0xa3, 0xa4, 0xa5, 0x00, 0x00]
  {
  }

  /** The blocks that are authenticated, octet for octet. */
  lemma VectorBlocks()
    ensures CcmTranscript(8, VECTOR_NONCE, VECTOR_HEADER, VECTOR_MESSAGE) == B_0 + B_1 + B_2 + B_3
  {
    hide Opening, Pad16, B_0, B_1, B_2, B_3;
    PaddedHeader();
    PaddedMessage();
  }

  lemma PaddedHeader()
    ensures Pad16(Opening(8, VECTOR_NONCE, 8, 23) + VECTOR_HEADER) == B_0 + B_1
  {
    hide Opening;
    VectorOpening();
    assert B_0 + [0x00, 0x08] + VECTOR_HEADER + Zeros(6) == B_0 + B_1;
  }

  lemma PaddedMessage()
    ensures Pad16(B_0 + B_1 + VECTOR_MESSAGE) == B_0 + B_1 + B_2 + B_3
  {
    hide B_0, B_1;
    assert VECTOR_MESSAGE + Zeros(9) == B_2 + B_3;
    assert B_0 + B_1 + VECTOR_MESSAGE + Zeros(9) == B_0 + B_1 + (VECTOR_MESSAGE + Zeros(9));
    assert B_0 + B_1 + B_2 + B_3 == B_0 + B_1 + (B_2 + B_3);
  }

  lemma VectorOpening()
    ensures Opening(8, VECTOR_NONCE, 8, 23) == B_0 + [0x00, 0x08]
  {
    hide BigEndian, Byte;
    TwoOctets(23);
    TwoOctets(8);
    SomeBytes();
    var first := FirstBlock(8, VECTOR_NONCE, 8, 23);
    assert first == [Byte(89)] + VECTOR_NONCE + [Byte(0), Byte(23)];
    assert [Byte(89)] + VECTOR_NONCE + [Byte(0), Byte(23)] == B_0;
  }

  lemma SomeBytes()
    ensures Byte(89) == 0x59 && Byte(0) == 0x00 && Byte(23) == 0x17 && Byte(8) == 0x08
  {
  }

  /** The three forms of a length, octet for octet. */
  lemma LengthForms()
    ensures EncodedLength(0xfeff) == [0xfe, 0xff]
    ensures EncodedLength(0xff00) == [0xff, 0xfe, 0x00, 0x00, 0xff, 0x00]
    ensures EncodedLength(0x1_0000_0000) == [0xff, 0xff, 0, 0, 0, 0x01, 0, 0, 0, 0]
  {
    hide BigEndian;
    TwoOctets(0xfeff);
    MiddleOctets();
    LongOctets();
  }

  lemma MiddleOctets()
    ensures BigEndian(0xff00, 4) == [0x00, 0x00, 0xff, 0x00]
  {
    hide BigEndian;
    FourOctets(0xff00);
  }

  lemma LongOctets()
    ensures BigEndian(0x1_0000_0000, 8) == [0, 0, 0, 0x01, 0, 0, 0, 0]
  {
    hide BigEndian;
    EightOctets(0x1_0000_0000);
  }

  lemma TwoOctets(n: nat)
    ensures BigEndian(n, 2) == [Byte(n / 256), Byte(n)]
  {
    assert BigEndian(n, 2) == BigEndian(n / 256, 1) + [Byte(n)];
  }

  lemma FourOctets(n: nat)
    ensures BigEndian(n, 4) == [Byte(n / 256 / 256 / 256), Byte(n / 256 / 256), Byte(n / 256), Byte(n)]
  {
    TwoOctets(n / 256 / 256);
    assert BigEndian(n, 4) == BigEndian(n / 256, 3) + [Byte(n)];
    assert BigEndian(n / 256, 3) == BigEndian(n / 256 / 256, 2) + [Byte(n / 256)];
  }

  lemma EightOctets(n: nat)
    ensures var h := n / 256 / 256 / 256 / 256; BigEndian(n, 8) == BigEndian(h, 4) + BigEndian(n, 4)
    ensures BigEndian(n / 256 / 256 / 256 / 256, 4) + BigEndian(n, 4)
         == [Byte(n / 256 / 256 / 256 / 256 / 256 / 256 / 256), Byte(n / 256 / 256 / 256 / 256 / 256 / 256),
             Byte(n / 256 / 256 / 256 / 256 / 256), Byte(n / 256 / 256 / 256 / 256),
             Byte(n / 256 / 256 / 256), Byte(n / 256 / 256), Byte(n / 256), Byte(n)]
  {
    FourOctets(n);
    FourOctets(n / 256 / 256 / 256 / 256);
    assert BigEndian(n, 8) == BigEndian(n / 256, 7) + [Byte(n)];
    assert BigEndian(n / 256, 7) == BigEndian(n / 256 / 256, 6) + [Byte(n / 256)];
    assert BigEndian(n / 256 / 256, 6) == BigEndian(n / 256 / 256 / 256, 5) + [Byte(n / 256 / 256)];
    assert BigEndian(n / 256 / 256 / 256, 5)
        == BigEndian(n / 256 / 256 / 256 / 256, 4) + [Byte(n / 256 / 256 / 256)];
  }

  lemma EncodedLengthIs(n: nat)
    ensures |EncodedLength(n)| <= 10 && (EncodedLength(n) == [] <==> n == 0)
  {
    BigEndianLength(n, 2);
    BigEndianLength(n, 4);
    BigEndianLength(n, 8);
  }

  lemma FirstBlockLength(tagSize: nat, nonce: Bytes, aadLength: nat, messageLength: nat)
    requires |nonce| <= 13 && tagSize >= 2
    ensures |FirstBlock(tagSize, nonce, aadLength, messageLength)| == 16
    ensures FirstBlock(tagSize, nonce, aadLength, messageLength)[1..1 + |nonce|] == nonce
  {
    BigEndianLength(messageLength, 15 - |nonce|);
  }

  // ---- The buffer --------------------------------------------------------------------------

  /** The buffer under the chaining cipher: its sixteen bytes, of which the first `num` wait. */
  datatype Held = Held(bytes: Block, num: nat)

  /** After more data: it fills the buffer from `num` on, and what is left over after whole blocks
      starts it anew. Data that comes in whole blocks passes it by. */
  function Taken(h: Held, input: Bytes): (r: Held)
    requires h.num < 16
    ensures r.num < 16
  {
    if h.num + |input| < 16 then
      Held(h.bytes[..h.num] + input + h.bytes[h.num + |input|..], h.num + |input|)
    else
      var first := if h.num == 0 then 0 else 16 - h.num;
      var full := h.bytes[..16 - first] + input[..first];
      LeftOver(full, input[first..])
  }

  /** After data that starts at a whole block. */
  function LeftOver(full: Block, rest: Bytes): (r: Held)
    ensures r.num < 16
  {
    var left := |rest| % 16;
    Held(rest[|rest| - left..] + full[left..], left)
  }

  /** After an announcement: the length of the additional data lies over what was there. */
  function Lengthened(h: Held, headerLength: nat): (r: Held)
    requires h.num < 16
    ensures r.num < 16
  {
    EncodedLengthIs(headerLength);
    if headerLength == 0 then h
    else Held(EncodedLength(headerLength) + h.bytes[|EncodedLength(headerLength)|..], |EncodedLength(headerLength)|)
  }

  // ---- Histories ---------------------------------------------------------------------------

  /** What a caller may do before the message. */
  datatype Event = Given(data: Bytes) | Announced(headerLength: nat, messageLength: nat)

  /** The buffer, which starts as the first counter block. */
  function HeldAfter(nonce: Bytes, history: seq<Event>): (h: Held)
    requires IsNonce(nonce)
    ensures h.num < 16
  {
    if history == [] then Held(CounterBlock(nonce), 0)
    else
      var h := HeldAfter(nonce, history[..|history| - 1]);
      match history[|history| - 1]
      case Given(data) => Taken(h, data)
      case Announced(headerLength, _) => Lengthened(h, headerLength)
  }

  /** The bytes an announcement takes for the nonce. */
  function Field(nonce: Bytes, history: seq<Event>): (field: Bytes)
    requires IsNonce(nonce)
    ensures |field| == |nonce|
  {
    HeldAfter(nonce, history).bytes[1..1 + |nonce|]
  }

  /** What still waits after an announcement, in front of the additional data to come: without a length
      to lie over it, all that waited before. */
  function Kept(nonce: Bytes, history: seq<Event>, headerLength: nat): Bytes
    requires IsNonce(nonce)
  {
    if headerLength > 0 then [] else HeldAfter(nonce, history).bytes[..HeldAfter(nonce, history).num]
  }

  /** What is authenticated in front of the message: an announcement starts anew. */
  ghost function CcmHeader(tagSize: nat, nonce: Bytes, history: seq<Event>): Bytes
    requires IsNonce(nonce) && tagSize >= 2
  {
    if history == [] then []
    else
      var front := history[..|history| - 1];
      match history[|history| - 1]
      case Given(data) => CcmHeader(tagSize, nonce, front) + data
      case Announced(headerLength, messageLength) =>
        Opening(tagSize, Field(nonce, front), headerLength, messageLength) + Kept(nonce, front, headerLength)
  }

  /** All additional data. */
  function DataOf(history: seq<Event>): Bytes {
    if history == [] then []
    else
      DataOf(history[..|history| - 1]) + if history[|history| - 1].Given? then history[|history| - 1].data else []
  }

  predicate IsAnnounced(history: seq<Event>) {
    history != [] && (history[|history| - 1].Announced? || IsAnnounced(history[..|history| - 1]))
  }

  /** The lengths announced last, or zero. */
  function Lengths(history: seq<Event>): (nat, nat) {
    if history == [] then (0, 0)
    else match history[|history| - 1]
         case Given(_) => Lengths(history[..|history| - 1])
         case Announced(headerLength, messageLength) => (headerLength, messageLength)
  }

  /** What came before the last announcement. */
  function Before(history: seq<Event>): seq<Event> {
    if history == [] then []
    else if history[|history| - 1].Announced? then history[..|history| - 1]
    else Before(history[..|history| - 1])
  }

  /** The data since. */
  function Since(history: seq<Event>): Bytes {
    if history == [] || history[|history| - 1].Announced? then []
    else Since(history[..|history| - 1]) + history[|history| - 1].data
  }

  lemma {:induction false} HeaderParts(tagSize: nat, nonce: Bytes, history: seq<Event>)
    requires IsNonce(nonce) && tagSize >= 2
    ensures IsAnnounced(history) ==>
              var (n, m) := Lengths(history);
              CcmHeader(tagSize, nonce, history)
              == Opening(tagSize, Field(nonce, Before(history)), n, m) + Kept(nonce, Before(history), n)
                 + Since(history)
    ensures !IsAnnounced(history) ==>
              CcmHeader(tagSize, nonce, history) == DataOf(history) && Lengths(history) == (0, 0)
  {
    if history != [] {
      hide HeldAfter, Field, Opening, Kept;
      var front, last := history[..|history| - 1], history[|history| - 1];
      HeaderParts(tagSize, nonce, front);
      if last.Given? && IsAnnounced(front) {
        var (n, m) := Lengths(front);
        Regroup(Opening(tagSize, Field(nonce, Before(front)), n, m) + Kept(nonce, Before(front), n), Since(front),
                last.data);
      }
    }
  }

  lemma Regroup(a: Bytes, b: Bytes, c: Bytes)
    ensures a + b + c == a + (b + c)
  {
  }

  lemma {:induction false} DataParts(history: seq<Event>)
    requires IsAnnounced(history)
    ensures DataOf(history) == DataOf(Before(history)) + Since(history)
  {
    var front, last := history[..|history| - 1], history[|history| - 1];
    if last.Given? {
      DataParts(front);
      Regroup(DataOf(Before(front)), Since(front), last.data);
    }
  }

  // ---- When the header is the standard's ---------------------------------------------------

  predicate AllZero(s: Bytes) {
    forall i :: 0 <= i < |s| ==> s[i] == 0
  }

  /** The lengths take as many blocks. */
  predicate SameBlocks(a: nat, b: nat) {
    a + PadLength(a) == b + PadLength(b)
  }

  /** Lengths were announced; the buffer held the nonce then, and nothing that stayed in front of the
      additional data; and what was given before, which is lost, was not missed: there was nothing,
      or all data is zero and the padding makes up for it. */
  predicate StandardHistory(nonce: Bytes, history: seq<Event>)
    requires IsNonce(nonce)
  {
    var before, n := Before(history), Lengths(history).0;
    && IsAnnounced(history) && Field(nonce, before) == nonce
    && (n == 0 ==> HeldAfter(nonce, before).num == 0)
    && (DataOf(before) == [] || (AllZero(DataOf(history))
        && SameBlocks(|EncodedLength(n)| + |Since(history)|, |EncodedLength(n)| + |DataOf(history)|)))
  }

  lemma PadBehind(first: Bytes, s: Bytes)
    requires |first| % 16 == 0
    ensures Pad16(first + s) == first + Pad16(s)
  {
    assert PadLength(|first + s|) == PadLength(|s|);
    assert first + s + Zeros(PadLength(|s|)) == first + (s + Zeros(PadLength(|s|)));
  }

  /** A string that is itself again after something was put in front is all zeros. */
  lemma {:induction false} OnlyZeros(d: Bytes, a: Bytes, i: nat)
    requires d != [] && d + a == a + Zeros(|d|) && i < |d + a|
    ensures (d + a)[i] == 0
    decreases |d + a| - i
  {
    var x := d + a;
    if i < |a| {
      OnlyZeros(d, a, i + |d|);
      assert x[i + |d|] == a[i] == (a + Zeros(|d|))[i];
    } else {
      assert (a + Zeros(|d|))[i] == 0;
    }
  }

  /** Losing the bytes in front goes unnoticed exactly among zeros that end in the same block. */
  lemma LostFront(e: Bytes, d: Bytes, a: Bytes)
    requires d != []
    ensures Pad16(e + a) == Pad16(e + (d + a)) <==> AllZero(d + a) && SameBlocks(|e| + |a|, |e| + |d + a|)
  {
    var p, q := PadLength(|e + a|), PadLength(|e + (d + a)|);
    if SameBlocks(|e| + |a|, |e| + |d + a|) {
      assert p == |d| + q && Zeros(p) == Zeros(|d|) + Zeros(q);
      var l, r := a + Zeros(|d|), d + a;
      assert Pad16(e + a) == e + l + Zeros(q) && Pad16(e + (d + a)) == e + r + Zeros(q);
      if Pad16(e + a) == Pad16(e + (d + a)) {
        assert (e + l + Zeros(q))[|e|..|e| + |l|] == l && (e + r + Zeros(q))[|e|..|e| + |r|] == r;
        forall i | 0 <= i < |r| ensures r[i] == 0 {
          OnlyZeros(d, a, i);
        }
      }
      if AllZero(r) {
        assert forall i :: 0 <= i < |a| ==> r[|d| + i] == a[i];
        assert l == r;
      }
    } else {
      assert |Pad16(e + a)| == |e + a| + p && |Pad16(e + (d + a))| == |e + (d + a)| + q;
    }
  }

  /** With the right length announced, the padded header is the standard's if and only if the history
      is one of those. */
  lemma HeaderIsStandard(tagSize: nat, nonce: Bytes, history: seq<Event>)
    requires IsNonce(nonce) && tagSize >= 2 && Lengths(history).0 == |DataOf(history)|
    ensures var (n, m) := Lengths(history);
            Pad16(CcmHeader(tagSize, nonce, history)) == Pad16(Opening(tagSize, nonce, n, m) + DataOf(history))
            <==> StandardHistory(nonce, history)
  {
    var (n, m) := Lengths(history);
    HeaderParts(tagSize, nonce, history);
    if IsAnnounced(history) {
      DataParts(history);
      AnnouncedHeader(tagSize, nonce, history);
    } else {
      FirstBlockLength(tagSize, nonce, n, m);
      assert |Pad16([])| == 0 && |Pad16(Opening(tagSize, nonce, n, m) + DataOf(history))| >= 16;
    }
  }

  /** Both headers start with a first block. */
  lemma AnnouncedHeader(tagSize: nat, nonce: Bytes, history: seq<Event>)
    requires IsNonce(nonce) && tagSize >= 2 && IsAnnounced(history)
    requires DataOf(history) == DataOf(Before(history)) + Since(history)
    requires Lengths(history).0 == |DataOf(history)|
    requires var (n, m) := Lengths(history);
             CcmHeader(tagSize, nonce, history)
             == Opening(tagSize, Field(nonce, Before(history)), n, m) + Kept(nonce, Before(history), n) + Since(history)
    ensures var (n, m) := Lengths(history);
            Pad16(CcmHeader(tagSize, nonce, history)) == Pad16(Opening(tagSize, nonce, n, m) + DataOf(history))
            <==> StandardHistory(nonce, history)
  {
    hide HeldAfter, DataOf, Since, Before, CcmHeader, Pad16, IsAnnounced, Lengths, FirstBlock, Kept;
    var (n, m) := Lengths(history);
    var before, e := Before(history), EncodedLength(n);
    var field, kept := Field(nonce, before), Kept(nonce, before, n);
    var ours, theirs := FirstBlock(tagSize, field, n, m), FirstBlock(tagSize, nonce, n, m);
    FirstBlockLength(tagSize, field, n, m);
    FirstBlockLength(tagSize, nonce, n, m);
    assert CcmHeader(tagSize, nonce, history) == ours + (e + (kept + Since(history)));
    assert Opening(tagSize, nonce, n, m) + DataOf(history) == theirs + (e + DataOf(history));
    PadBehind(ours, e + (kept + Since(history)));
    PadBehind(theirs, e + DataOf(history));
    SameStart(ours, Pad16(e + (kept + Since(history))), theirs, Pad16(e + DataOf(history)));
    RestIsStandard(nonce, history, n, kept);
  }

  lemma SameStart(a: Bytes, s: Bytes, b: Bytes, t: Bytes)
    requires |a| == |b|
    ensures a + s == b + t <==> a == b && s == t
  {
    assert (a + s)[..|a|] == a && (a + s)[|a|..] == s;
    assert (b + t)[..|b|] == b && (b + t)[|b|..] == t;
  }

  /** What follows the first block. */
  lemma RestIsStandard(nonce: Bytes, history: seq<Event>, n: nat, kept: Bytes)
    requires IsNonce(nonce) && n == |DataOf(history)| && kept == Kept(nonce, Before(history), n)
    requires DataOf(history) == DataOf(Before(history)) + Since(history)
    ensures Pad16(EncodedLength(n) + (kept + Since(history))) == Pad16(EncodedLength(n) + DataOf(history))
       <==> ((n == 0 ==> HeldAfter(nonce, Before(history)).num == 0)
             && (DataOf(Before(history)) == [] || (AllZero(DataOf(history))
                 && SameBlocks(|EncodedLength(n)| + |Since(history)|, |EncodedLength(n)| + |DataOf(history)|))))
  {
    hide HeldAfter, DataOf, Since, Before;
    if n == 0 {
      assert kept + Since(history) == kept && EncodedLength(n) == [];
      assert |Pad16([] + kept)| == |kept| + PadLength(|kept|) && |Pad16([] + DataOf(history))| == 0;
    } else {
      assert kept + Since(history) == Since(history);
      if DataOf(Before(history)) == [] {
        assert DataOf(history) == Since(history);
      } else {
        LostFront(EncodedLength(n), DataOf(Before(history)), Since(history));
      }
    }
  }

  /** The same for all that is authenticated. */
  lemma TranscriptIsStandard(tagSize: nat, nonce: Bytes, history: seq<Event>, message: Bytes)
    requires IsNonce(nonce) && tagSize >= 2 && Lengths(history) == (|DataOf(history)|, |message|)
    ensures Pad16(Pad16(CcmHeader(tagSize, nonce, history)) + message)
         == CcmTranscript(tagSize, nonce, DataOf(history), message)
       <==> StandardHistory(nonce, history)
  {
    hide Pad16, CcmHeader, Opening, StandardHistory;
    HeaderIsStandard(tagSize, nonce, history);
    var ours := Pad16(CcmHeader(tagSize, nonce, history));
    var theirs := Pad16(Opening(tagSize, nonce, |DataOf(history)|, |message|) + DataOf(history));
    PaddedToBlocks(CcmHeader(tagSize, nonce, history));
    PaddedToBlocks(Opening(tagSize, nonce, |DataOf(history)|, |message|) + DataOf(history));
    PadBehind(ours, message);
    PadBehind(theirs, message);
    SameEnd(ours, theirs, Pad16(message));
  }

  lemma PaddedToBlocks(s: Bytes)
    ensures |Pad16(s)| % 16 == 0
  {
  }

  lemma SameEnd(a: Bytes, b: Bytes, s: Bytes)
    ensures a + s == b + s <==> a == b
  {
    if a + s == b + s {
      assert |a| == |b|;
      assert a == (a + s)[..|a|] && b == (b + s)[..|b|];
    }
  }

  /** Lengths announced first, and then only data. */
  predicate AnnouncedFirst(history: seq<Event>) {
    history != [] && history[0].Announced? && forall i :: 0 < i < |history| ==> history[i].Given?
  }

  /** The order of the interface: it always gives the header of the standard. */
  lemma {:induction false} FirstIsStandard(nonce: Bytes, history: seq<Event>)
    requires IsNonce(nonce) && AnnouncedFirst(history)
    ensures StandardHistory(nonce, history) && Before(history) == []
    decreases |history|
  {
    if |history| == 1 {
      assert history[..0] == [];
      assert CounterBlock(nonce)[1..1 + |nonce|] == nonce;
    } else {
      FirstIsStandard(nonce, history[..|history| - 1]);
    }
  }

  // ---- Announcements without data before the last ------------------------------------------

  /** The lengths of additional data that were announced. */
  function Headers(history: seq<Event>): seq<nat> {
    if history == [] then []
    else
      Headers(history[..|history| - 1])
      + if history[|history| - 1].Announced? then [history[|history| - 1].headerLength] else []
  }

  /** Byte `p` of the buffer after lengths were announced: that of the last length that reaches it. */
  function OctetAt(nonce: Bytes, headers: seq<nat>, p: nat): bv8
    requires IsNonce(nonce) && p < 16
  {
    if headers == [] then CounterBlock(nonce)[p]
    else
      var last := EncodedLength(headers[|headers| - 1]);
      if p < |last| then last[p] else OctetAt(nonce, headers[..|headers| - 1], p)
  }

  /** The buffer after announcements alone. */
  ghost predicate ByOctets(nonce: Bytes, h: Held, headers: seq<nat>)
    requires IsNonce(nonce)
  {
    && (forall p: nat :: p < 16 ==> h.bytes[p] == OctetAt(nonce, headers, p))
    && (h.num == 0 <==> forall i :: 0 <= i < |headers| ==> headers[i] == 0)
  }

  lemma OneMoreLength(nonce: Bytes, h: Held, headers: seq<nat>, n: nat)
    requires IsNonce(nonce) && h.num < 16 && ByOctets(nonce, h, headers)
    ensures ByOctets(nonce, Lengthened(h, n), headers + [n])
  {
    EncodedLengthIs(n);
    var more := headers + [n];
    assert more[|more| - 1] == n && more[..|more| - 1] == headers;
    assert n == 0 ==> forall i :: 0 <= i < |headers| ==> more[i] == headers[i];
  }

  lemma TakenNothing(h: Held)
    requires h.num < 16
    ensures Taken(h, []) == h
  {
    assert h.bytes[..h.num] + [] + h.bytes[h.num..] == h.bytes;
  }

  lemma {:induction false} HeldByOctets(nonce: Bytes, history: seq<Event>)
    requires IsNonce(nonce) && DataOf(history) == []
    ensures ByOctets(nonce, HeldAfter(nonce, history), Headers(history))
  {
    if history != [] {
      hide ByOctets, Lengthened, Taken;
      var front, last := history[..|history| - 1], history[|history| - 1];
      HeldByOctets(nonce, front);
      var h, headers := HeldAfter(nonce, front), Headers(front);
      if last.Announced? {
        OneMoreLength(nonce, h, headers, last.headerLength);
      } else {
        assert last.data == [] && headers + [] == headers;
        TakenNothing(h);
      }
    }
  }

  /** When no data came before the last announcement, the header is the standard's if and only if no
      octet of an earlier length lies where another of the nonce belongs, and the last announcement
      covers the waiting octets of earlier ones. */
  lemma AnnouncedBeforeData(nonce: Bytes, history: seq<Event>)
    requires IsNonce(nonce) && IsAnnounced(history) && DataOf(Before(history)) == []
    ensures var earlier := Headers(Before(history));
            StandardHistory(nonce, history) <==>
              && (forall p: nat :: p < |nonce| ==> OctetAt(nonce, earlier, p + 1) == nonce[p])
              && (Lengths(history).0 > 0 || forall i :: 0 <= i < |earlier| ==> earlier[i] == 0)
  {
    var before := Before(history);
    var earlier := Headers(before);
    HeldByOctets(nonce, before);
    var bytes := HeldAfter(nonce, before).bytes;
    assert forall p: nat :: p < |nonce| ==> Field(nonce, before)[p] == bytes[p + 1];
  }
}
