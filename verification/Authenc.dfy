/** Authenticated encryption: the shared state machine with its two users, ChaCha20-Poly1305
    and CCM. The stream cipher, the one-time authenticator and the block cipher are arbitrary
    functions; what is followed is which bytes they are given. */
module AuthenticatedEncryption {
  import opened Bits
  import opened ByteStrings
  import opened CcmHistories
  import opened OctetStrings

  datatype Scheme =
    | ChaChaPoly(
        stream: (Bytes, nat) -> bv8,      // nonce, position in the key stream from block 0 on
        poly: (Bytes, Bytes) -> Block)    // one-time key, authenticated bytes
    | Ccm(
        cipher: Block -> Block,
        counterStream: (Block, nat) -> bv8,  // first counter block, position in the key stream
        tagSize: nat)
  {
    function DigestSize(): nat {
      if ChaChaPoly? then 16 else tagSize
    }

    function BlockSize(): nat {
      if ChaChaPoly? then 1 else 16
    }

    predicate OnPlaintext() {
      Ccm?
    }

    predicate AcceptsNonce(iv: Bytes) {
      IsNonce(iv) && (ChaChaPoly? ==> |iv| == 12)
    }

    predicate WellFormed() {
      Ccm? ==> 4 <= tagSize <= 16 && tagSize % 2 == 0
    }
  }

  datatype State = Start | KeySet | IVSet | AuthUntransformed | AuthTransformed | AuthFooter

  predicate Keyed(state: State) {
    state != Start
  }

  predicate HasIV(state: State) {
    state != Start && state != KeySet
  }

  datatype Status = Ok | BadState | InvalidArgument

  const LWORD: nat := 0x1_0000_0000_0000_0000

  // ---- What the standards say is authenticated -----------------------------------------

  /** Section 2.8 of RFC 8439: the data, each part padded, then both lengths. */
  ghost function PolyTranscript(aad: Bytes, ciphertext: Bytes): Bytes {
    Pad16(Pad16(aad) + ciphertext) + LittleEndian(|aad|, 8) + LittleEndian(|ciphertext|, 8)
  }

  /** For the lengths of section 2.8.2 of RFC 8439, octet for octet. */
  lemma PolyPadding(aad: Bytes, ciphertext: Bytes)
    requires |aad| == 12 && |ciphertext| == 114
    ensures PolyTranscript(aad, ciphertext)
         == aad + [0, 0, 0, 0] + ciphertext + [0, 0, 0, 0, 0, 0, 0, 0, 0, 0, 0, 0, 0, 0]
            + [0x0c, 0, 0, 0, 0, 0, 0, 0] + [0x72, 0, 0, 0, 0, 0, 0, 0]
  {
    hide LittleEndian, Pad16;
    SmallLittleEndian(12);
    SmallLittleEndian(114);
    PadFour(aad);
    PadFourteen(aad + [0, 0, 0, 0] + ciphertext);
  }

  lemma PadFour(s: Bytes)
    requires |s| == 12
    ensures Pad16(s) == s + [0, 0, 0, 0]
  {
    assert PadLength(12) == 4 && Zeros(4) == [0, 0, 0, 0];
  }

  lemma PadFourteen(s: Bytes)
    requires |s| == 130
    ensures Pad16(s) == s + [0, 0, 0, 0, 0, 0, 0, 0, 0, 0, 0, 0, 0, 0]
  {
    assert PadLength(130) == 14 && Zeros(14) == [0, 0, 0, 0, 0, 0, 0, 0, 0, 0, 0, 0, 0, 0];
  }

  lemma SmallLittleEndian(n: nat)
    requires n < 256
    ensures LittleEndian(n, 8) == [Byte(n), 0, 0, 0, 0, 0, 0, 0]
  {
    ZeroLittleEndian(7);
    assert LittleEndian(n, 8) == [Byte(n)] + LittleEndian(0, 7);
  }

  lemma {:induction false} ZeroLittleEndian(size: nat)
    ensures LittleEndian(0, size) == Zeros(size)
  {
    if size > 0 {
      ZeroLittleEndian(size - 1);
      assert LittleEndian(0, size) == [Byte(0)] + Zeros(size - 1);
    }
  }

  /** `count` bytes of key stream for the message. */
  function KeyStream(scheme: Scheme, nonce: Bytes, from: nat, count: nat): Bytes
    requires IsNonce(nonce)
  {
    match scheme
    case ChaChaPoly(stream, _) => seq(count, i requires 0 <= i => stream(nonce, 64 + from + i))
    case Ccm(_, stream, _) => seq(count, i requires 0 <= i => stream(CounterBlock(nonce), 16 + from + i))
  }

  /** Both directions: exclusive or with the key stream from the message's start. */
  function Crypt(scheme: Scheme, nonce: Bytes, from: nat, s: Bytes): Bytes
    requires IsNonce(nonce)
  {
    Xor(s, KeyStream(scheme, nonce, from, |s|))
  }

  lemma CryptTwice(scheme: Scheme, nonce: Bytes, from: nat, s: Bytes)
    requires IsNonce(nonce)
    ensures Crypt(scheme, nonce, from, Crypt(scheme, nonce, from, s)) == s
  {
    XorTwice(s, KeyStream(scheme, nonce, from, |s|));
  }

  /** A message may be encrypted piece by piece. */
  lemma CryptConcat(scheme: Scheme, nonce: Bytes, from: nat, a: Bytes, b: Bytes)
    requires IsNonce(nonce)
    ensures Crypt(scheme, nonce, from, a + b) == Crypt(scheme, nonce, from, a) + Crypt(scheme, nonce, from + |a|, b)
  {
    var k, l := KeyStream(scheme, nonce, from, |a + b|), KeyStream(scheme, nonce, from, |a|);
    var m := KeyStream(scheme, nonce, from + |a|, |b|);
    forall i | 0 <= i < |b| ensures k[|a| + i] == m[i] {
      assert from + (|a| + i) == from + |a| + i;
    }
  }

  /** The first counter block of section 2.3 of RFC 3610, written out. */
  function FirstCounter(iv: Bytes): Block
    requires IsNonce(iv)
  {
    [(14 - |iv|) as bv8] + iv + seq(15 - |iv|, _ => 0)
  }

  /** The byte of the key stream that byte `n` of a message takes. The block in front, of 64 bytes or under CCM
      of 16, is left to the tag. */
  function StreamAt(scheme: Scheme, iv: Bytes, n: nat): bv8
    requires IsNonce(iv)
  {
    match scheme
    case ChaChaPoly(stream, _) => stream(iv, 64 + n)
    case Ccm(_, counterStream, _) => counterStream(FirstCounter(iv), 16 + n)
  }

  /** Byte `i` of a message and of its ciphertext. */
  predicate CipheredAt(scheme: Scheme, iv: Bytes, a: bv8, b: bv8, i: nat)
    requires IsNonce(iv)
  {
    b == a ^ StreamAt(scheme, iv, i)
  }

  ghost predicate CipheredByBytes(scheme: Scheme, iv: Bytes, from: nat, input: Bytes, output: Bytes)
    requires IsNonce(iv)
  {
    && |output| == |input|
    && forall i: nat :: i < |input| ==> CipheredAt(scheme, iv, input[i], output[i], from + i)
  }

  /** Byte `i` of a tag. */
  predicate MaskedAt(scheme: Scheme, iv: Bytes, x: bv8, y: bv8, i: nat)
    requires IsNonce(iv) && scheme.Ccm?
  {
    y == x ^ scheme.counterStream(FirstCounter(iv), i)
  }

  ghost predicate MaskedByBytes(scheme: Scheme, iv: Bytes, chained: Block, mac: Bytes)
    requires IsNonce(iv) && scheme.Ccm?
  {
    |mac| <= 16 && forall i: nat :: i < |mac| ==> MaskedAt(scheme, iv, chained[i], mac[i], i)
  }

  /** The first 32 bytes of the key stream (section 2.6 of RFC 8439). */
  ghost predicate IsPolyKey(scheme: Scheme, iv: Bytes, key: Bytes)
    requires scheme.ChaChaPoly?
  {
    |key| == 32 && forall i: nat :: i < 32 ==> key[i] == scheme.stream(iv, i)
  }

  lemma PolyKeyIs(scheme: Scheme, iv: Bytes, key: Bytes)
    requires scheme.ChaChaPoly?
    ensures key == PolyKey(scheme, iv) <==> IsPolyKey(scheme, iv, key)
  {
    if IsPolyKey(scheme, iv, key) {
      assert forall i | 0 <= i < 32 :: key[i] == PolyKey(scheme, iv)[i];
    }
  }

  lemma CounterBlockIs(iv: Bytes)
    requires IsNonce(iv)
    ensures CounterBlock(iv) == FirstCounter(iv)
  {
  }

  /** Byte by byte, what transforming a message is. */
  lemma CryptIs(scheme: Scheme, iv: Bytes, from: nat, input: Bytes, output: Bytes)
    requires IsNonce(iv)
    ensures |Crypt(scheme, iv, from, input)| == |input|
    ensures output == Crypt(scheme, iv, from, input) <==> CipheredByBytes(scheme, iv, from, input, output)
  {
    hide Crypt, CipheredAt;
    var r := Crypt(scheme, iv, from, input);
    CryptLength(scheme, iv, from, input);
    forall i: nat | i < |input| ensures CipheredAt(scheme, iv, input[i], r[i], from + i) {
      CryptAt(scheme, iv, from, input, i);
    }
    if CipheredByBytes(scheme, iv, from, input, output) {
      forall i: nat | i < |input| ensures output[i] == r[i] {
        assert CipheredAt(scheme, iv, input[i], output[i], from + i);
        OneByte(scheme, iv, input[i], output[i], r[i], from + i);
      }
    }
  }

  lemma CryptLength(scheme: Scheme, iv: Bytes, from: nat, input: Bytes)
    requires IsNonce(iv)
    ensures |Crypt(scheme, iv, from, input)| == |input|
  {
  }

  lemma CryptAt(scheme: Scheme, iv: Bytes, from: nat, input: Bytes, i: nat)
    requires IsNonce(iv) && i < |input| == |Crypt(scheme, iv, from, input)|
    ensures CipheredAt(scheme, iv, input[i], Crypt(scheme, iv, from, input)[i], from + i)
  {
    hide Xor, KeyStream, StreamAt;
    KeyStreamAt(scheme, iv, from, |input|, i);
    XorOf(input, KeyStream(scheme, iv, from, |input|), i);
  }

  lemma KeyStreamAt(scheme: Scheme, iv: Bytes, from: nat, count: nat, i: nat)
    requires IsNonce(iv) && i < count
    ensures |KeyStream(scheme, iv, from, count)| == count
    ensures KeyStream(scheme, iv, from, count)[i] == StreamAt(scheme, iv, from + i)
  {
    hide CounterBlock, FirstCounter;
    CounterBlockIs(iv);
    assert 16 + from + i == 16 + (from + i) && 64 + from + i == 64 + (from + i);
  }

  lemma OneByte(scheme: Scheme, iv: Bytes, a: bv8, b: bv8, c: bv8, i: nat)
    requires IsNonce(iv) && CipheredAt(scheme, iv, a, b, i) && CipheredAt(scheme, iv, a, c, i)
    ensures b == c
  {
    hide StreamAt;
  }

  lemma XorOf(a: Bytes, b: Bytes, i: nat)
    requires i < |a| == |b|
    ensures |Xor(a, b)| == |a| && Xor(a, b)[i] == a[i] ^ b[i]
  {
  }

  /** The tag of additional data and the authenticated form of the message. */
  ghost function Tag(scheme: Scheme, nonce: Bytes, aad: Bytes, authenticated: Bytes): Bytes
    requires IsNonce(nonce) && scheme.WellFormed()
  {
    match scheme
    case ChaChaPoly(_, poly) => poly(PolyKey(scheme, nonce), PolyTranscript(aad, authenticated))
    case Ccm(cipher, stream, tagSize) =>
      var mac := Chain(cipher, Zeros(16), CcmTranscript(tagSize, nonce, aad, authenticated));
      Xor(mac, FirstKey(scheme, nonce))
  }

  /** The message in progress: what was done before the message, the authenticated form of the message,
      how many bytes of it were refused but counted, and data given after it. */
  datatype Session = Session(history: seq<Event>, authenticated: Bytes, refused: nat, footer: Bytes)
  {
    /** The authenticated bytes in front of the message. */
    ghost function Header(scheme: Scheme, nonce: Bytes): Bytes {
      if scheme.Ccm? && IsNonce(nonce) && scheme.tagSize >= 2 then CcmHeader(scheme.tagSize, nonce, history)
      else DataOf(history)
    }

    /** The authenticated bytes up to the end of the message so far. */
    ghost function UpToBody(scheme: Scheme, nonce: Bytes): Bytes {
      Pad16(Header(scheme, nonce)) + authenticated
    }

    /** What must have been fed in by now. */
    ghost function Expected(scheme: Scheme, nonce: Bytes, state: State): Bytes {
      match state
      case AuthUntransformed => UpToBody(scheme, nonce)
      case AuthTransformed => UpToBody(scheme, nonce)
      case AuthFooter => Pad16(UpToBody(scheme, nonce)) + footer
      case _ => Header(scheme, nonce)
    }

    /** One more thing done before the message. */
    ghost function Having(e: Event): Session {
      this.(history := history + [e])
    }
  }

  const NEW_SESSION := Session([], [], 0, [])

  lemma HeaderGrows(scheme: Scheme, nonce: Bytes, session: Session, input: Bytes)
    ensures session.Having(Given(input)).Header(scheme, nonce) == session.Header(scheme, nonce) + input
    ensures DataOf(session.Having(Given(input)).history) == DataOf(session.history) + input
    ensures Lengths(session.Having(Given(input)).history) == Lengths(session.history)
    ensures IsAnnounced(session.Having(Given(input)).history) == IsAnnounced(session.history)
  {
    var next := session.Having(Given(input)).history;
    assert next[..|next| - 1] == session.history;
  }

  lemma HeaderRestarts(scheme: Scheme, nonce: Bytes, session: Session, headerLength: nat, messageLength: nat)
    requires scheme.Ccm? && scheme.tagSize >= 2 && IsNonce(nonce)
    ensures session.Having(Announced(headerLength, messageLength)).Header(scheme, nonce)
         == Opening(scheme.tagSize, Field(nonce, session.history), headerLength, messageLength)
            + Kept(nonce, session.history, headerLength)
    ensures DataOf(session.Having(Announced(headerLength, messageLength)).history) == DataOf(session.history)
    ensures Lengths(session.Having(Announced(headerLength, messageLength)).history) == (headerLength, messageLength)
  {
    var next := session.Having(Announced(headerLength, messageLength)).history;
    assert next[..|next| - 1] == session.history && DataOf(session.history) + [] == DataOf(session.history);
  }

  lemma BodyGrows(scheme: Scheme, nonce: Bytes, session: Session, piece: Bytes)
    ensures session.(authenticated := session.authenticated + piece).UpToBody(scheme, nonce)
         == session.UpToBody(scheme, nonce) + piece
  {
    hide Pad16, CcmHeader, DataOf;
    Regroup(Pad16(session.Header(scheme, nonce)), session.authenticated, piece);
  }

  /** The body starts at a multiple of 16. */
  lemma BodyLength(scheme: Scheme, nonce: Bytes, session: Session)
    ensures |session.UpToBody(scheme, nonce)| % 16 == |session.authenticated| % 16
  {
    hide Pad16;
    PaddedToBlocks(session.Header(scheme, nonce));
  }

  lemma FooterGrows(scheme: Scheme, nonce: Bytes, session: Session, input: Bytes)
    ensures session.(footer := session.footer + input).Expected(scheme, nonce, AuthFooter)
         == session.Expected(scheme, nonce, AuthFooter) + input
  {
    hide Pad16, CcmHeader, DataOf;
    Regroup(Pad16(session.UpToBody(scheme, nonce)), session.footer, input);
  }

  /** The counters agree with what has been given. */
  ghost predicate Counted(scheme: Scheme, isForward: bool, nonce: Bytes, state: State, header: nat, message: nat,
                          footer: nat, session: Session) {
    && scheme.AcceptsNonce(nonce) && HasIV(state)
    && header == |DataOf(session.history)| % LWORD
    && message == |session.authenticated| + session.refused <= MaxMessageLength(scheme, nonce)
    && footer == |session.footer| % LWORD
    && (state == IVSet ==> session.authenticated == [])
    && (state != AuthFooter ==> session.footer == [])
    && (state == AuthUntransformed ==> scheme.OnPlaintext() == isForward)
    && (state == AuthTransformed ==> scheme.OnPlaintext() != isForward)
    && (scheme.ChaChaPoly? && state != AuthFooter ==> session.refused == 0)
    && (state != IVSet && scheme.Ccm? ==> Lengths(session.history).0 == header)
  }

  /** The state of the object agrees with the message in progress and with what was fed in. */
  ghost predicate InProgress(scheme: Scheme, isForward: bool, nonce: Bytes, start: Block, state: State,
                             header: nat, message: nat, footer: nat, aadLength: nat, messageLength: nat,
                             session: Session, fed: Bytes) {
    && Counted(scheme, isForward, nonce, state, header, message, footer, session)
    && fed == session.Expected(scheme, nonce, state)
    && (scheme.Ccm? ==>
          && Lengths(session.history) == (aadLength, messageLength)
          && (IsAnnounced(session.history) ==> start == Zeros(16)))
  }

  /** A message begins. */
  lemma NothingGiven(scheme: Scheme, isForward: bool, nonce: Bytes, start: Block, fed: Bytes)
    requires scheme.AcceptsNonce(nonce) && fed == []
    ensures InProgress(scheme, isForward, nonce, start, IVSet, 0, 0, 0, 0, 0, NEW_SESSION, fed)
  {
  }

  lemma CountsAre(scheme: Scheme, isForward: bool, nonce: Bytes, start: Block, state: State,
                  header: nat, message: nat, footer: nat, aadLength: nat, messageLength: nat,
                  session: Session, fed: Bytes)
    requires InProgress(scheme, isForward, nonce, start, state, header, message, footer, aadLength, messageLength,
                        session, fed)
    ensures |DataOf(session.history)| < LWORD ==> header == |DataOf(session.history)|
    ensures message == |session.authenticated| + session.refused && (session.footer == [] ==> footer == 0)
    ensures scheme.ChaChaPoly? && state != AuthFooter ==> session.refused == 0
    ensures state == AuthUntransformed ==> scheme.OnPlaintext() == isForward
    ensures state == AuthTransformed ==> scheme.OnPlaintext() != isForward
    ensures scheme.Ccm? ==> Lengths(session.history) == (aadLength, messageLength)
  {
    if |DataOf(session.history)| < LWORD {
      SmallRemainder(|DataOf(session.history)|, LWORD);
    }
  }

  /** All but the end of a message has been given, in an order that the standard knows. */
  lemma OrderlyIsComplete(scheme: Scheme, isForward: bool, nonce: Bytes, start: Block, state: State,
                          header: nat, message: nat, footer: nat, aadLength: nat, messageLength: nat,
                          session: Session, fed: Bytes)
    requires InProgress(scheme, isForward, nonce, start, state, header, message, footer, aadLength, messageLength,
                        session, fed)
    requires scheme.WellFormed() && session.refused == 0
    requires scheme.Ccm? ==> StandardHistory(nonce, session.history) && aadLength == header && messageLength == message
    ensures Complete(scheme, nonce, start, session, Pad16(session.UpToBody(scheme, nonce)), header)
  {
  }

  /** The one-time authenticator pads by a count that may have wrapped around. */
  lemma HeaderLength(scheme: Scheme, isForward: bool, nonce: Bytes, start: Block,
                     header: nat, message: nat, footer: nat, aadLength: nat, messageLength: nat,
                     session: Session, fed: Bytes)
    requires InProgress(scheme, isForward, nonce, start, IVSet, header, message, footer, aadLength, messageLength,
                        session, fed)
    ensures fed == session.Header(scheme, nonce)
    ensures scheme.ChaChaPoly? ==> header % 16 == |fed| % 16
  {
    hide DataOf, CcmHeader;
    SixteenInWord(|DataOf(session.history)|);
  }

  lemma SixteenInWord(n: nat)
    ensures n % LWORD % 16 == n % 16
  {
    var q, r := n / LWORD, n % LWORD;
    assert n == 16 * (LWORD / 16 * q) + r;
    Unquotient(n, 16, LWORD / 16 * q + r / 16, r % 16);
  }

  /** More additional data. */
  lemma HeaderTakenIn(scheme: Scheme, isForward: bool, nonce: Bytes, start: Block, state: State,
                      header: nat, message: nat, footer: nat, aadLength: nat, messageLength: nat,
                      session: Session, fed: Bytes, input: Bytes)
    requires InProgress(scheme, isForward, nonce, start, state, header, message, footer, aadLength, messageLength,
                        session, fed)
    requires state == IVSet
    ensures InProgress(scheme, isForward, nonce, start, state, (header + |input|) % LWORD, message, footer,
                       aadLength, messageLength, session.Having(Given(input)), fed + input)
  {
    HeaderGrows(scheme, nonce, session, input);
    WrapSum(|DataOf(session.history)|, |input|);
  }

  /** More of the message. */
  lemma BodyTakenIn(scheme: Scheme, isForward: bool, nonce: Bytes, start: Block, state: State,
                    header: nat, message: nat, footer: nat, aadLength: nat, messageLength: nat,
                    session: Session, fed: Bytes, piece: Bytes)
    requires InProgress(scheme, isForward, nonce, start, state, header, message, footer, aadLength, messageLength,
                        session, fed)
    requires state in {AuthUntransformed, AuthTransformed} && message + |piece| <= MaxMessageLength(scheme, nonce)
    ensures InProgress(scheme, isForward, nonce, start, state, header, message + |piece|, footer,
                       aadLength, messageLength, session.(authenticated := session.authenticated + piece), fed + piece)
  {
    BodyGrows(scheme, nonce, session, piece);
  }

  /** A part of the message that is counted but refused. */
  lemma BodyRefused(scheme: Scheme, isForward: bool, nonce: Bytes, start: Block, state: State,
                    header: nat, message: nat, footer: nat, aadLength: nat, messageLength: nat,
                    session: Session, fed: Bytes, count: nat)
    requires InProgress(scheme, isForward, nonce, start, state, header, message, footer, aadLength, messageLength,
                        session, fed)
    requires message + count <= MaxMessageLength(scheme, nonce) && (scheme.ChaChaPoly? ==> state == AuthFooter)
    ensures (message + count) % LWORD == message + count
    ensures InProgress(scheme, isForward, nonce, start, state, header, message + count, footer,
                       aadLength, messageLength, session.(refused := session.refused + count), fed)
  {
    var next := session.(refused := session.refused + count);
    assert next.Header(scheme, nonce) == session.Header(scheme, nonce);
    assert next.Expected(scheme, nonce, state) == session.Expected(scheme, nonce, state);
    MaxFits(scheme, nonce);
    SmallRemainder(message + count, LWORD);
  }

  /** More data after the message. */
  lemma FooterTakenIn(scheme: Scheme, isForward: bool, nonce: Bytes, start: Block, state: State,
                      header: nat, message: nat, footer: nat, aadLength: nat, messageLength: nat,
                      session: Session, fed: Bytes, input: Bytes)
    requires InProgress(scheme, isForward, nonce, start, state, header, message, footer, aadLength, messageLength,
                        session, fed)
    requires state == AuthFooter
    ensures InProgress(scheme, isForward, nonce, start, state, header, message, (footer + |input|) % LWORD,
                       aadLength, messageLength, session.(footer := session.footer + input), fed + input)
  {
    FooterGrows(scheme, nonce, session, input);
    WrapSum(|session.footer|, |input|);
  }

  /** The additional data ends. */
  lemma HeaderEnds(scheme: Scheme, isForward: bool, nonce: Bytes, start: Block, state: State,
                   header: nat, message: nat, footer: nat, aadLength: nat, messageLength: nat,
                   session: Session, fed: Bytes)
    requires InProgress(scheme, isForward, nonce, start, state, header, message, footer, aadLength, messageLength,
                        session, fed)
    requires state == IVSet && (scheme.Ccm? ==> aadLength == header)
    ensures InProgress(scheme, isForward, nonce, start,
                       if scheme.OnPlaintext() == isForward then AuthUntransformed else AuthTransformed,
                       header, message, footer, aadLength, messageLength, session, Pad16(fed))
  {
    assert session.UpToBody(scheme, nonce) == Pad16(fed);
  }

  /** The message ends, and a footer begins. */
  lemma BodyEnds(scheme: Scheme, isForward: bool, nonce: Bytes, start: Block, state: State,
                 header: nat, message: nat, footer: nat, aadLength: nat, messageLength: nat,
                 session: Session, fed: Bytes)
    requires InProgress(scheme, isForward, nonce, start, state, header, message, footer, aadLength, messageLength,
                        session, fed)
    requires state in {AuthUntransformed, AuthTransformed}
    ensures InProgress(scheme, isForward, nonce, start, AuthFooter, header, message, footer,
                       aadLength, messageLength, session, Pad16(fed))
  {
    assert Pad16(session.UpToBody(scheme, nonce)) + [] == Pad16(fed);
  }

  /** Lengths are announced. */
  lemma LengthsAnnounced(scheme: Scheme, isForward: bool, nonce: Bytes, start: Block, state: State,
                         header: nat, message: nat, footer: nat, aadLength: nat, messageLength: nat,
                         session: Session, fed: Bytes, newAadLength: nat, newMessageLength: nat)
    requires InProgress(scheme, isForward, nonce, start, state, header, message, footer, aadLength, messageLength,
                        session, fed)
    requires state == IVSet && scheme.Ccm?
    ensures var next := session.Having(Announced(newAadLength, newMessageLength));
            InProgress(scheme, isForward, nonce, Zeros(16), state, header, message, footer,
                       newAadLength, newMessageLength, next, next.Header(scheme, nonce))
  {
    if scheme.tagSize >= 2 {
      HeaderRestarts(scheme, nonce, session, newAadLength, newMessageLength);
    } else {
      var next := session.Having(Announced(newAadLength, newMessageLength)).history;
      assert next[..|next| - 1] == session.history && DataOf(session.history) + [] == DataOf(session.history);
    }
  }

  /** A footer whose length wraps to zero leaves nothing waiting. */
  lemma WholeFooter(body: Bytes, footer: Bytes, absorbed: Bytes, waiting: Bytes)
    requires absorbed + waiting == Pad16(body) + footer && |footer| % LWORD == 0
    ensures |absorbed| % 16 == 0 && |waiting| < 16 ==> waiting == []
  {
    hide Pad16;
    PaddedToBlocks(body);
    assert |absorbed| + |waiting| == |Pad16(body)| + |footer|;
  }

  function MaxOfBytes(size: nat): nat {
    if size == 0 then 0 else 256 * MaxOfBytes(size - 1) + 255
  }

  function MaxMessageLength(scheme: Scheme, nonce: Bytes): nat {
    if scheme.ChaChaPoly? then 274877906880
    else if 7 < |nonce| <= 13 then MaxOfBytes(15 - |nonce|)
    else LWORD - 1
  }

  /** Every message length is a 64-bit number. */
  lemma MaxFits(scheme: Scheme, nonce: Bytes)
    ensures MaxMessageLength(scheme, nonce) < LWORD
  {
    if scheme.Ccm? && 7 < |nonce| <= 13 {
      MaxGrows(15 - |nonce|, 8);
      assert MaxOfBytes(8) == 256 * MaxOfBytes(7) + 255 && MaxOfBytes(7) == 256 * MaxOfBytes(6) + 255;
      assert MaxOfBytes(6) == 256 * MaxOfBytes(5) + 255 && MaxOfBytes(5) == 256 * MaxOfBytes(4) + 255;
      assert MaxOfBytes(4) == 256 * MaxOfBytes(3) + 255 && MaxOfBytes(3) == 256 * MaxOfBytes(2) + 255;
      assert MaxOfBytes(2) == 256 * MaxOfBytes(1) + 255;
    }
  }

  /** The limits of section 2.8 of RFC 8439, and of section 2.1 of RFC 3610 for some nonces. */
  lemma Limits(scheme: Scheme, nonce: Bytes)
    ensures scheme.ChaChaPoly? ==> MaxMessageLength(scheme, nonce) == 64 * 0xffff_ffff
    ensures scheme.Ccm? && |nonce| == 13 ==> MaxMessageLength(scheme, nonce) == 0xffff
    ensures scheme.Ccm? && |nonce| == 12 ==> MaxMessageLength(scheme, nonce) == 0xff_ffff
    ensures scheme.Ccm? && |nonce| == 7 ==> MaxMessageLength(scheme, nonce) == 0xffff_ffff_ffff_ffff
  {
    assert MaxOfBytes(3) == 256 * MaxOfBytes(2) + 255 && MaxOfBytes(2) == 256 * MaxOfBytes(1) + 255;
  }

  lemma {:induction false} MaxGrows(a: nat, b: nat)
    requires a <= b
    ensures MaxOfBytes(a) <= MaxOfBytes(b)
  {
    if a < b {
      MaxGrows(a, b - 1);
    }
  }

  // ---- The object ----------------------------------------------------------------------

  class AuthenticatedCipher {
    const scheme: Scheme
    const isForward: bool
    const buffer: array<bv8>          // sixteen bytes under CCM: those waiting for a whole block come first
    var bufferedDataLength: nat
    var macInput: Bytes               // what the one-time authenticator has been given
    var cbc: Block                    // the chaining value of the block cipher
    var state: State
    var totalHeaderLength: nat
    var totalMessageLength: nat
    var totalFooterLength: nat
    var nonce: Bytes                  // what keys the stream; CCM keeps it in the buffer besides
    var streamPosition: nat           // how much of the key stream has been used
    var aadLength: nat                // the lengths CCM was told beforehand
    var messageLength: nat
    ghost var start: Block            // the chaining value those bytes started from
    ghost var absorbed: Bytes         // all bytes the authenticator has processed
    ghost var session: Session

    /** The authenticator has processed `absorbed`, in whole blocks. */
    ghost predicate MacHolds()
      reads this
    {
      match scheme
      case ChaChaPoly(_, _) => macInput == absorbed
      case Ccm(cipher, _, _) => |absorbed| % 16 == 0 && cbc == Chain(cipher, start, absorbed)
    }

    ghost predicate BufferHolds()
      reads this, buffer
    {
      && scheme.WellFormed()
      && buffer.Length == (if scheme.Ccm? then 16 else 0)
      && bufferedDataLength < scheme.BlockSize()
      && MacHolds()
    }

    /** The bytes that wait for a whole block. */
    ghost function Waiting(): Bytes
      reads this, buffer
    {
      if bufferedDataLength <= buffer.Length then buffer[..bufferedDataLength] else []
    }

    /** The buffer under CCM. */
    ghost function HeldNow(): Held
      reads this, buffer
    {
      if buffer.Length == 16 then Held(buffer[..], bufferedDataLength) else Held(Zeros(16), 0)
    }

    /** Everything fed in since the start, processed or still waiting. */
    ghost function Fed(): Bytes
      reads this, buffer
    {
      absorbed + Waiting()
    }

    /** Processes the whole blocks of the data and says how many bytes are left over. */
    method AuthenticateBlocks(data: Bytes) returns (leftOver: nat)
      requires MacHolds()
      modifies this`macInput, this`cbc, this`absorbed
      ensures MacHolds() && leftOver == |data| % scheme.BlockSize()
      ensures absorbed == old(absorbed) + data[..|data| - leftOver]
    {
      leftOver := |data| % scheme.BlockSize();
      ghost var whole := data[..|data| - leftOver];
      match scheme {
        case ChaChaPoly(_, _) =>
          macInput := macInput + data;
          assert whole == data;
        case Ccm(cipher, _, _) =>
          cbc := Chain(cipher, cbc, data);
          ChainConcat(cipher, start, absorbed, data);
          ChainConcat(cipher, start, absorbed + whole, data[|whole|..]);
          assert absorbed + data == absorbed + whole + data[|whole|..];
      }
      absorbed := absorbed + whole;
    }

    /** Completes the waiting block and processes it. */
    method CompleteBlock(input: Bytes) returns (taken: nat)
      requires BufferHolds() && scheme.Ccm? && bufferedDataLength + |input| >= 16
      modifies this`bufferedDataLength, this`cbc, this`macInput, this`absorbed, buffer
      ensures BufferHolds() && bufferedDataLength == 0
      ensures taken == 16 - old(bufferedDataLength) && absorbed + input[taken..] == old(Fed()) + input
      ensures buffer[..] == old(buffer[..bufferedDataLength]) + input[..taken]
    {
      var num := bufferedDataLength;
      taken := 16 - num;
      ghost var waiting := buffer[..num];
      forall i | num <= i < 16 {
        buffer[i] := input[i - num];
      }
      assert buffer[..16] == waiting + input[..taken];
      var leftOver := AuthenticateBlocks(buffer[..16]);
      bufferedDataLength := 0;
      assert waiting + input == waiting + input[..taken] + input[taken..];
    }

    /** Adds data that does not complete a block. */
    method Wait(input: Bytes)
      requires BufferHolds() && scheme.Ccm? && bufferedDataLength + |input| < 16
      modifies this`bufferedDataLength, buffer
      ensures BufferHolds() && Fed() == old(Fed()) + input
      ensures HeldNow() == Taken(old(HeldNow()), input)
    {
      var num := bufferedDataLength;
      ghost var waiting, was := buffer[..num], buffer[..];
      forall i | num <= i < num + |input| {
        buffer[i] := input[i - num];
      }
      bufferedDataLength := num + |input|;
      assert buffer[..bufferedDataLength] == waiting + input;
      assert buffer[..] == was[..num] + input + was[num + |input|..];
    }

    /** Feeds data of any length; whole blocks are processed at once, the rest waits. */
    method AuthenticateData(input: Bytes)
      requires BufferHolds()
      modifies this`bufferedDataLength, this`macInput, this`cbc, this`absorbed, buffer
      ensures BufferHolds() && Fed() == old(Fed()) + input
      ensures scheme.Ccm? ==> HeldNow() == Taken(old(HeldNow()), input)
    {
      hide Taken;
      if |input| == 0 {
        if scheme.Ccm? {
          TakenNothing(HeldNow());
        }
        return;
      }
      var blockSize := scheme.BlockSize();
      if bufferedDataLength > 0 {
        if bufferedDataLength + |input| >= blockSize {
          ghost var num, was := bufferedDataLength, buffer[..];
          var taken := CompleteBlock(input);
          AuthenticateWhole(input[taken..]);
          CompletedTaken(was, num, input);
        } else {
          Wait(input);
        }
      } else {
        ghost var was := buffer[..];
        AuthenticateWhole(input);
        if scheme.Ccm? {
          StartedTaken(was, input);
        }
      }
    }

    /** Data that starts at a whole block. */
    method AuthenticateWhole(input: Bytes)
      requires BufferHolds() && bufferedDataLength == 0
      modifies this`bufferedDataLength, this`macInput, this`cbc, this`absorbed, buffer
      ensures BufferHolds() && Fed() == old(absorbed) + input
      ensures scheme.Ccm? ==> HeldNow() == LeftOver(old(buffer[..]), input)
    {
      hide Chain, MacHolds, LeftOver;
      var rest := input;
      assert scheme.BlockSize() == if scheme.Ccm? then 16 else 1;
      if |rest| >= scheme.BlockSize() {
        hide Scheme.BlockSize;
        var leftOver := AuthenticateBlocks(rest);
        rest := rest[|rest| - leftOver..];
        Rejoined(old(absorbed), input, |input| - leftOver);
      }
      assert absorbed + rest == old(absorbed) + input;
      if scheme.Ccm? {
        LeftOverIs(buffer[..], input, rest);
      }
      Keep(rest);
    }

    lemma Rejoined(a: Bytes, s: Bytes, k: nat)
      requires k <= |s|
      ensures a + s[..k] + s[k..] == a + s
    {
    }

    lemma LeftOverIs(full: Block, input: Bytes, rest: Bytes)
      requires rest == input[|input| - |input| % 16..]
      ensures LeftOver(full, input) == Held(rest + full[|rest|..], |rest|)
    {
    }

    /** What is to wait goes to the front of the buffer. */
    method Keep(rest: Bytes)
      requires scheme.WellFormed() && MacHolds() && |rest| < scheme.BlockSize()
      requires buffer.Length == if scheme.Ccm? then 16 else 0
      modifies this`bufferedDataLength, buffer
      ensures BufferHolds() && Fed() == absorbed + rest && bufferedDataLength == |rest|
      ensures scheme.Ccm? ==> buffer[..] == rest + old(buffer[|rest|..])
    {
      ghost var was := buffer[..];
      forall i | 0 <= i < |rest| {
        buffer[i] := rest[i];
      }
      bufferedDataLength := |rest|;
      assert buffer[..|rest|] == rest;
      assert scheme.Ccm? ==> buffer[..] == rest + was[|rest|..];
    }

    /** The end of a part: zeros up to a multiple of 16. The one-time authenticator is given
        them; the chaining cipher processes the bytes that wait. */
    method AuthenticateLastBlock(total: nat)
      requires BufferHolds() && (scheme.ChaChaPoly? ==> total % 16 == |absorbed| % 16)
      modifies this`bufferedDataLength, this`macInput, this`cbc, this`absorbed
      ensures BufferHolds() && Fed() == Pad16(old(Fed())) && bufferedDataLength == 0
    {
      match scheme {
        case ChaChaPoly(_, _) =>
          macInput := macInput + Zeros(PadLength(total));
          absorbed := absorbed + Zeros(PadLength(total));
        case Ccm(cipher, _, _) =>
          ChainHeld(cipher, start, cbc, absorbed, buffer[..bufferedDataLength]);
          absorbed := Pad16(absorbed + buffer[..bufferedDataLength]);
          if bufferedDataLength > 0 {
            cbc := cipher(Xor(buffer[..bufferedDataLength], cbc) + cbc[bufferedDataLength..]);
            bufferedDataLength := 0;
          }
      }
    }

    /** Leaves the encoded length of the additional data in the buffer, over what waited there. */
    method PutLength(headerLength: nat)
      requires BufferHolds() && scheme.Ccm? && 0 < headerLength < LWORD
      modifies this`bufferedDataLength, buffer
      ensures BufferHolds() && Fed() == absorbed + EncodedLength(headerLength)
      ensures HeldNow() == Lengthened(old(HeldNow()), headerLength)
    {
      var bytes :=
        if headerLength < 0x1_0000 - 0x100 then BigEndian(headerLength, 2)
        else if headerLength < 0x1_0000_0000 then [0xff, 0xfe] + BigEndian(headerLength, 4)
        else [0xff, 0xff] + BigEndian(headerLength, 8);
      BigEndianLength(headerLength, 2);
      BigEndianLength(headerLength, 4);
      BigEndianLength(headerLength, 8);
      Keep(bytes);
    }

    // ---- The message in progress -------------------------------------------------------

    ghost predicate Valid()
      reads this, buffer
    {
      && BufferHolds()
      && (!HasIV(state) || (streamPosition == |session.authenticated| &&
          InProgress(scheme, isForward, nonce, start, state, totalHeaderLength, totalMessageLength, totalFooterLength,
                     aadLength, messageLength, session, Fed())))
      && (state == IVSet && scheme.Ccm? ==> IsNonce(nonce) && HeldNow() == HeldAfter(nonce, session.history))
    }

    /** Nothing was refused, and CCM was told its lengths in an order that the standard knows. */
    ghost predicate Orderly()
      reads this
    {
      session.refused == 0 && (scheme.Ccm? ==> IsNonce(nonce) && StandardHistory(nonce, session.history))
    }

    constructor (scheme: Scheme, isForward: bool)
      requires scheme.WellFormed()
      ensures Valid() && fresh(buffer) && state == KeySet && this.scheme == scheme && this.isForward == isForward
    {
      this.scheme, this.isForward := scheme, isForward;
      buffer := new bv8[if scheme.Ccm? then 16 else 0];
      bufferedDataLength, macInput, cbc, start, absorbed := 0, [], Zeros(16), Zeros(16), [];
      state, nonce, streamPosition := KeySet, [], 0;
      totalHeaderLength, totalMessageLength, totalFooterLength := 0, 0, 0;
      aadLength, messageLength := 0, 0;
      session := NEW_SESSION;
    }

    /** Starts a message under a new nonce. */
    method Resynchronize(iv: Bytes) returns (status: Status)
      requires BufferHolds()
      modifies this, buffer
      ensures Valid()
      ensures status == if !Keyed(old(state)) then BadState
                        else if !scheme.AcceptsNonce(iv) then InvalidArgument
                        else Ok
      ensures status == Ok ==> state == IVSet && nonce == iv && session == NEW_SESSION && start == old(cbc)
      ensures status == Ok && scheme.Ccm? ==> buffer[..] == CounterBlock(iv)
    {
      if !Keyed(state) {
        return BadState;
      }
      bufferedDataLength := 0;
      totalHeaderLength, totalMessageLength, totalFooterLength := 0, 0, 0;
      state := KeySet;
      if !scheme.AcceptsNonce(iv) {
        return InvalidArgument;
      }
      Resync(iv);
      state := IVSet;
      status := Ok;
    }

    /** A new message: nothing has been given or announced. The buffer of CCM becomes the first counter
        block, and the only copy of the nonce that later announcements see. */
    method Resync(iv: Bytes)
      requires BufferHolds() && scheme.AcceptsNonce(iv) && bufferedDataLength == 0
      requires totalHeaderLength == totalMessageLength == totalFooterLength == 0
      modifies this`nonce, this`aadLength, this`messageLength, this`session, this`start, this`absorbed, this`macInput
      modifies this`streamPosition, buffer
      ensures BufferHolds() && nonce == iv && session == NEW_SESSION && start == cbc && streamPosition == 0
      ensures InProgress(scheme, isForward, nonce, start, IVSet, totalHeaderLength, totalMessageLength,
                         totalFooterLength, aadLength, messageLength, session, Fed())
      ensures scheme.Ccm? ==> HeldNow() == HeldAfter(nonce, session.history) && buffer[..] == CounterBlock(iv)
    {
      hide InProgress;
      nonce, streamPosition := iv, 0;
      aadLength, messageLength := 0, 0;
      session := NEW_SESSION;
      start, absorbed := cbc, [];
      if scheme.ChaChaPoly? {
        macInput := [];
      } else {
        PutCounterBlock(iv);
      }
      NothingGiven(scheme, isForward, iv, start, Fed());
    }

    method PutCounterBlock(iv: Bytes)
      requires buffer.Length == 16 && IsNonce(iv)
      modifies buffer
      ensures buffer[..] == CounterBlock(iv)
    {
      buffer[0] := Byte(15 - |iv| - 1);
      forall i | 1 <= i < 16 {
        buffer[i] := if i <= |iv| then iv[i - 1] else 0;
      }
      assert buffer[..] == CounterBlock(iv);
    }

    /** What the counters count. */
    lemma Totals()
      requires Valid() && HasIV(state)
      ensures scheme.AcceptsNonce(nonce)
      ensures |DataOf(session.history)| < LWORD ==> totalHeaderLength == |DataOf(session.history)|
      ensures totalMessageLength == |session.authenticated| + session.refused
      ensures scheme.ChaChaPoly? && state != AuthFooter ==> session.refused == 0
      ensures session.footer == [] ==> totalFooterLength == 0
      ensures state == AuthUntransformed ==> scheme.OnPlaintext() == isForward
      ensures state == AuthTransformed ==> scheme.OnPlaintext() != isForward
      ensures scheme.Ccm? ==> Lengths(session.history) == (aadLength, messageLength)
    {
      CountsAre(scheme, isForward, nonce, start, state, totalHeaderLength, totalMessageLength, totalFooterLength,
                aadLength, messageLength, session, Fed());
    }

    /** Processes a first block, dropping what was processed before, and leaves the encoded length of the
        additional data in the buffer. The nonce of the block is what the buffer holds in its place. */
    method UncheckedSpecifyDataLengths(headerLength: nat, messageLengthIn: nat) returns (status: Status)
      requires Valid() && scheme.Ccm? && headerLength < LWORD
      modifies this`aadLength, this`messageLength, this`session
      modifies this`cbc, this`start, this`absorbed, this`bufferedDataLength, buffer
      ensures Valid()
      ensures status == if state != IVSet then BadState else Ok
      ensures session == if status == Ok then old(session).Having(Announced(headerLength, messageLengthIn))
                         else old(session)
      ensures status == Ok ==> aadLength == headerLength && messageLength == messageLengthIn
      ensures status == Ok ==> buffer[..] == Lengthened(old(HeldNow()), headerLength).bytes
    {
      hide HeldAfter, InProgress, Lengths, DataOf, Lengthened;
      if state != IVSet {
        return BadState;
      }
      Announce(headerLength, messageLengthIn);
      status := Ok;
    }

    method Announce(headerLength: nat, messageLengthIn: nat)
      requires Valid() && scheme.Ccm? && headerLength < LWORD && state == IVSet
      modifies this`aadLength, this`messageLength, this`session
      modifies this`cbc, this`start, this`absorbed, this`bufferedDataLength, buffer
      ensures Valid() && aadLength == headerLength && messageLength == messageLengthIn
      ensures session == old(session).Having(Announced(headerLength, messageLengthIn))
      ensures buffer[..] == Lengthened(old(HeldNow()), headerLength).bytes
    {
      hide HeldAfter, InProgress, Lengths, DataOf, Opening, Kept, Lengthened, Session.Header, Field;
      ghost var next := session.Having(Announced(headerLength, messageLengthIn));
      Totals();
      LengthsAnnounced(scheme, isForward, nonce, start, state, totalHeaderLength, totalMessageLength, totalFooterLength,
                       aadLength, messageLength, session, Fed(), headerLength, messageLengthIn);
      AnnouncedHeld(nonce, session, headerLength, messageLengthIn, scheme);
      aadLength, messageLength := headerLength, messageLengthIn;
      PutOpening(session.history);
      assert Fed() == next.Header(scheme, nonce);
      session := next;
    }

    /** The first block and the length of the additional data. */
    method PutOpening(ghost history: seq<Event>)
      requires BufferHolds() && scheme.Ccm? && IsNonce(nonce) && aadLength < LWORD
      requires HeldNow() == HeldAfter(nonce, history)
      modifies this`cbc, this`start, this`absorbed, this`bufferedDataLength, buffer
      ensures BufferHolds() && start == Zeros(16)
      ensures Fed() == Opening(scheme.tagSize, Field(nonce, history), aadLength, messageLength)
                       + Kept(nonce, history, aadLength)
      ensures HeldNow() == Lengthened(old(HeldNow()), aadLength)
    {
      ghost var field := Field(nonce, history);
      PutFirstBlock(history);
      if aadLength > 0 {
        PutLength(aadLength);
      }
      EncodedLengthIs(aadLength);
      assert Opening(scheme.tagSize, field, aadLength, messageLength) + []
          == absorbed + EncodedLength(aadLength);
      assert absorbed + EncodedLength(0) == absorbed;
    }

    /** Processes the first block, in place of all before. */
    method PutFirstBlock(ghost history: seq<Event>)
      requires BufferHolds() && scheme.Ccm? && IsNonce(nonce)
      requires HeldNow() == HeldAfter(nonce, history)
      modifies this`cbc, this`start, this`absorbed
      ensures BufferHolds() && start == Zeros(16)
      ensures absorbed == FirstBlock(scheme.tagSize, Field(nonce, history), aadLength, messageLength)
    {
      assert buffer[1..1 + |nonce|] == Field(nonce, history);
      var b := FormatFirstBlock(scheme.tagSize, buffer, |nonce|, aadLength, messageLength, cbc);
      cbc := scheme.cipher(b);
      FirstBlockChained(scheme.cipher, b);
      start, absorbed := Zeros(16), b;
    }

    /** Announces the lengths. */
    method SpecifyDataLengths(headerLength: nat, messageLengthIn: nat) returns (status: Status)
      requires Valid() && headerLength < LWORD
      modifies this`aadLength, this`messageLength, this`session
      modifies this`cbc, this`start, this`absorbed, this`bufferedDataLength, buffer
      ensures Valid()
      ensures status == if messageLengthIn > MaxMessageLength(scheme, nonce) then InvalidArgument
                        else if scheme.Ccm? && state != IVSet then BadState else Ok
      ensures session == if status == Ok && scheme.Ccm?
                         then old(session).Having(Announced(headerLength, messageLengthIn))
                         else old(session)
      ensures status == Ok && scheme.Ccm? ==> aadLength == headerLength && messageLength == messageLengthIn
      ensures status == Ok && scheme.Ccm? ==> buffer[..] == Lengthened(old(HeldNow()), headerLength).bytes
    {
      if messageLengthIn > MaxMessageLength(scheme, nonce) {
        return InvalidArgument;
      }
      if scheme.Ccm? {
        status := UncheckedSpecifyDataLengths(headerLength, messageLengthIn);
      } else {
        status := Ok;
      }
    }

    /** Ends the additional data; CCM insists on the announced length. */
    method AuthenticateLastHeaderBlock() returns (status: Status)
      requires Valid() && state == IVSet
      modifies this`bufferedDataLength, this`macInput, this`cbc, this`absorbed
      ensures BufferHolds()
      ensures status == if scheme.Ccm? && aadLength != totalHeaderLength then InvalidArgument else Ok
      ensures status == Ok ==> bufferedDataLength == 0 && Fed() == Pad16(session.Header(scheme, nonce))
      ensures status != Ok ==>
        Fed() == old(Fed()) && absorbed == old(absorbed) && bufferedDataLength == old(bufferedDataLength)
    {
      hide InProgress, HeldAfter, Session.Header, Pad16;
      HeaderLength(scheme, isForward, nonce, start, totalHeaderLength, totalMessageLength, totalFooterLength,
                   aadLength, messageLength, session, Fed());
      if scheme.Ccm? && aadLength != totalHeaderLength {
        return InvalidArgument;
      }
      AuthenticateLastBlock(totalHeaderLength);
      status := Ok;
    }

    /** Ends the message; CCM insists on the announced length. */
    method AuthenticateLastConfidentialBlock() returns (status: Status)
      requires BufferHolds() && Fed() == session.UpToBody(scheme, nonce)
      requires scheme.ChaChaPoly? ==> totalMessageLength == |session.authenticated|
      modifies this`bufferedDataLength, this`macInput, this`cbc, this`absorbed
      ensures status == if scheme.Ccm? && messageLength != totalMessageLength then InvalidArgument else Ok
      ensures BufferHolds()
      ensures status == Ok ==> bufferedDataLength == 0 && Fed() == Pad16(session.UpToBody(scheme, nonce))
      ensures status != Ok ==>
        Fed() == old(Fed()) && absorbed == old(absorbed) && bufferedDataLength == old(bufferedDataLength)
    {
      if scheme.Ccm? && messageLength != totalMessageLength {
        return InvalidArgument;
      }
      BodyLength(scheme, nonce, session);
      AuthenticateLastBlock(totalMessageLength);
      status := Ok;
    }

    method UpdateHeader(input: Bytes)
      requires Valid() && state == IVSet
      modifies this`bufferedDataLength, this`macInput, this`cbc, this`absorbed, buffer
      modifies this`totalHeaderLength, this`session
      ensures Valid() && session == old(session).Having(Given(input))
    {
      hide InProgress, HeldAfter, Taken;
      HeaderTakenIn(scheme, isForward, nonce, start, state, totalHeaderLength, totalMessageLength, totalFooterLength,
                    aadLength, messageLength, session, Fed(), input);
      if scheme.Ccm? {
        GivenHeld(nonce, session, input);
      }
      AuthenticateData(input);
      totalHeaderLength := (totalHeaderLength + |input|) % LWORD;
      session := session.Having(Given(input));
    }

    method UpdateFooter(input: Bytes)
      requires Valid() && state == AuthFooter
      modifies this`bufferedDataLength, this`macInput, this`cbc, this`absorbed, buffer
      modifies this`totalFooterLength, this`session
      ensures Valid() && session == old(session).(footer := old(session.footer) + input)
    {
      hide InProgress, Taken, Chain;
      FooterTakenIn(scheme, isForward, nonce, start, state, totalHeaderLength, totalMessageLength, totalFooterLength,
                    aadLength, messageLength, session, Fed(), input);
      AuthenticateData(input);
      totalFooterLength := (totalFooterLength + |input|) % LWORD;
      session := session.(footer := session.footer + input);
    }

    /** An empty call is noted, and does nothing. */
    ghost method UpdateNothing()
      requires Valid()
      modifies this`session
      ensures Valid()
      ensures session == if state == IVSet then old(session).Having(Given([])) else old(session)
    {
      hide InProgress, HeldAfter;
      if state == IVSet {
        Totals();
        HeaderTakenIn(scheme, isForward, nonce, start, state, totalHeaderLength, totalMessageLength, totalFooterLength,
                      aadLength, messageLength, session, Fed(), []);
        assert Fed() + [] == Fed();
        HeaderBelow();
        if scheme.Ccm? {
          GivenHeld(nonce, session, []);
          TakenNothing(HeldNow());
        }
        session := session.Having(Given([]));
      }
    }

    lemma HeaderBelow()
      requires Valid() && HasIV(state)
      ensures (totalHeaderLength + 0) % LWORD == totalHeaderLength
    {
    }

    /** Additional data before the message, or a footer after it. */
    method Update(input: Bytes) returns (status: Status)
      requires Valid()
      modifies this`bufferedDataLength, this`macInput, this`cbc, this`absorbed, buffer
      modifies this`totalHeaderLength, this`totalFooterLength, this`session, this`state
      ensures Valid()
      ensures status == if input == [] then Ok
                        else if !HasIV(old(state)) then BadState
                        else if old(state) in {AuthUntransformed, AuthTransformed} && scheme.Ccm?
                             && messageLength != totalMessageLength then InvalidArgument
                        else Ok
      ensures status == Ok && old(state) == IVSet ==> state == IVSet && session == old(session).Having(Given(input))
      ensures status == Ok && HasIV(old(state)) && old(state) != IVSet && input != [] ==>
        state == AuthFooter && session == old(session).(footer := old(session.footer) + input)
      ensures status != Ok || (input == [] && old(state) != IVSet) ==> state == old(state) && session == old(session)
    {
      hide InProgress, Pad16, HeldAfter;
      if |input| == 0 {
        UpdateNothing();
        return Ok;
      }
      if state == Start || state == KeySet {
        return BadState;
      } else if state == IVSet {
        UpdateHeader(input);
      } else {
        if state != AuthFooter {
          status := BeginFooter();
          if status != Ok {
            return;
          }
        }
        UpdateFooter(input);
      }
      status := Ok;
    }

    /** The message ends and the footer begins. */
    method BeginFooter() returns (status: Status)
      requires Valid() && state in {AuthUntransformed, AuthTransformed}
      modifies this`bufferedDataLength, this`macInput, this`cbc, this`absorbed, this`state
      ensures Valid()
      ensures status == if scheme.Ccm? && messageLength != totalMessageLength then InvalidArgument else Ok
      ensures state == if status == Ok then AuthFooter else old(state)
    {
      Totals();
      BodyEnds(scheme, isForward, nonce, start, state, totalHeaderLength, totalMessageLength, totalFooterLength,
               aadLength, messageLength, session, Fed());
      status := AuthenticateLastConfidentialBlock();
      if status == Ok {
        state := AuthFooter;
      }
    }

    /** Encrypts or decrypts a piece of the message, whichever way the object goes, feeding
        the authenticator before or after. */
    method ProcessPiece(input: Bytes) returns (output: Bytes)
      requires Valid() && state in {AuthUntransformed, AuthTransformed}
      requires |input| <= MaxMessageLength(scheme, nonce) - totalMessageLength
      modifies this`bufferedDataLength, this`macInput, this`cbc, this`absorbed, buffer
      modifies this`totalMessageLength, this`streamPosition, this`session
      ensures Valid() && output == Crypt(scheme, nonce, |old(session.authenticated)|, input)
      ensures IsNonce(nonce) && CipheredByBytes(scheme, nonce, |old(session.authenticated)|, input, output)
      ensures session == old(session).(authenticated :=
        old(session.authenticated) + if scheme.OnPlaintext() == isForward then input else output)
    {
      hide InProgress, HeldAfter, Taken, DataOf, Lengths, CipheredByBytes, Crypt;
      Totals();
      output := Crypt(scheme, nonce, streamPosition, input);
      CryptIs(scheme, nonce, streamPosition, input, output);
      var piece := if state == AuthUntransformed then input else output;
      TakePiece(piece);
    }

    /** A piece of the message is authenticated, and its part of the key stream used up. */
    method TakePiece(piece: Bytes)
      requires Valid() && state in {AuthUntransformed, AuthTransformed}
      requires |piece| <= MaxMessageLength(scheme, nonce) - totalMessageLength
      modifies this`bufferedDataLength, this`macInput, this`cbc, this`absorbed, buffer
      modifies this`totalMessageLength, this`streamPosition, this`session
      ensures Valid() && session == old(session).(authenticated := old(session.authenticated) + piece)
    {
      hide InProgress, HeldAfter, Taken, Chain;
      BodyTakenIn(scheme, isForward, nonce, start, state, totalHeaderLength, totalMessageLength, totalFooterLength,
                  aadLength, messageLength, session, Fed(), piece);
      AuthenticateData(piece);
      totalMessageLength, streamPosition := totalMessageLength + |piece|, streamPosition + |piece|;
      session := session.(authenticated := session.authenticated + piece);
    }

    /** The additional data ends and the message begins. */
    method BeginBody() returns (status: Status)
      requires Valid() && state == IVSet
      modifies this`bufferedDataLength, this`macInput, this`cbc, this`absorbed, this`state
      ensures Valid()
      ensures status == if scheme.Ccm? && aadLength != totalHeaderLength then InvalidArgument else Ok
      ensures state == if status != Ok then IVSet
                       else if scheme.OnPlaintext() == isForward then AuthUntransformed else AuthTransformed
    {
      if !(scheme.Ccm? && aadLength != totalHeaderLength) {
        HeaderEnds(scheme, isForward, nonce, start, state, totalHeaderLength, totalMessageLength, totalFooterLength,
                   aadLength, messageLength, session, Fed());
      }
      status := AuthenticateLastHeaderBlock();
      if status == Ok {
        state := if scheme.OnPlaintext() == isForward then AuthUntransformed else AuthTransformed;
      }
    }

    /** A piece of the message is refused, but counted. */
    method Refuse(count: nat)
      requires Valid() && (scheme.ChaChaPoly? && HasIV(state) ==> state == AuthFooter)
      requires HasIV(state) ==> count <= MaxMessageLength(scheme, nonce) - totalMessageLength
      modifies this`totalMessageLength, this`session
      ensures Valid()
      ensures session == if HasIV(state) then old(session).(refused := old(session.refused) + count) else old(session)
    {
      hide InProgress, HeldAfter;
      if HasIV(state) {
        BodyRefused(scheme, isForward, nonce, start, state, totalHeaderLength, totalMessageLength, totalFooterLength,
                    aadLength, messageLength, session, Fed(), count);
        session := session.(refused := session.refused + count);
      }
      totalMessageLength := (totalMessageLength + count) % LWORD;
    }

    /** Encrypts or decrypts a piece of the message. The first call ends the additional data. */
    method ProcessData(input: Bytes) returns (status: Status, output: Bytes)
      requires Valid()
      modifies this`bufferedDataLength, this`macInput, this`cbc, this`absorbed, buffer
      modifies this`totalMessageLength, this`streamPosition, this`session, this`state
      ensures Valid()
      ensures status == if HasIV(old(state)) && |input| > MaxMessageLength(scheme, nonce) - old(totalMessageLength)
                          then InvalidArgument
                        else if !HasIV(old(state)) || old(state) == AuthFooter then BadState
                        else if old(state) == IVSet && scheme.Ccm?
                             && aadLength != totalHeaderLength then InvalidArgument
                        else Ok
      ensures state == if status != Ok then old(state)
                       else if scheme.OnPlaintext() == isForward then AuthUntransformed else AuthTransformed
      ensures status == Ok ==> output == Crypt(scheme, nonce, |old(session.authenticated)|, input)
      ensures status == Ok ==>
        IsNonce(nonce) && CipheredByBytes(scheme, nonce, |old(session.authenticated)|, input, output)
      ensures status == Ok ==> session == old(session).(authenticated :=
                old(session.authenticated) + if scheme.OnPlaintext() == isForward then input else output)
      ensures status != Ok ==>
        session == if HasIV(old(state)) && |input| <= MaxMessageLength(scheme, nonce) - old(totalMessageLength)
                   then old(session).(refused := old(session.refused) + |input|) else old(session)
    {
      hide InProgress, HeldAfter;
      output := [];
      if HasIV(state) && |input| > MaxMessageLength(scheme, nonce) - totalMessageLength {
        return InvalidArgument, [];
      }
      if !HasIV(state) || state == AuthFooter {
        Refuse(|input|);
        return BadState, [];
      }
      Forwards();
      if state == IVSet {
        status := BeginBody();
        if status != Ok {
          Refuse(|input|);
          return;
        }
      }
      output := ProcessPiece(input);
      status := Ok;
    }

    /** The state tells which form of the message is authenticated. */
    lemma Forwards()
      requires Valid() && HasIV(state)
      ensures state == AuthUntransformed ==> scheme.OnPlaintext() == isForward
      ensures state == AuthTransformed ==> scheme.OnPlaintext() != isForward
    {
      Totals();
    }

    /** The announced and the actual lengths differ, which only CCM notices. */
    ghost predicate Mismatch()
      reads this
    {
      scheme.Ccm? && (aadLength != totalHeaderLength || messageLength != totalMessageLength)
    }

    /** The tag of what has been fed in, cut to the wanted size. */
    method AuthenticateLastFooterBlock(macSize: nat) returns (mac: Bytes)
      requires BufferHolds() && scheme.AcceptsNonce(nonce) && macSize <= scheme.DigestSize()
      modifies this`macInput, this`absorbed
      ensures BufferHolds()
      ensures mac == Finish(scheme, nonce, start, old(absorbed), totalHeaderLength, totalMessageLength, macSize)
    {
      if scheme.ChaChaPoly? {
        var lengths := LittleEndian(totalHeaderLength, 8) + LittleEndian(totalMessageLength, 8);
        macInput := macInput + lengths;
        absorbed := absorbed + lengths;
        mac := scheme.poly(PolyKey(scheme, nonce), macInput)[..macSize];
      } else {
        mac := Xor(cbc[..macSize], FirstKey(scheme, nonce));
      }
    }

    /** A call that ends the additional data before it finds that the message has another length than
        was announced, and leaves it ended. */
    ghost predicate HeaderClosed(macSize: nat)
      reads this
    {
      && state == IVSet && macSize <= scheme.DigestSize() && totalFooterLength == 0
      && scheme.Ccm? && aadLength == totalHeaderLength && messageLength != totalMessageLength
    }

    /** Finishes the message and gives its tag, cut to the wanted size. */
    method TruncatedFinal(macSize: nat) returns (status: Status, mac: Bytes)
      requires Valid()
      modifies this`bufferedDataLength, this`macInput, this`cbc, this`absorbed, this`state
      ensures status == if macSize > scheme.DigestSize() || totalFooterLength > 0 then InvalidArgument
                        else if !HasIV(old(state)) then BadState
                        else if old(state) != AuthFooter && Mismatch() then InvalidArgument
                        else Ok
      ensures state == if status == Ok then KeySet else old(state)
      ensures !old(HeaderClosed(macSize)) ==> Valid()
      ensures old(HeaderClosed(macSize)) ==>
                BufferHolds() && bufferedDataLength == 0 && Fed() == Pad16(session.Header(scheme, nonce))
      ensures status == Ok ==>
                mac == Finish(scheme, nonce, start, Pad16(session.UpToBody(scheme, nonce)) + session.footer,
                              totalHeaderLength, totalMessageLength, macSize)
      ensures status == Ok && Orderly() && old(state) != AuthFooter
              && (scheme.Ccm? ==> |DataOf(session.history)| < LWORD) ==>
        IsTag(scheme, nonce, session, macSize, mac)
    {
      hide InProgress, Finish, IsTag, Pad16, HeldAfter, StandardHistory;
      mac := [];
      if macSize > scheme.DigestSize() || totalFooterLength > 0 {
        return InvalidArgument, [];
      }
      if !HasIV(state) {
        return BadState, [];
      }
      if Orderly() && state != AuthFooter && !Mismatch() && (scheme.Ccm? ==> |DataOf(session.history)| < LWORD) {
        OrderlyTag(macSize);
      }
      status, mac := FinishTag(macSize);
    }

    /** The tag of an orderly message is that of the standard. */
    lemma OrderlyTag(macSize: nat)
      requires Valid() && HasIV(state) && state != AuthFooter && Orderly() && !Mismatch() && macSize <= 16
      requires scheme.Ccm? ==> |DataOf(session.history)| < LWORD
      ensures scheme.AcceptsNonce(nonce)
      ensures IsTag(scheme, nonce, session, macSize,
                    Finish(scheme, nonce, start, Pad16(session.UpToBody(scheme, nonce)) + session.footer,
                           totalHeaderLength, totalMessageLength, macSize))
    {
      hide StandardHistory, Pad16, Finish, HeldAfter;
      var fed := Pad16(session.UpToBody(scheme, nonce));
      OrderlyIsComplete(scheme, isForward, nonce, start, state, totalHeaderLength, totalMessageLength,
                        totalFooterLength, aadLength, messageLength, session, Fed());
      FinishIsTag(scheme, nonce, start, session, fed, totalHeaderLength, macSize);
      Totals();
      assert session.footer == [] && fed + [] == fed;
    }

    /** The end of a message, from each state. */
    method FinishTag(macSize: nat) returns (status: Status, mac: Bytes)
      requires Valid() && HasIV(state) && macSize <= scheme.DigestSize() && totalFooterLength == 0
      modifies this`bufferedDataLength, this`macInput, this`cbc, this`absorbed, this`state
      ensures status == if old(state) != AuthFooter && Mismatch() then InvalidArgument else Ok
      ensures state == if status == Ok then KeySet else old(state)
      ensures !old(HeaderClosed(macSize)) ==> Valid()
      ensures old(HeaderClosed(macSize)) ==>
                BufferHolds() && bufferedDataLength == 0 && Fed() == Pad16(session.Header(scheme, nonce))
      ensures status == Ok ==>
                mac == Finish(scheme, nonce, start, Pad16(session.UpToBody(scheme, nonce)) + session.footer,
                              totalHeaderLength, totalMessageLength, macSize)
    {
      hide InProgress, HeldAfter, Pad16, Finish;
      mac := [];
      Totals();
      status := FinishParts();
      if status != Ok {
        return;
      }
      assert Fed() == absorbed;
      mac := AuthenticateLastFooterBlock(macSize);
      state := KeySet;
    }

    /** Ends the parts of the message that are still open. */
    method FinishParts() returns (status: Status)
      requires Valid() && HasIV(state) && totalFooterLength == 0
      modifies this`bufferedDataLength, this`macInput, this`cbc, this`absorbed
      ensures status == if state != AuthFooter && Mismatch() then InvalidArgument else Ok
      ensures BufferHolds()
      ensures status == Ok ==> bufferedDataLength == 0
      ensures status == Ok ==> Fed() == Pad16(session.UpToBody(scheme, nonce)) + session.footer
      ensures status != Ok && !old(HeaderClosed(0)) ==> Valid()
      ensures old(HeaderClosed(0)) ==> bufferedDataLength == 0 && Fed() == Pad16(session.Header(scheme, nonce))
    {
      hide Pad16, HeldAfter;
      Totals();
      if state == IVSet {
        status := AuthenticateLastHeaderBlock();
        if status != Ok {
          return;
        }
        assert session.UpToBody(scheme, nonce) == Pad16(session.Header(scheme, nonce));
      }
      if state != AuthFooter {
        status := AuthenticateLastConfidentialBlock();
        assert Pad16(session.UpToBody(scheme, nonce)) + [] == Pad16(session.UpToBody(scheme, nonce));
      } else {
        WholeFooter(session.UpToBody(scheme, nonce), session.footer, absorbed, Waiting());
        status := Ok;
      }
    }

    /** How a message starts: CCM is told its lengths. */
    ghost function Beginning(headerLength: nat, inputLength: nat): seq<Event> {
      if scheme.Ccm? then [Announced(headerLength, inputLength)] else []
    }

    /** A message has just been started. */
    ghost predicate JustOpened(headerLength: nat, inputLength: nat)
      reads this, buffer
    {
      && Valid() && state == IVSet && session == Session(Beginning(headerLength, inputLength), [], 0, [])
      && (scheme.Ccm? ==> aadLength == headerLength && messageLength == inputLength)
    }

    /** The start of a message: new nonce, and the lengths if they are wanted. */
    method Open(iv: Bytes, headerLength: nat, inputLength: nat) returns (status: Status)
      requires Valid() && headerLength < LWORD
      modifies this, buffer
      ensures status == Ok <==> Keyed(old(state)) && scheme.AcceptsNonce(iv) &&
                                (scheme.Ccm? ==> inputLength <= MaxMessageLength(scheme, iv))
      ensures status == Ok ==> JustOpened(headerLength, inputLength) && nonce == iv
    {
      hide InProgress, HeldAfter;
      status := Resynchronize(iv);
      if status == Ok && scheme.Ccm? {
        status := SpecifyDataLengths(headerLength, inputLength);
        assert [] + [Announced(headerLength, inputLength)] == [Announced(headerLength, inputLength)];
      }
    }

    /** After lengths and data in this order, the message is orderly. */
    lemma StartIsOrderly(headerLength: nat, inputLength: nat, pieces: seq<Bytes>)
      requires Valid() && HasIV(state) && session.refused == 0
      requires session.history == Beginning(headerLength, inputLength) + Givens(pieces)
      ensures Orderly() && DataOf(session.history) == Concat(pieces)
    {
      Totals();
      DataOfGivens(Beginning(headerLength, inputLength), pieces);
      if scheme.Ccm? {
        assert DataOf([Announced(headerLength, inputLength)]) == [] + [] == [];
        FirstIsStandard(nonce, session.history);
      }
      assert [] + Concat(pieces) == Concat(pieces);
    }

    /** A whole message but its end. */
    method RunMessage(iv: Bytes, header: Bytes, input: Bytes) returns (status: Status, output: Bytes)
      requires Valid() && |header| < LWORD && |input| < LWORD
      modifies this, buffer
      ensures status == Ok <==> Keyed(old(state)) && scheme.AcceptsNonce(iv) && |input| <= MaxMessageLength(scheme, iv)
      ensures status == Ok ==> Valid() && state in {AuthUntransformed, AuthTransformed} && Orderly() && nonce == iv
      ensures status == Ok ==> output == Crypt(scheme, iv, 0, input) && totalFooterLength == 0 && !Mismatch()
      ensures status == Ok ==> DataOf(session.history) == header
      ensures status == Ok ==> session.authenticated == if scheme.OnPlaintext() == isForward then input else output
    {
      hide InProgress, HeldAfter, StandardHistory;
      output := [];
      status := Open(iv, |header|, |input|);
      if status == Ok {
        status, output := Run(header, input);
        if status == Ok {
          OneGiven(header);
          StartIsOrderly(|header|, |input|, [header]);
        }
      }
    }

    /** Additional data and message, each in one call. */
    method Run(header: Bytes, input: Bytes) returns (status: Status, output: Bytes)
      requires JustOpened(|header|, |input|) && |header| < LWORD
      modifies this`bufferedDataLength, this`macInput, this`cbc, this`absorbed, buffer
      modifies this`totalHeaderLength, this`totalMessageLength, this`totalFooterLength, this`session, this`state
      modifies this`streamPosition
      ensures status == Ok <==> |input| <= MaxMessageLength(scheme, nonce)
      ensures status == Ok ==> Valid() && state in {AuthUntransformed, AuthTransformed}
      ensures status == Ok ==> output == Crypt(scheme, nonce, 0, input) && totalFooterLength == 0 && !Mismatch()
      ensures status == Ok ==> session == Session(Beginning(|header|, |input|) + [Given(header)],
                if scheme.OnPlaintext() == isForward then input else output, 0, [])
    {
      hide InProgress, HeldAfter, CipheredByBytes, Crypt, MaxMessageLength, DataOf;
      status := Update(header);
      HeaderGiven(|header|, |input|, header);
      Totals();
      assert totalMessageLength == 0 && (scheme.Ccm? ==> aadLength == totalHeaderLength);
      status, output := ProcessData(input);
      if status == Ok {
        CryptLength(scheme, nonce, 0, input);
        Totals();
      }
      assert [] + input == input && [] + output == output;
    }

    lemma HeaderGiven(headerLength: nat, inputLength: nat, header: Bytes)
      ensures DataOf(Beginning(headerLength, inputLength) + [Given(header)]) == header
    {
      OneGiven(header);
      DataOfGivens(Beginning(headerLength, inputLength), [header]);
      NoDataYet(headerLength, inputLength);
    }

    lemma NoDataYet(headerLength: nat, inputLength: nat)
      ensures DataOf(Beginning(headerLength, inputLength)) == []
    {
      assert scheme.Ccm? ==> DataOf([Announced(headerLength, inputLength)]) == [] + [];
    }

    method EncryptAndAuthenticate(macSize: nat, iv: Bytes, header: Bytes, message: Bytes)
      returns (status: Status, ciphertext: Bytes, mac: Bytes)
      requires Valid() && isForward && |header| < LWORD && |message| < LWORD
      modifies this, buffer
      ensures status == Ok <==> Keyed(old(state)) && scheme.AcceptsNonce(iv) &&
                                |message| <= MaxMessageLength(scheme, iv) && macSize <= scheme.DigestSize()
      ensures status == Ok ==> Sealed(scheme, iv, header, message, ciphertext, macSize, mac)
      ensures status == Ok ==> |mac| == macSize && SealedByBytes(scheme, iv, header, message, ciphertext, mac)
    {
      hide SealedByBytes;
      mac := [];
      status, ciphertext := RunMessage(iv, header, message);
      if status == Ok {
        status, mac := TruncatedFinal(macSize);
        if status == Ok {
          SealedIsByBytes(scheme, iv, header, message, ciphertext, macSize, mac);
        }
      }
    }

    method DecryptAndVerify(mac: Bytes, iv: Bytes, header: Bytes, ciphertext: Bytes)
      returns (status: Status, message: Bytes, verified: bool)
      requires Valid() && !isForward && |header| < LWORD && |ciphertext| < LWORD
      modifies this, buffer
      ensures status == Ok <==> Keyed(old(state)) && scheme.AcceptsNonce(iv) &&
                                |ciphertext| <= MaxMessageLength(scheme, iv) && |mac| <= scheme.DigestSize()
      ensures status == Ok ==> |message| == |ciphertext|
      ensures status == Ok ==> (verified <==> Sealed(scheme, iv, header, message, ciphertext, |mac|, mac))
      ensures status == Ok ==> message == Crypt(scheme, iv, 0, ciphertext)
      ensures status == Ok ==> CipheredByBytes(scheme, iv, 0, ciphertext, message)
      ensures status == Ok ==> (verified <==> SealedByBytes(scheme, iv, header, message, ciphertext, mac))
    {
      hide SealedByBytes, CipheredByBytes, Crypt;
      verified := false;
      status, message := RunMessage(iv, header, ciphertext);
      if status == Ok {
        var calculated;
        status, calculated := TruncatedFinal(|mac|);
        verified := status == Ok && calculated == mac;
        CryptTwice(scheme, iv, 0, ciphertext);
        CryptIs(scheme, iv, 0, ciphertext, message);
        if status == Ok {
          SealedIsByBytes(scheme, iv, header, message, ciphertext, |mac|, mac);
        }
      }
    }

    // ---- Messages in pieces ------------------------------------------------------------

    /** Additional data in any pieces. */
    method UpdateAll(pieces: seq<Bytes>)
      requires Valid() && state == IVSet
      modifies this`bufferedDataLength, this`macInput, this`cbc, this`absorbed, buffer
      modifies this`totalHeaderLength, this`totalFooterLength, this`session, this`state
      ensures Valid() && state == IVSet
      ensures session == old(session).(history := old(session.history) + Givens(pieces))
    {
      hide InProgress, HeldAfter;
      ghost var start := session;
      assert start.history + Givens(pieces[..0]) == start.history;
      for i := 0 to |pieces|
        invariant Valid() && state == IVSet
        invariant session == start.(history := start.history + Givens(pieces[..i]))
      {
        var status := Update(pieces[i]);
        assert start.history + Givens(pieces[..i]) + [Given(pieces[i])] == start.history + Givens(pieces[..i + 1]);
      }
      assert pieces[..|pieces|] == pieces;
    }

    /** The next piece of a message of which `done` has been processed. */
    method ProcessNext(piece: Bytes, ghost start: Session, ghost done: Bytes, ghost output: Bytes)
      returns (status: Status, more: Bytes)
      requires Valid() && HasIV(state) && state != AuthFooter && session.refused == 0
      requires state == IVSet && scheme.Ccm? ==> aadLength == totalHeaderLength
      requires Processed(scheme, nonce, scheme.OnPlaintext() == isForward, start, session, done, output)
      modifies this`bufferedDataLength, this`macInput, this`cbc, this`absorbed, buffer
      modifies this`totalMessageLength, this`streamPosition, this`session, this`state
      ensures status == Ok <==> |done + piece| <= MaxMessageLength(scheme, nonce)
      ensures status == Ok ==> Valid() && state in {AuthUntransformed, AuthTransformed} && session.refused == 0
      ensures status == Ok ==> Processed(scheme, nonce, scheme.OnPlaintext() == isForward, start, session,
                                         done + piece, output + more)
    {
      hide InProgress, HeldAfter, Processed;
      ghost var before, plain := session, scheme.OnPlaintext() == isForward;
      Totals();
      ProcessedLength(scheme, nonce, plain, start, before, done, output);
      status, more := ProcessData(piece);
      if status == Ok {
        ProcessedNext(scheme, nonce, plain, start, before, done, output, piece, more);
      }
    }

    /** A message in any pieces. */
    method ProcessAll(pieces: seq<Bytes>) returns (status: Status, output: Bytes)
      requires Valid() && HasIV(state) && state != AuthFooter && session.authenticated == [] && session.refused == 0
      requires state == IVSet && scheme.Ccm? ==> aadLength == totalHeaderLength
      modifies this`bufferedDataLength, this`macInput, this`cbc, this`absorbed, buffer
      modifies this`totalMessageLength, this`streamPosition, this`session, this`state
      ensures status == Ok <==> |Concat(pieces)| <= MaxMessageLength(scheme, nonce)
      ensures status == Ok ==> Valid() && HasIV(state) && state != AuthFooter
      ensures status == Ok ==> output == Crypt(scheme, nonce, 0, Concat(pieces))
      ensures status == Ok ==>
        session == old(session).(authenticated := if scheme.OnPlaintext() == isForward then Concat(pieces) else output)
    {
      ghost var done, start := [], session;
      assert [] + Concat(pieces) == Concat(pieces);
      output := [];
      for i := 0 to |pieces|
        invariant Valid() && HasIV(state) && state != AuthFooter && session.refused == 0
        invariant state == IVSet && scheme.Ccm? ==> aadLength == totalHeaderLength
        invariant Processed(scheme, nonce, scheme.OnPlaintext() == isForward, start, session, done, output)
        invariant done + Concat(pieces[i..]) == Concat(pieces)
      {
        NextPiece(done, pieces, i);
        var more;
        status, more := ProcessNext(pieces[i], start, done, output);
        if status != Ok {
          return;
        }
        done, output := done + pieces[i], output + more;
      }
      assert done == Concat(pieces);
      ProcessedLength(scheme, nonce, scheme.OnPlaintext() == isForward, start, session, done, output);
      status := Ok;
    }

    /** A whole message but its end, header and body each in any pieces. */
    method RunPieces(iv: Bytes, headers: seq<Bytes>, pieces: seq<Bytes>) returns (status: Status, output: Bytes)
      requires Valid() && |Concat(headers)| < LWORD && |Concat(pieces)| < LWORD
      modifies this, buffer
      ensures status == Ok <==>
              Keyed(old(state)) && scheme.AcceptsNonce(iv) && |Concat(pieces)| <= MaxMessageLength(scheme, iv)
      ensures status == Ok ==> Valid() && HasIV(state) && state != AuthFooter && Orderly() && nonce == iv
      ensures status == Ok ==> output == Crypt(scheme, iv, 0, Concat(pieces)) && totalFooterLength == 0 && !Mismatch()
      ensures status == Ok ==> DataOf(session.history) == Concat(headers)
      ensures status == Ok ==>
        session.authenticated == if scheme.OnPlaintext() == isForward then Concat(pieces) else output
    {
      output := [];
      status := Open(iv, |Concat(headers)|, |Concat(pieces)|);
      if status == Ok {
        status, output := RunAll(headers, pieces);
        if status == Ok {
          StartIsOrderly(|Concat(headers)|, |Concat(pieces)|, headers);
        }
      }
    }

    /** Additional data and message, each in any pieces. */
    method RunAll(headers: seq<Bytes>, pieces: seq<Bytes>) returns (status: Status, output: Bytes)
      requires JustOpened(|Concat(headers)|, |Concat(pieces)|) && |Concat(headers)| < LWORD
      modifies this`bufferedDataLength, this`macInput, this`cbc, this`absorbed, buffer
      modifies this`totalHeaderLength, this`totalMessageLength, this`totalFooterLength, this`session, this`state
      modifies this`streamPosition
      ensures status == Ok <==> |Concat(pieces)| <= MaxMessageLength(scheme, nonce)
      ensures status == Ok ==> Valid() && HasIV(state) && state != AuthFooter
      ensures status == Ok ==>
        output == Crypt(scheme, nonce, 0, Concat(pieces)) && totalFooterLength == 0 && !Mismatch()
      ensures status == Ok ==> session == Session(Beginning(|Concat(headers)|, |Concat(pieces)|) + Givens(headers),
                if scheme.OnPlaintext() == isForward then Concat(pieces) else output, 0, [])
    {
      hide InProgress, HeldAfter;
      UpdateAll(headers);
      DataOfGivens(Beginning(|Concat(headers)|, |Concat(pieces)|), headers);
      NoDataYet(|Concat(headers)|, |Concat(pieces)|);
      Totals();
      status, output := ProcessAll(pieces);
      if status == Ok {
        Totals();
      }
    }

    /** Sealing in pieces: ciphertext and tag are those of the whole message. */
    method SealPieces(macSize: nat, iv: Bytes, headers: seq<Bytes>, pieces: seq<Bytes>)
      returns (status: Status, ciphertext: Bytes, mac: Bytes)
      requires Valid() && isForward && |Concat(headers)| < LWORD && |Concat(pieces)| < LWORD
      modifies this, buffer
      ensures status == Ok <==> Keyed(old(state)) && scheme.AcceptsNonce(iv) &&
                                |Concat(pieces)| <= MaxMessageLength(scheme, iv) && macSize <= scheme.DigestSize()
      ensures status == Ok ==> Sealed(scheme, iv, Concat(headers), Concat(pieces), ciphertext, macSize, mac)
      ensures status == Ok ==>
        |mac| == macSize && SealedByBytes(scheme, iv, Concat(headers), Concat(pieces), ciphertext, mac)
    {
      hide SealedByBytes;
      mac := [];
      status, ciphertext := RunPieces(iv, headers, pieces);
      if status == Ok {
        status, mac := TruncatedFinal(macSize);
        if status == Ok {
          SealedIsByBytes(scheme, iv, Concat(headers), Concat(pieces), ciphertext, macSize, mac);
        }
      }
    }

    /** Opening in pieces: exactly the tag of the whole message is accepted. */
    method OpenPieces(mac: Bytes, iv: Bytes, headers: seq<Bytes>, pieces: seq<Bytes>)
      returns (status: Status, message: Bytes, verified: bool)
      requires Valid() && !isForward && |Concat(headers)| < LWORD && |Concat(pieces)| < LWORD
      modifies this, buffer
      ensures status == Ok <==> Keyed(old(state)) && scheme.AcceptsNonce(iv) &&
                                |Concat(pieces)| <= MaxMessageLength(scheme, iv) && |mac| <= scheme.DigestSize()
      ensures status == Ok ==> message == Crypt(scheme, iv, 0, Concat(pieces))
      ensures status == Ok ==> (verified <==> Sealed(scheme, iv, Concat(headers), message, Concat(pieces), |mac|, mac))
      ensures status == Ok ==> CipheredByBytes(scheme, iv, 0, Concat(pieces), message)
      ensures status == Ok ==>
        (verified <==> SealedByBytes(scheme, iv, Concat(headers), message, Concat(pieces), mac))
    {
      hide SealedByBytes, CipheredByBytes, Crypt;
      verified := false;
      status, message := RunPieces(iv, headers, pieces);
      if status == Ok {
        var calculated;
        status, calculated := TruncatedFinal(|mac|);
        verified := status == Ok && calculated == mac;
        CryptTwice(scheme, iv, 0, Concat(pieces));
        CryptIs(scheme, iv, 0, Concat(pieces), message);
        if status == Ok {
          SealedIsByBytes(scheme, iv, Concat(headers), message, Concat(pieces), |mac|, mac);
        }
      }
    }
  }

  // ---- The buffer and its history ----------------------------------------------------------

  lemma AnnouncedHeld(nonce: Bytes, session: Session, headerLength: nat, messageLength: nat, scheme: Scheme)
    requires scheme.Ccm? && scheme.WellFormed() && IsNonce(nonce)
    ensures var next := session.Having(Announced(headerLength, messageLength));
            && HeldAfter(nonce, next.history) == Lengthened(HeldAfter(nonce, session.history), headerLength)
            && next.Header(scheme, nonce) == Opening(scheme.tagSize, Field(nonce, session.history), headerLength,
                                                     messageLength) + Kept(nonce, session.history, headerLength)
  {
    var next := session.Having(Announced(headerLength, messageLength)).history;
    assert next[..|next| - 1] == session.history;
  }

  lemma GivenHeld(nonce: Bytes, session: Session, input: Bytes)
    requires IsNonce(nonce)
    ensures HeldAfter(nonce, session.Having(Given(input)).history) == Taken(HeldAfter(nonce, session.history), input)
  {
    var next := session.Having(Given(input)).history;
    assert next[..|next| - 1] == session.history;
  }

  /** The two ways through the code that feeds data. */
  lemma CompletedTaken(was: Bytes, num: nat, input: Bytes)
    requires |was| == 16 && 0 < num < 16 && num + |input| >= 16
    ensures Taken(Held(was, num), input) == LeftOver(was[..num] + input[..16 - num], input[16 - num..])
  {
  }

  lemma StartedTaken(was: Bytes, input: Bytes)
    requires |was| == 16
    ensures Taken(Held(was, 0), input) == LeftOver(was, input)
  {
    if |input| < 16 {
      assert was[..0] + input == input && input[|input| - |input|..] == input;
    } else {
      assert was[..16] + input[..0] == was && input[0..] == input;
    }
  }

  /** Additional data in pieces. */
  function Givens(pieces: seq<Bytes>): (events: seq<Event>)
    ensures |events| == |pieces|
  {
    seq(|pieces|, i requires 0 <= i < |pieces| => Given(pieces[i]))
  }

  lemma OneGiven(data: Bytes)
    ensures Givens([data]) == [Given(data)]
  {
  }

  lemma NextGiven(history: seq<Event>, pieces: seq<Bytes>, i: nat)
    requires i < |pieces|
    ensures DataOf(history + Givens(pieces[..i + 1])) == DataOf(history + Givens(pieces[..i])) + pieces[i]
  {
    var next := history + Givens(pieces[..i + 1]);
    assert next[..|next| - 1] == history + Givens(pieces[..i]) && next[|next| - 1] == Given(pieces[i]);
  }

  lemma DataOfGivens(history: seq<Event>, pieces: seq<Bytes>)
    ensures DataOf(history + Givens(pieces)) == DataOf(history) + Concat(pieces)
  {
    hide DataOf;
    var i := 0;
    assert history + Givens(pieces[..0]) == history;
    while i < |pieces|
      invariant i <= |pieces|
      invariant DataOf(history + Givens(pieces[..i])) + Concat(pieces[i..]) == DataOf(history) + Concat(pieces)
    {
      NextGiven(history, pieces, i);
      NextPiece(DataOf(history + Givens(pieces[..i])), pieces, i);
      i := i + 1;
    }
    assert pieces[..i] == pieces && pieces[i..] == [];
    assert DataOf(history + Givens(pieces)) + [] == DataOf(history + Givens(pieces));
  }

  /** How far a message that comes in pieces has been processed. */
  ghost predicate Processed(scheme: Scheme, nonce: Bytes, plain: bool, start: Session, now: Session, done: Bytes,
                            output: Bytes)
  {
    && 7 <= |nonce| <= 13 && output == Crypt(scheme, nonce, 0, done)
    && now == start.(authenticated := if plain then done else output)
  }

  lemma ProcessedLength(scheme: Scheme, nonce: Bytes, plain: bool, start: Session, now: Session, done: Bytes,
                        output: Bytes)
    requires Processed(scheme, nonce, plain, start, now, done, output)
    ensures |now.authenticated| == |done| == |output|
  {
  }

  lemma ProcessedNext(scheme: Scheme, nonce: Bytes, plain: bool, start: Session, now: Session, done: Bytes,
                      output: Bytes, piece: Bytes, more: Bytes)
    requires Processed(scheme, nonce, plain, start, now, done, output)
    requires more == Crypt(scheme, nonce, |now.authenticated|, piece)
    ensures Processed(scheme, nonce, plain, start,
                      now.(authenticated := now.authenticated + if plain then piece else more),
                      done + piece, output + more)
  {
    ProcessedLength(scheme, nonce, plain, start, now, done, output);
    CryptConcat(scheme, nonce, 0, done, piece);
  }

  /** A message, its ciphertext and its tag belong together. */
  ghost predicate Sealed(scheme: Scheme, nonce: Bytes, aad: Bytes, message: Bytes, ciphertext: Bytes, macSize: nat,
                         mac: Bytes)
  {
    && scheme.WellFormed() && scheme.AcceptsNonce(nonce) && macSize <= 16
    && ciphertext == Crypt(scheme, nonce, 0, message)
    && mac == Tag(scheme, nonce, aad, if scheme.OnPlaintext() then message else ciphertext)[..macSize]
  }

  /** The same byte by byte. */
  ghost predicate SealedByBytes(scheme: Scheme, iv: Bytes, aad: Bytes, message: Bytes, ciphertext: Bytes, mac: Bytes)
    requires scheme.WellFormed() && scheme.AcceptsNonce(iv)
  {
    && |mac| <= 16 && CipheredByBytes(scheme, iv, 0, message, ciphertext)
    && match scheme
       case ChaChaPoly(_, poly) =>
         exists key: Bytes :: IsPolyKey(scheme, iv, key) && mac == poly(key, PolyTranscript(aad, ciphertext))[..|mac|]
       case Ccm(cipher, _, tagSize) =>
         MaskedByBytes(scheme, iv, Chain(cipher, Zeros(16), CcmTranscript(tagSize, iv, aad, message)), mac)
  }

  lemma MaskIs(scheme: Scheme, iv: Bytes, chained: Block, mac: Bytes)
    requires scheme.Ccm? && IsNonce(iv) && |mac| <= 16
    ensures mac == Xor(chained, FirstKey(scheme, iv))[..|mac|] <==> MaskedByBytes(scheme, iv, chained, mac)
  {
    CounterBlockIs(iv);
    var key := FirstKey(scheme, iv);
    if MaskedByBytes(scheme, iv, chained, mac) {
      forall i: nat | i < |mac| ensures mac[i] == Xor(chained, key)[i] {
        assert MaskedAt(scheme, iv, chained[i], mac[i], i);
      }
    }
  }

  lemma OneKey(scheme: Scheme, iv: Bytes)
    requires scheme.ChaChaPoly?
    ensures forall key: Bytes :: IsPolyKey(scheme, iv, key) <==> key == PolyKey(scheme, iv)
  {
    forall key: Bytes ensures IsPolyKey(scheme, iv, key) <==> key == PolyKey(scheme, iv) {
      PolyKeyIs(scheme, iv, key);
    }
  }

  lemma SealedIsByBytes(scheme: Scheme, iv: Bytes, aad: Bytes, message: Bytes, ciphertext: Bytes, macSize: nat,
                        mac: Bytes)
    requires scheme.WellFormed() && scheme.AcceptsNonce(iv) && macSize <= 16
    ensures Sealed(scheme, iv, aad, message, ciphertext, macSize, mac)
       <==> |mac| == macSize && SealedByBytes(scheme, iv, aad, message, ciphertext, mac)
  {
    hide Crypt, Chain, CcmTranscript, PolyTranscript, CipheredByBytes, MaskedByBytes, FirstKey;
    CryptIs(scheme, iv, 0, message, ciphertext);
    if scheme.ChaChaPoly? {
      OneKey(scheme, iv);
    } else if |mac| <= 16 {
      MaskIs(scheme, iv, Chain(scheme.cipher, Zeros(16), CcmTranscript(scheme.tagSize, iv, aad, message)), mac);
    }
  }

  /** Two counter streams give the same byte. */
  ghost predicate AgreeAt(scheme: Scheme, other: Scheme, c: Block, n: nat)
    requires scheme.Ccm? && other.Ccm?
  {
    scheme.counterStream(c, n) == other.counterStream(c, n)
  }

  ghost predicate StreamsAgreeAt(scheme: Scheme, other: Scheme, iv: Bytes, n: nat)
    requires scheme.ChaChaPoly? && other.ChaChaPoly?
  {
    scheme.stream(iv, n) == other.stream(iv, n)
  }

  /** The one-time key lies in front of all that the message takes: streams that agree from position 64 on give
      the same ciphertexts. */
  lemma CipherTakesNextBlock(scheme: Scheme, other: Scheme, iv: Bytes, input: Bytes, output: Bytes)
    requires scheme.ChaChaPoly? && other.ChaChaPoly? && IsNonce(iv) && CipheredByBytes(scheme, iv, 0, input, output)
    requires forall n: nat :: n >= 64 ==> StreamsAgreeAt(scheme, other, iv, n)
    ensures CipheredByBytes(other, iv, 0, input, output)
  {
    forall i: nat | i < |input| ensures CipheredAt(other, iv, input[i], output[i], 0 + i) {
      assert CipheredAt(scheme, iv, input[i], output[i], 0 + i);
      assert StreamsAgreeAt(scheme, other, iv, 64 + i);
    }
  }

  /** The key stream that hides the tag lies in front of all that the message takes: streams that agree from
      position 16 on give the same ciphertexts. */
  lemma CipherTakesLater(scheme: Scheme, other: Scheme, iv: Bytes, input: Bytes, output: Bytes)
    requires scheme.Ccm? && other.Ccm? && IsNonce(iv) && CipheredByBytes(scheme, iv, 0, input, output)
    requires forall c: Block, n: nat :: n >= 16 ==> AgreeAt(scheme, other, c, n)
    ensures CipheredByBytes(other, iv, 0, input, output)
  {
    hide FirstCounter;
    forall i: nat | i < |input| ensures CipheredAt(other, iv, input[i], output[i], 0 + i) {
      assert CipheredAt(scheme, iv, input[i], output[i], 0 + i);
      assert AgreeAt(scheme, other, FirstCounter(iv), 16 + (0 + i));
    }
  }

  /** And streams that agree in front of it give the same tags. */
  lemma MaskTakesFirst(scheme: Scheme, other: Scheme, iv: Bytes, chained: Block, mac: Bytes)
    requires scheme.Ccm? && other.Ccm? && IsNonce(iv) && MaskedByBytes(scheme, iv, chained, mac)
    requires forall c: Block, n: nat :: n < 16 ==> AgreeAt(scheme, other, c, n)
    ensures MaskedByBytes(other, iv, chained, mac)
  {
    hide FirstCounter;
    forall i: nat | i < |mac| ensures MaskedAt(other, iv, chained[i], mac[i], i) {
      assert MaskedAt(scheme, iv, chained[i], mac[i], i);
      assert AgreeAt(scheme, other, FirstCounter(iv), i);
    }
  }

  /** What was sealed opens: the message comes back, and its tag is the only one accepted. */
  method SealThenOpen(encryptor: AuthenticatedCipher, decryptor: AuthenticatedCipher,
                      macSize: nat, iv: Bytes, header: Bytes, message: Bytes, otherMac: Bytes)
    returns (plaintext: Bytes, accepted: bool)
    requires encryptor.Valid() && encryptor.isForward && Keyed(encryptor.state)
    requires decryptor.Valid() && !decryptor.isForward && Keyed(decryptor.state)
    requires encryptor.scheme == decryptor.scheme && encryptor.buffer != decryptor.buffer
    requires encryptor.scheme.AcceptsNonce(iv) && macSize <= encryptor.scheme.DigestSize()
    requires |message| <= MaxMessageLength(encryptor.scheme, iv)
    requires |header| < LWORD && |message| < LWORD && |otherMac| == macSize
    modifies encryptor, encryptor.buffer, decryptor, decryptor.buffer
    ensures plaintext == message
    ensures accepted <==>
              Sealed(encryptor.scheme, iv, header, message, Crypt(encryptor.scheme, iv, 0, message), macSize, otherMac)
  {
    var status, ciphertext, mac := encryptor.EncryptAndAuthenticate(macSize, iv, header, message);
    CryptTwice(encryptor.scheme, iv, 0, message);
    var status2;
    status2, plaintext, accepted := decryptor.DecryptAndVerify(otherMac, iv, header, ciphertext);
  }

  /** The tag is that of the additional data and the authenticated message, cut to size. */
  ghost predicate IsTag(scheme: Scheme, nonce: Bytes, session: Session, macSize: nat, mac: Bytes) {
    && scheme.WellFormed() && scheme.AcceptsNonce(nonce) && macSize <= 16
    && mac == Tag(scheme, nonce, DataOf(session.history), session.authenticated)[..macSize]
  }

  /** The key stream in front of the message's, which hides the chaining value. */
  function FirstKey(scheme: Scheme, nonce: Bytes): (key: Bytes)
    requires scheme.Ccm? && 7 <= |nonce| <= 13
    ensures |key| == 16
  {
    seq(16, i requires 0 <= i => scheme.counterStream(CounterBlock(nonce), i))
  }

  /** The one-time key of the authenticator: half of the block in front of the message's. */
  function PolyKey(scheme: Scheme, nonce: Bytes): Bytes
    requires scheme.ChaChaPoly?
  {
    seq(32, i requires 0 <= i => scheme.stream(nonce, i))
  }

  /** How the authenticator ends. */
  function Finish(scheme: Scheme, nonce: Bytes, start: Block, fed: Bytes, headerLength: nat, messageLength: nat,
                  macSize: nat): Bytes
    requires scheme.AcceptsNonce(nonce) && macSize <= 16
  {
    match scheme
    case ChaChaPoly(_, poly) =>
      poly(PolyKey(scheme, nonce), fed + (LittleEndian(headerLength, 8) + LittleEndian(messageLength, 8)))[..macSize]
    case Ccm(cipher, _, _) =>
      Xor(Chain(cipher, start, fed)[..macSize], FirstKey(scheme, nonce))
  }

  /** Everything but the end of the message has been fed in, in the lengths announced and in an order that
      the standard knows. */
  ghost predicate Complete(scheme: Scheme, nonce: Bytes, start: Block, session: Session, fed: Bytes,
                           headerLength: nat) {
    && scheme.WellFormed() && scheme.AcceptsNonce(nonce)
    && fed == Pad16(session.UpToBody(scheme, nonce)) && headerLength == |DataOf(session.history)| % LWORD
    && (scheme.Ccm? ==>
          && start == Zeros(16) && StandardHistory(nonce, session.history)
          && Lengths(session.history) == (headerLength, |session.authenticated|))
  }

  /** Fed with the padded message, the authenticator ends with the tag of the standards. */
  lemma FinishIsTag(scheme: Scheme, nonce: Bytes, start: Block, session: Session, fed: Bytes, headerLength: nat,
                    macSize: nat)
    requires Complete(scheme, nonce, start, session, fed, headerLength) && macSize <= 16
    requires scheme.Ccm? ==> |DataOf(session.history)| < LWORD
    ensures IsTag(scheme, nonce, session, macSize,
                  Finish(scheme, nonce, start, fed, headerLength, |session.authenticated|, macSize))
  {
    if scheme.Ccm? {
      FinishIsCcmTag(scheme, nonce, start, session, fed, headerLength, macSize);
    } else {
      FedIsPolyTranscript(scheme, nonce, session, fed, headerLength);
    }
  }

  lemma FinishIsCcmTag(scheme: Scheme, nonce: Bytes, start: Block, session: Session, fed: Bytes, headerLength: nat,
                       macSize: nat)
    requires Complete(scheme, nonce, start, session, fed, headerLength) && macSize <= 16
    requires scheme.Ccm? && |DataOf(session.history)| < LWORD
    ensures IsTag(scheme, nonce, session, macSize,
                  Finish(scheme, nonce, start, fed, headerLength, |session.authenticated|, macSize))
  {
    hide StandardHistory, Pad16, CcmHeader, Opening, Chain;
    SmallRemainder(|DataOf(session.history)|, LWORD);
    HeaderIsStandard(scheme.tagSize, nonce, session.history);
    CutXor(Chain(scheme.cipher, Zeros(16), fed), FirstKey(scheme, nonce), macSize);
  }

  lemma FedIsPolyTranscript(scheme: Scheme, nonce: Bytes, session: Session, fed: Bytes, headerLength: nat)
    requires scheme.ChaChaPoly? && fed == Pad16(session.UpToBody(scheme, nonce))
    requires headerLength == |DataOf(session.history)| % LWORD
    ensures fed + (LittleEndian(headerLength, 8) + LittleEndian(|session.authenticated|, 8))
         == PolyTranscript(DataOf(session.history), session.authenticated)
  {
    hide LittleEndian;
    LittleEndianCounter(|DataOf(session.history)|);
  }

  lemma CutXor(a: Block, b: Bytes, size: nat)
    requires |b| == 16 && size <= 16
    ensures Xor(a[..size], b) == Xor(a, b)[..size]
  {
  }

  lemma WrapSum(a: nat, b: nat)
    ensures (a % LWORD + b) % LWORD == (a + b) % LWORD
  {
  }

  lemma PadHeld(whole: Bytes, held: Bytes)
    requires |whole| % 16 == 0 && |held| < 16
    ensures Pad16(whole + held) == if held == [] then whole else whole + (held + Zeros(16 - |held|))
  {
    assert PadLength(|whole + held|) == if held == [] then 0 else 16 - |held|;
    assert whole + [] == whole && Zeros(0) == [];
    assert whole + held + Zeros(16 - |held|) == whole + (held + Zeros(16 - |held|));
  }

  /** Chaining the bytes that wait as they are is chaining them padded. */
  lemma ChainHeld(cipher: Block -> Block, start: Block, cbc: Block, whole: Bytes, held: Bytes)
    requires |whole| % 16 == 0 && |held| < 16 && cbc == Chain(cipher, start, whole)
    ensures |Pad16(whole + held)| % 16 == 0 && |Xor(held, cbc) + cbc[|held|..]| == 16
    ensures Chain(cipher, start, Pad16(whole + held))
         == if held == [] then cbc else cipher(Xor(held, cbc) + cbc[|held|..])
  {
    PadHeld(whole, held);
    if held != [] {
      var padded := held + Zeros(16 - |held|);
      XorPadded(cbc, held);
      ChainOne(cipher, cbc, padded);
      ChainConcat(cipher, start, whole, padded);
    }
  }

  /** The first block, put together in place: flags, an eight-byte length, and then what the data buffer
      holds in the place of the nonce, over the length's upper bytes. */
  method FormatFirstBlock(tagSize: nat, buffer: array<bv8>, nonceLength: nat, headerLength: nat, messageLength: nat,
                          cbc: Block)
    returns (b: Block)
    requires buffer.Length == 16 && 7 <= nonceLength <= 13 && tagSize >= 2
    ensures b == FirstBlock(tagSize, buffer[1..1 + nonceLength], headerLength, messageLength)
  {
    var L := 15 - nonceLength;
    var flags := Byte((if headerLength > 0 then 64 else 0) + 8 * ((tagSize - 2) / 2) + (L - 1));
    BigEndianSuffix(messageLength, 8, L);
    ghost var length := BigEndian(messageLength, 8);
    var bytes := [flags] + cbc[1..8] + BigEndian(messageLength, 8);
    assert bytes[1 + nonceLength..] == length[8 - L..];
    b := [bytes[0]] + buffer[1..1 + nonceLength] + bytes[1 + nonceLength..];
  }

  lemma FirstBlockChained(cipher: Block -> Block, b: Block)
    ensures Chain(cipher, Zeros(16), b) == cipher(b)
  {
    ChainOne(cipher, Zeros(16), b);
    assert Xor(Zeros(16), b) == b;
  }

  /** Combining only the first bytes is combining with zeros after them. */
  lemma XorPadded(x: Block, s: Bytes)
    requires |s| <= 16
    ensures Xor(s, x) + x[|s|..] == Xor(x, s + Zeros(16 - |s|))
  {
  }
}
