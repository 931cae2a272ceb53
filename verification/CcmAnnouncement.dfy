/** CCM under every order of announcing lengths and giving data: the tag that comes out, and when it is
    the tag of the standard. The source checks only that a nonce is set, and that the lengths announced
    last are those of all that was given. */
module CcmAnnouncements {
  import opened AuthenticatedEncryption
  import opened ByteStrings
  import opened CcmHistories

  // ---- The tag that comes out --------------------------------------------------------------

  /** Chained from `start`: the header, which an announcement starts anew, and the message. */
  ghost function TagOver(scheme: Scheme, nonce: Bytes, start: Block, history: seq<Event>, message: Bytes): Block
    requires scheme.Ccm? && scheme.WellFormed() && IsNonce(nonce)
  {
    var header := Pad16(CcmHeader(scheme.tagSize, nonce, history));
    Xor(Chain(scheme.cipher, start, Pad16(header + message)), FirstKey(scheme, nonce))
  }

  predicate Announceable(scheme: Scheme, nonce: Bytes, e: Event) {
    e.Announced? ==> e.messageLength <= MaxMessageLength(scheme, nonce)
  }

  predicate Words(history: seq<Event>) {
    forall i :: 0 <= i < |history| && history[i].Announced? ==> history[i].headerLength < LWORD
  }

  /** The lengths announced last are those given, and no message length was too long. */
  ghost predicate Accepted(scheme: Scheme, nonce: Bytes, history: seq<Event>, message: Bytes) {
    && |message| <= MaxMessageLength(scheme, nonce)
    && Lengths(history) == (|DataOf(history)|, |message|)
    && forall i :: 0 <= i < |history| ==> Announceable(scheme, nonce, history[i])
  }

  /** A nonce, then any calls before the message, the message and the end. Without any announcement the
      chaining goes on from the message before. */
  method RunHistory(c: AuthenticatedCipher, iv: Bytes, history: seq<Event>, message: Bytes, macSize: nat)
    returns (status: Status, mac: Bytes)
    requires c.Valid() && c.isForward && c.scheme.Ccm? && |DataOf(history)| < LWORD && Words(history)
    modifies c, c.buffer
    ensures status == Ok <==> Keyed(old(c.state)) && c.scheme.AcceptsNonce(iv) &&
                              Accepted(c.scheme, iv, history, message) && macSize <= c.scheme.DigestSize()
    ensures status == Ok ==> c.scheme.WellFormed()
    ensures status == Ok ==>
      mac == TagOver(c.scheme, iv, if IsAnnounced(history) then Zeros(16) else old(c.cbc), history, message)[..macSize]
  {
    mac := [];
    status := c.Resynchronize(iv);
    if status != Ok {
      return;
    }
    status := RunEvents(c, history);
    if status != Ok {
      return;
    }
    status, mac := RunRest(c, history, message, macSize);
  }

  /** The calls before the message. */
  method RunEvents(c: AuthenticatedCipher, history: seq<Event>) returns (status: Status)
    requires c.Valid() && c.scheme.Ccm? && c.state == IVSet && c.session == NEW_SESSION && Words(history)
    modifies c`bufferedDataLength, c`macInput, c`cbc, c`absorbed, c.buffer, c`start, c`aadLength, c`messageLength
    modifies c`totalHeaderLength, c`totalFooterLength, c`session, c`state
    ensures status == Ok <==> forall i :: 0 <= i < |history| ==> Announceable(c.scheme, c.nonce, history[i])
    ensures status == Ok ==> c.Valid() && c.state == IVSet && c.session == NEW_SESSION.(history := history)
    ensures status == Ok && !IsAnnounced(history) ==> c.start == old(c.start)
  {
    hide InProgress, HeldAfter, Announceable, IsAnnounced, DataOf, Lengths;
    assert history[..0] == [];
    NothingAnnounced();
    for i := 0 to |history|
      invariant c.Valid() && c.state == IVSet && c.session == NEW_SESSION.(history := history[..i])
      invariant forall k :: 0 <= k < i ==> Announceable(c.scheme, c.nonce, history[k])
      invariant !IsAnnounced(history[..i]) ==> c.start == old(c.start)
    {
      Grown(history, i);
      status := RunEvent(c, history[i]);
      if status != Ok {
        return;
      }
    }
    assert history[..|history|] == history;
    status := Ok;
  }

  lemma NothingAnnounced()
    ensures !IsAnnounced([])
  {
  }

  /** One of them. */
  method RunEvent(c: AuthenticatedCipher, e: Event) returns (status: Status)
    requires c.Valid() && c.scheme.Ccm? && c.state == IVSet && (e.Announced? ==> e.headerLength < LWORD)
    modifies c`bufferedDataLength, c`macInput, c`cbc, c`absorbed, c.buffer, c`start, c`aadLength, c`messageLength
    modifies c`totalHeaderLength, c`totalFooterLength, c`session, c`state
    ensures status == Ok <==> Announceable(c.scheme, c.nonce, e)
    ensures status == Ok ==> c.Valid() && c.state == IVSet && c.session == old(c.session).Having(e)
    ensures e.Given? ==> c.start == old(c.start)
  {
    hide InProgress, HeldAfter;
    match e {
      case Given(data) =>
        status := c.Update(data);
      case Announced(headerLength, messageLength) =>
        status := c.SpecifyDataLengths(headerLength, messageLength);
    }
  }

  lemma Grown(history: seq<Event>, i: nat)
    requires i < |history|
    ensures history[..i + 1] == history[..i] + [history[i]]
    ensures IsAnnounced(history[..i + 1]) <==> history[i].Announced? || IsAnnounced(history[..i])
  {
    var next := history[..i + 1];
    assert next[..|next| - 1] == history[..i];
  }

  /** The message and the end. */
  method RunRest(c: AuthenticatedCipher, history: seq<Event>, message: Bytes, macSize: nat)
    returns (status: Status, mac: Bytes)
    requires c.Valid() && c.isForward && c.scheme.Ccm? && c.state == IVSet && |DataOf(history)| < LWORD
    requires c.session == NEW_SESSION.(history := history)
    modifies c`bufferedDataLength, c`macInput, c`cbc, c`absorbed, c.buffer, c`streamPosition
    modifies c`totalMessageLength, c`session, c`state
    ensures c.scheme.WellFormed() && IsNonce(c.nonce)
    ensures status == Ok <==> |message| <= MaxMessageLength(c.scheme, c.nonce) &&
                              Lengths(history) == (|DataOf(history)|, |message|) && macSize <= c.scheme.DigestSize()
    ensures status == Ok ==>
      mac == TagOver(c.scheme, c.nonce, if IsAnnounced(history) then Zeros(16) else c.start, history,
                     message)[..macSize]
  {
    hide InProgress, HeldAfter, Pad16, Chain;
    mac := [];
    c.Totals();
    StartIs(c);
    var output;
    status, output := c.ProcessData(message);
    if status != Ok {
      return;
    }
    c.Totals();
    assert [] + message == message;
    status, mac := c.TruncatedFinal(macSize);
    ghost var fed := Pad16(c.session.UpToBody(c.scheme, c.nonce));
    assert fed + [] == fed;
    if status == Ok {
      CutXor(Chain(c.scheme.cipher, c.start, fed), FirstKey(c.scheme, c.nonce), macSize);
    }
  }

  lemma StartIs(c: AuthenticatedCipher)
    requires c.Valid() && HasIV(c.state) && c.scheme.Ccm?
    ensures IsAnnounced(c.session.history) ==> c.start == Zeros(16)
  {
  }

  // ---- When it is the tag of the standard --------------------------------------------------

  /** After a history of the standard the tag is the standard's. */
  lemma StandardTag(scheme: Scheme, nonce: Bytes, history: seq<Event>, message: Bytes)
    requires scheme.Ccm? && scheme.WellFormed() && IsNonce(nonce)
    requires Lengths(history) == (|DataOf(history)|, |message|) && StandardHistory(nonce, history)
    ensures TagOver(scheme, nonce, Zeros(16), history, message) == Tag(scheme, nonce, DataOf(history), message)
  {
    hide StandardHistory, Pad16, CcmHeader, Chain;
    HeaderIsStandard(scheme.tagSize, nonce, history);
  }

  /** No two blocks are enciphered alike: what makes a block cipher one. */
  ghost predicate Injective(cipher: Block -> Block) {
    forall a: Block, b: Block :: cipher(a) == cipher(b) ==> a == b
  }

  lemma XorInjective(x: Block, y: Block, b: Block)
    requires Xor(x, b) == Xor(y, b)
    ensures x == y
  {
    XorTwice(x, b);
    XorTwice(y, b);
  }

  /** Chaining the same blocks keeps what is different different. */
  lemma {:induction false} ChainInjective(cipher: Block -> Block, x: Block, y: Block, s: Bytes)
    requires Injective(cipher) && |s| % 16 == 0 && Chain(cipher, x, s) == Chain(cipher, y, s)
    ensures x == y
    decreases |s|
  {
    hide Chain;
    if s == [] {
      ChainNothing(cipher, x);
      ChainNothing(cipher, y);
    } else {
      var front, last: Block := s[..|s| - 16], s[|s| - 16..];
      assert s == front + last;
      ChainConcat(cipher, x, front, last);
      ChainConcat(cipher, y, front, last);
      ChainOne(cipher, Chain(cipher, x, front), last);
      ChainOne(cipher, Chain(cipher, y, front), last);
      XorInjective(Chain(cipher, x, front), Chain(cipher, y, front), last);
      ChainInjective(cipher, x, y, front);
    }
  }

  lemma ChainNothing(cipher: Block -> Block, x: Block)
    ensures Chain(cipher, x, []) == x
  {
  }

  /** A first block and what follows it. */
  lemma FirstDecides(cipher: Block -> Block, a: Block, b: Block, rest: Bytes)
    requires Injective(cipher) && |rest| % 16 == 0
    ensures Chain(cipher, Zeros(16), a + rest) == Chain(cipher, Zeros(16), b + rest) <==> a == b
  {
    hide Chain;
    ChainConcat(cipher, Zeros(16), a, rest);
    ChainConcat(cipher, Zeros(16), b, rest);
    FirstBlockChained(cipher, a);
    FirstBlockChained(cipher, b);
    if Chain(cipher, Zeros(16), a + rest) == Chain(cipher, Zeros(16), b + rest) {
      ChainInjective(cipher, cipher(a), cipher(b), rest);
    }
  }

  /** What is chained behind the first block. */
  ghost function Rest(headerLength: nat, since: Bytes, message: Bytes): Bytes {
    Pad16(Pad16(EncodedLength(headerLength) + since) + message)
  }

  /** The tag that comes from some field in the place of the nonce. */
  ghost function FieldTag(scheme: Scheme, nonce: Bytes, field: Bytes, headerLength: nat, messageLength: nat,
                          since: Bytes, message: Bytes): Block
    requires scheme.Ccm? && scheme.WellFormed() && IsNonce(nonce) && |field| == |nonce|
  {
    Xor(Chain(scheme.cipher, Zeros(16),
              FirstBlock(scheme.tagSize, field, headerLength, messageLength) + Rest(headerLength, since, message)),
        FirstKey(scheme, nonce))
  }

  /** Under a block cipher the field decides the tag. */
  lemma FieldDecides(scheme: Scheme, nonce: Bytes, f: Bytes, g: Bytes, headerLength: nat, messageLength: nat,
                     since: Bytes, message: Bytes)
    requires scheme.Ccm? && scheme.WellFormed() && IsNonce(nonce) && |f| == |g| == |nonce|
    requires Injective(scheme.cipher)
    ensures f == g <==>
              FieldTag(scheme, nonce, f, headerLength, messageLength, since, message)
              == FieldTag(scheme, nonce, g, headerLength, messageLength, since, message)
  {
    hide Chain, FirstBlock, Rest;
    var rest := Rest(headerLength, since, message);
    RestLength(headerLength, since, message);
    FirstBlockLength(scheme.tagSize, f, headerLength, messageLength);
    FirstBlockLength(scheme.tagSize, g, headerLength, messageLength);
    var a: Block := FirstBlock(scheme.tagSize, f, headerLength, messageLength);
    var b: Block := FirstBlock(scheme.tagSize, g, headerLength, messageLength);
    FirstDecides(scheme.cipher, a, b, rest);
    if FieldTag(scheme, nonce, f, headerLength, messageLength, since, message)
       == FieldTag(scheme, nonce, g, headerLength, messageLength, since, message) {
      XorInjective(Chain(scheme.cipher, Zeros(16), a + rest), Chain(scheme.cipher, Zeros(16), b + rest),
                   FirstKey(scheme, nonce));
    }
  }

  lemma RestLength(headerLength: nat, since: Bytes, message: Bytes)
    ensures |Rest(headerLength, since, message)| % 16 == 0
  {
    hide Pad16;
    PaddedToBlocks(Pad16(EncodedLength(headerLength) + since) + message);
  }

  /** Unless an earlier announcement left octets waiting, the tag is that of the field. */
  lemma TagOfField(scheme: Scheme, nonce: Bytes, history: seq<Event>, message: Bytes)
    requires scheme.Ccm? && scheme.WellFormed() && IsNonce(nonce) && IsAnnounced(history)
    requires Kept(nonce, Before(history), Lengths(history).0) == []
    ensures TagOver(scheme, nonce, Zeros(16), history, message)
         == FieldTag(scheme, nonce, Field(nonce, Before(history)), Lengths(history).0, Lengths(history).1,
                     Since(history), message)
  {
    hide Chain, Pad16, HeldAfter, Before, Since, Lengths, IsAnnounced, CcmHeader, FirstBlock;
    var (n, m) := Lengths(history);
    HeaderParts(scheme.tagSize, nonce, history);
    var first := FirstBlock(scheme.tagSize, Field(nonce, Before(history)), n, m);
    FirstBlockLength(scheme.tagSize, Field(nonce, Before(history)), n, m);
    var body := EncodedLength(n) + Since(history);
    assert first + EncodedLength(n) + [] + Since(history) == first + body;
    PadBehind(first, body);
    assert first + Pad16(body) + message == first + (Pad16(body) + message);
    PadBehind(first, Pad16(body) + message);
  }

  /** The standard is the nonce in the field, and all data since the announcement. */
  lemma TagIsFieldTag(scheme: Scheme, nonce: Bytes, aad: Bytes, message: Bytes)
    requires scheme.Ccm? && scheme.WellFormed() && IsNonce(nonce)
    ensures Tag(scheme, nonce, aad, message) == FieldTag(scheme, nonce, nonce, |aad|, |message|, aad, message)
  {
    hide Chain, Pad16, FirstBlock;
    var first := FirstBlock(scheme.tagSize, nonce, |aad|, |message|);
    FirstBlockLength(scheme.tagSize, nonce, |aad|, |message|);
    var body := EncodedLength(|aad|) + aad;
    assert first + EncodedLength(|aad|) + aad == first + body;
    PadBehind(first, body);
    assert first + Pad16(body) + message == first + (Pad16(body) + message);
    PadBehind(first, Pad16(body) + message);
  }

  /** Under a block cipher, when no data came before the last announcement and nothing of earlier ones
      waits, the tag is the standard's if and only if the history is one of the standard. */
  lemma TagDecides(scheme: Scheme, nonce: Bytes, history: seq<Event>, message: Bytes)
    requires scheme.Ccm? && scheme.WellFormed() && IsNonce(nonce) && Injective(scheme.cipher)
    requires IsAnnounced(history) && Lengths(history) == (|DataOf(history)|, |message|)
    requires DataOf(Before(history)) == [] && Kept(nonce, Before(history), Lengths(history).0) == []
    ensures StandardHistory(nonce, history) <==>
              TagOver(scheme, nonce, Zeros(16), history, message) == Tag(scheme, nonce, DataOf(history), message)
  {
    hide HeldAfter, Chain, FieldTag, TagOver, Before, Since, DataOf, Lengths, IsAnnounced;
    DataParts(history);
    assert DataOf(history) == Since(history);
    TagOfField(scheme, nonce, history, message);
    TagIsFieldTag(scheme, nonce, DataOf(history), message);
    FieldDecides(scheme, nonce, Field(nonce, Before(history)), nonce, |DataOf(history)|, |message|,
                 DataOf(history), message);
  }

  // ---- What data leaves in the field -------------------------------------------------------

  /** A first call of less than a block lies over the nonce from its first byte, which only the flags hide. */
  lemma ShortData(nonce: Bytes, data: Bytes)
    requires IsNonce(nonce) && |data| < 16
    ensures Field(nonce, [Given(data)]) == (data + CounterBlock(nonce)[|data|..])[1..1 + |nonce|]
  {
    OneEvent(nonce, Given(data));
    assert CounterBlock(nonce)[..0] + data + CounterBlock(nonce)[|data|..] == data + CounterBlock(nonce)[|data|..];
  }

  /** A block in one call passes the buffer by, and in two calls fills it. */
  lemma CutData(nonce: Bytes, a: Bytes, b: Bytes)
    requires IsNonce(nonce) && 0 < |a| && |a| + |b| == 16 && |b| > 0
    ensures Field(nonce, [Given(a + b)]) == nonce
    ensures Field(nonce, [Given(a), Given(b)]) == (a + b)[1..1 + |nonce|]
  {
    hide HeldAfter, Taken, Lengthened, CounterBlock;
    OneEvent(nonce, Given(a + b));
    OneEvent(nonce, Given(a));
    TwoGiven(nonce, a, b);
    var start := Held(CounterBlock(nonce), 0);
    BlockPassesBy(start.bytes, a + b);
    PartsFill(start.bytes, a, b);
    assert CounterBlock(nonce)[1..1 + |nonce|] == nonce by {
      NonceInBlock(nonce);
    }
  }

  lemma NonceInBlock(nonce: Bytes)
    requires IsNonce(nonce)
    ensures CounterBlock(nonce)[1..1 + |nonce|] == nonce
  {
  }

  lemma BlockPassesBy(block: Block, data: Block)
    ensures Taken(Held(block, 0), data) == Held(block, 0)
  {
  }

  lemma PartsFill(block: Block, a: Bytes, b: Bytes)
    requires 0 < |a| && |a| + |b| == 16 && |b| > 0
    ensures Taken(Taken(Held(block, 0), a), b) == Held(a + b, 0)
  {
    var h := Taken(Held(block, 0), a);
    assert h.bytes[..h.num] == a && b[..16 - |a|] == b;
  }

  lemma TwoGiven(nonce: Bytes, a: Bytes, b: Bytes)
    requires IsNonce(nonce)
    ensures HeldAfter(nonce, [Given(a), Given(b)]) == Taken(HeldAfter(nonce, [Given(a)]), b)
  {
    assert [Given(a), Given(b)][..1] == [Given(a)];
  }

  lemma OneEvent(nonce: Bytes, e: Event)
    requires IsNonce(nonce)
    ensures var start := Held(CounterBlock(nonce), 0);
            HeldAfter(nonce, [e])
            == if e.Given? then Taken(start, e.data) else Lengthened(start, e.headerLength)
  {
    assert [e][..0] == [];
  }

  // ---- Inputs that show it -----------------------------------------------------------------

  const SOME_NONCE: Bytes := [0, 0, 0, 0, 0, 0, 0, 0, 0, 0, 0, 0, 0]
  const SOME_DATA: Block := [1, 1, 0, 0, 0, 0, 0, 0, 0, 0, 0, 0, 0, 0, 0, 0]
  const FRONT: Bytes := [1, 1, 0, 0, 0, 0, 0, 0]
  const BACK: Bytes := [0, 0, 0, 0, 0, 0, 0, 0]

  /** A cipher that changes nothing. */
  const SOME_SCHEME: Scheme := Ccm(b => b, (b, n) => 0, 4)

  /** Sixteen bytes of data before the announcement: the tag depends on how they were cut into calls. */
  lemma CutsMatter()
    ensures SOME_SCHEME.WellFormed() && IsNonce(SOME_NONCE)
    ensures TagOver(SOME_SCHEME, SOME_NONCE, Zeros(16), [Given(SOME_DATA), Announced(16, 0)], [])
         != TagOver(SOME_SCHEME, SOME_NONCE, Zeros(16), [Given(FRONT), Given(BACK), Announced(16, 0)], [])
  {
    hide TagOver, FieldTag, HeldAfter;
    var whole, cut := [Given(SOME_DATA), Announced(16, 0)], [Given(FRONT), Given(BACK), Announced(16, 0)];
    assert FRONT + BACK == SOME_DATA && whole[..1] == [Given(SOME_DATA)] && cut[..2] == [Given(FRONT), Given(BACK)];
    CutData(SOME_NONCE, FRONT, BACK);
    TagOfField(SOME_SCHEME, SOME_NONCE, whole, []);
    TagOfField(SOME_SCHEME, SOME_NONCE, cut, []);
    assert SOME_DATA[1..14][0] == 1 && SOME_NONCE[0] == 0;
    FieldDecides(SOME_SCHEME, SOME_NONCE, SOME_NONCE, SOME_DATA[1..14], 16, 0, [], []);
  }

  /** Sixteen bytes of data before the announcement, in one call: the nonce stands, but they are left out
      of the tag. */
  lemma LostDiffers()
    ensures SOME_SCHEME.WellFormed() && IsNonce(SOME_NONCE)
    ensures TagOver(SOME_SCHEME, SOME_NONCE, Zeros(16), [Given(SOME_DATA), Announced(16, 0)], [])
         != Tag(SOME_SCHEME, SOME_NONCE, SOME_DATA, [])
  {
    hide TagOver, Tag, HeldAfter, FieldTag;
    var history := [Given(SOME_DATA), Announced(16, 0)];
    assert history[..1] == [Given(SOME_DATA)] && FRONT + BACK == SOME_DATA;
    CutData(SOME_NONCE, FRONT, BACK);
    TagOfField(SOME_SCHEME, SOME_NONCE, history, []);
    TagIsFieldTag(SOME_SCHEME, SOME_NONCE, SOME_DATA, []);
    DataDecides();
  }

  lemma DataDecides()
    ensures FieldTag(SOME_SCHEME, SOME_NONCE, SOME_NONCE, 16, 0, SOME_DATA, [])
         != FieldTag(SOME_SCHEME, SOME_NONCE, SOME_NONCE, 16, 0, [], [])
  {
    hide Pad16, Chain, FirstBlock, Xor, FirstKey, BigEndian;
    FirstBlockLength(4, SOME_NONCE, 16, 0);
    BigEndianLength(16, 2);
    var length, first: Block := EncodedLength(16), FirstBlock(4, SOME_NONCE, 16, 0);
    var d1: Block, d2: Block, e: Block :=
      length + SOME_DATA[..14], SOME_DATA[14..] + Zeros(14), length + Zeros(14);
    PaddedTwice(length + SOME_DATA, d1 + d2);
    PaddedTwice(length + [], e);
    assert first + (d1 + d2) == first + d1 + d2;
    ChainThree(SOME_SCHEME.cipher, first, d1, d2);
    ChainThree(SOME_SCHEME.cipher, first, e, e);
    ThirdByte(Chain(SOME_SCHEME.cipher, Zeros(16), first), d1, d2, e, FirstKey(SOME_SCHEME, SOME_NONCE));
  }

  /** Chaining three blocks. */
  lemma ChainThree(cipher: Block -> Block, a: Block, b: Block, c: Block)
    ensures var x := Chain(cipher, Zeros(16), a);
            && Chain(cipher, Zeros(16), a + b) == cipher(Xor(x, b))
            && Chain(cipher, Zeros(16), a + b + c) == cipher(Xor(cipher(Xor(x, b)), c))
  {
    var z := Zeros(16);
    ChainConcat(cipher, z, a + b, c);
    ChainConcat(cipher, z, a, b);
    ChainOne(cipher, Chain(cipher, z, a), b);
    ChainOne(cipher, Chain(cipher, z, a + b), c);
  }

  /** Padded twice because no message follows. */
  lemma PaddedTwice(s: Bytes, padded: Bytes)
    requires padded == s + Zeros(PadLength(|s|))
    ensures Pad16(Pad16(s) + []) == padded
  {
    PaddedToBlocks(s);
    assert Pad16(s) + [] == Pad16(s) && Zeros(0) == [] && Pad16(s) + [] + Zeros(0) == Pad16(s);
  }

  lemma ThirdByte(x: Block, d1: Block, d2: Block, e: Block, key: Block)
    requires d1[2] == 1 && d2[2] == 0 && e[2] == 0
    ensures Xor(Xor(Xor(x, d1), d2), key) != Xor(Xor(x, e), key)
  {
    BytesDiffer(x[2], d1[2], d2[2], e[2], key[2]);
    assert Xor(Xor(Xor(x, d1), d2), key)[2] != Xor(Xor(x, e), key)[2];
  }

  lemma BytesDiffer(a: bv8, one: bv8, zero: bv8, other: bv8, k: bv8)
    requires one == 1 && zero == 0 && other == 0
    ensures ((a ^ one) ^ zero) ^ k != (a ^ other) ^ k
  {
  }

  /** What there is to know of two announcements. */
  lemma TwiceAnnounced()
    ensures var history := [Announced(16, 0), Announced(16, 0), Given(SOME_DATA)];
            && IsAnnounced(history) && DataOf(history) == SOME_DATA && Lengths(history) == (16, 0)
            && DataOf(Before(history)) == [] && !StandardHistory(SOME_NONCE, history)
  {
    hide HeldAfter, StandardHistory;
    var history := [Announced(16, 0), Announced(16, 0), Given(SOME_DATA)];
    var two, one := [Announced(16, 0), Announced(16, 0)], [Announced(16, 0)];
    assert history[..2] == two && two[..1] == one && one[..0] == [];
    assert DataOf(one) == [] + [] && DataOf(two) == DataOf(one) + [] && DataOf(history) == DataOf(two) + SOME_DATA;
    assert Headers(one) == [] + [16];
    AnnouncedBeforeData(SOME_NONCE, history);
    SecondOctet();
  }

  lemma SecondOctet()
    ensures OctetAt(SOME_NONCE, [16], 1) != SOME_NONCE[0]
  {
    assert EncodedLength(16) == BigEndian(16 / 256, 1) + [Byte(16)];
    BigEndianLength(16 / 256, 1);
  }

  /** The same lengths announced twice: the octets of the first announcement stand in the nonce of the
      second, and the tag is not the standard's. */
  lemma TwiceDiffers()
    ensures SOME_SCHEME.WellFormed() && IsNonce(SOME_NONCE)
    ensures TagOver(SOME_SCHEME, SOME_NONCE, Zeros(16), [Announced(16, 0), Announced(16, 0), Given(SOME_DATA)], [])
         != Tag(SOME_SCHEME, SOME_NONCE, SOME_DATA, [])
  {
    hide TagOver, Tag, HeldAfter, StandardHistory, DataOf, Before, Lengths, IsAnnounced;
    TwiceAnnounced();
    var history := [Announced(16, 0), Announced(16, 0), Given(SOME_DATA)];
    TagDecides(SOME_SCHEME, SOME_NONCE, history, []);
  }
}
