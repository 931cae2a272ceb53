/** Whole messages through the encoder, the grouper and the decoder, in any number of calls. */
module BaseNPipelines {
  import opened Bits
  import opened OctetStrings
  import opened Options
  import opened BaseN
  import opened BaseNDecoding

  predicate AreOctets(s: seq<nat>) {
    forall i :: 0 <= i < |s| ==> s[i] < 256
  }

  lemma {:induction false} OctetPieces(pieces: seq<seq<nat>>, i: nat)
    requires AreOctets(Concat(pieces)) && i < |pieces|
    ensures AreOctets(pieces[i])
  {
    var first, rest := pieces[0], Concat(pieces[1..]);
    if i == 0 {
      forall j | 0 <= j < |first| ensures first[j] < 256 {
        assert Concat(pieces)[j] == first[j];
      }
    } else {
      forall j | 0 <= j < |rest| ensures rest[j] < 256 {
        assert Concat(pieces)[|first| + j] == rest[j];
      }
      OctetPieces(pieces[1..], i - 1);
    }
  }

  lemma {:induction false} GroupedOctets(s: seq<nat>, size: nat, separator: seq<nat>, counter: nat)
    requires AreOctets(s) && AreOctets(separator)
    ensures AreOctets(Grouped(s, size, separator, counter))
  {
    if s != [] {
      GroupedOctets(s[1..], size, separator, if counter == size then 1 else counter + 1);
    }
  }

  /** A new encoder, given a message in pieces, puts out the encoding of the whole message. */
  method EncodePieces(log2Base: int, alphabet: seq<nat>, padding: Option<nat>, pieces: seq<seq<nat>>)
    returns (ok: bool, encoded: seq<nat>)
    requires 0 < log2Base < 8 ==> |alphabet| == Pow2(log2Base)
    requires AreOctets(Concat(pieces))
    ensures ok == (0 < log2Base < 8)
    ensures ok ==> encoded == Encoded(Concat(pieces), log2Base, alphabet, padding, EncoderBlock(log2Base))
  {
    var encoder := Encoder.IsolatedInitialize(log2Base, alphabet, padding);
    if encoder == null {
      return false, [];
    }
    assert [] + Concat(pieces) == Concat(pieces);
    for i := 0 to |pieces|
      invariant fresh(encoder) && fresh(encoder.outBuf) && encoder.Valid()
      invariant encoder.before == [] && encoder.message + Concat(pieces[i..]) == Concat(pieces)
    {
      OctetPieces(pieces, i);
      NextPiece(encoder.message, pieces, i);
      encoder.Put2(pieces[i], false);
    }
    assert encoder.message + [] == Concat(pieces);
    encoder.Put2([], true);
    ok, encoded := true, encoder.output;
  }

  /** A new grouper, given characters in pieces, puts out the grouping of all of them. */
  method GroupPieces(groupSize: nat, separator: seq<nat>, terminator: seq<nat>, pieces: seq<seq<nat>>)
    returns (grouped: seq<nat>)
    ensures grouped == GroupedMessage(Concat(pieces), groupSize, separator, terminator)
  {
    var grouper := new Grouper(groupSize, separator, terminator);
    assert [] + Concat(pieces) == Concat(pieces);
    for i := 0 to |pieces|
      invariant fresh(grouper) && grouper.Valid()
      invariant grouper.before == [] && grouper.message + Concat(pieces[i..]) == Concat(pieces)
    {
      NextPiece(grouper.message, pieces, i);
      grouper.Put2(pieces[i], false);
    }
    assert grouper.message + [] == Concat(pieces);
    grouper.Put2([], true);
    grouped := grouper.output;
  }

  method FeedDecoder(decoder: Decoder, pieces: seq<seq<nat>>)
    requires decoder.Valid() && AreOctets(Concat(pieces))
    modifies decoder`bytePos, decoder`bitPos, decoder`output, decoder`digits, decoder`before, decoder.outBuf
    ensures decoder.Valid() && decoder.before == old(decoder.before)
    ensures decoder.digits == old(decoder.digits) + DigitsOf(Concat(pieces), decoder.lookup)
  {
    hide DigitsOf, Concat;
    ghost var read: seq<nat> := [];
    assert [] + Concat(pieces) == Concat(pieces);
    NoDigits(decoder.lookup, decoder.digits);
    for i := 0 to |pieces|
      invariant decoder.Valid() && decoder.before == old(decoder.before)
      invariant decoder.digits == old(decoder.digits) + DigitsOf(read, decoder.lookup)
      invariant read + Concat(pieces[i..]) == Concat(pieces)
    {
      OctetPieces(pieces, i);
      NextPiece(read, pieces, i);
      DigitsOfConcat(read, pieces[i], decoder.lookup);
      decoder.Put2(pieces[i], false);
      read := read + pieces[i];
    }
    AllRead(read, pieces);
  }

  lemma NoDigits(lookup: seq<int>, digits: seq<nat>)
    ensures digits == digits + DigitsOf([], lookup)
  {
  }

  lemma AllRead(read: seq<nat>, pieces: seq<seq<nat>>)
    requires read + Concat(pieces[|pieces|..]) == Concat(pieces)
    ensures read == Concat(pieces)
  {
    assert read + [] == read;
  }

  /** A new decoder, given characters in pieces, puts out the decoding of all of them. */
  method DecodePieces(lookup: seq<int>, log2Base: int, pieces: seq<seq<nat>>) returns (ok: bool, decoded: seq<nat>)
    requires |lookup| == 256
    requires 0 < log2Base < 8 ==> forall c :: 0 <= c < 256 && 0 <= lookup[c] < 256 ==> lookup[c] < Pow2(log2Base)
    requires AreOctets(Concat(pieces))
    ensures ok == (0 < log2Base < 8)
    ensures ok ==> decoded == Decoded(DigitsOf(Concat(pieces), lookup), log2Base)
  {
    var decoder := Decoder.IsolatedInitialize(lookup, log2Base);
    if decoder == null {
      return false, [];
    }
    FeedDecoder(decoder, pieces);
    decoder.Put2([], true);
    assert DigitsOf(Concat(pieces), lookup) + [] == [] + DigitsOf(Concat(pieces), lookup)
           == DigitsOf(Concat(pieces), lookup);
    ok, decoded := true, decoder.output;
  }

  /** Whether character `c` stands for no character of the alphabet. */
  ghost predicate Outside(alphabet: seq<nat>, caseInsensitive: bool, c: nat) {
    c < 256 && forall i :: 0 <= i < |alphabet| ==> !Matches(alphabet[i], c, caseInsensitive)
  }

  ghost predicate AllOutside(alphabet: seq<nat>, caseInsensitive: bool, s: seq<nat>) {
    forall j :: 0 <= j < |s| ==> Outside(alphabet, caseInsensitive, s[j])
  }

  /** The table for decoding an unambiguous alphabet. */
  method LookupTable(alphabet: seq<nat>, caseInsensitive: bool) returns (lookup: seq<int>)
    requires |alphabet| <= 256 && AreOctets(alphabet) && Unambiguous(alphabet, caseInsensitive)
    ensures InvertsAlphabet(lookup, alphabet)
    ensures forall c :: 0 <= c < 256 && 0 <= lookup[c] < 256 ==> lookup[c] < |alphabet|
    ensures forall c :: Outside(alphabet, caseInsensitive, c) ==> !IsDigit(lookup, c)
  {
    var table := new int[256];
    InitializeDecodingLookupArray(table, alphabet, |alphabet|, caseInsensitive);
    lookup := table[..];
    TableInverts(lookup, alphabet, caseInsensitive);
    forall c | 0 <= c < 256 ensures lookup[c] < |alphabet| {
      LookupInverts(alphabet, |alphabet|, c, caseInsensitive);
    }
  }

  /** Encoding a message that comes in pieces, grouping the characters, cut up anew, and
      decoding them, cut up once more, gives the message back. */
  method RoundTrip(log2Base: nat, alphabet: seq<nat>, caseInsensitive: bool, padding: Option<nat>,
                   groupSize: nat, separator: seq<nat>, terminator: seq<nat>,
                   pieces: seq<seq<nat>>, sizes: seq<nat>, moreSizes: seq<nat>)
    returns (decoded: seq<nat>)
    requires 0 < log2Base < 8 && |alphabet| == Pow2(log2Base)
    requires AreOctets(alphabet) && Unambiguous(alphabet, caseInsensitive) && AreOctets(Concat(pieces))
    requires padding.Some? ==> Outside(alphabet, caseInsensitive, padding.value)
    requires AllOutside(alphabet, caseInsensitive, separator) && AllOutside(alphabet, caseInsensitive, terminator)
    ensures decoded == Concat(pieces)
  {
    PowMonotone(log2Base, 8);
    assert Pow2(8) == 256;
    var lookup := LookupTable(alphabet, caseInsensitive);
    var encoded, grouped, ok;
    ok, encoded := EncodePieces(log2Base, alphabet, padding, pieces);
    ConcatCutUp(encoded, sizes);
    grouped := GroupPieces(groupSize, separator, terminator, CutUp(encoded, sizes));
    ConcatCutUp(grouped, moreSizes);
    GroupedDecodes(log2Base, alphabet, caseInsensitive, padding, groupSize, separator, terminator,
                   Concat(pieces), EncoderBlock(log2Base), lookup);
    ok, decoded := DecodePieces(lookup, log2Base, CutUp(grouped, moreSizes));
  }

  /** The grouped encoding consists of octets, and its decoding is the message. */
  lemma GroupedDecodes(log2Base: nat, alphabet: seq<nat>, caseInsensitive: bool, padding: Option<nat>,
                       groupSize: nat, separator: seq<nat>, terminator: seq<nat>,
                       message: seq<nat>, block: nat, lookup: seq<int>)
    requires 0 < log2Base < 8 && |alphabet| == Pow2(log2Base) && block > 0
    requires AreOctets(alphabet) && AreOctets(message) && InvertsAlphabet(lookup, alphabet)
    requires forall c :: Outside(alphabet, caseInsensitive, c) ==> !IsDigit(lookup, c)
    requires padding.Some? ==> Outside(alphabet, caseInsensitive, padding.value)
    requires AllOutside(alphabet, caseInsensitive, separator) && AllOutside(alphabet, caseInsensitive, terminator)
    ensures var grouped := GroupedMessage(Encoded(message, log2Base, alphabet, padding, block), groupSize, separator,
                                          terminator);
            AreOctets(grouped) && Decoded(DigitsOf(grouped, lookup), log2Base) == message
  {
    var encoded := Encoded(message, log2Base, alphabet, padding, block);
    EncodedOctets(message, log2Base, alphabet, padding, block);
    GroupedOctets(encoded, groupSize, separator, 0);
    EncodeGroupDecode(message, log2Base, alphabet, padding, block, groupSize, separator, terminator, lookup);
  }

  lemma EncodedOctets(message: seq<nat>, w: nat, alphabet: seq<nat>, padding: Option<nat>, block: nat)
    requires w > 0 && block > 0 && |alphabet| == Pow2(w) && AreOctets(alphabet)
    requires padding.Some? ==> padding.value < 256
    ensures AreOctets(Encoded(message, w, alphabet, padding, block))
  {
    var count := DigitCount(|message|, 8, w);
    EncodedParts(message, w, alphabet, padding, block, count, RoundUp(count, block));
    var characters := Characters(message, w, alphabet, count);
    forall i | 0 <= i < |characters| ensures characters[i] < 256 {
      GatherBelow(message, 8, i * w, w);
    }
  }
}
