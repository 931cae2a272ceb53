/** Encodings octet for octet, with the tags and lengths of X.690. */
module AsnVectors {
  import opened AsnLengths
  import opened DerReencoding
  import opened OctetStrings
  import Identifiers = AsnObjectIdentifiers
  import Unsigned = AsnUnsigned

  /** The examples of sections 8.1.3.4 and 8.1.3.5, and a length of two octets. */
  lemma LengthVectors()
    ensures LengthOctets(38) == [0x26] && LengthOctets(201) == [0x81, 0xc9]
    ensures LengthOctets(435) == [0x82, 0x01, 0xb3]
  {
    assert BytePrecision(201) == BytePrecision(0) + 1;
    assert NumberOctets(201, 1) == NumberOctets(0, 0) + [201];
    assert BytePrecision(435) == BytePrecision(1) + 1 && BytePrecision(1) == 1;
    assert NumberOctets(435, 2) == NumberOctets(1, 1) + [435 % 256] && NumberOctets(1, 1) == NumberOctets(0, 0) + [1];
  }

  // ---- An identifier -----------------------------------------------------------------------

  /** The arcs of the identifier 1.2.840.113549. */
  const ARCS: seq<nat> := [1, 2, 840, 113549]

  lemma ArcVectors()
    ensures Identifiers.ArcOctets(840) == [0x86, 0x48] && Identifiers.ArcOctets(113549) == [0x86, 0xf7, 0x0d]
  {
    assert Identifiers.Continued(6) == Identifiers.Continued(0) + [0x86];
    assert Identifiers.Continued(887) == Identifiers.Continued(6) + [0xf7];
  }

  lemma IdentifierContents()
    ensures Identifiers.Contents(ARCS) == [0x2a, 0x86, 0x48, 0x86, 0xf7, 0x0d]
  {
    ArcVectors();
    var later, last := ARCS[2..], [113549];
    assert later == [840] + last && later[1..] == last && last[1..] == [];
    assert Identifiers.ArcsOctets([]) == [];
    assert Identifiers.ArcsOctets(last) == [0x86, 0xf7, 0x0d] + [];
    assert Identifiers.ArcsOctets(later) == [0x86, 0x48] + [0x86, 0xf7, 0x0d];
  }

  method EncodeIdentifier() returns (octets: Octets)
    ensures octets == [0x06, 0x06, 0x2a, 0x86, 0x48, 0x86, 0xf7, 0x0d]
  {
    IdentifierContents();
    var identifier := new Identifiers.OID(ARCS);
    var bt := new Queue([]);
    identifier.DEREncode(bt);
    octets := bt.data;
    assert [] + Identifiers.EncodedOid(ARCS) == Identifiers.EncodedOid(ARCS);
  }

  // ---- Numbers -----------------------------------------------------------------------------

  lemma OneOctet(w: nat)
    requires 0 < w < 256
    ensures BytePrecision(w) == 1 && NumberOctets(w, 1) == [w]
  {
    assert BytePrecision(w) == BytePrecision(0) + 1;
    assert NumberOctets(w, 1) == NumberOctets(0, 0) + [w];
  }

  lemma ThreeOctets()
    ensures BytePrecision(65537) == 3 && NumberOctets(65537, 3) == [1, 0, 1]
  {
    OneOctet(1);
    assert BytePrecision(65537) == BytePrecision(256) + 1 && BytePrecision(256) == BytePrecision(1) + 1;
    assert NumberOctets(65537, 3) == NumberOctets(256, 2) + [1] && NumberOctets(256, 2) == NumberOctets(1, 1) + [0];
  }

  lemma NumberContents()
    ensures Unsigned.Contents(128, Unsigned.INTEGER) == [0x00, 0x80]
    ensures Unsigned.Contents(65537, Unsigned.INTEGER) == [0x01, 0x00, 0x01]
    ensures Unsigned.Contents(3, Unsigned.ENUMERATED) == [0x03]
    ensures Unsigned.Contents(1, Unsigned.BOOLEAN) == [0xff]
  {
    OneOctet(128);
    OneOctet(3);
    ThreeOctets();
  }

  /** INTEGER 128 and 65537, ENUMERATED 3 and BOOLEAN TRUE. */
  method EncodeNumbers() returns (octets: Octets)
    ensures octets == [0x02, 0x02, 0x00, 0x80] + [0x02, 0x03, 0x01, 0x00, 0x01]
                      + [0x0a, 0x01, 0x03] + [0x01, 0x01, 0xff]
  {
    hide Unsigned.Contents;
    NumberContents();
    assert Power(4) == 256 * Power(3) && Power(3) == 256 * Power(2) && Power(2) == 256 * Power(1) && Power(1) == 256;
    var out := new Queue([]);
    var n := Unsigned.DEREncodeUnsigned(out, 128, 4, Unsigned.INTEGER);
    n := Unsigned.DEREncodeUnsigned(out, 65537, 4, Unsigned.INTEGER);
    n := Unsigned.DEREncodeUnsigned(out, 3, 4, Unsigned.ENUMERATED);
    n := Unsigned.DEREncodeUnsigned(out, 1, 4, Unsigned.BOOLEAN);
    octets := out.data;
  }

  // ---- Re-encoding -------------------------------------------------------------------------

  /** A SEQUENCE of open length that holds an INTEGER. */
  function OpenSequence(contents: Octets): Octets
    requires |contents| < 0x80
  {
    [0x30, 0x80, 0x02, |contents|] + contents + [0x00, 0x00]
  }

  lemma OpenSequenceParses(contents: Octets, rest: Octets)
    requires |contents| < 0x80
    ensures var inner := Whole(0x02, [|contents|], contents);
            && WellFormed(Parts(0x30, More(inner, End)))
            && Written(Parts(0x30, More(inner, End))) == OpenSequence(contents)
            && Parse(OpenSequence(contents) + rest) == Element(Parts(0x30, More(inner, End)), rest)
  {
    var inner := Whole(0x02, [|contents|], contents);
    var e := Parts(0x30, More(inner, End));
    assert [|contents|][1..] == [];
    assert AllWritten(More(inner, End)) == [0x02, |contents|] + contents + [];
    assert Written(e) == OpenSequence(contents);
    ParseComplete(e, rest);
  }

  lemma SequenceRewritten(contents: Octets)
    requires |contents| <= 125
    ensures Written(Rewritten(Parts(0x30, More(Whole(0x02, [|contents|], contents), End))))
         == [0x30, |contents| + 2, 0x02, |contents|] + contents
  {
    var inner := Whole(0x02, [|contents|], contents);
    assert Rewritten(inner) == inner;
    var parts, all := More(inner, End), [0x02] + [|contents|] + contents;
    assert AllRewritten(parts) == More(inner, AllRewritten(End)) == parts;
    assert AllWritten(parts) == all + [];
    var e := Rewritten(Parts(0x30, parts));
    assert e == Whole(0x30, [|all|], all);
    assert Written(e) == [0x30] + [|all|] + all;
  }

  /** Every such element is accepted, and gets the definite lengths; what comes after it stays. */
  method ReencodeSequence(contents: Octets, rest: Octets) returns (octets: Octets, left: Octets)
    requires |contents| <= 125 && 3 * |OpenSequence(contents) + rest| < SIZE_LIMIT
    ensures octets == [0x30, |contents| + 2, 0x02, |contents|] + contents && left == rest
  {
    hide Parse;
    OpenSequenceParses(contents, rest);
    var source := new Queue(OpenSequence(contents) + rest);
    var dest := new Queue([]);
    var ok := DERReencode(source, dest);
    octets, left := dest.data, source.data;
    SequenceRewritten(contents);
  }

  /** An element that is not constructed may not leave its length open. */
  method RefusePrimitive(tag: Octet, rest: Octets) returns (ok: bool)
    requires tag / 32 % 2 == 0 && 3 * |[tag, 0x80] + rest| < SIZE_LIMIT
    ensures !ok
  {
    ghost var s := [tag, 0x80] + rest;
    assert s[1..][0] == 0x80;
    var source := new Queue([tag, 0x80] + rest);
    var dest := new Queue([]);
    ok := DERReencode(source, dest);
  }
}
