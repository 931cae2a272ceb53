/** Object identifiers: arcs in groups of seven bits, section 8.19 of X.690. */
module AsnObjectIdentifiers {
  import opened Bits
  import opened OctetStrings
  import opened AsnLengths

  const ARC_LIMIT: nat := 0x1_0000_0000   // arcs are 32-bit words
  const OBJECT_IDENTIFIER: Octet := 6

  // ---- One arc -----------------------------------------------------------------------------

  /** The octets before the last one of an arc: seven bits each, marked as continued. */
  function Continued(n: nat): Octets {
    if n == 0 then [] else Continued(n / 128) + [0x80 + n % 128]
  }

  function ArcOctets(v: nat): Octets {
    Continued(v / 128) + [v % 128]
  }

  /** The number that groups of seven bits stand for. */
  function ArcValue(s: Octets): nat {
    if s == [] then 0 else 128 * ArcValue(s[..|s| - 1]) + s[|s| - 1] % 128
  }

  /** One arc: every octet but the last is marked as continued. */
  predicate IsArc(s: Octets) {
    s != [] && s[|s| - 1] < 0x80 && forall i :: 0 <= i < |s| - 1 ==> s[i] >= 0x80
  }

  datatype Arc = ArcRead(v: nat, rest: Octets) | Bad

  /** What the reader makes of the octets after it has read `n`. */
  function DecodedArc(n: nat, s: Octets): Arc
    decreases |s|
  {
    if s == [] || n >= 0x200_0000 then Bad
    else if s[0] < 0x80 then ArcRead(128 * n + s[0], s[1..])
    else DecodedArc(128 * n + s[0] - 0x80, s[1..])
  }

  /** 128 to the power of `k`. */
  function Power128(k: nat): nat {
    if k == 0 then 1 else 128 * Power128(k - 1)
  }

  lemma {:induction false} ArcValueHead(s: Octets)
    requires s != []
    ensures ArcValue(s) == (s[0] % 128) * Power128(|s| - 1) + ArcValue(s[1..])
  {
    if |s| == 1 {
      assert s[..0] == [] && s[1..] == [];
    } else {
      var t := s[..|s| - 1];
      ArcValueHead(t);
      assert t[1..] == s[1..][..|s| - 2];
      Shifted(s[0] % 128, Power128(|t| - 1), ArcValue(t[1..]), s[|s| - 1] % 128);
    }
  }

  lemma Shifted(a: nat, p: nat, c: nat, d: nat)
    ensures 128 * (a * p + c) + d == a * (128 * p) + (128 * c + d)
  {
  }

  /** The guard rejects exactly the arcs that do not fit 32 bits. */
  lemma {:induction false} DecodesArc(n: nat, s: Octets, rest: Octets)
    requires n < ARC_LIMIT && IsArc(s)
    ensures var v := n * Power128(|s|) + ArcValue(s);
            DecodedArc(n, s + rest) == if v < ARC_LIMIT then ArcRead(v, rest) else Bad
    decreases |s|
  {
    var b, tail := s[0], s[1..];
    assert (s + rest)[0] == b && (s + rest)[1..] == tail + rest;
    ArcValueHead(s);
    PowerPositive128(|tail|);
    NextGroup(n, b % 128, Power128(|tail|), ArcValue(tail));
    if n >= 0x200_0000 {
      Exceeds128(n, 128 * Power128(|tail|));
    } else if |s| == 1 {
      assert tail == [] && tail + rest == rest;
    } else {
      assert tail[|tail| - 1] == s[|s| - 1];
      assert forall i :: 0 <= i < |tail| - 1 ==> tail[i] == s[i + 1];
      DecodesArc(128 * n + b % 128, tail, rest);
    }
  }

  lemma NextGroup(n: nat, b: nat, p: nat, t: nat)
    ensures n * (128 * p) + (b * p + t) == (128 * n + b) * p + t
  {
  }

  lemma {:induction false} PowerPositive128(k: nat)
    ensures Power128(k) >= 1
  {
    if k > 0 {
      PowerPositive128(k - 1);
    }
  }

  lemma Exceeds128(n: nat, p: nat)
    requires n >= 0x200_0000 && p >= 128
    ensures n * p >= ARC_LIMIT
  {
    assert n * p >= n * 128;
  }

  lemma {:induction false} ContinuedIs(n: nat)
    ensures ArcValue(Continued(n)) == n
    ensures forall i :: 0 <= i < |Continued(n)| ==> Continued(n)[i] >= 0x80
    ensures n > 0 ==> Continued(n) != [] && Continued(n)[0] > 0x80
  {
    if n > 0 {
      ContinuedIs(n / 128);
      var s := Continued(n);
      assert s[..|s| - 1] == Continued(n / 128);
    }
  }

  lemma ArcOctetsAre(v: nat)
    ensures IsArc(ArcOctets(v)) && ArcValue(ArcOctets(v)) == v
  {
    hide Continued;
    ContinuedIs(v / 128);
    var s := ArcOctets(v);
    assert s[..|s| - 1] == Continued(v / 128);
  }

  /** Arcs round-trip, and exactly their octets are consumed. */
  lemma DecodeEncodeArc(v: nat, rest: Octets)
    requires v < ARC_LIMIT
    ensures DecodedArc(0, ArcOctets(v) + rest) == ArcRead(v, rest)
  {
    ArcOctetsAre(v);
    DecodesArc(0, ArcOctets(v), rest);
  }

  /** No other octets of the same arc are fewer. */
  lemma {:induction false} ArcIsShortest(s: Octets, v: nat)
    requires IsArc(s) && ArcValue(s) == v
    ensures |ArcOctets(v)| <= |s|
  {
    ArcValueBounded(s);
    ContinuedLength(v / 128, |s| - 1);
  }

  lemma {:induction false} ArcValueBounded(s: Octets)
    ensures ArcValue(s) < Power128(|s|)
  {
    if s != [] {
      ArcValueBounded(s[..|s| - 1]);
    }
  }

  lemma {:induction false} ContinuedLength(n: nat, k: nat)
    requires n < Power128(k)
    ensures |Continued(n)| <= k
  {
    if n > 0 {
      if k > 0 {
        ContinuedLength(n / 128, k - 1);
      }
    }
  }

  // ---- Whole identifiers -------------------------------------------------------------------

  function ArcsOctets(values: seq<nat>): Octets {
    if values == [] then [] else ArcOctets(values[0]) + ArcsOctets(values[1..])
  }

  /** The first two arcs share one octet. */
  function FirstOctet(v0: nat, v1: nat): Octet {
    (v0 * 40 + v1) % 256
  }

  function Contents(values: seq<nat>): Octets
    requires |values| >= 2
  {
    [FirstOctet(values[0], values[1])] + ArcsOctets(values[2..])
  }

  function EncodedOid(values: seq<nat>): Octets
    requires |values| >= 2 && |Contents(values)| < SIZE_LIMIT
  {
    [OBJECT_IDENTIFIER] + LengthOctets(|Contents(values)|) + Contents(values)
  }

  datatype Arcs = ArcsRead(values: seq<nat>, rest: Octets) | BadArcs

  /** Arcs until `length` octets are used up. */
  function DecodedArcs(length: nat, s: Octets): Arcs {
    if length == 0 then ArcsRead([], s)
    else
      ArcConsumes(0, s);
      match DecodedArc(0, s)
      case Bad => BadArcs
      case ArcRead(v, rest) =>
        var used := |s| - |rest|;
        if used > length then BadArcs
        else match DecodedArcs(length - used, rest)
             case BadArcs => BadArcs
             case ArcsRead(values, end) => ArcsRead([v] + values, end)
  }

  lemma {:induction false} ArcConsumes(n: nat, s: Octets)
    ensures DecodedArc(n, s).ArcRead? ==> |DecodedArc(n, s).rest| < |s|
    decreases |s|
  {
    if s != [] && s[0] >= 0x80 {
      ArcConsumes(128 * n + s[0] - 0x80, s[1..]);
    }
  }

  function DecodedOid(s: Octets): Arcs {
    if s == [] || s[0] != OBJECT_IDENTIFIER then BadArcs
    else match DecodedLength(s[1..])
         case Got(Definite(n), r) =>
           if n == 0 || r == [] then BadArcs
           else (match DecodedArcs(n - 1, r[1..])
                 case BadArcs => BadArcs
                 case ArcsRead(values, rest) => ArcsRead([r[0] / 40, r[0] % 40] + values, rest))
         case _ => BadArcs
  }

  predicate ArcsFit(values: seq<nat>) {
    forall i :: 0 <= i < |values| ==> values[i] < ARC_LIMIT
  }

  lemma {:induction false} DecodeEncodeArcs(values: seq<nat>, rest: Octets)
    requires ArcsFit(values)
    ensures DecodedArcs(|ArcsOctets(values)|, ArcsOctets(values) + rest) == ArcsRead(values, rest)
  {
    if values == [] {
      assert [] + rest == rest;
    } else {
      var head, tail := ArcOctets(values[0]), ArcsOctets(values[1..]);
      DecodeEncodeArc(values[0], tail + rest);
      DecodeEncodeArcs(values[1..], rest);
      assert ArcsOctets(values) + rest == head + (tail + rest);
      assert values == [values[0]] + values[1..];
    }
  }

  /** Decoding gives back all arcs after the first two, and for those what their octet says. */
  lemma DecodeEncodeOid(values: seq<nat>, rest: Octets)
    requires |values| >= 2 && ArcsFit(values) && |Contents(values)| < SIZE_LIMIT
    ensures var b := FirstOctet(values[0], values[1]);
            DecodedOid(EncodedOid(values) + rest) == ArcsRead([b / 40, b % 40] + values[2..], rest)
  {
    hide LengthOctets, DecodedLength, ArcsOctets;
    var c := Contents(values);
    TaggedLength(OBJECT_IDENTIFIER, c, rest);
    assert (c + rest)[1..] == ArcsOctets(values[2..]) + rest;
    DecodeEncodeArcs(values[2..], rest);
  }

  /** The whole identifier comes back exactly when the second arc is below 40 and the first octet
      holds both. */
  lemma OidRoundTrip(values: seq<nat>, rest: Octets)
    requires |values| >= 2 && ArcsFit(values) && |Contents(values)| < SIZE_LIMIT
    ensures DecodedOid(EncodedOid(values) + rest) == ArcsRead(values, rest)
       <==> values[1] < 40 && values[0] * 40 + values[1] < 256
  {
    DecodeEncodeOid(values, rest);
    var b := FirstOctet(values[0], values[1]);
    SharedOctet(values[0], values[1]);
    assert values == [values[0], values[1]] + values[2..];
    assert ([b / 40, b % 40] + values[2..])[0] == b / 40 && ([b / 40, b % 40] + values[2..])[1] == b % 40;
  }

  /** The identifier 2.48 fits the shared octet, and comes back as 3.8. */
  lemma AnotherIdentifier(rest: Octets)
    ensures |Contents([2, 48])| < SIZE_LIMIT
    ensures DecodedOid(EncodedOid([2, 48]) + rest) == ArcsRead([3, 8], rest)
  {
    var values := [2, 48];
    assert ArcsOctets(values[2..]) == [];
    DecodeEncodeOid(values, rest);
    assert FirstOctet(2, 48) == 128 && [3, 8] + values[2..] == [3, 8];
  }

  lemma SharedOctet(v0: nat, v1: nat)
    ensures var b := FirstOctet(v0, v1);
            (b / 40 == v0 && b % 40 == v1) <==> v1 < 40 && v0 * 40 + v1 < 256
  {
  }

  // ---- The loops ---------------------------------------------------------------------------

  /** `n` without its lowest `k` groups of seven bits. */
  function GroupsOff(n: nat, k: nat): nat {
    if k == 0 then n else GroupsOff(n, k - 1) / 128
  }

  function RoundUpToSeven(n: nat): nat {
    (n + 6) / 7 * 7
  }

  lemma {:induction false} BitsOfGroups(n: nat)
    ensures n > 0 ==> RoundUpToSeven(BitCount(n)) == 7 * |Continued(n)|
  {
    if n >= 128 {
      BitsOfGroups(n / 128);
      SevenBits(n);
    } else if n > 0 {
      SmallBits(n);
      assert Continued(n / 128) == [];
    }
  }

  lemma {:induction false} ShiftedBits(n: nat, k: nat)
    requires Shr(n, k) > 0
    ensures BitCount(n) == BitCount(Shr(n, k)) + k
  {
    if k > 0 {
      ShiftedBits(n / 2, k - 1);
    }
  }

  lemma SevenBits(n: nat)
    requires n >= 128
    ensures BitCount(n) == BitCount(n / 128) + 7
  {
    SevenShifts(n);
    ShiftedBits(n, 7);
  }

  lemma SevenShifts(n: nat)
    ensures Shr(n, 7) == n / 128 && Pow2(7) == 128
  {
    ShiftsAreDivision(n, 7);
    assert Pow2(7) == 2 * Pow2(6) && Pow2(6) == 2 * Pow2(5) && Pow2(5) == 2 * Pow2(4);
    assert Pow2(4) == 2 * Pow2(3) && Pow2(3) == 8;
  }

  lemma {:induction false} FewBits(n: nat, k: nat)
    requires n < Pow2(k)
    ensures BitCount(n) <= k
  {
    if k > 0 && n > 0 {
      FewBits(n / 2, k - 1);
    }
  }

  lemma SmallBits(n: nat)
    requires 0 < n < 128
    ensures 1 <= BitCount(n) <= 7
  {
    SevenShifts(n);
    FewBits(n, 7);
  }

  lemma {:induction false} GroupsLeft(n: nat, k: nat)
    requires k <= |Continued(n)|
    ensures |Continued(GroupsOff(n, k))| == |Continued(n)| - k
  {
    if k > 0 {
      GroupsLeft(n, k - 1);
    }
  }

  method EncodeValue(bt: Queue, v: nat)
    modifies bt
    ensures bt.data == old(bt.data) + ArcOctets(v)
  {
    ghost var start := bt.data;
    var bits := BitCount(v);
    var i := RoundUpToSeven(if bits > 7 then bits else 7) - 7;
    ghost var k: nat := |Continued(v / 128)|;
    FirstShift(v);
    while i != 0
      invariant i == 7 * k && k <= |Continued(v / 128)|
      invariant bt.data == start + Continued(GroupsOff(v, k) / 128)
    {
      GroupsLeft(v, k);
      var group := GroupsOff(v, i / 7);
      bt.Put([0x80 + group % 128]);
      i := i - 7;
      k := k - 1;
    }
    bt.Put([v % 128]);
  }

  /** The first shift skips all groups but the highest. */
  lemma FirstShift(v: nat)
    ensures var bits, k := BitCount(v), |Continued(v / 128)|;
            RoundUpToSeven(if bits > 7 then bits else 7) - 7 == 7 * k && GroupsOff(v, k) / 128 == 0
  {
    var k := |Continued(v / 128)|;
    if v == 0 {
    } else {
      BitsOfGroups(v);
      GroupsLeft(v, k);
      var top := GroupsOff(v, k);
      assert |Continued(top)| == 1 && Continued(top / 128) == [];
      if v < 128 {
        SmallBits(v);
      } else {
        SevenBits(v);
      }
    }
  }

  method DecodeValue(bt: Queue) returns (ok: bool, v: nat, i: nat)
    modifies bt
    ensures match DecodedArc(0, old(bt.data))
      case Bad => !ok
      case ArcRead(n, rest) => ok && v == n && bt.data == rest && i == |old(bt.data)| - |rest|
  {
    ghost var start := bt.data;
    i, v := 0, 0;
    while true
      invariant i + |bt.data| == |start|
      invariant DecodedArc(v, bt.data) == DecodedArc(0, start)
      decreases |bt.data|
    {
      ghost var before := bt.data;
      var got, b := bt.Get();
      if !got {
        return false, v, i;
      }
      assert bt.data == before[1..];
      i := i + 1;
      if v >= 0x200_0000 {
        return false, v, i;
      }
      v := 128 * v + b % 128;
      if b < 0x80 {
        return true, v, i;
      }
    }
  }

  /** An object identifier. */
  class OID {
    var values: seq<nat>

    constructor (values: seq<nat>)
      ensures this.values == values
    {
      this.values := values;
    }

    method DEREncode(bt: Queue)
      requires |values| >= 2 && |Contents(values)| < SIZE_LIMIT
      modifies bt
      ensures bt.data == old(bt.data) + EncodedOid(values)
    {
      ghost var octets, all := EncodedOid(values), values;
      var temp := new Queue([FirstOctet(values[0], values[1])]);
      var i := 2;
      assert values[2..] == values[2..][0..];
      while i < |values|
        invariant 2 <= i <= |values| && fresh(temp) && bt.data == old(bt.data)
        invariant temp.data + ArcsOctets(values[i..]) == Contents(values)
      {
        ghost var before := temp.data;
        EncodeValue(temp, values[i]);
        assert values[i..][0] == values[i] && values[i..][1..] == values[i + 1..];
        assert temp.data + ArcsOctets(values[i + 1..]) == before + (ArcOctets(values[i]) + ArcsOctets(values[i + 1..]));
        i := i + 1;
      }
      assert temp.data == Contents(values);
      bt.Put([OBJECT_IDENTIFIER]);
      var lengthOctets := DERLengthEncode(bt, |temp.data|);
      bt.Put(temp.data);
    }

    /** Fails on anything but a definite, well-formed identifier. */
    method BERDecode(bt: Queue) returns (ok: bool)
      modifies this, bt
      ensures match DecodedOid(old(bt.data))
        case BadArcs => !ok
        case ArcsRead(arcs, rest) => ok && values == arcs && bt.data == rest
    {
      ghost var start := bt.data;
      var got, b := bt.Get();
      if !got || b != OBJECT_IDENTIFIER {
        return false;
      }
      assert bt.data == start[1..];
      var r := BERLengthDecode(bt);
      if !r.Read? || !r.length.Definite? || r.length.n < 1 {
        return false;
      }
      ghost var content := bt.data;
      got, b := bt.Get();
      if !got {
        return false;
      }
      assert bt.data == content[1..];
      values := [b / 40, b % 40];
      ok := ReadArcs(bt, r.length.n - 1);
    }

    method ReadArcs(bt: Queue, size: nat) returns (ok: bool)
      modifies this, bt
      ensures match DecodedArcs(size, old(bt.data))
        case BadArcs => !ok
        case ArcsRead(arcs, rest) => ok && values == old(values) + arcs && bt.data == rest
    {
      var length := size;
      ghost var whole, first := DecodedArcs(size, bt.data), values;
      ghost var read: seq<nat> := [];
      while length > 0
        invariant values == first + read
        invariant whole == Prefixed(read, DecodedArcs(length, bt.data))
      {
        ArcConsumes(0, bt.data);
        var good, v, used := DecodeValue(bt);
        if !good || used > length {
          return false;
        }
        values := values + [v];
        read := read + [v];
        length := length - used;
      }
      ok := true;
      assert read + [] == read;
    }
  }

  /** A result with arcs read before it. */
  function Prefixed(before: seq<nat>, arcs: Arcs): Arcs {
    match arcs
    case BadArcs => BadArcs
    case ArcsRead(values, rest) => ArcsRead(before + values, rest)
  }
}
