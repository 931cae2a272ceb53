/** Re-encoding BER elements with definite lengths. */
module DerReencoding {
  import opened OctetStrings
  import opened AsnLengths

  const CONSTRUCTED: Octet := 0x20

  predicate IsConstructed(tag: Octet) {
    (tag / CONSTRUCTED) % 2 == 1
  }

  /** A BER element: of definite length, with the length octets it came with, or of indefinite
      length, with the elements up to the end-of-contents octets. */
  datatype Element =
    | Whole(tag: Octet, lengthOctets: Octets, contents: Octets)
    | Parts(tag: Octet, children: Elements)

  datatype Elements = End | More(first: Element, rest: Elements)

  function Written(e: Element): Octets {
    match e
    case Whole(tag, lengthOctets, contents) => [tag] + lengthOctets + contents
    case Parts(tag, children) => [tag, 0x80] + AllWritten(children) + [0, 0]
  }

  function AllWritten(es: Elements): Octets {
    match es
    case End => []
    case More(first, rest) => Written(first) + AllWritten(rest)
  }

  /** Section 8.1 of X.690: lengths say the truth, only constructed elements may leave theirs open,
      and no element among those looks like their end. */
  ghost predicate WellFormed(e: Element) {
    match e
    case Whole(tag, lengthOctets, contents) => SaysLength(lengthOctets, contents)
    case Parts(tag, children) => IsConstructed(tag) && AllWellFormed(children)
  }

  ghost predicate AllWellFormed(es: Elements) {
    match es
    case End => true
    case More(first, rest) => WellFormed(first) && !LooksLikeEnd(first) && AllWellFormed(rest)
  }

  ghost predicate SaysLength(lengthOctets: Octets, contents: Octets) {
    DecodedLength(lengthOctets) == Got(Definite(|contents|), [])
  }

  predicate LooksLikeEnd(e: Element) {
    e.Whole? && e.tag == 0 && e.lengthOctets == [0]
  }

  // ---- Reading -----------------------------------------------------------------------------

  datatype Parsed = Element(e: Element, rest: Octets) | NoElement
  datatype ParsedAll = Elements(es: Elements, rest: Octets) | NoElements

  /** The element at the front. */
  function Parse(s: Octets): (p: Parsed)
    ensures p.Element? ==> |p.rest| < |s|
    decreases |s|, 0
  {
    if s == [] then NoElement
    else
      var t := s[1..];
      LengthShrinks(t);
      match DecodedLength(t)
      case Got(Definite(n), r) =>
        if n <= |r| then Element(Whole(s[0], t[..|t| - |r|], r[..n]), r[n..]) else NoElement
      case Got(Indefinite, r) =>
        if !IsConstructed(s[0]) then NoElement
        else (match ParseAll(r)
              case Elements(es, rest) => Element(Parts(s[0], es), rest)
              case NoElements => NoElement)
      case _ => NoElement
  }

  /** The elements up to the end-of-contents octets, and what comes after those. */
  function ParseAll(s: Octets): (p: ParsedAll)
    ensures p.Elements? ==> |p.rest| < |s|
    decreases |s|, 1
  {
    if AtEnd(s) then Elements(End, s[2..])
    else match Parse(s)
         case NoElement => NoElements
         case Element(e, r) =>
           (match ParseAll(r)
            case NoElements => NoElements
            case Elements(es, rest) => Elements(More(e, es), rest))
  }

  predicate AtEnd(s: Octets) {
    |s| >= 2 && s[0] == 0 && s[1] == 0
  }

  lemma LengthShrinks(s: Octets)
    ensures DecodedLength(s).Got? ==> |DecodedLength(s).rest| < |s|
  {
    if s != [] && s[0] > 0x80 && DecodedLength(s).Got? {
      LongConsumes(0, s[0] - 0x80, s[1..]);
    }
  }

  /** A length is read from its own octets, whatever follows. */
  lemma {:induction false} LongWithMore(n: nat, count: nat, s: Octets, more: Octets)
    requires DecodedLong(n, count, s).Got?
    ensures DecodedLong(n, count, s + more)
         == Got(DecodedLong(n, count, s).length, DecodedLong(n, count, s).rest + more)
    decreases count
  {
    if count > 0 {
      assert (s + more)[0] == s[0] && (s + more)[1..] == s[1..] + more;
      LongWithMore(256 * n + s[0], count - 1, s[1..], more);
    }
  }

  lemma LengthWithMore(s: Octets, more: Octets)
    requires DecodedLength(s).Got?
    ensures DecodedLength(s + more) == Got(DecodedLength(s).length, DecodedLength(s).rest + more)
  {
    assert (s + more)[0] == s[0] && (s + more)[1..] == s[1..] + more;
    if s[0] > 0x80 {
      LongWithMore(0, s[0] - 0x80, s[1..], more);
    }
  }

  lemma {:induction false} LongAlone(n: nat, count: nat, s: Octets)
    requires DecodedLong(n, count, s).Got?
    ensures count <= |s| && DecodedLong(n, count, s[..count]) == Got(DecodedLong(n, count, s).length, [])
    decreases count
  {
    if count > 0 {
      LongAlone(256 * n + s[0], count - 1, s[1..]);
      assert s[..count][1..] == s[1..][..count - 1];
    }
  }

  /** The octets in front of what a length leaves are its own. */
  lemma LengthAlone(s: Octets)
    requires DecodedLength(s).Got?
    ensures var rest := DecodedLength(s).rest;
            |rest| < |s| && s == s[..|s| - |rest|] + rest
            && DecodedLength(s[..|s| - |rest|]) == Got(DecodedLength(s).length, [])
  {
    LengthShrinks(s);
    if s[0] > 0x80 {
      var count := s[0] - 0x80;
      LongConsumes(0, count, s[1..]);
      LongAlone(0, count, s[1..]);
      assert s[..1 + count][1..] == s[1..][..count];
      assert s == s[..1 + count] + s[1 + count..];
    }
  }

  lemma EndLooks(e: Element, after: Octets)
    ensures LooksLikeEnd(e) ==> AtEnd(Written(e) + after)
  {
  }

  lemma ZeroLength(s: Octets)
    requires DecodedLength(s).Got? && DecodedLength(s).rest == []
    ensures s[0] == 0 <==> s == [0]
  {
    assert s == [s[0]] + s[1..];
  }

  lemma {:induction false} LongIsDefinite(n: nat, count: nat, s: Octets)
    requires DecodedLong(n, count, s).Got?
    ensures DecodedLong(n, count, s).length.Definite?
    decreases count
  {
    if count > 0 {
      LongIsDefinite(256 * n + s[0], count - 1, s[1..]);
    }
  }

  lemma IndefiniteIs(s: Octets, rest: Octets)
    requires DecodedLength(s) == Got(Indefinite, rest)
    ensures s == [0x80] + rest
  {
    if s[0] > 0x80 {
      LongIsDefinite(0, s[0] - 0x80, s[1..]);
    }
    assert s == [s[0]] + s[1..];
  }

  /** What is read is well-formed, and its octets are the ones consumed. */
  lemma {:induction false} ParseSound(s: Octets)
    requires Parse(s).Element?
    ensures WellFormed(Parse(s).e) && s == Written(Parse(s).e) + Parse(s).rest
    decreases |s|, 0
  {
    var t, r := s[1..], DecodedLength(s[1..]).rest;
    match DecodedLength(t).length
    case Definite(n) =>
      DefiniteSound(s, n);
    case Indefinite =>
      IndefiniteIs(t, r);
      ParseAllSound(r);
      assert s == [s[0]] + t;
  }

  lemma DefiniteSound(s: Octets, n: nat)
    requires Parse(s).Element? && DecodedLength(s[1..]).Got? && DecodedLength(s[1..]).length == Definite(n)
    ensures WellFormed(Parse(s).e) && s == Written(Parse(s).e) + Parse(s).rest
  {
    var t, r := s[1..], DecodedLength(s[1..]).rest;
    LengthAlone(t);
    Regroup(s, t[..|t| - |r|], r, n);
  }

  lemma Regroup(s: Octets, own: Octets, r: Octets, n: nat)
    requires s != [] && s[1..] == own + r && n <= |r|
    ensures s == [s[0]] + own + r[..n] + r[n..]
  {
    assert s == [s[0]] + s[1..] && r == r[..n] + r[n..];
  }

  lemma {:induction false} ParseAllSound(s: Octets)
    requires ParseAll(s).Elements?
    ensures AllWellFormed(ParseAll(s).es) && s == AllWritten(ParseAll(s).es) + [0, 0] + ParseAll(s).rest
    decreases |s|, 1
  {
    if AtEnd(s) {
      assert s == [0, 0] + s[2..];
    } else {
      var e, r := Parse(s).e, Parse(s).rest;
      ParseSound(s);
      ParseAllSound(r);
      EndLooks(e, r);
    }
  }

  /** Every well-formed element is read back, and exactly its octets are consumed. */
  lemma {:induction false} ParseComplete(e: Element, rest: Octets)
    requires WellFormed(e)
    ensures Parse(Written(e) + rest) == Element(e, rest)
    decreases e, 0
  {
    var s := Written(e) + rest;
    match e
    case Whole(tag, lengthOctets, contents) =>
      var after := contents + rest;
      assert s[1..] == lengthOctets + after;
      LengthWithMore(lengthOctets, after);
      assert [] + after == after;
      assert after[..|contents|] == contents && after[|contents|..] == rest;
      assert s[1..|s| - |after|] == lengthOctets;
    case Parts(tag, children) =>
      var after := AllWritten(children) + [0, 0] + rest;
      assert s[1..] == [0x80] + after && ([0x80] + after)[1..] == after;
      ParseAllComplete(children, rest);
  }

  lemma {:induction false} ParseAllComplete(es: Elements, rest: Octets)
    requires AllWellFormed(es)
    ensures ParseAll(AllWritten(es) + [0, 0] + rest) == Elements(es, rest)
    decreases es, 1
  {
    var s := AllWritten(es) + [0, 0] + rest;
    match es
    case End =>
      assert s[2..] == rest;
    case More(first, others) =>
      var after := AllWritten(others) + [0, 0] + rest;
      assert s == Written(first) + after;
      ParseComplete(first, after);
      ParseAllComplete(others, rest);
      NotAtEnd(first, after);
  }

  lemma NotAtEnd(e: Element, after: Octets)
    requires WellFormed(e) && !LooksLikeEnd(e)
    ensures !AtEnd(Written(e) + after)
  {
    match e
    case Whole(tag, lengthOctets, contents) =>
      ZeroLength(lengthOctets);
      assert (Written(e) + after)[0] == tag && (Written(e) + after)[1] == lengthOctets[0];
    case Parts(tag, children) =>
      assert (Written(e) + after)[1] == 0x80;
  }

  // ---- Rewriting ---------------------------------------------------------------------------

  /** The element with a definite length in the fewest octets: contents of definite length are
      copied, parts of indefinite length are rewritten in turn. */
  function Rewritten(e: Element): Element {
    match e
    case Whole(tag, lengthOctets, contents) => Whole(tag, ShortestLength(|contents|), contents)
    case Parts(tag, children) =>
      var contents := AllWritten(AllRewritten(children));
      Whole(tag, ShortestLength(|contents|), contents)
  }

  function AllRewritten(es: Elements): Elements {
    match es
    case End => End
    case More(first, rest) => More(Rewritten(first), AllRewritten(rest))
  }

  function ShortestLength(n: nat): Octets {
    if n < SIZE_LIMIT then LengthOctets(n) else []
  }

  /** All rewritten contents have 64-bit sizes. */
  ghost predicate Fits(e: Element) {
    match e
    case Whole(tag, lengthOctets, contents) => |contents| < SIZE_LIMIT
    case Parts(tag, children) => AllFit(children) && |AllWritten(AllRewritten(children))| < SIZE_LIMIT
  }

  ghost predicate AllFit(es: Elements) {
    match es
    case End => true
    case More(first, rest) => Fits(first) && AllFit(rest)
  }

  /** `d` has a definite length in the fewest octets, the tag of `e`, and its contents: the same
      octets if `e` has a definite length, else such elements for the parts of `e`, in order. */
  ghost predicate SameTree(e: Element, d: Element) {
    && d.Whole? && d.tag == e.tag && |d.contents| < SIZE_LIMIT && d.lengthOctets == LengthOctets(|d.contents|)
    && match e
       case Whole(tag, lengthOctets, contents) => d.contents == contents
       case Parts(tag, children) => exists ds :: SameTrees(children, ds) && d.contents == AllWritten(ds)
  }

  ghost predicate SameTrees(es: Elements, ds: Elements) {
    match es
    case End => ds == End
    case More(first, rest) => ds.More? && SameTree(first, ds.first) && SameTrees(rest, ds.rest)
  }

  /** Rewriting keeps the tree. */
  lemma {:induction false} RewrittenIsSame(e: Element)
    requires Fits(e)
    ensures SameTree(e, Rewritten(e))
    decreases e, 0
  {
    if e.Parts? {
      AllRewrittenAreSame(e.children);
    }
  }

  lemma {:induction false} AllRewrittenAreSame(es: Elements)
    requires AllFit(es)
    ensures SameTrees(es, AllRewritten(es))
    decreases es, 1
  {
    if es.More? {
      RewrittenIsSame(es.first);
      AllRewrittenAreSame(es.rest);
    }
  }

  /** And no other element has it. */
  lemma {:induction false} SameTreeIsRewritten(e: Element, d: Element)
    requires SameTree(e, d)
    ensures d == Rewritten(e)
    decreases e, 0
  {
    if e.Parts? {
      var ds :| SameTrees(e.children, ds) && d.contents == AllWritten(ds);
      SameTreesAreRewritten(e.children, ds);
    }
  }

  lemma {:induction false} SameTreesAreRewritten(es: Elements, ds: Elements)
    requires SameTrees(es, ds)
    ensures ds == AllRewritten(es)
    decreases es, 1
  {
    if es.More? {
      SameTreeIsRewritten(es.first, ds.first);
      SameTreesAreRewritten(es.rest, ds.rest);
    }
  }

  /** What was rewritten is well-formed and stays as it is when rewritten again. */
  lemma RewrittenOnce(e: Element, rest: Octets)
    requires Fits(e)
    ensures WellFormed(Rewritten(e)) && Fits(Rewritten(e))
    ensures Rewritten(Rewritten(e)) == Rewritten(e)
    ensures Parse(Written(Rewritten(e)) + rest) == Element(Rewritten(e), rest)
  {
    var d := Rewritten(e);
    DecodeEncodeLength(|d.contents|, []);
    assert LengthOctets(|d.contents|) + [] == LengthOctets(|d.contents|);
    ParseComplete(d, rest);
  }

  // ---- The recursion over streams ----------------------------------------------------------

  function Appended(es: Elements, more: Elements): Elements {
    match es
    case End => more
    case More(first, rest) => More(first, Appended(rest, more))
  }

  lemma {:induction false} AppendedRewritten(es: Elements, more: Elements)
    ensures AllWritten(AllRewritten(Appended(es, more)))
            == AllWritten(AllRewritten(es)) + AllWritten(AllRewritten(more))
  {
    match es
    case End =>
      assert [] + AllWritten(AllRewritten(more)) == AllWritten(AllRewritten(more));
    case More(first, rest) =>
      AppendedRewritten(rest, more);
  }

  lemma {:induction false} AppendAppend(a: Elements, b: Elements, c: Elements)
    ensures Appended(Appended(a, b), c) == Appended(a, Appended(b, c))
  {
    if a.More? {
      AppendAppend(a.rest, b, c);
    }
  }

  /** A result with elements read before it. */
  function Before(es: Elements, p: ParsedAll): ParsedAll {
    match p
    case NoElements => NoElements
    case Elements(more, rest) => Elements(Appended(es, more), rest)
  }

  /** Rewriting less than triples the size, so all sizes stay 64-bit. */
  lemma {:induction false} RewrittenSize(e: Element)
    requires WellFormed(e) && 3 * |Written(e)| < SIZE_LIMIT
    ensures Fits(e) && |Written(Rewritten(e))| <= 3 * |Written(e)|
    decreases e, 0
  {
    match e
    case Whole(tag, lengthOctets, contents) =>
      LengthIsShortest(lengthOctets, |contents|, []);
    case Parts(tag, children) =>
      AllRewrittenSize(children);
      LengthAtMostNine(|AllWritten(AllRewritten(children))|);
  }

  lemma {:induction false} AllRewrittenSize(es: Elements)
    requires AllWellFormed(es) && 3 * |AllWritten(es)| < SIZE_LIMIT
    ensures AllFit(es) && |AllWritten(AllRewritten(es))| <= 3 * |AllWritten(es)|
    decreases es, 1
  {
    if es.More? {
      RewrittenSize(es.first);
      AllRewrittenSize(es.rest);
    }
  }

  lemma LengthAtMostNine(n: nat)
    requires n < SIZE_LIMIT
    ensures |LengthOctets(n)| <= 9
  {
    assert Power(8) == SIZE_LIMIT;
    PrecisionIsLeast(n, 8);
    NumberOctetsLength(n, BytePrecision(n));
  }

  /** Writes an element of definite length. */
  method MessageEnd(dest: Queue, tag: Octet, contents: Octets)
    requires |contents| < SIZE_LIMIT
    modifies dest
    ensures dest.data == old(dest.data) + Written(Whole(tag, ShortestLength(|contents|), contents))
  {
    dest.Put([tag]);
    var i := DERLengthEncode(dest, |contents|);
    dest.Put(contents);
    assert dest.data == old(dest.data) + ([tag] + LengthOctets(|contents|) + contents);
  }

  /** Reads one element and writes it with definite lengths; fails exactly when the source does not
      start with a well-formed element. */
  method DERReencode(source: Queue, dest: Queue) returns (ok: bool)
    requires source != dest && 3 * |source.data| < SIZE_LIMIT
    modifies source, dest
    ensures ok == Parse(old(source.data)).Element?
    ensures ok ==> source.data == Parse(old(source.data)).rest
    ensures ok ==> dest.data == old(dest.data) + Written(Rewritten(Parse(old(source.data)).e))
    decreases |source.data|, 0
  {
    ghost var start := source.data;
    var got, tag := source.Get();
    if !got {
      return false;
    }
    ghost var t := source.data;
    assert t == start[1..];
    LengthShrinks(t);
    var r := BERLengthDecode(source);
    if !r.Read? || (r.length == Indefinite && !IsConstructed(tag)) {
      return false;
    }
    var encoder := new Queue([]);
    if r.length.Definite? {
      var n := r.length.n;
      if n > |source.data| {
        return false;
      }
      encoder.Put(source.data[..n]);
      assert [] + source.data[..n] == source.data[..n];
      source.data := source.data[n..];
    } else {
      var good := ReencodeParts(source, encoder);
      if !good {
        return false;
      }
    }
    ghost var p := Parse(start);
    ParsedSize(start);
    assert p.Element? && source.data == p.rest && encoder.data == Rewritten(p.e).contents;
    MessageEnd(dest, tag, encoder.data);
    ok := true;
  }

  lemma ParsedSize(s: Octets)
    requires 3 * |s| < SIZE_LIMIT && Parse(s).Element?
    ensures |Rewritten(Parse(s).e).contents| < SIZE_LIMIT
  {
    ParseSound(s);
    RewrittenSize(Parse(s).e);
  }

  /** The parts of an element of indefinite length, up to and with their end. */
  method ReencodeParts(source: Queue, dest: Queue) returns (ok: bool)
    requires source != dest && dest.data == [] && 3 * |source.data| < SIZE_LIMIT
    modifies source, dest
    ensures ok == ParseAll(old(source.data)).Elements?
    ensures ok ==> source.data == ParseAll(old(source.data)).rest
    ensures ok ==> dest.data == AllWritten(AllRewritten(ParseAll(old(source.data)).es))
    decreases |source.data|, 1
  {
    ghost var all, read := ParseAll(source.data), End;
    assert all == Before(read, ParseAll(source.data));
    while !AtEnd(source.data)
      invariant |source.data| <= |old(source.data)|
      invariant all == Before(read, ParseAll(source.data))
      invariant dest.data == AllWritten(AllRewritten(read))
      decreases |source.data|
    {
      ghost var s := source.data;
      var good := DERReencode(source, dest);
      if !good {
        return false;
      }
      NextPart(read, s);
      read := Appended(read, More(Parse(s).e, End));
    }
    source.data := source.data[2..];
    ok := true;
    AppendedEnd(read);
  }

  lemma NextPart(read: Elements, s: Octets)
    requires !AtEnd(s) && Parse(s).Element?
    ensures Before(read, ParseAll(s)) == Before(Appended(read, More(Parse(s).e, End)), ParseAll(Parse(s).rest))
    ensures AllWritten(AllRewritten(Appended(read, More(Parse(s).e, End))))
         == AllWritten(AllRewritten(read)) + Written(Rewritten(Parse(s).e))
  {
    var one := More(Parse(s).e, End);
    AppendedRewritten(read, one);
    assert AllWritten(AllRewritten(one)) == Written(Rewritten(Parse(s).e));
    var p := ParseAll(Parse(s).rest);
    if p.Elements? {
      AppendAppend(read, one, p.es);
    }
  }

  lemma {:induction false} AppendedEnd(es: Elements)
    ensures Appended(es, End) == es
  {
    if es.More? {
      AppendedEnd(es.rest);
    }
  }

  /** Re-encoding any well-formed element consumes exactly its octets and keeps its tree; doing it
      again changes nothing. */
  method ReencodeTwice(e: Element, rest: Octets) returns (once: Octets, twice: Octets, left: Octets)
    requires WellFormed(e) && 9 * |Written(e) + rest| < SIZE_LIMIT
    ensures exists d :: SameTree(e, d) && once == Written(d)
    ensures left == rest && twice == once
  {
    var source := new Queue(Written(e) + rest);
    var first := new Queue([]);
    var second := new Queue([]);
    ParseComplete(e, rest);
    RewrittenSize(e);
    RewrittenIsSame(e);
    RewrittenOnce(e, []);
    var ok := DERReencode(source, first);
    once, left := first.data, source.data;
    assert once == Written(Rewritten(e)) == Written(Rewritten(e)) + [];
    ok := DERReencode(first, second);
    twice := second.data;
  }
}
