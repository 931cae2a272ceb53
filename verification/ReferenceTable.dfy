/** The reference table of an index: columns of counts, deltas, names, checksums and revisions. */
module ReferenceTables {
  import opened OctetStrings
  import opened ArchiveReaders

  // ---- Fixed-size numbers ------------------------------------------------------------------

  function BigEndian2(v: nat): Octets
    requires v < 0x10000
  {
    [v / 256, v % 256]
  }

  function BigEndian4(v: nat): Octets
    requires v < WORD
  {
    [v / 0x100_0000, v / 0x10000 % 256, v / 256 % 256, v % 256]
  }

  lemma ValueOfBigEndian2(v: nat, rest: Octets)
    requires v < 0x10000
    ensures Value2(BigEndian2(v) + rest, 0) == v
  {
  }

  lemma ValueOfBigEndian4(v: nat, rest: Octets)
    requires v < WORD
    ensures Value4(BigEndian4(v) + rest, 0) == v
  {
    assert v / 0x10000 == 256 * (v / 0x100_0000) + v / 0x10000 % 256;
    assert v / 256 == 256 * (v / 0x10000) + v / 256 % 256;
  }

  /** A number in two octets below 32767, or in four with the top bit set; minus one is 32767 in two. */
  function BigSmart(v: int): Octets
    requires -1 <= v < 0x8000_0000
  {
    if v == -1 then BigEndian2(32767)
    else if v < 32767 then BigEndian2(v)
    else BigEndian4(v + 0x8000_0000)
  }

  datatype Read<T> = Got(value: T, rest: Octets) | Failed

  /** The first octet tells the form. */
  function ParsedBigSmart(s: Octets): Read<int> {
    if s == [] then Failed
    else if s[0] < 0x80 then
      if |s| < 2 then Failed
      else Got(if Value2(s, 0) == 32767 then -1 else Value2(s, 0), s[2..])
    else if |s| < 4 then Failed
    else Got(Value4(s, 0) % 0x8000_0000, s[4..])
  }

  lemma ParseBigSmart(v: int, rest: Octets)
    requires -1 <= v < 0x8000_0000
    ensures ParsedBigSmart(BigSmart(v) + rest) == Got(v, rest)
  {
    if v < 32767 {
      ValueOfBigEndian2(if v == -1 then 32767 else v, rest);
    } else {
      ValueOfBigEndian4(v + 0x8000_0000, rest);
      assert (v + 0x8000_0000) / 0x100_0000 >= 0x80;
      assert (v + 0x8000_0000) % 0x8000_0000 == v;
    }
  }

  function ParsedWord(s: Octets): Read<nat> {
    if |s| < 4 then Failed else Got(Value4(s, 0), s[4..])
  }

  // ---- Columns -----------------------------------------------------------------------------

  /** A count or a delta: two octets, or the smart form from protocol 7 on. */
  function ParsedNumber(protocol: nat, s: Octets): Read<int> {
    if protocol >= 7 then ParsedBigSmart(s)
    else if |s| < 2 then Failed else Got(Value2(s, 0), s[2..])
  }

  /** The ids: running sums in 32 bits. */
  function ParsedIds(protocol: nat, count: nat, last: nat, s: Octets): Read<seq<nat>> {
    if count == 0 then Got([], s)
    else match ParsedNumber(protocol, s)
         case Failed => Failed
         case Got(delta, r) =>
           var id := (last + delta) % WORD;
           match ParsedIds(protocol, count - 1, id, r)
           case Failed => Failed
           case Got(ids, rest) => Got([id] + ids, rest)
  }

  function Largest(ids: seq<nat>): nat {
    if ids == [] then 0
    else if Largest(ids[1..]) > ids[0] then Largest(ids[1..]) else ids[0]
  }

  function ParsedColumn(count: nat, s: Octets): Read<seq<nat>> {
    if count == 0 then Got([], s)
    else match ParsedWord(s)
         case Failed => Failed
         case Got(v, r) =>
           match ParsedColumn(count - 1, r)
           case Failed => Failed
           case Got(vs, rest) => Got([v] + vs, rest)
  }

  // ---- The table ---------------------------------------------------------------------------

  /** A slot; the digest is 64 octets, and empty as long as none was set. */
  datatype Reference = Reference(nameHash: nat, whirlpool: Octets, crc: nat, revision: nat)

  const DEFAULT_REFERENCE := Reference(0, [], 0, 0)

  datatype Field = NameHash | Crc | Revision

  function WithField(r: Reference, f: Field, v: nat): Reference {
    match f
    case NameHash => r.(nameHash := v)
    case Crc => r.(crc := v)
    case Revision => r.(revision := v)
  }

  predicate IdsIn(ids: seq<nat>, size: nat) {
    forall i :: 0 <= i < |ids| ==> ids[i] < size
  }

  /** The first `n` values of a column in the slots of their ids. */
  function Filled(slots: seq<Reference>, ids: seq<nat>, f: Field, values: seq<nat>, n: nat): (r: seq<Reference>)
    requires n <= |ids| && n <= |values| && IdsIn(ids, |slots|)
    ensures |r| == |slots|
  {
    if n == 0 then slots
    else
      var before := Filled(slots, ids, f, values, n - 1);
      before[ids[n - 1] := WithField(before[ids[n - 1]], f, values[n - 1])]
  }

  /** One digest in the slots of the first `n` ids. */
  function Stamped(slots: seq<Reference>, ids: seq<nat>, digest: Octets, n: nat): (r: seq<Reference>)
    requires n <= |ids| && IdsIn(ids, |slots|)
    ensures |r| == |slots|
  {
    if n == 0 then slots
    else
      var before := Stamped(slots, ids, digest, n - 1);
      before[ids[n - 1] := before[ids[n - 1]].(whirlpool := digest)]
  }

  datatype Table = Table(protocol: nat, revision: nat, flags: nat, references: seq<Reference>)

  predicate IsNamed(flags: nat) {
    flags % 2 == 1
  }

  predicate IsWhirlpooled(flags: nat) {
    flags / 2 % 2 == 1
  }

  lemma {:induction false} LargestIs(ids: seq<nat>)
    ensures IdsIn(ids, Largest(ids) + 1)
    ensures ids != [] ==> Largest(ids) in ids
  {
    if ids != [] {
      LargestIs(ids[1..]);
      assert ids == [ids[0]] + ids[1..];
    }
  }

  lemma {:induction false} ParsedColumnLength(count: nat, s: Octets)
    ensures ParsedColumn(count, s).Got? ==> |ParsedColumn(count, s).value| == count
  {
    if count > 0 && ParsedWord(s).Got? {
      ParsedColumnLength(count - 1, ParsedWord(s).rest);
    }
  }

  lemma {:induction false} ParsedIdsAre(protocol: nat, count: nat, last: nat, s: Octets)
    ensures ParsedIds(protocol, count, last, s).Got? ==>
              |ParsedIds(protocol, count, last, s).value| == count
              && IdsIn(ParsedIds(protocol, count, last, s).value, WORD)
  {
    if count > 0 && ParsedNumber(protocol, s).Got? {
      var id := (last + ParsedNumber(protocol, s).value) % WORD;
      ParsedIdsAre(protocol, count - 1, id, ParsedNumber(protocol, s).rest);
    }
  }

  /** One column read and filled in. */
  function ParsedField(slots: seq<Reference>, ids: seq<nat>, f: Field, s: Octets): (p: Read<seq<Reference>>)
    requires IdsIn(ids, |slots|)
    ensures p.Got? ==> |p.value| == |slots|
  {
    ParsedColumnLength(|ids|, s);
    match ParsedColumn(|ids|, s)
    case Failed => Failed
    case Got(values, rest) => Got(Filled(slots, ids, f, values, |ids|), rest)
  }

  function EmptySlots(n: nat): seq<Reference> {
    seq(n, _ => DEFAULT_REFERENCE)
  }

  /** The digests: all are read from the same place, and none is passed over. */
  function ParsedDigests(slots: seq<Reference>, ids: seq<nat>, s: Octets): (p: Read<seq<Reference>>)
    requires IdsIn(ids, |slots|)
    ensures p.Got? ==> |p.value| == |slots|
  {
    if ids == [] then Got(slots, s)
    else if |s| < 64 then Failed
    else Got(Stamped(slots, ids, s[..64], |ids|), s)
  }

  /** The first two columns, where the flags say they are there. */
  function ParsedOptional(slots: seq<Reference>, ids: seq<nat>, flags: nat, s: Octets): (p: Read<seq<Reference>>)
    requires IdsIn(ids, |slots|)
    ensures p.Got? ==> |p.value| == |slots|
  {
    match (if IsNamed(flags) then ParsedField(slots, ids, NameHash, s) else Got(slots, s))
    case Failed => Failed
    case Got(a, r) => if IsWhirlpooled(flags) then ParsedDigests(a, ids, r) else Got(a, r)
  }

  /** The slots for the ids; none when the largest id is the largest word. */
  function ParsedReferences(ids: seq<nat>, flags: nat, s: Octets): Read<seq<Reference>>
    requires IdsIn(ids, WORD)
  {
    LargestIs(ids);
    if Largest(ids) + 1 == WORD then Got([], s)
    else
      match ParsedOptional(EmptySlots(Largest(ids) + 1), ids, flags, s)
      case Failed => Failed
      case Got(a, r) =>
        match ParsedField(a, ids, Crc, r)
        case Failed => Failed
        case Got(b, q) => ParsedField(b, ids, Revision, q)
  }

  /** A table of protocol 6 or 7. */
  function ParsedTable(s: Octets): Read<Table> {
    if |s| < 6 || s[0] < 6 || s[0] > 7 then Failed
    else match ParsedNumber(s[0], s[6..])
         case Failed => Failed
         case Got(count, r) =>
           if count < 0 then Failed
           else
             ParsedIdsAre(s[0], count, 0, r);
             match ParsedIds(s[0], count, 0, r)
             case Failed => Failed
             case Got(ids, q) =>
               match ParsedReferences(ids, s[5], q)
               case Failed => Failed
               case Got(references, rest) => Got(Table(s[0], Value4(s, 1), s[5], references), rest)
  }

  // ---- The serialised form -----------------------------------------------------------------

  function Number(protocol: nat, v: nat): Octets
    requires v < if protocol >= 7 then 0x8000_0000 else 0x10000
  {
    if protocol >= 7 then BigSmart(v) else BigEndian2(v)
  }

  /** Ids after `last` that only grow, by amounts the protocol can write. */
  predicate Writable(protocol: nat, last: nat, ids: seq<nat>)
    decreases |ids|
  {
    ids != [] ==>
      && last <= ids[0] < WORD && ids[0] - last < (if protocol >= 7 then 0x8000_0000 else 0x10000)
      && Writable(protocol, ids[0], ids[1..])
  }

  function Deltas(protocol: nat, last: nat, ids: seq<nat>): Octets
    requires Writable(protocol, last, ids)
    decreases |ids|
  {
    if ids == [] then [] else Number(protocol, ids[0] - last) + Deltas(protocol, ids[0], ids[1..])
  }

  predicate Words(values: seq<nat>) {
    forall i :: 0 <= i < |values| ==> values[i] < WORD
  }

  function Column(values: seq<nat>): Octets
    requires Words(values)
  {
    if values == [] then [] else BigEndian4(values[0]) + Column(values[1..])
  }

  /** The entries of a table, in order of their ids. */
  datatype Entries = Entries(ids: seq<nat>, names: seq<nat>, digests: seq<Octets>, crcs: seq<nat>, revisions: seq<nat>)

  predicate SameLengths(e: Entries) {
    |e.ids| == |e.names| == |e.digests| == |e.crcs| == |e.revisions|
  }

  predicate Digests(digests: seq<Octets>) {
    forall i :: 0 <= i < |digests| ==> |digests[i]| == 64
  }

  predicate Serialisable(protocol: nat, revision: nat, flags: nat, e: Entries) {
    && (protocol == 6 || protocol == 7) && revision < WORD && flags < 256
    && SameLengths(e) && Digests(e.digests)
    && |e.ids| < (if protocol == 7 then 0x8000_0000 else 0x10000)
    && Writable(protocol, 0, e.ids) && Increasing(e.ids)
    && Words(e.names) && Words(e.crcs) && Words(e.revisions)
  }

  predicate Increasing(ids: seq<nat>) {
    forall i, j :: 0 <= i < j < |ids| ==> ids[i] < ids[j]
  }

  function Serialised(protocol: nat, revision: nat, flags: nat, e: Entries): Octets
    requires Serialisable(protocol, revision, flags, e)
  {
    [protocol] + BigEndian4(revision) + [flags] + Number(protocol, |e.ids|) + Deltas(protocol, 0, e.ids)
    + Names(flags, e) + Columns(flags, e)
  }

  function Names(flags: nat, e: Entries): Octets
    requires Words(e.names)
  {
    if IsNamed(flags) then Column(e.names) else []
  }

  /** What follows the names. */
  function Columns(flags: nat, e: Entries): Octets
    requires Words(e.crcs) && Words(e.revisions)
  {
    (if IsWhirlpooled(flags) then Concat(e.digests) else []) + (Column(e.crcs) + Column(e.revisions))
  }

  lemma ParseNumber(protocol: nat, v: nat, rest: Octets)
    requires v < if protocol >= 7 then 0x8000_0000 else 0x10000
    ensures ParsedNumber(protocol, Number(protocol, v) + rest) == Got(v, rest)
  {
    if protocol >= 7 {
      ParseBigSmart(v, rest);
    } else {
      ValueOfBigEndian2(v, rest);
    }
  }

  lemma FirstId(protocol: nat, count: nat, last: nat, s: Octets, id: nat, r: Octets, ids: seq<nat>, rest: Octets)
    requires count > 0 && id < WORD && ParsedNumber(protocol, s) == Got(id - last, r)
    requires ParsedIds(protocol, count - 1, id, r) == Got(ids, rest)
    ensures ParsedIds(protocol, count, last, s) == Got([id] + ids, rest)
  {
    BelowWord(id);
  }

  lemma FirstDelta(protocol: nat, last: nat, ids: seq<nat>, rest: Octets)
    requires Writable(protocol, last, ids) && ids != []
    ensures Deltas(protocol, last, ids) + rest
         == Number(protocol, ids[0] - last) + (Deltas(protocol, ids[0], ids[1..]) + rest)
  {
  }

  /** The running sums undo the deltas. */
  lemma {:induction false} ParseDeltas(protocol: nat, last: nat, ids: seq<nat>, rest: Octets)
    requires Writable(protocol, last, ids)
    ensures ParsedIds(protocol, |ids|, last, Deltas(protocol, last, ids) + rest) == Got(ids, rest)
    decreases |ids|
  {
    if ids == [] {
      assert [] + rest == rest;
    } else {
      hide Deltas, Number, ParsedNumber, ParsedIds;
      var tail := Deltas(protocol, ids[0], ids[1..]);
      FirstDelta(protocol, last, ids, rest);
      ParseNumber(protocol, ids[0] - last, tail + rest);
      ParseDeltas(protocol, ids[0], ids[1..], rest);
      FirstId(protocol, |ids|, last, Deltas(protocol, last, ids) + rest, ids[0], tail + rest, ids[1..], rest);
      assert ids == [ids[0]] + ids[1..];
    }
  }

  lemma {:induction false} ParseColumn(values: seq<nat>, rest: Octets)
    requires Words(values)
    ensures ParsedColumn(|values|, Column(values) + rest) == Got(values, rest)
  {
    if values == [] {
      assert [] + rest == rest;
    } else {
      var tail := Column(values[1..]);
      assert Column(values) + rest == BigEndian4(values[0]) + (tail + rest);
      ValueOfBigEndian4(values[0], tail + rest);
      ParseColumn(values[1..], rest);
      assert values == [values[0]] + values[1..];
    }
  }

  // ---- What the slots hold -----------------------------------------------------------------

  /** Filling one column sets one field of the slots of the ids, and nothing else. */
  lemma {:induction false} FilledIs(slots: seq<Reference>, ids: seq<nat>, f: Field, values: seq<nat>, n: nat)
    requires n <= |ids| && |ids| == |values| && IdsIn(ids, |slots|) && Increasing(ids)
    ensures forall i :: 0 <= i < n ==>
              Filled(slots, ids, f, values, n)[ids[i]] == WithField(slots[ids[i]], f, values[i])
    ensures forall j :: 0 <= j < |slots| && j !in ids[..n] ==> Filled(slots, ids, f, values, n)[j] == slots[j]
  {
    if n > 0 {
      FilledIs(slots, ids, f, values, n - 1);
      assert ids[..n] == ids[..n - 1] + [ids[n - 1]];
      assert ids[n - 1] !in ids[..n - 1];
    }
  }

  lemma {:induction false} StampedIs(slots: seq<Reference>, ids: seq<nat>, digest: Octets, n: nat)
    requires n <= |ids| && IdsIn(ids, |slots|)
    ensures forall j :: 0 <= j < |slots| ==>
              Stamped(slots, ids, digest, n)[j]
              == if j in ids[..n] then slots[j].(whirlpool := digest) else slots[j]
  {
    if n > 0 {
      StampedIs(slots, ids, digest, n - 1);
      assert ids[..n] == ids[..n - 1] + [ids[n - 1]];
    }
  }

  /** The slot of entry `i`. */
  function Entry(e: Entries, flags: nat, i: nat): Reference
    requires SameLengths(e) && i < |e.ids|
  {
    Reference(if IsNamed(flags) then e.names[i] else 0, if IsWhirlpooled(flags) then e.digests[i] else [],
              e.crcs[i], e.revisions[i])
  }

  /** What the listed ids hold, and that all other slots are empty. */
  ghost predicate Holds(references: seq<Reference>, flags: nat, e: Entries) {
    && |references| == Largest(e.ids) + 1
    && SameLengths(e) && IdsIn(e.ids, |references|)
    && (forall i :: 0 <= i < |e.ids| ==> references[e.ids[i]] == Entry(e, flags, i))
    && (forall j :: 0 <= j < |references| && j !in e.ids ==> references[j] == DEFAULT_REFERENCE)
  }

  /** Entries that all have one digest, the only ones the columns can be read into. */
  predicate Listed(flags: nat, e: Entries) {
    && SameLengths(e) && Increasing(e.ids)
    && (IsWhirlpooled(flags) ==> forall i :: 0 <= i < |e.ids| ==> e.digests[i] == e.digests[0])
  }

  /** The slots after all columns. */
  function AllFilled(flags: nat, e: Entries): seq<Reference>
    requires Listed(flags, e)
  {
    LargestIs(e.ids);
    var slots, n := EmptySlots(Largest(e.ids) + 1), |e.ids|;
    var a := Named(slots, flags, e);
    var b := if IsWhirlpooled(flags) && n > 0 then Stamped(a, e.ids, e.digests[0], n) else a;
    var c := Filled(b, e.ids, Crc, e.crcs, n);
    Filled(c, e.ids, Revision, e.revisions, n)
  }

  lemma AllFilledHolds(flags: nat, e: Entries)
    requires Listed(flags, e)
    ensures Holds(AllFilled(flags, e), flags, e)
  {
    hide Filled, Stamped, Largest;
    LargestIs(e.ids);
    var slots, n := EmptySlots(Largest(e.ids) + 1), |e.ids|;
    assert e.ids[..n] == e.ids;
    var a := Named(slots, flags, e);
    FilledIs(slots, e.ids, NameHash, e.names, n);
    var b := if IsWhirlpooled(flags) && n > 0 then Stamped(a, e.ids, e.digests[0], n) else a;
    if n > 0 {
      StampedIs(a, e.ids, e.digests[0], n);
    }
    var c := Filled(b, e.ids, Crc, e.crcs, n);
    FilledIs(b, e.ids, Crc, e.crcs, n);
    FilledIs(c, e.ids, Revision, e.revisions, n);
  }

  /** Word `i` from every fourth octet on. */
  function WordsOf(s: Octets, n: nat): seq<nat>
    requires |s| >= 4 * n
  {
    seq(n, i requires 0 <= i < n => Value4(s, 4 * i))
  }

  lemma WordsOfStep(s: Octets, n: nat)
    requires n > 0 && |s| >= 4 * n
    ensures WordsOf(s, n) == [Value4(s, 0)] + WordsOf(s[4..], n - 1)
  {
    forall i | 0 < i < n ensures WordsOf(s, n)[i] == WordsOf(s[4..], n - 1)[i - 1] {
      assert Value4(s, 4 * i) == Value4(s[4..], 4 * (i - 1));
    }
  }

  lemma {:induction false} ParsedWordsOf(n: nat, s: Octets)
    requires |s| >= 4 * n
    ensures ParsedColumn(n, s) == Got(WordsOf(s, n), s[4 * n..])
  {
    if n == 0 {
      assert s[0..] == s && WordsOf(s, 0) == [];
    } else {
      ParsedWordsOf(n - 1, s[4..]);
      WordsOfStep(s, n);
      assert s[4..][4 * (n - 1)..] == s[4 * n..];
    }
  }

  /** The entries that come out of `columns`, the octets after the names: their own, unless there are
      digests, which are then taken for the checksums and revisions too. */
  function AsRead(flags: nat, e: Entries, columns: Octets): Entries
    requires SameLengths(e)
    requires IsWhirlpooled(flags) && e.ids != [] ==> |columns| >= 64 && |columns| >= 8 * |e.ids|
  {
    var n := |e.ids|;
    if !IsWhirlpooled(flags) || n == 0 then e
    else Entries(e.ids, e.names, seq(n, _ => columns[..64]), WordsOf(columns, n), WordsOf(columns[4 * n..], n))
  }

  lemma ParseField(slots: seq<Reference>, ids: seq<nat>, f: Field, values: seq<nat>, rest: Octets)
    requires IdsIn(ids, |slots|) && |ids| == |values| && Words(values)
    ensures ParsedField(slots, ids, f, Column(values) + rest) == Got(Filled(slots, ids, f, values, |ids|), rest)
  {
    ParseColumn(values, rest);
  }

  lemma ParseWords(slots: seq<Reference>, ids: seq<nat>, f: Field, s: Octets)
    requires IdsIn(ids, |slots|) && |s| >= 4 * |ids|
    ensures ParsedField(slots, ids, f, s) == Got(Filled(slots, ids, f, WordsOf(s, |ids|), |ids|), s[4 * |ids|..])
  {
    ParsedWordsOf(|ids|, s);
  }

  lemma {:induction false} ColumnLength(values: seq<nat>)
    requires Words(values)
    ensures |Column(values)| == 4 * |values|
  {
    if values != [] {
      ColumnLength(values[1..]);
    }
  }

  lemma {:induction false} DigestsLength(digests: seq<Octets>)
    requires Digests(digests)
    ensures |Concat(digests)| == 64 * |digests|
  {
    if digests != [] {
      DigestsLength(digests[1..]);
    }
  }

  /** The columns one after the other. */
  lemma ReferencesFrom(ids: seq<nat>, flags: nat, s: Octets, a: seq<Reference>, r: Octets,
                       b: seq<Reference>, q: Octets, c: seq<Reference>, rest: Octets)
    requires IdsIn(ids, WORD - 1) && |a| == |b| == Largest(ids) + 1 && IdsIn(ids, |a|)
    requires ParsedOptional(EmptySlots(Largest(ids) + 1), ids, flags, s) == Got(a, r)
    requires ParsedField(a, ids, Crc, r) == Got(b, q) && ParsedField(b, ids, Revision, q) == Got(c, rest)
    ensures ParsedReferences(ids, flags, s) == Got(c, rest)
  {
    LargestIs(ids);
  }

  /** The names come back. */
  lemma ParseNames(slots: seq<Reference>, flags: nat, e: Entries, r: Octets)
    requires SameLengths(e) && Words(e.names) && IdsIn(e.ids, |slots|)
    ensures (if IsNamed(flags) then ParsedField(slots, e.ids, NameHash, Names(flags, e) + r)
             else Got(slots, Names(flags, e) + r))
         == Got(Named(slots, flags, e), r)
  {
    if IsNamed(flags) {
      ParseField(slots, e.ids, NameHash, e.names, r);
    } else {
      assert [] + r == r;
    }
  }

  function Named(slots: seq<Reference>, flags: nat, e: Entries): seq<Reference>
    requires SameLengths(e) && IdsIn(e.ids, |slots|)
  {
    if IsNamed(flags) then Filled(slots, e.ids, NameHash, e.names, |e.ids|) else slots
  }

  /** Columns without digests come back. */
  lemma ParsePlainReferences(flags: nat, e: Entries, rest: Octets)
    requires SameLengths(e) && Increasing(e.ids) && Words(e.names) && Words(e.crcs) && Words(e.revisions)
    requires IdsIn(e.ids, WORD - 1) && (IsWhirlpooled(flags) ==> e.ids == [])
    ensures ParsedReferences(e.ids, flags, Names(flags, e) + (Columns(flags, e) + rest))
            == Got(AllFilled(flags, e), rest)
  {
    hide Filled, ParsedField, ParsedReferences, Column, Largest;
    LargestIs(e.ids);
    var slots, n, r := EmptySlots(Largest(e.ids) + 1), |e.ids|, Columns(flags, e) + rest;
    var q := Column(e.revisions) + rest;
    assert r == Column(e.crcs) + q;
    ParseNames(slots, flags, e, r);
    var a := Named(slots, flags, e);
    ParseField(a, e.ids, Crc, e.crcs, q);
    var b := Filled(a, e.ids, Crc, e.crcs, n);
    ParseField(b, e.ids, Revision, e.revisions, rest);
    ReferencesFrom(e.ids, flags, Names(flags, e) + r, a, r, b, q, Filled(b, e.ids, Revision, e.revisions, n), rest);
  }

  /** With digests, the checksums and revisions are read where the digests are. */
  lemma ParseDigestReferences(flags: nat, e: Entries, columns: Octets)
    requires SameLengths(e) && Increasing(e.ids) && Words(e.names) && IdsIn(e.ids, WORD - 1)
    requires IsWhirlpooled(flags) && e.ids != [] && |columns| >= 72 * |e.ids|
    ensures ParsedReferences(e.ids, flags, Names(flags, e) + columns)
         == Got(AllFilled(flags, AsRead(flags, e, columns)), columns[8 * |e.ids|..])
  {
    hide Filled, Stamped, ParsedField, ParsedReferences, Largest;
    LargestIs(e.ids);
    var slots, n, d := EmptySlots(Largest(e.ids) + 1), |e.ids|, AsRead(flags, e, columns);
    var q, rest := columns[4 * n..], columns[8 * n..];
    assert q[4 * n..] == rest;
    ParseNames(slots, flags, e, columns);
    var a := Stamped(Named(slots, flags, e), e.ids, columns[..64], n);
    ParseWords(a, e.ids, Crc, columns);
    var b := Filled(a, e.ids, Crc, d.crcs, n);
    ParseWords(b, e.ids, Revision, q);
    var c := Filled(b, e.ids, Revision, d.revisions, n);
    ReferencesFrom(e.ids, flags, Names(flags, e) + columns, a, columns, b, q, c, rest);
  }

  /** A serialised table comes back if and only if it has no digests, and its largest id is not the
      largest word. */
  lemma ParseSerialised(protocol: nat, revision: nat, flags: nat, e: Entries, rest: Octets)
    requires Serialisable(protocol, revision, flags, e)
    ensures var p := ParsedTable(Serialised(protocol, revision, flags, e) + rest);
            && p.Got?
            && p.value.protocol == protocol && p.value.revision == revision && p.value.flags == flags
            && (p.rest == rest && Holds(p.value.references, flags, e) <==>
                  IdsIn(e.ids, WORD - 1) && (IsWhirlpooled(flags) ==> e.ids == []))
            && Slots(p.value.references, flags, e, rest)
  {
    var names, columns := Names(flags, e), Columns(flags, e) + rest;
    var deltas, count := Deltas(protocol, 0, e.ids), Number(protocol, |e.ids|);
    var s := Serialised(protocol, revision, flags, e) + rest;
    Associate([protocol] + BigEndian4(revision) + [flags], count, deltas, names, Columns(flags, e), rest);
    SplitHeader(protocol, revision, flags, count + (deltas + (names + columns)), s);
    ParseNumber(protocol, |e.ids|, deltas + (names + columns));
    ParseDeltas(protocol, 0, e.ids, names + columns);
    ParsedIdsAre(protocol, |e.ids|, 0, deltas + (names + columns));
    ParseSlots(flags, e, rest);
  }

  /** What the slots are in every case. */
  ghost predicate Slots(references: seq<Reference>, flags: nat, e: Entries, rest: Octets)
    requires SameLengths(e) && Digests(e.digests) && Words(e.crcs) && Words(e.revisions)
  {
    ColumnsLength(flags, e);
    if IdsIn(e.ids, WORD - 1) then Holds(references, flags, AsRead(flags, e, Columns(flags, e) + rest))
    else references == []
  }

  lemma ColumnsLength(flags: nat, e: Entries)
    requires SameLengths(e) && Digests(e.digests) && Words(e.crcs) && Words(e.revisions)
    ensures |Columns(flags, e)| == (if IsWhirlpooled(flags) then 72 else 8) * |e.ids|
  {
    DigestsLength(e.digests);
    ColumnLength(e.crcs);
    ColumnLength(e.revisions);
  }

  lemma ParseSlots(flags: nat, e: Entries, rest: Octets)
    requires SameLengths(e) && Digests(e.digests) && Increasing(e.ids) && IdsIn(e.ids, WORD)
    requires Words(e.names) && Words(e.crcs) && Words(e.revisions)
    ensures var p := ParsedReferences(e.ids, flags, Names(flags, e) + (Columns(flags, e) + rest));
            && p.Got? && Slots(p.value, flags, e, rest)
            && (p.rest == rest && Holds(p.value, flags, e) <==>
                  IdsIn(e.ids, WORD - 1) && (IsWhirlpooled(flags) ==> e.ids == []))
  {
    hide Columns, Names, Holds, AllFilled;
    LargestIs(e.ids);
    var columns := Columns(flags, e) + rest;
    ColumnsLength(flags, e);
    if !IdsIn(e.ids, WORD - 1) {
      assert Largest(e.ids) + 1 == WORD;
    } else if IsWhirlpooled(flags) && e.ids != [] {
      ParseDigestReferences(flags, e, columns);
      AllFilledHolds(flags, AsRead(flags, e, columns));
    } else {
      ParsePlainReferences(flags, e, rest);
      AllFilledHolds(flags, e);
    }
  }

  /** The first checksum read from columns with digests is the start of the first digest. */
  lemma FirstChecksum(flags: nat, e: Entries, references: seq<Reference>)
    requires SameLengths(e) && Digests(e.digests) && Words(e.crcs) && Words(e.revisions)
    requires IsWhirlpooled(flags) && e.ids != [] && IdsIn(e.ids, WORD - 1) && Slots(references, flags, e, [])
    ensures e.ids[0] < |references| && references[e.ids[0]].crc == Value4(e.digests[0], 0)
  {
    ColumnsLength(flags, e);
    var columns := Columns(flags, e) + [];
    assert columns[..64] == e.digests[0];
    assert references[e.ids[0]] == Entry(AsRead(flags, e, columns), flags, 0);
  }

  /** One entry, its digest all ones and its checksum 0. */
  const ONE_ENTRY: Entries := Entries([0], [0], [seq(64, _ => 255)], [0], [0])

  /** The checksum that is read is not 0. */
  lemma DigestMisread()
    ensures Serialisable(6, 0, 2, ONE_ENTRY) && ParsedTable(Serialised(6, 0, 2, ONE_ENTRY)).Got?
    ensures var references := ParsedTable(Serialised(6, 0, 2, ONE_ENTRY)).value.references;
            |references| > 0 && references[0].crc == WORD - 1
  {
    hide ParsedTable, Serialised, Slots;
    var e := ONE_ENTRY;
    ParseSerialised(6, 0, 2, e, []);
    assert Serialised(6, 0, 2, e) + [] == Serialised(6, 0, 2, e);
    FirstChecksum(2, e, ParsedTable(Serialised(6, 0, 2, e)).value.references);
  }

  lemma Associate(header: Octets, a: Octets, b: Octets, c: Octets, d: Octets, rest: Octets)
    ensures header + a + b + c + d + rest == header + (a + (b + (c + (d + rest))))
  {
  }

  lemma SplitHeader(protocol: nat, revision: nat, flags: nat, body: Octets, s: Octets)
    requires protocol < 256 && revision < WORD && flags < 256
    requires s == [protocol] + BigEndian4(revision) + [flags] + body
    ensures |s| >= 6 && s[0] == protocol && s[5] == flags && s[6..] == body && Value4(s, 1) == revision
  {
    ValueOfBigEndian4(revision, [flags] + body);
  }

  // ---- The reader --------------------------------------------------------------------------

  /** A buffer with a read position. */
  class Buffer {
    const data: Octets
    var position: nat

    constructor (data: Octets)
      ensures this.data == data && position == 0
    {
      this.data, position := data, 0;
    }

    ghost predicate Valid()
      reads this
    {
      position <= |data|
    }

    function Rest(): Octets
      requires Valid()
      reads this
    {
      data[position..]
    }

    /** The next octets, if there are that many. */
    method GetData(count: nat) returns (ok: bool, at: nat)
      requires Valid()
      modifies this
      ensures Valid() && ok == (count <= |old(Rest())|)
      ensures ok ==> at == old(position) && Rest() == old(Rest())[count..]
    {
      at := position;
      ok := position + count <= |data|;
      if ok {
        position := position + count;
      }
    }

    method GetWord() returns (ok: bool, v: nat)
      requires Valid()
      modifies this
      ensures Valid()
      ensures ok == ParsedWord(old(Rest())).Got?
      ensures ok ==> v == ParsedWord(old(Rest())).value && Rest() == ParsedWord(old(Rest())).rest
    {
      var at;
      ok, at := GetData(4);
      v := if ok then Value4(data, at) else 0;
    }
  }

  method ReadBigSmart(data: Buffer) returns (ok: bool, v: int)
    requires data.Valid()
    modifies data
    ensures data.Valid() && ok == ParsedBigSmart(old(data.Rest())).Got?
    ensures ok ==> v == ParsedBigSmart(old(data.Rest())).value && data.Rest() == ParsedBigSmart(old(data.Rest())).rest
  {
    v := 0;
    if data.position >= |data.data| {
      return false, 0;
    }
    var at;
    if data.data[data.position] < 0x80 {
      ok, at := data.GetData(2);
      if ok {
        v := if Value2(data.data, at) == 32767 then -1 else Value2(data.data, at);
      }
    } else {
      ok, at := data.GetData(4);
      if ok {
        v := Value4(data.data, at) % 0x8000_0000;
      }
    }
  }

  method ReadNumber(data: Buffer, protocol: nat) returns (ok: bool, v: int)
    requires data.Valid()
    modifies data
    ensures data.Valid() && ok == ParsedNumber(protocol, old(data.Rest())).Got?
    ensures ok ==> v == ParsedNumber(protocol, old(data.Rest())).value
    ensures ok ==> data.Rest() == ParsedNumber(protocol, old(data.Rest())).rest
  {
    if protocol >= 7 {
      ok, v := ReadBigSmart(data);
    } else {
      var at;
      ok, at := data.GetData(2);
      v := if ok then Value2(data.data, at) else 0;
    }
  }

  /** A result with values read before it. */
  function ValuesBefore(read: seq<nat>, p: Read<seq<nat>>): Read<seq<nat>> {
    match p
    case Failed => Failed
    case Got(values, rest) => Got(read + values, rest)
  }

  /** The ids and the largest of them. */
  method ReadIds(data: Buffer, protocol: nat, count: nat) returns (ok: bool, ids: seq<nat>, largest: nat)
    requires data.Valid()
    modifies data
    ensures data.Valid() && ok == ParsedIds(protocol, count, 0, old(data.Rest())).Got?
    ensures ok ==> ids == ParsedIds(protocol, count, 0, old(data.Rest())).value && largest == Largest(ids)
    ensures ok ==> data.Rest() == ParsedIds(protocol, count, 0, old(data.Rest())).rest
  {
    ghost var whole := ParsedIds(protocol, count, 0, data.Rest());
    ids, largest := [], 0;
    var last: nat := 0;
    NothingBefore(whole);
    while |ids| < count
      invariant data.Valid() && |ids| <= count && largest == Largest(ids)
      invariant whole == ValuesBefore(ids, ParsedIds(protocol, count - |ids|, last, data.Rest()))
    {
      ghost var rest := ParsedIds(protocol, count - |ids|, last, data.Rest());
      var good, delta := ReadNumber(data, protocol);
      if !good {
        return false, ids, largest;
      }
      last := (last + delta) % WORD;
      LargestSnoc(ids, last);
      StepBefore(ids, last, ParsedIds(protocol, count - |ids| - 1, last, data.Rest()));
      ids := ids + [last];
      if last > largest {
        largest := last;
      }
    }
    ok := true;
    assert ids + [] == ids;
  }

  lemma NothingBefore(p: Read<seq<nat>>)
    ensures ValuesBefore([], p) == p
  {
    if p.Got? {
      assert [] + p.value == p.value;
    }
  }

  lemma StepBefore(read: seq<nat>, v: nat, p: Read<seq<nat>>)
    ensures ValuesBefore(read + [v], p) == ValuesBefore(read, ValuesBefore([v], p))
  {
    if p.Got? {
      assert read + [v] + p.value == read + ([v] + p.value);
    }
  }

  lemma {:induction false} LargestSnoc(ids: seq<nat>, id: nat)
    ensures Largest(ids + [id]) == if id > Largest(ids) then id else Largest(ids)
  {
    if ids != [] {
      LargestSnoc(ids[1..], id);
      assert (ids + [id])[1..] == ids[1..] + [id];
    } else {
      assert ([] + [id])[1..] == [];
    }
  }

  lemma {:induction false} FilledPrefix(slots: seq<Reference>, ids: seq<nat>, f: Field, values: seq<nat>, v: nat,
                                        n: nat)
    requires n <= |ids| && n <= |values| && IdsIn(ids, |slots|)
    ensures Filled(slots, ids, f, values + [v], n) == Filled(slots, ids, f, values, n)
  {
    if n > 0 {
      FilledPrefix(slots, ids, f, values, v, n - 1);
    }
  }

  /** The slots after one more value. */
  lemma FilledStep(slots: seq<Reference>, ids: seq<nat>, f: Field, read: seq<nat>, v: nat, i: nat)
    requires i < |ids| && i == |read| && IdsIn(ids, |slots|)
    ensures Filled(slots, ids, f, read + [v], i + 1)
         == Filled(slots, ids, f, read, i)[ids[i] := WithField(Filled(slots, ids, f, read, i)[ids[i]], f, v)]
  {
    FilledPrefix(slots, ids, f, read, v, i);
  }

  lemma ColumnStep(whole: Read<seq<nat>>, read: seq<nat>, count: nat, s: Octets)
    requires count > 0 && whole == ValuesBefore(read, ParsedColumn(count, s))
    ensures ParsedWord(s).Failed? ==> whole.Failed?
    ensures ParsedWord(s).Got? ==>
              whole == ValuesBefore(read + [ParsedWord(s).value], ParsedColumn(count - 1, ParsedWord(s).rest))
  {
    if ParsedWord(s).Got? {
      StepBefore(read, ParsedWord(s).value, ParsedColumn(count - 1, ParsedWord(s).rest));
    }
  }

  /** A column half read: the slots filled so far, and what the rest of the column is. */
  ghost predicate Filling(whole: Read<seq<nat>>, slots: seq<Reference>, ids: seq<nat>, f: Field,
                          read: seq<nat>, references: seq<Reference>, rest: Octets) {
    && |read| <= |ids| && IdsIn(ids, |slots|)
    && references == Filled(slots, ids, f, read, |read|)
    && whole == ValuesBefore(read, ParsedColumn(|ids| - |read|, rest))
  }

  lemma FillingStart(slots: seq<Reference>, ids: seq<nat>, f: Field, s: Octets)
    requires IdsIn(ids, |slots|)
    ensures Filling(ParsedColumn(|ids|, s), slots, ids, f, [], slots, s)
  {
    NothingBefore(ParsedColumn(|ids|, s));
  }

  lemma FillingNext(whole: Read<seq<nat>>, slots: seq<Reference>, ids: seq<nat>, f: Field,
                    read: seq<nat>, references: seq<Reference>, rest: Octets)
    requires Filling(whole, slots, ids, f, read, references, rest) && |read| < |ids|
    ensures |references| == |slots| && ids[|read|] < |references|
    ensures ParsedWord(rest).Failed? ==> whole.Failed?
    ensures ParsedWord(rest).Got? ==>
              var v, at := ParsedWord(rest).value, ids[|read|];
              Filling(whole, slots, ids, f, read + [v], references[at := WithField(references[at], f, v)],
                      ParsedWord(rest).rest)
  {
    ColumnStep(whole, read, |ids| - |read|, rest);
    if ParsedWord(rest).Got? {
      FilledStep(slots, ids, f, read, ParsedWord(rest).value, |read|);
    }
  }

  lemma FillingEnd(whole: Read<seq<nat>>, slots: seq<Reference>, ids: seq<nat>, f: Field,
                   read: seq<nat>, references: seq<Reference>, rest: Octets)
    requires Filling(whole, slots, ids, f, read, references, rest) && |read| == |ids|
    ensures whole == Got(read, rest) && references == Filled(slots, ids, f, read, |ids|)
  {
    assert read + [] == read;
  }

  class ReferenceTable {
    var protocol: nat
    var revision: nat
    var flags: nat
    var archiveReferences: seq<Reference>

    constructor ()
    {
      protocol, revision, flags, archiveReferences := 0, 0, 0, [];
    }

    /** Sets one field of the listed slots from a column. */
    method FillField(ids: seq<nat>, f: Field, data: Buffer) returns (ok: bool)
      requires data.Valid() && IdsIn(ids, |archiveReferences|)
      modifies this`archiveReferences, data
      ensures data.Valid() && |archiveReferences| == |old(archiveReferences)|
      ensures ok == ParsedField(old(archiveReferences), ids, f, old(data.Rest())).Got?
      ensures ok ==> archiveReferences == ParsedField(old(archiveReferences), ids, f, old(data.Rest())).value
      ensures ok ==> data.Rest() == ParsedField(old(archiveReferences), ids, f, old(data.Rest())).rest
    {
      ghost var slots, whole := archiveReferences, ParsedColumn(|ids|, data.Rest());
      ghost var read: seq<nat> := [];
      FillingStart(slots, ids, f, data.Rest());
      var i := 0;
      while i < |ids|
        invariant data.Valid() && i == |read| <= |ids|
        invariant Filling(whole, slots, ids, f, read, archiveReferences, data.Rest())
      {
        FillingNext(whole, slots, ids, f, read, archiveReferences, data.Rest());
        var good, v := data.GetWord();
        if !good {
          return false;
        }
        archiveReferences := archiveReferences[ids[i] := WithField(archiveReferences[ids[i]], f, v)];
        read := read + [v];
        i := i + 1;
      }
      FillingEnd(whole, slots, ids, f, read, archiveReferences, data.Rest());
      ok := true;
    }

    /** Sets the digests of the listed slots, without passing over them. */
    method FillDigests(ids: seq<nat>, data: Buffer) returns (ok: bool)
      requires data.Valid() && IdsIn(ids, |archiveReferences|)
      modifies this`archiveReferences
      ensures |archiveReferences| == |old(archiveReferences)|
      ensures ok == ParsedDigests(old(archiveReferences), ids, data.Rest()).Got?
      ensures ok ==> archiveReferences == ParsedDigests(old(archiveReferences), ids, data.Rest()).value
    {
      ghost var slots := archiveReferences;
      var i := 0;
      while i < |ids|
        invariant i <= |ids| && (i > 0 ==> |data.Rest()| >= 64)
        invariant i == 0 ==> archiveReferences == slots
        invariant i > 0 ==> archiveReferences == Stamped(slots, ids, data.Rest()[..64], i)
        invariant |archiveReferences| == |slots|
      {
        if data.position + 64 > |data.data| {
          return false;
        }
        var digest := data.data[data.position..data.position + 64];
        assert digest == data.Rest()[..64];
        archiveReferences := archiveReferences[ids[i] := archiveReferences[ids[i]].(whirlpool := digest)];
        i := i + 1;
      }
      ok := true;
    }

    method BuildArchiveReferences(largest: nat, ids: seq<nat>, data: Buffer) returns (ok: bool)
      requires data.Valid() && IdsIn(ids, WORD) && largest == Largest(ids)
      modifies this`archiveReferences, data
      ensures data.Valid() && ok == ParsedReferences(ids, flags, old(data.Rest())).Got?
      ensures ok ==> archiveReferences == ParsedReferences(ids, flags, old(data.Rest())).value
    {
      LargestIs(ids);
      archiveReferences := EmptySlots((largest + 1) % WORD);
      if |archiveReferences| == 0 {
        return true;
      }
      assert (largest + 1) % WORD == largest + 1;
      if IsNamed(flags) {
        ok := FillField(ids, NameHash, data);
        if !ok {
          return false;
        }
      }
      if IsWhirlpooled(flags) {
        ok := FillDigests(ids, data);
        if !ok {
          return false;
        }
      }
      ok := FillField(ids, Crc, data);
      if !ok {
        return false;
      }
      ok := FillField(ids, Revision, data);
    }

    /** Fails as soon as something is missing or out of range. */
    method Load(data: Buffer) returns (ok: bool)
      requires data.position == 0 && (|data.data| > 0 ==> data.data[0] != 5)
      modifies this, data
      ensures ok == ParsedTable(data.data).Got?
      ensures ok ==> Table(protocol, revision, flags, archiveReferences) == ParsedTable(data.data).value
    {
      var at;
      ok, at := data.GetData(1);
      if !ok {
        return false;
      }
      protocol := data.data[at];
      if protocol < 5 || protocol > 7 {
        return false;
      }
      ok, at := data.GetData(4);
      if !ok {
        return false;
      }
      revision := Value4(data.data, at);
      ok, at := data.GetData(1);
      if !ok {
        return false;
      }
      flags := data.data[at];
      assert data.Rest() == data.data[6..];
      ok := LoadReferences(data);
    }

    method LoadReferences(data: Buffer) returns (ok: bool)
      requires |data.data| >= 6 && data.Valid() && data.Rest() == data.data[6..]
      requires protocol == data.data[0] && 6 <= protocol <= 7 && revision == Value4(data.data, 1)
      requires flags == data.data[5]
      modifies this`archiveReferences, data
      ensures ok == ParsedTable(data.data).Got?
      ensures ok ==> Table(protocol, revision, flags, archiveReferences) == ParsedTable(data.data).value
    {
      var good, count := ReadNumber(data, protocol);
      if !good || count < 0 {
        return false;
      }
      ParsedIdsAre(protocol, count, 0, data.Rest());
      var read, ids, largest := ReadIds(data, protocol, count);
      if !read {
        return false;
      }
      ok := BuildArchiveReferences(largest, ids, data);
    }
  }

  /** Loading what was serialised: one slot up to the largest id, each listed id with its own entry,
      unless digests were read as checksums, or the largest id is the largest word. */
  method LoadSerialised(protocol: nat, revision: nat, flags: nat, e: Entries) returns (references: seq<Reference>)
    requires Serialisable(protocol, revision, flags, e)
    ensures Slots(references, flags, e, [])
  {
    var octets := Serialised(protocol, revision, flags, e);
    ParseSerialised(protocol, revision, flags, e, []);
    assert octets + [] == octets;
    var data := new Buffer(octets);
    var table := new ReferenceTable();
    var ok := table.Load(data);
    references := table.archiveReferences;
  }
}
