/** A reference table octet for octet. */
module ReferenceVectors {
  import opened OctetStrings
  import opened ReferenceTables

  /** Protocol 7, revision 9, names; two archives, numbers 1 and 3, with their names, checksums and
      revisions. */
  const TABLE: Octets :=
    [7, 0, 0, 0, 9, 1, 0, 2]
    + [0, 1, 0, 2]
    + [0, 0, 0, 5, 0x12, 0x34, 0x56, 0x78]
    + [0, 0, 1, 0, 0xff, 0, 0, 1]
    + [0, 0, 0, 7, 0, 0, 0, 8]

  const ENTRIES := Entries([1, 3], [5, 0x12345678], [seq(64, _ => 0), seq(64, _ => 0)], [256, 0xff000001], [7, 8])

  /** Both forms of a number, and minus one. */
  lemma NumberVectors()
    ensures BigSmart(32766) == [0x7f, 0xfe] && BigSmart(32767) == [0x80, 0x00, 0x7f, 0xff]
    ensures BigSmart(-1) == [0x7f, 0xff] && BigSmart(0x12345678) == [0x92, 0x34, 0x56, 0x78]
  {
  }

  lemma TwoWords(a: nat, b: nat)
    requires a < 0x1_0000_0000 && b < 0x1_0000_0000
    ensures Words([a, b]) && Column([a, b]) == BigEndian4(a) + BigEndian4(b)
  {
    assert [a, b][1..] == [b] && [b][1..] == [];
    assert Column([]) == [] && Column([b]) == BigEndian4(b) + [];
  }

  lemma VectorDeltas()
    ensures Writable(7, 0, ENTRIES.ids) && Deltas(7, 0, ENTRIES.ids) == [0, 1, 0, 2]
  {
    var ids := ENTRIES.ids;
    assert ids[1..] == [3] && [3][1..] == [];
    assert Deltas(7, 3, []) == [] && Deltas(7, 1, [3]) == Number(7, 2) + [];
    assert Deltas(7, 0, ids) == [0, 1] + [0, 2];
  }

  lemma VectorColumns()
    ensures Words(ENTRIES.names) && Column(ENTRIES.names) == [0, 0, 0, 5, 0x12, 0x34, 0x56, 0x78]
    ensures Words(ENTRIES.crcs) && Column(ENTRIES.crcs) == [0, 0, 1, 0, 0xff, 0, 0, 1]
    ensures Words(ENTRIES.revisions) && Column(ENTRIES.revisions) == [0, 0, 0, 7, 0, 0, 0, 8]
  {
    hide Column;
    TwoWords(5, 0x12345678);
    TwoWords(256, 0xff000001);
    TwoWords(7, 8);
  }

  lemma TableIsSerialised()
    ensures Serialisable(7, 9, 1, ENTRIES) && Serialised(7, 9, 1, ENTRIES) == TABLE
  {
    hide Column, Deltas, Writable;
    VectorDeltas();
    VectorColumns();
    assert [7] + BigEndian4(9) + [1] + Number(7, 2) == [7, 0, 0, 0, 9, 1, 0, 2];
  }

  /** What is loaded from those octets. */
  method LoadVector() returns (protocol: nat, revision: nat, flags: nat, references: seq<Reference>)
    ensures protocol == 7 && revision == 9 && flags == 1
    ensures references == [Reference(0, [], 0, 0), Reference(5, [], 256, 7),
                           Reference(0, [], 0, 0), Reference(0x12345678, [], 0xff000001, 8)]
  {
    hide ParsedTable, Serialised, Column;
    TableIsSerialised();
    ParseSerialised(7, 9, 1, ENTRIES, []);
    assert TABLE + [] == TABLE;
    var data := new Buffer(TABLE);
    var table := new ReferenceTable();
    var ok := table.Load(data);
    protocol, revision, flags, references := table.protocol, table.revision, table.flags, table.archiveReferences;
  }
}
