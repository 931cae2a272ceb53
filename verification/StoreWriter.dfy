/** Stores written octet by octet, apart from the reader, and read back by it. */
module StoreWriters {
  import opened ArchiveReaders
  import opened OctetStrings
  import opened Options

  // ---- The writer --------------------------------------------------------------------------

  function Two(n: nat): Octets
    requires n < 0x1_0000
  {
    [n / 0x100, n % 0x100]
  }

  function Three(n: nat): Octets
    requires n < 0x100_0000
  {
    [n / 0x1_0000, n / 0x100 % 0x100, n % 0x100]
  }

  function Four(n: nat): Octets
    requires n < 0x1_0000_0000
  {
    [n / 0x100_0000, n / 0x1_0000 % 0x100, n / 0x100 % 0x100, n % 0x100]
  }

  /** A chunk in front of its payload: archive, number of the chunk, next block, and the number of the
      index. */
  function ChunkHeader(archive: nat, chunk: nat, next: nat, index: Octet): Octets
    requires archive < 0x8000_0000 && chunk < 0x1_0000 && next < 0x100_0000
  {
    (if archive <= 0xFFFF then Two(archive) else Four(archive)) + Two(chunk) + Three(next) + [index]
  }

  /** What a block of 520 octets has room for behind the header. */
  function Room(archive: nat): nat {
    if archive <= 0xFFFF then 512 else 510
  }

  function Piece(archive: nat, payload: Octets): Octets {
    if |payload| <= Room(archive) then payload else payload[..Room(archive)]
  }

  /** A file with octets put over a part of it. */
  function Put(file: Octets, at: nat, s: Octets): Octets
    requires at + |s| <= |file|
  {
    file[..at] + s + file[at + |s|..]
  }

  /** The blocks lie in the file, each once, and not at its start. */
  predicate Usable(file: Octets, blocks: seq<nat>) {
    && (forall i :: 0 <= i < |blocks| ==> blocks[i] > 0 && 520 * blocks[i] + 520 <= |file|)
    && forall i, j :: 0 <= i < j < |blocks| ==> blocks[i] != blocks[j]
  }

  /** The payload fills all blocks but the last. */
  predicate Fills(archive: nat, blocks: seq<nat>, payload: Octets)
    decreases |blocks|
  {
    if |blocks| <= 1 then |blocks| == 1 && |payload| <= Room(archive)
    else |payload| > Room(archive) && Fills(archive, blocks[1..], payload[Room(archive)..])
  }

  function NextOf(blocks: seq<nat>): nat {
    if |blocks| > 1 then blocks[1] else 0
  }

  /** The store with the chunks of an archive written to their blocks. */
  function Written(file: Octets, archive: nat, index: Octet, blocks: seq<nat>, chunk: nat, payload: Octets): (r: Octets)
    requires archive < 0x8000_0000 && |file| < 0x1_0000_0000 && Usable(file, blocks)
    requires Fills(archive, blocks, payload) && chunk + |blocks| <= 0x1_0000
    ensures |r| == |file|
    decreases |blocks|
  {
    var rest :=
      if |blocks| == 1 then file
      else Written(file, archive, index, blocks[1..], chunk + 1, payload[Room(archive)..]);
    Put(rest, 520 * blocks[0], ChunkHeader(archive, chunk, NextOf(blocks), index) + Piece(archive, payload))
  }

  /** The index with the entry of an archive: size and first block. */
  function Indexed(file: Octets, archive: nat, size: nat, block: nat): (r: Octets)
    requires 6 * archive + 6 <= |file| && size < 0x100_0000 && block < 0x100_0000
    ensures |r| == |file|
  {
    Put(file, 6 * archive, Three(size) + Three(block))
  }

  // ---- What the reader finds ---------------------------------------------------------------

  lemma PutIs(file: Octets, at: nat, s: Octets)
    requires at + |s| <= |file|
    ensures |Put(file, at, s)| == |file| && Put(file, at, s)[at..at + |s|] == s
    ensures forall i :: 0 <= i < |file| && !(at <= i < at + |s|) ==> Put(file, at, s)[i] == file[i]
  {
  }

  lemma TwoIs(n: nat, data: Octets, at: nat)
    requires n < 0x1_0000 && at + 2 <= |data| && data[at..at + 2] == Two(n)
    ensures Value2(data, at) == n
  {
    assert data[at] == Two(n)[0] && data[at + 1] == Two(n)[1];
  }

  lemma ThreeIs(n: nat, data: Octets, at: nat)
    requires n < 0x100_0000 && at + 3 <= |data| && data[at..at + 3] == Three(n)
    ensures Value3(data, at) == n
  {
    assert data[at] == Three(n)[0] && data[at + 1] == Three(n)[1] && data[at + 2] == Three(n)[2];
  }

  lemma FourIs(n: nat, data: Octets, at: nat)
    requires n < 0x1_0000_0000 && at + 4 <= |data| && data[at..at + 4] == Four(n)
    ensures Value4(data, at) == n
  {
    assert data[at] == Four(n)[0] && data[at + 1] == Four(n)[1];
    assert data[at + 2] == Four(n)[2] && data[at + 3] == Four(n)[3];
  }

  /** A part of a part. */
  lemma PartOf(data: Octets, at: nat, s: Octets, from: nat, to: nat)
    requires at + |s| <= |data| && data[at..at + |s|] == s && from <= to <= |s|
    ensures data[at + from..at + to] == s[from..to]
  {
    var part := data[at + from..at + to];
    forall k | 0 <= k < |part| ensures part[k] == s[from..to][k] {
      assert data[at..at + |s|][from + k] == s[from + k];
    }
  }

  lemma HeaderIs(data: Octets, at: nat, archive: nat, chunk: nat, next: nat, index: Octet)
    requires archive < 0x8000_0000 && chunk < 0x1_0000 && next < 0x100_0000
    requires var h := ChunkHeader(archive, chunk, next, index); at + |h| <= |data| && data[at..at + |h|] == h
    ensures |ChunkHeader(archive, chunk, next, index)| == HeaderLength(archive)
    ensures at + HeaderLength(archive) <= |data| && HeaderAt(data, archive, at) == Header(archive, chunk, next)
  {
    hide Two, Three, Four, Value2, Value3, Value4;
    var h, n: nat := ChunkHeader(archive, chunk, next, index), if archive <= 0xFFFF then 2 else 4;
    Lengths(archive, chunk, next);
    PartOf(data, at, h, 0, n);
    PartOf(data, at, h, n, n + 2);
    PartOf(data, at, h, n + 2, n + 5);
    if archive <= 0xFFFF {
      TwoIs(archive, data, at);
    } else {
      FourIs(archive, data, at);
    }
    TwoIs(chunk, data, at + n);
    ThreeIs(next, data, at + n + 2);
  }

  lemma HeaderSize(archive: nat, chunk: nat, next: nat, index: Octet)
    requires archive < 0x8000_0000 && chunk < 0x1_0000 && next < 0x100_0000
    ensures |ChunkHeader(archive, chunk, next, index)| == HeaderLength(archive) == 520 - Room(archive)
  {
    Lengths(archive, chunk, next);
  }

  lemma Lengths(archive: nat, chunk: nat, next: nat)
    requires archive < 0x8000_0000 && chunk < 0x1_0000 && next < 0x100_0000
    ensures |Four(archive)| == 4 && |Two(chunk)| == 2 && |Three(next)| == 3
    ensures archive < 0x1_0000 ==> |Two(archive)| == 2
  {
  }

  /** Two files hold the same in a block. */
  ghost predicate SameBlock(data: Octets, other: Octets, block: nat) {
    && |data| == |other| < 0x1_0000_0000 && 520 * block + 520 <= |data|
    && forall p :: 520 * block <= p < 520 * block + 520 ==> data[p] == other[p]
  }

  lemma SameHeader(data: Octets, other: Octets, archive: nat, block: nat)
    requires SameBlock(data, other, block)
    ensures Offset(block) == 520 * block
    ensures HeaderAt(other, archive, 520 * block) == HeaderAt(data, archive, 520 * block)
  {
    OffsetBelow(block);
  }

  lemma {:induction false} LaidOutKept(data: Octets, other: Octets, archive: nat, blocks: seq<nat>, chunk: nat,
                                       payload: Octets)
    requires LaidOut(data, archive, blocks, chunk, payload)
    requires forall i :: 0 <= i < |blocks| ==> SameBlock(data, other, blocks[i])
    ensures LaidOut(other, archive, blocks, chunk, payload)
    decreases |blocks|
  {
    if blocks != [] {
      hide HeaderAt;
      var size := PieceLength(archive, |payload|);
      var at := 520 * blocks[0] + HeaderLength(archive);
      assert SameBlock(data, other, blocks[0]);
      SameHeader(data, other, archive, blocks[0]);
      PieceBounds(archive, |payload|);
      assert other[at..at + size] == data[at..at + size];
      LaidOutKept(data, other, archive, blocks[1..], chunk + 1, payload[size..]);
    }
  }

  /** The chunk that was written last. */
  function OnePut(file: Octets, archive: nat, chunk: nat, next: nat, index: Octet, block: nat, payload: Octets): Octets
    requires archive < 0x8000_0000 && chunk < 0x1_0000 && next < 0x100_0000 && 520 * block + 520 <= |file|
  {
    Put(file, 520 * block, ChunkHeader(archive, chunk, next, index) + Piece(archive, payload))
  }

  lemma OneWritten(file: Octets, archive: nat, chunk: nat, next: nat, index: Octet, block: nat, payload: Octets)
    requires archive < 0x8000_0000 && chunk < 0x1_0000 && next < 0x100_0000
    requires 520 * block + 520 <= |file| < 0x1_0000_0000
    ensures var data := OnePut(file, archive, chunk, next, index, block, payload);
            var at, size := 520 * block + HeaderLength(archive), PieceLength(archive, |payload|);
            && Offset(block) == 520 * block && |data| == |file| && at + size <= |data|
            && size == |Piece(archive, payload)| && data[at..at + size] == Piece(archive, payload)
            && HeaderAt(data, archive, 520 * block) == Header(archive, chunk, next)
  {
    hide HeaderAt, ChunkHeader;
    var h, piece := ChunkHeader(archive, chunk, next, index), Piece(archive, payload);
    var data := OnePut(file, archive, chunk, next, index, block, payload);
    OffsetBelow(block);
    HeaderSize(archive, chunk, next, index);
    PutIs(file, 520 * block, h + piece);
    PartOf(data, 520 * block, h + piece, 0, |h|);
    HeaderIs(data, 520 * block, archive, chunk, next, index);
    PartOf(data, 520 * block, h + piece, |h|, |h| + |piece|);
  }

  lemma OthersKept(file: Octets, archive: nat, chunk: nat, next: nat, index: Octet, block: nat, payload: Octets,
                   other: nat)
    requires archive < 0x8000_0000 && chunk < 0x1_0000 && next < 0x100_0000
    requires 520 * block + 520 <= |file| < 0x1_0000_0000 && 520 * other + 520 <= |file| && other != block
    ensures SameBlock(file, OnePut(file, archive, chunk, next, index, block, payload), other)
  {
    hide Put, ChunkHeader;
    HeaderSize(archive, chunk, next, index);
    PutIs(file, 520 * block, ChunkHeader(archive, chunk, next, index) + Piece(archive, payload));
  }

  /** What was written is laid out as the reader expects. */
  lemma {:induction false} WrittenLaidOut(file: Octets, archive: nat, index: Octet, blocks: seq<nat>, chunk: nat,
                                          payload: Octets)
    requires archive < 0x8000_0000 && |file| < 0x1_0000_0000 && Usable(file, blocks)
    requires Fills(archive, blocks, payload) && chunk + |blocks| <= 0x1_0000 && payload != []
    ensures LaidOut(Written(file, archive, index, blocks, chunk, payload), archive, blocks, chunk, payload)
    decreases |blocks|
  {
    hide HeaderAt, ChunkHeader, Put, LaidOut, SameBlock, OnePut;
    var data := Written(file, archive, index, blocks, chunk, payload);
    var tail, left := blocks[1..], payload[|Piece(archive, payload)|..];
    WrittenIs(file, archive, index, blocks, chunk, payload);
    if |blocks| > 1 {
      var rest := Written(file, archive, index, tail, chunk + 1, left);
      WrittenLaidOut(file, archive, index, tail, chunk + 1, left);
      OneWritten(rest, archive, chunk, NextOf(blocks), index, blocks[0], payload);
      forall i | 0 <= i < |tail| ensures SameBlock(rest, data, tail[i]) {
        OthersKept(rest, archive, chunk, NextOf(blocks), index, blocks[0], payload, tail[i]);
      }
      LaidOutKept(rest, data, archive, tail, chunk + 1, left);
    } else {
      OneWritten(file, archive, chunk, NextOf(blocks), index, blocks[0], payload);
      assert tail == [] && left == [];
      NothingLaidOut(data, archive, chunk + 1);
    }
    FirstLaidOut(data, archive, blocks, chunk, payload);
  }

  lemma WrittenIs(file: Octets, archive: nat, index: Octet, blocks: seq<nat>, chunk: nat, payload: Octets)
    requires archive < 0x8000_0000 && |file| < 0x1_0000_0000 && Usable(file, blocks)
    requires Fills(archive, blocks, payload) && chunk + |blocks| <= 0x1_0000
    ensures NextOf(blocks) < 0x100_0000
    ensures var rest := if |blocks| == 1 then file
                        else Written(file, archive, index, blocks[1..], chunk + 1, payload[Room(archive)..]);
            Written(file, archive, index, blocks, chunk, payload)
            == OnePut(rest, archive, chunk, NextOf(blocks), index, blocks[0], payload)
  {
  }

  lemma NothingLaidOut(data: Octets, archive: nat, chunk: nat)
    ensures LaidOut(data, archive, [], chunk, [])
  {
  }

  lemma FirstLaidOut(data: Octets, archive: nat, blocks: seq<nat>, chunk: nat, payload: Octets)
    requires archive < 0x8000_0000 && blocks != [] && blocks[0] > 0 && payload != []
    requires Offset(blocks[0]) == 520 * blocks[0]
    requires var at, size := 520 * blocks[0] + HeaderLength(archive), PieceLength(archive, |payload|);
             && at + size <= |data| && size == |Piece(archive, payload)|
             && data[at..at + size] == Piece(archive, payload)
             && HeaderAt(data, archive, 520 * blocks[0]) == Header(archive, chunk, NextOf(blocks))
    requires LaidOut(data, archive, blocks[1..], chunk + 1, payload[|Piece(archive, payload)|..])
    ensures LaidOut(data, archive, blocks, chunk, payload)
  {
    hide HeaderAt, Offset;
    Below(archive);
  }

  lemma Below(archive: nat)
    requires archive < 0x8000_0000
    ensures archive % WORD == archive
  {
  }

  // ---- Writing and reading -----------------------------------------------------------------

  lemma {:induction false} FewBlocks(archive: nat, blocks: seq<nat>, payload: Octets)
    requires Fills(archive, blocks, payload)
    ensures 510 * (|blocks| - 1) <= |payload|
    decreases |blocks|
  {
    if |blocks| > 1 {
      FewBlocks(archive, blocks[1..], payload[Room(archive)..]);
    }
  }

  lemma EntryIs(file: Octets, archive: nat, size: nat, block: nat)
    requires 6 * archive + 6 <= |file| < 0x1_0000_0000 && size < 0x100_0000 && block < 0x100_0000
    ensures var index := Indexed(file, archive, size, block);
            && (archive + 1) * IDX_BLOCK_LENGTH <= |index| < WORD
            && Value3(index, archive * IDX_BLOCK_LENGTH) == size
            && Value3(index, archive * IDX_BLOCK_LENGTH + 3) == block
  {
    hide Three, Value3, Put;
    var entry := Three(size) + Three(block);
    ThreeLength(size);
    ThreeLength(block);
    PutIs(file, 6 * archive, entry);
    var index := Indexed(file, archive, size, block);
    PartOf(index, 6 * archive, entry, 0, 3);
    PartOf(index, 6 * archive, entry, 3, 6);
    ThreeIs(size, index, 6 * archive);
    ThreeIs(block, index, 6 * archive + 3);
  }

  lemma ThreeLength(n: nat)
    requires n < 0x100_0000
    ensures |Three(n)| == 3
  {
  }

  /** A written archive is read back. */
  lemma WrittenIsRead(indexFile: Octets, file: Octets, archive: nat, index: Octet, blocks: seq<nat>, payload: Octets)
    requires archive < 0x8000_0000 && 6 * archive + 6 <= |indexFile| < 0x1_0000_0000 && |file| < 0x1_0000_0000
    requires |payload| < 0x100_0000 && Usable(file, blocks) && Fills(archive, blocks, payload)
    ensures |blocks| <= 0x1_0000 && blocks[0] < 0x100_0000
    ensures ReadArchive(Indexed(indexFile, archive, |payload|, blocks[0]),
                        Written(file, archive, index, blocks, 0, payload), archive) == Some(payload)
  {
    hide LaidOut, Written, Indexed, Value3, ReadChain;
    FewBlocks(archive, blocks, payload);
    var entries := Indexed(indexFile, archive, |payload|, blocks[0]);
    var data := Written(file, archive, index, blocks, 0, payload);
    EntryIs(indexFile, archive, |payload|, blocks[0]);
    if payload == [] {
      EntryInIndex(entries, archive);
      FirstBlockChecked(entries, data, archive, 0, blocks[0]);
      NothingRead(data, archive, blocks[0]);
    } else {
      WrittenLaidOut(file, archive, index, blocks, 0, payload);
      ReadStore(entries, data, archive, blocks, payload);
    }
  }

  lemma NothingRead(data: Octets, archive: nat, block: nat)
    ensures ReadChain(data, archive, block, 0, 0) == Some([])
  {
  }

  /** Writes an archive into a store and its index, and reads it: for every archive number, every payload of a
      size that the index can hold, and every choice of different blocks below 4 GiB, what the reader appends
      is the payload. */
  method WriteThenRead(indexFile: Octets, file: Octets, archive: nat, index: Octet, blocks: seq<nat>, payload: Octets,
                       output: Output)
    returns (ok: bool)
    requires archive < 0x8000_0000 && 6 * archive + 6 <= |indexFile| < 0x1_0000_0000 && |file| < 0x1_0000_0000
    requires |payload| < 0x100_0000 && Usable(file, blocks) && Fills(archive, blocks, payload)
    modifies output
    ensures ok && output.data == old(output.data) + payload
  {
    hide Written, Indexed, ReadArchive;
    WrittenIsRead(indexFile, file, archive, index, blocks, payload);
    var dataStream := new Stream(Written(file, archive, index, blocks, 0, payload));
    var indexStream := new Stream(Indexed(indexFile, archive, |payload|, blocks[0]));
    var reader := new Index(dataStream, indexStream);
    ok := reader.GetArchiveData(archive, output);
  }
}
