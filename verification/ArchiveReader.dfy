/** The cache store: archives kept as chains of numbered blocks, and the reader of a chain. */
module ArchiveReaders {
  import opened OctetStrings
  import opened Options

  const WORD: nat := 0x1_0000_0000   // uint32_t arithmetic wraps here
  const IDX_BLOCK_LENGTH: nat := 6
  const HEADER_LENGTH: nat := 8
  const HEADER_EXPANDED_LENGTH: nat := 10
  const BLOCK_LENGTH: nat := 512
  const BLOCK_EXPANDED_LENGTH: nat := 510
  const TOTAL_BLOCK_LENGTH: nat := HEADER_LENGTH + BLOCK_LENGTH

  // ---- Streams -----------------------------------------------------------------------------

  /** An input stream: a read that comes up short makes it fail, and then seeks and reads do
      nothing. */
  class Stream {
    const file: Octets
    var position: nat
    var failed: bool

    constructor (file: Octets)
      ensures this.file == file
    {
      this.file, position, failed := file, 0, false;
    }

    method Clear()
      modifies this`failed
      ensures !failed
    {
      failed := false;
    }

    method Seek(at: nat)
      modifies this`position
      ensures !failed ==> position == at
    {
      if !failed {
        position := at;
      }
    }

    method Read(count: nat) returns (bytes: Octets)
      modifies this
      ensures old(failed) ==> bytes == [] && (failed || count == 0)
      ensures !old(failed) ==> bytes == Available(file, old(position), count)
      ensures !old(failed) ==> failed == (|bytes| < count) && position == old(position) + |bytes|
      ensures old(failed) ==> failed
    {
      if failed {
        return [];
      }
      bytes := Available(file, position, count);
      position := position + |bytes|;
      failed := |bytes| < count;
    }
  }

  /** Up to `count` octets from a place on. */
  function Available(file: Octets, at: nat, count: nat): Octets {
    if at >= |file| then []
    else if at + count <= |file| then file[at..at + count]
    else file[at..]
  }

  /** Octets from a place on, zero where the file has ended. */
  function Padded(file: Octets, at: nat, count: nat): Octets {
    Available(file, at, count) + seq(count - |Available(file, at, count)|, _ => 0)
  }

  // ---- The chain ---------------------------------------------------------------------------

  function Value2(s: Octets, at: nat): nat
    requires at + 2 <= |s|
  {
    s[at] as nat * 256 + s[at + 1] as nat
  }

  function Value3(s: Octets, at: nat): nat
    requires at + 3 <= |s|
  {
    s[at] as nat * 65536 + s[at + 1] as nat * 256 + s[at + 2] as nat
  }

  function Value4(s: Octets, at: nat): nat
    requires at + 4 <= |s|
  {
    s[at] as nat * 16777216 + s[at + 1] as nat * 65536 + s[at + 2] as nat * 256 + s[at + 3] as nat
  }

  predicate Expanded(id: int) {
    id > 0xFFFF
  }

  function HeaderLength(id: int): nat {
    if Expanded(id) then HEADER_EXPANDED_LENGTH else HEADER_LENGTH
  }

  function BlockLength(id: int): nat {
    if Expanded(id) then BLOCK_EXPANDED_LENGTH else BLOCK_LENGTH
  }

  /** Where a block starts, in 32-bit arithmetic. */
  function Offset(block: nat): nat {
    (block * TOTAL_BLOCK_LENGTH) % WORD
  }

  datatype Header = Header(file: nat, chunk: nat, next: nat)

  function HeaderAt(data: Octets, id: int, at: nat): Header
    requires at + HeaderLength(id) <= |data|
  {
    if Expanded(id) then Header(Value4(data, at), Value2(data, at + 4), Value3(data, at + 6))
    else Header(Value2(data, at), Value2(data, at + 2), Value3(data, at + 4))
  }

  function PieceLength(id: int, remaining: nat): nat {
    if remaining > BlockLength(id) then BlockLength(id) else remaining
  }

  /** What is read from a block on; chunks are numbered from 0. A piece the file cuts short is filled
      with zeros, and only as the last one. */
  function ReadChain(data: Octets, id: int, block: nat, chunk: nat, remaining: nat): Option<Octets>
    decreases remaining
  {
    if remaining == 0 then Some([])
    else if block == 0 || Offset(block) + HeaderLength(id) > |data| then None
    else
      var header := HeaderAt(data, id, Offset(block));
      if header.file != id % WORD || header.chunk != chunk then None
      else
        var at, size := Offset(block) + HeaderLength(id), PieceLength(id, remaining);
        if at + size > |data| && remaining > size then None
        else match ReadChain(data, id, header.next, chunk + 1, remaining - size)
             case None => None
             case Some(rest) => Some(Padded(data, at, size) + rest)
  }

  /** The index entry of an archive: its size and first block. */
  function IndexEntry(index: Octets, id: int): Option<(nat, nat)> {
    var at := (id * IDX_BLOCK_LENGTH) % WORD;
    if |index| < ((id + 1) * IDX_BLOCK_LENGTH) % WORD || at + 6 > |index| then None
    else Some((Value3(index, at), Value3(index, at + 3)))
  }

  function ReadArchive(index: Octets, data: Octets, id: int): Option<Octets> {
    match IndexEntry(index, id)
    case None => None
    case Some((size, block)) =>
      if block == 0 || block > (|data| / TOTAL_BLOCK_LENGTH) % WORD then None
      else ReadChain(data, id, block, 0, size)
  }

  // ---- What a chain holds ------------------------------------------------------------------

  /** The blocks visited. */
  function Visited(data: Octets, id: int, block: nat, chunk: nat, remaining: nat): seq<nat>
    requires ReadChain(data, id, block, chunk, remaining).Some?
    decreases remaining
  {
    if remaining == 0 then []
    else
      [block] + Visited(data, id, HeaderAt(data, id, Offset(block)).next, chunk + 1,
                        remaining - PieceLength(id, remaining))
  }

  /** Block `i` of a chain carries the number `i`, the archive, and the next block. */
  ghost predicate Linked(data: Octets, id: int, blocks: seq<nat>, i: nat, chunk: nat) {
    && i < |blocks| && blocks[i] != 0 && Offset(blocks[i]) + HeaderLength(id) <= |data|
    && var header := HeaderAt(data, id, Offset(blocks[i]));
       header.file == id % WORD && header.chunk == chunk + i && (i + 1 < |blocks| ==> header.next == blocks[i + 1])
  }

  /** The payloads of the blocks, each full but the last. */
  function Payload(data: Octets, id: int, blocks: seq<nat>, remaining: nat): Octets {
    if blocks == [] then []
    else
      var size := PieceLength(id, remaining);
      Padded(data, Offset(blocks[0]) + HeaderLength(id), size) + Payload(data, id, blocks[1..], remaining - size)
  }

  /** What a successful read says about its first block. */
  lemma FirstRead(data: Octets, id: int, block: nat, chunk: nat, remaining: nat)
    requires remaining > 0 && ReadChain(data, id, block, chunk, remaining).Some?
    ensures block != 0 && Offset(block) + HeaderLength(id) <= |data|
    ensures var header, size := HeaderAt(data, id, Offset(block)), PieceLength(id, remaining);
            && header.file == id % WORD && header.chunk == chunk && 0 < size <= remaining
            && (remaining > size ==> Offset(block) + HeaderLength(id) + size <= |data|)
            && var rest := ReadChain(data, id, header.next, chunk + 1, remaining - size);
               rest.Some? && ReadChain(data, id, block, chunk, remaining).value
                          == Padded(data, Offset(block) + HeaderLength(id), size) + rest.value
  {
  }

  lemma {:induction false} ReadLength(data: Octets, id: int, block: nat, chunk: nat, remaining: nat)
    requires ReadChain(data, id, block, chunk, remaining).Some?
    ensures |ReadChain(data, id, block, chunk, remaining).value| == remaining
    decreases remaining
  {
    if remaining > 0 {
      FirstRead(data, id, block, chunk, remaining);
      var next, size := HeaderAt(data, id, Offset(block)).next, PieceLength(id, remaining);
      ReadLength(data, id, next, chunk + 1, remaining - size);
    }
  }

  lemma {:induction false} ReadPayload(data: Octets, id: int, block: nat, chunk: nat, remaining: nat)
    requires ReadChain(data, id, block, chunk, remaining).Some?
    ensures ReadChain(data, id, block, chunk, remaining).value
         == Payload(data, id, Visited(data, id, block, chunk, remaining), remaining)
    decreases remaining
  {
    if remaining > 0 {
      FirstRead(data, id, block, chunk, remaining);
      var next, size := HeaderAt(data, id, Offset(block)).next, PieceLength(id, remaining);
      ReadPayload(data, id, next, chunk + 1, remaining - size);
      var blocks := Visited(data, id, block, chunk, remaining);
      assert blocks[1..] == Visited(data, id, next, chunk + 1, remaining - size);
    }
  }

  lemma {:induction false} VisitedLinked(data: Octets, id: int, block: nat, chunk: nat, remaining: nat)
    requires ReadChain(data, id, block, chunk, remaining).Some?
    ensures var blocks := Visited(data, id, block, chunk, remaining);
            && (remaining > 0 ==> blocks != [] && blocks[0] == block)
            && forall i: nat :: i < |blocks| ==> Linked(data, id, blocks, i, chunk)
    decreases remaining
  {
    if remaining > 0 {
      FirstRead(data, id, block, chunk, remaining);
      var next, size := HeaderAt(data, id, Offset(block)).next, PieceLength(id, remaining);
      VisitedLinked(data, id, next, chunk + 1, remaining - size);
      LinkedBefore(data, id, block, chunk, chunk + 1, Visited(data, id, next, chunk + 1, remaining - size),
                   Visited(data, id, block, chunk, remaining));
    }
  }

  /** One block more in front of a linked chain. */
  lemma LinkedBefore(data: Octets, id: int, block: nat, chunk: nat, after: nat,
                     rest: seq<nat>, blocks: seq<nat>)
    requires blocks == [block] + rest && after == chunk + 1 && block != 0 && Offset(block) + HeaderLength(id) <= |data|
    requires HeaderAt(data, id, Offset(block)).file == id % WORD && HeaderAt(data, id, Offset(block)).chunk == chunk
    requires rest != [] ==> rest[0] == HeaderAt(data, id, Offset(block)).next
    requires forall i: nat :: i < |rest| ==> Linked(data, id, rest, i, after)
    ensures forall i: nat :: i < |blocks| ==> Linked(data, id, blocks, i, chunk)
  {
    forall i: nat | i < |blocks| ensures Linked(data, id, blocks, i, chunk) {
      if i > 0 {
        assert Linked(data, id, rest, i - 1, after);
      }
    }
  }

  /** A successful read is exactly as long as indexed, and is the payload of the blocks visited in
      order, which are linked from the first one on. */
  lemma ReadIsPayload(data: Octets, id: int, block: nat, chunk: nat, remaining: nat)
    requires ReadChain(data, id, block, chunk, remaining).Some?
    ensures |ReadChain(data, id, block, chunk, remaining).value| == remaining
    ensures var blocks := Visited(data, id, block, chunk, remaining);
            && ReadChain(data, id, block, chunk, remaining).value == Payload(data, id, blocks, remaining)
            && (remaining > 0 ==> blocks != [] && blocks[0] == block)
            && forall i: nat :: i < |blocks| ==> Linked(data, id, blocks, i, chunk)
  {
    ReadLength(data, id, block, chunk, remaining);
    ReadPayload(data, id, block, chunk, remaining);
    VisitedLinked(data, id, block, chunk, remaining);
  }

  /** No block is visited twice. */
  lemma VisitedDistinct(data: Octets, id: int, block: nat, remaining: nat, i: nat, j: nat)
    requires ReadChain(data, id, block, 0, remaining).Some?
    requires i < j < |Visited(data, id, block, 0, remaining)|
    ensures Offset(Visited(data, id, block, 0, remaining)[i]) != Offset(Visited(data, id, block, 0, remaining)[j])
  {
    ReadIsPayload(data, id, block, 0, remaining);
    var blocks := Visited(data, id, block, 0, remaining);
    assert Linked(data, id, blocks, i, 0) && Linked(data, id, blocks, j, 0);
  }

  // ---- Stores that are laid out well -------------------------------------------------------

  /** The payload lies in the blocks: each header names the archive, the chunk and the next block,
      and each piece follows its header. */
  ghost predicate LaidOut(data: Octets, id: int, blocks: seq<nat>, chunk: nat, payload: Octets)
    decreases |blocks|
  {
    if blocks == [] then payload == []
    else
      && payload != [] && blocks[0] != 0
      && var at, size := Offset(blocks[0]) + HeaderLength(id), PieceLength(id, |payload|);
         && at + size <= |data| && data[at..at + size] == payload[..size]
         && HeaderAt(data, id, Offset(blocks[0])).file == id % WORD
         && HeaderAt(data, id, Offset(blocks[0])).chunk == chunk
         && (|blocks| > 1 ==> HeaderAt(data, id, Offset(blocks[0])).next == blocks[1])
         && LaidOut(data, id, blocks[1..], chunk + 1, payload[size..])
  }

  lemma ReadWhole(data: Octets, id: int, block: nat, chunk: nat, remaining: nat,
                  at: nat, size: nat, header: Header, rest: Octets)
    requires remaining > 0 && block != 0 && at == Offset(block) + HeaderLength(id)
    requires size == PieceLength(id, remaining) <= remaining && at + size <= |data|
    requires header == HeaderAt(data, id, Offset(block)) && header.file == id % WORD && header.chunk == chunk
    requires ReadChain(data, id, header.next, chunk + 1, remaining - size) == Some(rest)
    ensures ReadChain(data, id, block, chunk, remaining) == Some(Padded(data, at, size) + rest)
  {
    hide HeaderAt, Padded, Offset, HeaderLength, PieceLength;
  }

  /** The reader gets the payload back. */
  lemma {:induction false} ReadLaidOut(data: Octets, id: int, blocks: seq<nat>, block: nat, chunk: nat, payload: Octets)
    requires LaidOut(data, id, blocks, chunk, payload)
    requires blocks != [] ==> block == blocks[0]
    ensures ReadChain(data, id, block, chunk, |payload|) == Some(payload)
    decreases |blocks|
  {
    if blocks != [] {
      var size := PieceLength(id, |payload|);
      var at, header := Offset(block) + HeaderLength(id), HeaderAt(data, id, Offset(block));
      ReadLaidOut(data, id, blocks[1..], header.next, chunk + 1, payload[size..]);
      WholePiece(data, at, size);
      ReadWhole(data, id, block, chunk, |payload|, at, size, header, payload[size..]);
      assert payload == payload[..size] + payload[size..];
    }
  }

  lemma WholePiece(data: Octets, at: nat, size: nat)
    requires at + size <= |data|
    ensures Padded(data, at, size) == data[at..at + size]
  {
  }

  // ---- Reads that are padded ---------------------------------------------------------------

  /** How much of a payload the last block of its chain holds. */
  function LastPiece(id: int, remaining: nat): nat {
    if remaining <= BlockLength(id) then remaining else LastPiece(id, remaining - BlockLength(id))
  }

  /** The file does not end before the piece in the last block does. */
  predicate LastPieceStored(data: Octets, id: int, blocks: seq<nat>, remaining: nat) {
    blocks == [] || Offset(blocks[|blocks| - 1]) + HeaderLength(id) + LastPiece(id, remaining) <= |data|
  }

  /** A well-laid-out chain with one block more in front. */
  lemma LaidOutBefore(data: Octets, id: int, block: nat, chunk: nat, rest: seq<nat>, at: nat, size: nat,
                      header: Header, value: Octets)
    requires block != 0 && at == Offset(block) + HeaderLength(id) && at + size <= |data|
    requires 0 < size == PieceLength(id, |value|) <= |value| && value[..size] == data[at..at + size]
    requires header == HeaderAt(data, id, Offset(block)) && header.file == id % WORD && header.chunk == chunk
    requires rest != [] ==> rest[0] == header.next
    ensures LaidOut(data, id, [block] + rest, chunk, value) <==> LaidOut(data, id, rest, chunk + 1, value[size..])
  {
    assert ([block] + rest)[1..] == rest;
  }

  /** What was read lies in the blocks visited, octet for octet, if and only if the file goes on to
      the end of the last piece; otherwise the read succeeds all the same, with zeros at its end. */
  lemma {:induction false} ReadIsStored(data: Octets, id: int, block: nat, chunk: nat, remaining: nat)
    requires ReadChain(data, id, block, chunk, remaining).Some?
    ensures var blocks := Visited(data, id, block, chunk, remaining);
            var value := ReadChain(data, id, block, chunk, remaining).value;
            LaidOut(data, id, blocks, chunk, value) <==> LastPieceStored(data, id, blocks, remaining)
    decreases remaining
  {
    if remaining > 0 {
      FirstRead(data, id, block, chunk, remaining);
      ReadLength(data, id, block, chunk, remaining);
      var header, size := HeaderAt(data, id, Offset(block)), PieceLength(id, remaining);
      var at, left := Offset(block) + HeaderLength(id), remaining - size;
      var value := ReadChain(data, id, block, chunk, remaining).value;
      var rest := Visited(data, id, header.next, chunk + 1, left);
      assert value[size..] == ReadChain(data, id, header.next, chunk + 1, left).value;
      if at + size <= |data| {
        ReadIsStored(data, id, header.next, chunk + 1, left);
        VisitedLinked(data, id, header.next, chunk + 1, left);
        WholePiece(data, at, size);
        LaidOutBefore(data, id, block, chunk, rest, at, size, header, value);
      } else {
        assert left == 0 && [block] + rest == [block];
      }
    }
  }

  /** The blocks of an archive that was read. */
  function ArchiveBlocks(index: Octets, data: Octets, id: int): seq<nat>
    requires ReadArchive(index, data, id).Some?
  {
    var (size, block) := IndexEntry(index, id).value;
    Visited(data, id, block, 0, size)
  }

  /** The indexed octets are all there: the file reaches to the end of the last piece. */
  predicate WholeInStore(index: Octets, data: Octets, id: int)
    requires ReadArchive(index, data, id).Some?
  {
    LastPieceStored(data, id, ArchiveBlocks(index, data, id), IndexEntry(index, id).value.0)
  }

  lemma ArchiveIsStored(index: Octets, data: Octets, id: int)
    requires ReadArchive(index, data, id).Some?
    ensures LaidOut(data, id, ArchiveBlocks(index, data, id), 0, ReadArchive(index, data, id).value)
      <==> WholeInStore(index, data, id)
  {
    var (size, block) := IndexEntry(index, id).value;
    ReadIsStored(data, id, block, 0, size);
  }

  /** A store that ends inside the only block of an archive: one octet of three is there, and the
      read gives it with two zeros. */
  lemma CutOffStore()
    ensures var index, data: Octets := [0, 0, 3, 0, 0, 1], seq(528, _ => 0) + [7];
            && ReadArchive(index, data, 0) == Some([7, 0, 0])
            && !WholeInStore(index, data, 0)
            && !LaidOut(data, 0, ArchiveBlocks(index, data, 0), 0, [7, 0, 0])
  {
    var index, data: Octets := [0, 0, 3, 0, 0, 1], seq(528, _ => 0) + [7];
    assert IndexEntry(index, 0) == Some((3, 1));
    assert Offset(1) == 520 && HeaderAt(data, 0, 520) == Header(0, 0, 0);
    assert Padded(data, 528, 3) == [7, 0, 0];
    assert ReadChain(data, 0, 0, 1, 0) == Some([]);
    assert ReadChain(data, 0, 1, 0, 3) == Some([7, 0, 0] + []);
    assert [7, 0, 0] + [] == [7, 0, 0];
    assert Visited(data, 0, 1, 0, 3) == [1];
    ArchiveIsStored(index, data, 0);
  }

  /** Below 4 GiB a block starts where its number says. */
  lemma OffsetBelow(block: nat)
    requires block * TOTAL_BLOCK_LENGTH < WORD
    ensures Offset(block) == block * TOTAL_BLOCK_LENGTH
  {
  }

  /** A store that holds an archive under 4 GiB gives it back. */
  lemma ReadStore(index: Octets, data: Octets, id: int, blocks: seq<nat>, payload: Octets)
    requires LaidOut(data, id, blocks, 0, payload) && blocks != []
    requires |data| < WORD && blocks[0] <= |data| / TOTAL_BLOCK_LENGTH
    requires 0 <= id && (id + 1) * IDX_BLOCK_LENGTH <= |index| && |index| < WORD
    requires Value3(index, id * IDX_BLOCK_LENGTH) == |payload|
    requires Value3(index, id * IDX_BLOCK_LENGTH + 3) == blocks[0]
    ensures ReadArchive(index, data, id) == Some(payload)
  {
    EntryInIndex(index, id);
    FirstBlockChecked(index, data, id, |payload|, blocks[0]);
    ReadLaidOut(data, id, blocks, blocks[0], 0, payload);
  }

  lemma FirstBlockChecked(index: Octets, data: Octets, id: int, size: nat, block: nat)
    requires IndexEntry(index, id) == Some((size, block))
    requires |data| < WORD && 0 < block <= |data| / TOTAL_BLOCK_LENGTH
    ensures ReadArchive(index, data, id) == ReadChain(data, id, block, 0, size)
  {
    BelowWord(|data| / TOTAL_BLOCK_LENGTH);
  }

  lemma EntryInIndex(index: Octets, id: int)
    requires 0 <= id && (id + 1) * IDX_BLOCK_LENGTH <= |index| && |index| < WORD
    ensures IndexEntry(index, id)
         == Some((Value3(index, id * IDX_BLOCK_LENGTH), Value3(index, id * IDX_BLOCK_LENGTH + 3)))
  {
    BelowWord(id * IDX_BLOCK_LENGTH);
    BelowWord((id + 1) * IDX_BLOCK_LENGTH);
  }

  lemma BelowWord(n: nat)
    requires n < WORD
    ensures n % WORD == n
  {
  }

  // ---- The reader --------------------------------------------------------------------------

  class Output {
    var data: Octets

    constructor ()
      ensures data == []
    {
      data := [];
    }
  }

  method ReadValueBE2(stream: Stream) returns (ok: bool, value: nat)
    modifies stream
    ensures ReadsValue(stream.file, old(stream.position), old(stream.failed), 2, ok, stream.position, stream.failed)
    ensures ok ==> value == Value2(stream.file, old(stream.position))
  {
    var bytes := stream.Read(2);
    ok := |bytes| == 2;
    value := if ok then Value2(bytes, 0) else 0;
  }

  method ReadValueBE4(stream: Stream) returns (ok: bool, value: nat)
    modifies stream
    ensures ReadsValue(stream.file, old(stream.position), old(stream.failed), 4, ok, stream.position, stream.failed)
    ensures ok ==> value == Value4(stream.file, old(stream.position))
  {
    var bytes := stream.Read(4);
    ok := |bytes| == 4;
    value := if ok then Value4(bytes, 0) else 0;
  }

  method ReadValue(stream: Stream) returns (ok: bool, value: nat)
    modifies stream
    ensures ReadsValue(stream.file, old(stream.position), old(stream.failed), 1, ok, stream.position, stream.failed)
    ensures ok ==> value == stream.file[old(stream.position)]
  {
    var bytes := stream.Read(1);
    ok := |bytes| == 1;
    value := if ok then bytes[0] else 0;
  }

  /** A fixed-size read succeeds exactly when all its octets are there. */
  ghost predicate ReadsValue(file: Octets, at: nat, before: bool, count: nat, ok: bool, after: nat, failed: bool) {
    && ok == (!before && at + count <= |file|) && failed == !ok
    && (ok ==> after == at + count)
  }

  /** Three octets; zero when they are not all there. */
  method GetCompressedUInt32(stream: Stream) returns (value: nat)
    modifies stream
    ensures stream.failed == (old(stream.failed) || old(stream.position) + 3 > |stream.file|)
    ensures !stream.failed ==> stream.position == old(stream.position) + 3
    ensures value == if stream.failed then 0 else Value3(stream.file, old(stream.position))
  {
    var ok, temp := ReadValue(stream);
    if !ok {
      return 0;
    }
    value := temp * 65536;
    ok, temp := ReadValue(stream);
    if !ok {
      return 0;
    }
    value := value + temp * 256;
    ok, temp := ReadValue(stream);
    if !ok {
      return 0;
    }
    value := value + temp;
  }

  /** A chunk header: fails as soon as a field is not there. */
  method ReadHeader(stream: Stream, id: int) returns (ok: bool, header: Header)
    requires !stream.failed
    modifies stream
    ensures ok == (old(stream.position) + HeaderLength(id) <= |stream.file|)
    ensures ok ==> !stream.failed && stream.position == old(stream.position) + HeaderLength(id)
    ensures ok ==> header == HeaderAt(stream.file, id, old(stream.position))
  {
    var currentFile, currentChunk, currentIndex: nat;
    if Expanded(id) {
      ok, currentFile := ReadValueBE4(stream);
    } else {
      ok, currentFile := ReadValueBE2(stream);
    }
    header := Header(currentFile, 0, 0);
    if !ok {
      return;
    }
    ok, currentChunk := ReadValueBE2(stream);
    if !ok {
      return;
    }
    var nextBlock := GetCompressedUInt32(stream);
    ok, currentIndex := ReadValue(stream);
    header := Header(currentFile, currentChunk, nextBlock);
  }

  /** A result with octets read before it. */
  function Before(read: Octets, r: Option<Octets>): Option<Octets> {
    match r
    case None => None
    case Some(rest) => Some(read + rest)
  }

  /** One block: header, checks and payload. A stream that has failed fails again. */
  method ReadBlock(dataStream: Stream, id: int, block: nat, chunk: nat, blockSize: nat, output: Output)
    returns (ok: bool, next: nat)
    modifies dataStream, output
    ensures ok == (!old(dataStream.failed) && GoodHeader(dataStream.file, id, block, chunk))
    ensures ok ==> next == HeaderAt(dataStream.file, id, Offset(block)).next
    ensures ok ==> output.data == old(output.data) + PieceAt(dataStream.file, id, block, blockSize)
    ensures ok ==> dataStream.failed == (Offset(block) + HeaderLength(id) + blockSize > |dataStream.file|)
  {
    dataStream.Seek(Offset(block));
    if dataStream.failed {
      var bytes := dataStream.Read(2);
      return false, 0;
    }
    var good, header := ReadHeader(dataStream, id);
    if !good || header.file != id % WORD || header.chunk != chunk {
      return false, 0;
    }
    var bytes := dataStream.Read(blockSize);
    output.data := output.data + (bytes + seq(blockSize - |bytes|, _ => 0));
    ok, next := true, header.next;
  }

  ghost predicate GoodHeader(data: Octets, id: int, block: nat, chunk: nat) {
    && Offset(block) + HeaderLength(id) <= |data|
    && HeaderAt(data, id, Offset(block)).file == id % WORD
    && HeaderAt(data, id, Offset(block)).chunk == chunk
  }

  function PieceAt(data: Octets, id: int, block: nat, size: nat): Octets {
    Padded(data, Offset(block) + HeaderLength(id), size)
  }

  /** How far a read of `whole` has come: what is still missing is read from `block` on, unless the
      stream has failed before the end. */
  ghost predicate Follows(whole: Option<Octets>, read: Octets, data: Octets, id: int,
                          block: nat, chunk: nat, remaining: nat, failed: bool)
  {
    if failed && remaining > 0 then whole == None
    else whole == Before(read, ReadChain(data, id, block, chunk, remaining))
  }

  lemma FollowsStart(data: Octets, id: int, first: nat, size: nat)
    ensures Follows(ReadChain(data, id, first, 0, size), [], data, id, first, 0, size, false)
  {
    var whole := ReadChain(data, id, first, 0, size);
    assert whole.Some? ==> [] + whole.value == whole.value;
  }

  lemma FollowsEnd(whole: Option<Octets>, read: Octets, data: Octets, id: int, block: nat, chunk: nat, failed: bool)
    requires Follows(whole, read, data, id, block, chunk, 0, failed)
    ensures whole == Some(read)
  {
    assert read + [] == read;
  }

  lemma FollowsStop(whole: Option<Octets>, read: Octets, data: Octets, id: int,
                    block: nat, chunk: nat, remaining: nat, failed: bool)
    requires Follows(whole, read, data, id, block, chunk, remaining, failed) && remaining > 0
    requires failed || block == 0 || !GoodHeader(data, id, block, chunk)
    ensures whole == None
  {
  }

  /** One step of the chain. */
  lemma FollowsStep(whole: Option<Octets>, read: Octets, data: Octets, id: int,
                    block: nat, chunk: nat, remaining: nat, failed: bool)
    requires Follows(whole, read, data, id, block, chunk, remaining, false)
    requires remaining > 0 && block != 0 && GoodHeader(data, id, block, chunk)
    requires failed == (Offset(block) + HeaderLength(id) + PieceLength(id, remaining) > |data|)
    ensures var size := PieceLength(id, remaining);
            Follows(whole, read + PieceAt(data, id, block, size), data, id,
                    HeaderAt(data, id, Offset(block)).next, chunk + 1, remaining - size, failed)
  {
    var size := PieceLength(id, remaining);
    var next := ReadChain(data, id, HeaderAt(data, id, Offset(block)).next, chunk + 1, remaining - size);
    assert ReadChain(data, id, block, chunk, remaining)
        == if failed && remaining > size then None else Before(PieceAt(data, id, block, size), next);
    hide ReadChain, PieceAt, HeaderAt, Offset, GoodHeader;
    if next.Some? {
      assert read + (PieceAt(data, id, block, size) + next.value) == read + PieceAt(data, id, block, size) + next.value;
    }
  }

  lemma PieceBounds(id: int, remaining: nat)
    ensures PieceLength(id, remaining) <= remaining
    ensures remaining > 0 ==> PieceLength(id, remaining) > 0
    ensures PieceLength(id, remaining) < remaining ==> PieceLength(id, remaining) >= BLOCK_EXPANDED_LENGTH
  {
  }

  /** Sizes are 24-bit, so 16 bits count the chunks. */
  lemma NoWrap(chunk: nat, done: nat)
    requires BLOCK_EXPANDED_LENGTH * chunk <= done < 0x100_0000
    ensures (chunk + 1) % 0x10000 == chunk + 1
  {
  }

  /** The next block of a chain that is being followed. */
  method FollowBlock(dataStream: Stream, id: int, block: nat, chunk: nat, remaining: nat, output: Output,
                     ghost whole: Option<Octets>, ghost read: Octets)
    returns (ok: bool, next: nat)
    requires remaining > 0
    requires Follows(whole, read, dataStream.file, id, block, chunk, remaining, dataStream.failed)
    modifies dataStream, output
    ensures !ok ==> whole == None
    ensures ok ==> output.data == old(output.data) + PieceAt(dataStream.file, id, block, PieceLength(id, remaining))
    ensures ok ==> Follows(whole, read + PieceAt(dataStream.file, id, block, PieceLength(id, remaining)),
                           dataStream.file, id, next, chunk + 1, remaining - PieceLength(id, remaining),
                           dataStream.failed)
  {
    ghost var failed := dataStream.failed;
    if block == 0 {
      FollowsStop(whole, read, dataStream.file, id, block, chunk, remaining, failed);
      return false, 0;
    }
    ok, next := ReadBlock(dataStream, id, block, chunk, PieceLength(id, remaining), output);
    if ok {
      FollowsStep(whole, read, dataStream.file, id, block, chunk, remaining, dataStream.failed);
    } else {
      FollowsStop(whole, read, dataStream.file, id, block, chunk, remaining, failed);
    }
  }

  /** Follows the chain from a block; the 16-bit chunk counter cannot wrap. */
  method ReadBlocks(dataStream: Stream, id: int, first: nat, size: nat, output: Output) returns (ok: bool)
    requires !dataStream.failed && size < 0x100_0000
    modifies dataStream, output
    ensures ok == ReadChain(dataStream.file, id, first, 0, size).Some?
    ensures ok ==> output.data == old(output.data) + ReadChain(dataStream.file, id, first, 0, size).value
  {
    ghost var data, start := dataStream.file, output.data;
    ghost var whole := ReadChain(data, id, first, 0, size);
    ghost var read: Octets := [];
    var remaining: nat, block: nat, chunk: nat := size, first, 0;
    FollowsStart(data, id, first, size);
    while remaining > 0
      invariant 0 <= remaining <= size && output.data == start + read
      invariant remaining > 0 ==> BLOCK_EXPANDED_LENGTH * chunk <= size - remaining
      invariant Follows(whole, read, data, id, block, chunk, remaining, dataStream.failed)
    {
      NoWrap(chunk, size - remaining);
      PieceBounds(id, remaining);
      ghost var piece := PieceAt(data, id, block, PieceLength(id, remaining));
      ok, block := FollowBlock(dataStream, id, block, chunk, remaining, output, whole, read);
      if !ok {
        return false;
      }
      read := read + piece;
      remaining := remaining - PieceLength(id, remaining);
      chunk := (chunk + 1) % 0x10000;
    }
    FollowsEnd(whole, read, data, id, block, chunk, dataStream.failed);
    ok := true;
  }

  /** An index: two streams. */
  class Index {
    const dataStream: Stream
    const indexStream: Stream

    constructor (dataStream: Stream, indexStream: Stream)
      ensures this.dataStream == dataStream && this.indexStream == indexStream
    {
      this.dataStream, this.indexStream := dataStream, indexStream;
    }

    /** Appends an archive to the output. What is appended is what the store holds, octet for octet,
        exactly when the store does not end inside the last block. */
    method GetArchiveData(id: int, output: Output) returns (ok: bool)
      requires dataStream != indexStream
      modifies dataStream, indexStream, output
      ensures ok == ReadArchive(indexStream.file, dataStream.file, id).Some?
      ensures ok ==> output.data == old(output.data) + ReadArchive(indexStream.file, dataStream.file, id).value
      ensures ok ==> (LaidOut(dataStream.file, id, ArchiveBlocks(indexStream.file, dataStream.file, id), 0,
                              output.data[|old(output.data)|..])
                      <==> WholeInStore(indexStream.file, dataStream.file, id))
    {
      ghost var start := output.data;
      indexStream.Clear();
      dataStream.Clear();
      if |indexStream.file| < ((id + 1) * IDX_BLOCK_LENGTH) % WORD {
        return false;
      }
      indexStream.Seek((id * IDX_BLOCK_LENGTH) % WORD);
      var size := GetCompressedUInt32(indexStream);
      var block := GetCompressedUInt32(indexStream);
      var dataBlockCount := (|dataStream.file| / TOTAL_BLOCK_LENGTH) % WORD;
      if block == 0 || block > dataBlockCount {
        return false;
      }
      ok := ReadBlocks(dataStream, id, block, size, output);
      if ok {
        ArchiveIsStored(indexStream.file, dataStream.file, id);
        assert output.data[|start|..] == ReadArchive(indexStream.file, dataStream.file, id).value;
      }
    }
  }
}
