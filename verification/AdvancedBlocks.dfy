/** Processing many blocks: the batched loops against the one-block loop, on shared memory. */
module AdvancedBlocks {
  import opened ByteStrings

  // ---- Memory ----------------------------------------------------------------------------

  const ZERO_BLOCK: Block := [0, 0, 0, 0, 0, 0, 0, 0, 0, 0, 0, 0, 0, 0, 0, 0]

  predicate InMemory(m: Bytes, at: int) {
    0 <= at && at + 16 <= |m|
  }

  /** The block at an address. */
  function Read(m: Bytes, at: int): Block {
    if InMemory(m, at) then m[at..at + 16] else ZERO_BLOCK
  }

  function Write(m: Bytes, at: int, b: Block): (n: Bytes)
    ensures |n| == |m|
  {
    if InMemory(m, at) then m[..at] + b + m[at + 16..] else m
  }

  predicate Apart(a: int, b: int) {
    a + 16 <= b || b + 16 <= a
  }

  lemma ReadPastWrite(m: Bytes, at: int, b: Block, other: int)
    requires Apart(at, other)
    ensures Read(Write(m, at, b), other) == Read(m, other)
  {
  }

  lemma ReadWritten(m: Bytes, at: int, b: Block)
    requires InMemory(m, at)
    ensures Read(Write(m, at, b), at) == b
  {
  }

  lemma WrittenAt(m: Bytes, at: int, b: Block, pos: int)
    requires InMemory(m, at) && 0 <= pos < |m|
    ensures Write(m, at, b)[pos] == if at <= pos < at + 16 then b[pos - at] else m[pos]
  {
  }

  lemma WritesCommute(m: Bytes, at: int, b: Block, other: int, c: Block)
    requires Apart(at, other)
    ensures Write(Write(m, at, b), other, c) == Write(Write(m, other, c), at, b)
  {
    if InMemory(m, at) && InMemory(m, other) {
      hide Write;
      var l, r := Write(Write(m, at, b), other, c), Write(Write(m, other, c), at, b);
      forall pos | 0 <= pos < |m| ensures l[pos] == r[pos] {
        WrittenAt(m, at, b, pos);
        WrittenAt(Write(m, at, b), other, c, pos);
        WrittenAt(m, other, c, pos);
        WrittenAt(Write(m, other, c), at, b, pos);
      }
      assert l == r;
    }
  }

  lemma WriteTwice(m: Bytes, at: int, b: Block, c: Block)
    ensures Write(Write(m, at, b), at, c) == Write(m, at, c)
  {
  }

  // ---- One block at a time ---------------------------------------------------------------

  /** A call: the kernel, where the three runs of blocks start, how far apart their blocks are,
      and which modes apply. */
  datatype Job = Job(kernel: Block -> Block, in0: int, xor0: int, out0: int,
                     inStep: int, xorStep: int, outStep: int,
                     counter: bool, xorInput: bool, xorOutput: bool)

  /** The address of block `j` of a run. */
  function Address(start: int, step: int, j: nat): int {
    if j == 0 then start else Address(start, step, j - 1) + step
  }

  function In(job: Job, j: nat): int {
    Address(job.in0, job.inStep, j)
  }

  function XorAt(job: Job, j: nat): int {
    Address(job.xor0, job.xorStep, j)
  }

  function Out(job: Job, j: nat): int {
    Address(job.out0, job.outStep, j)
  }

  predicate UsesXor(job: Job) {
    job.xorInput || job.xorOutput
  }

  /** The next counter block: only the last byte changes. */
  function Count(b: Block): Block {
    b[15 := b[15] + 1]
  }

  function Counts(b: Block, n: nat): Block {
    if n == 0 then b else Count(Counts(b, n - 1))
  }

  /** What becomes of an input block and the block it is combined with. */
  function Processed(job: Job, b: Block, x: Block): Block {
    if job.xorInput then job.kernel(Xor(b, x))
    else if job.xorOutput then Xor(job.kernel(b), x)
    else job.kernel(b)
  }

  /** One turn of the one-block loop. */
  function Step(job: Job, m: Bytes, j: nat): Bytes {
    var b := Read(m, In(job, j));
    var m1 := if job.counter then Write(m, In(job, j), Count(b)) else m;
    var x := Read(if job.xorInput then m else m1, XorAt(job, j));
    Write(m1, Out(job, j), Processed(job, b, x))
  }

  /** Blocks `j` to `j + n`. */
  function Steps(job: Job, m: Bytes, j: nat, n: nat): (r: Bytes)
  {
    if n == 0 then m else Step(job, Steps(job, m, j, n - 1), j + n - 1)
  }

  // ---- A batch ---------------------------------------------------------------------------

  /** The input of block `i` of a batch, all read before anything is written. */
  function Loaded(job: Job, m: Bytes, j: nat, i: nat): Block {
    if job.counter then Counts(Read(m, In(job, j)), i) else Read(m, In(job, j + i))
  }

  /** Memory once the counter has moved on. */
  function Counted(job: Job, m: Bytes, j: nat, width: nat): Bytes {
    if job.counter then Write(m, In(job, j), Loaded(job, m, j, width)) else m
  }

  function Result(job: Job, m: Bytes, j: nat, m1: Bytes, i: nat): Block {
    Processed(job, Loaded(job, m, j, i), Read(m1, XorAt(job, j + i)))
  }

  /** The first `n` results stored. */
  function Stored(job: Job, m: Bytes, j: nat, m1: Bytes, n: nat): Bytes {
    if n == 0 then m1
    else Write(Stored(job, m, j, m1, n - 1), Out(job, j + n - 1), Result(job, m, j, m1, n - 1))
  }

  function Batch(job: Job, m: Bytes, j: nat, width: nat): Bytes {
    Stored(job, m, j, Counted(job, m, j, width), width)
  }

  lemma NextStep(job: Job, m: Bytes, j: nat, n: nat)
    ensures Steps(job, m, j, n + 1) == Step(job, Steps(job, m, j, n), j + n)
  {
  }

  lemma NextStored(job: Job, m: Bytes, j: nat, m1: Bytes, n: nat)
    ensures Stored(job, m, j, m1, n + 1)
         == Write(Stored(job, m, j, m1, n), Out(job, j + n), Result(job, m, j, m1, n))
  {
  }

  /** No block of a batch is read after an earlier one was stored over it, and the counter is kept
      apart from the blocks combined with. */
  ghost predicate Clear(job: Job, j: nat, width: nat) {
    && (forall i: nat, k: nat :: i < k < width ==> ClearPair(job, j, i, k))
    && (job.counter ==> job.inStep == 0 && forall k: nat :: k < width ==> CounterApartFrom(job, j, k))
  }

  ghost predicate ClearPair(job: Job, j: nat, i: nat, k: nat) {
    ReadableAfter(job, j + i, j + k)
  }

  ghost predicate ReadableAfter(job: Job, i: nat, k: nat) {
    Apart(Out(job, i), In(job, k)) && (UsesXor(job) ==> Apart(Out(job, i), XorAt(job, k)))
  }

  ghost predicate CounterApart(job: Job, k: nat) {
    UsesXor(job) ==> Apart(job.in0, XorAt(job, k))
  }

  lemma {:induction false} SameAddress(start: int, j: nat)
    ensures Address(start, 0, j) == start
  {
    if j > 0 {
      SameAddress(start, j - 1);
    }
  }

  lemma WriteSame(m: Bytes, at: int)
    ensures Write(m, at, Read(m, at)) == m
  {
  }

  /** Storing results leaves a block readable that none of them lies on. */
  lemma {:induction false} ReadPastStored(job: Job, m: Bytes, j: nat, m1: Bytes, n: nat, at: int)
    requires forall t: nat :: t < n ==> ApartFrom(job, j, t, at)
    ensures Read(Stored(job, m, j, m1, n), at) == Read(m1, at)
  {
    if n > 0 {
      assert ApartFrom(job, j, n - 1, at);
      ReadPastStored(job, m, j, m1, n - 1, at);
      ReadPastWrite(Stored(job, m, j, m1, n - 1), Out(job, j + n - 1), Result(job, m, j, m1, n - 1), at);
    }
  }

  ghost predicate ApartFrom(job: Job, j: nat, t: nat, at: int) {
    Apart(Out(job, j + t), at)
  }

  ghost predicate CounterApartFrom(job: Job, j: nat, t: nat) {
    CounterApart(job, j + t)
  }

  /** The counter may be stored before or after the results. */
  lemma {:induction false} CountPastStored(job: Job, m: Bytes, j: nat, m1: Bytes, n: nat, c: Block)
    requires forall t: nat :: t < n ==> ApartFrom(job, j, t, job.in0)
    requires forall t: nat :: t < n ==> CounterApartFrom(job, j, t)
    ensures Write(Stored(job, m, j, m1, n), job.in0, c) == Stored(job, m, j, Write(m1, job.in0, c), n)
  {
    if n > 0 {
      var t := n - 1;
      assert ApartFrom(job, j, t, job.in0) && CounterApartFrom(job, j, t);
      CountPastStored(job, m, j, m1, t, c);
      var r := Result(job, m, j, m1, t);
      WritesCommute(Stored(job, m, j, m1, t), Out(job, j + t), r, job.in0, c);
      if UsesXor(job) {
        ReadPastWrite(m1, job.in0, c, XorAt(job, j + t));
      }
      assert Result(job, m, j, Write(m1, job.in0, c), t) == r;
    }
  }

  lemma EmptyBatch(job: Job, m: Bytes, j: nat)
    ensures Batch(job, m, j, 0) == m
  {
    WriteSame(m, In(job, j));
  }

  lemma ClearFewer(job: Job, j: nat, i: nat)
    requires Clear(job, j, i + 1)
    ensures Clear(job, j, i)
  {
  }

  /** A batch is its blocks one at a time. */
  lemma {:induction false} BatchIsSteps(job: Job, m: Bytes, j: nat, width: nat)
    requires Clear(job, j, width)
    requires job.counter ==> InMemory(m, job.in0)
    ensures Steps(job, m, j, width) == Batch(job, m, j, width)
  {
    if width == 0 {
      EmptyBatch(job, m, j);
    } else {
      hide Step, Batch, Clear;
      var i: nat := width - 1;
      ClearFewer(job, j, i);
      BatchIsSteps(job, m, j, i);
      BatchStep(job, m, j, i);
      NextStep(job, m, j, i);
    }
  }

  lemma BatchStep(job: Job, m: Bytes, j: nat, i: nat)
    requires Clear(job, j, i + 1)
    requires job.counter ==> InMemory(m, job.in0)
    ensures Step(job, Batch(job, m, j, i), j + i) == Batch(job, m, j, i + 1)
  {
    if job.counter {
      CounterStep(job, m, j, i);
    } else {
      PlainStep(job, m, j, i);
    }
  }

  lemma PlainStep(job: Job, m: Bytes, j: nat, i: nat)
    requires Clear(job, j, i + 1) && !job.counter
    ensures Step(job, Batch(job, m, j, i), j + i) == Batch(job, m, j, i + 1)
  {
    var inAt, xorAt := In(job, j + i), XorAt(job, j + i);
    forall t: nat | t < i ensures ApartFrom(job, j, t, inAt) {
      assert ClearPair(job, j, t, i);
    }
    ReadPastStored(job, m, j, m, i, inAt);
    if UsesXor(job) {
      forall t: nat | t < i ensures ApartFrom(job, j, t, xorAt) {
        assert ClearPair(job, j, t, i);
      }
      ReadPastStored(job, m, j, m, i, xorAt);
    }
  }

  lemma CounterStep(job: Job, m: Bytes, j: nat, i: nat)
    requires Clear(job, j, i + 1) && job.counter && InMemory(m, job.in0)
    ensures Step(job, Batch(job, m, j, i), j + i) == Batch(job, m, j, i + 1)
  {
    SameAddress(job.in0, j);
    SameAddress(job.in0, j + i);
    var m1, start := Counted(job, m, j, i), Read(m, job.in0);
    var before := Stored(job, m, j, m1, i);
    forall t: nat | t < i ensures ApartFrom(job, j, t, job.in0) && CounterApartFrom(job, j, t) {
      assert ClearPair(job, j, t, i) && CounterApartFrom(job, j, t);
    }
    ReadPastStored(job, m, j, m1, i, job.in0);
    ReadWritten(m, job.in0, Counts(start, i));
    var c := Loaded(job, m, j, i + 1);
    CountPastStored(job, m, j, m1, i, c);
    WriteTwice(m, job.in0, Loaded(job, m, j, i), c);
    if UsesXor(job) {
      var xorAt := XorAt(job, j + i);
      forall t: nat | t < i ensures ApartFrom(job, j, t, xorAt) {
        assert ClearPair(job, j, t, i);
      }
      assert CounterApartFrom(job, j, i);
      ReadPastStored(job, m, j, m1, i, xorAt);
      ReadPastWrite(before, job.in0, c, xorAt);
      ReadPastWrite(m1, job.in0, c, xorAt);
    }
  }

  /** Going on where a first part stopped. */
  lemma {:induction false} StepsFrom(job: Job, m: Bytes, j: nat, a: nat, b: nat)
    ensures Steps(job, Steps(job, m, j, a), j + a, b) == Steps(job, m, j, a + b)
  {
    if b > 0 {
      StepsFrom(job, m, j, a, b - 1);
      assert j + a + (b - 1) == j + (a + b) - 1;
    }
  }

  // ---- All batches of a call -------------------------------------------------------------

  /** Batches of `width` blocks from block `j`, as long as `n` blocks allow them. */
  function Batches(job: Job, m: Bytes, j: nat, n: nat, width: nat): Bytes
    requires width > 0
    decreases n - j
  {
    if n < j + width then m else Batches(job, Batch(job, m, j, width), j + width, n, width)
  }

  /** The block they stop at. */
  function After(j: nat, n: nat, width: nat): (k: nat)
    requires width > 0
    ensures j <= k && n < k + width && (j <= n ==> k <= n)
    decreases n - j
  {
    if n < j + width then j else After(j + width, n, width)
  }

  ghost predicate AllClear(job: Job, j: nat, n: nat, width: nat)
    requires width > 0
    decreases n - j
  {
    n < j + width || (Clear(job, j, width) && AllClear(job, j + width, n, width))
  }

  lemma {:induction false} StoredLength(job: Job, m: Bytes, j: nat, m1: Bytes, n: nat)
    ensures |Stored(job, m, j, m1, n)| == |m1|
  {
    if n > 0 {
      StoredLength(job, m, j, m1, n - 1);
    }
  }

  lemma BatchLength(job: Job, m: Bytes, j: nat, width: nat)
    ensures |Batch(job, m, j, width)| == |m|
  {
    StoredLength(job, m, j, Counted(job, m, j, width), width);
  }

  lemma {:induction false} BatchesLength(job: Job, m: Bytes, j: nat, n: nat, width: nat)
    requires width > 0
    ensures |Batches(job, m, j, n, width)| == |m|
    decreases n - j
  {
    if n >= j + width {
      BatchLength(job, m, j, width);
      BatchesLength(job, Batch(job, m, j, width), j + width, n, width);
    }
  }

  /** All batches together are their blocks one at a time. */
  lemma {:induction false} BatchesAreSteps(job: Job, m: Bytes, j: nat, n: nat, width: nat)
    requires width > 0 && j <= n && AllClear(job, j, n, width)
    requires job.counter ==> InMemory(m, job.in0)
    ensures Batches(job, m, j, n, width) == Steps(job, m, j, After(j, n, width) - j)
    decreases n - j
  {
    hide Step, Batch, Clear;
    if n >= j + width {
      BatchLength(job, m, j, width);
      BatchIsSteps(job, m, j, width);
      BatchesAreSteps(job, Batch(job, m, j, width), j + width, n, width);
      var rest: nat := After(j + width, n, width) - (j + width);
      StepsFrom(job, m, j, width, rest);
      assert After(j, n, width) - j == width + rest;
    }
  }

  /** Batches of six, then of two, then single blocks. */
  function SixTwoOne(job: Job, m: Bytes, n: nat): Bytes {
    var a := After(0, n, 6);
    var b := After(a, n, 2);
    Ones(job, Batches(job, Batches(job, m, 0, n, 6), a, n, 2), b, n)
  }

  /** Batches of four, then single blocks. */
  function FourOne(job: Job, m: Bytes, n: nat): Bytes {
    Ones(job, Batches(job, m, 0, n, 4), After(0, n, 4), n)
  }

  /** The blocks from `j` on, one at a time. */
  function Ones(job: Job, m: Bytes, j: nat, n: nat): Bytes {
    if j <= n then Steps(job, m, j, n - j) else m
  }

  /** Going on in batches. */
  lemma BatchesGoOn(job: Job, start: Bytes, m: Bytes, j: nat, n: nat, width: nat)
    requires m == Steps(job, start, 0, j)
    requires width > 0 && j <= n && AllClear(job, j, n, width)
    requires job.counter ==> InMemory(m, job.in0)
    ensures Batches(job, m, j, n, width) == Steps(job, start, 0, After(j, n, width))
  {
    BatchesAreSteps(job, m, j, n, width);
    StepsFrom(job, start, 0, j, After(j, n, width) - j);
  }

  lemma OnesGoOn(job: Job, start: Bytes, m: Bytes, j: nat, n: nat)
    requires m == Steps(job, start, 0, j) && j <= n
    ensures Ones(job, m, j, n) == Steps(job, start, 0, n)
  {
    StepsFrom(job, start, 0, j, n - j);
  }

  lemma SixTwoOneIsSteps(job: Job, m: Bytes, n: nat)
    requires AllClear(job, 0, n, 6) && AllClear(job, After(0, n, 6), n, 2)
    requires job.counter ==> InMemory(m, job.in0)
    ensures SixTwoOne(job, m, n) == Steps(job, m, 0, n)
  {
    var a, m6 := After(0, n, 6), Batches(job, m, 0, n, 6);
    BatchesLength(job, m, 0, n, 6);
    BatchesGoOn(job, m, m, 0, n, 6);
    BatchesGoOn(job, m, m6, a, n, 2);
    OnesGoOn(job, m, Batches(job, m6, a, n, 2), After(a, n, 2), n);
  }

  lemma FourOneIsSteps(job: Job, m: Bytes, n: nat)
    requires AllClear(job, 0, n, 4)
    requires job.counter ==> InMemory(m, job.in0)
    ensures FourOne(job, m, n) == Steps(job, m, 0, n)
  {
    BatchesGoOn(job, m, m, 0, n, 4);
    OnesGoOn(job, m, Batches(job, m, 0, n, 4), After(0, n, 4), n);
  }

  /** What makes every batch of every width clear: no block at all is read after it was stored over. */
  ghost predicate Undisturbed(job: Job, n: nat) {
    && (forall i: nat, k: nat :: i < k < n ==> ReadableAfter(job, i, k))
    && (job.counter ==> job.inStep == 0 && forall k: nat :: k < n ==> CounterApart(job, k))
  }

  lemma {:induction false} UndisturbedIsClear(job: Job, j: nat, n: nat, width: nat)
    requires Undisturbed(job, n) && width > 0
    ensures AllClear(job, j, n, width)
    decreases n - j
  {
    if n >= j + width {
      forall i: nat, k: nat | i < k < width ensures ClearPair(job, j, i, k) {
        assert ReadableAfter(job, j + i, j + k);
      }
      forall k: nat | k < width && job.counter ensures CounterApartFrom(job, j, k) {
        assert CounterApart(job, j + k);
      }
      UndisturbedIsClear(job, j + width, n, width);
    }
  }

  // ---- When a batch differs --------------------------------------------------------------

  /** A kernel that turns every bit. */
  function Turned(b: Block): Block {
    seq(16, i requires 0 <= i < 16 => b[i] ^ 0xff)
  }

  /** Every kernel and every memory of the size: the batch does what the one-block loop does. */
  ghost predicate AlwaysAlike(job: Job, size: nat, j: nat, width: nat) {
    forall kernel: Block -> Block, m: Bytes :: |m| == size ==> Alike(job.(kernel := kernel), m, j, width)
  }

  ghost predicate Alike(job: Job, m: Bytes, j: nat, width: nat) {
    Batch(job, m, j, width) == Steps(job, m, j, width)
  }

  /** No counter, nothing to combine with, and outputs that do not lie on each other. */
  ghost predicate Plain(job: Job, size: nat, j: nat, width: nat) {
    && !job.counter && !UsesXor(job)
    && (forall i: nat :: i < width ==> InMemoryAt(job, size, j, i))
    && forall i: nat, k: nat :: i < k < width ==> OutApart(job, j, i, k)
  }

  ghost predicate InMemoryAt(job: Job, size: nat, j: nat, i: nat) {
    0 <= In(job, j + i) <= size - 16 && 0 <= Out(job, j + i) <= size - 16
  }

  ghost predicate OutApart(job: Job, j: nat, i: nat, k: nat) {
    Apart(Out(job, j + i), Out(job, j + k))
  }

  /** Exactly the clear batches are always alike. */
  lemma ClearIsAlike(job: Job, size: nat, j: nat, width: nat)
    requires Plain(job, size, j, width)
    ensures AlwaysAlike(job, size, j, width) <==> Clear(job, j, width)
  {
    if Clear(job, j, width) {
      forall kernel: Block -> Block, m: Bytes | |m| == size ensures Alike(job.(kernel := kernel), m, j, width) {
        SameClear(job, kernel, j, width);
        BatchIsSteps(job.(kernel := kernel), m, j, width);
      }
    } else {
      var with := job.(kernel := Turned);
      SamePlain(job, Turned, size, j, width);
      var k := FirstUnclear(job, j, width);
      SameClear(job, Turned, j, k);
      if Clear(with, j, k + 1) {
        SameClear(with, job.kernel, j, k + 1);
      }
      UnclearDiffers(with, size, j, width, k);
      assert !Alike(with, Zeros(size), j, width);
    }
  }

  lemma SameClear(job: Job, kernel: Block -> Block, j: nat, width: nat)
    requires Clear(job, j, width)
    ensures Clear(job.(kernel := kernel), j, width)
  {
    var with := job.(kernel := kernel);
    forall i: nat, k: nat | i < k < width ensures ClearPair(with, j, i, k) {
      assert ClearPair(job, j, i, k);
    }
    forall k: nat | k < width && job.counter ensures CounterApartFrom(with, j, k) {
      assert CounterApartFrom(job, j, k);
    }
  }

  lemma SamePlain(job: Job, kernel: Block -> Block, size: nat, j: nat, width: nat)
    requires Plain(job, size, j, width)
    ensures Plain(job.(kernel := kernel), size, j, width)
  {
    var with := job.(kernel := kernel);
    forall i: nat | i < width ensures InMemoryAt(with, size, j, i) {
      assert InMemoryAt(job, size, j, i);
    }
    forall i: nat, k: nat | i < k < width ensures OutApart(with, j, i, k) {
      assert OutApart(job, j, i, k);
    }
  }

  /** The first block that an earlier one of the batch is stored over. */
  ghost function FirstUnclear(job: Job, j: nat, width: nat): (k: nat)
    requires !job.counter && !Clear(job, j, width)
    ensures k < width && Clear(job, j, k) && !Clear(job, j, k + 1)
  {
    if Clear(job, j, width - 1) then width - 1 else FirstUnclear(job, j, width - 1)
  }

  lemma UnclearPair(job: Job, j: nat, k: nat) returns (i: nat)
    requires !job.counter && !UsesXor(job) && Clear(job, j, k) && !Clear(job, j, k + 1)
    ensures i < k && !Apart(Out(job, j + i), In(job, j + k))
  {
    i :| i < k && !ClearPair(job, j, i, k);
  }

  ghost predicate TurnedAt(job: Job, m: Bytes, j: nat, i: nat) {
    InMemoryAt(job, |m|, j, i) && forall c :: 0 <= c < 16 ==> Result(job, m, j, m, i)[c] == 0xff
  }

  /** When every result is all ones, so is every byte that one of them was stored over. */
  lemma {:induction false} StoredTurned(job: Job, m: Bytes, j: nat, n: nat, i: nat, at: int)
    requires i < n && forall t: nat :: t < n ==> TurnedAt(job, m, j, t)
    requires 0 <= at < |m| && Out(job, j + i) <= at < Out(job, j + i) + 16
    ensures |Stored(job, m, j, m, n)| == |m| && Stored(job, m, j, m, n)[at] == 0xff
  {
    hide Write, Result, Address;
    assert TurnedAt(job, m, j, n - 1);
    StoredLength(job, m, j, m, n - 1);
    WrittenAt(Stored(job, m, j, m, n - 1), Out(job, j + n - 1), Result(job, m, j, m, n - 1), at);
    if i < n - 1 {
      StoredTurned(job, m, j, n - 1, i, at);
    }
  }

  lemma TurnedZeros(job: Job, size: nat, j: nat, i: nat)
    requires !job.counter && !UsesXor(job) && job.kernel == Turned && InMemoryAt(job, size, j, i)
    ensures TurnedAt(job, Zeros(size), j, i)
  {
  }

  lemma LastStep(job: Job, m: Bytes, j: nat, n: nat, at: int)
    requires n > 0 && !job.counter && ApartFrom(job, j, n - 1, at)
    ensures Read(Steps(job, m, j, n), at) == Read(Steps(job, m, j, n - 1), at)
  {
    var before := Steps(job, m, j, n - 1);
    var b := Processed(job, Read(before, In(job, j + n - 1)), Read(before, XorAt(job, j + n - 1)));
    ReadPastWrite(before, Out(job, j + n - 1), b, at);
  }

  lemma LastStored(job: Job, m: Bytes, j: nat, m1: Bytes, n: nat, at: int)
    requires n > 0 && ApartFrom(job, j, n - 1, at)
    ensures Read(Stored(job, m, j, m1, n), at) == Read(Stored(job, m, j, m1, n - 1), at)
  {
    ReadPastWrite(Stored(job, m, j, m1, n - 1), Out(job, j + n - 1), Result(job, m, j, m1, n - 1), at);
  }

  ghost predicate OutsApart(job: Job, j: nat, k: nat, n: nat, at: int) {
    forall t: nat :: k < t < n ==> ApartFrom(job, j, t, at)
  }

  lemma AllTurned(job: Job, size: nat, j: nat, width: nat)
    requires Plain(job, size, j, width) && job.kernel == Turned
    ensures forall t: nat :: t < width ==> TurnedAt(job, Zeros(size), j, t)
  {
    forall t: nat | t < width ensures TurnedAt(job, Zeros(size), j, t) {
      assert InMemoryAt(job, size, j, t);
      TurnedZeros(job, size, j, t);
    }
  }

  /** Later steps leave a block that none of them is stored over. */
  lemma {:induction false} StepsKeep(job: Job, m: Bytes, j: nat, k: nat, n: nat, at: int)
    requires !job.counter && OutsApart(job, j, k, n, at) && k < n
    ensures Read(Steps(job, m, j, n), at) == Read(Steps(job, m, j, k + 1), at)
  {
    hide Read, Step, Steps, Address;
    if n > k + 1 {
      LastStep(job, m, j, n, at);
      StepsKeep(job, m, j, k, n - 1, at);
    }
  }

  lemma {:induction false} StoredKeeps(job: Job, m: Bytes, j: nat, m1: Bytes, k: nat, n: nat, at: int)
    requires OutsApart(job, j, k, n, at) && k < n
    ensures Read(Stored(job, m, j, m1, n), at) == Read(Stored(job, m, j, m1, k + 1), at)
  {
    hide Read, Write, Stored, Result, Address;
    if n > k + 1 {
      LastStored(job, m, j, m1, n, at);
      StoredKeeps(job, m, j, m1, k, n - 1, at);
    }
  }

  /** The first unclear block reads something that was stored over it. */
  lemma StoredOver(job: Job, m: Bytes, j: nat, k: nat) returns (c: nat)
    requires !job.counter && !UsesXor(job) && Clear(job, j, k) && !Clear(job, j, k + 1)
    requires forall t: nat :: t <= k ==> TurnedAt(job, m, j, t)
    ensures c < 16 && Read(Stored(job, m, j, m, k), In(job, j + k))[c] == 0xff
  {
    hide Stored, Result, Address;
    var inAt := In(job, j + k);
    assert TurnedAt(job, m, j, k);
    var i := UnclearPair(job, j, k);
    assert TurnedAt(job, m, j, i);
    var at := if Out(job, j + i) < inAt then inAt else Out(job, j + i);
    StoredTurned(job, m, j, k, i, at);
    c := at - inAt;
  }

  /** What the loop leaves where block `k` goes. */
  lemma LoopLeaves(job: Job, m: Bytes, j: nat, width: nat, k: nat)
    requires Plain(job, |m|, j, width) && k < width && Clear(job, j, k)
    ensures Read(Steps(job, m, j, width), Out(job, j + k))
         == job.kernel(Read(Stored(job, m, j, m, k), In(job, j + k)))
  {
    assert InMemoryAt(job, |m|, j, k);
    var outAt, stored := Out(job, j + k), Stored(job, m, j, m, k);
    LaterOutsApart(job, |m|, j, width, k);
    StepsKeep(job, m, j, k, width, outAt);
    BatchIsSteps(job, m, j, k);
    StoredLength(job, m, j, m, k);
    NextStep(job, m, j, k);
    ReadWritten(stored, outAt, job.kernel(Read(stored, In(job, j + k))));
  }

  /** What the batch leaves there. */
  lemma BatchLeaves(job: Job, m: Bytes, j: nat, width: nat, k: nat)
    requires Plain(job, |m|, j, width) && k < width
    ensures Read(Batch(job, m, j, width), Out(job, j + k)) == Result(job, m, j, m, k)
  {
    assert InMemoryAt(job, |m|, j, k);
    var outAt, stored := Out(job, j + k), Stored(job, m, j, m, k);
    LaterOutsApart(job, |m|, j, width, k);
    StoredKeeps(job, m, j, m, k, width, outAt);
    StoredLength(job, m, j, m, k);
    NextStored(job, m, j, m, k);
    ReadWritten(stored, outAt, Result(job, m, j, m, k));
  }

  lemma LaterOutsApart(job: Job, size: nat, j: nat, width: nat, k: nat)
    requires Plain(job, size, j, width)
    ensures OutsApart(job, j, k, width, Out(job, j + k))
  {
    var outAt := Out(job, j + k);
    forall t: nat | k < t < width ensures ApartFrom(job, j, t, outAt) {
      assert OutApart(job, j, k, t);
    }
  }

  /** The batch turns the zeros it read first, the loop the block that was stored over them. */
  lemma TurnedDiffer(job: Job, size: nat, j: nat, width: nat, k: nat)
    requires Plain(job, size, j, width) && job.kernel == Turned && k < width
    requires Clear(job, j, k) && !Clear(job, j, k + 1)
    ensures var m := Zeros(size);
            Turned(Read(Stored(job, m, j, m, k), In(job, j + k))) != Result(job, m, j, m, k)
  {
    hide Stored, Clear, Read, Address;
    var m := Zeros(size);
    AllTurned(job, size, j, width);
    var c := StoredOver(job, m, j, k);
    var b := Read(Stored(job, m, j, m, k), In(job, j + k));
    assert Turned(b)[c] == 0x00;
    assert TurnedAt(job, m, j, k);
  }

  lemma UnclearDiffers(job: Job, size: nat, j: nat, width: nat, k: nat)
    requires Plain(job, size, j, width) && job.kernel == Turned && k < width
    requires Clear(job, j, k) && !Clear(job, j, k + 1)
    ensures !Alike(job, Zeros(size), j, width)
  {
    hide Batch, Steps, Stored, Clear, Read, Address;
    var m := Zeros(size);
    TurnedDiffer(job, size, j, width, k);
    LoopLeaves(job, m, j, width, k);
    BatchLeaves(job, m, j, width, k);
  }

  // ---- When a whole call differs -----------------------------------------------------------

  /** No block from `j` on is stored over `at`. */
  ghost predicate PassBy(job: Job, j: nat, n: nat, at: int) {
    forall t: nat :: j <= t < n ==> ApartFrom(job, 0, t, at)
  }

  lemma {:induction false} StepsPass(job: Job, m: Bytes, j: nat, count: nat, at: int)
    requires !job.counter && PassBy(job, j, j + count, at)
    ensures Read(Steps(job, m, j, count), at) == Read(m, at)
  {
    if count > 0 {
      hide Read;
      StepsPass(job, m, j, count - 1, at);
      assert ApartFrom(job, 0, j + (count - 1), at);
      LastStep(job, m, j, count, at);
    }
  }

  lemma {:induction false} BatchesPass(job: Job, m: Bytes, j: nat, n: nat, width: nat, at: int)
    requires !job.counter && width > 0 && PassBy(job, j, n, at)
    ensures Read(Batches(job, m, j, n, width), at) == Read(m, at)
    decreases n - j
  {
    if n >= j + width {
      hide Read, Stored;
      forall t: nat | t < width ensures ApartFrom(job, j, t, at) {
        assert ApartFrom(job, 0, j + t, at);
      }
      ReadPastStored(job, m, j, m, width, at);
      BatchesPass(job, Batch(job, m, j, width), j + width, n, width, at);
    }
  }

  lemma OnesPass(job: Job, m: Bytes, j: nat, n: nat, at: int)
    requires !job.counter && PassBy(job, j, n, at)
    ensures Read(Ones(job, m, j, n), at) == Read(m, at)
  {
    if j <= n {
      StepsPass(job, m, j, n - j, at);
    }
  }

  /** Where block `k` of the first batch goes, later blocks do not. */
  lemma LaterPassBy(job: Job, size: nat, n: nat, k: nat, j: nat)
    requires Plain(job, size, 0, n) && k < j
    ensures PassBy(job, j, n, Out(job, k))
  {
    var at := Out(job, k);
    forall t: nat | j <= t < n ensures ApartFrom(job, 0, t, at) {
      assert OutApart(job, 0, k, t);
    }
  }

  lemma PlainPart(job: Job, size: nat, width: nat, n: nat)
    requires Plain(job, size, 0, n) && width <= n
    ensures Plain(job, size, 0, width)
  {
  }

  /** What a whole call leaves where block `k` of its first batch goes, is what the batch leaves. */
  lemma FirstBatchStays(job: Job, m: Bytes, n: nat, width: nat, k: nat)
    requires Plain(job, |m|, 0, n) && 0 < k < width <= n
    ensures Read(Batches(job, m, 0, n, width), Out(job, k)) == Result(job, m, 0, m, k)
  {
    hide Read, Batch;
    PlainPart(job, |m|, width, n);
    BatchLeaves(job, m, 0, width, k);
    LaterPassBy(job, |m|, n, k, width);
    BatchesPass(job, Batch(job, m, 0, width), width, n, width, Out(job, k));
  }

  /** The first unclear block is not the first of its batch. */
  lemma NotTheFirst(job: Job, j: nat)
    requires !job.counter
    ensures Clear(job, j, 1)
  {
  }

  lemma SixDiffers(job: Job, size: nat, n: nat, width: nat, k: nat)
    requires Plain(job, size, 0, n) && job.kernel == Turned && k < width <= n
    requires width == if n >= 6 then 6 else 2
    requires Clear(job, 0, k) && !Clear(job, 0, k + 1)
    ensures SixTwoOne(job, Zeros(size), n) != Steps(job, Zeros(size), 0, n)
  {
    hide Steps, Stored, Clear, Read, Address, Batches, Ones, Plain, ClearPair;
    var m, at, a := Zeros(size), Out(job, k), After(0, n, 6);
    PlainIs(job, size, n);
    NotTheFirst(job, 0);
    TurnedDiffer(job, size, 0, n, k);
    LoopLeaves(job, m, 0, n, k);
    FirstBatchStays(job, m, n, width, k);
    var m6 := Batches(job, m, 0, n, 6);
    if n >= 6 {
      AfterFirst(n, 6);
      LaterPassBy(job, size, n, k, a);
      BatchesPass(job, m6, a, n, 2, at);
      LaterPassBy(job, size, n, k, After(a, n, 2));
    } else {
      NoBatch(job, m, n, 6);
      AfterFirst(n, 2);
      LaterPassBy(job, size, n, k, After(a, n, 2));
    }
    OnesPass(job, Batches(job, m6, a, n, 2), After(a, n, 2), n, at);
  }

  lemma FourDiffers(job: Job, size: nat, n: nat, k: nat)
    requires Plain(job, size, 0, n) && job.kernel == Turned && k < 4 <= n
    requires Clear(job, 0, k) && !Clear(job, 0, k + 1)
    ensures FourOne(job, Zeros(size), n) != Steps(job, Zeros(size), 0, n)
  {
    hide Steps, Stored, Clear, Read, Address, Batches, Ones, Plain, ClearPair;
    var m, at, a := Zeros(size), Out(job, k), After(0, n, 4);
    PlainIs(job, size, n);
    NotTheFirst(job, 0);
    TurnedDiffer(job, size, 0, n, k);
    LoopLeaves(job, m, 0, n, k);
    FirstBatchStays(job, m, n, 4, k);
    AfterFirst(n, 4);
    LaterPassBy(job, size, n, k, a);
    OnesPass(job, Batches(job, m, 0, n, 4), a, n, at);
  }

  lemma AfterFirst(n: nat, width: nat)
    requires 0 < width <= n
    ensures After(0, n, width) >= width
  {
  }

  lemma NoBatch(job: Job, m: Bytes, n: nat, width: nat)
    requires n < width
    ensures Batches(job, m, 0, n, width) == m && After(0, n, width) == 0
  {
  }

  lemma {:induction false} AddressShift(start: int, step: int, j: nat, i: nat)
    ensures Address(start, step, j + i) - Address(start, step, i) == Address(0, step, j)
  {
    if j > 0 {
      AddressShift(start, step, j - 1, i);
    }
  }

  /** Runs that keep their distance: when the first blocks are clear, so are as many anywhere. */
  lemma ClearAnywhere(job: Job, j: nat, width: nat, narrow: nat)
    requires !job.counter && !UsesXor(job) && job.inStep == job.outStep
    requires Clear(job, 0, width) && narrow <= width
    ensures Clear(job, j, narrow)
  {
    forall i: nat, k: nat | i < k < narrow ensures ClearPair(job, j, i, k) {
      assert ClearPair(job, 0, i, k);
      AddressShift(job.out0, job.outStep, j, i);
      AddressShift(job.in0, job.inStep, j, k);
    }
  }

  lemma {:induction false} AllClearAnywhere(job: Job, j: nat, n: nat, width: nat, narrow: nat)
    requires !job.counter && !UsesXor(job) && job.inStep == job.outStep
    requires Clear(job, 0, width) && 0 < narrow <= width
    ensures AllClear(job, j, n, narrow)
    decreases n - j
  {
    if n >= j + narrow {
      hide Clear;
      ClearAnywhere(job, j, width, narrow);
      AllClearAnywhere(job, j + narrow, n, width, narrow);
    }
  }

  ghost predicate SixClear(job: Job, n: nat) {
    AllClear(job, 0, n, 6) && AllClear(job, After(0, n, 6), n, 2)
  }

  ghost predicate SixAlike(job: Job, m: Bytes, n: nat) {
    SixTwoOne(job, m, n) == Steps(job, m, 0, n)
  }

  ghost predicate FourAlike(job: Job, m: Bytes, n: nat) {
    FourOne(job, m, n) == Steps(job, m, 0, n)
  }

  lemma {:induction false} SameAllClear(job: Job, kernel: Block -> Block, j: nat, n: nat, width: nat)
    requires width > 0 && AllClear(job, j, n, width)
    ensures AllClear(job.(kernel := kernel), j, n, width)
    decreases n - j
  {
    if n >= j + width {
      SameClear(job, kernel, j, width);
      SameAllClear(job, kernel, j + width, n, width);
    }
  }

  /** When some batch of the call is not clear, neither is its first. */
  lemma FirstBatchUnclear(job: Job, n: nat)
    requires !job.counter && !UsesXor(job) && job.inStep == job.outStep && !SixClear(job, n)
    ensures n >= 2 && !Clear(job, 0, if n >= 6 then 6 else 2)
  {
    hide Clear;
    if n >= 6 {
      if Clear(job, 0, 6) {
        AllClearAnywhere(job, 0, n, 6, 6);
        AllClearAnywhere(job, After(0, n, 6), n, 6, 2);
      }
    } else if Clear(job, 0, 2) {
      AllClearAnywhere(job, 0, n, 2, 2);
    }
  }

  /** For a plain call, whatever its length: batches of six and two, and single blocks, do what the one-block
      loop does, for every kernel and every memory, if and only if every batch is clear. */
  lemma SixTwoOneExactly(job: Job, size: nat, n: nat)
    requires Plain(job, size, 0, n) && job.inStep == job.outStep
    ensures (forall kernel: Block -> Block, m: Bytes :: |m| == size ==> SixAlike(job.(kernel := kernel), m, n))
       <==> SixClear(job, n)
  {
    hide Clear, Plain;
    PlainIs(job, size, n);
    if SixClear(job, n) {
      forall kernel: Block -> Block, m: Bytes | |m| == size ensures SixAlike(job.(kernel := kernel), m, n) {
        SameAllClear(job, kernel, 0, n, 6);
        SameAllClear(job, kernel, After(0, n, 6), n, 2);
        SixTwoOneIsSteps(job.(kernel := kernel), m, n);
      }
    } else {
      FirstBatchUnclear(job, n);
      var k := TurnedUnclear(job, size, n, if n >= 6 then 6 else 2);
      SixDiffers(job.(kernel := Turned), size, n, if n >= 6 then 6 else 2, k);
      assert !SixAlike(job.(kernel := Turned), Zeros(size), n);
    }
  }

  lemma PlainIs(job: Job, size: nat, n: nat)
    requires Plain(job, size, 0, n)
    ensures !job.counter && !UsesXor(job)
  {
  }

  /** The first unclear block, and the kernel that shows it. */
  lemma TurnedUnclear(job: Job, size: nat, n: nat, width: nat) returns (k: nat)
    requires Plain(job, size, 0, n) && !Clear(job, 0, width)
    ensures k < width && Plain(job.(kernel := Turned), size, 0, n)
    ensures Clear(job.(kernel := Turned), 0, k) && !Clear(job.(kernel := Turned), 0, k + 1)
  {
    hide Clear;
    var with := job.(kernel := Turned);
    SamePlain(job, Turned, size, 0, n);
    k := FirstUnclear(job, 0, width);
    SameClear(job, Turned, 0, k);
    if Clear(with, 0, k + 1) {
      SameClear(with, job.kernel, 0, k + 1);
    }
  }

  /** The same for batches of four. */
  lemma FourOneExactly(job: Job, size: nat, n: nat)
    requires Plain(job, size, 0, n) && job.inStep == job.outStep
    ensures (forall kernel: Block -> Block, m: Bytes :: |m| == size ==> FourAlike(job.(kernel := kernel), m, n))
       <==> AllClear(job, 0, n, 4)
  {
    hide Clear, Plain;
    PlainIs(job, size, n);
    if AllClear(job, 0, n, 4) {
      forall kernel: Block -> Block, m: Bytes | |m| == size ensures FourAlike(job.(kernel := kernel), m, n) {
        SameAllClear(job, kernel, 0, n, 4);
        FourOneIsSteps(job.(kernel := kernel), m, n);
      }
    } else {
      if Clear(job, 0, 4) {
        AllClearAnywhere(job, 0, n, 4, 4);
      }
      var k := TurnedUnclear(job, size, n, 4);
      FourDiffers(job.(kernel := Turned), size, n, k);
      assert !FourAlike(job.(kernel := Turned), Zeros(size), n);
    }
  }

  lemma XorNothing(b: Block)
    ensures Xor(b, b) == ZERO_BLOCK
  {
  }

  /** With blocks to combine with the condition is not needed: where each input is combined with itself the
      kernel is always given zeros, however outputs and inputs overlap. */
  lemma {:induction false} SelfCombined(job: Job, m: Bytes, j: nat, width: nat)
    requires job.xorInput && !job.counter && job.xor0 == job.in0 && job.xorStep == job.inStep
    ensures Alike(job, m, j, width)
  {
    if width == 0 {
      EmptyBatch(job, m, j);
    } else {
      var i: nat := width - 1;
      SelfCombined(job, m, j, i);
      XorNothing(Read(m, In(job, j + i)));
      XorNothing(Read(Steps(job, m, j, i), In(job, j + i)));
      NextStep(job, m, j, i);
      NextStored(job, m, j, m, i);
    }
  }

  /** A call of two blocks, enciphered one place further on, forwards. */
  const ONE_FURTHER: Job := JobOf(Turned, 0, 0, false, 16, 32, Flags(false, false, false, false, true))

  /** It differs from the one-block loop. */
  lemma OverlapDiffers()
    ensures InBounds(ONE_FURTHER, 48, 2)
    ensures SixTwoOne(ONE_FURTHER, Zeros(48), 2) != Steps(ONE_FURTHER, Zeros(48), 0, 2)
  {
    var job := ONE_FURTHER;
    forall k: nat | k < 2 ensures BlockInBounds(job, 48, k) && InMemoryAt(job, 48, 0, k) {
      AddressUp(0, k);
      AddressUp(16, k);
    }
    AddressUp(0, 1);
    AddressUp(16, 1);
    assert !ClearPair(job, 0, 0, 1);
    SixDiffers(job, 48, 2, 2, 1);
  }

  // ---- The loops -------------------------------------------------------------------------

  /** A call's flags. */
  datatype Flags = Flags(inBlockIsCounter: bool, dontIncrementInOutPointers: bool, xorInput: bool,
                         reverseDirection: bool, allowParallel: bool)

  /** The increments and modes the flags stand for; backwards, all three runs start at their end. */
  function JobOf(kernel: Block -> Block, inBlocks: int, xorBlocks: int, hasXor: bool, outBlocks: int,
                 length: nat, flags: Flags): Job
  {
    var inStep := if flags.inBlockIsCounter || flags.dontIncrementInOutPointers then 0 else 16;
    var xorStep := if hasXor then 16 else 0;
    var outStep := if flags.dontIncrementInOutPointers then 0 else 16;
    var xorInput, xorOutput := hasXor && flags.xorInput, hasXor && !flags.xorInput;
    if flags.reverseDirection then
      Job(kernel, inBlocks + length - 16, xorBlocks + length - 16, outBlocks + length - 16,
          0 - inStep, 0 - xorStep, 0 - outStep, flags.inBlockIsCounter, xorInput, xorOutput)
    else
      Job(kernel, inBlocks, xorBlocks, outBlocks,
          inStep, xorStep, outStep, flags.inBlockIsCounter, xorInput, xorOutput)
  }

  ghost predicate InBounds(job: Job, size: nat, n: nat) {
    forall k: nat :: k < n ==> BlockInBounds(job, size, k)
  }

  ghost predicate BlockInBounds(job: Job, size: nat, k: nat) {
    && 0 <= In(job, k) <= size - 16 && 0 <= Out(job, k) <= size - 16
    && (UsesXor(job) ==> 0 <= XorAt(job, k) <= size - 16)
  }

  /** The three running addresses, and how many blocks are behind them. */
  datatype Cursor = Cursor(inAt: int, xorAt: int, outAt: int)

  function CursorAt(job: Job, j: nat): Cursor {
    Cursor(In(job, j), XorAt(job, j), Out(job, j))
  }

  method Load(mem: array<bv8>, at: int) returns (b: Block)
    requires 0 <= at <= mem.Length - 16
    ensures b == Read(mem[..], at)
  {
    b := mem[at..at + 16];
  }

  method Store(mem: array<bv8>, at: int, b: Block)
    requires 0 <= at <= mem.Length - 16
    modifies mem
    ensures mem[..] == Write(old(mem[..]), at, b)
  {
    forall i | 0 <= i < 16 {
      mem[at + i] := b[i];
    }
  }

  /** One turn of the last loop. */
  method ProcessOne(job: Job, mem: array<bv8>, cursor: Cursor, ghost j: nat) returns (next: Cursor)
    requires cursor == CursorAt(job, j) && BlockInBounds(job, mem.Length, j)
    modifies mem
    ensures mem[..] == Step(job, old(mem[..]), j) && next == CursorAt(job, j + 1)
  {
    var block := Load(mem, cursor.inAt);
    if job.xorInput {
      var x := Load(mem, cursor.xorAt);
      block := Xor(block, x);
    }
    if job.counter {
      var c := Load(mem, cursor.inAt);
      Store(mem, cursor.inAt, Count(c));
    }
    block := job.kernel(block);
    if !job.xorInput && job.xorOutput {
      var x := Load(mem, cursor.xorAt);
      block := Xor(block, x);
    }
    Store(mem, cursor.outAt, block);
    next := Cursor(cursor.inAt + job.inStep, cursor.xorAt + job.xorStep, cursor.outAt + job.outStep);
  }

  /** A lane of four bytes, read least significant byte first. */
  function Lane(b0: bv8, b1: bv8, b2: bv8, b3: bv8): bv32 {
    (b0 as bv32) | (b1 as bv32 << 8) | (b2 as bv32 << 16) | (b3 as bv32 << 24)
  }

  function Lane0(lane: bv32): bv8 {
    (lane & 0xff) as bv8
  }

  function Lane1(lane: bv32): bv8 {
    ((lane >> 8) & 0xff) as bv8
  }

  function Lane2(lane: bv32): bv8 {
    ((lane >> 16) & 0xff) as bv8
  }

  function Lane3(lane: bv32): bv8 {
    (lane >> 24) as bv8
  }

  /** Adding the vector whose last lane is `1 << 24` and whose other lanes are zero. */
  function AddOne(b: Block): Block {
    var lane := AddToLane(b[12], b[13], b[14], b[15]);
    b[..12] + [Lane0(lane), Lane1(lane), Lane2(lane), Lane3(lane)]
  }

  function AddToLane(b0: bv8, b1: bv8, b2: bv8, b3: bv8): bv32 {
    Lane(b0, b1, b2, b3) + 0x0100_0000
  }

  lemma LaneAdded0(b0: bv8, b1: bv8, b2: bv8, b3: bv8)
    ensures Lane0(AddToLane(b0, b1, b2, b3)) == b0
  {
  }

  lemma LaneAdded1(b0: bv8, b1: bv8, b2: bv8, b3: bv8)
    ensures Lane1(AddToLane(b0, b1, b2, b3)) == b1
  {
  }

  lemma LaneAdded2(b0: bv8, b1: bv8, b2: bv8, b3: bv8)
    ensures Lane2(AddToLane(b0, b1, b2, b3)) == b2
  {
  }

  lemma LaneAdded3(b0: bv8, b1: bv8, b2: bv8, b3: bv8)
    ensures Lane3(AddToLane(b0, b1, b2, b3)) == b3 + 1
  {
  }

  /** Only the last byte changes, and it wraps. */
  lemma AddOneCounts(b: Block)
    ensures AddOne(b) == Count(b)
  {
    LaneAdded0(b[12], b[13], b[14], b[15]);
    LaneAdded1(b[12], b[13], b[14], b[15]);
    LaneAdded2(b[12], b[13], b[14], b[15]);
    LaneAdded3(b[12], b[13], b[14], b[15]);
    assert b == b[..12] + [b[12], b[13], b[14], b[15]];
  }

  /** Reads the inputs of a batch; a counter block is counted on in a register and stored once. */
  method LoadBatch(job: Job, mem: array<bv8>, at: int, width: nat, ghost j: nat)
    returns (blocks: seq<Block>, next: int)
    requires at == In(job, j) && width > 0 && (job.counter ==> job.inStep == 0)
    requires forall i: nat :: i < width ==> BatchInBounds(job, mem.Length, j, i)
    modifies mem
    ensures mem[..] == Counted(job, old(mem[..]), j, width)
    ensures |blocks| == width && forall i: nat :: i < width ==> blocks[i] == Loaded(job, old(mem[..]), j, i)
    ensures next == In(job, j + width)
  {
    ghost var m := mem[..];
    assert BatchInBounds(job, mem.Length, j, 0);
    if job.counter {
      var block := Load(mem, at);
      blocks := [block];
      while |blocks| < width
        invariant 0 < |blocks| <= width && mem[..] == m
        invariant forall i: nat :: i < |blocks| ==> blocks[i] == Loaded(job, m, j, i)
        invariant block == blocks[|blocks| - 1]
      {
        AddOneCounts(block);
        block := AddOne(block);
        blocks := blocks + [block];
      }
      AddOneCounts(block);
      Store(mem, at, AddOne(block));
      next := at;
      StillAddress(job, j, width);
    } else {
      blocks, next := [], at;
      while |blocks| < width
        invariant |blocks| <= width && mem[..] == m && next == In(job, j + |blocks|)
        invariant forall i: nat :: i < |blocks| ==> blocks[i] == Loaded(job, m, j, i)
      {
        assert BatchInBounds(job, mem.Length, j, |blocks|);
        var block := Load(mem, next);
        blocks := blocks + [block];
        next := next + job.inStep;
      }
    }
  }

  ghost predicate BatchInBounds(job: Job, size: nat, j: nat, i: nat) {
    BlockInBounds(job, size, j + i)
  }

  lemma StillAddress(job: Job, j: nat, width: nat)
    requires job.inStep == 0
    ensures In(job, j + width) == In(job, j)
  {
    SameAddress(job.in0, j);
    SameAddress(job.in0, j + width);
  }

  /** Combines and enciphers the blocks of a batch. */
  method ProcessBatch(job: Job, mem: array<bv8>, at: int, blocks: seq<Block>, ghost j: nat)
    returns (results: seq<Block>, next: int)
    requires at == XorAt(job, j)
    requires forall i: nat :: i < |blocks| ==> BatchInBounds(job, mem.Length, j, i)
    ensures |results| == |blocks| && next == XorAt(job, j + |blocks|)
    ensures forall i: nat :: i < |blocks| ==> ResultAt(job, mem[..], j, i, blocks[i], results[i])
  {
    results, next := [], at;
    while |results| < |blocks|
      invariant |results| <= |blocks| && next == XorAt(job, j + |results|)
      invariant forall i: nat :: i < |results| ==> ResultAt(job, mem[..], j, i, blocks[i], results[i])
    {
      ghost var i := |results|;
      assert BatchInBounds(job, mem.Length, j, i);
      var block := blocks[|results|];
      if job.xorInput {
        var x := Load(mem, next);
        block := Xor(block, x);
      }
      block := job.kernel(block);
      if !job.xorInput && job.xorOutput {
        var x := Load(mem, next);
        block := Xor(block, x);
      }
      results := results + [block];
      next := next + job.xorStep;
    }
  }

  ghost predicate ResultAt(job: Job, m1: Bytes, j: nat, i: nat, b: Block, r: Block) {
    r == Processed(job, b, Read(m1, XorAt(job, j + i)))
  }

  method StoreResult(job: Job, mem: array<bv8>, at: int, result: Block, ghost m: Bytes, ghost j: nat,
                     ghost m1: Bytes, ghost i: nat)
    returns (next: int)
    requires at == Out(job, j + i) && BatchInBounds(job, mem.Length, j, i)
    requires result == Result(job, m, j, m1, i) && mem[..] == Stored(job, m, j, m1, i)
    modifies mem
    ensures mem[..] == Stored(job, m, j, m1, i + 1) && next == Out(job, j + (i + 1))
  {
    NextStored(job, m, j, m1, i);
    Store(mem, at, result);
    next := at + job.outStep;
  }

  /** Stores the results of a batch. */
  method StoreBatch(job: Job, mem: array<bv8>, at: int, results: seq<Block>, ghost m: Bytes, ghost j: nat,
                    ghost m1: Bytes)
    returns (next: int)
    requires at == Out(job, j) && mem[..] == m1
    requires forall i: nat :: i < |results| ==> BatchInBounds(job, mem.Length, j, i)
    requires forall i: nat :: i < |results| ==> results[i] == Result(job, m, j, m1, i)
    modifies mem
    ensures mem[..] == Stored(job, m, j, m1, |results|)
    ensures next == Out(job, j + |results|)
  {
    hide Write, Result, BlockInBounds;
    next := at;
    var i: nat := 0;
    while i < |results|
      invariant i <= |results|
      invariant next == Out(job, j + i)
      invariant mem[..] == Stored(job, m, j, m1, i)
    {
      assert BatchInBounds(job, mem.Length, j, i);
      next := StoreResult(job, mem, next, results[i], m, j, m1, i);
      i := i + 1;
    }
  }

  /** A turn of a batched loop. */
  method ProcessMany(job: Job, mem: array<bv8>, cursor: Cursor, width: nat, ghost j: nat) returns (next: Cursor)
    requires cursor == CursorAt(job, j) && width > 0 && (job.counter ==> job.inStep == 0)
    requires forall i: nat :: i < width ==> BatchInBounds(job, mem.Length, j, i)
    modifies mem
    ensures mem[..] == Batch(job, old(mem[..]), j, width) && next == CursorAt(job, j + width)
  {
    ghost var m := mem[..];
    var blocks, inNext := LoadBatch(job, mem, cursor.inAt, width, j);
    ghost var m1 := mem[..];
    var results, xorNext := ProcessBatch(job, mem, cursor.xorAt, blocks, j);
    forall i: nat | i < width ensures results[i] == Result(job, m, j, m1, i) {
      assert ResultAt(job, m1, j, i, blocks[i], results[i]);
    }
    var outNext := StoreBatch(job, mem, cursor.outAt, results, m, j, m1);
    next := Cursor(inNext, xorNext, outNext);
  }

  /** What holds between turns: `j` blocks are behind, the rest of `total` bytes is left. */
  ghost predicate Behind(job: Job, size: nat, cursor: Cursor, total: nat, left: nat, j: nat) {
    InBounds(job, size, total / 16) && cursor == CursorAt(job, j) && left + 16 * j == total
  }

  /** Whole batches of `width` blocks while the flag allows them. */
  method ProcessBatches(job: Job, mem: array<bv8>, cursor: Cursor, length: nat, width: nat,
                        ghost total: nat, ghost j: nat)
    returns (next: Cursor, left: nat, ghost k: nat)
    requires Behind(job, mem.Length, cursor, total, length, j)
    requires (job.counter ==> job.inStep == 0) && width > 0
    modifies mem
    ensures Behind(job, mem.Length, next, total, left, k) && k == After(j, total / 16, width)
    ensures mem[..] == Batches(job, old(mem[..]), j, total / 16, width)
  {
    next, left, k := cursor, length, j;
    while left >= 16 * width
      invariant Behind(job, mem.Length, next, total, left, k)
      invariant After(k, total / 16, width) == After(j, total / 16, width)
      invariant Batches(job, mem[..], k, total / 16, width) == Batches(job, old(mem[..]), j, total / 16, width)
    {
      BatchFits(job, mem.Length, total, left, k, width);
      next := ProcessMany(job, mem, next, width, k);
      left, k := left - 16 * width, k + width;
    }
  }

  lemma BatchFits(job: Job, size: nat, total: nat, left: nat, j: nat, width: nat)
    requires InBounds(job, size, total / 16) && left + 16 * j == total && left >= 16 * width
    ensures j + width <= total / 16
    ensures forall i: nat :: i < width ==> BatchInBounds(job, size, j, i)
  {
    forall i: nat | i < width ensures BatchInBounds(job, size, j, i) {
      assert BlockInBounds(job, size, j + i);
    }
  }

  /** The last loop, alone when batches are not allowed. */
  method ProcessSingles(job: Job, mem: array<bv8>, cursor: Cursor, length: nat, ghost total: nat, ghost j: nat)
    returns (left: nat)
    requires Behind(job, mem.Length, cursor, total, length, j)
    modifies mem
    ensures left == total % 16
    ensures mem[..] == Ones(job, old(mem[..]), j, total / 16)
  {
    var next := cursor;
    left := length;
    hide Step, BlockInBounds;
    ghost var start, n: nat := mem[..], 0;
    while left >= 16
      invariant Behind(job, mem.Length, next, total, left, j + n)
      invariant mem[..] == Steps(job, start, j, n)
    {
      assert BlockInBounds(job, mem.Length, j + n);
      NextStep(job, start, j, n);
      next := ProcessOne(job, mem, next, j + n);
      left, n := left - 16, n + 1;
    }
    assert j + n == total / 16;
  }

  // ---- Calls that share memory -----------------------------------------------------------

  lemma {:induction false} AddressUp(start: int, j: nat)
    ensures Address(start, 16, j) == start + 16 * j
  {
    if j > 0 {
      AddressUp(start, j - 1);
    }
  }

  lemma {:induction false} AddressDown(start: int, j: nat)
    ensures Address(start, -16, j) == start - 16 * j
  {
    if j > 0 {
      AddressDown(start, j - 1);
    }
  }

  /** Chained decryption in place, from the end: each block is combined with the one before it. */
  lemma ReverseInPlace(kernel: Block -> Block, buffer: int, length: nat, parallel: bool, n: nat)
    ensures Undisturbed(JobOf(kernel, buffer + 16, buffer, true, buffer + 16, length,
                              Flags(false, false, false, true, parallel)), n)
  {
    var job := JobOf(kernel, buffer + 16, buffer, true, buffer + 16, length,
                     Flags(false, false, false, true, parallel));
    forall i: nat, k: nat | i < k < n ensures ReadableAfter(job, i, k) {
      AddressDown(job.in0, k);
      AddressDown(job.xor0, k);
      AddressDown(job.out0, i);
    }
  }

  /** Forwards in place, alone or combined with blocks that the output does not reach. */
  lemma ForwardInPlace(kernel: Block -> Block, buffer: int, xorBlocks: int, hasXor: bool, length: nat,
                       xorInput: bool, parallel: bool, n: nat)
    requires hasXor ==> xorBlocks + 16 * n <= buffer || buffer + 16 * n <= xorBlocks || xorBlocks == buffer
    ensures Undisturbed(JobOf(kernel, buffer, xorBlocks, hasXor, buffer, length,
                              Flags(false, false, xorInput, false, parallel)), n)
  {
    var job := JobOf(kernel, buffer, xorBlocks, hasXor, buffer, length, Flags(false, false, xorInput, false, parallel));
    forall i: nat, k: nat | i < k < n ensures ReadableAfter(job, i, k) {
      AddressUp(job.in0, k);
      AddressUp(job.xor0, k);
      AddressUp(job.out0, i);
    }
  }

  /** Counter mode in place: the counter block lies outside the text. */
  lemma CounterInPlace(kernel: Block -> Block, counter: int, text: int, length: nat, parallel: bool, n: nat)
    requires counter + 16 <= text || text + 16 * n <= counter
    ensures Undisturbed(JobOf(kernel, counter, text, true, text, length, Flags(true, false, false, false, parallel)), n)
  {
    var job := JobOf(kernel, counter, text, true, text, length, Flags(true, false, false, false, parallel));
    forall i: nat, k: nat | i < k < n ensures ReadableAfter(job, i, k) {
      SameAddress(job.in0, k);
      AddressUp(job.xor0, k);
      AddressUp(job.out0, i);
    }
    forall k: nat | k < n ensures CounterApart(job, k) {
      AddressUp(job.xor0, k);
    }
  }

  /** `n` blocks from one address, and `n` blocks from another, do not meet. */
  predicate Away(a: int, b: int, n: nat) {
    a + 16 * n <= b || b + 16 * n <= a
  }

  predicate Within(at: int, start: int, n: nat) {
    start <= at <= start + 16 * n - 16
  }

  /** A run that starts at either end, or stands still, stays in its buffer. */
  lemma StaysWithin(start: int, n: nat, first: int, step: int, k: nat)
    requires k < n && ((step == 16 && first == start) || (step == -16 && first == start + 16 * n - 16)
                       || (step == 0 && (first == start || first == start + 16 * n - 16)))
    ensures Within(Address(first, step, k), start, n)
  {
    AddressUp(first, k);
    AddressDown(first, k);
    SameAddress(first, k);
  }

  /** Buffers that do not meet, in every mode: nothing is disturbed. */
  lemma Disjoint(kernel: Block -> Block, inBlocks: int, xorBlocks: int, hasXor: bool, outBlocks: int, n: nat,
                 flags: Flags)
    requires Away(outBlocks, inBlocks, n) && (hasXor ==> Away(outBlocks, xorBlocks, n) && Away(inBlocks, xorBlocks, n))
    ensures Undisturbed(JobOf(kernel, inBlocks, xorBlocks, hasXor, outBlocks, 16 * n, flags), n)
  {
    var job := JobOf(kernel, inBlocks, xorBlocks, hasXor, outBlocks, 16 * n, flags);
    forall k: nat | k < n
      ensures Within(In(job, k), inBlocks, n) && Within(Out(job, k), outBlocks, n)
      ensures Within(XorAt(job, k), xorBlocks, n)
    {
      StaysWithin(inBlocks, n, job.in0, job.inStep, k);
      StaysWithin(outBlocks, n, job.out0, job.outStep, k);
      StaysWithin(xorBlocks, n, job.xor0, job.xorStep, k);
    }
    forall i: nat, k: nat | i < k < n ensures ReadableAfter(job, i, k) {
      assert Within(Out(job, i), outBlocks, n) && Within(In(job, k), inBlocks, n);
    }
    forall k: nat | k < n && job.counter ensures CounterApart(job, k) {
      assert Within(In(job, 0), inBlocks, n);
    }
  }
}
