/** What a call of the batched loops leaves in memory, block by block and without the loops: for every
    mode whose buffers do not disturb each other, and for chaining in one place. */
module BlockCalls {
  import opened AdvancedBlocks
  import opened ByteStrings

  // ---- Calls -----------------------------------------------------------------------------

  /** A call: where its three runs of blocks lie in memory, its length and its flags. */
  datatype Call = Call(kernel: Block -> Block, inBlocks: int, xorBlocks: int, hasXor: bool, outBlocks: int,
                       length: nat, flags: Flags)
  {
    /** The whole blocks; a last part shorter than a block is left. */
    function Blocks(): nat {
      length / 16
    }

    /** Where the blocks of a run begin: backwards, the short part is in front of them. */
    function From(run: int): int {
      run + if flags.reverseDirection then length % 16 else 0
    }

    /** The one block of a run that stands still. */
    function Only(run: int): int {
      run + if flags.reverseDirection then length - 16 else 0
    }

    predicate InStill() {
      flags.inBlockIsCounter || flags.dontIncrementInOutPointers
    }

    predicate RunFits(run: int, size: nat) {
      0 <= From(run) && From(run) + 16 * Blocks() <= size
    }

    predicate OnlyFits(run: int, size: nat) {
      0 <= Only(run) && Only(run) + 16 <= size
    }

    /** All that is touched lies in memory. */
    predicate Fits(size: nat) {
      && length >= 16
      && (if InStill() then OnlyFits(inBlocks, size) else RunFits(inBlocks, size))
      && (if flags.dontIncrementInOutPointers then OnlyFits(outBlocks, size) else RunFits(outBlocks, size))
      && (hasXor ==> RunFits(xorBlocks, size))
    }

    /** No output lies on a block that is read later: the output does not meet the run, or lies on it, or
        stays behind it in the direction of the call. */
    predicate Trails(run: int) {
      || outBlocks + 16 * Blocks() <= run || run + 16 * Blocks() <= outBlocks
      || (if flags.reverseDirection then run <= outBlocks else outBlocks <= run)
    }

    /** A block that stands still does not meet a run. */
    predicate Off(at: int, run: int) {
      at + 16 <= From(run) || From(run) + 16 * Blocks() <= at
    }

    predicate Untangled() {
      && !flags.dontIncrementInOutPointers
      && (hasXor ==> Trails(xorBlocks))
      && if flags.inBlockIsCounter then Off(Only(inBlocks), outBlocks) && (hasXor ==> Off(Only(inBlocks), xorBlocks))
         else Trails(inBlocks)
    }

    /** How many blocks are processed before block `k` of a run. */
    function Turn(k: nat): nat
      requires k < Blocks()
    {
      if flags.reverseDirection then Blocks() - 1 - k else k
    }

    /** What goes into block `k`: the block of the input, or the counter with its last byte moved on. */
    function Input(m: Bytes, k: nat): Block
      requires Fits(|m|) && !flags.dontIncrementInOutPointers && k < Blocks()
    {
      if flags.inBlockIsCounter then
        m[Only(inBlocks)..Only(inBlocks) + 15] + [((m[Only(inBlocks) + 15] as nat + Turn(k)) % 256) as bv8]
      else m[From(inBlocks) + 16 * k..From(inBlocks) + 16 * k + 16]
    }

    function Other(m: Bytes, k: nat): Block
      requires Fits(|m|) && hasXor && k < Blocks()
    {
      m[From(xorBlocks) + 16 * k..From(xorBlocks) + 16 * k + 16]
    }

    /** Block `k` of the output. */
    predicate BlockIs(m: Bytes, r: Bytes, k: nat)
      requires Fits(|m|) && |r| == |m| && !flags.dontIncrementInOutPointers && k < Blocks()
    {
      r[From(outBlocks) + 16 * k..From(outBlocks) + 16 * k + 16]
      == if !hasXor then kernel(Input(m, k))
         else if flags.xorInput then kernel(Xor(Input(m, k), Other(m, k)))
         else Xor(kernel(Input(m, k)), Other(m, k))
    }

    /** The bytes that a call leaves alone: all but the output and the last byte of the counter. */
    predicate LeftAlone(p: nat) {
      && !(From(outBlocks) <= p < From(outBlocks) + 16 * Blocks())
      && !(flags.inBlockIsCounter && p == Only(inBlocks) + 15)
    }

    /** From memory `m` to memory `r`. */
    ghost predicate Does(m: Bytes, r: Bytes)
      requires Fits(|m|) && !flags.dontIncrementInOutPointers
    {
      && |r| == |m|
      && (forall k: nat :: k < Blocks() ==> BlockIs(m, r, k))
      && (flags.inBlockIsCounter ==>
            r[Only(inBlocks) + 15] as nat == (m[Only(inBlocks) + 15] as nat + Blocks()) % 256)
      && forall p: nat :: p < |m| && LeftAlone(p) ==> r[p] == m[p]
    }

    /** Chaining: one block stands still, and is combined with the next block of the other run each time. */
    predicate Chained() {
      && flags == Flags(false, true, true, false, false) && hasXor && inBlocks == outBlocks
      && Off(inBlocks, xorBlocks)
    }

    ghost predicate Chains(m: Bytes, r: Bytes)
      requires Fits(|m|) && Chained()
    {
      && |r| == |m|
      && r[outBlocks..outBlocks + 16]
         == Chain(kernel, m[outBlocks..outBlocks + 16], m[xorBlocks..xorBlocks + 16 * Blocks()])
      && forall p: nat :: p < |m| && !(outBlocks <= p < outBlocks + 16) ==> r[p] == m[p]
    }

    function AsJob(): Job {
      JobOf(kernel, inBlocks, xorBlocks, hasXor, outBlocks, length, flags)
    }
  }

  // ---- Addresses -------------------------------------------------------------------------

  /** Where a run lies, turn by turn. */
  lemma RunAt(call: Call, run: int, step: int, t: nat)
    requires step == if call.flags.reverseDirection then -16 else 16
    requires t < call.Blocks()
    ensures Address(call.Only(run), step, t) == call.From(run) + 16 * call.Turn(t)
  {
    AddressUp(run, t);
    AddressDown(call.Only(run), t);
    assert call.length == 16 * call.Blocks() + call.length % 16;
  }

  lemma PlacesAre(call: Call, t: nat)
    requires t < call.Blocks()
    ensures var job := call.AsJob();
            && In(job, t) == (if call.InStill() then call.Only(call.inBlocks)
                              else call.From(call.inBlocks) + 16 * call.Turn(t))
            && Out(job, t) == (if call.flags.dontIncrementInOutPointers then call.Only(call.outBlocks)
                               else call.From(call.outBlocks) + 16 * call.Turn(t))
            && (call.hasXor ==> XorAt(job, t) == call.From(call.xorBlocks) + 16 * call.Turn(t))
  {
    var step := if call.flags.reverseDirection then -16 else 16;
    SameAddress(call.Only(call.inBlocks), t);
    SameAddress(call.Only(call.outBlocks), t);
    RunAt(call, call.inBlocks, step, t);
    RunAt(call, call.outBlocks, step, t);
    RunAt(call, call.xorBlocks, step, t);
  }

  lemma FitsIsInBounds(call: Call, size: nat)
    requires call.Fits(size)
    ensures InBounds(call.AsJob(), size, call.Blocks())
  {
    forall t: nat | t < call.Blocks() ensures BlockInBounds(call.AsJob(), size, t) {
      PlacesAre(call, t);
    }
  }

  /** No more is asked than each turn needs. */
  lemma InBoundsFits(call: Call, size: nat)
    requires call.length >= 16 && InBounds(call.AsJob(), size, call.Blocks())
    ensures call.Fits(size)
  {
    var last := call.Blocks() - 1;
    PlacesAre(call, 0);
    PlacesAre(call, last);
    assert BlockInBounds(call.AsJob(), size, 0) && BlockInBounds(call.AsJob(), size, last);
  }

  lemma UntangledIsUndisturbed(call: Call)
    requires call.Untangled() && call.length >= 16
    ensures Undisturbed(call.AsJob(), call.Blocks())
  {
    var job, n := call.AsJob(), call.Blocks();
    forall i: nat, k: nat | i < k < n ensures ReadableAfter(job, i, k) {
      PlacesAre(call, i);
      PlacesAre(call, k);
    }
    forall k: nat | k < n && job.counter ensures CounterApart(job, k) {
      PlacesAre(call, 0);
      PlacesAre(call, k);
    }
  }

  // ---- What the one-block loop leaves ----------------------------------------------------

  lemma Incremented(x: bv8)
    ensures (x + 1) as nat == (x as nat + 1) % 256
  {
  }

  lemma NextRemainder(a: nat)
    ensures (a % 256 + 1) % 256 == (a + 1) % 256
  {
  }

  lemma CountIs(b: Block)
    ensures Count(b)[..15] == b[..15] && Count(b)[15] == b[15] + 1
  {
  }

  lemma {:induction false} CountsIs(b: Block, n: nat)
    ensures Counts(b, n)[..15] == b[..15]
    ensures Counts(b, n)[15] as nat == (b[15] as nat + n) % 256
  {
    if n > 0 {
      CountsIs(b, n - 1);
      CountsOn(b, n, Counts(b, n - 1), b[15] as nat + (n - 1));
    } else {
      ByteBelow(b[15]);
    }
  }

  lemma ByteBelow(x: bv8)
    ensures x as nat == x as nat % 256
  {
  }

  lemma CountsOn(b: Block, n: nat, c: Block, last: nat)
    requires n > 0 && c == Counts(b, n - 1) && c[15] as nat == last % 256
    ensures Counts(b, n)[..15] == c[..15] && Counts(b, n)[15] as nat == (last + 1) % 256
  {
    hide Count;
    CountIs(c);
    Incremented(c[15]);
    NextRemainder(last);
  }

  /** A counter block that was counted on. */
  lemma CountedIs(m: Bytes, at: nat, n: nat)
    requires at + 16 <= |m|
    ensures Counts(Read(m, at), n) == m[at..at + 15] + [((m[at + 15] as nat + n) % 256) as bv8]
  {
    hide Counts;
    var b := Read(m, at);
    CountsIs(b, n);
    assert b[..15] == m[at..at + 15] && b[15] == m[at + 15];
    LastByte(Counts(b, n)[15], (m[at + 15] as nat + n) % 256);
    assert Counts(b, n) == Counts(b, n)[..15] + [Counts(b, n)[15]];
  }

  lemma LastByte(x: bv8, n: nat)
    requires x as nat == n
    ensures n < 256 && n as bv8 == x
  {
  }

  /** A result stays where it was stored. */
  lemma ResultStays(job: Job, m: Bytes, m1: Bytes, n: nat, k: nat)
    requires k < n && |m1| == |m| && InMemory(m, Out(job, k)) && OutsApart(job, 0, k, n, Out(job, k))
    ensures Read(Stored(job, m, 0, m1, n), Out(job, k)) == Result(job, m, 0, m1, k)
  {
    hide Result, Address;
    StoredKeeps(job, m, 0, m1, k, n, Out(job, k));
    NextStored(job, m, 0, m1, k);
    StoredLength(job, m, 0, m1, k);
    ReadWritten(Stored(job, m, 0, m1, k), Out(job, k), Result(job, m, 0, m1, k));
  }

  ghost predicate OutMisses(job: Job, t: nat, p: nat) {
    !(Out(job, t) <= p < Out(job, t) + 16)
  }

  lemma {:induction false} StoredElsewhere(job: Job, m: Bytes, m1: Bytes, n: nat, p: nat)
    requires p < |m1| && forall t: nat :: t < n ==> OutMisses(job, t, p)
    ensures |Stored(job, m, 0, m1, n)| == |m1| && Stored(job, m, 0, m1, n)[p] == m1[p]
  {
    hide Result, Address;
    if n > 0 {
      StoredElsewhere(job, m, m1, n - 1, p);
      assert OutMisses(job, n - 1, p);
      WrittenElsewhere(Stored(job, m, 0, m1, n - 1), Out(job, n - 1), Result(job, m, 0, m1, n - 1), p);
    }
  }

  lemma WrittenElsewhere(m: Bytes, at: int, b: Block, p: nat)
    requires p < |m| && !(at <= p < at + 16)
    ensures Write(m, at, b)[p] == m[p]
  {
    if InMemory(m, at) {
      WrittenAt(m, at, b, p);
    }
  }

  /** Memory with the counter moved on, before any output is stored. */
  lemma CounterMoved(call: Call, m: Bytes)
    requires call.Fits(|m|) && call.flags.inBlockIsCounter
    ensures var m1, at := Counted(call.AsJob(), m, 0, call.Blocks()), call.Only(call.inBlocks);
            && |m1| == |m| && m1[at + 15] as nat == (m[at + 15] as nat + call.Blocks()) % 256
            && forall p: nat :: p < |m| && p != at + 15 ==> m1[p] == m[p]
  {
    var at, n := call.Only(call.inBlocks), call.Blocks();
    var c := Counts(Read(m, at), n);
    CountsIs(Read(m, at), n);
    hide Counts;
    forall p: nat | p < |m| ensures Write(m, at, c)[p] == if at <= p < at + 16 then c[p - at] else m[p] {
      WrittenAt(m, at, c, p);
    }
    forall p: nat | at <= p < at + 15 ensures c[p - at] == m[p] {
      assert c[..15][p - at] == Read(m, at)[..15][p - at];
    }
  }

  /** The call as one batch of all its blocks. */
  function AllStored(call: Call, m: Bytes): Bytes {
    Stored(call.AsJob(), m, 0, Counted(call.AsJob(), m, 0, call.Blocks()), call.Blocks())
  }

  lemma StepsAreStored(call: Call, m: Bytes)
    requires call.Fits(|m|) && call.Untangled()
    ensures Steps(call.AsJob(), m, 0, call.Blocks()) == AllStored(call, m)
  {
    var job, n := call.AsJob(), call.Blocks();
    UntangledIsUndisturbed(call);
    forall i: nat, k: nat | i < k < n ensures ClearPair(job, 0, i, k) {
      assert ReadableAfter(job, i, k);
    }
    forall k: nat | k < n && job.counter ensures CounterApartFrom(job, 0, k) {
      assert CounterApart(job, k);
    }
    PlacesAre(call, 0);
    BatchIsSteps(job, m, 0, n);
  }

  lemma LaterOutsMiss(call: Call, t: nat)
    requires t < call.Blocks() && !call.flags.dontIncrementInOutPointers
    ensures OutsApart(call.AsJob(), 0, t, call.Blocks(), Out(call.AsJob(), t))
  {
    PlacesAre(call, t);
    forall u: nat | t < u < call.Blocks() ensures ApartFrom(call.AsJob(), 0, u, Out(call.AsJob(), t)) {
      PlacesAre(call, u);
    }
  }

  /** What is loaded for a turn. */
  lemma LoadedIs(call: Call, m: Bytes, t: nat)
    requires call.Fits(|m|) && call.Untangled() && t < call.Blocks()
    ensures call.Turn(t) < call.Blocks() && Loaded(call.AsJob(), m, 0, t) == call.Input(m, call.Turn(t))
  {
    hide Counts, Address, In, Call.Turn;
    PlacesAre(call, t);
    PlacesAre(call, 0);
    TurnTwice(call, t);
    if call.flags.inBlockIsCounter {
      CountedIs(m, call.Only(call.inBlocks), t);
    } else {
      PlainInput(call, m, t);
    }
  }

  lemma PlainInput(call: Call, m: Bytes, t: nat)
    requires call.Fits(|m|) && call.Untangled() && t < call.Blocks() && !call.flags.inBlockIsCounter
    ensures call.Turn(t) < call.Blocks() && Read(m, In(call.AsJob(), t)) == call.Input(m, call.Turn(t))
  {
    hide Address, In, Call.Turn;
    PlacesAre(call, t);
    TurnTwice(call, t);
  }

  /** What it is combined with. */
  lemma OtherIs(call: Call, m: Bytes, t: nat)
    requires call.Fits(|m|) && call.Untangled() && t < call.Blocks() && call.hasXor
    ensures Read(Counted(call.AsJob(), m, 0, call.Blocks()), XorAt(call.AsJob(), t)) == call.Other(m, call.Turn(t))
  {
    PlacesAre(call, t);
    PlacesAre(call, 0);
    var job := call.AsJob();
    if call.flags.inBlockIsCounter {
      ReadPastWrite(m, In(job, 0), Loaded(job, m, 0, call.Blocks()), XorAt(job, t));
    }
  }

  lemma BlockStored(call: Call, m: Bytes, t: nat)
    requires call.Fits(|m|) && call.Untangled() && t < call.Blocks() && |AllStored(call, m)| == |m|
    ensures call.BlockIs(m, AllStored(call, m), call.Turn(t))
  {
    hide AllStored, Loaded, Counted, Address, Stored;
    var job, n := call.AsJob(), call.Blocks();
    var m1 := Counted(job, m, 0, n);
    PlacesAre(call, t);
    LaterOutsMiss(call, t);
    assert |m1| == |m| && AllStored(call, m) == Stored(job, m, 0, m1, n) by {
      CountedLength(job, m, 0, n);
      StoredIs(call, m);
    }
    ResultStays(job, m, m1, n, t);
    LoadedIs(call, m, t);
    if call.hasXor {
      OtherIs(call, m, t);
    }
  }

  lemma StoredIs(call: Call, m: Bytes)
    ensures AllStored(call, m)
         == Stored(call.AsJob(), m, 0, Counted(call.AsJob(), m, 0, call.Blocks()), call.Blocks())
  {
  }

  lemma CountedLength(job: Job, m: Bytes, j: nat, width: nat)
    ensures |Counted(job, m, j, width)| == |m|
  {
  }

  lemma ElsewhereStored(call: Call, m: Bytes, p: nat)
    requires call.Fits(|m|) && call.Untangled() && p < |m|
    requires !(call.From(call.outBlocks) <= p < call.From(call.outBlocks) + 16 * call.Blocks())
    ensures |AllStored(call, m)| == |m|
    ensures AllStored(call, m)[p] == Counted(call.AsJob(), m, 0, call.Blocks())[p]
  {
    hide Stored, Counted, Address;
    var job, n := call.AsJob(), call.Blocks();
    forall t: nat | t < n ensures OutMisses(job, t, p) {
      PlacesAre(call, t);
    }
    CountedLength(job, m, 0, n);
    StoredElsewhere(job, m, Counted(job, m, 0, n), n, p);
  }

  /** The one-block loop does what the call is for. */
  lemma StepsDo(call: Call, m: Bytes)
    requires call.Fits(|m|) && call.Untangled()
    ensures call.Does(m, Steps(call.AsJob(), m, 0, call.Blocks()))
  {
    hide Steps, Call.BlockIs, AllStored, Counted, Call.AsJob;
    var job, n, r := call.AsJob(), call.Blocks(), AllStored(call, m);
    var m1 := Counted(job, m, 0, n);
    StepsAreStored(call, m);
    AllStoredLength(call, m);
    forall k: nat | k < n ensures call.BlockIs(m, r, k) {
      TurnTwice(call, k);
      BlockStored(call, m, call.Turn(k));
    }
    if call.flags.inBlockIsCounter {
      CounterMoved(call, m);
      ElsewhereStored(call, m, call.Only(call.inBlocks) + 15);
    }
    forall p: nat | p < |m| && call.LeftAlone(p) ensures r[p] == m[p] {
      ElsewhereStored(call, m, p);
      CountedElsewhere(call, m);
    }
  }

  lemma TurnTwice(call: Call, k: nat)
    requires k < call.Blocks()
    ensures call.Turn(k) < call.Blocks() && call.Turn(call.Turn(k)) == k
  {
  }

  lemma AllStoredLength(call: Call, m: Bytes)
    ensures |AllStored(call, m)| == |m|
  {
    StoredLength(call.AsJob(), m, 0, Counted(call.AsJob(), m, 0, call.Blocks()), call.Blocks());
  }

  lemma CountedElsewhere(call: Call, m: Bytes)
    requires call.Fits(|m|)
    ensures |Counted(call.AsJob(), m, 0, call.Blocks())| == |m|
    ensures forall p: nat :: p < |m| && !(call.flags.inBlockIsCounter && p == call.Only(call.inBlocks) + 15) ==>
              Counted(call.AsJob(), m, 0, call.Blocks())[p] == m[p]
  {
    if call.flags.inBlockIsCounter {
      CounterMoved(call, m);
    }
  }

  // ---- Chaining --------------------------------------------------------------------------

  /** One turn. */
  lemma ChainedStep(call: Call, m: Bytes, c: Block, t: nat)
    requires call.Fits(|m|) && call.Chained() && t < call.Blocks()
    ensures Step(call.AsJob(), Write(m, call.outBlocks, c), t)
         == Write(m, call.outBlocks, call.kernel(Xor(c, Read(m, call.xorBlocks + 16 * t))))
  {
    hide Read, Write;
    var at, x := call.outBlocks, call.xorBlocks + 16 * t;
    PlacesAre(call, t);
    ReadWritten(m, at, c);
    ReadPastWrite(m, at, c, x);
    WriteTwice(m, at, c, call.kernel(Xor(c, Read(m, x))));
  }

  lemma NextChained(kernel: Block -> Block, x: Block, m: Bytes, from: nat, t: nat)
    requires from + 16 * t + 16 <= |m|
    ensures Chain(kernel, x, m[from..from + 16 * t + 16])
         == kernel(Xor(Chain(kernel, x, m[from..from + 16 * t]), Read(m, from + 16 * t)))
  {
    hide Chain;
    var before, b := m[from..from + 16 * t], Read(m, from + 16 * t);
    assert m[from..from + 16 * t + 16] == before + b;
    ChainConcat(kernel, x, before, b);
    ChainOne(kernel, Chain(kernel, x, before), b);
  }

  lemma {:induction false} ChainSteps(call: Call, m: Bytes, n: nat)
    requires call.Fits(|m|) && call.Chained() && n <= call.Blocks()
    ensures Steps(call.AsJob(), m, 0, n)
         == Write(m, call.outBlocks, Chain(call.kernel, Read(m, call.outBlocks),
                                           m[call.xorBlocks..call.xorBlocks + 16 * n]))
  {
    hide Chain, Write, Read, Step, Call.AsJob;
    var at, x := call.outBlocks, call.xorBlocks;
    if n == 0 {
      assert m[x..x] == [];
      ChainNone(call.kernel, Read(m, at));
      WriteSame(m, at);
    } else {
      var t: nat := n - 1;
      ChainSteps(call, m, t);
      NextChained(call.kernel, Read(m, at), m, x, t);
      ChainedStep(call, m, Chain(call.kernel, Read(m, at), m[x..x + 16 * t]), t);
      NextStep(call.AsJob(), m, 0, t);
    }
  }

  lemma ChainNone(kernel: Block -> Block, x: Block)
    ensures Chain(kernel, x, []) == x
  {
  }

  lemma StepsChain(call: Call, m: Bytes)
    requires call.Fits(|m|) && call.Chained()
    ensures call.Chains(m, Steps(call.AsJob(), m, 0, call.Blocks()))
  {
    hide Chain, Steps, Write, Read, Call.Chains;
    ChainSteps(call, m, call.Blocks());
    WrittenChains(call, m, Steps(call.AsJob(), m, 0, call.Blocks()));
  }

  lemma WrittenChains(call: Call, m: Bytes, r: Bytes)
    requires call.Fits(|m|) && call.Chained()
    requires r == Write(m, call.outBlocks, Chain(call.kernel, Read(m, call.outBlocks),
                                                 m[call.xorBlocks..call.xorBlocks + 16 * call.Blocks()]))
    ensures call.Chains(m, r)
  {
    hide Chain, Write;
    var at := call.outBlocks;
    var c := Chain(call.kernel, Read(m, at), m[call.xorBlocks..call.xorBlocks + 16 * call.Blocks()]);
    ReadWritten(m, at, c);
    forall p: nat | p < |m| && !(at <= p < at + 16) ensures Write(m, at, c)[p] == m[p] {
      WrittenElsewhere(m, at, c, p);
    }
  }

  // ---- The two loops ---------------------------------------------------------------------

  lemma StepsMeet(call: Call, m: Bytes)
    requires call.Fits(|m|)
    ensures call.Untangled() ==> call.Does(m, Steps(call.AsJob(), m, 0, call.Blocks()))
    ensures call.Chained() ==> call.Chains(m, Steps(call.AsJob(), m, 0, call.Blocks()))
  {
    hide Call.Does, Call.Chains, Steps;
    if call.Untangled() {
      StepsDo(call, m);
    }
    if call.Chained() {
      StepsChain(call, m);
    }
  }

  lemma UntangledIsClear(call: Call, width: nat, j: nat)
    requires call.Untangled() && call.length >= 16 && width > 0
    ensures AllClear(call.AsJob(), j, call.Blocks(), width)
  {
    hide Undisturbed;
    UntangledIsUndisturbed(call);
    UndisturbedIsClear(call.AsJob(), j, call.Blocks(), width);
  }

  /** What the first loop leaves. */
  lemma SixMeets(call: Call, m: Bytes, r: Bytes)
    requires call.Fits(|m|)
    requires r == if call.flags.allowParallel then SixTwoOne(call.AsJob(), m, call.Blocks())
                  else Steps(call.AsJob(), m, 0, call.Blocks())
    ensures call.Untangled() ==> call.Does(m, r)
    ensures call.Chained() ==> call.Chains(m, r)
    ensures SixClear(call.AsJob(), call.Blocks()) ==> r == Steps(call.AsJob(), m, 0, call.Blocks())
  {
    hide Call.Does, Call.Chains, Call.Untangled, Steps, SixTwoOne, AllClear, Call.AsJob, Call.Fits;
    var job, n := call.AsJob(), call.Blocks();
    StepsMeet(call, m);
    if call.Untangled() {
      LongEnough(call, |m|);
      UntangledIsClear(call, 6, 0);
      UntangledIsClear(call, 2, After(0, n, 6));
    }
    if SixClear(job, n) {
      CounterFits(call, |m|);
      SixTwoOneIsSteps(job, m, n);
    }
  }

  /** What the second loop leaves. */
  lemma FourMeets(call: Call, m: Bytes, r: Bytes)
    requires call.Fits(|m|)
    requires r == if call.flags.allowParallel then FourOne(call.AsJob(), m, call.Blocks())
                  else Steps(call.AsJob(), m, 0, call.Blocks())
    ensures call.Untangled() ==> call.Does(m, r)
    ensures call.Chained() ==> call.Chains(m, r)
    ensures AllClear(call.AsJob(), 0, call.Blocks(), 4) ==> r == Steps(call.AsJob(), m, 0, call.Blocks())
  {
    hide Call.Does, Call.Chains, Call.Untangled, Steps, FourOne, AllClear, Call.AsJob, Call.Fits;
    var job, n := call.AsJob(), call.Blocks();
    StepsMeet(call, m);
    if call.Untangled() {
      LongEnough(call, |m|);
      UntangledIsClear(call, 4, 0);
    }
    if AllClear(job, 0, n, 4) {
      CounterFits(call, |m|);
      FourOneIsSteps(job, m, n);
    }
  }

  lemma LongEnough(call: Call, size: nat)
    requires call.Fits(size)
    ensures call.length >= 16
  {
  }

  lemma CounterFits(call: Call, size: nat)
    requires call.Fits(size)
    ensures call.AsJob().counter ==> 0 <= call.AsJob().in0 <= size - 16
  {
  }

  /** Six and two blocks at a time when allowed, then one. */
  method AdvancedProcessBlocks6x2(kernel: Block -> Block, mem: array<bv8>, inBlocks: int, xorBlocks: int, hasXor: bool,
                                  outBlocks: int, length: nat, flags: Flags)
    returns (left: nat)
    requires Call(kernel, inBlocks, xorBlocks, hasXor, outBlocks, length, flags).Fits(mem.Length)
    modifies mem
    ensures left == length % 16
    ensures var call := Call(kernel, inBlocks, xorBlocks, hasXor, outBlocks, length, flags);
            && (call.Untangled() ==> call.Does(old(mem[..]), mem[..]))
            && (call.Chained() ==> call.Chains(old(mem[..]), mem[..]))
    ensures var job, n := JobOf(kernel, inBlocks, xorBlocks, hasXor, outBlocks, length, flags), length / 16;
            && mem[..] == (if flags.allowParallel then SixTwoOne(job, old(mem[..]), n)
                           else Steps(job, old(mem[..]), 0, n))
            && (SixClear(job, n) ==> mem[..] == Steps(job, old(mem[..]), 0, n))
  {
    hide Call.Does, Call.Chains, Call.Fits, Call.Untangled, Steps, InBounds;
    ghost var call := Call(kernel, inBlocks, xorBlocks, hasXor, outBlocks, length, flags);
    LongEnough(call, mem.Length);
    FitsIsInBounds(call, mem.Length);
    var job := JobOf(kernel, inBlocks, xorBlocks, hasXor, outBlocks, length, flags);
    ghost var m, j := mem[..], 0;
    var cursor, rest := Cursor(job.in0, job.xor0, job.out0), length;
    if flags.allowParallel {
      cursor, rest, j := ProcessBatches(job, mem, cursor, rest, 6, length, j);
      cursor, rest, j := ProcessBatches(job, mem, cursor, rest, 2, length, j);
    }
    left := ProcessSingles(job, mem, cursor, rest, length, j);
    SixMeets(call, m, mem[..]);
  }

  /** Four blocks at a time when allowed, then one. */
  method AdvancedProcessBlocks4x1(kernel: Block -> Block, mem: array<bv8>, inBlocks: int, xorBlocks: int, hasXor: bool,
                                  outBlocks: int, length: nat, flags: Flags)
    returns (left: nat)
    requires Call(kernel, inBlocks, xorBlocks, hasXor, outBlocks, length, flags).Fits(mem.Length)
    modifies mem
    ensures left == length % 16
    ensures var call := Call(kernel, inBlocks, xorBlocks, hasXor, outBlocks, length, flags);
            && (call.Untangled() ==> call.Does(old(mem[..]), mem[..]))
            && (call.Chained() ==> call.Chains(old(mem[..]), mem[..]))
    ensures var job, n := JobOf(kernel, inBlocks, xorBlocks, hasXor, outBlocks, length, flags), length / 16;
            && mem[..] == (if flags.allowParallel then FourOne(job, old(mem[..]), n)
                           else Steps(job, old(mem[..]), 0, n))
            && (AllClear(job, 0, n, 4) ==> mem[..] == Steps(job, old(mem[..]), 0, n))
  {
    hide Call.Does, Call.Chains, Call.Fits, Call.Untangled, Steps, InBounds;
    ghost var call := Call(kernel, inBlocks, xorBlocks, hasXor, outBlocks, length, flags);
    LongEnough(call, mem.Length);
    FitsIsInBounds(call, mem.Length);
    var job := JobOf(kernel, inBlocks, xorBlocks, hasXor, outBlocks, length, flags);
    ghost var m, j := mem[..], 0;
    var cursor, rest := Cursor(job.in0, job.xor0, job.out0), length;
    if flags.allowParallel {
      cursor, rest, j := ProcessBatches(job, mem, cursor, rest, 4, length, j);
    }
    left := ProcessSingles(job, mem, cursor, rest, length, j);
    FourMeets(call, m, mem[..]);
  }
}
