/** Signed sliding windows, and the multi-exponent multiplication built on them. */
module SimultaneousMultiplication {
  import opened Bits
  import opened Groups

  const WORD_BITS: nat := 64

  /** The search for the next set bit at or above `start`, up to the top word of `exp`. */
  method NextSetBit(exp: nat, start: nat) returns (found: bool, skipCount: nat)
    ensures found ==> skipCount >= start && GetBit(exp, skipCount) == 1
    ensures found ==> Shr(exp, start) == Shl(Shr(exp, skipCount), skipCount - start)
    ensures !found ==> Shr(exp, start) == 0
  {
    var expLen := WordCount(exp, WORD_BITS) * WORD_BITS;
    skipCount := start;
    while GetBit(exp, skipCount) == 0
      invariant start <= skipCount
      invariant Shr(exp, start) == Shl(Shr(exp, skipCount), skipCount - start)
      decreases expLen - skipCount
    {
      if skipCount >= expLen {
        WordsHoldBits(exp, WORD_BITS);
        HighBitsClear(exp, skipCount);
        ShlGrows(0, skipCount - start);
        return false, skipCount;
      }
      ShrStep(exp, skipCount);
      ShlInner(Shr(exp, skipCount + 1), skipCount - start);
      skipCount := skipCount + 1;
    }
    found := true;
  }

  function Signed(negate: bool, window: nat): int {
    if negate then 0 - window else window
  }

  /** Shifts out the clear bits and cuts the window off the bottom; a negative digit
      carries one into the rest. Bit `start` of `exp` weighs `2^offset`. */
  method CutWindow(expIn: nat, ghost start: nat, skipCount: nat, ghost offset: nat,
                   windowSize: nat, windowModulus: nat, fastNegate: bool)
    returns (exp: nat, expWindow: nat, negateNext: bool)
    requires windowSize > 0 && windowModulus == Pow2(windowSize)
    requires start <= skipCount && GetBit(expIn, skipCount) == 1
    requires Shr(expIn, start) == Shl(Shr(expIn, skipCount), skipCount - start)
    ensures expWindow % 2 == 1 && expWindow < Pow2(windowSize)
    ensures Shl(Shr(expIn, start), offset)
         == Shl(Signed(negateNext, expWindow), offset + skipCount - start)
          + Shl(Shr(exp, windowSize), offset + skipCount - start + windowSize)
    ensures Shr(exp, windowSize) < Shr(expIn, start)
    ensures negateNext ==> fastNegate
  {
    ghost var odd, rest := Shr(expIn, skipCount), Shr(expIn, start);
    ghost var shift, at := skipCount - start, offset + skipCount - start;
    exp := Shr(expIn, skipCount);
    expWindow := Low(exp, windowSize);
    negateNext := fastNegate && GetBit(exp, windowSize) == 1;
    OddDigit(odd, windowSize, negateNext);
    if negateNext {
      expWindow := Pow2(windowSize) - expWindow;
      exp := exp + windowModulus;
    }
    WindowAccount(rest, odd, shift, at, windowSize, Signed(negateNext, expWindow), Shr(exp, windowSize));
  }

  /** The digit and the rest, with or without the carry. */
  lemma OddDigit(odd: nat, w: nat, negate: bool)
    requires w > 0 && odd % 2 == 1 && (negate ==> GetBit(odd, w) == 1)
    ensures Low(odd, w) <= Pow2(w)
    ensures var d: nat, rest := if negate then Pow2(w) - Low(odd, w) else Low(odd, w),
                                Shr(if negate then odd + Pow2(w) else odd, w);
            d % 2 == 1 && d < Pow2(w) && odd == Signed(negate, d) + Shl(rest, w) && rest < odd
  {
    OddWindow(odd, w);
    CarryUp(odd, w);
  }

  /** Cuts an exponent into odd windows, lowest first; with fast negation a window may
      stand for a negative digit, paid back by a carry into the bits above it. */
  class WindowSlider {
    var exp: nat
    const windowModulus: nat
    const windowSize: nat
    var windowBegin: nat
    var expWindow: nat
    const fastNegate: bool
    var negateNext: bool
    var firstTime: bool
    var finished: bool

    ghost predicate Valid()
      reads this
    {
      && windowSize > 0
      && windowModulus == Pow2(windowSize)
      && (firstTime ==> windowBegin == 0 && !finished)
      && (!firstTime && !finished ==>
            expWindow % 2 == 1 && expWindow < Pow2(windowSize) && (negateNext ==> fastNegate))
    }

    /** The signed digit of the current window. */
    ghost function Digit(): int
      reads this
    {
      Signed(negateNext, expWindow)
    }

    /** What the bits above the current window are worth, in units of that position. */
    ghost function Above(): nat
      reads this
    {
      Shr(exp, windowSize)
    }

    /** What the current window contributes to the exponent. */
    ghost function Current(): int
      reads this
    {
      if firstTime || finished then 0 else Shl(Digit(), windowBegin)
    }

    /** What the current window and all later ones contribute. */
    ghost function Remaining(): int
      reads this
    {
      if finished then 0
      else if firstTime then exp
      else Current() + Shl(Above(), windowBegin + windowSize)
    }

    ghost function Work(): nat
      reads this
    {
      if finished then 0 else if firstTime then 1 + exp else 1 + Above()
    }

    constructor (expIn: nat, fastNegate: bool, windowSizeIn: nat)
      ensures Valid() && firstTime && Remaining() == expIn
      ensures this.fastNegate == fastNegate
    {
      exp := expIn;
      this.fastNegate := fastNegate;
      windowBegin, expWindow := 0, 0;
      negateNext, firstTime, finished := false, true, false;
      var size := windowSizeIn;
      if size == 0 {
        var expLen := BitCount(expIn);
        size :=
          if expLen <= 17 then 1
          else if expLen <= 24 then 2
          else if expLen <= 70 then 3
          else if expLen <= 197 then 4
          else if expLen <= 539 then 5
          else if expLen <= 1434 then 6
          else 7;
      }
      windowSize := size;
      windowModulus := Pow2(size);
    }

    /** Moves to the next window, which starts above the current one. Nothing of the
        exponent is lost: what remained is the window left behind plus what remains now. */
    method FindNextWindow()
      requires Valid() && !finished
      modifies this
      ensures Valid() && !firstTime
      ensures old(Remaining()) == old(Current()) + Remaining()
      ensures windowBegin >= old(windowBegin)
      ensures !old(firstTime) && !finished ==> windowBegin >= old(windowBegin) + windowSize
      ensures Work() < old(Work())
    {
      var start := if firstTime then 0 else windowSize;
      var found, skipCount := NextSetBit(exp, start);
      ghost var rest, offset := Shr(exp, start), windowBegin + start;
      assert Work() == 1 + rest && Remaining() == Current() + Shl(rest, offset);
      firstTime, finished := false, !found;
      ShlGrows(0, offset);
      if found {
        exp, expWindow, negateNext :=
          CutWindow(exp, start, skipCount, offset, windowSize, windowModulus, fastNegate);
        windowBegin := windowBegin + skipCount;
      }
    }
  }

  /** The low bits of an odd number are odd, and the bits above are worth less than half. */
  lemma OddWindow(e: nat, w: nat)
    requires w > 0 && e % 2 == 1
    ensures e == Shl(Shr(e, w), w) + Low(e, w)
    ensures Low(e, w) % 2 == 1 && Low(e, w) < Pow2(w)
    ensures Pow2(w) % 2 == 0
    ensures e > 2 * Shr(e, w)
  {
    SplitAt(e, w);
    var rest := Shr(e, w);
    ShlGrows(rest, w - 1);
    assert Shl(rest, w) == 2 * Shl(rest, w - 1) && Pow2(w) == 2 * Pow2(w - 1);
    hide Shl, Low, Shr, Pow2;
  }

  /** Adding the modulus of the window carries one into the rest. */
  lemma CarryUp(e: nat, w: nat)
    ensures Shr(e + Pow2(w), w) == Shr(e, w) + 1
    ensures Shl(Shr(e, w) + 1, w) == Shl(Shr(e, w), w) + Pow2(w)
  {
    ShlOne(w);
    AddAbove(e, 1, w);
    ShlSum(Shr(e, w), 1, w);
  }

  /** What lies from `begin - shift` up is the window at `begin` and what is above it. */
  lemma WindowAccount(rest: nat, e: nat, shift: nat, begin: nat, w: nat, digit: int, above: nat)
    requires shift <= begin
    requires rest == Shl(e, shift) && e == digit + Shl(above, w)
    ensures Shl(rest, begin - shift) == Shl(digit, begin) + Shl(above, begin + w)
    ensures rest >= e
  {
    ShlShl(e, shift, begin - shift);
    ShlSum(digit, Shl(above, w), begin);
    ShlShl(above, w, begin);
    assert w + begin == begin + w;
    ShlGrows(e, shift);
  }

  /** The value of buckets `j` and up: bucket `k` collects the windows `2k+1`. */
  ghost function OddWeightedFrom(c: seq<int>, j: nat): int
    requires j <= |c|
    decreases |c| - j
  {
    if j == |c| then 0 else (2 * j + 1) * c[j] + OddWeightedFrom(c, j + 1)
  }

  ghost function OddWeighted(c: seq<int>): int {
    OddWeightedFrom(c, 0)
  }

  ghost function TotalFrom(c: seq<int>, j: nat): int
    requires j <= |c|
    decreases |c| - j
  {
    if j == |c| then 0 else c[j] + TotalFrom(c, j + 1)
  }

  /** The sum of all suffix totals from `j` up. */
  ghost function LadderFrom(c: seq<int>, j: nat): int
    requires j <= |c|
    decreases |c| - j
  {
    if j == |c| then 0 else TotalFrom(c, j) + LadderFrom(c, j + 1)
  }

  lemma {:induction false} OddWeightedUpdate(c: seq<int>, j: nat, k: nat, d: int)
    requires j <= |c| && k < |c|
    ensures OddWeightedFrom(c[k := c[k] + d], j) == OddWeightedFrom(c, j) + if j <= k then (2 * k + 1) * d else 0
    decreases |c| - j
  {
    if j < |c| {
      OddWeightedUpdate(c, j + 1, k, d);
      assert (2 * k + 1) * (c[k] + d) == (2 * k + 1) * c[k] + (2 * k + 1) * d;
    }
  }

  lemma {:induction false} OddWeightedZero(c: seq<int>, j: nat)
    requires j <= |c| && forall k :: 0 <= k < |c| ==> c[k] == 0
    ensures OddWeightedFrom(c, j) == 0
    decreases |c| - j
  {
    if j < |c| {
      OddWeightedZero(c, j + 1);
    }
  }

  /** Doubling the ladder above `j` and adding the total counts bucket `k` `2(k-j)+1` times. */
  lemma {:induction false} LadderCountsOdd(c: seq<int>, j: nat)
    requires j < |c|
    ensures 2 * LadderFrom(c, j + 1) + (2 * j + 1) * TotalFrom(c, j) == OddWeightedFrom(c, j)
    decreases |c| - j
  {
    assert (2 * j + 1) * (c[j] + TotalFrom(c, j + 1)) == (2 * j + 1) * c[j] + (2 * j + 1) * TotalFrom(c, j + 1);
    if j + 1 < |c| {
      LadderCountsOdd(c, j + 1);
      assert (2 * (j + 1) + 1) * TotalFrom(c, j + 1) == (2 * j + 1) * TotalFrom(c, j + 1) + 2 * TotalFrom(c, j + 1);
    } else {
      assert TotalFrom(c, j + 1) == 0;
    }
  }

  /** Every element of `elements` is that multiple of `base` which `coeffs` lists. */
  ghost predicate MultiplesOf<T(!new)>(g: Group<T>, base: T, elements: seq<T>, coeffs: seq<int>) {
    |elements| == |coeffs| && forall k :: 0 <= k < |coeffs| ==> elements[k] == Times(g, base, coeffs[k])
  }

  /** The windows of `s` met so far are in the buckets; with the rest they make up `e`. */
  ghost predicate Tracks<T(!new)>(g: Group<T>, base: T, e: nat, s: WindowSlider, bucket: seq<T>, coeffs: seq<int>)
    reads s
  {
    && s.Valid() && !s.firstTime
    && |bucket| == Pow2(s.windowSize - 1)
    && MultiplesOf(g, base, bucket, coeffs)
    && OddWeighted(coeffs) + s.Remaining() == e
  }

  /** The weight of a window at `begin`, as its bucket counts it. */
  ghost function BucketGain(negate: bool, begin: nat): int {
    if negate then 0 - Pow2(begin) else Pow2(begin)
  }

  lemma WindowIsBucketGain(negate: bool, window: nat, begin: nat)
    requires window % 2 == 1
    ensures (2 * (window / 2) + 1) * BucketGain(negate, begin) == Shl(Signed(negate, window), begin)
  {
    ShlIsProduct(Signed(negate, window), begin);
    assert 2 * (window / 2) + 1 == window;
  }

  lemma BucketInRange(window: nat, w: nat)
    requires w > 0 && window < Pow2(w)
    ensures window / 2 < Pow2(w - 1)
  {
    assert Pow2(w) == 2 * Pow2(w - 1);
  }

  method AddToBucket<T(!new)>(g: Group<T>, ghost base: T, power: T, ghost begin: nat, negate: bool, window: nat,
                              bucketIn: seq<T>, ghost coeffsIn: seq<int>)
    returns (bucket: seq<T>, ghost coeffs: seq<int>)
    requires IsGroup(g) && MultiplesOf(g, base, bucketIn, coeffsIn)
    requires window % 2 == 1 && window / 2 < |bucketIn|
    requires power == Times(g, base, Pow2(begin))
    ensures |bucket| == |bucketIn| && MultiplesOf(g, base, bucket, coeffs)
    ensures OddWeighted(coeffs) == OddWeighted(coeffsIn) + Shl(Signed(negate, window), begin)
  {
    ghost var d := BucketGain(negate, begin);
    TimesInverse(g, base, Pow2(begin));
    TimesSum(g, base, coeffsIn[window / 2], d);
    if negate {
      bucket := bucketIn[window / 2 := g.add(bucketIn[window / 2], g.inverse(power))];
    } else {
      bucket := bucketIn[window / 2 := g.add(bucketIn[window / 2], power)];
    }
    coeffs := coeffsIn[window / 2 := coeffsIn[window / 2] + d];
    OddWeightedUpdate(coeffsIn, 0, window / 2, d);
    WindowIsBucketGain(negate, window, begin);
  }

  /** Adds the current window of `s`, whose weight is `power`, to its bucket and moves on. */
  method AbsorbWindow<T(!new)>(g: Group<T>, ghost base: T, ghost e: nat, s: WindowSlider, power: T,
                               bucketIn: seq<T>, ghost coeffsIn: seq<int>)
    returns (bucket: seq<T>, ghost coeffs: seq<int>)
    requires IsGroup(g) && Tracks(g, base, e, s, bucketIn, coeffsIn) && !s.finished
    requires power == Times(g, base, Pow2(s.windowBegin))
    modifies s
    ensures Tracks(g, base, e, s, bucket, coeffs)
    ensures s.Work() < old(s.Work())
    ensures !s.finished ==> s.windowBegin > old(s.windowBegin)
  {
    BucketInRange(s.expWindow, s.windowSize);
    bucket, coeffs := AddToBucket(g, base, power, s.windowBegin, s.negateNext, s.expWindow, bucketIn, coeffsIn);
    s.FindNextWindow();
  }

  /** Sums the buckets, bucket `k` taken `2k+1` times, with additions and one doubling. */
  method CollapseBuckets<T(!new)>(g: Group<T>, ghost base: T, bucketIn: seq<T>, ghost coeffs: seq<int>) returns (r: T)
    requires IsGroup(g) && |bucketIn| > 0 && MultiplesOf(g, base, bucketIn, coeffs)
    ensures r == Times(g, base, OddWeighted(coeffs))
  {
    var n := |bucketIn|;
    var buckets := bucketIn;
    r := buckets[n - 1];
    LadderCountsOdd(coeffs, 0);
    assert TotalFrom(coeffs, n - 1) == coeffs[n - 1];
    assert LadderFrom(coeffs, n - 1) == coeffs[n - 1];
    if n > 1 {
      var j := n - 2;
      while j >= 1
        invariant 0 <= j <= n - 2
        invariant |buckets| == n
        invariant forall k :: 0 <= k <= j ==> buckets[k] == Times(g, base, coeffs[k])
        invariant buckets[j + 1] == Times(g, base, TotalFrom(coeffs, j + 1))
        invariant r == Times(g, base, LadderFrom(coeffs, j + 1))
      {
        TimesSum(g, base, coeffs[j], TotalFrom(coeffs, j + 1));
        buckets := buckets[j := g.add(buckets[j], buckets[j + 1])];
        TimesSum(g, base, LadderFrom(coeffs, j + 1), TotalFrom(coeffs, j));
        r := g.add(r, buckets[j]);
        j := j - 1;
      }
      TimesSum(g, base, coeffs[0], TotalFrom(coeffs, 1));
      buckets := buckets[0 := g.add(buckets[0], buckets[1])];
      ghost var ladder := LadderFrom(coeffs, 1);
      TimesSum(g, base, ladder, ladder);
      TimesSum(g, base, 2 * ladder, TotalFrom(coeffs, 0));
      r := g.add(g.Double(r), buckets[0]);
    }
  }

  ghost function Sum(s: seq<nat>): nat {
    if s == [] then 0 else Sum(s[..|s| - 1]) + s[|s| - 1]
  }

  lemma {:induction false} SumUpdate(s: seq<nat>, i: nat, v: nat)
    requires i < |s|
    ensures Sum(s[i := v]) == Sum(s) - s[i] + v
    ensures Sum(s) >= s[i]
  {
    var n := |s| - 1;
    if i < n {
      assert s[i := v][..n] == s[..n][i := v];
      SumUpdate(s[..n], i, v);
    } else {
      assert s[i := v][..n] == s[..n];
    }
  }

  ghost function Works(sliders: seq<WindowSlider>): seq<nat>
    reads sliders
  {
    seq(|sliders|, i requires 0 <= i < |sliders| reads sliders => sliders[i].Work())
  }

  ghost function Begins(sliders: seq<WindowSlider>): seq<nat>
    reads sliders
  {
    seq(|sliders|, i requires 0 <= i < |sliders| reads sliders => sliders[i].windowBegin)
  }

  /** Less work is left than before, or no window has moved. */
  ghost predicate Progress(worksBefore: seq<nat>, beginsBefore: seq<nat>, works: seq<nat>, begins: seq<nat>) {
    Sum(works) < Sum(worksBefore) || (Sum(works) == Sum(worksBefore) && begins == beginsBefore)
  }

  ghost predicate Distinct(sliders: seq<WindowSlider>) {
    forall j, k :: 0 <= j < k < |sliders| ==> sliders[j] != sliders[k]
  }

  ghost predicate TracksAt<T(!new)>(g: Group<T>, base: T, exps: seq<nat>, sliders: seq<WindowSlider>,
                                    buckets: seq<seq<T>>, coeffs: seq<seq<int>>, j: nat)
    requires |sliders| == |exps| == |buckets| == |coeffs|
    reads sliders
  {
    j < |exps| ==> Tracks(g, base, exps[j], sliders[j], buckets[j], coeffs[j])
  }

  ghost predicate AllTrack<T(!new)>(g: Group<T>, base: T, exps: seq<nat>, sliders: seq<WindowSlider>,
                                    buckets: seq<seq<T>>, coeffs: seq<seq<int>>)
    reads sliders
  {
    && |sliders| == |exps| == |buckets| == |coeffs|
    && forall j: nat :: TracksAt(g, base, exps, sliders, buckets, coeffs, j)
  }

  /** The first `i` sliders begin above `position`, the others at or above it. */
  ghost predicate NoWindowMissed(sliders: seq<WindowSlider>, position: nat, i: nat)
    reads sliders
  {
    forall j :: 0 <= j < |sliders| && !sliders[j].finished ==>
      sliders[j].windowBegin >= position && (j < i ==> sliders[j].windowBegin > position)
  }

  ghost predicate AllFinished(sliders: seq<WindowSlider>, i: nat)
    reads sliders
  {
    forall j :: 0 <= j < |sliders| && j < i ==> sliders[j].finished
  }

  /** One slider's turn at a bit position. */
  method VisitSlider<T(!new)>(g: Group<T>, ghost base: T, ghost exps: seq<nat>, sliders: seq<WindowSlider>,
                              position: nat, power: T, i: nat, bucketsIn: seq<seq<T>>, ghost coeffsIn: seq<seq<int>>)
    returns (buckets: seq<seq<T>>, ghost coeffs: seq<seq<int>>)
    requires IsGroup(g) && Distinct(sliders) && i < |sliders|
    requires AllTrack(g, base, exps, sliders, bucketsIn, coeffsIn) && NoWindowMissed(sliders, position, i)
    requires power == Times(g, base, Pow2(position))
    modifies sliders[i]
    ensures AllTrack(g, base, exps, sliders, buckets, coeffs) && NoWindowMissed(sliders, position, i + 1)
    ensures AllFinished(sliders, i + 1) <==> old(AllFinished(sliders, i)) && sliders[i].finished
    ensures Progress(old(Works(sliders)), old(Begins(sliders)), Works(sliders), Begins(sliders))
  {
    assert forall j :: 0 <= j < |sliders| && j != i ==> sliders[j] != sliders[i];
    ghost var works := Works(sliders);
    buckets, coeffs := bucketsIn, coeffsIn;
    assert TracksAt(g, base, exps, sliders, bucketsIn, coeffsIn, i);
    if !sliders[i].finished && position == sliders[i].windowBegin {
      var bucket; ghost var c;
      bucket, c := AbsorbWindow(g, base, exps[i], sliders[i], power, buckets[i], coeffs[i]);
      buckets, coeffs := buckets[i := bucket], coeffs[i := c];
      SumUpdate(works, i, sliders[i].Work());
      assert Works(sliders) == works[i := sliders[i].Work()];
      forall j: nat ensures TracksAt(g, base, exps, sliders, buckets, coeffs, j) {
        assert old(TracksAt(g, base, exps, sliders, bucketsIn, coeffsIn, j));
      }
    }
  }

  /** Every slider whose window begins at `position` has it absorbed. */
  method VisitPosition<T(!new)>(g: Group<T>, ghost base: T, ghost exps: seq<nat>, sliders: seq<WindowSlider>,
                                position: nat, power: T, bucketsIn: seq<seq<T>>, ghost coeffsIn: seq<seq<int>>)
    returns (buckets: seq<seq<T>>, notDone: bool, ghost coeffs: seq<seq<int>>)
    requires IsGroup(g) && Distinct(sliders)
    requires AllTrack(g, base, exps, sliders, bucketsIn, coeffsIn) && NoWindowMissed(sliders, position, 0)
    requires power == Times(g, base, Pow2(position))
    modifies sliders
    ensures AllTrack(g, base, exps, sliders, buckets, coeffs)
    ensures NoWindowMissed(sliders, position, |sliders|)
    ensures notDone <==> !AllFinished(sliders, |sliders|)
    ensures Progress(old(Works(sliders)), old(Begins(sliders)), Works(sliders), Begins(sliders))
  {
    buckets, coeffs := bucketsIn, coeffsIn;
    notDone := false;
    for i := 0 to |sliders|
      invariant AllTrack(g, base, exps, sliders, buckets, coeffs)
      invariant NoWindowMissed(sliders, position, i)
      invariant notDone <==> !AllFinished(sliders, i)
      invariant Progress(old(Works(sliders)), old(Begins(sliders)), Works(sliders), Begins(sliders))
    {
      buckets, coeffs := VisitSlider(g, base, exps, sliders, position, power, i, buckets, coeffs);
      notDone := notDone || !sliders[i].finished;
    }
  }

  /** One slider per exponent, each moved to its first window, over empty buckets. */
  method OpenSliders<T(!new)>(g: Group<T>, ghost base: T, exps: seq<nat>)
    returns (sliders: seq<WindowSlider>, buckets: seq<seq<T>>, ghost coeffs: seq<seq<int>>)
    requires IsGroup(g)
    ensures fresh(sliders) && Distinct(sliders)
    ensures AllTrack(g, base, exps, sliders, buckets, coeffs)
  {
    buckets, sliders, coeffs := [], [], [];
    for i := 0 to |exps|
      invariant |sliders| == i && fresh(sliders) && Distinct(sliders)
      invariant AllTrack(g, base, exps[..i], sliders, buckets, coeffs)
    {
      ghost var sliders0, buckets0, coeffs0 := sliders, buckets, coeffs;
      label Before:
      var s := new WindowSlider(exps[i], g.inversionIsFast, 0);
      s.FindNextWindow();
      var size := Pow2(s.windowSize - 1);
      sliders, buckets := sliders + [s], buckets + [seq(size, _ => g.identity)];
      coeffs := coeffs + [seq(size, _ => 0)];
      OddWeightedZero(coeffs[i], 0);
      ghost var prefix := exps[..i + 1];
      forall j: nat ensures TracksAt(g, base, prefix, sliders, buckets, coeffs, j) {
        assert old@Before(TracksAt(g, base, exps[..i], sliders0, buckets0, coeffs0, j));
      }
    }
    assert exps[..|exps|] == exps;
  }

  lemma DoublePower<T(!new)>(g: Group<T>, base: T, n: nat)
    requires IsGroup(g)
    ensures g.Double(Times(g, base, Pow2(n))) == Times(g, base, Pow2(n + 1))
  {
    TimesSum(g, base, Pow2(n), Pow2(n));
    assert Pow2(n) + Pow2(n) == Pow2(n + 1);
  }

  lemma WindowAhead(sliders: seq<WindowSlider>, position: nat)
    requires NoWindowMissed(sliders, position, |sliders|) && !AllFinished(sliders, |sliders|)
    ensures Sum(Begins(sliders)) > position
  {
    var j :| 0 <= j < |sliders| && !sliders[j].finished;
    SumUpdate(Begins(sliders), j, 0);
  }

  /** The shared doubling loop: passes every bit position until all windows are absorbed. */
  method SweepWindows<T(!new)>(g: Group<T>, base: T, ghost exps: seq<nat>, exponents: seq<WindowSlider>,
                               bucketsIn: seq<seq<T>>, ghost coeffsIn: seq<seq<int>>)
    returns (buckets: seq<seq<T>>, ghost coeffs: seq<seq<int>>)
    requires IsGroup(g) && Distinct(exponents)
    requires AllTrack(g, base, exps, exponents, bucketsIn, coeffsIn)
    modifies exponents
    ensures AllTrack(g, base, exps, exponents, buckets, coeffs) && AllFinished(exponents, |exponents|)
  {
    buckets, coeffs := bucketsIn, coeffsIn;
    var expBitPosition := 0;
    var power := base;
    var notDone := true;
    TimesOne(g, base);
    while notDone
      invariant AllTrack(g, base, exps, exponents, buckets, coeffs)
      invariant NoWindowMissed(exponents, expBitPosition, 0)
      invariant !notDone ==> AllFinished(exponents, |exponents|)
      invariant power == Times(g, base, Pow2(expBitPosition))
      decreases notDone, Sum(Works(exponents)), Sum(Begins(exponents)) - expBitPosition
    {
      buckets, notDone, coeffs := VisitPosition(g, base, exps, exponents, expBitPosition, power, buckets, coeffs);
      if notDone {
        WindowAhead(exponents, expBitPosition);
        DoublePower(g, base, expBitPosition);
        power := g.Double(power);
        expBitPosition := expBitPosition + 1;
      }
    }
  }

  /** Computes all multiples of one base together: the powers of two of the base are met
      once, and each slider picks up those its windows begin at. */
  method SimultaneousMultiply<T(!new)>(g: Group<T>, base: T, exps: seq<nat>) returns (results: seq<T>)
    requires IsGroup(g)
    ensures |results| == |exps|
    ensures forall i :: 0 <= i < |exps| ==> results[i] == Times(g, base, exps[i])
  {
    var exponents, buckets; ghost var coeffs;
    exponents, buckets, coeffs := OpenSliders(g, base, exps);
    buckets, coeffs := SweepWindows(g, base, exps, exponents, buckets, coeffs);
    results := [];
    for i := 0 to |exps|
      invariant |results| == i
      invariant forall j :: 0 <= j < i ==> results[j] == Times(g, base, exps[j])
      invariant AllTrack(g, base, exps, exponents, buckets, coeffs) && AllFinished(exponents, |exps|)
    {
      assert TracksAt(g, base, exps, exponents, buckets, coeffs, i);
      var r := CollapseBuckets(g, base, buckets[i], coeffs[i]);
      results := results + [r];
    }
  }

  /** The single multiplication is the simultaneous one on one exponent. */
  method ScalarMultiply<T(!new)>(g: Group<T>, base: T, exponent: nat) returns (result: T)
    requires IsGroup(g)
    ensures result == Times(g, base, exponent)
  {
    var results := SimultaneousMultiply(g, base, [exponent]);
    result := results[0];
  }
}
