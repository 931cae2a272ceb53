/** CAST-128 and CAST-256: Feistel rounds on words of a block, undone in the opposite order. */
module CastCiphers {
  import opened MachineWords
  import opened RoundSequences

  // ---- Round functions -------------------------------------------------------------------

  /** The four S-boxes of the rounds: any tables. */
  type Boxes = (nat, bv8) -> bv32

  datatype Kind = One | Two | Three

  /** Turned left; the turn is below 32. */
  function Rotated(x: bv32, turn: bv32): bv32
    requires turn < 32
  {
    (x << turn) | (x >> ((0 - turn) & 0x1f))
  }

  /** Combining, which is not adding numbers. */
  function Add(a: bv32, b: bv32): bv32 {
    a ^ b
  }

  /** What one of the three round functions adds to the target. */
  function RoundFunction(s: Boxes, kind: Kind, r: bv32, km: bv32, kr: bv32): bv32
    requires kr < 32
  {
    match kind
    case One =>
      var t := Rotated(Plus(km, r), kr);
      Plus(Minus(Add(s(0, Byte3(t)), s(1, Byte2(t))), s(2, Byte1(t))), s(3, Byte0(t)))
    case Two =>
      var t := Rotated(Add(km, r), kr);
      Add(Plus(Minus(s(0, Byte3(t)), s(1, Byte2(t))), s(2, Byte1(t))), s(3, Byte0(t)))
    case Three =>
      var t := Rotated(Minus(km, r), kr);
      Minus(Add(Plus(s(0, Byte3(t)), s(1, Byte2(t))), s(2, Byte1(t))), s(3, Byte0(t)))
  }

  /** Which words a round works on, its function, and its masking and turning keys. */
  datatype Round = Round(target: nat, source: nat, kind: Kind, km: bv32, kr: bv32)

  /** A schedule past its end. */
  const NO_ROUND := Round(0, 0, One, 0, 0)

  lemma AddTwice(a: bv32, b: bv32)
    ensures Add(Add(a, b), b) == a
  {
  }

  predicate Fits(r: Round, x: seq<bv32>) {
    r.target < |x| && r.source < |x| && r.target != r.source && r.kr < 32
  }

  /** One round on a block. */
  function Apply(s: Boxes, r: Round, x: seq<bv32>): (y: seq<bv32>)
    requires Fits(r, x)
    ensures |y| == |x|
  {
    x[r.target := Add(x[r.target], RoundFunction(s, r.kind, x[r.source], r.km, r.kr))]
  }

  /** A round is its own inverse. */
  lemma ApplyTwice(s: Boxes, r: Round, x: seq<bv32>)
    requires Fits(r, x)
    ensures Apply(s, r, Apply(s, r, x)) == x
  {
    AddTwice(x[r.target], RoundFunction(s, r.kind, x[r.source], r.km, r.kr));
  }

  /** The rounds of a schedule as numbered steps; a round that does not fit changes nothing. */
  function Steps(s: Boxes, schedule: nat -> Round): (nat, seq<bv32>) -> seq<bv32> {
    (i: nat, x: seq<bv32>) => if Fits(schedule(i), x) then Apply(s, schedule(i), x) else x
  }

  /** Any schedule is undone by the same rounds in the opposite order. */
  lemma ScheduleUndone(s: Boxes, schedule: nat -> Round, x: seq<bv32>, n: nat)
    ensures Backward(Steps(s, schedule), Forward(Steps(s, schedule), x, n), n) == x
    ensures Forward(Steps(s, schedule), Backward(Steps(s, schedule), x, n), n) == x
  {
    var step := Steps(s, schedule);
    forall i: nat, y ensures UndoesAt(step, step, i, y) {
      if Fits(schedule(i), y) {
        ApplyTwice(s, schedule(i), y);
      }
    }
    BackwardForward(step, step, x, n);
    ForwardBackward(step, step, x, n);
  }

  /** One round in place. */
  method F(s: Boxes, r: Round, x: array<bv32>)
    requires Fits(r, x[..])
    modifies x
    ensures x[..] == Apply(s, r, old(x[..]))
  {
    var added := RoundFunction(s, r.kind, x[r.source], r.km, r.kr);
    x[r.target] := Add(x[r.target], added);
  }

  // ---- CAST-128 --------------------------------------------------------------------------

  /** Round `i` of CAST-128 on the words l and r: targets alternate, the functions go round. */
  function Round128(k: seq<bv32>, i: nat): Round
    requires |k| == 32 && i < 16
  {
    Round(i % 2, 1 - i % 2, if i % 3 == 0 then One else if i % 3 == 1 then Two else Three, k[i], k[i + 16])
  }

  function Schedule128(k: seq<bv32>): nat -> Round
    requires |k| == 32
  {
    (i: nat) => if i < 16 then Round128(k, i) else NO_ROUND
  }

  /** 16 masking keys and 16 turns below 32. */
  predicate Keys128(k: seq<bv32>) {
    |k| == 32 && forall i :: 16 <= i < 32 ==> k[i] < 32
  }

  /** 12 rounds for keys up to 80 bits. */
  function Count128(reduced: bool): nat {
    if reduced then 12 else 16
  }

  /** Round `i`, given by the caller. */
  method EncryptRound(s: Boxes, r: Round, ghost i: nat, x: array<bv32>, ghost schedule: nat -> Round,
                      ghost start: seq<bv32>)
    requires r == schedule(i) && Fits(r, x[..])
    requires x[..] == Forward(Steps(s, schedule), start, i)
    modifies x
    ensures x[..] == Forward(Steps(s, schedule), start, i + 1)
  {
    F(s, r, x);
  }

  method DecryptRound(s: Boxes, r: Round, ghost i: nat, x: array<bv32>, ghost schedule: nat -> Round,
                      ghost start: seq<bv32>, ghost high: nat)
    requires r == schedule(i) && Fits(r, x[..]) && i < high
    requires x[..] == Between(Steps(s, schedule), start, high, i + 1)
    modifies x
    ensures x[..] == Between(Steps(s, schedule), start, high, i)
  {
    F(s, r, x);
  }

  lemma Thirds(k: seq<bv32>, i: nat)
    requires Keys128(k) && i < 14 && i % 3 == 0
    ensures Schedule128(k)(i) == Round(i % 2, 1 - i % 2, One, k[i], k[i + 16]) && k[i + 16] < 32
    ensures Schedule128(k)(i + 1) == Round(1 - i % 2, i % 2, Two, k[i + 1], k[i + 17]) && k[i + 17] < 32
    ensures Schedule128(k)(i + 2) == Round(i % 2, 1 - i % 2, Three, k[i + 2], k[i + 18]) && k[i + 18] < 32
  {
  }

  /** Three rounds, one with each function. */
  method EncryptThree(s: Boxes, k: seq<bv32>, i: nat, x: array<bv32>, ghost start: seq<bv32>)
    requires Keys128(k) && x.Length == 2 && i < 14 && i % 3 == 0
    requires x[..] == Forward(Steps(s, Schedule128(k)), start, i)
    modifies x
    ensures x[..] == Forward(Steps(s, Schedule128(k)), start, i + 3)
  {
    Thirds(k, i);
    var l, r := i % 2, 1 - i % 2;
    EncryptRound(s, Round(l, r, One, k[i], k[i + 16]), i, x, Schedule128(k), start);
    EncryptRound(s, Round(r, l, Two, k[i + 1], k[i + 17]), i + 1, x, Schedule128(k), start);
    EncryptRound(s, Round(l, r, Three, k[i + 2], k[i + 18]), i + 2, x, Schedule128(k), start);
  }

  method DecryptThree(s: Boxes, k: seq<bv32>, i: nat, x: array<bv32>, ghost start: seq<bv32>, ghost high: nat)
    requires Keys128(k) && x.Length == 2 && i < 14 && i % 3 == 0 && i + 3 <= high
    requires x[..] == Between(Steps(s, Schedule128(k)), start, high, i + 3)
    modifies x
    ensures x[..] == Between(Steps(s, Schedule128(k)), start, high, i)
  {
    Thirds(k, i);
    var l, r := i % 2, 1 - i % 2;
    DecryptRound(s, Round(l, r, Three, k[i + 2], k[i + 18]), i + 2, x, Schedule128(k), start, high);
    DecryptRound(s, Round(r, l, Two, k[i + 1], k[i + 17]), i + 1, x, Schedule128(k), start, high);
    DecryptRound(s, Round(l, r, One, k[i], k[i + 16]), i, x, Schedule128(k), start, high);
  }

  /** The twelve rounds of every key. */
  method DecryptTwelve(s: Boxes, k: seq<bv32>, x: array<bv32>, ghost start: seq<bv32>, ghost high: nat)
    requires Keys128(k) && x.Length == 2 && 12 <= high
    requires x[..] == Between(Steps(s, Schedule128(k)), start, high, 12)
    modifies x
    ensures x[..] == Between(Steps(s, Schedule128(k)), start, high, 0)
  {
    DecryptThree(s, k, 9, x, start, high);
    DecryptThree(s, k, 6, x, start, high);
    DecryptThree(s, k, 3, x, start, high);
    DecryptThree(s, k, 0, x, start, high);
  }

  method EncryptRounds(s: Boxes, k: seq<bv32>, reduced: bool, x: array<bv32>)
    requires Keys128(k) && x.Length == 2
    modifies x
    ensures x[..] == Forward(Steps(s, Schedule128(k)), old(x[..]), Count128(reduced))
  {
    ghost var start := x[..];
    EncryptThree(s, k, 0, x, start);
    EncryptThree(s, k, 3, x, start);
    EncryptThree(s, k, 6, x, start);
    EncryptThree(s, k, 9, x, start);
    if !reduced {
      EncryptThree(s, k, 12, x, start);
      EncryptRound(s, Round(1, 0, One, k[15], k[31]), 15, x, Schedule128(k), start);
    }
  }

  method DecryptRounds(s: Boxes, k: seq<bv32>, reduced: bool, x: array<bv32>)
    requires Keys128(k) && x.Length == 2
    modifies x
    ensures x[..] == Backward(Steps(s, Schedule128(k)), old(x[..]), Count128(reduced))
  {
    ghost var start, high := x[..], Count128(reduced);
    if !reduced {
      DecryptRound(s, Round(1, 0, One, k[15], k[31]), 15, x, Schedule128(k), start, high);
      DecryptThree(s, k, 12, x, start, high);
    }
    DecryptTwelve(s, k, x, start, high);
    BackwardThrough(Steps(s, Schedule128(k)), start, high, 0);
  }

  /** The types of the rounds of section 2.2 of RFC 2144, which counts from 1. */
  function TypeOf(round: nat): Kind {
    if round in {1, 4, 7, 10, 13, 16} then One else if round in {2, 5, 8, 11, 14} then Two else Three
  }

  /** Its two halves after `n` rounds: the right one goes to the left, and the left one, with the round
      function of the right one, to the right. */
  function Halves(s: Boxes, k: seq<bv32>, left: bv32, right: bv32, n: nat): (bv32, bv32)
    requires Keys128(k) && n <= 16
  {
    if n == 0 then (left, right)
    else
      var (l, r) := Halves(s, k, left, right, n - 1);
      (r, Add(l, RoundFunction(s, TypeOf(n), r, k[n - 1], k[n + 15])))
  }

  lemma TypeIs(i: nat)
    requires i < 16
    ensures TypeOf(i + 1) == if i % 3 == 0 then One else if i % 3 == 1 then Two else Three
  {
  }

  /** The halves as they lie in the block: each round exchanges their roles. */
  function Lying(l: bv32, r: bv32, n: nat): seq<bv32> {
    if n % 2 == 0 then [l, r] else [r, l]
  }

  lemma OneRound(s: Boxes, k: seq<bv32>, l: bv32, r: bv32, i: nat)
    requires Keys128(k) && i < 16
    ensures Steps(s, Schedule128(k))(i, Lying(l, r, i))
         == Lying(r, Add(l, RoundFunction(s, TypeOf(i + 1), r, k[i], k[i + 16])), i + 1)
  {
    hide RoundFunction, TypeOf, Add;
    TypeIs(i);
    var x := Lying(l, r, i);
    assert Fits(Round128(k, i), x) && x[i % 2] == l && x[1 - i % 2] == r;
    assert (i + 1) % 2 == 1 - i % 2;
    var added := RoundFunction(s, TypeOf(i + 1), r, k[i], k[i + 16]);
    var round := Round(i % 2, 1 - i % 2, TypeOf(i + 1), k[i], k[i + 16]);
    assert Schedule128(k)(i) == round;
    assert Steps(s, Schedule128(k))(i, x) == Apply(s, round, x);
    assert x[i % 2 := Add(l, added)] == if i % 2 == 0 then [Add(l, added), r] else [r, Add(l, added)];
  }

  /** The rounds in place are those rounds. */
  lemma {:induction false} RoundsAreHalves(s: Boxes, k: seq<bv32>, left: bv32, right: bv32, n: nat)
    requires Keys128(k) && n <= 16
    ensures var (l, r) := Halves(s, k, left, right, n);
            Forward(Steps(s, Schedule128(k)), [left, right], n) == Lying(l, r, n)
  {
    if n > 0 {
      hide RoundFunction, TypeOf, Add, Lying, Steps;
      RoundsAreHalves(s, k, left, right, n - 1);
      var (l, r) := Halves(s, k, left, right, n - 1);
      OneRound(s, k, l, r, n - 1);
    }
  }

  /** Encryption reads l and r, and writes r before l. */
  method Encrypt128(s: Boxes, k: seq<bv32>, reduced: bool, block: (bv32, bv32)) returns (out: (bv32, bv32))
    requires Keys128(k)
    ensures [out.1, out.0] == Forward(Steps(s, Schedule128(k)), [block.0, block.1], Count128(reduced))
    ensures var (l, r) := Halves(s, k, block.0, block.1, if reduced then 12 else 16); out == (r, l)
  {
    hide Halves, Forward;
    RoundsAreHalves(s, k, block.0, block.1, Count128(reduced));
    var x := new bv32[][block.0, block.1];
    assert x[..] == [block.0, block.1];
    EncryptRounds(s, k, reduced, x);
    out := (x[1], x[0]);
    assert x[..] == [x[0], x[1]];
  }

  /** Decryption reads r before l, and writes l and r. */
  method Decrypt128(s: Boxes, k: seq<bv32>, reduced: bool, block: (bv32, bv32)) returns (out: (bv32, bv32))
    requires Keys128(k)
    ensures [out.0, out.1] == Backward(Steps(s, Schedule128(k)), [block.1, block.0], Count128(reduced))
  {
    var x := new bv32[][block.1, block.0];
    assert x[..] == [block.1, block.0];
    DecryptRounds(s, k, reduced, x);
    out := (x[0], x[1]);
    assert x[..] == [x[0], x[1]];
  }

  /** CAST-128 decryption inverts encryption, for both numbers of rounds. */
  method RoundTrip128(s: Boxes, k: seq<bv32>, reduced: bool, block: (bv32, bv32)) returns (out: (bv32, bv32))
    requires Keys128(k)
    ensures out == block
  {
    var sealed := Encrypt128(s, k, reduced, block);
    out := Decrypt128(s, k, reduced, sealed);
    ScheduleUndone(s, Schedule128(k), [block.0, block.1], Count128(reduced));
    assert [out.0, out.1] == [block.0, block.1];
  }

  // ---- CAST-256 --------------------------------------------------------------------------

  /** Twelve quads of keys: four turns below 32, then four masking keys. */
  ghost predicate Keys256(k: seq<bv32>) {
    |k| == 96 && forall m: nat, c: nat :: TurnAt(k, m, c)
  }

  ghost predicate TurnAt(k: seq<bv32>, m: nat, c: nat)
    requires |k| == 96
  {
    m < 12 && c < 4 ==> k[8 * m + c] < 32
  }

  /** Round `c` of a forward quad round. */
  function QRound(k: seq<bv32>, quad: nat, c: nat): Round
    requires |k| == 96 && quad < 12 && c < 4
  {
    var km, kr := k[8 * quad + (4 + c)], k[8 * quad + c];
    if c == 0 then Round(2, 3, One, km, kr)
    else if c == 1 then Round(1, 2, Two, km, kr)
    else if c == 2 then Round(0, 1, Three, km, kr)
    else Round(3, 0, One, km, kr)
  }

  /** Six forward quads, then six with their rounds in the opposite order. */
  function Round256(k: seq<bv32>, i: nat): Round
    requires |k| == 96 && i < 48
  {
    var quad, c := i / 4, i % 4;
    if quad < 6 then QRound(k, quad, c) else QRound(k, quad, 3 - c)
  }

  function Schedule256(k: seq<bv32>): nat -> Round
    requires |k| == 96
  {
    (i: nat) => if i < 48 then Round256(k, i) else NO_ROUND
  }

  lemma NumberedRound(k: seq<bv32>, quad: nat, c: nat)
    requires |k| == 96 && quad < 12 && c < 4
    ensures Round256(k, 4 * quad + c) == if quad < 6 then QRound(k, quad, c) else QRound(k, quad, 3 - c)
  {
    assert (4 * quad + c) / 4 == quad && (4 * quad + c) % 4 == c;
  }

  /** A round on four words. */
  predicate OnFour(r: Round) {
    r.target < 4 && r.source < 4 && r.target != r.source && r.kr < 32
  }

  /** Round `c` of a quad, where the schedule has it. */
  lemma QuadRound(k: seq<bv32>, quad: nat, c: nat, n: nat)
    requires Keys256(k) && quad < 12 && c < 4 && n == 4 * quad
    ensures Schedule256(k)(n + c) == QRound(k, quad, if quad < 6 then c else 3 - c)
    ensures OnFour(Schedule256(k)(n + c))
  {
    NumberedRound(k, quad, c);
    assert TurnAt(k, quad, if quad < 6 then c else 3 - c);
  }

  /** Four rounds of a schedule. */
  method EncryptFour(s: Boxes, r0: Round, r1: Round, r2: Round, r3: Round, ghost n: nat, x: array<bv32>,
                     ghost schedule: nat -> Round, ghost start: seq<bv32>)
    requires x.Length == 4 && OnFour(r0) && OnFour(r1) && OnFour(r2) && OnFour(r3)
    requires r0 == schedule(n) && r1 == schedule(n + 1) && r2 == schedule(n + 2) && r3 == schedule(n + 3)
    requires x[..] == Forward(Steps(s, schedule), start, n)
    modifies x
    ensures x[..] == Forward(Steps(s, schedule), start, n + 4)
  {
    EncryptRound(s, r0, n, x, schedule, start);
    EncryptRound(s, r1, n + 1, x, schedule, start);
    EncryptRound(s, r2, n + 2, x, schedule, start);
    EncryptRound(s, r3, n + 3, x, schedule, start);
  }

  /** A forward quad round. */
  method Q(s: Boxes, k: seq<bv32>, i: nat, x: array<bv32>, ghost start: seq<bv32>, ghost n: nat)
    requires Keys256(k) && x.Length == 4 && i < 6
    requires n == 4 * i && x[..] == Forward(Steps(s, Schedule256(k)), start, n)
    modifies x
    ensures x[..] == Forward(Steps(s, Schedule256(k)), start, n + 4)
  {
    QuadRound(k, i, 0, n);
    QuadRound(k, i, 1, n);
    QuadRound(k, i, 2, n);
    QuadRound(k, i, 3, n);
    EncryptFour(s, QRound(k, i, 0), QRound(k, i, 1), QRound(k, i, 2), QRound(k, i, 3), n, x, Schedule256(k), start);
  }

  /** A reverse quad round. */
  method QBar(s: Boxes, k: seq<bv32>, i: nat, x: array<bv32>, ghost start: seq<bv32>, ghost n: nat)
    requires Keys256(k) && x.Length == 4 && 6 <= i < 12
    requires n == 4 * i && x[..] == Forward(Steps(s, Schedule256(k)), start, n)
    modifies x
    ensures x[..] == Forward(Steps(s, Schedule256(k)), start, n + 4)
  {
    QuadRound(k, i, 0, n);
    QuadRound(k, i, 1, n);
    QuadRound(k, i, 2, n);
    QuadRound(k, i, 3, n);
    EncryptFour(s, QRound(k, i, 3), QRound(k, i, 2), QRound(k, i, 1), QRound(k, i, 0), n, x, Schedule256(k), start);
  }

  method ForwardQuads(s: Boxes, k: seq<bv32>, block: array<bv32>)
    requires Keys256(k) && block.Length == 4
    modifies block
    ensures block[..] == Forward(Steps(s, Schedule256(k)), old(block[..]), 24)
  {
    ghost var start := block[..];
    Q(s, k, 0, block, start, 0);
    Q(s, k, 1, block, start, 4);
    Q(s, k, 2, block, start, 8);
    Q(s, k, 3, block, start, 12);
    Q(s, k, 4, block, start, 16);
    Q(s, k, 5, block, start, 20);
  }

  method ReverseQuads(s: Boxes, k: seq<bv32>, block: array<bv32>, ghost start: seq<bv32>)
    requires Keys256(k) && block.Length == 4
    requires block[..] == Forward(Steps(s, Schedule256(k)), start, 24)
    modifies block
    ensures block[..] == Forward(Steps(s, Schedule256(k)), start, 48)
  {
    QBar(s, k, 6, block, start, 24);
    QBar(s, k, 7, block, start, 28);
    QBar(s, k, 8, block, start, 32);
    QBar(s, k, 9, block, start, 36);
    QBar(s, k, 10, block, start, 40);
    QBar(s, k, 11, block, start, 44);
  }

  datatype Words = Words(a: bv32, b: bv32, c: bv32, d: bv32)

  /** The quad rounds of section 2.3 of RFC 2612. */
  ghost function ForwardQuad(s: Boxes, k: seq<bv32>, i: nat, w: Words): Words
    requires Keys256(k) && i < 12
  {
    assert TurnAt(k, i, 0) && TurnAt(k, i, 1) && TurnAt(k, i, 2) && TurnAt(k, i, 3);
    var c := Add(w.c, RoundFunction(s, One, w.d, k[8 * i + 4], k[8 * i]));
    var b := Add(w.b, RoundFunction(s, Two, c, k[8 * i + 5], k[8 * i + 1]));
    var a := Add(w.a, RoundFunction(s, Three, b, k[8 * i + 6], k[8 * i + 2]));
    Words(a, b, c, Add(w.d, RoundFunction(s, One, a, k[8 * i + 7], k[8 * i + 3])))
  }

  ghost function ReverseQuad(s: Boxes, k: seq<bv32>, i: nat, w: Words): Words
    requires Keys256(k) && i < 12
  {
    assert TurnAt(k, i, 0) && TurnAt(k, i, 1) && TurnAt(k, i, 2) && TurnAt(k, i, 3);
    var d := Add(w.d, RoundFunction(s, One, w.a, k[8 * i + 7], k[8 * i + 3]));
    var a := Add(w.a, RoundFunction(s, Three, w.b, k[8 * i + 6], k[8 * i + 2]));
    var b := Add(w.b, RoundFunction(s, Two, w.c, k[8 * i + 5], k[8 * i + 1]));
    Words(a, b, Add(w.c, RoundFunction(s, One, d, k[8 * i + 4], k[8 * i])), d)
  }

  /** Six forward quad rounds and then reverse ones. */
  ghost function Quads(s: Boxes, k: seq<bv32>, w: Words, n: nat): Words
    requires Keys256(k) && n <= 12
  {
    if n == 0 then w
    else
      var before := Quads(s, k, w, n - 1);
      if n <= 6 then ForwardQuad(s, k, n - 1, before) else ReverseQuad(s, k, n - 1, before)
  }

  function FourOf(w: Words): seq<bv32> {
    [w.a, w.b, w.c, w.d]
  }

  /** Four rounds in place. */
  function FourRounds(s: Boxes, r0: Round, r1: Round, r2: Round, r3: Round, x: seq<bv32>): seq<bv32>
    requires |x| == 4 && OnFour(r0) && OnFour(r1) && OnFour(r2) && OnFour(r3)
  {
    Apply(s, r3, Apply(s, r2, Apply(s, r1, Apply(s, r0, x))))
  }

  lemma QuadIsRounds(s: Boxes, k: seq<bv32>, i: nat, w: Words)
    requires Keys256(k) && i < 12
    ensures OnFour(QRound(k, i, 0)) && OnFour(QRound(k, i, 1)) && OnFour(QRound(k, i, 2)) && OnFour(QRound(k, i, 3))
    ensures FourRounds(s, QRound(k, i, 0), QRound(k, i, 1), QRound(k, i, 2), QRound(k, i, 3), FourOf(w))
         == FourOf(ForwardQuad(s, k, i, w))
    ensures FourRounds(s, QRound(k, i, 3), QRound(k, i, 2), QRound(k, i, 1), QRound(k, i, 0), FourOf(w))
         == FourOf(ReverseQuad(s, k, i, w))
  {
    hide RoundFunction, Add;
    assert TurnAt(k, i, 0) && TurnAt(k, i, 1) && TurnAt(k, i, 2) && TurnAt(k, i, 3);
  }

  lemma NextForward(s: Boxes, schedule: nat -> Round, start: seq<bv32>, n: nat, x: seq<bv32>)
    requires |x| == 4 && x == Forward(Steps(s, schedule), start, n) && OnFour(schedule(n))
    ensures Forward(Steps(s, schedule), start, n + 1) == Apply(s, schedule(n), x)
  {
  }

  lemma ForwardFour(s: Boxes, schedule: nat -> Round, start: seq<bv32>, n: nat, x: seq<bv32>)
    requires |x| == 4 && x == Forward(Steps(s, schedule), start, n)
    requires OnFour(schedule(n)) && OnFour(schedule(n + 1)) && OnFour(schedule(n + 2)) && OnFour(schedule(n + 3))
    ensures Forward(Steps(s, schedule), start, n + 4)
         == FourRounds(s, schedule(n), schedule(n + 1), schedule(n + 2), schedule(n + 3), x)
  {
    hide Apply, Forward;
    var x1 := Apply(s, schedule(n), x);
    var x2 := Apply(s, schedule(n + 1), x1);
    NextForward(s, schedule, start, n, x);
    NextForward(s, schedule, start, n + 1, x1);
    NextForward(s, schedule, start, n + 2, x2);
    NextForward(s, schedule, start, n + 3, Apply(s, schedule(n + 2), x2));
  }

  lemma OneQuad(s: Boxes, k: seq<bv32>, start: seq<bv32>, w: Words, i: nat, m: nat)
    requires Keys256(k) && i < 12 && m == 4 * i && Forward(Steps(s, Schedule256(k)), start, m) == FourOf(w)
    ensures Forward(Steps(s, Schedule256(k)), start, m + 4)
         == FourOf(if i < 6 then ForwardQuad(s, k, i, w) else ReverseQuad(s, k, i, w))
  {
    hide RoundFunction, Add, ForwardQuad, ReverseQuad, FourRounds, QRound, Forward, Schedule256, Steps;
    QuadRound(k, i, 0, m);
    QuadRound(k, i, 1, m);
    QuadRound(k, i, 2, m);
    QuadRound(k, i, 3, m);
    assert m + 0 == m;
    ForwardFour(s, Schedule256(k), start, m, FourOf(w));
    QuadIsRounds(s, k, i, w);
  }

  /** The rounds of the schedule are the quad rounds. */
  lemma {:induction false} RoundsAreQuads(s: Boxes, k: seq<bv32>, w: Words, n: nat)
    requires Keys256(k) && n <= 12
    ensures Forward(Steps(s, Schedule256(k)), FourOf(w), 4 * n) == FourOf(Quads(s, k, w, n))
  {
    if n > 0 {
      hide RoundFunction, Add, ForwardQuad, ReverseQuad, Steps, Schedule256, Keys256, FourOf;
      RoundsAreQuads(s, k, w, n - 1);
      OneQuad(s, k, FourOf(w), Quads(s, k, w, n - 1), n - 1, 4 * (n - 1));
      assert 4 * (n - 1) + 4 == 4 * n;
    }
  }

  /** Encryption and decryption both: only the key table differs. */
  method ProcessBlock256(s: Boxes, k: seq<bv32>, block: array<bv32>)
    requires Keys256(k) && block.Length == 4
    modifies block
    ensures block[..] == Forward(Steps(s, Schedule256(k)), old(block[..]), 48)
    ensures block[..] == FourOf(Quads(s, k, old(Words(block[0], block[1], block[2], block[3])), 12))
  {
    ghost var start, words := block[..], Words(block[0], block[1], block[2], block[3]);
    RoundsAreQuads(s, k, words, 12);
    assert start == FourOf(words);
    ForwardQuads(s, k, block);
    ReverseQuads(s, k, block, start);
  }

  /** The table with its quads in the opposite order. */
  ghost predicate QuadsSwapped(k: seq<bv32>, swapped: seq<bv32>) {
    |k| == |swapped| == 96 && forall m: nat, c: nat :: SwappedAt(k, swapped, m, c)
  }

  ghost predicate SwappedAt(k: seq<bv32>, swapped: seq<bv32>, m: nat, c: nat)
    requires |k| == |swapped| == 96
  {
    m < 12 && c < 8 ==> swapped[8 * m + c] == k[8 * (11 - m) + c]
  }

  /** What the swap has done after `j` quads, and `i` keys of each half of the next. */
  ghost predicate PartSwapped(k: seq<bv32>, now: seq<bv32>, j: nat, i: nat) {
    |k| == |now| == 96 && forall m: nat, c: nat :: PartAt(k, now, j, i, m, c)
  }

  ghost predicate Done(j: nat, i: nat, m: nat, c: nat) {
    var quad := if m < 6 then m else 11 - m;
    quad < j || (quad == j && (if c < 4 then c else c - 4) < i)
  }

  ghost predicate PartAt(k: seq<bv32>, now: seq<bv32>, j: nat, i: nat, m: nat, c: nat)
    requires |k| == |now| == 96
  {
    m < 12 && c < 8 ==> if Done(j, i, m, c) then SwappedAt(k, now, m, c) else now[8 * m + c] == k[8 * m + c]
  }

  /** The two exchanges for keys `i` and `i + 4` of quad `j`. */
  lemma ExchangeStep(k: seq<bv32>, now: seq<bv32>, next: seq<bv32>, j: nat, i: nat)
    requires PartSwapped(k, now, j, i) && j < 6 && i < 4
    requires var i1, i2 := 8 * j + i, 8 * (11 - j) + i;
             next == now[i1 := now[i2]][i2 := now[i1]][i1 + 4 := now[i2 + 4]][i2 + 4 := now[i1 + 4]]
    ensures PartSwapped(k, next, j, i + 1)
  {
    var after := i + 1;
    forall m: nat, c: nat ensures PartAt(k, next, j, after, m, c) {
      if m < 12 && c < 8 {
        assert PartAt(k, now, j, i, m, c) && PartAt(k, now, j, i, 11 - m, c);
      }
    }
  }

  /** The decrypting object exchanges the first six quads with the last six, in place. */
  method SwapQuads(k: array<bv32>)
    requires k.Length == 96
    modifies k
    ensures QuadsSwapped(old(k[..]), k[..])
  {
    ghost var start := k[..];
    var j := 0;
    while j < 6
      invariant 0 <= j <= 6 && PartSwapped(start, k[..], j, 0)
    {
      var i := 0;
      while i < 4
        invariant 0 <= i <= 4 && PartSwapped(start, k[..], j, i)
      {
        ghost var now := k[..];
        var i1, i2 := 8 * j + i, 8 * (11 - j) + i;
        k[i1], k[i2] := k[i2], k[i1];
        k[i1 + 4], k[i2 + 4] := k[i2 + 4], k[i1 + 4];
        ExchangeStep(start, now, k[..], j, i);
        i := i + 1;
      }
      NextQuad(start, k[..], j);
      j := j + 1;
    }
    ghost var end := k[..];
    forall m: nat, c: nat ensures SwappedAt(start, end, m, c) {
      assert PartAt(start, end, 6, 0, m, c);
    }
  }

  lemma NextQuad(k: seq<bv32>, now: seq<bv32>, j: nat)
    requires PartSwapped(k, now, j, 4)
    ensures PartSwapped(k, now, j + 1, 0)
  {
    var next := j + 1;
    forall m: nat, c: nat ensures PartAt(k, now, next, 0, m, c) {
      assert PartAt(k, now, j, 4, m, c);
    }
  }

  /** Under the swapped table, round `i` is round `47 - i`. */
  lemma RoundSwapped(k: seq<bv32>, swapped: seq<bv32>, i: nat)
    requires QuadsSwapped(k, swapped) && i < 48
    ensures Round256(swapped, i) == Round256(k, 47 - i)
  {
    var quad, c := i / 4, i % 4;
    var d := if quad < 6 then c else 3 - c;
    assert i == 4 * quad + c && 47 - i == 4 * (11 - quad) + (3 - c);
    NumberedRound(swapped, quad, c);
    NumberedRound(k, 11 - quad, 3 - c);
    assert SwappedAt(k, swapped, quad, d) && SwappedAt(k, swapped, quad, 4 + d);
  }

  lemma KeysSwapped(k: seq<bv32>, swapped: seq<bv32>)
    requires Keys256(k) && QuadsSwapped(k, swapped)
    ensures Keys256(swapped)
  {
    forall m: nat, c: nat ensures TurnAt(swapped, m, c) {
      if m < 12 && c < 4 {
        assert SwappedAt(k, swapped, m, c) && TurnAt(k, 11 - m, c);
      }
    }
  }

  /** Decryption inverts encryption under the swapped key table. */
  lemma DecryptEncrypt256(s: Boxes, k: seq<bv32>, swapped: seq<bv32>, x: seq<bv32>)
    requires QuadsSwapped(k, swapped)
    ensures Forward(Steps(s, Schedule256(swapped)), Forward(Steps(s, Schedule256(k)), x, 48), 48) == x
  {
    var step, other := Steps(s, Schedule256(k)), Steps(s, Schedule256(swapped));
    var y := Forward(step, x, 48);
    forall i: nat, z ensures OpposedAt(step, other, 48, i, z) {
      if i < 48 {
        RoundSwapped(k, swapped, i);
      }
    }
    ForwardOpposed(step, other, y, 48, 48);
    BackwardThrough(step, y, 48, 0);
    ScheduleUndone(s, Schedule256(k), x, 48);
  }

  /** Both objects: the second with its table swapped in place. */
  method RoundTrip256(s: Boxes, k: array<bv32>, block: array<bv32>)
    requires Keys256(k[..]) && block.Length == 4 && k != block
    modifies k, block
    ensures block[..] == old(block[..])
  {
    ghost var keys, plain := k[..], block[..];
    ProcessBlock256(s, k[..], block);
    assert block[..] == Forward(Steps(s, Schedule256(keys)), plain, 48);
    SwapQuads(k);
    KeysSwapped(keys, k[..]);
    ghost var swapped := k[..];
    DecryptEncrypt256(s, keys, swapped, plain);
    assert block[..] == Forward(Steps(s, Schedule256(keys)), plain, 48);
    ProcessBlock256(s, k[..], block);
    assert block[..] == Forward(Steps(s, Schedule256(swapped)), Forward(Steps(s, Schedule256(keys)), plain, 48), 48);
  }
}
