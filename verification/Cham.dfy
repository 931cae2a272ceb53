/** Numbered rounds, and the rounds that take them back in the opposite order. */
module RoundSequences {
  /** Rounds 0 to `n`. */
  function Forward<S>(step: (nat, S) -> S, x: S, n: nat): S {
    if n == 0 then x else step(n - 1, Forward(step, x, n - 1))
  }

  /** Rounds `n` to 0. */
  function Backward<S>(step: (nat, S) -> S, x: S, n: nat): S
    decreases n
  {
    if n == 0 then x else Backward(step, step(n - 1, x), n - 1)
  }

  /** Rounds `high` to `low` only. */
  function Between<S>(step: (nat, S) -> S, x: S, high: nat, low: nat): S
    requires low <= high
    decreases high - low
  {
    if low == high then x else step(low, Between(step, x, high, low + 1))
  }

  lemma {:induction false} BackwardThrough<S>(step: (nat, S) -> S, x: S, high: nat, low: nat)
    requires low <= high
    ensures Backward(step, Between(step, x, high, low), low) == Backward(step, x, high)
    decreases high - low
  {
    if low < high {
      BackwardThrough(step, x, high, low + 1);
    }
  }

  lemma {:induction false} BetweenBetween<S>(step: (nat, S) -> S, x: S, high: nat, middle: nat, low: nat)
    requires low <= middle <= high
    ensures Between(step, Between(step, x, high, middle), middle, low) == Between(step, x, high, low)
    decreases middle - low
  {
    if low < middle {
      BetweenBetween(step, x, high, middle, low + 1);
    }
  }

  ghost predicate Opposed<S(!new)>(step: (nat, S) -> S, other: (nat, S) -> S, high: nat) {
    forall i: nat, x :: OpposedAt(step, other, high, i, x)
  }

  ghost predicate OpposedAt<S>(step: (nat, S) -> S, other: (nat, S) -> S, high: nat, i: nat, x: S) {
    i < high ==> other(i, x) == step(high - 1 - i, x)
  }

  /** Numbering the rounds from the other end runs them in the opposite order. */
  lemma {:induction false} ForwardOpposed<S(!new)>(step: (nat, S) -> S, other: (nat, S) -> S, x: S, high: nat, n: nat)
    requires Opposed(step, other, high) && n <= high
    ensures Forward(other, x, n) == Between(step, x, high, high - n)
  {
    if n > 0 {
      ForwardOpposed(step, other, x, high, n - 1);
      assert OpposedAt(step, other, high, n - 1, Forward(other, x, n - 1));
    }
  }

  ghost predicate Undoes<S(!new)>(step: (nat, S) -> S, back: (nat, S) -> S) {
    forall i: nat, x :: UndoesAt(step, back, i, x)
  }

  ghost predicate UndoesAt<S>(step: (nat, S) -> S, back: (nat, S) -> S, i: nat, x: S) {
    back(i, step(i, x)) == x
  }

  lemma {:induction false} BackwardForward<S(!new)>(step: (nat, S) -> S, back: (nat, S) -> S, x: S, n: nat)
    requires Undoes(step, back)
    ensures Backward(back, Forward(step, x, n), n) == x
  {
    if n > 0 {
      assert UndoesAt(step, back, n - 1, Forward(step, x, n - 1));
      BackwardForward(step, back, x, n - 1);
    }
  }

  lemma {:induction false} ForwardBackward<S(!new)>(step: (nat, S) -> S, back: (nat, S) -> S, x: S, n: nat)
    requires Undoes(back, step)
    ensures Forward(step, Backward(back, x, n), n) == x
    decreases n
  {
    if n > 0 {
      ForwardBackward(step, back, back(n - 1, x), n - 1);
      assert UndoesAt(back, step, n - 1, x);
    }
  }
}

/** CHAM: rounds that overwrite one word of four in place, and the rounds that take them back. */
module ChamRounds {
  import opened RoundSequences

  /** The operations of a word type. Turning takes `true` for one bit and `false` for eight. */
  datatype Operations<!W> = Operations(plus: (W, W) -> W, minus: (W, W) -> W, xor: (W, W) -> W,
                                       rotl: (bool, W) -> W, rotr: (bool, W) -> W,
                                       rotl11: W -> W, word: nat -> W)

  ghost predicate AreInverse<W(!new)>(ops: Operations<W>) {
    && (forall a, b :: SumUndone(ops, a, b))
    && (forall one, a :: TurnUndone(ops, one, a))
  }

  ghost predicate SumUndone<W>(ops: Operations<W>, a: W, b: W) {
    && ops.minus(ops.plus(a, b), b) == a
    && ops.plus(ops.minus(a, b), b) == a
    && ops.xor(ops.xor(a, b), b) == a
  }

  ghost predicate TurnUndone<W>(ops: Operations<W>, one: bool, a: W) {
    && ops.rotr(one, ops.rotl(one, a)) == a
    && ops.rotl(one, ops.rotr(one, a)) == a
  }

  // ---- Rounds ----------------------------------------------------------------------------

  /** Round `i`: the word it changes is `i % 4`, and the turns alternate. */
  function EncRound<W>(ops: Operations<W>, key: nat -> W, x: seq<W>, i: nat): (y: seq<W>)
    requires |x| == 4
    ensures |y| == 4
  {
    var even := i % 2 == 0;
    var aa := ops.xor(x[i % 4], ops.word(i));
    var bb := ops.xor(ops.rotl(even, x[(i + 1) % 4]), key(i));
    x[i % 4 := ops.rotl(!even, ops.plus(aa, bb))]
  }

  function DecRound<W>(ops: Operations<W>, key: nat -> W, x: seq<W>, i: nat): (y: seq<W>)
    requires |x| == 4
    ensures |y| == 4
  {
    var even := i % 2 == 0;
    var aa := ops.rotr(!even, x[i % 4]);
    var bb := ops.xor(ops.rotl(even, x[(i + 1) % 4]), key(i));
    x[i % 4 := ops.xor(ops.minus(aa, bb), ops.word(i))]
  }

  lemma RoundUndone<W(!new)>(ops: Operations<W>, key: nat -> W, x: seq<W>, i: nat)
    requires AreInverse(ops) && |x| == 4
    ensures DecRound(ops, key, EncRound(ops, key, x, i), i) == x
    ensures EncRound(ops, key, DecRound(ops, key, x, i), i) == x
  {
    assert (i + 1) % 4 != i % 4;
    var even, c, w := i % 2 == 0, ops.word(i), x[i % 4];
    var bb := ops.xor(ops.rotl(even, x[(i + 1) % 4]), key(i));
    assert SumUndone(ops, w, c) && SumUndone(ops, ops.xor(w, c), bb);
    assert TurnUndone(ops, !even, ops.plus(ops.xor(w, c), bb)) && TurnUndone(ops, !even, w);
    var aa := ops.rotr(!even, w);
    assert SumUndone(ops, aa, bb) && SumUndone(ops, ops.minus(aa, bb), c);
  }

  function EncStep<W>(ops: Operations<W>, key: nat -> W): (nat, seq<W>) -> seq<W>
  {
    (i: nat, x: seq<W>) => if |x| == 4 then EncRound(ops, key, x, i) else x
  }

  function DecStep<W>(ops: Operations<W>, key: nat -> W): (nat, seq<W>) -> seq<W>
  {
    (i: nat, x: seq<W>) => if |x| == 4 then DecRound(ops, key, x, i) else x
  }

  function Encrypted<W>(ops: Operations<W>, key: nat -> W, x: seq<W>, n: nat): seq<W>
  {
    Forward(EncStep(ops, key), x, n)
  }

  function Decrypted<W>(ops: Operations<W>, key: nat -> W, x: seq<W>, n: nat): seq<W>
  {
    Backward(DecStep(ops, key), x, n)
  }

  /** Decryption undoes any number of encryption rounds, and the other way round. */
  lemma RoundTrip<W(!new)>(ops: Operations<W>, key: nat -> W, x: seq<W>, n: nat)
    requires AreInverse(ops)
    ensures Decrypted(ops, key, Encrypted(ops, key, x, n), n) == x
    ensures Encrypted(ops, key, Decrypted(ops, key, x, n), n) == x
  {
    var enc, dec := EncStep(ops, key), DecStep(ops, key);
    forall i: nat, y ensures UndoesAt(enc, dec, i, y) && UndoesAt(dec, enc, i, y) {
      if |y| == 4 {
        RoundUndone(ops, key, y, i);
      }
    }
    BackwardForward(enc, dec, x, n);
    ForwardBackward(enc, dec, x, n);
  }

  // ---- The loops -------------------------------------------------------------------------

  /** One round in place; `residue` picks the words, `i` the key word and the constant. */
  method EncryptRound<W>(ops: Operations<W>, key: nat -> W, x: array<W>, residue: nat, i: nat)
    requires x.Length == 4 && residue % 4 == i % 4
    modifies x
    ensures x[..] == EncRound(ops, key, old(x[..]), i)
  {
    SameParity(residue, i);
    var idx0, idx1, idx3 := residue % 4, (residue + 1) % 4, (residue + 3 + 1) % 4;
    var even := residue % 2 == 0;
    var kk := key(i);
    var aa := ops.xor(x[idx0], ops.word(i));
    var bb := ops.xor(ops.rotl(even, x[idx1]), kk);
    x[idx3] := ops.rotl(!even, ops.plus(aa, bb));
  }

  method DecryptRound<W>(ops: Operations<W>, key: nat -> W, x: array<W>, residue: nat, i: nat)
    requires x.Length == 4 && residue % 4 == i % 4
    modifies x
    ensures x[..] == DecRound(ops, key, old(x[..]), i)
  {
    SameParity(residue, i);
    var idx0, idx1, idx3 := residue % 4, (residue + 1) % 4, (residue + 3 + 1) % 4;
    var even := residue % 2 == 0;
    var kk := key(i);
    var aa := ops.rotr(!even, x[idx3]);
    var bb := ops.xor(ops.rotl(even, x[idx1]), kk);
    x[idx0] := ops.xor(ops.minus(aa, bb), ops.word(i));
  }

  lemma SameParity(a: nat, b: nat)
    requires a % 4 == b % 4
    ensures a % 2 == b % 2 && (a + 1) % 4 == (b + 1) % 4 && (a + 4) % 4 == b % 4
  {
    Residues(a);
    Residues(b);
  }

  lemma Residues(a: nat)
    ensures a % 2 == (a % 4) % 2 && (a + 1) % 4 == (a % 4 + 1) % 4 && (a + 4) % 4 == a % 4
  {
    var q, r := a / 4, a % 4;
    assert a == 4 * q + r;
    assert a == 2 * (2 * q) + r;
    if r == 3 {
      assert a + 1 == 4 * (q + 1);
    }
  }

  /** One turn of the key table, from round `i` on. */
  method EncryptTurn<W>(ops: Operations<W>, key: nat -> W, x: array<W>, size: nat, i: nat, ghost start: seq<W>)
    requires x.Length == 4 && |start| == 4 && i % 4 == 0
    requires x[..] == Encrypted(ops, key, start, i)
    modifies x
    ensures x[..] == Encrypted(ops, key, start, i + size)
  {
    var residue := 0;
    while residue < size
      invariant 0 <= residue <= size && x[..] == Encrypted(ops, key, start, i + residue)
    {
      var round := i + residue;
      AddFours(residue, i);
      EncryptRound(ops, key, x, residue, round);
      assert x[..] == Encrypted(ops, key, start, round + 1);
      residue := residue + 1;
    }
  }

  /** The same turn downwards, ending with round `i`. */
  method DecryptTurn<W>(ops: Operations<W>, key: nat -> W, x: array<W>, size: nat, i: nat)
    requires x.Length == 4 && i % 4 == 0
    modifies x
    ensures x[..] == Between(DecStep(ops, key), old(x[..]), i + size, i)
  {
    ghost var start, step := x[..], DecStep(ops, key);
    var residue := size;
    while residue > 0
      invariant 0 <= residue <= size && x[..] == Between(step, start, i + size, i + residue)
    {
      residue := residue - 1;
      var round := i + residue;
      AddFours(residue, i);
      DecryptRound(ops, key, x, residue, round);
      assert x[..] == Between(step, start, i + size, round);
    }
  }

  lemma AddFours(a: nat, b: nat)
    requires b % 4 == 0
    ensures a % 4 == (b + a) % 4
  {
  }

  /** The key words in turn. */
  function RoundKeys<W>(k: seq<W>): nat -> W
    requires |k| > 0
  {
    i => k[i % |k|]
  }

  /** The rounds in a number of turns of the key table. */
  function Turns(n: nat, size: nat): nat {
    if n == 0 then 0 else Turns(n - 1, size) + size
  }

  lemma {:induction false} TurnsIsProduct(n: nat, size: nat)
    ensures Turns(n, size) == n * size
  {
    if n > 0 {
      TurnsIsProduct(n - 1, size);
      assert n * size == (n - 1) * size + size;
    }
  }

  lemma {:induction false} WholeTurns(n: nat, size: nat)
    requires size % 4 == 0
    ensures Turns(n, size) % 4 == 0
  {
    if n > 0 {
      WholeTurns(n - 1, size);
    }
  }

  /** All rounds, a turn of the key table at a time. */
  method EncryptBlock<W>(ops: Operations<W>, k: seq<W>, x: array<W>, turns: nat)
    requires x.Length == 4 && |k| > 0 && |k| % 4 == 0
    modifies x
    ensures x[..] == Encrypted(ops, RoundKeys(k), old(x[..]), turns * |k|)
  {
    var key := RoundKeys(k);
    ghost var start := x[..];
    var i, turn := 0, 0;
    while turn < turns
      invariant 0 <= turn <= turns && i == Turns(turn, |k|)
      invariant x[..] == Encrypted(ops, key, start, i)
    {
      WholeTurns(turn, |k|);
      EncryptTurn(ops, key, x, |k|, i, start);
      i, turn := i + |k|, turn + 1;
    }
    TurnsIsProduct(turns, |k|);
  }

  method DecryptBlock<W>(ops: Operations<W>, k: seq<W>, x: array<W>, turns: nat)
    requires x.Length == 4 && |k| > 0 && |k| % 4 == 0
    modifies x
    ensures x[..] == Decrypted(ops, RoundKeys(k), old(x[..]), turns * |k|)
  {
    TurnsIsProduct(turns, |k|);
    DecryptTurns(ops, RoundKeys(k), x, |k|, turns, turns * |k|);
    BackwardThrough(DecStep(ops, RoundKeys(k)), old(x[..]), turns * |k|, 0);
  }

  /** The turns, from the last to the first. */
  method DecryptTurns<W>(ops: Operations<W>, key: nat -> W, x: array<W>, size: nat, turns: nat, rounds: nat)
    requires x.Length == 4 && size % 4 == 0 && rounds == Turns(turns, size)
    modifies x
    ensures x[..] == Between(DecStep(ops, key), old(x[..]), rounds, 0)
  {
    ghost var start, step := x[..], DecStep(ops, key);
    var i, turn := rounds, turns;
    while turn > 0
      invariant i == Turns(turn, size)
      invariant TakenBack(step, start, rounds, i, x[..])
    {
      turn, i := turn - 1, i - size;
      WholeTurns(turn, size);
      ghost var before := x[..];
      DecryptTurn(ops, key, x, size, i);
      TakenBackNext(step, start, rounds, i + size, i, before);
    }
  }

  /** The rounds from the last down to number `i` have been taken back. */
  ghost predicate TakenBack<W>(step: (nat, seq<W>) -> seq<W>, start: seq<W>, rounds: nat, i: nat, now: seq<W>) {
    i <= rounds && now == Between(step, start, rounds, i)
  }

  lemma TakenBackNext<W>(step: (nat, seq<W>) -> seq<W>, start: seq<W>, rounds: nat, i: nat, next: nat, now: seq<W>)
    requires TakenBack(step, start, rounds, i, now) && next <= i
    ensures TakenBack(step, start, rounds, next, Between(step, now, i, next))
  {
    BetweenBetween(step, start, rounds, i, next);
  }

  // ---- The key table ---------------------------------------------------------------------

  /** `i` with its lowest bit changed. */
  function Flip(i: nat): nat {
    if i % 2 == 0 then i + 1 else i - 1
  }

  lemma FlipTwice(i: nat, n: nat)
    requires i < n && n % 2 == 0
    ensures Flip(i) < n && Flip(Flip(i)) == i
  {
  }

  lemma FlipAbove(i: nat, n: nat)
    requires n % 2 == 0
    ensures Flip(i + n) == n + Flip(i)
  {
  }

  function FirstHalf<W>(ops: Operations<W>, w: W): W {
    ops.xor(ops.xor(w, ops.rotl(true, w)), ops.rotl(false, w))
  }

  function SecondHalf<W>(ops: Operations<W>, w: W): W {
    ops.xor(ops.xor(w, ops.rotl(true, w)), ops.rotl11(w))
  }

  /** The entries made from user key word `i`: one in each half, neighbours exchanged in the second. */
  ghost predicate Entered<W>(ops: Operations<W>, userKey: seq<W>, table: seq<W>, i: nat) {
    && i < |userKey| && |userKey| + Flip(i) < |table|
    && table[i] == FirstHalf(ops, userKey[i])
    && table[|userKey| + Flip(i)] == SecondHalf(ops, userKey[i])
  }

  ghost predicate AllEntered<W>(ops: Operations<W>, userKey: seq<W>, table: seq<W>, n: nat) {
    forall i: nat :: i < n ==> Entered(ops, userKey, table, i)
  }

  /** The table after the two writes for key word `i`. */
  function Enter<W>(ops: Operations<W>, userKey: seq<W>, table: seq<W>, i: nat): seq<W>
    requires i < |userKey| && |userKey| % 2 == 0 && |table| == 2 * |userKey|
  {
    FlipTwice(i, |userKey|);
    table[i := FirstHalf(ops, userKey[i])][|userKey| + Flip(i) := SecondHalf(ops, userKey[i])]
  }

  lemma EnterNext<W>(ops: Operations<W>, userKey: seq<W>, table: seq<W>, i: nat)
    requires i < |userKey| && |userKey| % 2 == 0 && |table| == 2 * |userKey|
    requires AllEntered(ops, userKey, table, i)
    ensures AllEntered(ops, userKey, Enter(ops, userKey, table, i), i + 1)
  {
    forall j: nat | j < i + 1 ensures Entered(ops, userKey, Enter(ops, userKey, table, i), j) {
      FlipTwice(i, |userKey|);
      FlipTwice(j, |userKey|);
      assert j < i ==> Entered(ops, userKey, table, j);
    }
  }

  /** As `Flip` exchanges the indices of the second half, every entry is written. */
  method UncheckedSetKey<W(0)>(ops: Operations<W>, userKey: seq<W>) returns (rk: seq<W>)
    requires |userKey| % 2 == 0
    ensures |rk| == 2 * |userKey| && AllEntered(ops, userKey, rk, |userKey|)
    ensures rk == KeyTable(ops, userKey)
  {
    var table := new W[2 * |userKey|];
    var i := 0;
    while i < |userKey|
      invariant 0 <= i <= |userKey| && AllEntered(ops, userKey, table[..], i)
    {
      EnterNext(ops, userKey, table[..], i);
      EnterWord(ops, userKey, table, i);
      i := i + 1;
    }
    rk := table[..];
    EnteredIsTable(ops, userKey, rk);
  }

  /** Entry `i` of the table. */
  function TableEntry<W>(ops: Operations<W>, userKey: seq<W>, i: nat): W
    requires |userKey| % 2 == 0 && i < 2 * |userKey|
  {
    if i < |userKey| then FirstHalf(ops, userKey[i])
    else
      FlipTwice(i - |userKey|, |userKey|);
      SecondHalf(ops, userKey[Flip(i - |userKey|)])
  }

  function KeyTable<W>(ops: Operations<W>, userKey: seq<W>): (table: seq<W>)
    requires |userKey| % 2 == 0
    ensures |table| == 2 * |userKey|
  {
    seq(2 * |userKey|, i requires 0 <= i < 2 * |userKey| => TableEntry(ops, userKey, i))
  }

  lemma EnteredIsTable<W>(ops: Operations<W>, userKey: seq<W>, table: seq<W>)
    requires |userKey| % 2 == 0 && |table| == 2 * |userKey| && AllEntered(ops, userKey, table, |userKey|)
    ensures table == KeyTable(ops, userKey)
  {
    forall i | 0 <= i < |table| ensures table[i] == TableEntry(ops, userKey, i) {
      if i < |userKey| {
        assert Entered(ops, userKey, table, i);
      } else {
        FlipTwice(i - |userKey|, |userKey|);
        assert Entered(ops, userKey, table, Flip(i - |userKey|));
      }
    }
  }

  method EnterWord<W>(ops: Operations<W>, userKey: seq<W>, table: array<W>, i: nat)
    requires i < |userKey| && |userKey| % 2 == 0 && table.Length == 2 * |userKey|
    modifies table
    ensures table[..] == Enter(ops, userKey, old(table[..]), i)
  {
    FlipTwice(i, |userKey|);
    FlipAbove(i, |userKey|);
    var w, at := userKey[i], Flip(i + |userKey|);
    table[i] := FirstHalf(ops, w);
    table[at] := SecondHalf(ops, w);
  }
}

/** The word sizes and round counts of the three CHAM ciphers. */
module ChamCiphers {
  import opened ChamRounds

  function Plus16(a: bv16, b: bv16): bv16 {
    a + b
  }

  function Minus16(a: bv16, b: bv16): bv16 {
    a - b
  }

  function Xor16(a: bv16, b: bv16): bv16 {
    a ^ b
  }

  function RotateLeft16(one: bool, a: bv16): bv16 {
    if one then (a << 1) | (a >> 15) else (a << 8) | (a >> 8)
  }

  function RotateRight16(one: bool, a: bv16): bv16 {
    if one then (a >> 1) | (a << 15) else (a >> 8) | (a << 8)
  }

  function RotateEleven16(a: bv16): bv16 {
    (a << 11) | (a >> 5)
  }

  function Word16(n: nat): bv16 {
    (n % 0x10000) as bv16
  }

  function Operations16(): Operations<bv16> {
    Operations(Plus16, Minus16, Xor16, RotateLeft16, RotateRight16, RotateEleven16, Word16)
  }

  lemma Inverse16()
    ensures AreInverse(Operations16())
  {
    var ops := Operations16();
    forall a, b ensures SumUndone(ops, a, b) {
      Minus16Undone(a, b);
      Plus16Undone(a, b);
      Xor16Undone(a, b);
    }
    forall one, a ensures TurnUndone(ops, one, a) {
      RotateLeft16Undone(one, a);
      RotateRight16Undone(one, a);
    }
  }

  lemma Minus16Undone(a: bv16, b: bv16)
    ensures Minus16(Plus16(a, b), b) == a
  {
    assert Minus16(a + b, b) == a;
  }

  lemma Difference16(a: bv16, b: bv16)
    ensures Minus16(a, b) == a - b && Plus16(a - b, b) == a
  {
  }

  lemma Plus16Undone(a: bv16, b: bv16)
    ensures Plus16(Minus16(a, b), b) == a
  {
    hide Plus16, Minus16;
    Difference16(a, b);
  }

  lemma Xor16Undone(a: bv16, b: bv16)
    ensures Xor16(Xor16(a, b), b) == a
  {
  }

  lemma RotateLeft16Undone(one: bool, a: bv16)
    ensures RotateRight16(one, RotateLeft16(one, a)) == a
  {
    if one {
      assert RotateLeft16(true, a) == (a << 1) | (a >> 15);
    } else {
      assert RotateLeft16(false, a) == (a << 8) | (a >> 8);
    }
  }

  lemma RotateRight16Undone(one: bool, a: bv16)
    ensures RotateLeft16(one, RotateRight16(one, a)) == a
  {
    if one {
      assert RotateRight16(true, a) == (a >> 1) | (a << 15);
    } else {
      assert RotateRight16(false, a) == (a >> 8) | (a << 8);
    }
  }

  function Plus32(a: bv32, b: bv32): bv32 {
    a + b
  }

  function Minus32(a: bv32, b: bv32): bv32 {
    a - b
  }

  function Xor32(a: bv32, b: bv32): bv32 {
    a ^ b
  }

  function RotateLeft32(one: bool, a: bv32): bv32 {
    if one then (a << 1) | (a >> 31) else (a << 8) | (a >> 24)
  }

  function RotateRight32(one: bool, a: bv32): bv32 {
    if one then (a >> 1) | (a << 31) else (a >> 8) | (a << 24)
  }

  function RotateEleven32(a: bv32): bv32 {
    (a << 11) | (a >> 21)
  }

  function Word32(n: nat): bv32 {
    (n % 0x1_0000_0000) as bv32
  }

  function Operations32(): Operations<bv32> {
    Operations(Plus32, Minus32, Xor32, RotateLeft32, RotateRight32, RotateEleven32, Word32)
  }

  lemma Inverse32()
    ensures AreInverse(Operations32())
  {
    var ops := Operations32();
    forall a, b ensures SumUndone(ops, a, b) {
      Minus32Undone(a, b);
      Plus32Undone(a, b);
      Xor32Undone(a, b);
    }
    forall one, a ensures TurnUndone(ops, one, a) {
      RotateLeft32Undone(one, a);
      RotateRight32Undone(one, a);
    }
  }

  lemma Minus32Undone(a: bv32, b: bv32)
    ensures Minus32(Plus32(a, b), b) == a
  {
    assert Minus32(a + b, b) == a;
  }

  lemma Difference32(a: bv32, b: bv32)
    ensures Minus32(a, b) == a - b && Plus32(a - b, b) == a
  {
  }

  lemma Plus32Undone(a: bv32, b: bv32)
    ensures Plus32(Minus32(a, b), b) == a
  {
    hide Plus32, Minus32;
    Difference32(a, b);
  }

  lemma Xor32Undone(a: bv32, b: bv32)
    ensures Xor32(Xor32(a, b), b) == a
  {
  }

  lemma RotateLeft32Undone(one: bool, a: bv32)
    ensures RotateRight32(one, RotateLeft32(one, a)) == a
  {
    if one {
      assert RotateLeft32(true, a) == (a << 1) | (a >> 31);
    } else {
      assert RotateLeft32(false, a) == (a << 8) | (a >> 24);
    }
  }

  lemma RotateRight32Undone(one: bool, a: bv32)
    ensures RotateLeft32(one, RotateRight32(one, a)) == a
  {
    if one {
      assert RotateRight32(true, a) == (a >> 1) | (a << 31);
    } else {
      assert RotateRight32(false, a) == (a >> 8) | (a << 24);
    }
  }

  /** The ciphertext of a block. */
  function Ciphertext<W>(ops: Operations<W>, userKey: seq<W>, block: seq<W>, rounds: nat): seq<W>
    requires |userKey| > 0 && |userKey| % 2 == 0
  {
    Encrypted(ops, RoundKeys(KeyTable(ops, userKey)), block, rounds)
  }

  /** CHAM-64 encrypts in 80 rounds. */
  method Encrypt64(userKey: seq<bv16>, block: seq<bv16>) returns (ciphertext: seq<bv16>)
    requires |userKey| == 8 && |block| == 4
    ensures ciphertext == Ciphertext(Operations16(), userKey, block, 80)
  {
    var k := UncheckedSetKey(Operations16(), userKey);
    var x := new bv16[4](i requires 0 <= i < 4 => block[i]);
    assert x[..] == block;
    EncryptBlock(Operations16(), k, x, 5);
    ciphertext := x[..];
  }

  /** CHAM-128 in 80 or 96, by the size of the key. */
  method Encrypt128(userKey: seq<bv32>, block: seq<bv32>) returns (ciphertext: seq<bv32>)
    requires (|userKey| == 4 || |userKey| == 8) && |block| == 4
    ensures ciphertext == Ciphertext(Operations32(), userKey, block, if |userKey| == 4 then 80 else 96)
  {
    var k := UncheckedSetKey(Operations32(), userKey);
    var x := new bv32[4](i requires 0 <= i < 4 => block[i]);
    assert x[..] == block;
    EncryptBlock(Operations32(), k, x, if |userKey| == 4 then 10 else 6);
    ciphertext := x[..];
  }

  /** CHAM-64: 80 rounds on 16-bit words, five turns of 16 key words. */
  method Cham64(userKey: seq<bv16>, x: array<bv16>)
    requires |userKey| == 8 && x.Length == 4
    modifies x
    ensures x[..] == old(x[..])
  {
    var k := UncheckedSetKey(Operations16(), userKey);
    EncryptBlock(Operations16(), k, x, 5);
    DecryptBlock(Operations16(), k, x, 5);
    Inverse16();
    RoundTrip(Operations16(), RoundKeys(k), old(x[..]), 80);
  }

  /** CHAM-128: 80 rounds in ten turns under a 128-bit key, 96 in six under a 256-bit key. */
  method Cham128(userKey: seq<bv32>, x: array<bv32>)
    requires (|userKey| == 4 || |userKey| == 8) && x.Length == 4
    modifies x
    ensures x[..] == old(x[..])
  {
    var k := UncheckedSetKey(Operations32(), userKey);
    var turns := if |userKey| == 4 then 10 else 6;
    EncryptBlock(Operations32(), k, x, turns);
    DecryptBlock(Operations32(), k, x, turns);
    Inverse32();
    RoundTrip(Operations32(), RoundKeys(k), old(x[..]), turns * |k|);
  }
}
