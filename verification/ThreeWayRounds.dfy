/** 3-Way with fewer rounds than the decryption constant is made for: decryption does not give the block
    back, for any of the eleven remainders of the number of rounds by which the constants fail to meet. */
module ThreeWayRounds {
  import opened ByteStrings
  import opened ThreeWayCipher
  import Numbers = MachineWords

  const ZERO := Words(0, 0, 0)

  /** One round. */
  function Round(k: Words, c: bv32, a: Words): Words {
    PiGammaPi(Theta(AddKey(k, c, a)))
  }

  /** The last key and theta. */
  function Last(k: Words, c: bv32, a: Words): Words {
    Theta(AddKey(k, c, a))
  }

  /** Each state of a trace comes out of the one before. */
  predicate IsTrace(k: Words, start: bv32, trace: seq<Words>) {
    forall i :: 0 <= i < |trace| - 1 ==> StepHolds(k, start, trace, i)
  }

  predicate StepHolds(k: Words, start: bv32, trace: seq<Words>, i: nat)
    requires i < |trace| - 1
  {
    Round(k, Constant(start, i), trace[i]) == trace[i + 1]
  }

  ghost predicate StepOf<S(!new)>(theta: S -> S, p: S -> S, add: (nat, S) -> S, trace: seq<S>, i: nat)
    requires i < |trace| - 1
  {
    p(theta(add(i, trace[i]))) == trace[i + 1]
  }

  lemma {:induction false} ReachedAlong<S(!new)>(theta: S -> S, p: S -> S, add: (nat, S) -> S, trace: seq<S>, i: nat)
    requires i < |trace| && forall j: nat :: j < |trace| - 1 ==> StepOf(theta, p, add, trace, j)
    ensures Reached(theta, p, add, i, trace[0]) == trace[i]
  {
    if i > 0 {
      ReachedAlong(theta, p, add, trace, i - 1);
      assert StepOf(theta, p, add, trace, i - 1);
    }
  }

  lemma RoundIs(k: Words, start: bv32, i: nat, x: Words)
    ensures PiGammaPi(Theta(Keyed(k, start)(i, x))) == Round(k, Constant(start, i), x)
  {
  }

  lemma TraceReached(k: Words, start: bv32, trace: seq<Words>, i: nat)
    requires IsTrace(k, start, trace) && i < |trace|
    ensures Reached(Theta, PiGammaPi, Keyed(k, start), i, trace[0]) == trace[i]
  {
    hide Keyed, Round, Reached;
    forall j: nat | j < |trace| - 1 ensures StepOf(Theta, PiGammaPi, Keyed(k, start), trace, j) {
      assert StepHolds(k, start, trace, j);
      RoundIs(k, start, j, trace[j]);
    }
    ReachedAlong(Theta, PiGammaPi, Keyed(k, start), trace, i);
  }

  /** A run of as many rounds as a trace has steps. */
  lemma RunOfTrace(k: Words, start: bv32, trace: seq<Words>)
    requires IsTrace(k, start, trace) && trace != []
    ensures var n := |trace| - 1;
            Run(Theta, PiGammaPi, Keyed(k, start), n, 0, trace[0]) == Last(k, Constant(start, n), trace[n])
  {
    var n := |trace| - 1;
    TraceReached(k, start, trace, n);
    RunFromReached(Theta, PiGammaPi, Keyed(k, start), n, n, trace[0]);
  }

  lemma FirstConstants()
    ensures forall i: nat :: i < 12 ==> Constant(START_E, i) == Cycle(i)
    ensures Constant(START_D, 0) == 0xb1b1 && Constant(START_D, 1) == 0x7373 && Constant(START_D, 2) == 0xe6e6
    ensures Constant(START_D, 3) == 0xdddd && Constant(START_D, 4) == 0xabab && Constant(START_D, 5) == 0x4747
    ensures Constant(START_D, 6) == 0x8e8e && Constant(START_D, 7) == 0x0d0d && Constant(START_D, 8) == 0x1a1a
    ensures Constant(START_D, 9) == 0x3434 && Constant(START_D, 10) == 0x6868
  {
    forall i: nat | i < 12 ensures Constant(START_E, i) == Cycle(i) {
      ConstantInCycle(i);
    }
  }

  // ---- Encryption of the zero block ----------------------------------------------------------

  const ENCRYPTION: seq<Words> := [
    Words(0x00000000, 0x00000000, 0x00000000), Words(0xfffa5653, 0xfffd3f3f, 0x7a7ffffa),
    Words(0x872b2384, 0x3a400443, 0x4a25f1ce), Words(0x0c09b4b2, 0xab2ec198, 0xe5250e0a),
    Words(0x26a7c89a, 0x50a454aa, 0xf5f09bc3), Words(0xd670c886, 0x15d5af05, 0x3e57bbdd),
    Words(0x29925ea3, 0x97e3dea2, 0xb2e179ea), Words(0x4ca68882, 0xdbd63c06, 0x93e762b1),
    Words(0xe170a830, 0x81a4ee7f, 0xd3815212), Words(0x4e3a28a8, 0xd9815445, 0x428e0836),
    Words(0x61de0f9d, 0xec87c19a, 0x3d7c0dda)
  ]

  lemma FirstEncryptionSteps()
    ensures StepHolds(ZERO, START_E, ENCRYPTION, 0) && StepHolds(ZERO, START_E, ENCRYPTION, 1)
    ensures StepHolds(ZERO, START_E, ENCRYPTION, 2) && StepHolds(ZERO, START_E, ENCRYPTION, 3)
    ensures StepHolds(ZERO, START_E, ENCRYPTION, 4)
  {
    FirstConstants();
  }

  lemma LaterEncryptionSteps()
    ensures StepHolds(ZERO, START_E, ENCRYPTION, 5) && StepHolds(ZERO, START_E, ENCRYPTION, 6)
    ensures StepHolds(ZERO, START_E, ENCRYPTION, 7) && StepHolds(ZERO, START_E, ENCRYPTION, 8)
    ensures StepHolds(ZERO, START_E, ENCRYPTION, 9)
  {
    FirstConstants();
  }

  lemma Encryption()
    ensures IsTrace(ZERO, START_E, ENCRYPTION)
  {
    hide Round;
    FirstEncryptionSteps();
    LaterEncryptionSteps();
  }

  /** `trace` starts with what encryption with as many rounds made of zero, mirrored, and does not end in
      zero. */
  predicate Decrypts(trace: seq<Words>)
    requires 0 < |trace| <= 11
  {
    var n := |trace| - 1;
    && IsTrace(ZERO, START_D, trace) && trace[0] == Mu(Last(ZERO, Constant(START_E, n), ENCRYPTION[n]))
    && Last(ZERO, Constant(START_D, n), trace[n]) != ZERO
  }

  // ---- Decryption of what each number of rounds made of it -----------------------------------

  const DECRYPTION_ZERO: seq<Words> := [
    Words(0xd0d00000, 0x00000000, 0x0000d0d0)
  ]

  lemma DecryptionZero()
    ensures Decrypts(DECRYPTION_ZERO)
  {
    hide Round;
    FirstConstants();
  }

  const DECRYPTION_ONE: seq<Words> := [
    Words(0xd5d56b29, 0x29cbbf8a, 0x8a5f9595), Words(0xd0beec80, 0x0023c1b2, 0x7c80ddb1)
  ]

  lemma OneSteps()
    ensures StepHolds(ZERO, START_D, DECRYPTION_ONE, 0)
  {
    FirstConstants();
  }

  lemma DecryptionOne()
    ensures Decrypts(DECRYPTION_ONE)
  {
    hide Round;
    FirstConstants();
    OneSteps();
  }

  const DECRYPTION_TWO: seq<Words> := [
    Words(0xa8e7c7ec, 0xc7f89723, 0xd2dd69ef), Words(0xd595bbad, 0x29eafd82, 0x58df9dd7),
    Words(0x0f8adfb7, 0xc85c0ccf, 0xb94ea8dd)
  ]

  lemma TwoSteps()
    ensures StepHolds(ZERO, START_D, DECRYPTION_TWO, 0) && StepHolds(ZERO, START_D, DECRYPTION_TWO, 1)
  {
    FirstConstants();
  }

  lemma DecryptionTwo()
    ensures Decrypts(DECRYPTION_TWO)
  {
    hide Round;
    FirstConstants();
    TwoSteps();
  }

  const DECRYPTION_THREE: seq<Words> := [
    Words(0x6c1586f9, 0xe305eef6, 0x0fd6748d), Words(0xa8b21468, 0xc7d80be3, 0x375d6922),
    Words(0x94abc6d3, 0xf6319d32, 0xeccec64a), Words(0x435276fe, 0x6aeca6a7, 0x2a1ddbca)
  ]

  lemma ThreeSteps()
    ensures StepHolds(ZERO, START_D, DECRYPTION_THREE, 0) && StepHolds(ZERO, START_D, DECRYPTION_THREE, 1)
    ensures StepHolds(ZERO, START_D, DECRYPTION_THREE, 2)
  {
    FirstConstants();
  }

  lemma DecryptionThree()
    ensures Decrypts(DECRYPTION_THREE)
  {
    hide Round;
    FirstConstants();
    ThreeSteps();
  }

  const DECRYPTION_FOUR: seq<Words> := [
    Words(0x45a639a6, 0x4202b77f, 0xea47423a), Words(0x6c496819, 0xe30c92b6, 0x11d67e5a),
    Words(0x28d11152, 0xaa1705df, 0x247073e4), Words(0x7042f3c1, 0x6de98093, 0x3e3b9d6e),
    Words(0x30529edd, 0x63395cc0, 0xeb6fc444)
  ]

  lemma FourSteps()
    ensures StepHolds(ZERO, START_D, DECRYPTION_FOUR, 0) && StepHolds(ZERO, START_D, DECRYPTION_FOUR, 1)
    ensures StepHolds(ZERO, START_D, DECRYPTION_FOUR, 2) && StepHolds(ZERO, START_D, DECRYPTION_FOUR, 3)
  {
    FirstConstants();
  }

  lemma DecryptionFour()
    ensures Decrypts(DECRYPTION_FOUR)
  {
    hide Round;
    FirstConstants();
    FourSteps();
  }

  const DECRYPTION_FIVE: seq<Words> := [
    Words(0x4c5c10bd, 0xeb855c96, 0x279c485b), Words(0x45b90e8a, 0x420b4c45, 0x95c74347),
    Words(0xde1c9e94, 0xcb8bf7b0, 0x68797fa8), Words(0xae08992c, 0xa5dc5ce0, 0x5b7924c4),
    Words(0xdc9825de, 0x8fe37bce, 0x064a2ad7), Words(0x79f8b0f2, 0x7258fafb, 0xcd7aff68)
  ]

  lemma FiveSteps()
    ensures StepHolds(ZERO, START_D, DECRYPTION_FIVE, 0) && StepHolds(ZERO, START_D, DECRYPTION_FIVE, 1)
    ensures StepHolds(ZERO, START_D, DECRYPTION_FIVE, 2) && StepHolds(ZERO, START_D, DECRYPTION_FIVE, 3)
    ensures StepHolds(ZERO, START_D, DECRYPTION_FIVE, 4)
  {
    FirstConstants();
  }

  lemma DecryptionFive()
    ensures Decrypts(DECRYPTION_FIVE)
  {
    hide Round;
    FirstConstants();
    FiveSteps();
  }

  const DECRYPTION_SIX: seq<Words> := [
    Words(0x1f3c5cc5, 0xef8285bd, 0xf65f7047), Words(0x4c273bb5, 0xeb8c3836, 0x3c9c4641),
    Words(0x7768c473, 0xc8b7ec77, 0xb0e75a55), Words(0xd1708619, 0xfd01c0f1, 0x509c35ec),
    Words(0x0bf8fa77, 0xab6f5960, 0xe11793b2), Words(0x4ff1d0cb, 0xdb9d1f15, 0xd7fb0e25),
    Words(0xc0d9c5d5, 0x881b9d34, 0xf24d03b4)
  ]

  lemma SixSteps()
    ensures StepHolds(ZERO, START_D, DECRYPTION_SIX, 0) && StepHolds(ZERO, START_D, DECRYPTION_SIX, 1)
    ensures StepHolds(ZERO, START_D, DECRYPTION_SIX, 2) && StepHolds(ZERO, START_D, DECRYPTION_SIX, 3)
    ensures StepHolds(ZERO, START_D, DECRYPTION_SIX, 4) && StepHolds(ZERO, START_D, DECRYPTION_SIX, 5)
  {
    FirstConstants();
  }

  lemma DecryptionSix()
    ensures Decrypts(DECRYPTION_SIX)
  {
    hide Round;
    FirstConstants();
    SixSteps();
  }

  const DECRYPTION_SEVEN: seq<Words> := [
    Words(0x1a4beaa3, 0x6358d8de, 0xfc1afc31), Words(0x1f31798d, 0xef86950d, 0x5b5f714a),
    Words(0xe9f6321a, 0x374056b5, 0xe7c51e09), Words(0x6c715111, 0xf853cc52, 0x57f6fbe9),
    Words(0x95130611, 0x15a7a694, 0x61f3b479), Words(0x94b064cc, 0xdb37aa47, 0xae53e9a1),
    Words(0x3e921ae7, 0xa38c4d32, 0x841e9f70), Words(0xe15d3b20, 0x3aff8e4f, 0x8cb89a98)
  ]

  lemma SevenSteps()
    ensures StepHolds(ZERO, START_D, DECRYPTION_SEVEN, 0) && StepHolds(ZERO, START_D, DECRYPTION_SEVEN, 1)
    ensures StepHolds(ZERO, START_D, DECRYPTION_SEVEN, 2) && StepHolds(ZERO, START_D, DECRYPTION_SEVEN, 3)
    ensures StepHolds(ZERO, START_D, DECRYPTION_SEVEN, 4) && StepHolds(ZERO, START_D, DECRYPTION_SEVEN, 5)
    ensures StepHolds(ZERO, START_D, DECRYPTION_SEVEN, 6)
  {
    FirstConstants();
  }

  lemma DecryptionSeven()
    ensures Decrypts(DECRYPTION_SEVEN)
  {
    hide Round;
    FirstConstants();
    SevenSteps();
  }

  const DECRYPTION_EIGHT: seq<Words> := [
    Words(0x4ec9870f, 0x0d467a7c, 0xa61dfdf1), Words(0x1a7c6c13, 0x6349d25e, 0x8a1af8c7),
    Words(0x0a723296, 0xfbdc49e6, 0xe5929b6f), Words(0x78d2dc69, 0xaedb2139, 0x7869a5f2),
    Words(0xc0ef295f, 0x270b907a, 0x82bf921d), Words(0x6450dd4f, 0x212650fd, 0x325b2cec),
    Words(0xd95c9e9e, 0x672f9a34, 0x64bcf3fb), Words(0x6f98a8fb, 0x206d69a5, 0x26a7ee59),
    Words(0x9f2f661f, 0xa05b7159, 0xee211d52)
  ]

  lemma EightSteps()
    ensures StepHolds(ZERO, START_D, DECRYPTION_EIGHT, 0) && StepHolds(ZERO, START_D, DECRYPTION_EIGHT, 1)
    ensures StepHolds(ZERO, START_D, DECRYPTION_EIGHT, 2) && StepHolds(ZERO, START_D, DECRYPTION_EIGHT, 3)
    ensures StepHolds(ZERO, START_D, DECRYPTION_EIGHT, 4) && StepHolds(ZERO, START_D, DECRYPTION_EIGHT, 5)
    ensures StepHolds(ZERO, START_D, DECRYPTION_EIGHT, 6) && StepHolds(ZERO, START_D, DECRYPTION_EIGHT, 7)
  {
    FirstConstants();
  }

  lemma DecryptionEight()
    ensures Decrypts(DECRYPTION_EIGHT)
  {
    hide Round;
    FirstConstants();
    EightSteps();
  }

  const DECRYPTION_NINE: seq<Words> := [
    Words(0xe5120bf0, 0x2a6a16ca, 0x70b72782), Words(0x4ee270c7, 0x0d53bff0, 0x6d9dfdfa),
    Words(0xc4e545e1, 0x8860b67d, 0x7352f483), Words(0xf3481dd9, 0x8ce79ea5, 0x49817c26),
    Words(0x50dbc8d6, 0x94a27a47, 0x6f8eb667), Words(0x49417441, 0x4a56606d, 0x3d46c7c3),
    Words(0x9fa354b8, 0x9c3d9c40, 0x23f1add4), Words(0x2c72b22a, 0x99bfba92, 0xeb9147ba),
    Words(0x9ee04c89, 0x66660977, 0x8dc5c037), Words(0xdd2f44f6, 0x6da3d114, 0xaaf12b33)
  ]

  lemma NineSteps()
    ensures StepHolds(ZERO, START_D, DECRYPTION_NINE, 0) && StepHolds(ZERO, START_D, DECRYPTION_NINE, 1)
    ensures StepHolds(ZERO, START_D, DECRYPTION_NINE, 2) && StepHolds(ZERO, START_D, DECRYPTION_NINE, 3)
    ensures StepHolds(ZERO, START_D, DECRYPTION_NINE, 4) && StepHolds(ZERO, START_D, DECRYPTION_NINE, 5)
    ensures StepHolds(ZERO, START_D, DECRYPTION_NINE, 6) && StepHolds(ZERO, START_D, DECRYPTION_NINE, 7)
    ensures StepHolds(ZERO, START_D, DECRYPTION_NINE, 8)
  {
    FirstConstants();
  }

  lemma DecryptionNine()
    ensures Decrypts(DECRYPTION_NINE)
  {
    hide Round;
    FirstConstants();
    NineSteps();
  }

  const DECRYPTION_TEN: seq<Words> := [
    Words(0xbe2d81fb, 0x3715af37, 0x26214fca), Words(0xe57363f0, 0x2a7a12ce, 0x11b727cb),
    Words(0x57c57bc7, 0x10e07e10, 0x6ab591a5), Words(0x39d6ab1f, 0x2d3b1e19, 0x6b5cd3e8),
    Words(0x633c88d8, 0x8ae6c62c, 0x28b290a2), Words(0x3e1fc70f, 0x3de22818, 0x391f60c6),
    Words(0x2b2bf568, 0x4815e08f, 0xd7bc4269), Words(0xe6595591, 0x5d1827c8, 0x0cf71a98),
    Words(0xcce1168d, 0x5ab04bbf, 0xb05f44ab), Words(0xcd0fbfd3, 0x521f4136, 0x7ce01636),
    Words(0x36680973, 0x2782f431, 0xcbf76990)
  ]

  lemma FirstTenSteps()
    ensures StepHolds(ZERO, START_D, DECRYPTION_TEN, 0) && StepHolds(ZERO, START_D, DECRYPTION_TEN, 1)
    ensures StepHolds(ZERO, START_D, DECRYPTION_TEN, 2) && StepHolds(ZERO, START_D, DECRYPTION_TEN, 3)
    ensures StepHolds(ZERO, START_D, DECRYPTION_TEN, 4)
  {
    FirstConstants();
  }

  lemma LaterTenSteps()
    ensures StepHolds(ZERO, START_D, DECRYPTION_TEN, 5) && StepHolds(ZERO, START_D, DECRYPTION_TEN, 6)
    ensures StepHolds(ZERO, START_D, DECRYPTION_TEN, 7) && StepHolds(ZERO, START_D, DECRYPTION_TEN, 8)
    ensures StepHolds(ZERO, START_D, DECRYPTION_TEN, 9)
  {
    FirstConstants();
  }

  lemma DecryptionTen()
    ensures Decrypts(DECRYPTION_TEN)
  {
    hide Round;
    FirstConstants();
    FirstTenSteps();
    LaterTenSteps();
  }

  // ---- All of them ---------------------------------------------------------------------------

  lemma TraceDiffers(trace: seq<Words>)
    requires 0 < |trace| <= 11 && Decrypts(trace)
    ensures var n := |trace| - 1;
            Decrypted(DecryptionKey(ZERO), n, Encrypted(ZERO, n, ZERO)) != ZERO
  {
    hide Round, Last;
    var n := |trace| - 1;
    Encryption();
    Prefix(n);
    RunOfTrace(ZERO, START_E, ENCRYPTION[..n + 1]);
    RunOfTrace(ZERO, START_D, trace);
    ZeroKey();
    MuTwice(Last(ZERO, Constant(START_D, n), trace[n]));
  }

  lemma Prefix(n: nat)
    requires n < 11 && IsTrace(ZERO, START_E, ENCRYPTION)
    ensures IsTrace(ZERO, START_E, ENCRYPTION[..n + 1]) && ENCRYPTION[0] == ZERO
  {
    hide Round;
    var trace := ENCRYPTION[..n + 1];
    forall i | 0 <= i < n ensures StepHolds(ZERO, START_E, trace, i) {
      assert StepHolds(ZERO, START_E, ENCRYPTION, i);
    }
  }

  lemma ZeroKey()
    ensures DecryptionKey(ZERO) == ZERO && Mu(ZERO) == ZERO
  {
  }

  /** Zero does not come back after fewer than eleven rounds under the zero key. */
  lemma FewRoundsDiffer(rounds: nat)
    requires rounds < 11
    ensures Decrypted(DecryptionKey(ZERO), rounds, Encrypted(ZERO, rounds, ZERO)) != ZERO
  {
    hide Decrypts;
    match rounds {
      case 0 => DecryptionZero(); TraceDiffers(DECRYPTION_ZERO);
      case 1 => DecryptionOne(); TraceDiffers(DECRYPTION_ONE);
      case 2 => DecryptionTwo(); TraceDiffers(DECRYPTION_TWO);
      case 3 => DecryptionThree(); TraceDiffers(DECRYPTION_THREE);
      case 4 => DecryptionFour(); TraceDiffers(DECRYPTION_FOUR);
      case 5 => DecryptionFive(); TraceDiffers(DECRYPTION_FIVE);
      case 6 => DecryptionSix(); TraceDiffers(DECRYPTION_SIX);
      case 7 => DecryptionSeven(); TraceDiffers(DECRYPTION_SEVEN);
      case 8 => DecryptionEight(); TraceDiffers(DECRYPTION_EIGHT);
      case 9 => DecryptionNine(); TraceDiffers(DECRYPTION_NINE);
      case _ => DecryptionTen(); TraceDiffers(DECRYPTION_TEN);
    }
  }

  ghost predicate ComesBack(rounds: nat, k: Words, block: Words) {
    Decrypted(DecryptionKey(k), rounds, Encrypted(k, rounds, block)) == block
  }

  /** Of the first twelve numbers of rounds only eleven, the default, gives back every block. */
  lemma OnlyEleven(rounds: nat)
    requires rounds < 12
    ensures (forall k: Words, block: Words :: ComesBack(rounds, k, block)) <==> rounds == 11
  {
    if rounds == 11 {
      MeetingRounds(rounds);
      forall k: Words, block: Words ensures ComesBack(rounds, k, block) {
        DecryptEncrypt(k, rounds, block);
      }
    } else {
      FewRoundsDiffer(rounds);
      assert !ComesBack(rounds, ZERO, ZERO);
    }
  }

  // ---- A published vector --------------------------------------------------------------------

  const USER_KEY: Bytes := [0xde, 0xf0, 0x12, 0x34, 0x45, 0x67, 0x89, 0xab, 0xbc, 0xde, 0xf0, 0x12]
  const KEY := Words(0xdef01234, 0x456789ab, 0xbcdef012)
  const PLAIN := Words(0x23456789, 0x9abcdef0, 0x01234567)
  const CIPHER := Words(0x0aa55dbb, 0x9cdddb6d, 0x7cdb76b2)

  const STATES: seq<Words> := [
    Words(0x23456789, 0x9abcdef0, 0x01234567), Words(0x07759791, 0x8e287005, 0x41c332b7),
    Words(0xeddd724a, 0x6faa67e7, 0x3821cf66), Words(0x06ff973a, 0xd0c99379, 0x06c69350),
    Words(0x4b4cb7ae, 0x7f80c173, 0x24a6c300), Words(0xcb8d33d7, 0x90183abc, 0x1c433a93),
    Words(0xd2602ee2, 0xe7352d65, 0x75b05de2), Words(0xe1271e36, 0xebf5c4e0, 0x6323e9df),
    Words(0x90bc9807, 0x3337f1e4, 0xc11f2c37), Words(0x6b4d5d7a, 0xf403b394, 0xf44c33f0),
    Words(0x497d3b23, 0x15890537, 0x27a2d6f1), Words(0xabf1b0a0, 0xfb480c54, 0x434a24d9)
  ]

  lemma EarlyStates()
    ensures StepHolds(KEY, START_E, STATES, 0) && StepHolds(KEY, START_E, STATES, 1)
    ensures StepHolds(KEY, START_E, STATES, 2)
  {
    FirstConstants();
  }

  lemma MiddleStates()
    ensures StepHolds(KEY, START_E, STATES, 3) && StepHolds(KEY, START_E, STATES, 4)
    ensures StepHolds(KEY, START_E, STATES, 5)
  {
    FirstConstants();
  }

  lemma LastStates()
    ensures StepHolds(KEY, START_E, STATES, 6) && StepHolds(KEY, START_E, STATES, 7)
    ensures StepHolds(KEY, START_E, STATES, 8) && StepHolds(KEY, START_E, STATES, 9)
    ensures StepHolds(KEY, START_E, STATES, 10)
    ensures Last(KEY, Constant(START_E, 11), STATES[11]) == CIPHER
  {
    FirstConstants();
  }

  lemma KnownAnswer()
    ensures Encrypted(KEY, 11, PLAIN) == CIPHER
  {
    hide Round, Last;
    EarlyStates();
    MiddleStates();
    LastStates();
    RunOfTrace(KEY, START_E, STATES);
  }

  lemma BytesOfWord(s: Bytes, at: nat)
    requires at + 4 <= |s|
    ensures var w := BigEndianWord(s, at);
            && Numbers.Byte3(w) == s[at] && Numbers.Byte2(w) == s[at + 1] && Numbers.Byte1(w) == s[at + 2]
            && Numbers.Byte0(w) == s[at + 3]
  {
  }

  /** A key word has the octets of the user key for its digits in base 256, the first one highest. */
  lemma KeyWordNumber(s: Bytes, at: nat)
    requires at + 4 <= |s|
    ensures Numbers.Value(BigEndianWord(s, at))
         == 0x100_0000 * (s[at] as nat) + 0x1_0000 * (s[at + 1] as nat)
            + 0x100 * (s[at + 2] as nat) + (s[at + 3] as nat)
  {
    hide BigEndianWord, Numbers.Value;
    BytesOfWord(s, at);
    Numbers.BytesAreDigits(BigEndianWord(s, at));
  }

  /** The words of the user key. */
  lemma VectorKey()
    ensures KeyWords(USER_KEY) == KEY
  {
  }

  /** Through the objects: the key comes in octets, and the ciphertext goes back. */
  method EncryptVector() returns (sealed: Words, plain: Words)
    ensures sealed == CIPHER && plain == PLAIN
  {
    hide KeyWords;
    var encryption := new ThreeWay(true);
    var decryption := new ThreeWay(false);
    var ok := encryption.UncheckedSetKey(USER_KEY, 11);
    ok := decryption.UncheckedSetKey(USER_KEY, 11);
    sealed := encryption.EncryptBlock(PLAIN);
    plain := decryption.DecryptBlock(sealed);
    VectorKey();
    KnownAnswer();
    MeetingRounds(11);
    DecryptEncrypt(KEY, 11, PLAIN);
  }
}
