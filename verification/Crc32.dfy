/**
 * The table-driven CRC-32 of cpp/storage/snapshot.cpp against the bit-at-a-time
 * reflected CRC-32 (section 8 of RFC 1952).
 */
module Crc32 {

  const POLYNOMIAL: bv32 := 0xEDB8_8320
  const BYTE_BITS: nat := 8

  // ----- registers over any words

  function Iterate<T>(step: T -> T, x: T, n: nat): T
    decreases n
  {
    if n == 0 then x else Iterate(step, step(x), n - 1)
  }

  /** Feeds n bits into a register: `low` reads the lowest bit of the word and `shift` drops it. */
  function Feed<T>(step: T -> T, xor: (T, T) -> T, low: T -> T, shift: T -> T, c: T, word: T, n: nat): T
    decreases n
  {
    if n == 0 then c else Feed(step, xor, low, shift, step(xor(c, low(word))), shift(word), n - 1)
  }

  function Fold<T>(feed: (T, bv8) -> T, c: T, data: seq<bv8>): T {
    if data == [] then c else feed(Fold(feed, c, data[..|data| - 1]), data[|data| - 1])
  }

  /** A step that respects xor can be taken on the parts. */
  lemma {:induction false} IterateLinear<T(!new)>(step: T -> T, xor: (T, T) -> T, a: T, b: T, n: nat)
    requires forall x, y :: step(xor(x, y)) == xor(step(x), step(y))
    ensures Iterate(step, xor(a, b), n) == xor(Iterate(step, a, n), Iterate(step, b, n))
    decreases n
  {
    if n > 0 { IterateLinear(step, xor, step(a), step(b), n - 1); }
  }

  /** Feeding bits one at a time is xoring the whole word in first, up to the bits not yet fed. */
  lemma {:induction false} FeedIsIterate<T(!new)>(step: T -> T, xor: (T, T) -> T, low: T -> T, shift: T -> T,
                                                  c: T, word: T, n: nat)
    requires forall x, w :: step(xor(x, w)) == xor(step(xor(x, low(w))), shift(w))
    ensures Iterate(step, xor(c, word), n) == xor(Feed(step, xor, low, shift, c, word, n), Iterate(shift, word, n))
    decreases n
  {
    if n > 0 { FeedIsIterate(step, xor, low, shift, step(xor(c, low(word))), shift(word), n - 1); }
  }

  /** The step only shifts, n times in a row. */
  predicate OnlyShifts<T(==)>(step: T -> T, shift: T -> T, y: T, n: nat)
    decreases n
  {
    n == 0 || (step(y) == shift(y) && OnlyShifts(step, shift, shift(y), n - 1))
  }

  lemma {:induction false} IterateShifts<T>(step: T -> T, shift: T -> T, y: T, n: nat)
    requires OnlyShifts(step, shift, y, n)
    ensures Iterate(step, y, n) == Iterate(shift, y, n)
    decreases n
  {
    if n > 0 { IterateShifts(step, shift, shift(y), n - 1); }
  }

  /** A lookup of the low byte and a shift of the rest do the work of feeding one bit at a time. */
  lemma LookupIsFeed<T(!new)>(step: T -> T, xor: (T, T) -> T, low: T -> T, shift: T -> T,
                              c: T, word: T, part: T, rest: T, shifted: T, zero: T)
    requires forall x, y :: step(xor(x, y)) == xor(step(x), step(y))
    requires forall x, w :: step(xor(x, w)) == xor(step(xor(x, low(w))), shift(w))
    requires forall x :: xor(x, zero) == x
    requires Iterate(shift, word, BYTE_BITS) == zero
    requires xor(c, word) == xor(part, rest)
    requires OnlyShifts(step, shift, rest, BYTE_BITS) && Iterate(shift, rest, BYTE_BITS) == shifted
    ensures Feed(step, xor, low, shift, c, word, BYTE_BITS) == xor(Iterate(step, part, BYTE_BITS), shifted)
  {
    FeedIsIterate(step, xor, low, shift, c, word, BYTE_BITS);
    IterateLinear(step, xor, part, rest, BYTE_BITS);
    IterateShifts(step, shift, rest, BYTE_BITS);
  }

  lemma {:induction false} FoldConcat<T>(feed: (T, bv8) -> T, c: T, a: seq<bv8>, b: seq<bv8>)
    ensures Fold(feed, c, a + b) == Fold(feed, Fold(feed, c, a), b)
    decreases |b|
  {
    if b == [] {
      assert a + b == a;
    } else {
      FoldConcat(feed, c, a, b[..|b| - 1]);
      assert (a + b)[..|a + b| - 1] == a + b[..|b| - 1];
    }
  }

  // ----- the 32-bit register

  function Step(c: bv32): bv32 {
    if c & 1 == 1 then POLYNOMIAL ^ (c >> 1) else c >> 1
  }

  function Xor(a: bv32, b: bv32): bv32 { a ^ b }

  function Not(a: bv32): bv32 { !a }

  function LowBit(w: bv32): bv32 { w & 1 }

  function Half(w: bv32): bv32 { w >> 1 }

  function LowByte(w: bv32): bv32 { w & 0xFF }

  function HighBytes(w: bv32): bv32 { w & 0xFFFF_FF00 }

  function Word(b: bv8): bv32 { b as bv32 }

  /** Eight steps of the register: what `initCRC` stores for each byte. */
  function Steps8(c: bv32): bv32 {
    Iterate(Step, c, BYTE_BITS)
  }

  /** The register after the eight bits of a byte, lowest first. */
  function FeedByte(c: bv32, b: bv8): bv32 {
    Feed(Step, Xor, LowBit, Half, c, Word(b), BYTE_BITS)
  }

  /** The checksum, continued from an earlier one: the register is inverted at both ends. */
  function Crc(crc: bv32, data: seq<bv8>): bv32 {
    Not(Fold(FeedByte, Not(crc), data))
  }

  lemma XorBoth(u: bv32, v: bv32)
    ensures Xor(Xor(POLYNOMIAL, u), Xor(POLYNOMIAL, v)) == Xor(u, v)
  {
  }

  lemma XorLeft(u: bv32, v: bv32)
    ensures Xor(Xor(POLYNOMIAL, u), v) == Xor(POLYNOMIAL, Xor(u, v))
  {
  }

  lemma XorRight(u: bv32, v: bv32)
    ensures Xor(u, Xor(POLYNOMIAL, v)) == Xor(POLYNOMIAL, Xor(u, v))
  {
  }

  lemma HalfXor(a: bv32, b: bv32)
    ensures Half(Xor(a, b)) == Xor(Half(a), Half(b))
  {
  }

  predicate Odd(c: bv32) { c & 1 == 1 }

  lemma OddXor(a: bv32, b: bv32)
    ensures Odd(Xor(a, b)) == (Odd(a) != Odd(b))
  {
  }

  lemma StepIs(c: bv32)
    ensures Odd(c) ==> Step(c) == Xor(POLYNOMIAL, Half(c))
    ensures !Odd(c) ==> Step(c) == Half(c)
  {
  }

  lemma StepXorOdd(a: bv32, b: bv32)
    requires Odd(a)
    ensures Step(Xor(a, b)) == Xor(Step(a), Step(b))
  {
    StepIs(a);
    StepIs(b);
    StepIs(Xor(a, b));
    OddXor(a, b);
    HalfXor(a, b);
    if Odd(b) { XorBoth(Half(a), Half(b)); } else { XorLeft(Half(a), Half(b)); }
  }

  lemma StepXorEven(a: bv32, b: bv32)
    requires !Odd(a)
    ensures Step(Xor(a, b)) == Xor(Step(a), Step(b))
  {
    StepIs(a);
    StepIs(b);
    StepIs(Xor(a, b));
    OddXor(a, b);
    HalfXor(a, b);
    if Odd(b) { XorRight(Half(a), Half(b)); }
  }

  /** The step respects xor. */
  lemma StepXor(a: bv32, b: bv32)
    ensures Step(Xor(a, b)) == Xor(Step(a), Step(b))
  {
    if Odd(a) { StepXorOdd(a, b); } else { StepXorEven(a, b); }
  }

  function EvenPart(b: bv32): bv32 { b & 0xFFFF_FFFE }

  lemma SplitLowBit(c: bv32, b: bv32)
    ensures Xor(c, b) == Xor(Xor(c, LowBit(b)), EvenPart(b))
  {
  }

  lemma StepEvenPart(b: bv32)
    ensures Step(EvenPart(b)) == Half(b)
  {
  }

  lemma StepSplitsLowBit(c: bv32, b: bv32)
    ensures Step(Xor(c, b)) == Xor(Step(Xor(c, LowBit(b))), Half(b))
  {
    SplitLowBit(c, b);
    StepXor(Xor(c, LowBit(b)), EvenPart(b));
    StepEvenPart(b);
  }


  // ----- the table

  lemma SplitLowByte(c: bv32, b: bv8)
    ensures Xor(c, Word(b)) == Xor(LowByte(Xor(c, Word(b))), HighBytes(c))
  {
  }

  lemma XorZero(c: bv32)
    ensures Xor(c, 0) == c
  {
  }

  lemma IterateEight<T>(step: T -> T, x: T)
    ensures Iterate(step, x, BYTE_BITS) == step(step(step(step(step(step(step(step(x))))))))
  {
    assert Iterate(step, x, 8) == Iterate(step, step(step(x)), 6);
    assert Iterate(step, step(step(x)), 6) == Iterate(step, step(step(step(step(x)))), 4);
    assert Iterate(step, step(step(step(step(x)))), 4) == Iterate(step, step(step(step(step(step(step(x)))))), 2);
  }

  function Half8(w: bv32): bv32 {
    Half(Half(Half(Half(Half(Half(Half(Half(w))))))))
  }

  lemma ByteShiftsOut(b: bv8)
    ensures Iterate(Half, Word(b), BYTE_BITS) == 0
  {
    IterateEight(Half, Word(b));
    HalfByte(b);
  }

  lemma HalfByte(b: bv8)
    ensures Half8(Word(b)) == 0
  {
  }

  function ShiftByte(w: bv32): bv32 { w >> 8 }

  lemma HalfHigh(c: bv32)
    ensures Half8(HighBytes(c)) == ShiftByte(c)
  {
  }

  lemma HighShifts(c: bv32)
    ensures Iterate(Half, HighBytes(c), BYTE_BITS) == ShiftByte(c)
  {
    IterateEight(Half, HighBytes(c));
    HalfHigh(c);
  }

  /** The n low bits of a word are clear. */
  predicate LowClear(y: bv32, n: nat)
    decreases n
  {
    n == 0 || (!Odd(y) && LowClear(Half(y), n - 1))
  }

  lemma {:induction false} ClearOnlyShifts(y: bv32, n: nat)
    requires LowClear(y, n)
    ensures OnlyShifts(Step, Half, y, n)
    decreases n
  {
    if n > 0 {
      StepIs(y);
      ClearOnlyShifts(Half(y), n - 1);
    }
  }

  lemma EvenChain(c: bv32)
    ensures var y := HighBytes(c);
            && !Odd(y) && !Odd(Half(y)) && !Odd(Half(Half(y))) && !Odd(Half(Half(Half(y))))
            && !Odd(Half(Half(Half(Half(y))))) && !Odd(Half(Half(Half(Half(Half(y))))))
            && !Odd(Half(Half(Half(Half(Half(Half(y))))))) && !Odd(Half(Half(Half(Half(Half(Half(Half(y))))))))
  {
  }

  lemma HighIsClear(c: bv32)
    ensures LowClear(HighBytes(c), BYTE_BITS)
  {
    EvenChain(c);
    var y := HighBytes(c);
    var z := Half(Half(Half(Half(y))));
    assert LowClear(z, 4) by { assert LowClear(Half(Half(z)), 2); }
    assert LowClear(Half(Half(y)), 6);
  }

  /** One table lookup does the work of eight single-bit steps. */
  lemma TableStep(c: bv32, b: bv8)
    ensures FeedByte(c, b) == Xor(Steps8(LowByte(Xor(c, Word(b)))), ShiftByte(c))
  {
    forall x, y ensures Step(Xor(x, y)) == Xor(Step(x), Step(y)) { StepXor(x, y); }
    forall x, w ensures Step(Xor(x, w)) == Xor(Step(Xor(x, LowBit(w))), Half(w)) { StepSplitsLowBit(x, w); }
    forall x ensures Xor(x, 0) == x { XorZero(x); }
    ByteShiftsOut(b);
    SplitLowByte(c, b);
    HighIsClear(c);
    ClearOnlyShifts(HighBytes(c), BYTE_BITS);
    HighShifts(c);
    LookupIsFeed(Step, Xor, LowBit, Half, c, Word(b), LowByte(Xor(c, Word(b))), HighBytes(c), ShiftByte(c), 0);
  }

  lemma DoubleNot(c: bv32)
    ensures Not(Not(c)) == c
  {
  }

  /** Chunking does not matter: continuing a checksum is the checksum of the whole. */
  lemma CrcConcat(crc: bv32, a: seq<bv8>, b: seq<bv8>)
    ensures Crc(Crc(crc, a), b) == Crc(crc, a + b)
  {
    FoldConcat(FeedByte, Not(crc), a, b);
    DoubleNot(Fold(FeedByte, Not(crc), a));
  }

  // ----- a changed byte always changes the checksum

  lemma {:induction false} IterateInjective<T(!new)>(step: T -> T, a: T, b: T, n: nat)
    requires forall x, y :: step(x) == step(y) ==> x == y
    requires Iterate(step, a, n) == Iterate(step, b, n)
    ensures a == b
    decreases n
  {
    if n > 0 { IterateInjective(step, step(a), step(b), n - 1); }
  }

  lemma {:induction false} FoldInjective<T(!new)>(feed: (T, bv8) -> T, c: T, d: T, data: seq<bv8>)
    requires forall x, y, b :: feed(x, b) == feed(y, b) ==> x == y
    requires Fold(feed, c, data) == Fold(feed, d, data)
    ensures c == d
    decreases |data|
  {
    if data != [] { FoldInjective(feed, c, d, data[..|data| - 1]); }
  }

  lemma OnlyZeroStepsToZero(x: bv32)
    requires Step(x) == 0
    ensures x == 0
  {
  }

  lemma XorSelf(a: bv32, b: bv32)
    ensures Xor(a, b) == 0 <==> a == b
  {
    if Xor(a, b) == 0 { assert a == Xor(Xor(a, b), b) == b; }
  }

  lemma StepInjective(a: bv32, b: bv32)
    requires Step(a) == Step(b)
    ensures a == b
  {
    StepXor(a, b);
    XorSelf(Step(a), Step(b));
    OnlyZeroStepsToZero(Xor(a, b));
    XorSelf(a, b);
  }

  lemma Steps8Injective(a: bv32, b: bv32)
    requires Steps8(a) == Steps8(b)
    ensures a == b
  {
    forall x, y | Step(x) == Step(y) ensures x == y { StepInjective(x, y); }
    IterateInjective(Step, a, b, BYTE_BITS);
  }

  lemma FeedByteIsSteps(c: bv32, b: bv8)
    ensures FeedByte(c, b) == Steps8(Xor(c, Word(b)))
  {
    forall x, w ensures Step(Xor(x, w)) == Xor(Step(Xor(x, LowBit(w))), Half(w)) { StepSplitsLowBit(x, w); }
    FeedIsIterate(Step, Xor, LowBit, Half, c, Word(b), BYTE_BITS);
    ByteShiftsOut(b);
    XorZero(FeedByte(c, b));
  }

  lemma XorCancels(a: bv32, b: bv32, w: bv32)
    requires Xor(a, w) == Xor(b, w)
    ensures a == b
  {
  }

  lemma XorCommutes(a: bv32, b: bv32)
    ensures Xor(a, b) == Xor(b, a)
  {
  }

  lemma WordInjective(a: bv8, b: bv8)
    requires Word(a) == Word(b)
    ensures a == b
  {
  }

  lemma FeedByteInjective(x: bv32, y: bv32, b: bv8)
    requires FeedByte(x, b) == FeedByte(y, b)
    ensures x == y
  {
    FeedByteIsSteps(x, b);
    FeedByteIsSteps(y, b);
    Steps8Injective(Xor(x, Word(b)), Xor(y, Word(b)));
    XorCancels(x, y, Word(b));
  }

  lemma FeedByteSeparates(c: bv32, a: bv8, b: bv8)
    requires FeedByte(c, a) == FeedByte(c, b)
    ensures a == b
  {
    FeedByteIsSteps(c, a);
    FeedByteIsSteps(c, b);
    Steps8Injective(Xor(c, Word(a)), Xor(c, Word(b)));
    XorCommutes(c, Word(a));
    XorCommutes(c, Word(b));
    XorCancels(Word(a), Word(b), c);
    WordInjective(a, b);
  }

  lemma FoldPush<T>(feed: (T, bv8) -> T, c: T, data: seq<bv8>, b: bv8)
    ensures Fold(feed, c, data + [b]) == feed(Fold(feed, c, data), b)
  {
    assert (data + [b])[..|data|] == data;
  }

  /** Two strings that differ in exactly one byte never have the same checksum. */
  lemma ChangedByteDetected(crc: bv32, front: seq<bv8>, x: bv8, y: bv8, back: seq<bv8>)
    requires Crc(crc, front + [x] + back) == Crc(crc, front + [y] + back)
    ensures x == y
  {
    var c := Not(crc);
    DoubleNot(Fold(FeedByte, c, front + [x] + back));
    DoubleNot(Fold(FeedByte, c, front + [y] + back));
    FoldConcat(FeedByte, c, front + [x], back);
    FoldConcat(FeedByte, c, front + [y], back);
    forall p, q, b | FeedByte(p, b) == FeedByte(q, b) ensures p == q { FeedByteInjective(p, q, b); }
    FoldInjective(FeedByte, Fold(FeedByte, c, front + [x]), Fold(FeedByte, c, front + [y]), back);
    FoldPush(FeedByte, c, front, x);
    FoldPush(FeedByte, c, front, y);
    FeedByteSeparates(Fold(FeedByte, c, front), x, y);
  }

  // ----- a known answer

  function Step8(c: bv32): bv32 {
    Step(Step(Step(Step(Step(Step(Step(Step(c))))))))
  }

  lemma Fed(c: bv32, b: bv8, d: bv32)
    requires Step8(Xor(c, Word(b))) == d
    ensures FeedByte(c, b) == d
  {
    FeedByteIsSteps(c, b);
    IterateEight(Step, Xor(c, Word(b)));
  }

  /** A register that each byte takes to the next of a list ends at the last. */
  lemma {:induction false} FoldTraced<T>(feed: (T, bv8) -> T, data: seq<bv8>, trace: seq<T>)
    requires |trace| == |data| + 1 && forall i :: 0 <= i < |data| ==> feed(trace[i], data[i]) == trace[i + 1]
    ensures Fold(feed, trace[0], data) == trace[|data|]
    decreases |data|
  {
    if data != [] { FoldTraced(feed, data[..|data| - 1], trace[..|trace| - 1]); }
  }

  lemma FirstDigits()
    ensures FeedByte(0xFFFF_FFFF, 0x31) == 0x7C23_1048
    ensures FeedByte(0x7C23_1048, 0x32) == 0xB0AC_BB32
    ensures FeedByte(0xB0AC_BB32, 0x33) == 0x77B7_9C2D
  {
    Fed(0xFFFF_FFFF, 0x31, 0x7C23_1048);
    Fed(0x7C23_1048, 0x32, 0xB0AC_BB32);
    Fed(0xB0AC_BB32, 0x33, 0x77B7_9C2D);
  }

  lemma NextDigits()
    ensures FeedByte(0x77B7_9C2D, 0x34) == 0x641C_1F5C
    ensures FeedByte(0x641C_1F5C, 0x35) == 0x340A_C5E3
    ensures FeedByte(0x340A_C5E3, 0x36) == 0xF68D_2C9E
  {
    Fed(0x77B7_9C2D, 0x34, 0x641C_1F5C);
    Fed(0x641C_1F5C, 0x35, 0x340A_C5E3);
    Fed(0x340A_C5E3, 0x36, 0xF68D_2C9E);
  }

  lemma LastDigits()
    ensures FeedByte(0xF68D_2C9E, 0x37) == 0xAFFC_9660
    ensures FeedByte(0xAFFC_9660, 0x38) == 0x651F_2550
    ensures FeedByte(0x651F_2550, 0x39) == 0x340B_C6D9
  {
    Fed(0xF68D_2C9E, 0x37, 0xAFFC_9660);
    Fed(0xAFFC_9660, 0x38, 0x651F_2550);
    Fed(0x651F_2550, 0x39, 0x340B_C6D9);
  }

  /** The check value of the CRC-32: the checksum of the digits 1 to 9. */
  lemma CheckValue()
    ensures Crc(0, [0x31, 0x32, 0x33, 0x34, 0x35, 0x36, 0x37, 0x38, 0x39]) == 0xCBF4_3926
  {
    FirstDigits();
    NextDigits();
    LastDigits();
    FoldTraced(FeedByte, [0x31, 0x32, 0x33, 0x34, 0x35, 0x36, 0x37, 0x38, 0x39],
               [0xFFFF_FFFF, 0x7C23_1048, 0xB0AC_BB32, 0x77B7_9C2D, 0x641C_1F5C,
                0x340A_C5E3, 0xF68D_2C9E, 0xAFFC_9660, 0x651F_2550, 0x340B_C6D9]);
  }

  // ----- initCRC and updateCRC

  /** The register that the i-th table entry starts from. */
  function Seed(i: nat): bv32 {
    if i < 256 then i as bv32 else 0
  }

  lemma LowByteIndex(w: bv32)
    ensures LowByte(w) as nat < 256 && Seed(LowByte(w) as nat) == LowByte(w)
  {
  }

  /** Every entry of a table holds n steps from its seed. */
  ghost predicate Filled<T(!new)>(table: array<T>, step: T -> T, seed: nat -> T, n: nat)
    reads table
  {
    forall i :: 0 <= i < table.Length ==> table[i] == Iterate(step, seed(i), n)
  }

  /** The two loops of `initCRC`. */
  method Fill<T(!new)>(table: array<T>, step: T -> T, seed: nat -> T, n: nat)
    modifies table
    ensures Filled(table, step, seed, n)
  {
    for i := 0 to table.Length
      invariant forall k :: 0 <= k < i ==> table[k] == Iterate(step, seed(k), n)
    {
      var c := seed(i);
      for j := 0 to n
        invariant Iterate(step, c, n - j) == Iterate(step, seed(i), n)
        invariant forall k :: 0 <= k < i ==> table[k] == Iterate(step, seed(k), n)
      {
        c := step(c);
      }
      table[i] := c;
    }
  }

  class CrcTable {
    const table: array<bv32>
    var ready: bool

    ghost predicate Valid()
      reads this, table
    {
      table.Length == 256 && (ready ==> Filled(table, Step, Seed, BYTE_BITS))
    }

    constructor ()
      ensures Valid() && fresh(table)
    {
      table, ready := new bv32[256], false;
    }

    method InitCRC()
      requires Valid()
      modifies this, table
      ensures Valid() && ready
    {
      if ready { return; }
      Fill(table, Step, Seed, BYTE_BITS);
      ready := true;
    }

    method UpdateCRC(crc: bv32, data: seq<bv8>) returns (r: bv32)
      requires Valid()
      modifies this, table
      ensures Valid() && r == Crc(crc, data)
    {
      InitCRC();
      r := Not(crc);
      for i := 0 to |data|
        invariant Valid() && ready
        invariant r == Fold(FeedByte, Not(crc), data[..i])
      {
        assert data[..i + 1][..i] == data[..i];
        TableStep(r, data[i]);
        LowByteIndex(Xor(r, Word(data[i])));
        r := Xor(table[LowByte(Xor(r, Word(data[i]))) as nat], ShiftByte(r));
      }
      assert data[..|data|] == data;
      r := Not(r);
    }
  }
}
