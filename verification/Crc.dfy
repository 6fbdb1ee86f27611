/** CRC-32 by table and by single bits, and the errors it is sure to detect (Common/Kernel/Disk/Fs/Crc32.c). */
module Crc {
  import opened CrcTable

  const START := Register(0xFFFF_FFFF)

  // The definition: one bit of the message at a time, lowest bit of each byte first

  function Serial(c: Register, bit: bool): Register { Xor(Half(c), Poly(Odd(c) != bit)) }

  function Feed(c: Register, bits: seq<bool>): Register
    decreases |bits|
  {
    if bits == [] then c else Feed(Serial(c, bits[0]), bits[1..])
  }

  predicate Bit(b: bv8, mask: bv8) { b & mask != 0 }

  function BitsOf(b: bv8): seq<bool> {
    [Bit(b, 1), Bit(b, 2), Bit(b, 4), Bit(b, 8), Bit(b, 0x10), Bit(b, 0x20), Bit(b, 0x40), Bit(b, 0x80)]
  }

  function Message(bytes: seq<bv8>): seq<bool> {
    if bytes == [] then [] else BitsOf(bytes[0]) + Message(bytes[1..])
  }

  function Crc32(bytes: seq<bv8>): bv32 { !Feed(START, Message(bytes)).bits }

  // Properties of single steps

  lemma HalfXor(a: Register, b: Register)
    ensures Half(Xor(a, b)) == Xor(Half(a), Half(b))
  {
  }

  lemma OddXor(a: Register, b: Register)
    ensures Odd(Xor(a, b)) == (Odd(a) != Odd(b))
  {
  }

  lemma PolyXor(a: bool, b: bool)
    ensures Poly(a != b) == Xor(Poly(a), Poly(b))
  {
  }

  lemma SwapXor(a: Register, b: Register, c: Register, d: Register)
    ensures Xor(Xor(a, b), Xor(c, d)) == Xor(Xor(a, c), Xor(b, d))
  {
  }

  lemma TurnXor(a: Register, b: Register, c: Register)
    ensures Xor(Xor(a, b), c) == Xor(Xor(a, c), b)
  {
  }

  /** Steps are linear. */
  lemma BitStepXor(a: Register, b: Register)
    ensures BitStep(Xor(a, b)) == Xor(BitStep(a), BitStep(b))
  {
    hide Half, Odd, Poly, Xor;
    HalfXor(a, b);
    OddXor(a, b);
    PolyXor(Odd(a), Odd(b));
    SwapXor(Half(a), Half(b), Poly(Odd(a)), Poly(Odd(b)));
  }

  lemma SerialXor(a: Register, b: Register, m: bool, n: bool)
    ensures Xor(Serial(a, m), Serial(b, n)) == Serial(Xor(a, b), m != n)
  {
    hide Half, Odd, Poly, Xor;
    HalfXor(a, b);
    OddXor(a, b);
    PolyXor(Odd(a) != m, Odd(b) != n);
    SwapXor(Half(a), Poly(Odd(a) != m), Half(b), Poly(Odd(b) != n));
    assert ((Odd(a) != m) != (Odd(b) != n)) == (Odd(Xor(a, b)) != (m != n));
  }

  /** A message word in the register is the same as its lowest bit fed, and the rest of it still in the register. */
  lemma WordStep(c: Register, word: Register)
    ensures BitStep(Xor(c, word)) == Xor(Serial(c, Odd(word)), Half(word))
  {
    hide Half, Odd, Poly, Xor;
    HalfXor(c, word);
    OddXor(c, word);
    TurnXor(Half(c), Half(word), Poly(Odd(c) != Odd(word)));
  }

  lemma SerialInjective(a: Register, b: Register, m: bool)
    requires Serial(a, m) == Serial(b, m)
    ensures a == b
  {
  }

  lemma EightStepsXor(a: Register, b: Register)
    ensures EightSteps(Xor(a, b)) == Xor(EightSteps(a), EightSteps(b))
  {
    hide BitStep, Xor;
    var x, y := a, b;
    BitStepXor(x, y);
    x, y := BitStep(x), BitStep(y);
    BitStepXor(x, y);
    x, y := BitStep(x), BitStep(y);
    BitStepXor(x, y);
    x, y := BitStep(x), BitStep(y);
    BitStepXor(x, y);
    x, y := BitStep(x), BitStep(y);
    BitStepXor(x, y);
    x, y := BitStep(x), BitStep(y);
    BitStepXor(x, y);
    x, y := BitStep(x), BitStep(y);
    BitStepXor(x, y);
    x, y := BitStep(x), BitStep(y);
    BitStepXor(x, y);
  }

  // Eight steps at once, as the table has them

  function LowBits(x: bv32): bv32 { x & 0xFF }
  function HighBits(x: bv32): bv32 { x & 0xFFFF_FF00 }
  function Down(x: bv32): bv32 { x >> 8 }
  function Low(c: Register): Register { Register(LowBits(c.bits)) }
  function High(c: Register): Register { Register(HighBits(c.bits)) }
  function Shift(c: Register): Register { Register(Down(c.bits)) }
  predicate NoneOf(c: Register, mask: bv32) { c.bits & mask == 0 }

  lemma EvenStep(c: Register)
    requires !Odd(c)
    ensures BitStep(c) == Half(c)
  {
  }

  lemma DropBits(x: bv32, mask: bv32)
    requires x & mask == 0 && mask & 1 == 1
    ensures x & 1 == 0 && (x >> 1) & (mask >> 1) == 0
  {
  }

  lemma Drop(c: Register, mask: bv32)
    requires NoneOf(c, mask) && mask & 1 == 1
    ensures !Odd(c) && NoneOf(Half(c), mask >> 1)
  {
    DropBits(c.bits, mask);
  }

  function Nibble(c: Register): Register { Register(c.bits >> 4) }

  lemma FourHalves(c: Register)
    ensures Half(Half(Half(Half(c)))) == Nibble(c)
  {
  }

  lemma TwoNibbles(c: Register)
    ensures Nibble(Nibble(c)) == Shift(c)
  {
  }

  lemma EightHalves(c: Register)
    ensures Half(Half(Half(Half(Half(Half(Half(Half(c)))))))) == Shift(c)
  {
    hide Half, Shift, Nibble;
    FourHalves(c);
    FourHalves(Nibble(c));
    TwoNibbles(c);
  }

  /** Without a low byte, eight steps are a shift. */
  lemma EightEvenSteps(c: Register)
    requires NoneOf(c, 0xFF)
    ensures EightSteps(c) == Shift(c)
  {
    hide BitStep, NoneOf, Half, Odd, Shift;
    EightHalves(c);
    var x := c;
    Drop(x, 0xFF);
    EvenStep(x);
    x := Half(x);
    Drop(x, 0x7F);
    EvenStep(x);
    x := Half(x);
    Drop(x, 0x3F);
    EvenStep(x);
    x := Half(x);
    Drop(x, 0x1F);
    EvenStep(x);
    x := Half(x);
    Drop(x, 0xF);
    EvenStep(x);
    x := Half(x);
    Drop(x, 7);
    EvenStep(x);
    x := Half(x);
    Drop(x, 3);
    EvenStep(x);
    x := Half(x);
    Drop(x, 1);
    EvenStep(x);
  }

  lemma LowHigh(c: Register)
    ensures Xor(Low(c), High(c)) == c
  {
    var x := c.bits;
    assert (x & 0xFF) ^ (x & 0xFFFF_FF00) == x;
  }

  lemma HighHasNoLow(c: Register)
    ensures NoneOf(High(c), 0xFF)
  {
    var x := c.bits;
    assert (x & 0xFFFF_FF00) & 0xFF == 0;
  }

  lemma DownHigh(x: bv32)
    ensures Down(HighBits(x)) == Down(x)
  {
  }

  lemma ShiftHigh(c: Register)
    ensures Shift(High(c)) == Shift(c)
  {
    hide Down, HighBits;
    DownHigh(c.bits);
  }

  /** Eight steps of any register: those of its low byte, and the rest moved down. */
  lemma EightStepsSplit(c: Register)
    ensures EightSteps(c) == Xor(EightSteps(Low(c)), Shift(c))
  {
    hide EightSteps, Xor, Low, High, Shift, NoneOf;
    LowHigh(c);
    HighHasNoLow(c);
    ShiftHigh(c);
    EightStepsXor(Low(c), High(c));
    EightEvenSteps(High(c));
  }

  function Word(b: bv8): Register { Register(b as bv32) }

  lemma LowByte(x: bv32, offset: bv8)
    requires offset == LowBits(x) as bv8
    ensures offset as bv32 == LowBits(x)
  {
  }

  lemma DownWithByte(crc: bv32, b: bv8, x: bv32)
    requires x == crc ^ (b as bv32)
    ensures Down(crc) == Down(x)
  {
  }

  lemma XorWithByte(crc: bv32, b: bv8, x: bv32)
    requires x == crc ^ (b as bv32)
    ensures Register(x) == Xor(Register(crc), Word(b))
  {
  }

  lemma TableStepFor(x: bv32, offset: bv8, shift: bv32)
    requires offset as bv32 == LowBits(x) && shift == Down(x)
    ensures Register(Crc32Lut(offset) ^ shift) == EightSteps(Register(x))
  {
    hide Crc32Lut, EightSteps, LowBits, Down;
    TableIsEightSteps(offset);
    EightStepsSplit(Register(x));
  }

  /** One step by the table is eight steps by bits, in every state and for every byte. */
  lemma TableStep(crc: bv32, b: bv8, x: bv32, offset: bv8, shift: bv32)
    requires x == crc ^ (b as bv32) && offset == LowBits(x) as bv8 && shift == Down(crc)
    ensures Register(Crc32Lut(offset) ^ shift) == EightSteps(Xor(Register(crc), Word(b)))
  {
    hide Crc32Lut, EightSteps, LowBits, Down, Xor, Word;
    LowByte(x, offset);
    DownWithByte(crc, b, x);
    XorWithByte(crc, b, x);
    TableStepFor(x, offset, shift);
  }

  lemma FeedOne(c: Register, bit: bool, rest: seq<bool>)
    ensures Feed(c, [bit] + rest) == Feed(Serial(c, bit), rest)
  {
    assert ([bit] + rest)[1..] == rest;
  }

  lemma FeedFour(c: Register, b0: bool, b1: bool, b2: bool, b3: bool, rest: seq<bool>)
    ensures Feed(c, [b0, b1, b2, b3] + rest) == Feed(Serial(Serial(Serial(Serial(c, b0), b1), b2), b3), rest)
  {
    hide Serial, Feed;
    assert [b0] + ([b1] + ([b2] + ([b3] + rest))) == [b0, b1, b2, b3] + rest;
    FeedOne(c, b0, [b1] + ([b2] + ([b3] + rest)));
    FeedOne(Serial(c, b0), b1, [b2] + ([b3] + rest));
    FeedOne(Serial(Serial(c, b0), b1), b2, [b3] + rest);
    FeedOne(Serial(Serial(Serial(c, b0), b1), b2), b3, rest);
  }

  lemma FeedEight(c: Register, b0: bool, b1: bool, b2: bool, b3: bool, b4: bool, b5: bool, b6: bool, b7: bool)
    ensures Feed(c, [b0, b1, b2, b3, b4, b5, b6, b7])
      == Serial(Serial(Serial(Serial(Serial(Serial(Serial(Serial(c, b0), b1), b2), b3), b4), b5), b6), b7)
  {
    hide Serial;
    assert [b0, b1, b2, b3] + ([b4, b5, b6, b7] + []) == [b0, b1, b2, b3, b4, b5, b6, b7];
    FeedFour(c, b0, b1, b2, b3, [b4, b5, b6, b7] + []);
    FeedFour(Serial(Serial(Serial(Serial(c, b0), b1), b2), b3), b4, b5, b6, b7, []);
  }

  lemma OddOfHalves(b: bv8)
    ensures var w0 := Word(b);
      var w1 := Half(w0);
      var w2 := Half(w1);
      var w3 := Half(w2);
      var w4 := Half(w3);
      && Odd(w0) == Bit(b, 1) && Odd(w1) == Bit(b, 2) && Odd(w2) == Bit(b, 4) && Odd(w3) == Bit(b, 8)
      && w4 == Word(b >> 4)
  {
  }

  lemma UpperHalf(b: bv8)
    ensures Bit(b >> 4, 1) == Bit(b, 0x10) && Bit(b >> 4, 2) == Bit(b, 0x20)
    ensures Bit(b >> 4, 4) == Bit(b, 0x40) && Bit(b >> 4, 8) == Bit(b, 0x80)
  {
  }

  lemma NothingLeft(b: bv8)
    ensures (b >> 4) >> 4 == 0
  {
  }

  lemma XorZero(c: Register)
    ensures Xor(c, Word(0)) == c
  {
  }

  /** Eight bits fed one by one are eight steps after the byte has gone into the register. */
  lemma FeedByte(c: Register, b: bv8)
    ensures Feed(c, BitsOf(b)) == EightSteps(Xor(c, Word(b)))
  {
    hide BitStep, Serial, Half, Odd, Xor, Word, Bit, Feed;
    var w := Word(b);
    OddOfHalves(b);
    OddOfHalves(b >> 4);
    UpperHalf(b);
    NothingLeft(b);
    FeedEight(c, Bit(b, 1), Bit(b, 2), Bit(b, 4), Bit(b, 8), Bit(b, 0x10), Bit(b, 0x20), Bit(b, 0x40), Bit(b, 0x80));
    var x := c;
    WordStep(x, w);
    x, w := Serial(x, Odd(w)), Half(w);
    WordStep(x, w);
    x, w := Serial(x, Odd(w)), Half(w);
    WordStep(x, w);
    x, w := Serial(x, Odd(w)), Half(w);
    WordStep(x, w);
    x, w := Serial(x, Odd(w)), Half(w);
    WordStep(x, w);
    x, w := Serial(x, Odd(w)), Half(w);
    WordStep(x, w);
    x, w := Serial(x, Odd(w)), Half(w);
    WordStep(x, w);
    x, w := Serial(x, Odd(w)), Half(w);
    WordStep(x, w);
    x, w := Serial(x, Odd(w)), Half(w);
    XorZero(x);
  }

  // The checksum

  lemma {:induction false} FeedAppend(c: Register, x: seq<bool>, y: seq<bool>)
    ensures Feed(c, x + y) == Feed(Feed(c, x), y)
    decreases |x|
  {
    hide Serial;
    if x == [] {
      assert x + y == y;
    } else {
      assert (x + y)[1..] == x[1..] + y;
      FeedAppend(Serial(c, x[0]), x[1..], y);
    }
  }

  lemma {:induction false} MessageAppend(a: seq<bv8>, b: seq<bv8>)
    ensures Message(a + b) == Message(a) + Message(b)
  {
    hide BitsOf;
    if a == [] {
      assert a + b == b;
    } else {
      assert (a + b)[1..] == a[1..] + b;
      MessageAppend(a[1..], b);
    }
  }

  lemma NextByte(c: Register, s: seq<bv8>, b: bv8)
    ensures Feed(c, Message(s + [b])) == EightSteps(Xor(Feed(c, Message(s)), Word(b)))
  {
    hide BitsOf, EightSteps, Xor, Word, Feed;
    MessageAppend(s, [b]);
    assert Message([b]) == BitsOf(b) + Message([]) == BitsOf(b);
    FeedAppend(c, Message(s), BitsOf(b));
    FeedByte(Feed(c, Message(s)), b);
  }

  /** The round of the loop. */
  method NextCrc(crc: bv32, b: bv8) returns (next: bv32)
    ensures Register(next) == EightSteps(Xor(Register(crc), Word(b)))
  {
    hide Crc32Lut, EightSteps, Xor, Word;
    var x := crc ^ (b as bv32);
    var offset := (x & 0xFF) as bv8;
    var shiftXor := crc >> 8;
    next := Crc32Lut(offset) ^ shiftXor;
    TableStep(crc, b, x, offset, shiftXor);
  }

  /** The table-driven loop computes the checksum that is defined bit by bit. */
  method CalculateCrc32(buffer: array<bv8>, length: nat) returns (checksum: bv32)
    requires length <= buffer.Length
    ensures checksum == Crc32(buffer[..length])
  {
    hide Crc32Lut, Feed, Message, EightSteps, Xor, Word;
    var crc: bv32 := 0xFFFF_FFFF;
    FeedNothing();
    for index := 0 to length
      invariant Register(crc) == Feed(START, Message(buffer[..index]))
    {
      NextByte(START, buffer[..index], buffer[index]);
      assert buffer[..index + 1] == buffer[..index] + [buffer[index]];
      crc := NextCrc(crc, buffer[index]);
    }
    checksum := !crc;
  }

  lemma FeedNothing()
    ensures Feed(START, Message([])) == START
  {
  }

  lemma NextState(s: seq<bv8>, b: bv8, from: bv32, to: bv32)
    requires Feed(START, Message(s)) == Register(from)
    requires EightSteps(Xor(Register(from), Word(b))) == Register(to)
    ensures Feed(START, Message(s + [b])) == Register(to)
  {
    hide Feed, Message, EightSteps, Xor, Word;
    NextByte(START, s, b);
  }

  lemma Round1() ensures EightSteps(Xor(Register(0xFFFF_FFFF), Word(0x31))) == Register(0x7C23_1048) {}
  lemma Round2() ensures EightSteps(Xor(Register(0x7C23_1048), Word(0x32))) == Register(0xB0AC_BB32) {}
  lemma Round3() ensures EightSteps(Xor(Register(0xB0AC_BB32), Word(0x33))) == Register(0x77B7_9C2D) {}
  lemma Round4() ensures EightSteps(Xor(Register(0x77B7_9C2D), Word(0x34))) == Register(0x641C_1F5C) {}
  lemma Round5() ensures EightSteps(Xor(Register(0x641C_1F5C), Word(0x35))) == Register(0x340A_C5E3) {}
  lemma Round6() ensures EightSteps(Xor(Register(0x340A_C5E3), Word(0x36))) == Register(0xF68D_2C9E) {}
  lemma Round7() ensures EightSteps(Xor(Register(0xF68D_2C9E), Word(0x37))) == Register(0xAFFC_9660) {}
  lemma Round8() ensures EightSteps(Xor(Register(0xAFFC_9660), Word(0x38))) == Register(0x651F_2550) {}
  lemma Round9() ensures EightSteps(Xor(Register(0x651F_2550), Word(0x39))) == Register(0x340B_C6D9) {}

  /** The value by which implementations of this CRC are told from others: that of the digits 1 to 9. */
  lemma CheckValue()
    ensures Crc32([0x31, 0x32, 0x33, 0x34, 0x35, 0x36, 0x37, 0x38, 0x39]) == 0xCBF4_3926
  {
    hide Feed, Message, EightSteps, Xor, Word;
    FeedNothing();
    var s: seq<bv8> := [];
    Round1();
    NextState(s, 0x31, 0xFFFF_FFFF, 0x7C23_1048);
    s := s + [0x31];
    Round2();
    NextState(s, 0x32, 0x7C23_1048, 0xB0AC_BB32);
    s := s + [0x32];
    Round3();
    NextState(s, 0x33, 0xB0AC_BB32, 0x77B7_9C2D);
    s := s + [0x33];
    Round4();
    NextState(s, 0x34, 0x77B7_9C2D, 0x641C_1F5C);
    s := s + [0x34];
    Round5();
    NextState(s, 0x35, 0x641C_1F5C, 0x340A_C5E3);
    s := s + [0x35];
    Round6();
    NextState(s, 0x36, 0x340A_C5E3, 0xF68D_2C9E);
    s := s + [0x36];
    Round7();
    NextState(s, 0x37, 0xF68D_2C9E, 0xAFFC_9660);
    s := s + [0x37];
    Round8();
    NextState(s, 0x38, 0xAFFC_9660, 0x651F_2550);
    s := s + [0x38];
    Round9();
    NextState(s, 0x39, 0x651F_2550, 0x340B_C6D9);
    s := s + [0x39];
    assert s == [0x31, 0x32, 0x33, 0x34, 0x35, 0x36, 0x37, 0x38, 0x39];
  }

  // Which errors are detected

  function Halves(c: Register, n: nat): Register
    decreases n
  {
    if n == 0 then c else Halves(Half(c), n - 1)
  }

  predicate IsMask(mask: bv32, n: nat)
    decreases n
  {
    if n == 0 then mask == 1 else mask & 1 == 0 && IsMask(mask >> 1, n - 1)
  }

  lemma BitMoves(x: bv32, mask: bv32)
    requires x & mask != 0 && mask & 1 == 0
    ensures (x >> 1) & (mask >> 1) != 0
  {
  }

  predicate Some(c: Register, mask: bv32) { c.bits & mask != 0 }

  lemma SomeMoves(c: Register, mask: bv32)
    requires Some(c, mask) && mask & 1 == 0
    ensures Some(Half(c), mask >> 1)
  {
    BitMoves(c.bits, mask);
  }

  lemma SomeIsNotZero(c: Register)
    requires Some(c, 1)
    ensures c != ZERO
  {
  }

  lemma {:induction false} BitReaches(c: Register, mask: bv32, n: nat)
    requires IsMask(mask, n) && Some(c, mask)
    ensures Halves(c, n) != ZERO
    decreases n
  {
    hide Half, Some;
    if n == 0 {
      SomeIsNotZero(c);
    } else {
      SomeMoves(c, mask);
      BitReaches(Half(c), mask >> 1, n - 1);
    }
  }

  lemma TopMask()
    ensures IsMask(0x8000_0000, 31)
  {
    assert IsMask(1, 0) && IsMask(2, 1) && IsMask(4, 2) && IsMask(8, 3);
    assert IsMask(0x10, 4) && IsMask(0x20, 5) && IsMask(0x40, 6) && IsMask(0x80, 7);
    assert IsMask(0x100, 8) && IsMask(0x200, 9) && IsMask(0x400, 10) && IsMask(0x800, 11);
    assert IsMask(0x1000, 12) && IsMask(0x2000, 13) && IsMask(0x4000, 14) && IsMask(0x8000, 15);
    assert IsMask(0x1_0000, 16) && IsMask(0x2_0000, 17) && IsMask(0x4_0000, 18) && IsMask(0x8_0000, 19);
    assert IsMask(0x10_0000, 20) && IsMask(0x20_0000, 21) && IsMask(0x40_0000, 22) && IsMask(0x80_0000, 23);
    assert IsMask(0x100_0000, 24) && IsMask(0x200_0000, 25) && IsMask(0x400_0000, 26) && IsMask(0x800_0000, 27);
    assert IsMask(0x1000_0000, 28) && IsMask(0x2000_0000, 29) && IsMask(0x4000_0000, 30);
  }

  lemma HalfOfZero()
    ensures Half(ZERO) == ZERO
  {
  }

  lemma {:induction false} ReachesLess(c: Register, n: nat, m: nat)
    requires m <= n && Halves(c, n) != ZERO
    ensures Halves(c, m) != ZERO
    decreases m, n
  {
    hide Half;
    if m > 0 {
      ReachesLess(Half(c), n - 1, m - 1);
    } else if n > 0 && c == ZERO {
      HalfOfZero();
      ReachesLess(Half(c), n - 1, 0);
    }
  }

  /** Once the polynomial has been added, the highest bit is set. */
  lemma PolyOnTop(c: Register)
    ensures Some(Xor(Half(c), Poly(true)), 0x8000_0000)
  {
    var x := c.bits;
    assert ((x >> 1) ^ 0xEDB88320) & 0x8000_0000 != 0;
  }

  lemma NoPoly(c: Register)
    ensures Xor(Half(c), Poly(false)) == Half(c)
  {
  }

  lemma StepKeepsApart(c: Register, bit: bool, n: nat)
    requires 0 < n <= 32 && Halves(c, n) != ZERO
    ensures Halves(Serial(c, bit), n - 1) != ZERO
  {
    hide Half, Odd, Xor, Poly, Some;
    if Odd(c) != bit {
      PolyOnTop(c);
      TopMask();
      BitReaches(Serial(c, bit), 0x8000_0000, 31);
      ReachesLess(Serial(c, bit), 31, n - 1);
    } else {
      NoPoly(c);
    }
  }

  lemma XorOfEqual(c: Register)
    ensures Xor(c, c) == ZERO
  {
  }

  /** Two states far enough apart stay apart, whatever is fed. */
  lemma {:induction false} StayApart(c: Register, d: Register, x: seq<bool>, y: seq<bool>)
    requires |x| == |y| <= 32 && Halves(Xor(c, d), |x|) != ZERO
    ensures Feed(c, x) != Feed(d, y)
    decreases |x|
  {
    hide Serial, Xor;
    if x == [] {
      XorOfEqual(c);
    } else {
      SerialXor(c, d, x[0], y[0]);
      StepKeepsApart(Xor(c, d), x[0] != y[0], |x|);
      StayApart(Serial(c, x[0]), Serial(d, y[0]), x[1..], y[1..]);
    }
  }

  /** From one state, different bits lead to different states, up to 32 of them. */
  lemma {:induction false} BurstApart(c: Register, x: seq<bool>, y: seq<bool>)
    requires |x| == |y| <= 32 && x != y
    ensures Feed(c, x) != Feed(c, y)
    decreases |x|
  {
    hide Serial, Xor, Half, Poly, Odd, Some;
    if x[0] == y[0] {
      assert x == [x[0]] + x[1..] && y == [y[0]] + y[1..];
      BurstApart(Serial(c, x[0]), x[1..], y[1..]);
    } else {
      SerialXor(c, c, x[0], y[0]);
      XorOfEqual(c);
      FirstDifference();
      BitReaches(Serial(ZERO, true), 0x8000_0000, 31);
      ReachesLess(Serial(ZERO, true), 31, |x| - 1);
      StayApart(Serial(c, x[0]), Serial(c, y[0]), x[1..], y[1..]);
    }
  }

  lemma FirstDifference()
    ensures IsMask(0x8000_0000, 31) && Some(Serial(ZERO, true), 0x8000_0000)
  {
    hide IsMask;
    TopMask();
  }

  lemma {:induction false} TailKeepsApart(c: Register, d: Register, v: seq<bool>)
    requires c != d
    ensures Feed(c, v) != Feed(d, v)
    decreases |v|
  {
    hide Serial;
    if v != [] {
      if Serial(c, v[0]) == Serial(d, v[0]) {
        SerialInjective(c, d, v[0]);
      }
      TailKeepsApart(Serial(c, v[0]), Serial(d, v[0]), v[1..]);
    }
  }

  /** An error confined to 32 consecutive bits always changes the state. */
  lemma BurstDetected(c: Register, before: seq<bool>, x: seq<bool>, y: seq<bool>, after: seq<bool>)
    requires |x| == |y| <= 32 && x != y
    ensures Feed(c, before + x + after) != Feed(c, before + y + after)
  {
    hide Feed;
    FeedAppend(c, before + x, after);
    FeedAppend(c, before, x);
    FeedAppend(c, before + y, after);
    FeedAppend(c, before, y);
    BurstApart(Feed(c, before), x, y);
    TailKeepsApart(Feed(Feed(c, before), x), Feed(Feed(c, before), y), after);
  }

  lemma SameBits(b: bv8, c: bv8)
    requires BitsOf(b) == BitsOf(c)
    ensures b == c
  {
    var x, y := BitsOf(b), BitsOf(c);
    assert x[0] == y[0] && x[1] == y[1] && x[2] == y[2] && x[3] == y[3];
    assert x[4] == y[4] && x[5] == y[5] && x[6] == y[6] && x[7] == y[7];
  }

  lemma {:induction false} MessageInjective(a: seq<bv8>, b: seq<bv8>)
    requires |a| == |b| && Message(a) == Message(b)
    ensures a == b
  {
    hide BitsOf;
    if a != [] {
      EightBits(a[0]);
      EightBits(b[0]);
      assert Message(a)[..8] == BitsOf(a[0]) && Message(a)[8..] == Message(a[1..]);
      assert Message(b)[..8] == BitsOf(b[0]) && Message(b)[8..] == Message(b[1..]);
      SameBits(a[0], b[0]);
      MessageInjective(a[1..], b[1..]);
    }
  }

  lemma EightBits(b: bv8)
    ensures |BitsOf(b)| == 8
  {
  }

  lemma {:induction false} MessageSize(a: seq<bv8>)
    ensures |Message(a)| == 8 * |a|
  {
    if a != [] {
      MessageSize(a[1..]);
    }
  }

  /** Buffers of the same length that differ only within four consecutive bytes have different checksums. */
  lemma FourByteErrorDetected(a: seq<bv8>, b: seq<bv8>, p: nat, q: nat)
    requires |a| == |b| && p <= q <= |a| && q - p <= 4 && a[..p] == b[..p] && a[q..] == b[q..] && a != b
    ensures Crc32(a) != Crc32(b)
  {
    hide Feed, Message;
    assert a == a[..p] + a[p..q] + a[q..] && b == b[..p] + b[p..q] + b[q..];
    MessageAppend(a[..p] + a[p..q], a[q..]);
    MessageAppend(a[..p], a[p..q]);
    MessageAppend(b[..p] + b[p..q], b[q..]);
    MessageAppend(b[..p], b[p..q]);
    MessageSize(a[p..q]);
    MessageSize(b[p..q]);
    if Message(a[p..q]) == Message(b[p..q]) {
      MessageInjective(a[p..q], b[p..q]);
    }
    BurstDetected(START, Message(a[..p]), Message(a[p..q]), Message(b[p..q]), Message(a[q..]));
    DifferentChecksums(Feed(START, Message(a)), Feed(START, Message(b)));
  }

  lemma DifferentChecksums(c: Register, d: Register)
    requires c != d
    ensures !c.bits != !d.bits
  {
  }
}
