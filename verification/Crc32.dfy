/** The reflected CRC-32 of the firmware (section 8 of RFC 1952), bit by bit, and the bursts it detects. */
module Crc32 {
  import opened Basics
  import opened Words

  const POLYNOMIAL: bv32 := 0xEDB88320
  const ALL_ONES: bv32 := 0xFFFFFFFF

  // ----- the register -----

  function Mix(a: bv32, b: bv32): bv32 {
    a ^ b
  }

  /** One shift of the register. */
  function Step(c: bv32): bv32 {
    if c & 1 == 1 then (c >> 1) ^ POLYNOMIAL else c >> 1
  }

  function Steps(c: bv32, n: nat): bv32
    decreases n
  {
    if n == 0 then c else Steps(Step(c), n - 1)
  }

  function Push(bit: bv32, rest: bv32): bv32 {
    bit | (rest << 1)
  }

  /** Bits as one word, first bit lowest. */
  function Pack(bits: seq<bv32>): bv32 {
    if bits == [] then 0 else Push(bits[0], Pack(bits[1..]))
  }

  /** The lowest binary digits of a number, lowest first. */
  function Digits(n: nat, count: nat): (r: seq<bv32>)
    ensures |r| == count
    decreases count
  {
    if count == 0 then [] else [if n % 2 == 1 then 1 else 0] + Digits(n / 2, count - 1)
  }

  function ByteBits(b: byte): (r: seq<bv32>)
    ensures |r| == 8
  {
    Digits(b as nat, 8)
  }

  /** A byte widened to a word. */
  function Wide(b: byte): bv32 {
    Pack(ByteBits(b))
  }

  function Absorb(c: bv32, b: byte): bv32 {
    Steps(Mix(c, Wide(b)), 8)
  }

  /** The register after the bytes of a message. */
  function Register(c: bv32, message: seq<byte>): bv32 {
    if message == [] then c
    else Absorb(Register(c, message[..|message| - 1]), message[|message| - 1])
  }

  /** The register's final value, complemented, as a number. */
  function Finished(c: bv32): (r: nat)
    ensures r < TWO_TO_THE_32
  {
    Mix(c, ALL_ONES) as nat
  }

  function Crc(message: seq<byte>): (r: nat)
    ensures r < TWO_TO_THE_32
  {
    Finished(Register(ALL_ONES, message))
  }

  /** The inner loop: eight masked shifts. */
  method AbsorbByte(c: bv32, b: byte) returns (r: bv32)
    ensures r == Absorb(c, b)
  {
    r := Mix(c, Wide(b));
    ghost var mixed := r;
    hide Mix, Wide;
    for bit := 0 to 8
      invariant Steps(mixed, 8) == Steps(r, 8 - bit)
    {
      StepIsMasked(r);
      var mask: bv32 := 0 - (r & 1);
      r := (r >> 1) ^ (POLYNOMIAL & mask);
    }
  }

  class Context {
    var value: bv32

    constructor ()
      ensures value == ALL_ONES
    {
      value := ALL_ONES;
    }

    method Init()
      modifies this
      ensures value == ALL_ONES
    {
      value := ALL_ONES;
    }

    method Update(data: seq<byte>)
      modifies this
      ensures value == Register(old(value), data)
    {
      hide Absorb;
      var crc := value;
      for i := 0 to |data|
        invariant crc == Register(old(value), data[..i])
      {
        crc := AbsorbByte(crc, data[i]);
        assert data[..i + 1][..i] == data[..i];
      }
      assert data[..|data|] == data;
      value := crc;
    }

    function Finish(): nat
      reads this
    {
      Finished(value)
    }
  }

  method Calculate(data: seq<byte>) returns (r: nat)
    ensures r == Crc(data)
  {
    var context := new Context();
    context.Update(data);
    r := context.Finish();
  }

  lemma StepIsMasked(c: bv32)
    ensures Step(c) == (c >> 1) ^ (POLYNOMIAL & (0 - (c & 1)))
  {
    if c & 1 == 1 {
      assert POLYNOMIAL & (0 - 1) == POLYNOMIAL;
    } else {
      EvenHasNoMask(c, c >> 1);
    }
  }

  lemma EvenHasNoMask(c: bv32, half: bv32)
    requires c & 1 != 1
    ensures half ^ (POLYNOMIAL & (0 - (c & 1))) == half
  {
    assert c & 1 == 0;
  }

  /** Feeding a message in two parts is feeding it whole. */
  lemma {:induction false} RegisterComposes(c: bv32, a: seq<byte>, b: seq<byte>)
    ensures Register(c, a + b) == Register(Register(c, a), b)
  {
    hide Absorb;
    if b == [] {
      assert a + b == a;
    } else {
      var m := a + b;
      RegisterComposes(c, a, b[..|b| - 1]);
      assert m[..|m| - 1] == a + b[..|b| - 1];
    }
  }

  // ----- the shift is a bijection -----

  function Unstep(c: bv32): bv32 {
    if c & 0x8000_0000 != 0 then ((c ^ POLYNOMIAL) << 1) | 1 else c << 1
  }

  lemma UnstepStep(c: bv32)
    ensures Unstep(Step(c)) == c
  {
  }

  lemma ShiftOutAndIn(c: bv32)
    requires c & 0x8000_0000 == 0
    ensures (c << 1) >> 1 == c && (c << 1) & 1 == 0
    ensures ((c << 1) | 1) >> 1 == c && ((c << 1) | 1) & 1 == 1
  {
  }

  lemma TopBitOfPolynomial(c: bv32)
    requires c & 0x8000_0000 != 0
    ensures (c ^ POLYNOMIAL) & 0x8000_0000 == 0 && (c ^ POLYNOMIAL) ^ POLYNOMIAL == c
  {
  }

  /** Every register value has exactly one predecessor. */
  lemma StepBijective(c: bv32)
    ensures Unstep(Step(c)) == c
    ensures Step(Unstep(c)) == c
  {
    UnstepStep(c);
    if c & 0x8000_0000 != 0 {
      TopBitOfPolynomial(c);
      ShiftOutAndIn(c ^ POLYNOMIAL);
    } else {
      ShiftOutAndIn(c);
    }
  }

  lemma {:induction false} StepsInjective(a: bv32, b: bv32, n: nat)
    ensures Steps(a, n) == Steps(b, n) <==> a == b
    decreases n
  {
    hide Step, Unstep;
    if n != 0 {
      StepsInjective(Step(a), Step(b), n - 1);
      UnstepStep(a);
      UnstepStep(b);
    }
  }

  lemma MixCancel(a: bv32, b: bv32, m: bv32)
    ensures Mix(a, m) == Mix(b, m) <==> a == b
    ensures Mix(m, a) == Mix(m, b) <==> a == b
  {
  }

  lemma FinishedInjective(a: bv32, b: bv32)
    requires Finished(a) == Finished(b)
    ensures a == b
  {
    WordOfNumber(Mix(a, ALL_ONES));
    WordOfNumber(Mix(b, ALL_ONES));
    MixCancel(a, b, ALL_ONES);
  }

  lemma WordOfNumber(x: bv32)
    ensures (x as nat) as bv32 == x
  {
  }

  // ----- a message as the bits the register sees, low bit of each byte first -----

  ghost predicate AreBits(bits: seq<bv32>) {
    forall i :: 0 <= i < |bits| ==> bits[i] == 0 || bits[i] == 1
  }

  function Low(x: bv32): bv32 {
    x & 1
  }

  function Bits(message: seq<byte>): (r: seq<bv32>)
    ensures |r| == 8 * |message|
  {
    if message == [] then [] else Bits(message[..|message| - 1]) + ByteBits(message[|message| - 1])
  }

  function FeedBits(c: bv32, bits: seq<bv32>): bv32
    decreases |bits|
  {
    if bits == [] then c else FeedBits(Step(Mix(c, bits[0])), bits[1..])
  }

  lemma {:induction false} DigitsAreBits(n: nat, count: nat)
    ensures AreBits(Digits(n, count))
    decreases count
  {
    if count != 0 {
      DigitsAreBits(n / 2, count - 1);
    }
  }

  lemma {:induction false} BitsAreBits(message: seq<byte>)
    ensures AreBits(Bits(message))
  {
    if message != [] {
      BitsAreBits(message[..|message| - 1]);
      DigitsAreBits(message[|message| - 1] as nat, 8);
    }
  }

  // ----- how many bits a packed word needs -----

  function Half(x: bv32): bv32 {
    x >> 1
  }

  /** The word has no bit at or above position n. */
  predicate Fits(x: bv32, n: nat)
    decreases n
  {
    if n == 0 then x == 0 else Fits(Half(x), n - 1)
  }

  lemma {:induction false} FitsMore(x: bv32, n: nat, m: nat)
    requires Fits(x, n) && n <= m
    ensures Fits(x, m)
    decreases m
  {
    if n != 0 {
      FitsMore(Half(x), n - 1, m - 1);
    } else if m != 0 {
      FitsMore(0, 0, m - 1);
    }
  }

  predicate Top(x: bv32) {
    x & 0x8000_0000 != 0
  }

  function Nibble(x: bv32): bv32 {
    x >> 4
  }

  lemma HalvedFourTimes(x: bv32)
    ensures Half(Half(Half(Half(x)))) == Nibble(x)
  {
  }

  lemma FitsNibble(x: bv32, n: nat)
    requires Fits(x, n + 4)
    ensures Fits(Nibble(x), n)
  {
    HalvedFourTimes(x);
    hide Half, Nibble;
    assert Fits(Half(x), n + 3);
    assert Fits(Half(Half(x)), n + 2);
    assert Fits(Half(Half(Half(x))), n + 1);
  }

  lemma NoTopBit(x: bv32)
    requires Half(Half(Half(Nibble(Nibble(Nibble(Nibble(Nibble(Nibble(Nibble(x)))))))))) == 0
    ensures !Top(x)
  {
  }

  lemma FitsBelowTop(x: bv32)
    requires Fits(x, 31)
    ensures !Top(x)
  {
    hide Half, Nibble, Top;
    var x1 := Nibble(x);
    var x2 := Nibble(x1);
    var x3 := Nibble(x2);
    var x4 := Nibble(x3);
    var x5 := Nibble(x4);
    var x6 := Nibble(x5);
    var x7 := Nibble(x6);
    FitsNibble(x, 27);
    FitsNibble(x1, 23);
    FitsNibble(x2, 19);
    FitsNibble(x3, 15);
    FitsNibble(x4, 11);
    FitsNibble(x5, 7);
    FitsNibble(x6, 3);
    assert Fits(Half(x7), 2);
    assert Fits(Half(Half(x7)), 1);
    NoTopBit(x);
  }

  lemma PushedBitComesOut(bit: bv32, rest: bv32)
    requires bit == 0 || bit == 1
    requires !Top(rest)
    ensures Half(Push(bit, rest)) == rest
    ensures Low(Push(bit, rest)) == bit
  {
    if bit == 0 {
      ShiftOutAndIn(rest);
      ZeroOr(rest << 1);
    } else {
      ShiftOutAndIn(rest);
    }
  }

  lemma ZeroOr(x: bv32)
    ensures 0 | x == x
  {
  }

  lemma {:induction false} PackFits(bits: seq<bv32>)
    requires AreBits(bits) && |bits| <= 31
    ensures Fits(Pack(bits), |bits|)
    ensures !Top(Pack(bits))
  {
    hide Push, Half, Top, Low;
    if bits != [] {
      PackFits(bits[1..]);
      PushedBitComesOut(bits[0], Pack(bits[1..]));
    }
    FitsMore(Pack(bits), |bits|, 31);
    FitsBelowTop(Pack(bits));
  }

  lemma {:induction false} PackInjective(a: seq<bv32>, b: seq<bv32>)
    requires AreBits(a) && AreBits(b) && |a| == |b| <= 32
    requires Pack(a) == Pack(b)
    ensures a == b
  {
    hide Push, Half, Top, Low, Fits;
    if a != [] {
      PackFits(a[1..]);
      PackFits(b[1..]);
      PushedBitComesOut(a[0], Pack(a[1..]));
      PushedBitComesOut(b[0], Pack(b[1..]));
      PackInjective(a[1..], b[1..]);
      assert a == [a[0]] + a[1..] && b == [b[0]] + b[1..];
    }
  }

  // ----- up to 32 bits fed one by one act like one word mixed in at once -----

  lemma XorShift(x: bv32, y: bv32)
    ensures (x ^ y) >> 1 == (x >> 1) ^ (y >> 1)
  {
  }

  lemma XorLow(x: bv32, y: bv32)
    ensures (x ^ y) & 1 == (x & 1) ^ (y & 1)
    ensures x & 1 == 0 || x & 1 == 1
    ensures y & 1 == 0 || y & 1 == 1
  {
  }

  lemma XorPolynomial(x: bv32, y: bv32, p: bv32)
    ensures (x ^ p) ^ (y ^ p) == x ^ y && (x ^ p) ^ y == (x ^ y) ^ p && x ^ (y ^ p) == (x ^ y) ^ p
  {
  }

  lemma StepLinear(x: bv32, y: bv32)
    ensures Step(Mix(x, y)) == Mix(Step(x), Step(y))
  {
    hide Step;
    StepXor(x, y);
  }

  lemma StepXor(x: bv32, y: bv32)
    ensures Step(x ^ y) == Step(x) ^ Step(y)
  {
    XorShift(x, y);
    XorLow(x, y);
    XorPolynomial(x >> 1, y >> 1, POLYNOMIAL);
  }

  /** Shifting a bit in below the rest and stepping once brings the rest back. */
  lemma PushIsMix(bit: bv32, rest: bv32)
    requires bit == 0 || bit == 1
    ensures Push(bit, rest) == Mix(bit, rest << 1)
  {
    DisjointOr(bit, rest << 1);
  }

  lemma DisjointOr(a: bv32, b: bv32)
    requires a & b == 0
    ensures a | b == a ^ b
  {
  }

  lemma StepDropsShift(rest: bv32)
    requires !Top(rest)
    ensures Step(rest << 1) == rest
  {
    ShiftOutAndIn(rest);
  }

  lemma MixAssociates(a: bv32, b: bv32, c: bv32)
    ensures Mix(a, Mix(b, c)) == Mix(Mix(a, b), c)
    ensures Mix(a, 0) == a
  {
  }

  lemma MixedStep(c: bv32, bit: bv32, rest: bv32)
    requires bit == 0 || bit == 1
    requires !Top(rest)
    ensures Step(Mix(c, Push(bit, rest))) == Mix(Step(Mix(c, bit)), rest)
  {
    hide Step, Mix, Push, Top;
    PushIsMix(bit, rest);
    var up := rest << 1;
    MixAssociates(c, bit, up);
    StepLinear(Mix(c, bit), up);
    StepDropsShift(rest);
  }

  lemma {:induction false} FeedBitsIsSteps(c: bv32, bits: seq<bv32>)
    requires AreBits(bits) && |bits| <= 32
    ensures FeedBits(c, bits) == Steps(Mix(c, Pack(bits)), |bits|)
    decreases |bits|
  {
    hide Step, Mix, Push, Top, Fits;
    if bits == [] {
      MixAssociates(c, 0, 0);
    } else {
      PackFits(bits[1..]);
      FeedBitsIsSteps(Step(Mix(c, bits[0])), bits[1..]);
      MixedStep(c, bits[0], Pack(bits[1..]));
    }
  }

  lemma {:induction false} FeedBitsComposes(c: bv32, a: seq<bv32>, b: seq<bv32>)
    ensures FeedBits(c, a + b) == FeedBits(FeedBits(c, a), b)
    decreases |a|
  {
    hide Step, Mix;
    if a == [] {
      assert a + b == b;
    } else {
      FeedBitsComposes(Step(Mix(c, a[0])), a[1..], b);
      assert (a + b)[1..] == a[1..] + b;
    }
  }

  lemma {:induction false} FeedBitsInjective(a: bv32, b: bv32, bits: seq<bv32>)
    ensures FeedBits(a, bits) == FeedBits(b, bits) <==> a == b
    decreases |bits|
  {
    hide Step, Mix, Unstep;
    if bits != [] {
      FeedBitsInjective(Step(Mix(a, bits[0])), Step(Mix(b, bits[0])), bits[1..]);
      MixCancel(a, b, bits[0]);
      UnstepStep(Mix(a, bits[0]));
      UnstepStep(Mix(b, bits[0]));
    }
  }

  // ----- the byte-wise register is the bit-serial one -----

  lemma AbsorbIsBitSerial(c: bv32, b: byte)
    ensures Absorb(c, b) == FeedBits(c, ByteBits(b))
  {
    hide FeedBits, Steps, Mix, Pack;
    DigitsAreBits(b as nat, 8);
    FeedBitsIsSteps(c, ByteBits(b));
  }

  lemma {:induction false} RegisterIsBitSerial(c: bv32, message: seq<byte>)
    ensures Register(c, message) == FeedBits(c, Bits(message))
  {
    hide Absorb, ByteBits, Step, Mix;
    if message != [] {
      var front, last := message[..|message| - 1], message[|message| - 1];
      RegisterIsBitSerial(c, front);
      AbsorbIsBitSerial(Register(c, front), last);
      FeedBitsComposes(c, Bits(front), ByteBits(last));
    }
  }

  lemma {:induction false} DigitsInjective(a: nat, b: nat, count: nat)
    requires a < Pow2(count) && b < Pow2(count)
    requires Digits(a, count) == Digits(b, count)
    ensures a == b
    decreases count
  {
    if count != 0 {
      var s, t := Digits(a, count), Digits(b, count);
      assert s[0] == t[0] && s[1..] == Digits(a / 2, count - 1) && t[1..] == Digits(b / 2, count - 1);
      DigitsInjective(a / 2, b / 2, count - 1);
    }
  }

  lemma ByteBitsInjective(a: byte, b: byte)
    requires ByteBits(a) == ByteBits(b)
    ensures a == b
  {
    DigitsInjective(a as nat, b as nat, 8);
  }

  lemma WideInjective(a: byte, b: byte)
    requires Wide(a) == Wide(b)
    ensures a == b
  {
    hide Pack;
    DigitsAreBits(a as nat, 8);
    DigitsAreBits(b as nat, 8);
    PackInjective(ByteBits(a), ByteBits(b));
    ByteBitsInjective(a, b);
  }

  lemma WideZero()
    ensures Wide(0) == 0
  {
    ZerosPackToZero(8);
  }

  lemma {:induction false} ZerosPackToZero(count: nat)
    ensures Pack(Digits(0, count)) == 0
  {
    if count != 0 {
      ZerosPackToZero(count - 1);
      assert Push(0, 0) == 0;
      assert Digits(0, count)[1..] == Digits(0, count - 1);
    }
  }

  lemma {:induction false} BitsInjective(m1: seq<byte>, m2: seq<byte>)
    requires |m1| == |m2| && Bits(m1) == Bits(m2)
    ensures m1 == m2
  {
    hide ByteBits;
    if m1 != [] {
      var n := |m1| - 1;
      assert Bits(m1)[..8 * n] == Bits(m1[..n]) && Bits(m2)[..8 * n] == Bits(m2[..n]);
      assert Bits(m1)[8 * n..] == ByteBits(m1[n]) && Bits(m2)[8 * n..] == ByteBits(m2[n]);
      BitsInjective(m1[..n], m2[..n]);
      ByteBitsInjective(m1[n], m2[n]);
      assert m1 == m1[..n] + [m1[n]] && m2 == m2[..n] + [m2[n]];
    }
  }

  lemma WindowInjective(c: bv32, a: seq<bv32>, b: seq<bv32>)
    requires AreBits(a) && AreBits(b) && |a| == |b| <= 32
    requires FeedBits(c, a) == FeedBits(c, b)
    ensures a == b
  {
    hide FeedBits, Steps, Pack, Mix;
    FeedBitsIsSteps(c, a);
    FeedBitsIsSteps(c, b);
    StepsInjective(Mix(c, Pack(a)), Mix(c, Pack(b)), |a|);
    MixCancel(Pack(a), Pack(b), c);
    PackInjective(a, b);
  }

  /**
   * Burst detection: messages of equal length whose bits differ, and differ only inside a window of
   * at most 32 consecutive bits, have different CRCs.
   */
  lemma BurstDetected(m1: seq<byte>, m2: seq<byte>, at: nat, width: nat)
    requires |m1| == |m2| && m1 != m2
    requires at + width <= 8 * |m1| && width <= 32
    requires Bits(m1)[..at] == Bits(m2)[..at]
    requires Bits(m1)[at + width..] == Bits(m2)[at + width..]
    ensures Crc(m1) != Crc(m2)
  {
    hide FeedBits, Register, Bits, Mix, Finished;
    var b1, b2, end := Bits(m1), Bits(m2), at + width;
    var head, tail, w1, w2 := b1[..at], b1[end..], b1[at..end], b2[at..end];
    assert b1 == head + (w1 + tail) && b2 == head + (w2 + tail);
    if Crc(m1) == Crc(m2) {
      FinishedInjective(Register(ALL_ONES, m1), Register(ALL_ONES, m2));
      RegisterIsBitSerial(ALL_ONES, m1);
      RegisterIsBitSerial(ALL_ONES, m2);
      var c := FeedBits(ALL_ONES, head);
      FeedBitsComposes(ALL_ONES, head, w1 + tail);
      FeedBitsComposes(ALL_ONES, head, w2 + tail);
      FeedBitsComposes(c, w1, tail);
      FeedBitsComposes(c, w2, tail);
      FeedBitsInjective(FeedBits(c, w1), FeedBits(c, w2), tail);
      BitsAreBits(m1);
      BitsAreBits(m2);
      WindowInjective(c, w1, w2);
      BitsInjective(m1, m2);
    }
  }

  // ----- the standard's polynomial and check value -----

  /** The term x^e in the reflected order. */
  function Term(e: bv6): bv32
    requires e < 32
  {
    0x8000_0000 >> e
  }

  /** The generator polynomial of section 8.1.1.6.2 of ITU-T V.42, below x^32. */
  lemma PolynomialOfStandard()
    ensures POLYNOMIAL
            == Term(26) | Term(23) | Term(22) | Term(16) | Term(12) | Term(11) | Term(10) | Term(8) | Term(7) | Term(5)
               | Term(4) | Term(2) | Term(1) | Term(0)
  {
  }

  lemma Widened(b: byte, bits: seq<bv32>, w: bv32)
    requires ByteBits(b) == bits && Pack(bits) == w
    ensures Wide(b) == w
  {
  }

  lemma AbsorbedByte(c: bv32, b: byte, w: bv32, mixed: bv32, next: bv32)
    requires Wide(b) == w && Mix(c, w) == mixed && Steps(mixed, 8) == next
    ensures Absorb(c, b) == next
  {
    hide Wide, Steps, Mix;
  }

  lemma WideDigit1()
    ensures Wide(0x31) == 0x31
  {
    Widened(0x31, [1, 0, 0, 0, 1, 1, 0, 0], 0x31);
  }

  lemma CheckDigit1()
    ensures Absorb(0xFFFFFFFF, 0x31) == 0x7C231048
  {
    hide Wide;
    WideDigit1();
    AbsorbedByte(0xFFFFFFFF, 0x31, 0x31, 0xFFFFFFCE, 0x7C231048);
  }

  lemma WideDigit2()
    ensures Wide(0x32) == 0x32
  {
    Widened(0x32, [0, 1, 0, 0, 1, 1, 0, 0], 0x32);
  }

  lemma CheckDigit2()
    ensures Absorb(0x7C231048, 0x32) == 0xB0ACBB32
  {
    hide Wide;
    WideDigit2();
    AbsorbedByte(0x7C231048, 0x32, 0x32, 0x7C23107A, 0xB0ACBB32);
  }

  lemma WideDigit3()
    ensures Wide(0x33) == 0x33
  {
    Widened(0x33, [1, 1, 0, 0, 1, 1, 0, 0], 0x33);
  }

  lemma CheckDigit3()
    ensures Absorb(0xB0ACBB32, 0x33) == 0x77B79C2D
  {
    hide Wide;
    WideDigit3();
    AbsorbedByte(0xB0ACBB32, 0x33, 0x33, 0xB0ACBB01, 0x77B79C2D);
  }

  lemma WideDigit4()
    ensures Wide(0x34) == 0x34
  {
    Widened(0x34, [0, 0, 1, 0, 1, 1, 0, 0], 0x34);
  }

  lemma CheckDigit4()
    ensures Absorb(0x77B79C2D, 0x34) == 0x641C1F5C
  {
    hide Wide;
    WideDigit4();
    AbsorbedByte(0x77B79C2D, 0x34, 0x34, 0x77B79C19, 0x641C1F5C);
  }

  lemma WideDigit5()
    ensures Wide(0x35) == 0x35
  {
    Widened(0x35, [1, 0, 1, 0, 1, 1, 0, 0], 0x35);
  }

  lemma CheckDigit5()
    ensures Absorb(0x641C1F5C, 0x35) == 0x340AC5E3
  {
    hide Wide;
    WideDigit5();
    AbsorbedByte(0x641C1F5C, 0x35, 0x35, 0x641C1F69, 0x340AC5E3);
  }

  lemma WideDigit6()
    ensures Wide(0x36) == 0x36
  {
    Widened(0x36, [0, 1, 1, 0, 1, 1, 0, 0], 0x36);
  }

  lemma CheckDigit6()
    ensures Absorb(0x340AC5E3, 0x36) == 0xF68D2C9E
  {
    hide Wide;
    WideDigit6();
    AbsorbedByte(0x340AC5E3, 0x36, 0x36, 0x340AC5D5, 0xF68D2C9E);
  }

  lemma WideDigit7()
    ensures Wide(0x37) == 0x37
  {
    Widened(0x37, [1, 1, 1, 0, 1, 1, 0, 0], 0x37);
  }

  lemma CheckDigit7()
    ensures Absorb(0xF68D2C9E, 0x37) == 0xAFFC9660
  {
    hide Wide;
    WideDigit7();
    AbsorbedByte(0xF68D2C9E, 0x37, 0x37, 0xF68D2CA9, 0xAFFC9660);
  }

  lemma WideDigit8()
    ensures Wide(0x38) == 0x38
  {
    Widened(0x38, [0, 0, 0, 1, 1, 1, 0, 0], 0x38);
  }

  lemma CheckDigit8()
    ensures Absorb(0xAFFC9660, 0x38) == 0x651F2550
  {
    hide Wide;
    WideDigit8();
    AbsorbedByte(0xAFFC9660, 0x38, 0x38, 0xAFFC9658, 0x651F2550);
  }

  lemma WideDigit9()
    ensures Wide(0x39) == 0x39
  {
    Widened(0x39, [1, 0, 0, 1, 1, 1, 0, 0], 0x39);
  }

  lemma CheckDigit9()
    ensures Absorb(0x651F2550, 0x39) == 0x340BC6D9
  {
    hide Wide;
    WideDigit9();
    AbsorbedByte(0x651F2550, 0x39, 0x39, 0x651F2569, 0x340BC6D9);
  }

  lemma RegisterSnoc(c: bv32, message: seq<byte>, b: byte)
    ensures Register(c, message + [b]) == Absorb(Register(c, message), b)
  {
    hide Absorb;
    assert (message + [b])[..|message|] == message;
  }

  /** The CRC of "123456789" is the check value of the standard. */
  lemma CheckValue()
    ensures Crc([0x31, 0x32, 0x33, 0x34, 0x35, 0x36, 0x37, 0x38, 0x39]) == 0xCBF43926
  {
    CheckDigit1();
    CheckDigit2();
    CheckDigit3();
    CheckDigit4();
    CheckDigit5();
    CheckDigit6();
    CheckDigit7();
    CheckDigit8();
    CheckDigit9();
    hide Absorb;
    RegisterSnoc(ALL_ONES, [], 0x31);
    RegisterSnoc(ALL_ONES, [0x31], 0x32);
    RegisterSnoc(ALL_ONES, [0x31, 0x32], 0x33);
    RegisterSnoc(ALL_ONES, [0x31, 0x32, 0x33], 0x34);
    RegisterSnoc(ALL_ONES, [0x31, 0x32, 0x33, 0x34], 0x35);
    RegisterSnoc(ALL_ONES, [0x31, 0x32, 0x33, 0x34, 0x35], 0x36);
    RegisterSnoc(ALL_ONES, [0x31, 0x32, 0x33, 0x34, 0x35, 0x36], 0x37);
    RegisterSnoc(ALL_ONES, [0x31, 0x32, 0x33, 0x34, 0x35, 0x36, 0x37], 0x38);
    RegisterSnoc(ALL_ONES, [0x31, 0x32, 0x33, 0x34, 0x35, 0x36, 0x37, 0x38], 0x39);
    assert [0x31] + [0x32] == [0x31, 0x32];
    assert [0x31, 0x32] + [0x33] == [0x31, 0x32, 0x33];
    assert [0x31, 0x32, 0x33] + [0x34] == [0x31, 0x32, 0x33, 0x34];
    assert [0x31, 0x32, 0x33, 0x34] + [0x35] == [0x31, 0x32, 0x33, 0x34, 0x35];
    assert [0x31, 0x32, 0x33, 0x34, 0x35] + [0x36] == [0x31, 0x32, 0x33, 0x34, 0x35, 0x36];
    assert [0x31, 0x32, 0x33, 0x34, 0x35, 0x36] + [0x37] == [0x31, 0x32, 0x33, 0x34, 0x35, 0x36, 0x37];
    assert [0x31, 0x32, 0x33, 0x34, 0x35, 0x36, 0x37] + [0x38] == [0x31, 0x32, 0x33, 0x34, 0x35, 0x36, 0x37, 0x38];
    assert [0x31, 0x32, 0x33, 0x34, 0x35, 0x36, 0x37, 0x38] + [0x39]
           == [0x31, 0x32, 0x33, 0x34, 0x35, 0x36, 0x37, 0x38, 0x39];
  }
}
