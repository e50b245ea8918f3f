/** Which number the CRC-16 is: the bits of register and bytes, and the published check value. */
module CrcNumbers {
  import opened Bytes
  import opened Crc

  // ---------- which numbers are meant ----------

  predicate BitAt(c: bv16, i: nat)
    requires i < 16
  {
    (c >> i) & 1 == 1
  }

  lemma BitBelow(c: bv16, i: nat)
    requires 1 <= i < 16
    ensures BitAt(c, i) == BitAt(Down(c), i - 1) && BitAt(c, 0) == Odd(c)
  {
    if i == 1 {} else if i == 2 {} else if i == 3 {} else if i == 4 {} else if i == 5 {} else if i == 6 {}
    else if i == 7 {} else if i == 8 {} else if i == 9 {} else if i == 10 {} else if i == 11 {} else if i == 12 {}
    else if i == 13 {} else if i == 14 {} else {}
  }

  /** Binary digit i of a number, the one worth 2 to the i. */
  function Digit(v: nat, i: nat): nat
    decreases i
  {
    if i == 0 then v % 2 else Digit(v / 2, i - 1)
  }

  /** The number of a register has the register's bits as its binary digits. */
  lemma {:induction false} ValueHasTheBits(c: bv16, n: nat, i: nat)
    requires i < n <= 16
    ensures Digit(Value(c, n), i) == if BitAt(c, i) then 1 else 0
    decreases n
  {
    hide Odd, Down, BitAt;
    LowBit(c);
    var more := Value(Down(c), n - 1);
    assert Value(c, n) == (if Odd(c) then 1 else 0) + 2 * more;
    if i > 0 {
      BitBelow(c, i);
      ValueHasTheBits(Down(c), n - 1, i - 1);
    }
  }

  lemma LowBit(c: bv16)
    ensures BitAt(c, 0) == Odd(c)
  {}

  /** What is added to the register for a byte has the byte's bits. */
  lemma {:induction false} PackHasTheBits(bits: seq<bool>, i: nat)
    requires i < |bits| <= 15
    ensures BitAt(Pack(bits), i) == bits[i]
  {
    hide Odd, Down, BitAt, Xor, Bit, Up, HighClear;
    PackFits(bits[1..]);
    PackParts(bits[0], Pack(bits[1..]));
    LowBit(Pack(bits));
    if i > 0 {
      BitBelow(Pack(bits), i);
      PackHasTheBits(bits[1..], i - 1);
    }
  }

  lemma PackParts(bit: bool, high: bv16)
    requires HighClear(high)
    ensures Odd(Xor(Bit(bit), Up(high))) == bit && Down(Xor(Bit(bit), Up(high))) == high
  {}

  lemma {:induction false} BitsAreDigits(v: nat, n: nat, i: nat)
    requires i < n
    ensures BitsOf(v, n)[i] == (Digit(v, i) == 1)
    decreases n
  {
    if i > 0 {
      BitsAreDigits(v / 2, n - 1, i - 1);
    }
  }

  /** For every byte: bit i of what is fed is set exactly when digit i of the byte is 1. */
  lemma ByteHasTheBits(x: Byte, i: nat)
    requires i < 8
    ensures BitAt(Pack(BitsOf(x, 8)), i) == (Digit(x, i) == 1)
  {
    hide BitAt, BitsOf, Pack, Digit;
    PackHasTheBits(BitsOf(x, 8), i);
    BitsAreDigits(x, 8, i);
  }

  // ---------- the published check value ----------

  lemma EightSteps(c: bv16)
    ensures Steps(c, 8) == Step(Step(Step(Step(Step(Step(Step(Step(c))))))))
  {
    hide Step;
    assert Steps(c, 8) == Steps(Step(Step(c)), 6) == Steps(Step(Step(Step(Step(c)))), 4);
  }

  /** Feeding a number bit by bit. */
  lemma FedStep(v: nat, n: nat)
    requires n > 0
    ensures Pack(BitsOf(v, n)) == Xor(Bit(v % 2 == 1), Up(Pack(BitsOf(v / 2, n - 1))))
  {
    hide Xor, Bit, Up;
    assert BitsOf(v, n)[1..] == BitsOf(v / 2, n - 1);
  }

  lemma FedNothing()
    ensures Pack(BitsOf(0, 0)) == 0
  {}

  /** The upper half of every ASCII digit. */
  lemma FedThree()
    ensures Pack(BitsOf(3, 4)) == 3
  {
    hide Pack, BitsOf;
    FedStep(3, 4);
    FedStep(1, 3);
    FedStep(0, 2);
    FedStep(0, 1);
    FedNothing();
  }

  lemma Digit1()
    ensures Steps(Xor(0x0000, Pack(BitsOf(49, 8))), 8) == 0xD4C1
  {
    hide Steps, Pack, BitsOf;
    FedStep(49, 8);
    FedStep(24, 7);
    FedStep(12, 6);
    FedStep(6, 5);
    FedThree();
    assert Pack(BitsOf(49, 8)) == 0x31;
    assert Xor(0x0000, 0x31) == 0x0031;
    EightSteps(0x0031);
    assert Step(0x0031) == 0xA019 && Step(0xA019) == 0xF00D && Step(0xF00D) == 0xD807 && Step(0xD807) == 0xCC02;
    assert Step(0xCC02) == 0x6601 && Step(0x6601) == 0x9301 && Step(0x9301) == 0xE981 && Step(0xE981) == 0xD4C1;
  }

  lemma Digit2()
    ensures Steps(Xor(0xD4C1, Pack(BitsOf(50, 8))), 8) == 0x4594
  {
    hide Steps, Pack, BitsOf;
    FedStep(50, 8);
    FedStep(25, 7);
    FedStep(12, 6);
    FedStep(6, 5);
    FedThree();
    assert Pack(BitsOf(50, 8)) == 0x32;
    assert Xor(0xD4C1, 0x32) == 0xD4F3;
    EightSteps(0xD4F3);
    assert Step(0xD4F3) == 0xCA78 && Step(0xCA78) == 0x653C && Step(0x653C) == 0x329E && Step(0x329E) == 0x194F;
    assert Step(0x194F) == 0xACA6 && Step(0xACA6) == 0x5653 && Step(0x5653) == 0x8B28 && Step(0x8B28) == 0x4594;
  }

  lemma Digit3()
    ensures Steps(Xor(0x4594, Pack(BitsOf(51, 8))), 8) == 0xBA04
  {
    hide Steps, Pack, BitsOf;
    FedStep(51, 8);
    FedStep(25, 7);
    FedStep(12, 6);
    FedStep(6, 5);
    FedThree();
    assert Pack(BitsOf(51, 8)) == 0x33;
    assert Xor(0x4594, 0x33) == 0x45A7;
    EightSteps(0x45A7);
    assert Step(0x45A7) == 0x82D2 && Step(0x82D2) == 0x4169 && Step(0x4169) == 0x80B5 && Step(0x80B5) == 0xE05B;
    assert Step(0xE05B) == 0xD02C && Step(0xD02C) == 0x6816 && Step(0x6816) == 0x340B && Step(0x340B) == 0xBA04;
  }

  lemma Digit4()
    ensures Steps(Xor(0xBA04, Pack(BitsOf(52, 8))), 8) == 0x14BA
  {
    hide Steps, Pack, BitsOf;
    FedStep(52, 8);
    FedStep(26, 7);
    FedStep(13, 6);
    FedStep(6, 5);
    FedThree();
    assert Pack(BitsOf(52, 8)) == 0x34;
    assert Xor(0xBA04, 0x34) == 0xBA30;
    EightSteps(0xBA30);
    assert Step(0xBA30) == 0x5D18 && Step(0x5D18) == 0x2E8C && Step(0x2E8C) == 0x1746 && Step(0x1746) == 0x0BA3;
    assert Step(0x0BA3) == 0xA5D0 && Step(0xA5D0) == 0x52E8 && Step(0x52E8) == 0x2974 && Step(0x2974) == 0x14BA;
  }

  lemma Digit5()
    ensures Steps(Xor(0x14BA, Pack(BitsOf(53, 8))), 8) == 0xA455
  {
    hide Steps, Pack, BitsOf;
    FedStep(53, 8);
    FedStep(26, 7);
    FedStep(13, 6);
    FedStep(6, 5);
    FedThree();
    assert Pack(BitsOf(53, 8)) == 0x35;
    assert Xor(0x14BA, 0x35) == 0x148F;
    EightSteps(0x148F);
    assert Step(0x148F) == 0xAA46 && Step(0xAA46) == 0x5523 && Step(0x5523) == 0x8A90 && Step(0x8A90) == 0x4548;
    assert Step(0x4548) == 0x22A4 && Step(0x22A4) == 0x1152 && Step(0x1152) == 0x08A9 && Step(0x08A9) == 0xA455;
  }

  lemma Digit6()
    ensures Steps(Xor(0xA455, Pack(BitsOf(54, 8))), 8) == 0x29E4
  {
    hide Steps, Pack, BitsOf;
    FedStep(54, 8);
    FedStep(27, 7);
    FedStep(13, 6);
    FedStep(6, 5);
    FedThree();
    assert Pack(BitsOf(54, 8)) == 0x36;
    assert Xor(0xA455, 0x36) == 0xA463;
    EightSteps(0xA463);
    assert Step(0xA463) == 0xF230 && Step(0xF230) == 0x7918 && Step(0x7918) == 0x3C8C && Step(0x3C8C) == 0x1E46;
    assert Step(0x1E46) == 0x0F23 && Step(0x0F23) == 0xA790 && Step(0xA790) == 0x53C8 && Step(0x53C8) == 0x29E4;
  }

  lemma Digit7()
    ensures Steps(Xor(0x29E4, Pack(BitsOf(55, 8))), 8) == 0x9D68
  {
    hide Steps, Pack, BitsOf;
    FedStep(55, 8);
    FedStep(27, 7);
    FedStep(13, 6);
    FedStep(6, 5);
    FedThree();
    assert Pack(BitsOf(55, 8)) == 0x37;
    assert Xor(0x29E4, 0x37) == 0x29D3;
    EightSteps(0x29D3);
    assert Step(0x29D3) == 0xB4E8 && Step(0xB4E8) == 0x5A74 && Step(0x5A74) == 0x2D3A && Step(0x2D3A) == 0x169D;
    assert Step(0x169D) == 0xAB4F && Step(0xAB4F) == 0xF5A6 && Step(0xF5A6) == 0x7AD3 && Step(0x7AD3) == 0x9D68;
  }

  lemma Digit8()
    ensures Steps(Xor(0x9D68, Pack(BitsOf(56, 8))), 8) == 0x3C9D
  {
    hide Steps, Pack, BitsOf;
    FedStep(56, 8);
    FedStep(28, 7);
    FedStep(14, 6);
    FedStep(7, 5);
    FedThree();
    assert Pack(BitsOf(56, 8)) == 0x38;
    assert Xor(0x9D68, 0x38) == 0x9D50;
    EightSteps(0x9D50);
    assert Step(0x9D50) == 0x4EA8 && Step(0x4EA8) == 0x2754 && Step(0x2754) == 0x13AA && Step(0x13AA) == 0x09D5;
    assert Step(0x09D5) == 0xA4EB && Step(0xA4EB) == 0xF274 && Step(0xF274) == 0x793A && Step(0x793A) == 0x3C9D;
  }

  lemma Digit9()
    ensures Steps(Xor(0x3C9D, Pack(BitsOf(57, 8))), 8) == 0xBB3D
  {
    hide Steps, Pack, BitsOf;
    FedStep(57, 8);
    FedStep(28, 7);
    FedStep(14, 6);
    FedStep(7, 5);
    FedThree();
    assert Pack(BitsOf(57, 8)) == 0x39;
    assert Xor(0x3C9D, 0x39) == 0x3CA4;
    EightSteps(0x3CA4);
    assert Step(0x3CA4) == 0x1E52 && Step(0x1E52) == 0x0F29 && Step(0x0F29) == 0xA795 && Step(0xA795) == 0xF3CB;
    assert Step(0xF3CB) == 0xD9E4 && Step(0xD9E4) == 0x6CF2 && Step(0x6CF2) == 0x3679 && Step(0x3679) == 0xBB3D;
  }

  lemma RegisterNext(data: seq<Byte>, k: nat)
    requires k < |data|
    ensures Register(data[..k + 1]) == Steps(Xor(Register(data[..k]), Pack(BitsOf(data[k], 8))), 8)
  {
    hide Steps, Xor, Pack, BitsOf;
    assert data[..k + 1][..k] == data[..k];
  }

  lemma CheckNumber()
    ensures Value(0xBB3D, 16) == 0xBB3D
  {
    assert Odd(0x1) == true && Down(0x1) == 0x0 && Value(0x1, 1) == 0x1;
    assert Odd(0x2) == false && Down(0x2) == 0x1 && Value(0x2, 2) == 0x2;
    assert Odd(0x5) == true && Down(0x5) == 0x2 && Value(0x5, 3) == 0x5;
    assert Odd(0xB) == true && Down(0xB) == 0x5 && Value(0xB, 4) == 0xB;
    assert Odd(0x17) == true && Down(0x17) == 0xB && Value(0x17, 5) == 0x17;
    assert Odd(0x2E) == false && Down(0x2E) == 0x17 && Value(0x2E, 6) == 0x2E;
    assert Odd(0x5D) == true && Down(0x5D) == 0x2E && Value(0x5D, 7) == 0x5D;
    assert Odd(0xBB) == true && Down(0xBB) == 0x5D && Value(0xBB, 8) == 0xBB;
    assert Odd(0x176) == false && Down(0x176) == 0xBB && Value(0x176, 9) == 0x176;
    assert Odd(0x2EC) == false && Down(0x2EC) == 0x176 && Value(0x2EC, 10) == 0x2EC;
    assert Odd(0x5D9) == true && Down(0x5D9) == 0x2EC && Value(0x5D9, 11) == 0x5D9;
    assert Odd(0xBB3) == true && Down(0xBB3) == 0x5D9 && Value(0xBB3, 12) == 0xBB3;
    assert Odd(0x1767) == true && Down(0x1767) == 0xBB3 && Value(0x1767, 13) == 0x1767;
    assert Odd(0x2ECF) == true && Down(0x2ECF) == 0x1767 && Value(0x2ECF, 14) == 0x2ECF;
    assert Odd(0x5D9E) == false && Down(0x5D9E) == 0x2ECF && Value(0x5D9E, 15) == 0x5D9E;
    assert Odd(0xBB3D) == true && Down(0xBB3D) == 0x5D9E && Value(0xBB3D, 16) == 0xBB3D;
  }

  /** The CRC of the ASCII digits "123456789". */
  lemma CheckValue()
    ensures Crc16([49, 50, 51, 52, 53, 54, 55, 56, 57]) == 0xBB3D
  {
    hide Steps, Xor, Pack, BitsOf, Register, Value;
    var s: seq<Byte> := [49, 50, 51, 52, 53, 54, 55, 56, 57];
    assert s[..9] == s;
    NothingRead(s);
    RegisterNext(s, 0);
    Digit1();
    RegisterNext(s, 1);
    Digit2();
    RegisterNext(s, 2);
    Digit3();
    RegisterNext(s, 3);
    Digit4();
    RegisterNext(s, 4);
    Digit5();
    RegisterNext(s, 5);
    Digit6();
    RegisterNext(s, 6);
    Digit7();
    RegisterNext(s, 7);
    Digit8();
    RegisterNext(s, 8);
    Digit9();
    CheckNumber();
  }

  lemma NothingRead(data: seq<Byte>)
    ensures Register(data[..0]) == 0
  {}
}
