/** The CRC-16 of the NVM records (reflected polynomial 0xA001, initial value 0). */
module Crc {
  import opened Bytes

  // ---------- the register, as the tool shifts it ----------

  function Step(c: bv16): bv16 {
    (c >> 1) ^ (c & 1) ^ ((c & 1) << 13) ^ ((c & 1) << 15)
  }

  function Steps(c: bv16, n: nat): bv16
    decreases n
  {
    if n == 0 then c else Steps(Step(c), n - 1)
  }

  function Xor(a: bv16, b: bv16): bv16 { a ^ b }

  function Up(a: bv16): bv16 { a << 1 }

  function Down(a: bv16): bv16 { a >> 1 }

  predicate Odd(a: bv16) { a & 1 == 1 }

  function Bit(b: bool): bv16 { if b then 1 else 0 }

  /** The n low bits of v, least significant first. */
  function BitsOf(v: nat, n: nat): (bits: seq<bool>)
    ensures |bits| == n
  {
    if n == 0 then [] else [v % 2 == 1] + BitsOf(v / 2, n - 1)
  }

  /** Bits, least significant first, as a register value. */
  function Pack(bits: seq<bool>): bv16 {
    if bits == [] then 0 else Xor(Bit(bits[0]), Up(Pack(bits[1..])))
  }

  function Pow2(n: nat): nat { if n == 0 then 1 else 2 * Pow2(n - 1) }

  /** The n low bits of the register as an integer. */
  function Value(c: bv16, n: nat): (v: nat)
    ensures v < Pow2(n)
    decreases n
  {
    if n == 0 then 0 else (if Odd(c) then 1 else 0) + 2 * Value(Down(c), n - 1)
  }

  function Register(data: seq<Byte>): bv16 {
    if data == [] then 0
    else Steps(Xor(Register(data[..|data| - 1]), Pack(BitsOf(data[|data| - 1], 8))), 8)
  }

  function Crc16(data: seq<Byte>): (crc: Word) {
    Pow2Values();
    Value(Register(data), 16)
  }

  lemma Pow2Values()
    ensures Pow2(8) == 256 && Pow2(16) == 65536
  {
    assert Pow2(4) == 16;
    assert Pow2(12) == 4096;
  }

  method ComputeCrc16(data: seq<Byte>) returns (crc: Word)
    ensures crc == Crc16(data)
  {
    hide Step, Xor;
    var c: bv16 := 0;
    for k := 0 to |data|
      invariant c == Register(data[..k])
    {
      c := Xor(c, Pack(BitsOf(data[k], 8)));
      ghost var all := Steps(c, 8);
      for i := 0 to 8
        invariant Steps(c, 8 - i) == all
      {
        c := Step(c);
      }
      assert data[..k + 1][..k] == data[..k];
    }
    assert data[..|data|] == data;
    Pow2Values();
    crc := Value(c, 16);
  }

  // ---------- register arithmetic: one-step facts ----------

  function BitStep(c: bv16, bit: bool): bv16 { Step(Xor(c, Bit(bit))) }

  predicate Within(p: bv16, m: bv16) { p & !m == 0 }

  predicate Agree(a: bv16, b: bv16, m: bv16) { a & m == b & m }

  predicate HighClear(p: bv16) { p & 0x8000 == 0 }

  function Grow(m: bv16): bv16 { (m << 1) | 1 }

  function Mask(n: nat): bv16 { if n == 0 then 0 else Grow(Mask(n - 1)) }

  lemma XorZero(c: bv16)
    ensures Xor(c, 0) == c && Xor(c, c) == 0 && Within(0, 0)
  {}

  lemma PackStep(bit: bool, p: bv16, m: bv16)
    requires Within(p, m)
    ensures Within(Xor(Bit(bit), Up(p)), Grow(m))
  {
    hide Xor, Within;
    BitWithin(bit, m);
    UpWithin(p, m);
    XorWithin(Bit(bit), Up(p), Grow(m));
  }

  lemma BitWithin(bit: bool, m: bv16)
    ensures Within(Bit(bit), Grow(m))
  {}

  lemma UpWithin(p: bv16, m: bv16)
    requires Within(p, m)
    ensures Within(Up(p), Grow(m))
  {}

  lemma XorWithin(p: bv16, q: bv16, m: bv16)
    requires Within(p, m) && Within(q, m)
    ensures Within(Xor(p, q), m)
  {}

  lemma WithinLow(p: bv16, m: bv16)
    requires Within(p, m) && HighClear(m)
    ensures HighClear(p)
  {}

  lemma StepInjective(a: bv16, b: bv16, bit: bool)
    requires BitStep(a, bit) == BitStep(b, bit)
    ensures a == b
  {}

  /** A bit above position 0 only moves down one place in a step. */
  lemma Peel(c: bv16, bit: bool, high: bv16)
    requires HighClear(high)
    ensures Step(Xor(c, Xor(Bit(bit), Up(high)))) == Xor(BitStep(c, bit), high)
  {}

  lemma StepLinear(a: bv16, b: bv16)
    ensures Step(Xor(a, b)) == Xor(Step(a), Step(b))
  {}

  lemma StepDown(high: bv16)
    requires HighClear(high)
    ensures Step(Up(high)) == high
  {}

  lemma StepCancels(x: bv16, y: bv16)
    requires Step(x) == Step(y)
    ensures x == y
  {}

  lemma XorAssociative(a: bv16, b: bv16, c: bv16)
    ensures Xor(Xor(a, b), c) == Xor(a, Xor(b, c))
  {}

  lemma XorSwap(a: bv16, b: bv16, x: bv16, y: bv16)
    ensures Xor(Xor(a, x), Xor(b, y)) == Xor(Xor(a, b), Xor(x, y))
  {
    assert Xor(b, x) == Xor(x, b);
    hide Xor;
    XorAssociative(a, x, Xor(b, y));
    XorAssociative(x, b, y);
    XorAssociative(b, x, y);
    XorAssociative(a, b, Xor(x, y));
  }

  lemma XorMove(a: bv16, b: bv16, d: bv16)
    requires Xor(a, b) == d
    ensures a == Xor(b, d)
  {}

  lemma BitsDiffer(p: bool, q: bool)
    ensures Xor(Bit(p), Bit(q)) == Bit(p != q)
  {}

  /** The step is linear and invertible on values whose top bit is clear. */
  lemma Unstep(a: bv16, b: bv16, p: bool, q: bool, high: bv16)
    requires HighClear(high)
    requires Xor(BitStep(a, p), BitStep(b, q)) == high
    ensures Xor(a, b) == Xor(Bit(p != q), Up(high))
  {
    hide Xor, Step, Bit, Up, HighClear;
    StepLinear(Xor(a, Bit(p)), Xor(b, Bit(q)));
    StepDown(high);
    StepCancels(Xor(Xor(a, Bit(p)), Xor(b, Bit(q))), Up(high));
    XorSwap(a, b, Bit(p), Bit(q));
    BitsDiffer(p, q);
    XorMove(Xor(a, b), Bit(p != q), Up(high));
  }

  lemma PackZeroStep(bit: bool, high: bv16)
    requires HighClear(high) && Xor(Bit(bit), Up(high)) == 0
    ensures !bit && high == 0
  {}

  lemma AgreeStep(a: bv16, b: bv16, m: bv16)
    requires Odd(a) == Odd(b) && Agree(Down(a), Down(b), m)
    ensures Agree(a, b, Grow(m))
  {}

  lemma MaskValues(n: nat)
    requires n <= 15
    ensures HighClear(Mask(n)) && Mask(16) == 0xFFFF
  {
    assert Mask(2) == 3;
    assert Mask(4) == 0xF;
    assert Mask(6) == 0x3F;
    assert Mask(8) == 0xFF;
    assert Mask(10) == 0x3FF;
    assert Mask(12) == 0xFFF;
    assert Mask(14) == 0x3FFF;
  }

  lemma AgreeAll(a: bv16, b: bv16)
    requires Agree(a, b, 0xFFFF)
    ensures a == b
  {}

  lemma AgreeNone(a: bv16, b: bv16)
    ensures Agree(a, b, 0)
  {}

  lemma {:induction false} ValueInjective(a: bv16, b: bv16, n: nat)
    requires Value(a, n) == Value(b, n)
    ensures Agree(a, b, Mask(n))
    decreases n
  {
    hide Down, Odd, Agree, Grow;
    if n == 0 {
      AgreeNone(a, b);
    } else {
      ValueInjective(Down(a), Down(b), n - 1);
      AgreeStep(a, b, Mask(n - 1));
    }
  }

  lemma {:induction false} PackFits(bits: seq<bool>)
    requires |bits| <= 15
    ensures Within(Pack(bits), Mask(|bits|)) && HighClear(Pack(bits))
  {
    hide Bit, Up, Xor, Within, Grow, HighClear;
    if bits == [] {
      XorZero(0);
    } else {
      PackFits(bits[1..]);
      PackStep(bits[0], Pack(bits[1..]), Mask(|bits| - 1));
    }
    MaskValues(|bits|);
    WithinLow(Pack(bits), Mask(|bits|));
  }

  // ---------- a bit-serial reference ----------

  function Serial(c: bv16, bits: seq<bool>): bv16
    decreases |bits|
  {
    if bits == [] then c else Serial(BitStep(c, bits[0]), bits[1..])
  }

  function Bits(data: seq<Byte>): (bits: seq<bool>)
    ensures |bits| == 8 * |data|
  {
    if data == [] then [] else Bits(data[..|data| - 1]) + BitsOf(data[|data| - 1], 8)
  }

  lemma {:induction false} StepsAreSerial(c: bv16, bits: seq<bool>)
    requires |bits| <= 16
    ensures Steps(Xor(c, Pack(bits)), |bits|) == Serial(c, bits)
    decreases |bits|
  {
    hide Bit, Up, Xor, Step, BitStep, HighClear;
    if bits == [] {
      XorZero(c);
    } else {
      PackFits(bits[1..]);
      Peel(c, bits[0], Pack(bits[1..]));
      StepsAreSerial(BitStep(c, bits[0]), bits[1..]);
    }
  }

  lemma {:induction false} SerialConcat(c: bv16, u: seq<bool>, v: seq<bool>)
    ensures Serial(c, u + v) == Serial(Serial(c, u), v)
    decreases |u|
  {
    hide BitStep;
    if u == [] {
      assert u + v == v;
    } else {
      SerialConcat(BitStep(c, u[0]), u[1..], v);
      assert (u + v)[1..] == u[1..] + v;
    }
  }

  /** The byte-wise loop computes the bit-serial register. */
  lemma {:induction false} RegisterIsSerial(data: seq<Byte>)
    ensures Register(data) == Serial(0, Bits(data))
  {
    hide Xor, Step, BitStep;
    if data != [] {
      var init, last := data[..|data| - 1], BitsOf(data[|data| - 1], 8);
      RegisterIsSerial(init);
      SerialConcat(0, Bits(init), last);
      StepsAreSerial(Register(init), last);
    }
  }

  // ---------- detection ----------

  function Differences(u: seq<bool>, v: seq<bool>): (d: seq<bool>)
    requires |u| == |v|
    ensures |d| == |u|
  {
    seq(|u|, i requires 0 <= i < |u| => u[i] != v[i])
  }

  /** Two runs over equally many bits (at most 16) that end in one state started apart by their differences. */
  lemma {:induction false} RunsThatMeet(a: bv16, b: bv16, u: seq<bool>, v: seq<bool>)
    requires |u| == |v| <= 16
    requires Serial(a, u) == Serial(b, v)
    ensures Xor(a, b) == Pack(Differences(u, v))
    decreases |u|
  {
    hide Bit, Up, Xor, Step, BitStep, HighClear;
    if u == [] {
      XorZero(a);
    } else {
      var rest := Differences(u[1..], v[1..]);
      assert Differences(u, v)[1..] == rest;
      RunsThatMeet(BitStep(a, u[0]), BitStep(b, v[0]), u[1..], v[1..]);
      PackFits(rest);
      Unstep(a, b, u[0], v[0], Pack(rest));
    }
  }

  /** The serial register is linear over XOR. */
  lemma {:induction false} SerialLinear(a: bv16, b: bv16, u: seq<bool>, v: seq<bool>)
    requires |u| == |v|
    ensures Serial(Xor(a, b), Differences(u, v)) == Xor(Serial(a, u), Serial(b, v))
    decreases |u|
  {
    hide Bit, Xor, Step;
    if u != [] {
      assert Differences(u, v)[1..] == Differences(u[1..], v[1..]);
      SerialLinear(BitStep(a, u[0]), BitStep(b, v[0]), u[1..], v[1..]);
      StepLinear(Xor(a, Bit(u[0])), Xor(b, Bit(v[0])));
      XorSwap(a, b, Bit(u[0]), Bit(v[0]));
      BitsDiffer(u[0], v[0]);
    }
  }

  lemma {:induction false} PackZero(bits: seq<bool>, i: nat)
    requires |bits| <= 16 && Pack(bits) == 0 && i < |bits|
    ensures !bits[i]
  {
    hide Bit, Up, Xor, HighClear;
    PackFits(bits[1..]);
    PackZeroStep(bits[0], Pack(bits[1..]));
    if i > 0 {
      PackZero(bits[1..], i - 1);
    }
  }

  lemma {:induction false} SerialInjective(a: bv16, b: bv16, bits: seq<bool>)
    requires Serial(a, bits) == Serial(b, bits)
    ensures a == b
    decreases |bits|
  {
    hide BitStep;
    if bits != [] {
      SerialInjective(BitStep(a, bits[0]), BitStep(b, bits[0]), bits[1..]);
      StepInjective(a, b, bits[0]);
    }
  }

  lemma WindowInjective(c: bv16, u: seq<bool>, v: seq<bool>)
    requires |u| == |v| <= 16 && Serial(c, u) == Serial(c, v)
    ensures u == v
  {
    hide Xor, BitStep;
    RunsThatMeet(c, c, u, v);
    XorZero(c);
    forall i | 0 <= i < |u| ensures u[i] == v[i] {
      PackZero(Differences(u, v), i);
      assert !Differences(u, v)[i];
    }
  }

  /** Two bit strings that differ, and only inside one window of 16 bits, have different registers. */
  lemma SerialBurst(u: seq<bool>, v: seq<bool>, p: nat)
    requires |u| == |v| && u != v
    requires forall q :: 0 <= q < |u| && !(p <= q < p + 16) ==> u[q] == v[q]
    ensures Serial(0, u) != Serial(0, v)
  {
    hide BitStep;
    var lo := if p <= |u| then p else |u|;
    var hi := if p + 16 <= |u| then p + 16 else |u|;
    var head, mid, mid', tail := u[..lo], u[lo..hi], v[lo..hi], u[hi..];
    assert u == head + mid + tail;
    assert v == head + mid' + tail;
    var c := Serial(0, head);
    SerialConcat(0, head + mid, tail);
    SerialConcat(0, head + mid', tail);
    SerialConcat(0, head, mid);
    SerialConcat(0, head, mid');
    if Serial(0, u) == Serial(0, v) {
      SerialInjective(Serial(c, mid), Serial(c, mid'), tail);
      WindowInjective(c, mid, mid');
      assert false;
    }
  }

  lemma {:induction false} BitsOfInjective(a: nat, b: nat, n: nat)
    requires a < Pow2(n) && b < Pow2(n)
    requires BitsOf(a, n) == BitsOf(b, n)
    ensures a == b
  {
    if n > 0 {
      assert BitsOf(a, n)[0] == BitsOf(b, n)[0];
      assert BitsOf(a, n)[1..] == BitsOf(a / 2, n - 1);
      assert BitsOf(b, n)[1..] == BitsOf(b / 2, n - 1);
      BitsOfInjective(a / 2, b / 2, n - 1);
    }
  }

  lemma {:induction false} BitsInjective(d: seq<Byte>, e: seq<Byte>)
    requires |d| == |e| && Bits(d) == Bits(e)
    ensures d == e
  {
    if d != [] {
      var k := |d| - 1;
      assert Bits(d)[..8 * k] == Bits(d[..k]) && Bits(e)[..8 * k] == Bits(e[..k]);
      assert Bits(d)[8 * k..] == BitsOf(d[k], 8) && Bits(e)[8 * k..] == BitsOf(e[k], 8);
      BitsInjective(d[..k], e[..k]);
      Pow2Values();
      BitsOfInjective(d[k], e[k], 8);
      assert d == d[..k] + [d[k]] && e == e[..k] + [e[k]];
    }
  }

  /** Burst detection: an error confined to 16 consecutive bits always changes the CRC. */
  lemma BurstChangesCrc(d: seq<Byte>, e: seq<Byte>, p: nat)
    requires |d| == |e| && d != e
    requires forall q :: 0 <= q < 8 * |d| && !(p <= q < p + 16) ==> Bits(d)[q] == Bits(e)[q]
    ensures Crc16(d) != Crc16(e)
  {
    hide Agree;
    if Bits(d) == Bits(e) {
      BitsInjective(d, e);
    }
    SerialBurst(Bits(d), Bits(e), p);
    RegisterIsSerial(d);
    RegisterIsSerial(e);
    if Crc16(d) == Crc16(e) {
      ValueInjective(Register(d), Register(e), 16);
      MaskValues(0);
      AgreeAll(Register(d), Register(e));
    }
  }

  // ---------- parity ----------

  /** Whether an odd number of the n low bits of the register are ones. */
  function OddLow(c: bv16, n: nat): bool
    decreases n
  {
    if n == 0 then false else Odd(c) != OddLow(Down(c), n - 1)
  }

  function Parity(c: bv16): bool { OddLow(c, 16) }

  function OddOnes(bits: seq<bool>): bool {
    if bits == [] then false else bits[0] != OddOnes(bits[1..])
  }

  lemma ParityStep(c: bv16, bit: bool)
    ensures Parity(BitStep(c, bit)) == (Parity(c) != bit)
  {
    hide Parity, Step, Xor;
    StepKeepsParity(Xor(c, Bit(bit)));
    BitFlipsParity(c);
    XorZero(c);
    assert Bit(true) == 1 && Bit(false) == 0;
  }

  lemma XorBits(a: bv16, b: bv16)
    ensures Odd(Xor(a, b)) == (Odd(a) != Odd(b)) && Down(Xor(a, b)) == Xor(Down(a), Down(b))
  {}

  lemma {:induction false} XorParity(a: bv16, b: bv16, n: nat)
    ensures OddLow(Xor(a, b), n) == (OddLow(a, n) != OddLow(b, n))
    decreases n
  {
    hide Odd, Down, Xor;
    if n > 0 {
      XorBits(a, b);
      XorParity(Down(a), Down(b), n - 1);
    }
  }

  const POLYNOMIAL: bv16 := 0xA001

  lemma StepIs(c: bv16)
    ensures Step(c) == Xor(Down(c), if Odd(c) then POLYNOMIAL else 0)
  {}

  lemma WithinDown(c: bv16, m: bv16)
    requires Within(c, Grow(m))
    ensures Within(Down(c), m)
  {}

  lemma WithinNothing(c: bv16)
    requires Within(c, 0)
    ensures !Odd(c)
  {}

  lemma {:induction false} HighBitsOff(c: bv16, n: nat)
    requires Within(c, Mask(n))
    ensures OddLow(c, n + 1) == OddLow(c, n)
    decreases n
  {
    hide Odd, Down, Within, Grow;
    if n == 0 {
      WithinNothing(c);
    } else {
      WithinDown(c, Mask(n - 1));
      HighBitsOff(Down(c), n - 1);
    }
  }

  lemma DownIsLow(c: bv16)
    ensures Within(Down(c), 0x7FFF)
  {}

  /** The polynomial's three ones, and none in 0. */
  lemma PolynomialParity()
    ensures OddLow(POLYNOMIAL, 16) && !OddLow(0, 16) && OddLow(1, 16)
  {
    ZeroParity(16);
    ZeroParity(15);
    ZeroParity(0);
    assert Down(1) == 0 && OddLow(1, 1) && OddLow(2, 2) && !OddLow(5, 3) && !OddLow(0xA, 4);
    assert Down(0x28) == 0x14 && Down(0x14) == 0xA && !OddLow(0x28, 6);
    assert Down(0xA0) == 0x50 && Down(0x50) == 0x28 && !OddLow(0xA0, 8);
    assert Down(0x280) == 0x140 && Down(0x140) == 0xA0 && !OddLow(0x280, 10);
    assert Down(0xA00) == 0x500 && Down(0x500) == 0x280 && !OddLow(0xA00, 12);
    assert Down(0x2800) == 0x1400 && Down(0x1400) == 0xA00 && !OddLow(0x2800, 14);
    assert Down(0x5000) == 0x2800 && Down(POLYNOMIAL) == 0x5000;
  }

  lemma {:induction false} ZeroParity(n: nat)
    ensures !OddLow(0, n)
  {
    if n > 0 {
      assert Down(0) == 0;
      ZeroParity(n - 1);
    }
  }

  lemma StepKeepsParity(c: bv16)
    ensures Parity(Step(c)) == Parity(c)
  {
    hide Odd, Down, Xor, Step, Within, Mask;
    StepIs(c);
    XorParity(Down(c), if Odd(c) then POLYNOMIAL else 0, 16);
    PolynomialParity();
    DownIsLow(c);
    MaskOf15();
    HighBitsOff(Down(c), 15);
    assert OddLow(c, 16) == (Odd(c) != OddLow(Down(c), 15));
  }

  lemma MaskOf15()
    ensures Mask(15) == 0x7FFF
  {
    assert Mask(4) == 0xF;
    assert Mask(8) == 0xFF;
    assert Mask(12) == 0xFFF;
  }

  lemma BitFlipsParity(c: bv16)
    ensures Parity(Xor(c, 1)) != Parity(c)
  {
    hide Odd, Down, Xor;
    XorParity(c, 1, 16);
    PolynomialParity();
  }

  /** The polynomial has the factor x + 1: the register's parity is that of the bits fed in. */
  lemma {:induction false} SerialParity(c: bv16, bits: seq<bool>)
    ensures Parity(Serial(c, bits)) == (Parity(c) != OddOnes(bits))
    decreases |bits|
  {
    hide Parity, BitStep;
    if bits != [] {
      SerialParity(BitStep(c, bits[0]), bits[1..]);
      ParityStep(c, bits[0]);
    }
  }

  lemma {:induction false} OddDifferences(u: seq<bool>, v: seq<bool>)
    requires |u| == |v|
    ensures OddOnes(Differences(u, v)) == (OddOnes(u) != OddOnes(v))
  {
    if u != [] {
      assert Differences(u, v)[1..] == Differences(u[1..], v[1..]);
      OddDifferences(u[1..], v[1..]);
    }
  }

  /** The two differ in an odd number of bits. */
  predicate OddFlips(d: seq<Byte>, e: seq<Byte>)
    requires |d| == |e|
  {
    OddOnes(Differences(Bits(d), Bits(e)))
  }

  /** Any odd number of flipped bits, wherever they are, changes the CRC. */
  lemma OddFlipsChangeCrc(d: seq<Byte>, e: seq<Byte>)
    requires |d| == |e| && OddFlips(d, e)
    ensures Crc16(d) != Crc16(e)
  {
    hide Parity, Agree, Bits, Differences, BitStep;
    OddDifferences(Bits(d), Bits(e));
    RegisterIsSerial(d);
    RegisterIsSerial(e);
    SerialParity(0, Bits(d));
    SerialParity(0, Bits(e));
    if Crc16(d) == Crc16(e) {
      ValueInjective(Register(d), Register(e), 16);
      MaskValues(0);
      AgreeAll(Register(d), Register(e));
    }
  }
}
