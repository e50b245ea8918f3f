/** zlib's CRC-32 (reflected polynomial 0xEDB88320, all ones in and out). */
module ZlibCrc {
  import opened Bytes

  function Step32(c: bv32): bv32 { (c >> 1) ^ (if c & 1 == 1 then 0xEDB88320 else 0) }

  function Steps32(c: bv32, n: nat): bv32
    decreases n
  {
    if n == 0 then c else Steps32(Step32(c), n - 1)
  }

  function Inverted(c: bv32): bv32 { c ^ 0xFFFF_FFFF }

  function FeedByte(c: bv32, x: Byte): bv32 { Steps32(c ^ (x as bv32), 8) }

  function Feed(c: bv32, data: seq<Byte>): bv32 {
    if data == [] then c else FeedByte(Feed(c, data[..|data| - 1]), data[|data| - 1])
  }

  /** zlib.crc32(data, start). */
  function Crc32(data: seq<Byte>, start: bv32): bv32 { Inverted(Feed(Inverted(start), data)) }

  function Number(c: bv32): (n: nat)
    ensures n < 0x1_0000_0000
  {
    c as nat
  }

  lemma {:induction false} FeedConcat(c: bv32, u: seq<Byte>, v: seq<Byte>)
    ensures Feed(c, u + v) == Feed(Feed(c, u), v)
  {
    hide FeedByte;
    if v == [] {
      assert u + v == u;
    } else {
      FeedConcat(c, u, v[..|v| - 1]);
      assert (u + v)[..|u + v| - 1] == u + v[..|v| - 1];
    }
  }

  lemma InvertTwice(c: bv32)
    ensures Inverted(Inverted(c)) == c
  {}

  /** Passing the CRC of one piece as the start of the next gives the CRC of the pieces put together. */
  lemma ChainedCrc(u: seq<Byte>, v: seq<Byte>, start: bv32)
    ensures Crc32(u + v, start) == Crc32(v, Crc32(u, start))
    ensures Crc32([], start) == start
  {
    hide FeedByte, Inverted;
    FeedConcat(Inverted(start), u, v);
    InvertTwice(Feed(Inverted(start), u));
    InvertTwice(start);
  }

  // ---------- the published check value ----------

  lemma EightSteps(c: bv32)
    ensures Steps32(c, 8) == Step32(Step32(Step32(Step32(Step32(Step32(Step32(Step32(c))))))))
  {
    hide Step32;
    assert Steps32(c, 8) == Steps32(Step32(Step32(c)), 6) == Steps32(Step32(Step32(Step32(Step32(c)))), 4);
  }

  lemma Digit1()
    ensures FeedByte(0xFFFFFFFF, 49) == 0x7C231048
  {
    hide Steps32;
    assert 0xFFFFFFFF ^ (49 as bv32) == 0xFFFFFFCE;
    EightSteps(0xFFFFFFCE);
    assert Step32(0xFFFFFFCE) == 0x7FFFFFE7 && Step32(0x7FFFFFE7) == 0xD2477CD3;
    assert Step32(0xD2477CD3) == 0x849B3D49 && Step32(0x849B3D49) == 0xAFF51D84;
    assert Step32(0xAFF51D84) == 0x57FA8EC2 && Step32(0x57FA8EC2) == 0x2BFD4761;
    assert Step32(0x2BFD4761) == 0xF8462090 && Step32(0xF8462090) == 0x7C231048;
  }

  lemma Digit2()
    ensures FeedByte(0x7C231048, 50) == 0xB0ACBB32
  {
    hide Steps32;
    assert 0x7C231048 ^ (50 as bv32) == 0x7C23107A;
    EightSteps(0x7C23107A);
    assert Step32(0x7C23107A) == 0x3E11883D && Step32(0x3E11883D) == 0xF2B0473E;
    assert Step32(0xF2B0473E) == 0x7958239F && Step32(0x7958239F) == 0xD11492EF;
    assert Step32(0xD11492EF) == 0x8532CA57 && Step32(0x8532CA57) == 0xAF21E60B;
    assert Step32(0xAF21E60B) == 0xBA287025 && Step32(0xBA287025) == 0xB0ACBB32;
  }

  lemma Digit3()
    ensures FeedByte(0xB0ACBB32, 51) == 0x77B79C2D
  {
    hide Steps32;
    assert 0xB0ACBB32 ^ (51 as bv32) == 0xB0ACBB01;
    EightSteps(0xB0ACBB01);
    assert Step32(0xB0ACBB01) == 0xB5EEDEA0 && Step32(0xB5EEDEA0) == 0x5AF76F50;
    assert Step32(0x5AF76F50) == 0x2D7BB7A8 && Step32(0x2D7BB7A8) == 0x16BDDBD4;
    assert Step32(0x16BDDBD4) == 0x0B5EEDEA && Step32(0x0B5EEDEA) == 0x05AF76F5;
    assert Step32(0x05AF76F5) == 0xEF6F385A && Step32(0xEF6F385A) == 0x77B79C2D;
  }

  lemma Digit4()
    ensures FeedByte(0x77B79C2D, 52) == 0x641C1F5C
  {
    hide Steps32;
    assert 0x77B79C2D ^ (52 as bv32) == 0x77B79C19;
    EightSteps(0x77B79C19);
    assert Step32(0x77B79C19) == 0xD6634D2C && Step32(0xD6634D2C) == 0x6B31A696;
    assert Step32(0x6B31A696) == 0x3598D34B && Step32(0x3598D34B) == 0xF774EA85;
    assert Step32(0xF774EA85) == 0x9602F662 && Step32(0x9602F662) == 0x4B017B31;
    assert Step32(0x4B017B31) == 0xC8383EB8 && Step32(0xC8383EB8) == 0x641C1F5C;
  }

  lemma Digit5()
    ensures FeedByte(0x641C1F5C, 53) == 0x340AC5E3
  {
    hide Steps32;
    assert 0x641C1F5C ^ (53 as bv32) == 0x641C1F69;
    EightSteps(0x641C1F69);
    assert Step32(0x641C1F69) == 0xDFB68C94 && Step32(0xDFB68C94) == 0x6FDB464A;
    assert Step32(0x6FDB464A) == 0x37EDA325 && Step32(0x37EDA325) == 0xF64E52B2;
    assert Step32(0xF64E52B2) == 0x7B272959 && Step32(0x7B272959) == 0xD02B178C;
    assert Step32(0xD02B178C) == 0x68158BC6 && Step32(0x68158BC6) == 0x340AC5E3;
  }

  lemma Digit6()
    ensures FeedByte(0x340AC5E3, 54) == 0xF68D2C9E
  {
    hide Steps32;
    assert 0x340AC5E3 ^ (54 as bv32) == 0x340AC5D5;
    EightSteps(0x340AC5D5);
    assert Step32(0x340AC5D5) == 0xF7BDE1CA && Step32(0xF7BDE1CA) == 0x7BDEF0E5;
    assert Step32(0x7BDEF0E5) == 0xD057FB52 && Step32(0xD057FB52) == 0x682BFDA9;
    assert Step32(0x682BFDA9) == 0xD9AD7DF4 && Step32(0xD9AD7DF4) == 0x6CD6BEFA;
    assert Step32(0x6CD6BEFA) == 0x366B5F7D && Step32(0x366B5F7D) == 0xF68D2C9E;
  }

  lemma Digit7()
    ensures FeedByte(0xF68D2C9E, 55) == 0xAFFC9660
  {
    hide Steps32;
    assert 0xF68D2C9E ^ (55 as bv32) == 0xF68D2CA9;
    EightSteps(0xF68D2CA9);
    assert Step32(0xF68D2CA9) == 0x96FE1574 && Step32(0x96FE1574) == 0x4B7F0ABA;
    assert Step32(0x4B7F0ABA) == 0x25BF855D && Step32(0x25BF855D) == 0xFF67418E;
    assert Step32(0xFF67418E) == 0x7FB3A0C7 && Step32(0x7FB3A0C7) == 0xD2615343;
    assert Step32(0xD2615343) == 0x84882A81 && Step32(0x84882A81) == 0xAFFC9660;
  }

  lemma Digit8()
    ensures FeedByte(0xAFFC9660, 56) == 0x651F2550
  {
    hide Steps32;
    assert 0xAFFC9660 ^ (56 as bv32) == 0xAFFC9658;
    EightSteps(0xAFFC9658);
    assert Step32(0xAFFC9658) == 0x57FE4B2C && Step32(0x57FE4B2C) == 0x2BFF2596;
    assert Step32(0x2BFF2596) == 0x15FF92CB && Step32(0x15FF92CB) == 0xE7474A45;
    assert Step32(0xE7474A45) == 0x9E1B2602 && Step32(0x9E1B2602) == 0x4F0D9301;
    assert Step32(0x4F0D9301) == 0xCA3E4AA0 && Step32(0xCA3E4AA0) == 0x651F2550;
  }

  lemma Digit9()
    ensures FeedByte(0x651F2550, 57) == 0x340BC6D9
  {
    hide Steps32;
    assert 0x651F2550 ^ (57 as bv32) == 0x651F2569;
    EightSteps(0x651F2569);
    assert Step32(0x651F2569) == 0xDF371194 && Step32(0xDF371194) == 0x6F9B88CA;
    assert Step32(0x6F9B88CA) == 0x37CDC465 && Step32(0x37CDC465) == 0xF65E6112;
    assert Step32(0xF65E6112) == 0x7B2F3089 && Step32(0x7B2F3089) == 0xD02F1B64;
    assert Step32(0xD02F1B64) == 0x68178DB2 && Step32(0x68178DB2) == 0x340BC6D9;
  }

  lemma FeedNext(data: seq<Byte>, k: nat)
    requires k < |data|
    ensures Feed(0xFFFF_FFFF, data[..k + 1]) == FeedByte(Feed(0xFFFF_FFFF, data[..k]), data[k])
  {
    hide FeedByte;
    assert data[..k + 1][..k] == data[..k];
  }

  lemma Ends()
    ensures Inverted(0) == 0xFFFF_FFFF && Inverted(0x340BC6D9) == 0xCBF4_3926 && Number(0xCBF4_3926) == 0xCBF4_3926
  {}

  lemma NothingFed(data: seq<Byte>)
    ensures Feed(0xFFFF_FFFF, data[..0]) == 0xFFFF_FFFF
  {}

  /** The CRC-32 of the ASCII digits "123456789". */
  lemma CheckValue()
    ensures Number(Crc32([49, 50, 51, 52, 53, 54, 55, 56, 57], 0)) == 0xCBF4_3926
  {
    hide Feed, FeedByte, Inverted, Number;
    var s: seq<Byte> := [49, 50, 51, 52, 53, 54, 55, 56, 57];
    assert s[..9] == s;
    Ends();
    NothingFed(s);
    FeedNext(s, 0);
    Digit1();
    FeedNext(s, 1);
    Digit2();
    FeedNext(s, 2);
    Digit3();
    FeedNext(s, 3);
    Digit4();
    FeedNext(s, 4);
    Digit5();
    FeedNext(s, 5);
    Digit6();
    FeedNext(s, 6);
    Digit7();
    FeedNext(s, 7);
    Digit8();
    FeedNext(s, 8);
    Digit9();
  }
}
