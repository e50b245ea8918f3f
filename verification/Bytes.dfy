/** Bytes as Python sees them (small integers), and the little helpers the tools share. */
module Bytes {
  type Byte = x: int | 0 <= x < 256
  type Word = x: int | 0 <= x < 65536

  function Zeros(n: nat): (z: seq<Byte>)
    ensures |z| == n && forall i :: 0 <= i < n ==> z[i] == 0
  {
    seq(n, _ => 0)
  }

  lemma SliceOfSlice<T>(s: seq<T>, lo: nat, hi: nat, a: nat, b: nat)
    requires lo <= hi <= |s| && a <= b <= hi - lo
    ensures s[lo..hi][a..b] == s[lo + a..lo + b]
  {
    var mid := s[lo..hi];
    forall k | 0 <= k < b - a ensures mid[a..b][k] == s[lo + a..lo + b][k] {
      assert mid[a + k] == s[lo + (a + k)];
    }
  }

  // ---------- little-endian numbers ----------

  function Le2(v: nat): (b: seq<Byte>)
    ensures |b| == 2
  {
    [v % 256, v / 256 % 256]
  }

  function Le4(v: nat): (b: seq<Byte>)
    ensures |b| == 4
  {
    Le2(v % 65536) + Le2(v / 65536)
  }

  function Num2(b: seq<Byte>): (v: Word)
    requires |b| == 2
  {
    var lo: nat, hi: nat := b[0], b[1];
    lo + 256 * hi
  }

  function Num4(b: seq<Byte>): (v: nat)
    requires |b| == 4
    ensures v < 0x1_0000_0000
  {
    Num2(b[..2]) + 65536 * Num2(b[2..])
  }

  lemma Le2RoundTrip(v: nat)
    ensures Num2(Le2(v)) == v % 0x1_0000
  {
    var high := v / 256;
    assert v == 0x1_0000 * (high / 256) + (v % 256 + 256 * (high % 256));
    Remainder(v, high / 256, v % 256 + 256 * (high % 256));
  }

  lemma Remainder(v: nat, q: nat, r: nat)
    requires v == 0x1_0000 * q + r && r < 0x1_0000
    ensures v % 0x1_0000 == r
  {}

  lemma Le4RoundTrip(v: nat)
    requires v < 0x1_0000_0000
    ensures Num4(Le4(v)) == v
  {
    hide Le2, Num2;
    Le2RoundTrip(v % 65536);
    Le2RoundTrip(v / 65536);
    assert Le4(v)[..2] == Le2(v % 65536) && Le4(v)[2..] == Le2(v / 65536);
  }

  lemma LeRoundTrip(v: nat)
    ensures v < 0x1_0000 ==> Num2(Le2(v)) == v
    ensures v < 0x1_0000_0000 ==> Num4(Le4(v)) == v
  {
    hide Le2, Le4, Num2, Num4;
    if v < 0x1_0000 {
      Le2RoundTrip(v);
    }
    if v < 0x1_0000_0000 {
      Le4RoundTrip(v);
    }
  }

  /** The number that bytes stand for, the lowest first. */
  function LittleEndian(b: seq<Byte>): nat {
    if b == [] then 0 else b[0] + 256 * LittleEndian(b[1..])
  }

  lemma NumbersAre(b: seq<Byte>)
    ensures |b| == 2 ==> Num2(b) == LittleEndian(b)
    ensures |b| == 4 ==> Num4(b) == LittleEndian(b)
  {
    if |b| == 2 {
      TwoBytes(b);
    } else if |b| == 4 {
      TwoBytes(b[..2]);
      TwoBytes(b[2..]);
      assert b[1..][1..] == b[2..];
      assert LittleEndian(b) == b[0] + 256 * LittleEndian(b[1..]);
      assert LittleEndian(b[1..]) == b[1] + 256 * LittleEndian(b[2..]);
    }
  }

  lemma TwoBytes(b: seq<Byte>)
    requires |b| == 2
    ensures Num2(b) == LittleEndian(b) && LittleEndian(b) == b[0] as nat + 256 * (b[1] as nat)
  {
    assert LittleEndian(b[1..]) == b[1] + 256 * LittleEndian(b[1..][1..]);
    assert b[1..][1..] == [];
  }
}
