// Little-endian byte strings.
module Endian {
  import opened Arith
  import opened Bits

  function Modulus(width: nat): (m: int)
    ensures m >= 1
  {
    if width == 0 then 1 else M8 * Modulus(width - 1)
  }

  lemma ModulusTable()
    ensures Modulus(0) == 1 && Modulus(1) == M8 && Modulus(2) == M16 && Modulus(4) == M32
  {
    assert Modulus(1) == M8 && Modulus(2) == M8 * Modulus(1) && Modulus(3) == M8 * Modulus(2)
        && Modulus(4) == M8 * Modulus(3);
  }

  /** The low `width` bytes of x, least significant first. */
  function LittleEndian(x: nat, width: nat): (bs: seq<Byte>)
    ensures |bs| == width
  {
    if width == 0 then [] else [x % M8] + LittleEndian(x / M8, width - 1)
  }

  function FromLittleEndian(bs: seq<Byte>): (x: nat)
    ensures x < Modulus(|bs|)
  {
    if bs == [] then 0 else bs[0] + M8 * FromLittleEndian(bs[1..])
  }

  lemma {:induction false} BytesRoundTrip(bs: seq<Byte>)
    ensures LittleEndian(FromLittleEndian(bs), |bs|) == bs
  {
    if bs != [] {
      BytesRoundTrip(bs[1..]);
      var x, y := FromLittleEndian(bs), FromLittleEndian(bs[1..]);
      assert x % M8 == bs[0] && x / M8 == y;
    }
  }

  lemma {:induction false} ValueRoundTrip(x: nat, width: nat)
    requires x < Modulus(width)
    ensures FromLittleEndian(LittleEndian(x, width)) == x
  {
    if width > 0 {
      ValueRoundTrip(x / M8, width - 1);
      assert LittleEndian(x, width)[1..] == LittleEndian(x / M8, width - 1);
    }
  }

  /** Byte k of the little-endian form is digit k in base 256. */
  lemma {:induction false} LittleEndianDigit(x: nat, width: nat, k: nat)
    requires k < width
    ensures LittleEndian(x, width)[k] == (x / Modulus(k)) % M8
  {
    if k > 0 {
      LittleEndianDigit(x / M8, width - 1, k - 1);
      DivDiv(x, Modulus(k - 1));
    }
  }

  lemma DivDiv(x: nat, d: nat)
    requires d > 0
    ensures x / M8 / d == x / (M8 * d)
    ensures x % (M8 * d) == M8 * ((x / M8) % d) + x % M8
  {
    var q, r := x / M8 / d, (x / M8) % d;
    Division(x / M8, d);
    Regroup(q, d);
    DivModUnique(x, M8 * d, q, M8 * r + x % M8);
  }

  lemma Regroup(q: nat, d: nat)
    ensures M8 * (q * d) == q * (M8 * d)
  {}

  lemma {:induction false} LittleEndianTruncates(x: nat, width: nat)
    ensures FromLittleEndian(LittleEndian(x, width)) == x % Modulus(width)
  {
    if width > 0 {
      LittleEndianTruncates(x / M8, width - 1);
      assert LittleEndian(x, width)[1..] == LittleEndian(x / M8, width - 1);
      DivDiv(x, Modulus(width - 1));
    }
  }

  function ShiftLeft(b: nat, k: nat): nat
  {
    if k == 0 then b else 2 * ShiftLeft(b, k - 1)
  }

  lemma {:induction false} ShiftLeftMultiplies(b: nat, k: nat)
    ensures ShiftLeft(b, k) == b * Pow2(k)
  {
    if k > 0 {
      ShiftLeftMultiplies(b, k - 1);
      Double(b, Pow2(k - 1));
    }
  }

  lemma Double(b: nat, p: nat)
    ensures b * (2 * p) == 2 * (b * p)
  {}

  /** Or of a number with one shifted past it is their sum. */
  lemma {:induction false} OrDisjoint(a: nat, b: nat, k: nat)
    requires a < Pow2(k)
    ensures Or(a, ShiftLeft(b, k)) == a + ShiftLeft(b, k)
  {
    if k == 0 {
      OrZero(b);
    } else {
      OrDisjoint(a / 2, b, k - 1);
      var y := ShiftLeft(b, k - 1);
      OrStep(a, 2 * y);
      assert 2 * y / 2 == y;
    }
  }

  lemma {:induction false} OrZero(b: nat)
    ensures Or(0, b) == b
  {
    if b > 0 { OrZero(b / 2); }
  }

  lemma {:induction false} AndLowBits(x: nat, k: nat)
    ensures And(x, Pow2(k) - 1) == x % Pow2(k)
  {
    if k == 0 {
      AndNothing(x);
    } else {
      var p := Pow2(k - 1);
      AndLowBits(x / 2, k - 1);
      HalfMod(x, p);
      HalveAnd(x, p - 1);
    }
  }

  lemma AndNothing(x: nat)
    ensures And(x, 0) == 0
  {}

  lemma PowBy8(n: nat)
    ensures Pow2(n + 8) == 256 * Pow2(n)
  {
    assert Pow2(n + 4) == 16 * Pow2(n) by { assert Pow2(n + 2) == 4 * Pow2(n); }
    assert Pow2(n + 8) == 16 * Pow2(n + 4) by { assert Pow2(n + 6) == 4 * Pow2(n + 4); }
  }

  lemma Pow2Bytes()
    ensures Pow2(8) == M8 && Pow2(16) == M16 && Pow2(24) == M24 && Pow2(32) == M32
  {
    assert Pow2(8) == 256 by { assert Pow2(4) == 16; assert Pow2(6) == 64; }
    PowBy8(8);
    PowBy8(16);
    PowBy8(24);
  }

  // ------------------------------------------- the C++ helpers of memory.cpp

  function LdLe16(p0: Byte, p1: Byte): nat { Or(p0, p1 * M8) }

  function LdLe32(p0: Byte, p1: Byte, p2: Byte, p3: Byte): nat
  {
    Or(Or(Or(p0, p1 * M8), p2 * M16), p3 * M24)
  }

  function LowByte(v: nat): Byte { And(v, 0xFF) }

  /** Loading with shifts and ORs is the little-endian value of the bytes. */
  lemma LoadIsLittleEndian(bs: seq<Byte>)
    ensures |bs| == 2 ==> LdLe16(bs[0], bs[1]) == FromLittleEndian(bs)
    ensures |bs| == 4 ==> LdLe32(bs[0], bs[1], bs[2], bs[3]) == FromLittleEndian(bs)
    ensures Modulus(1) == M8 && Modulus(2) == M16 && Modulus(4) == M32
  {
    Pow2Bytes();
    ModulusTable();
    if |bs| == 2 || |bs| == 4 {
      ShiftLeftMultiplies(bs[1], 8);
      OrDisjoint(bs[0], bs[1], 8);
      FromLittleEndianDigits(bs);
    }
    if |bs| == 4 {
      ShiftLeftMultiplies(bs[2], 16);
      ShiftLeftMultiplies(bs[3], 24);
      OrDisjoint(bs[0] + bs[1] * M8, bs[2], 16);
      OrDisjoint(bs[0] + bs[1] * M8 + bs[2] * M16, bs[3], 24);
    }
  }

  lemma FromLittleEndianDigits(bs: seq<Byte>)
    ensures |bs| == 1 ==> FromLittleEndian(bs) == bs[0]
    ensures |bs| == 2 ==> FromLittleEndian(bs) == bs[0] + M8 * bs[1]
    ensures |bs| == 4 ==> FromLittleEndian(bs) == bs[0] + M8 * bs[1] + M16 * bs[2] + M24 * bs[3]
  {
    if |bs| == 4 {
      assert bs[1..][1..] == bs[2..] && bs[2..][1..] == bs[3..];
      assert FromLittleEndian(bs[3..]) == bs[3];
      assert FromLittleEndian(bs[2..]) == bs[2] + M8 * bs[3];
      assert FromLittleEndian(bs[1..]) == bs[1] + M8 * (bs[2] + M8 * bs[3]);
    }
  }

  /** Storing byte by byte with shifts and masks writes the little-endian digits. */
  lemma StoreIsLittleEndian(v: nat)
    ensures LittleEndian(v, 1) == [LowByte(v)]
    ensures LittleEndian(v, 2) == [LowByte(v), LowByte(v / M8)]
    ensures LittleEndian(v, 4) == [LowByte(v), LowByte(v / M8), LowByte(v / M16), LowByte(v / M24)]
  {
    Pow2Bytes();
    AndLowBits(v, 8);
    AndLowBits(v / M8, 8);
    AndLowBits(v / M16, 8);
    AndLowBits(v / M24, 8);
    forall k | 0 <= k < 4
      ensures LittleEndian(v, 4)[k] == (v / Modulus(k)) % M8
    {
      LittleEndianDigit(v, 4, k);
    }
    forall k | 0 <= k < 2
      ensures LittleEndian(v, 2)[k] == (v / Modulus(k)) % M8
    {
      LittleEndianDigit(v, 2, k);
    }
    assert Modulus(1) == M8 && Modulus(2) == M8 * Modulus(1) && Modulus(3) == M8 * Modulus(2);
  }

  lemma Unfold(bs: seq<Byte>)
    ensures bs != [] ==> FromLittleEndian(bs) == bs[0] + M8 * FromLittleEndian(bs[1..])
    ensures |bs| > 1 ==> bs[1..][1..] == bs[2..]
    ensures |bs| > 2 ==> bs[2..][1..] == bs[3..]
  {}

  /** The number that up to four bytes stand for, written out. */
  lemma BytesToNumber(bs: seq<Byte>)
    requires |bs| in {0, 1, 2, 4}
    ensures FromLittleEndian(bs) ==
      if bs == [] then 0
      else bs[0] + (if |bs| >= 2 then M8 * bs[1] else 0) + (if |bs| == 4 then M16 * bs[2] + M24 * bs[3] else 0)
  {
    Unfold(bs);
    if |bs| > 1 { Unfold(bs[1..]); }
    if |bs| > 2 { Unfold(bs[2..]); Unfold(bs[3..]); }
  }
}
