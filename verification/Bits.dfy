/** The bits of bytes, the most significant first, and the numbers they stand for. */
module Bits {
  import opened Common
  import opened BigEndian

  type bits = seq<bool>

  function ByteBits(b: byte): (r: bits)
    ensures |r| == 8
  {
    [b & 0x80 != 0, b & 0x40 != 0, b & 0x20 != 0, b & 0x10 != 0,
     b & 0x08 != 0, b & 0x04 != 0, b & 0x02 != 0, b & 0x01 != 0]
  }

  function FromBigEndian(octets: seq<byte>): (r: bits)
    ensures |r| == 8 * |octets|
  {
    if octets == [] then [] else ByteBits(octets[0]) + FromBigEndian(octets[1..])
  }

  function Bit(b: bool): nat {
    if b then 1 else 0
  }

  /** The number with these binary digits. */
  function Value(x: bits): nat {
    if x == [] then 0 else 2 * Value(x[..|x| - 1]) + Bit(x[|x| - 1])
  }

  function Pow2(n: nat): (r: nat)
    ensures r > 0
  {
    if n == 0 then 1 else 2 * Pow2(n - 1)
  }

  lemma ValueSnoc(x: bits, d: bool)
    ensures Value(x + [d]) == 2 * Value(x) + Bit(d)
  {
    assert (x + [d])[..|x|] == x;
  }

  /** The binary digits of a byte are those of its number. */
  lemma ByteValue(b: byte)
    ensures Value(ByteBits(b)) == Size(b)
  {
    EightDigits(b & 0x80 != 0, b & 0x40 != 0, b & 0x20 != 0, b & 0x10 != 0,
                b & 0x08 != 0, b & 0x04 != 0, b & 0x02 != 0, b & 0x01 != 0);
    ByteSum(b);
  }

  lemma ByteSum(b: byte)
    ensures b as nat ==
              128 * Bit(b & 0x80 != 0) + 64 * Bit(b & 0x40 != 0) + 32 * Bit(b & 0x20 != 0) + 16 * Bit(b & 0x10 != 0)
              + 8 * Bit(b & 0x08 != 0) + 4 * Bit(b & 0x04 != 0) + 2 * Bit(b & 0x02 != 0) + Bit(b & 0x01 != 0)
  {
  }

  lemma FourDigits(a: bool, b: bool, c: bool, d: bool)
    ensures Value([a, b, c, d]) == 8 * Bit(a) + 4 * Bit(b) + 2 * Bit(c) + Bit(d)
  {
    hide Bit, Value;
    EmptyValue();
    ValueSnoc([], a);
    ValueSnoc([a], b);
    ValueSnoc([a, b], c);
    ValueSnoc([a, b, c], d);
    assert [] + [a] == [a] && [a] + [b] == [a, b] && [a, b] + [c] == [a, b, c] && [a, b, c] + [d] == [a, b, c, d];
  }

  lemma EightDigits(a: bool, b: bool, c: bool, d: bool, e: bool, f: bool, g: bool, h: bool)
    ensures Value([a, b, c, d, e, f, g, h]) ==
              128 * Bit(a) + 64 * Bit(b) + 32 * Bit(c) + 16 * Bit(d) + 8 * Bit(e) + 4 * Bit(f) + 2 * Bit(g) + Bit(h)
  {
    hide *;
    FourDigits(a, b, c, d);
    FourDigits(e, f, g, h);
    ValueConcat([a, b, c, d], [e, f, g, h]);
    TwoToTheEighth();
    assert [a, b, c, d] + [e, f, g, h] == [a, b, c, d, e, f, g, h];
  }

  lemma EmptyValue()
    ensures Value([]) == 0
  {
  }

  lemma {:induction false} ValueConcat(x: bits, y: bits)
    ensures Value(x + y) == Value(x) * Pow2(|y|) + Value(y)
  {
    hide Bit;
    if y == [] {
      assert x + y == x;
    } else {
      var front, last := y[..|y| - 1], y[|y| - 1];
      assert y == front + [last];
      ConcatAssoc(x, front, [last]);
      ValueConcat(x, front);
      hide Value;
      ValueSnoc(x + front, last);
      ValueSnoc(front, last);
      Twice(Value(x), Pow2(|front|));
    }
  }

  lemma Twice(v: nat, p: nat)
    ensures 2 * (v * p) == v * (2 * p)
  {
  }

  /** The octets' number is the number of their bits. */
  lemma {:induction false} BigEndianValue(octets: seq<byte>)
    ensures Value(FromBigEndian(octets)) == FromBytes(octets)
  {
    hide ByteBits, Size;
    if octets == [] {
      EmptyBytes(0);
    } else {
      var front, last := octets[..|octets| - 1], octets[|octets| - 1];
      assert octets == front + [last];
      BigEndianSnoc(front, last);
      hide *;
      BigEndianValue(front);
      ValueConcat(FromBigEndian(front), ByteBits(last));
      ByteValue(last);
      FromBytesSnoc(front, last);
      TwoToTheEighth();
    }
  }

  lemma TwoToTheEighth()
    ensures Pow2(8) == 256 && Pow2(4) == 16
  {
    assert Pow2(4) == 16;
  }

  lemma {:induction false} BigEndianSnoc(front: seq<byte>, last: byte)
    ensures FromBigEndian(front + [last]) == FromBigEndian(front) + ByteBits(last)
  {
    hide ByteBits;
    if front == [] {
      assert front + [last] == [last];
      assert FromBigEndian([last]) == ByteBits(last) + FromBigEndian([]);
      assert ByteBits(last) + [] == ByteBits(last) == [] + ByteBits(last);
    } else {
      assert (front + [last])[1..] == front[1..] + [last];
      BigEndianSnoc(front[1..], last);
      ConcatAssoc(ByteBits(front[0]), FromBigEndian(front[1..]), ByteBits(last));
    }
  }

  lemma {:induction false} ValueBound(x: bits)
    ensures Value(x) < Pow2(|x|)
  {
    if x != [] {
      ValueBound(x[..|x| - 1]);
    }
  }

  /** As many digits, and the same number: the same digits. */
  lemma {:induction false} ValueInjective(x: bits, y: bits)
    requires |x| == |y|
    ensures Value(x) == Value(y) <==> x == y
  {
    if x != [] && Value(x) == Value(y) {
      var m := |x| - 1;
      ValueInjective(x[..m], y[..m]);
      assert x == x[..m] + [x[m]] && y == y[..m] + [y[m]];
    }
  }

  // ---------------------------------------------------------------- exclusive or

  /** Exclusive or of two numbers, binary digit by binary digit. */
  function XorNat(x: nat, y: nat): nat
    decreases x + y
  {
    if x == 0 && y == 0 then 0
    else 2 * XorNat(x / 2, y / 2) + (if x % 2 == y % 2 then 0 else 1)
  }

  function XorBits(x: bits, y: bits): bits
    requires |x| == |y|
  {
    seq(|x|, i requires 0 <= i < |x| => x[i] != y[i])
  }

  lemma XorNatSnoc(p: nat, q: nat, u: bool, v: bool)
    ensures XorNat(2 * p + Bit(u), 2 * q + Bit(v)) == 2 * XorNat(p, q) + Bit(u != v)
  {
    var x, y := 2 * p + Bit(u), 2 * q + Bit(v);
    assert x / 2 == p && y / 2 == q && x % 2 == Bit(u) && y % 2 == Bit(v);
  }

  lemma XorBitsSnoc(x: bits, y: bits, u: bool, v: bool)
    requires |x| == |y|
    ensures XorBits(x + [u], y + [v]) == XorBits(x, y) + [u != v]
  {
  }

  lemma {:induction false} XorBitsValue(x: bits, y: bits)
    requires |x| == |y|
    ensures Value(XorBits(x, y)) == XorNat(Value(x), Value(y))
  {
    hide *;
    if x == [] {
      EmptyValue();
      XorNothing();
    } else {
      var m := |x| - 1;
      var front, back, u, v := x[..m], y[..m], x[m], y[m];
      assert x == front + [u] && y == back + [v];
      XorBitsValue(front, back);
      XorBitsSnoc(front, back, u, v);
      ValueSnoc(front, u);
      ValueSnoc(back, v);
      ValueSnoc(XorBits(front, back), u != v);
      XorNatSnoc(Value(front), Value(back), u, v);
    }
  }

  lemma XorNothing()
    ensures XorBits([], []) == [] && XorNat(0, 0) == 0
  {
  }

  lemma XorHighBits(x: byte, y: byte)
    ensures ((x ^ y) & 0x80 != 0) == ((x & 0x80 != 0) != (y & 0x80 != 0))
    ensures ((x ^ y) & 0x40 != 0) == ((x & 0x40 != 0) != (y & 0x40 != 0))
    ensures ((x ^ y) & 0x20 != 0) == ((x & 0x20 != 0) != (y & 0x20 != 0))
    ensures ((x ^ y) & 0x10 != 0) == ((x & 0x10 != 0) != (y & 0x10 != 0))
  {
  }

  lemma XorLowBits(x: byte, y: byte)
    ensures ((x ^ y) & 0x08 != 0) == ((x & 0x08 != 0) != (y & 0x08 != 0))
    ensures ((x ^ y) & 0x04 != 0) == ((x & 0x04 != 0) != (y & 0x04 != 0))
    ensures ((x ^ y) & 0x02 != 0) == ((x & 0x02 != 0) != (y & 0x02 != 0))
    ensures ((x ^ y) & 0x01 != 0) == ((x & 0x01 != 0) != (y & 0x01 != 0))
  {
  }

  lemma XorByteBits(x: byte, y: byte)
    ensures ByteBits(x ^ y) == XorBits(ByteBits(x), ByteBits(y))
  {
    XorHighBits(x, y);
    XorLowBits(x, y);
    BitsAt(x);
    BitsAt(y);
    BitsAt(x ^ y);
    hide ByteBits;
    XorEight(ByteBits(x), ByteBits(y), ByteBits(x ^ y));
  }

  lemma BitsAt(b: byte)
    ensures ByteBits(b)[0] == (b & 0x80 != 0) && ByteBits(b)[1] == (b & 0x40 != 0)
    ensures ByteBits(b)[2] == (b & 0x20 != 0) && ByteBits(b)[3] == (b & 0x10 != 0)
    ensures ByteBits(b)[4] == (b & 0x08 != 0) && ByteBits(b)[5] == (b & 0x04 != 0)
    ensures ByteBits(b)[6] == (b & 0x02 != 0) && ByteBits(b)[7] == (b & 0x01 != 0)
  {
  }

  lemma XorEight(x: bits, y: bits, z: bits)
    requires |x| == |y| == |z| == 8
    requires z[0] == (x[0] != y[0]) && z[1] == (x[1] != y[1]) && z[2] == (x[2] != y[2]) && z[3] == (x[3] != y[3])
    requires z[4] == (x[4] != y[4]) && z[5] == (x[5] != y[5]) && z[6] == (x[6] != y[6]) && z[7] == (x[7] != y[7])
    ensures z == XorBits(x, y)
  {
  }

  function XorBytes(x: seq<byte>, y: seq<byte>): seq<byte>
    requires |x| == |y|
  {
    seq(|x|, i requires 0 <= i < |x| => x[i] ^ y[i])
  }

  lemma {:induction false} XorBytesBits(x: seq<byte>, y: seq<byte>)
    requires |x| == |y|
    ensures FromBigEndian(XorBytes(x, y)) == XorBits(FromBigEndian(x), FromBigEndian(y))
  {
    hide ByteBits;
    if x != [] {
      assert XorBytes(x, y)[1..] == XorBytes(x[1..], y[1..]);
      XorBytesBits(x[1..], y[1..]);
      XorByteBits(x[0], y[0]);
      XorBitsConcat(ByteBits(x[0]), FromBigEndian(x[1..]), ByteBits(y[0]), FromBigEndian(y[1..]));
    }
  }

  lemma XorBitsConcat(a: bits, b: bits, c: bits, d: bits)
    requires |a| == |c| && |b| == |d|
    ensures XorBits(a + b, c + d) == XorBits(a, c) + XorBits(b, d)
  {
  }

  /** Exclusive or of two byte strings is exclusive or of their numbers. */
  lemma XorBytesValue(x: seq<byte>, y: seq<byte>)
    requires |x| == |y|
    ensures FromBytes(XorBytes(x, y)) == XorNat(FromBytes(x), FromBytes(y))
  {
    hide *;
    XorBytesBits(x, y);
    XorBitsValue(FromBigEndian(x), FromBigEndian(y));
    BigEndianValue(x);
    BigEndianValue(y);
    BigEndianValue(XorBytes(x, y));
  }

  lemma {:induction false} XorWithZero(y: nat)
    ensures XorNat(0, y) == y
  {
    if y > 0 {
      XorWithZero(y / 2);
    }
  }

  // ---------------------------------------------------------------- conjunction

  function AndBits(x: bits, y: bits): bits
    requires |x| == |y|
  {
    seq(|x|, i requires 0 <= i < |x| => x[i] && y[i])
  }

  function AndBytes(x: seq<byte>, y: seq<byte>): (r: seq<byte>)
    requires |x| == |y|
    ensures |r| == |x|
  {
    seq(|x|, i requires 0 <= i < |x| => x[i] & y[i])
  }

  lemma AndHighBits(x: byte, y: byte)
    ensures ((x & y) & 0x80 != 0) == ((x & 0x80 != 0) && (y & 0x80 != 0))
    ensures ((x & y) & 0x40 != 0) == ((x & 0x40 != 0) && (y & 0x40 != 0))
    ensures ((x & y) & 0x20 != 0) == ((x & 0x20 != 0) && (y & 0x20 != 0))
    ensures ((x & y) & 0x10 != 0) == ((x & 0x10 != 0) && (y & 0x10 != 0))
  {
  }

  lemma AndLowBits(x: byte, y: byte)
    ensures ((x & y) & 0x08 != 0) == ((x & 0x08 != 0) && (y & 0x08 != 0))
    ensures ((x & y) & 0x04 != 0) == ((x & 0x04 != 0) && (y & 0x04 != 0))
    ensures ((x & y) & 0x02 != 0) == ((x & 0x02 != 0) && (y & 0x02 != 0))
    ensures ((x & y) & 0x01 != 0) == ((x & 0x01 != 0) && (y & 0x01 != 0))
  {
  }

  lemma AndByteBits(x: byte, y: byte)
    ensures ByteBits(x & y) == AndBits(ByteBits(x), ByteBits(y))
  {
    AndHighBits(x, y);
    AndLowBits(x, y);
    BitsAt(x);
    BitsAt(y);
    BitsAt(x & y);
    hide ByteBits;
    AndEight(ByteBits(x), ByteBits(y), ByteBits(x & y));
  }

  lemma AndEight(x: bits, y: bits, z: bits)
    requires |x| == |y| == |z| == 8
    requires z[0] == (x[0] && y[0]) && z[1] == (x[1] && y[1]) && z[2] == (x[2] && y[2]) && z[3] == (x[3] && y[3])
    requires z[4] == (x[4] && y[4]) && z[5] == (x[5] && y[5]) && z[6] == (x[6] && y[6]) && z[7] == (x[7] && y[7])
    ensures z == AndBits(x, y)
  {
  }

  lemma {:induction false} AndBytesBits(x: seq<byte>, y: seq<byte>)
    requires |x| == |y|
    ensures FromBigEndian(AndBytes(x, y)) == AndBits(FromBigEndian(x), FromBigEndian(y))
  {
    hide ByteBits;
    if x != [] {
      assert AndBytes(x, y)[1..] == AndBytes(x[1..], y[1..]);
      AndBytesBits(x[1..], y[1..]);
      AndByteBits(x[0], y[0]);
      AndBitsConcat(ByteBits(x[0]), FromBigEndian(x[1..]), ByteBits(y[0]), FromBigEndian(y[1..]));
    }
  }

  lemma AndBitsConcat(a: bits, b: bits, c: bits, d: bits)
    requires |a| == |c| && |b| == |d|
    ensures AndBits(a + b, c + d) == AndBits(a, c) + AndBits(b, d)
  {
  }

  /** Octets with the same bits are the same. */
  lemma SameBits(x: seq<byte>, y: seq<byte>)
    requires |x| == |y|
    ensures FromBigEndian(x) == FromBigEndian(y) <==> x == y
  {
    hide *;
    BigEndianValue(x);
    BigEndianValue(y);
    ToFromBytes(x);
    ToFromBytes(y);
  }
}
