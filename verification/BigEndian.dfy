/** Big-endian byte strings of numbers, as `int.to_bytes` and `int.from_bytes` give them. */
module BigEndian {
  import opened Common

  function Pow256(n: nat): (r: nat)
    ensures r > 0
  {
    if n == 0 then 1 else 256 * Pow256(n - 1)
  }

  /** The last `width` base-256 digits of `n`, the most significant first. */
  function ToBytes(n: nat, width: nat): (r: seq<byte>)
    ensures |r| == width
  {
    if width == 0 then [] else ToBytes(n / 256, width - 1) + [U8(n % 256)]
  }

  function FromBytes(s: seq<byte>): nat {
    if s == [] then 0 else 256 * FromBytes(s[..|s| - 1]) + Size(s[|s| - 1])
  }

  lemma FromBytesSnoc(front: seq<byte>, last: byte)
    ensures FromBytes(front + [last]) == 256 * FromBytes(front) + Size(last)
  {
    hide Size;
    assert (front + [last])[..|front|] == front;
  }

  lemma ToBytesSnoc(q: nat, d: nat, width: nat)
    requires d < 256
    ensures ToBytes(256 * q + d, width + 1) == ToBytes(q, width) + [U8(d)]
  {
    hide U8;
    LastDigit(q, d);
  }

  lemma {:induction false} FromBytesBound(s: seq<byte>)
    ensures FromBytes(s) < Pow256(|s|)
  {
    hide Size;
    if s != [] {
      FromBytesBound(s[..|s| - 1]);
    }
  }

  /** Reading back what was written: the number modulo the width. */
  lemma {:induction false} FromToBytes(n: nat, width: nat)
    ensures n < Pow256(width) ==> FromBytes(ToBytes(n, width)) == n
  {
    hide U8, Size, ToBytes, FromBytes;
    if width == 0 {
      EmptyBytes(n);
    } else {
      var q, d := n / 256, n % 256;
      ToBytesSnoc(q, d, width - 1);
      FromBytesSnoc(ToBytes(q, width - 1), U8(d));
      FromToBytes(q, width - 1);
      SizeOfU8(d);
      FrontFits(n, Pow256(width - 1));
    }
  }

  lemma EmptyBytes(n: nat)
    ensures ToBytes(n, 0) == [] && FromBytes([]) == 0
  {
  }

  lemma FrontFits(n: nat, limit: nat)
    ensures n < 256 * limit ==> n / 256 < limit
  {
  }

  lemma {:induction false} ToFromBytes(s: seq<byte>)
    ensures ToBytes(FromBytes(s), |s|) == s
  {
    hide *;
    if s == [] {
      EmptyBytes(0);
    } else {
      var front, last := s[..|s| - 1], s[|s| - 1];
      assert s == front + [last];
      ToFromBytes(front);
      FromBytesSnoc(front, last);
      ToBytesSnoc(FromBytes(front), Size(last), |front|);
      U8OfSize(last);
    }
  }

  lemma LastDigit(q: nat, d: nat)
    requires d < 256
    ensures (256 * q + d) / 256 == q && (256 * q + d) % 256 == d
  {
  }

  lemma Pow256Values()
    ensures Pow256(4) == 0x1_0000_0000 && Pow256(8) == 0x1_0000_0000_0000_0000
  {
    assert Pow256(0) == 1 && Pow256(1) == 256 && Pow256(2) == 0x1_0000 && Pow256(3) == 0x100_0000;
    assert Pow256(4) == 0x1_0000_0000 && Pow256(5) == 0x100_0000_0000 && Pow256(6) == 0x1_0000_0000_0000;
    assert Pow256(7) == 0x100_0000_0000_0000;
  }
}
