/** The hash the password key derivations are run with. */
module Hashing {
  import opened Common

  datatype Hash = Hash(blockSize: nat, size: nat, digest: seq<byte> -> seq<byte>) {
    ghost predicate Valid() {
      blockSize > 0 && size > 0 && forall data :: |digest(data)| == size
    }
  }

  /** One byte for the block and one for the digest are enough. */
  lemma SmallestHash()
    ensures Hash(1, 1, _ => [0]).Valid()
  {
  }
}

/** The PKCS#12 key derivation (RFC 7292, Appendix B.2). */
module Pkcs12Kdf {
  import opened Common
  import opened BigEndian
  import opened Hashing

  newtype u16 = x: int | 0 <= x < 0x1_0000

  // ---------------------------------------------------------------- the RFC, on numbers and streams

  /** `n` bytes of copies of `src`, the last one possibly cut off. */
  function Cycle(src: seq<byte>, n: nat): (r: seq<byte>)
    requires n > 0 ==> src != []
    ensures |r| == n
  {
    seq(n, i requires 0 <= i < n && src != [] => src[i % |src|])
  }

  /** `v` times the ceiling of `n / v`. */
  function RoundUp(n: nat, v: nat): nat
    requires v > 0
  {
    v * ((n + v - 1) / v)
  }

  function Utf16Units(s: string): seq<nat> {
    if s == "" then []
    else
      var c := s[0] as nat;
      (if c < 0x1_0000 then [c] else [0xD800 + (c - 0x1_0000) / 0x400, 0xDC00 + (c - 0x1_0000) % 0x400])
      + Utf16Units(s[1..])
  }

  function UnitsToBytes(units: seq<nat>): seq<byte> {
    if units == [] then [] else ToBytes(units[0], 2) + UnitsToBytes(units[1..])
  }

  /** The password as big-endian UTF-16 with a NUL at its end. */
  function PasswordBytes(pass: string): (r: seq<byte>)
    ensures r != []
  {
    UnitsToBytes(Utf16Units(pass)) + ToBytes(0, 2)
  }

  /** The `r`-th iterate of the hash; at least one. */
  function Iterated(h: Hash, data: seq<byte>, rounds: nat): (a: seq<byte>)
    requires h.Valid()
    ensures |a| == h.size
  {
    if rounds <= 1 then h.digest(data) else h.digest(Iterated(h, data, rounds - 1))
  }

  /** One block plus `b` plus one, modulo 256 to the block length. */
  function AddBlock(x: seq<byte>, b: seq<byte>): seq<byte> {
    ToBytes((FromBytes(x) + FromBytes(b) + 1) % Pow256(|x|), |x|)
  }

  /** Every `v`-byte block of `i` plus `b` plus one. */
  function AddToBlocks(i: seq<byte>, b: seq<byte>, v: nat): (r: seq<byte>)
    requires v > 0
    ensures |r| == |i|
    decreases |i|
  {
    if |i| < v then i
    else AddToBlocks(i[..|i| - v], b, v) + AddBlock(i[|i| - v..], b)
  }

  datatype Params = Params(h: Hash, diversifier: seq<byte>, rounds: nat) {
    function A(i: seq<byte>): (a: seq<byte>)
      requires h.Valid()
      ensures |a| == h.size
    {
      Iterated(h, diversifier + i, rounds)
    }

    function Next(i: seq<byte>): (r: seq<byte>)
      requires h.Valid()
      ensures |r| == |i|
    {
      AddToBlocks(i, Cycle(A(i), h.blockSize), h.blockSize)
    }

    /** A_1 || A_2 || ... || A_c. */
    function Stream(i: seq<byte>, c: nat): seq<byte>
      requires h.Valid()
      decreases c
    {
      if c == 0 then [] else A(i) + Stream(Next(i), c - 1)
    }

    /** The first `n` bytes of the stream. */
    function Output(i: seq<byte>, n: nat): (r: seq<byte>)
      requires h.Valid()
      ensures |r| == n
      decreases n
    {
      if n <= h.size then A(i)[..n] else A(i) + Output(Next(i), n - h.size)
    }
  }

  function InitialKey(pass: string, salt: seq<byte>, v: nat): seq<byte>
    requires v > 0
  {
    var p := PasswordBytes(pass);
    SaltToFill(salt, v);
    Cycle(salt, RoundUp(|salt|, v)) + Cycle(p, RoundUp(|p|, v))
  }

  lemma SaltToFill(salt: seq<byte>, v: nat)
    requires v > 0
    ensures RoundUp(|salt|, v) > 0 ==> salt != []
  {
    if salt == [] {
      assert (v - 1) / v == 0;
    }
  }

  function KdfSpec(pass: string, salt: seq<byte>, id: byte, rounds: nat, keyLen: nat, h: Hash): seq<byte>
    requires h.Valid()
  {
    Params(h, seq(h.blockSize, _ => id), rounds).Output(InitialKey(pass, salt, h.blockSize), keyLen)
  }

  // ---------------------------------------------------------------- laws of the output

  lemma {:induction false} StreamLength(p: Params, i: seq<byte>, c: nat)
    requires p.h.Valid()
    ensures |p.Stream(i, c)| == c * p.h.size
    decreases c
  {
    hide Params.A, Params.Next;
    if c > 0 {
      StreamLength(p, p.Next(i), c - 1);
      assert (c - 1) * p.h.size + p.h.size == c * p.h.size;
    }
  }

  /** The output is a prefix of A_1 || A_2 || ... for any number of blocks long enough. */
  lemma {:induction false} OutputIsPrefix(p: Params, i: seq<byte>, n: nat, c: nat)
    requires p.h.Valid() && n <= c * p.h.size
    ensures |p.Stream(i, c)| == c * p.h.size
    ensures p.Output(i, n) == p.Stream(i, c)[..n]
    decreases c
  {
    hide Params.A, Params.Next;
    StreamLength(p, i, c);
    if c > 0 {
      if n > p.h.size {
        assert (c - 1) * p.h.size == c * p.h.size - p.h.size;
        OutputIsPrefix(p, p.Next(i), n - p.h.size, c - 1);
        var rest := p.Stream(p.Next(i), c - 1);
        assert (p.A(i) + rest)[..n] == p.A(i) + rest[..n - p.h.size];
      } else {
        assert p.Stream(i, c)[..n] == p.A(i)[..n];
      }
    }
  }

  /** A shorter key is a prefix of a longer one. */
  lemma ShorterKeyIsPrefix(pass: string, salt: seq<byte>, id: byte, rounds: nat, m: nat, n: nat, h: Hash)
    requires h.Valid() && m <= n
    ensures KdfSpec(pass, salt, id, rounds, m, h) == KdfSpec(pass, salt, id, rounds, n, h)[..m]
  {
    var p := Params(h, seq(h.blockSize, _ => id), rounds);
    var i := InitialKey(pass, salt, h.blockSize);
    assert n <= n * h.size by { Grows(n, h.size); }
    OutputIsPrefix(p, i, m, n);
    OutputIsPrefix(p, i, n, n);
  }

  lemma Grows(n: nat, k: nat)
    requires k > 0
    ensures n <= n * k
  {
  }

  // ---------------------------------------------------------------- the carry

  lemma {:induction false} FromBytesCons(x: byte, s: seq<byte>)
    ensures FromBytes([x] + s) == Size(x) * Pow256(|s|) + FromBytes(s)
  {
    hide Size, FromBytes;
    if s == [] {
      assert [x] + s == [] + [x];
      EmptyBytes(0);
      FromBytesSnoc([], x);
    } else {
      var front, last := s[..|s| - 1], s[|s| - 1];
      assert s == front + [last] && [x] + s == ([x] + front) + [last];
      FromBytesSnoc([x] + front, last);
      FromBytesSnoc(front, last);
      FromBytesCons(x, front);
      Shift(Size(x), Pow256(|front|));
    }
  }

  lemma Shift(x: nat, w: nat)
    ensures 256 * (x * w) == x * (256 * w)
  {
  }

  /** What the carry loop keeps: the low bytes done so far and the carry are the sum of the low bytes plus one. */
  ghost predicate CarryHolds(done: seq<byte>, x: seq<byte>, b: seq<byte>, carry: u16) {
    |done| == |x| == |b| && carry <= 1 &&
    FromBytes(done) + carry as nat * Pow256(|x|) == FromBytes(x) + FromBytes(b) + 1
  }

  /** `carry + x as u16 + y as u16`, which cannot overflow. */
  function Widen(carry: u16, x: byte, y: byte): (sum: u16)
    requires carry <= 1
    ensures sum as nat == carry as nat + Size(x) + Size(y) && sum < 0x200
  {
    carry + (Size(x) as u16 + Size(y) as u16)
  }

  /** `carry as u8`. */
  function Low(carry: u16): byte {
    U8(carry as nat % 256)
  }

  lemma LowAndHigh(carry: u16)
    requires carry < 0x200
    ensures carry as nat == 256 * (carry / 256) as nat + Size(Low(carry)) && carry / 256 <= 1
  {
    SizeOfU8(carry as nat % 256);
  }

  lemma CarryStep(done: seq<byte>, x: seq<byte>, b: seq<byte>, carry: u16, xk: byte, bk: byte)
    requires CarryHolds(done, x, b, carry)
    ensures carry <= 1
    ensures var sum := Widen(carry, xk, bk);
            sum < 0x200 && CarryHolds([Low(sum)] + done, [xk] + x, [bk] + b, sum / 256)
  {
    hide U8, Size, FromBytes, Widen, Low, Pow256;
    var sum := Widen(carry, xk, bk);
    LowAndHigh(sum);
    FromBytesCons(Low(sum), done);
    FromBytesCons(xk, x);
    FromBytesCons(bk, b);
    NextPower(|x|);
    CarryArithmetic(FromBytes(done), FromBytes(x), FromBytes(b), carry as nat, Size(xk), Size(bk),
                    Size(Low(sum)), (sum / 256) as nat, Pow256(|x|));
  }

  lemma NextPower(n: nat)
    ensures Pow256(n + 1) == 256 * Pow256(n)
  {
  }

  lemma CarryArithmetic(f: nat, p: nat, q: nat, c: nat, x: nat, b: nat, d: nat, c2: nat, w: nat)
    requires f + c * w == p + q + 1 && c + x + b == 256 * c2 + d
    ensures d * w + f + c2 * (256 * w) == (x * w + p) + (b * w + q) + 1
  {
    Distribute(c, x, b, w);
    Distribute(256 * c2, d, 0, w);
    Shift(c2, w);
  }

  lemma Distribute(a: nat, b: nat, c: nat, w: nat)
    ensures (a + b + c) * w == a * w + b * w + c * w
  {
  }

  lemma CarryDone(done: seq<byte>, x: seq<byte>, b: seq<byte>, carry: u16)
    requires CarryHolds(done, x, b, carry)
    ensures done == AddBlock(x, b)
  {
    hide ToBytes, FromBytes, Pow256;
    FromBytesBound(done);
    ToFromBytes(done);
    ReduceOnce(FromBytes(x) + FromBytes(b) + 1, FromBytes(done), Pow256(|x|));
  }

  lemma ReduceOnce(total: nat, f: nat, w: nat)
    requires f < w && (total == f || total == f + w)
    ensures total % w == f
  {
    if total == f + w {
      assert total / w == 1;
    }
  }

  // ---------------------------------------------------------------- the loops

  /** Adds `b` and one to the block at `j`, from its last byte to its first; the sum fits 16 bits. */
  method AddBlockInPlace(initKey: array<byte>, j: nat, b: array<byte>)
    requires b.Length > 0 && j + b.Length <= initKey.Length && initKey != b
    modifies initKey
    ensures initKey[..] == BlockAdded(old(initKey[..]), j, b[..])
  {
    hide *;
    var v := b.Length;
    ghost var start, bs := initKey[..], b[..];
    var carry: u16 := 1;
    var k := v - 1;
    CarryStart(start, bs, j);
    while true
      invariant 0 <= k < v && b[..] == bs
      invariant SuffixDone(start, initKey[..], bs, j, k + 1, carry)
      decreases k
    {
      ghost var before := initKey[..];
      CarryLoopStep(start, before, bs, j, k, carry);
      carry := Widen(carry, initKey[k + j], b[k]);
      initKey[j + k] := Low(carry);
      assert initKey[..] == before[j + k := Low(carry)];
      carry := carry / 256;
      if k == 0 {
        break;
      }
      k := k - 1;
    }
    CarryLoopDone(start, initKey[..], bs, j, carry);
  }

  /** `i` with the block at `j` replaced by its sum with `b` and one. */
  function BlockAdded(i: seq<byte>, j: nat, b: seq<byte>): seq<byte>
    requires j + |b| <= |i|
  {
    i[..j] + AddBlock(i[j..j + |b|], b) + i[j + |b|..]
  }

  /** From `k` on the block at `j` holds the low bytes of the sum; everything else is as it was. */
  ghost predicate SuffixDone(start: seq<byte>, now: seq<byte>, b: seq<byte>, j: nat, k: nat, carry: u16) {
    && |now| == |start| && k <= |b| && j + |b| <= |start|
    && now[..j + k] == start[..j + k] && now[j + |b|..] == start[j + |b|..]
    && CarryHolds(now[j + k..j + |b|], start[j + k..j + |b|], b[k..], carry)
  }

  lemma CarryStart(start: seq<byte>, b: seq<byte>, j: nat)
    requires j + |b| <= |start|
    ensures SuffixDone(start, start, b, j, |b|, 1)
  {
    assert start[j + |b|..j + |b|] == [] && b[|b|..] == [];
  }

  lemma CarryLoopStep(start: seq<byte>, now: seq<byte>, b: seq<byte>, j: nat, k: nat, carry: u16)
    requires k < |b| && SuffixDone(start, now, b, j, k + 1, carry)
    ensures j + |b| <= |now| && carry <= 1
    ensures var sum := Widen(carry, now[j + k], b[k]);
            SuffixDone(start, now[j + k := Low(sum)], b, j, k, sum / 256)
  {
    hide CarryHolds, Widen, Low;
    var done, x := now[j + k + 1..j + |b|], start[j + k + 1..j + |b|];
    CarryStep(done, x, b[k + 1..], carry, start[j + k], b[k]);
    assert now[j + k] == start[j + k] by {
      assert now[..j + k + 1][j + k] == start[..j + k + 1][j + k];
    }
    SuffixGrows(start, now, b, j, k, Low(Widen(carry, now[j + k], b[k])));
  }

  /** The pieces before, at and after position `k` of the block, once its byte is set. */
  lemma SuffixGrows(start: seq<byte>, now: seq<byte>, b: seq<byte>, j: nat, k: nat, d: byte)
    requires |now| == |start| && k < |b| && j + |b| <= |start|
    requires now[..j + k + 1] == start[..j + k + 1] && now[j + |b|..] == start[j + |b|..]
    ensures var next := now[j + k := d];
            && next[..j + k] == start[..j + k] && next[j + |b|..] == start[j + |b|..]
            && next[j + k..j + |b|] == [d] + now[j + k + 1..j + |b|]
    ensures start[j + k..j + |b|] == [start[j + k]] + start[j + k + 1..j + |b|]
    ensures b[k..] == [b[k]] + b[k + 1..]
  {
    var next := now[j + k := d];
    assert next[..j + k] == now[..j + k + 1][..j + k];
  }

  lemma CarryLoopDone(start: seq<byte>, now: seq<byte>, b: seq<byte>, j: nat, carry: u16)
    requires SuffixDone(start, now, b, j, 0, carry)
    ensures now == BlockAdded(start, j, b)
  {
    hide CarryHolds, AddBlock;
    assert b[0..] == b;
    CarryDone(now[j..j + |b|], start[j..j + |b|], b, carry);
    assert now == now[..j] + now[j..j + |b|] + now[j + |b|..];
  }

  /** The length of `n` blocks. */
  ghost function Blocks(n: nat, v: nat): nat {
    n * v
  }

  /** All blocks in turn; the key is a whole number `n` of blocks long. */
  method AddToBlocksInPlace(initKey: array<byte>, b: array<byte>, ghost n: nat)
    requires b.Length > 0 && initKey.Length == Blocks(n, b.Length) && initKey != b
    modifies initKey
    ensures initKey[..] == AddToBlocks(old(initKey[..]), b[..], b.Length)
  {
    hide *;
    ghost var start, bs := initKey[..], b[..];
    ghost var front, rest := [], start;
    var j := 0;
    ghost var m := 0;
    NoBlocks(start, bs);
    while j < initKey.Length
      invariant j == Blocks(m, b.Length) == |front| && m <= n && b[..] == bs
      invariant |front| + |rest| == |start| && front + rest == start
      invariant initKey[..] == AddToBlocks(front, bs, |bs|) + rest
      decreases n - m
    {
      NextBlock(m, n, b.Length);
      front, rest := OneMoreBlock(front, rest, bs);
      AddBlockInPlace(initKey, j, b);
      j := j + b.Length;
      m := m + 1;
    }
    NothingLeft(front, rest);
    NothingLeft(AddToBlocks(front, bs, |bs|), rest);
  }

  lemma NextBlock(m: nat, n: nat, v: nat)
    requires Blocks(m, v) < Blocks(n, v)
    ensures m < n && Blocks(m + 1, v) == Blocks(m, v) + v && Blocks(m + 1, v) <= Blocks(n, v)
  {
    if m >= n {
      MulOrder(n, m, v);
    } else {
      MulOrder(m + 1, n, v);
    }
  }

  lemma MulOrder(a: nat, b: nat, v: nat)
    requires a <= b
    ensures a * v <= b * v
  {
  }

  lemma NoBlocks(start: seq<byte>, b: seq<byte>)
    requires b != []
    ensures AddToBlocks([], b, |b|) + start == [] + start == start
    ensures Blocks(0, |b|) == 0
  {
  }

  lemma NothingLeft<T>(front: seq<T>, rest: seq<T>)
    ensures |rest| == 0 ==> front + rest == front
  {
  }

  lemma AddToBlocksSnoc(front: seq<byte>, last: seq<byte>, b: seq<byte>)
    requires b != [] && |last| == |b|
    ensures AddToBlocks(front + last, b, |b|) == AddToBlocks(front, b, |b|) + AddBlock(last, b)
  {
    hide AddBlock;
    var i := front + last;
    assert i[..|i| - |b|] == front && i[|i| - |b|..] == last;
  }

  lemma {:induction false} AddToBlocksConcat(x: seq<byte>, y: seq<byte>, n: nat, b: seq<byte>)
    requires b != [] && |y| == n * |b|
    ensures AddToBlocks(x + y, b, |b|) == AddToBlocks(x, b, |b|) + AddToBlocks(y, b, |b|)
    decreases n, 0
  {
    if n == 0 {
      assert y == [] && x + y == x;
      assert AddToBlocks(y, b, |b|) == [];
    } else {
      assert |y| == (n - 1) * |b| + |b|;
      var front, last := y[..|y| - |b|], y[|y| - |b|..];
      ConcatStep(x, front, last, n - 1, b);
      assert y == front + last;
    }
  }

  lemma ConcatStep(x: seq<byte>, front: seq<byte>, last: seq<byte>, n: nat, b: seq<byte>)
    requires b != [] && |front| == n * |b| && |last| == |b|
    ensures var y := front + last;
            AddToBlocks(x + y, b, |b|) == AddToBlocks(x, b, |b|) + AddToBlocks(y, b, |b|)
    decreases n, 1
  {
    hide *;
    assert x + (front + last) == (x + front) + last;
    AddToBlocksConcat(x, front, n, b);
    AddToBlocksSnoc(front, last, b);
    AddToBlocksSnoc(x + front, last, b);
    var a, f, l := AddToBlocks(x, b, |b|), AddToBlocks(front, b, |b|), AddBlock(last, b);
    assert a + f + l == a + (f + l);
  }

  /** Each block becomes (block + B + 1) mod 256^v, whatever blocks stand before and after it. */
  lemma EveryBlockAdded(x: seq<byte>, blk: seq<byte>, y: seq<byte>, n: nat, b: seq<byte>)
    requires b != [] && |blk| == |b| && |y| == n * |b|
    ensures AddToBlocks(x + blk + y, b, |b|)
            == AddToBlocks(x, b, |b|) + AddBlock(blk, b) + AddToBlocks(y, b, |b|)
    ensures |AddToBlocks(x, b, |b|)| == |x| && |AddBlock(blk, b)| == |blk|
    ensures FromBytes(AddBlock(blk, b)) == (FromBytes(blk) + FromBytes(b) + 1) % Pow256(|b|)
  {
    hide AddToBlocks;
    AddToBlocksConcat(x + blk, y, n, b);
    AddToBlocksSnoc(x, blk, b);
    AddBlockValue(blk, b);
  }

  lemma AddBlockValue(x: seq<byte>, b: seq<byte>)
    ensures |AddBlock(x, b)| == |x|
    ensures FromBytes(AddBlock(x, b)) == (FromBytes(x) + FromBytes(b) + 1) % Pow256(|x|)
  {
    FromToBytes((FromBytes(x) + FromBytes(b) + 1) % Pow256(|x|), |x|);
  }

  /** The block `x` between a part already done and a part still to do. */
  lemma BlockAddedAt(front: seq<byte>, x: seq<byte>, tail: seq<byte>, b: seq<byte>)
    requires |x| == |b|
    ensures BlockAdded(front + x + tail, |front|, b) == front + AddBlock(x, b) + tail
  {
    hide AddBlock;
    var now := front + x + tail;
    assert now[..|front|] == front && now[|front|..|front| + |b|] == x && now[|front| + |b|..] == tail;
  }

  /** One more block goes from the rest to the front. */
  lemma OneMoreBlock(front: seq<byte>, rest: seq<byte>, b: seq<byte>) returns (longer: seq<byte>, shorter: seq<byte>)
    requires b != [] && |b| <= |rest|
    ensures longer + shorter == front + rest
    ensures |longer| == |front| + |b| && |shorter| == |rest| - |b|
    ensures BlockAdded(AddToBlocks(front, b, |b|) + rest, |front|, b) == AddToBlocks(longer, b, |b|) + shorter
  {
    hide *;
    var x, tail := rest[..|b|], rest[|b|..];
    longer, shorter := front + x, tail;
    assert rest == x + tail;
    ConcatAssoc(front, x, tail);
    OneBlockMore(front, x, tail, b);
  }

  lemma OneBlockMore(front: seq<byte>, x: seq<byte>, tail: seq<byte>, b: seq<byte>)
    requires b != [] && |x| == |b|
    ensures BlockAdded(AddToBlocks(front, b, |b|) + (x + tail), |front|, b) == AddToBlocks(front + x, b, |b|) + tail
  {
    hide *;
    var done := AddToBlocks(front, b, |b|);
    ConcatAssoc(done, x, tail);
    BlockAddedAt(done, x, tail, b);
    AddToBlocksSnoc(front, x, b);
  }

  /** `kdf`: the key is filled in place while the diversified input is stepped from block to block. */
  method Kdf(pass: string, salt: seq<byte>, id: byte, rounds: nat, keyLen: nat, h: Hash) returns (result: array<byte>)
    requires h.Valid()
    ensures fresh(result) && result[..] == KdfSpec(pass, salt, id, rounds, keyLen, h)
  {
    hide Params.Output, InitialKey;
    var d := seq(h.blockSize, _ => id);
    var initKey, blocks := FillInitialKey(pass, salt, h.blockSize);
    result := new byte[keyLen];
    FillResult(Params(h, d, rounds), initKey, blocks, result);
  }

  /** The loop over the digests. */
  method FillResult(p: Params, initKey: array<byte>, ghost blocks: nat, result: array<byte>)
    requires p.h.Valid() && initKey != result && initKey.Length == Blocks(blocks, p.h.blockSize)
    modifies initKey, result
    ensures result[..] == p.Output(old(initKey[..]), result.Length)
  {
    hide *;
    var pos := 0;
    ghost var goal := p.Output(initKey[..], result.Length);
    StillToDoStart(p, initKey[..], result.Length);
    assert result[..0] == [];
    while true
      invariant 0 <= pos <= result.Length
      invariant StillToDo(p, goal, result[..pos], initKey[..], result.Length - pos)
      decreases result.Length - pos
    {
      ghost var i, done := initKey[..], result[..pos];
      var a := Hashed(p.h, p.diversifier + initKey[..], p.rounds);
      ParamsA(p, p.diversifier, i);
      var toAdd := if |a| < result.Length - pos then |a| else result.Length - pos;
      StillToDoStep(p, goal, done, i, result.Length - pos);
      CopyInto(result, pos, a[..toAdd]);
      pos := pos + toAdd;
      if pos == result.Length {
        break;
      }
      assert a[..toAdd] == a;
      NextKey(p.h, initKey, a, blocks);
      NextIs(p, i, a);
    }
    assert result[..pos] == result[..];
  }

  /** `done` and the output still to come from `i` make up the goal. */
  ghost predicate StillToDo(p: Params, goal: seq<byte>, done: seq<byte>, i: seq<byte>, n: nat) {
    p.h.Valid() && done + p.Output(i, n) == goal
  }

  lemma StillToDoStart(p: Params, i: seq<byte>, n: nat)
    requires p.h.Valid()
    ensures StillToDo(p, p.Output(i, n), [], i, n)
  {
    hide Params.Output;
  }

  lemma StillToDoStep(p: Params, goal: seq<byte>, done: seq<byte>, i: seq<byte>, n: nat)
    requires p.h.Valid() && StillToDo(p, goal, done, i, n)
    ensures |p.A(i)| == p.h.size > 0
    ensures n <= p.h.size ==> done + p.A(i)[..n] == goal
    ensures n > p.h.size ==> StillToDo(p, goal, done + p.A(i), p.Next(i), n - p.h.size)
  {
    hide Params.A, Params.Next;
    if n > p.h.size {
      var rest := p.Output(p.Next(i), n - p.h.size);
      assert (done + p.A(i)) + rest == done + (p.A(i) + rest);
    }
  }

  lemma ParamsA(p: Params, d: seq<byte>, i: seq<byte>)
    requires p.h.Valid() && d == p.diversifier
    ensures Iterated(p.h, d + i, p.rounds) == p.A(i)
  {
  }

  lemma NextIs(p: Params, i: seq<byte>, a: seq<byte>)
    requires p.h.Valid() && a == p.A(i)
    ensures p.Next(i) == AddToBlocks(i, Cycle(a, p.h.blockSize), p.h.blockSize)
  {
  }

  method CopyInto(result: array<byte>, pos: nat, a: seq<byte>)
    requires pos + |a| <= result.Length
    modifies result
    ensures result[..pos + |a|] == old(result[..pos]) + a
  {
    forall m | 0 <= m < |a| {
      result[pos + m] := a[m];
    }
    assert forall m | 0 <= m < |a| :: result[..pos + |a|][pos + m] == a[m];
  }

  /** Copies of the digest make one block, which is added to every block of the input. */
  method NextKey(h: Hash, initKey: array<byte>, a: seq<byte>, ghost blocks: nat)
    requires h.Valid() && a != [] && initKey.Length == Blocks(blocks, h.blockSize)
    modifies initKey
    ensures initKey[..] == AddToBlocks(old(initKey[..]), Cycle(a, h.blockSize), h.blockSize)
  {
    hide AddToBlocks;
    var b := new byte[h.blockSize](k requires 0 <= k < h.blockSize => a[k % |a|]);
    CycleAt(a, h.blockSize, b[..]);
    AddToBlocksInPlace(initKey, b, blocks);
  }

  lemma CycleAt(src: seq<byte>, n: nat, r: seq<byte>)
    requires src != [] && |r| == n && forall k | 0 <= k < n :: r[k] == src[k % |src|]
    ensures r == Cycle(src, n)
  {
  }

  method Hashed(h: Hash, data: seq<byte>, rounds: nat) returns (a: seq<byte>)
    requires h.Valid()
    ensures a == Iterated(h, data, rounds)
  {
    a := h.digest(data);
    var k := 1;
    while k < rounds
      invariant k >= 1 && (k <= rounds || k == 1)
      invariant a == Iterated(h, data, k)
    {
      a := h.digest(a);
      k := k + 1;
    }
  }

  method FillInitialKey(pass: string, salt: seq<byte>, v: nat) returns (initKey: array<byte>, ghost blocks: nat)
    requires v > 0
    ensures fresh(initKey) && initKey[..] == InitialKey(pass, salt, v)
    ensures initKey.Length == Blocks(blocks, v)
  {
    hide PasswordBytes, RoundUp, Cycle;
    var p := PasswordBytes(pass);
    var sLen, pLen := RoundUp(|salt|, v), RoundUp(|p|, v);
    SaltToFill(salt, v);
    ghost var s0, p0 := Cycle(salt, sLen), Cycle(p, pLen);
    initKey := new byte[sLen + pLen];
    for i := 0 to sLen
      invariant initKey[..i] == s0[..i]
    {
      CycleIndex(salt, sLen, i);
      initKey[i] := salt[i % |salt|];
    }
    for i := 0 to pLen
      invariant initKey[..sLen + i] == s0 + p0[..i]
    {
      CycleIndex(p, pLen, i);
      initKey[i + sLen] := p[i % |p|];
    }
    assert initKey[..] == initKey[..sLen + pLen] == s0 + p0;
    blocks := WholeBlocks(|salt|, |p|, v);
  }

  lemma CycleIndex(src: seq<byte>, n: nat, k: nat)
    requires src != [] && k < n
    ensures 0 <= k % |src| < |src| && Cycle(src, n)[k] == src[k % |src|]
  {
  }

  lemma WholeBlocks(a: nat, b: nat, v: nat) returns (blocks: nat)
    requires v > 0
    ensures RoundUp(a, v) + RoundUp(b, v) == Blocks(blocks, v)
  {
    blocks := (a + v - 1) / v + (b + v - 1) / v;
    TwoMultiples((a + v - 1) / v, (b + v - 1) / v, v);
  }

  lemma TwoMultiples(a: nat, b: nat, v: nat)
    ensures v * a + v * b == (a + b) * v
  {
  }
}

/** The OpenSSL password KDF, a generalisation of PBKDF1. */
module OpensslKdf {
  import opened Common
  import opened Hashing

  /** D_i: the hash of the previous digest, the password and the salt. */
  function Digest(h: Hash, password: seq<byte>, salt: seq<byte>, i: nat): (d: seq<byte>)
    requires h.Valid()
    ensures |d| == h.size
  {
    h.digest((if i == 0 then [] else Digest(h, password, salt, i - 1)) + password + salt)
  }

  /** D_0 || ... || D_(c-1). */
  function Digests(h: Hash, password: seq<byte>, salt: seq<byte>, c: nat): (r: seq<byte>)
    requires h.Valid()
    ensures |r| == c * h.size
  {
    if c == 0 then []
    else
      assert c * h.size == (c - 1) * h.size + h.size;
      Digests(h, password, salt, c - 1) + Digest(h, password, salt, c - 1)
  }

  /** `openssl_kdf`: whole digests until the last one, of which only what is missing is kept. */
  method Kdf(h: Hash, password: seq<byte>, salt: seq<byte>, length: nat) returns (key: seq<byte>)
    requires h.Valid() && |salt| == 8
    ensures |key| == length
    ensures forall c: nat | length <= c * h.size :: key == Digests(h, password, salt, c)[..length]
  {
    hide Digest;
    key := [];
    ghost var c := 0;
    while |key| < length
      invariant |key| <= length
      invariant |key| < length ==> key == Digests(h, password, salt, c)
      invariant |key| == length ==> length <= c * h.size && key == Digests(h, password, salt, c)[..length]
      decreases length - |key|
    {
      var input := [];
      if key != [] {
        BackSlice(h, password, salt, c);
        input := key[|key| - h.size..];
      }
      input := input + password + salt;
      var digest := h.digest(input);
      DigestStep(h, password, salt, c, input);
      var size := if |digest| < length - |key| then |digest| else length - |key|;
      assert (Digests(h, password, salt, c) + digest)[..|key| + size] == key + digest[..size];
      key := key + digest[..size];
      c := c + 1;
      assert digest[..|digest|] == digest;
    }
    forall c': nat | length <= c' * h.size ensures key == Digests(h, password, salt, c')[..length] {
      SamePrefix(h, password, salt, c, c', length);
    }
  }

  /** The bytes hashed first are there: the key so far ends in a whole digest. */
  lemma BackSlice(h: Hash, password: seq<byte>, salt: seq<byte>, c: nat)
    requires h.Valid() && Digests(h, password, salt, c) != []
    ensures c > 0 && |Digests(h, password, salt, c)| >= h.size
    ensures var r := Digests(h, password, salt, c); r[|r| - h.size..] == Digest(h, password, salt, c - 1)
  {
    hide Digest;
  }

  lemma DigestStep(h: Hash, password: seq<byte>, salt: seq<byte>, c: nat, input: seq<byte>)
    requires h.Valid()
    requires input == (if c == 0 then [] else Digest(h, password, salt, c - 1)) + password + salt
    ensures h.digest(input) == Digest(h, password, salt, c)
    ensures Digests(h, password, salt, c + 1) == Digests(h, password, salt, c) + h.digest(input)
  {
  }

  lemma {:induction false} DigestsExtend(h: Hash, password: seq<byte>, salt: seq<byte>, c: nat, more: nat)
    requires h.Valid()
    ensures Digests(h, password, salt, c) <= Digests(h, password, salt, c + more)
  {
    hide Digest;
    if more > 0 {
      DigestsExtend(h, password, salt, c, more - 1);
    }
  }

  /** Any two numbers of digests that are enough give the same key; a shorter key is a prefix of a longer one. */
  lemma SamePrefix(h: Hash, password: seq<byte>, salt: seq<byte>, c: nat, d: nat, length: nat)
    requires h.Valid() && length <= c * h.size && length <= d * h.size
    ensures Digests(h, password, salt, c)[..length] == Digests(h, password, salt, d)[..length]
  {
    if c <= d {
      DigestsExtend(h, password, salt, c, d - c);
    } else {
      DigestsExtend(h, password, salt, d, c - d);
    }
  }

  lemma ShorterKeyIsPrefix(h: Hash, password: seq<byte>, salt: seq<byte>, c: nat, d: nat, m: nat, n: nat)
    requires h.Valid() && m <= n && m <= c * h.size && n <= d * h.size
    ensures Digests(h, password, salt, c)[..m] == Digests(h, password, salt, d)[..n][..m]
  {
    SamePrefix(h, password, salt, c, d, m);
    assert Digests(h, password, salt, d)[..n][..m] == Digests(h, password, salt, d)[..m];
  }
}
