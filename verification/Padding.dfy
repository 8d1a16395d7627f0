/** PKCS#7 (RFC 5652 section 6.3) and ANSI X9.23 padding: branch-free checks and streaming contexts. */
module Padding {
  import opened Common

  datatype Scheme = Pkcs7 | AnsiX923

  // ---------------------------------------------------------------- branch-free arithmetic

  function DuplicateMsbToAll(a: byte): byte {
    0 - (a >> 7)
  }

  function ConstantTimeLt(a: byte, b: byte): byte {
    DuplicateMsbToAll(a ^ ((a ^ b) | ((a - b) ^ b)))
  }

  /** All ones for "less than", zero otherwise. */
  lemma ConstantTimeLtMeaning(a: byte, b: byte)
    ensures ConstantTimeLt(a, b) == if a < b then 0xFF else 0
  {
  }

  function FoldToLowBit(mismatch: byte): byte {
    var m1 := mismatch | (mismatch >> 4);
    var m2 := m1 | (m1 >> 2);
    m2 | (m2 >> 1)
  }

  lemma FoldMeaning(mismatch: byte)
    ensures FoldToLowBit(mismatch) & 1 == 0 <==> mismatch == 0
  {
  }

  lemma OrIsZero(a: byte, b: byte)
    ensures a | b == 0 <==> a == 0 && b == 0
  {
  }

  lemma IndexLt(k: nat, p: byte)
    requires k < 256
    ensures U8(k) < p <==> k < Size(p)
  {
    ByteRoundTrip(k);
    ByteOrder(k as byte, p);
  }

  // ---------------------------------------------------------------- what a padded block is

  /** The `k`-th byte from the end. */
  function FromEnd(data: seq<byte>, k: nat): byte
    requires k < |data|
  {
    data[|data| - 1 - k]
  }

  /** The last byte counts the padding; the padding bytes before it have the value the scheme gives them. */
  ghost predicate WellPadded(scheme: Scheme, data: seq<byte>)
    requires data != []
  {
    var p := FromEnd(data, 0);
    && 1 <= Size(p) <= |data|
    && forall k | 1 <= k < Size(p) :: FromEnd(data, k) == if scheme.Pkcs7? then p else 0
  }

  /** `mismatch |= mask & diff`. */
  function Accumulate(mismatch: byte, mask: byte, diff: byte): byte {
    mismatch | (mask & diff)
  }

  lemma AccumulateMeaning(mismatch: byte, i: byte, padSize: byte, diff: byte)
    ensures Accumulate(mismatch, ConstantTimeLt(i, padSize), diff) == 0 <==>
            mismatch == 0 && (i < padSize ==> diff == 0)
  {
  }

  lemma XorIsZero(a: byte, b: byte)
    ensures a ^ b == 0 <==> a == b
  {
  }

  /** One masked comparison: it raises a bit exactly if byte `k` is padding and differs. */
  lemma MaskedStep(mismatch: byte, k: nat, padSize: byte, diff: byte)
    requires k < 256
    ensures Accumulate(mismatch, ConstantTimeLt(U8(k), padSize), diff) == 0 <==>
            mismatch == 0 && (k < Size(padSize) ==> diff == 0)
  {
    hide *;
    IndexLt(k, padSize);
    AccumulateMeaning(mismatch, U8(k), padSize, diff);
  }

  method CheckPkcs7Padding(data: seq<byte>) returns (ok: bool)
    requires 1 <= |data| <= 255
    ensures ok <==> WellPadded(Pkcs7, data)
  {
    hide ConstantTimeLt, U8, Size, Accumulate;
    var mismatch: byte := 0;
    var padSize := data[|data| - 1];
    var len := U8(|data|);
    for i := 0 to |data|
      invariant mismatch == 0 <==> forall k | 0 <= k < i && k < Size(padSize) :: FromEnd(data, k) == padSize
    {
      var b := FromEnd(data, i);
      var mask := ConstantTimeLt(U8(i), padSize);
      MaskedStep(mismatch, i, padSize, padSize ^ b);
      XorIsZero(padSize, b);
      mismatch := Accumulate(mismatch, mask, padSize ^ b);
    }
    ok := PadSizeInRange(mismatch, len, padSize, |data|);
  }

  method CheckAnsiX923Padding(data: seq<byte>) returns (ok: bool)
    requires 1 <= |data| <= 255
    ensures ok <==> WellPadded(AnsiX923, data)
  {
    hide ConstantTimeLt, U8, Size, Accumulate;
    var mismatch: byte := 0;
    var padSize := data[|data| - 1];
    var len := U8(|data|);
    for i := 1 to |data|
      invariant mismatch == 0 <==> forall k | 1 <= k < i && k < Size(padSize) :: FromEnd(data, k) == 0
    {
      var b := FromEnd(data, i);
      var mask := ConstantTimeLt(U8(i), padSize);
      MaskedStep(mismatch, i, padSize, b);
      mismatch := Accumulate(mismatch, mask, b);
    }
    ok := PadSizeInRange(mismatch, len, padSize, |data|);
  }

  /** The last steps of both checks: the count is in range, and any set bit reaches the lowest one. */
  method PadSizeInRange(mismatch0: byte, len: byte, padSize: byte, ghost n: nat) returns (ok: bool)
    requires n <= 255 && len == U8(n)
    ensures ok <==> mismatch0 == 0 && 1 <= Size(padSize) <= n
  {
    var mismatch := mismatch0;
    OrIsZero(mismatch, !ConstantTimeLt(0, padSize));
    mismatch := mismatch | !ConstantTimeLt(0, padSize);
    OrIsZero(mismatch, ConstantTimeLt(len, padSize));
    mismatch := mismatch | ConstantTimeLt(len, padSize);
    ConstantTimeLtMeaning(0, padSize);
    ConstantTimeLtMeaning(len, padSize);
    IndexLt(n, padSize);
    IndexLt(0, padSize);
    FoldMeaning(mismatch);
    mismatch := mismatch | (mismatch >> 4);
    mismatch := mismatch | (mismatch >> 2);
    mismatch := mismatch | (mismatch >> 1);
    ok := mismatch & 1 == 0;
  }

  // ---------------------------------------------------------------- padding and unpadding whole messages

  datatype Failure = AlreadyFinalized | InvalidPadding

  /** What the padder adds after `length` bytes. */
  function PadBytes(scheme: Scheme, blockSize: nat, length: nat): (r: seq<byte>)
    requires 1 <= blockSize <= 255
    ensures |r| == blockSize - length % blockSize
  {
    PadTail(scheme, blockSize - length % blockSize)
  }

  function PadTail(scheme: Scheme, padSize: nat): (r: seq<byte>)
    requires 1 <= padSize <= 255
    ensures |r| == padSize
  {
    match scheme
    case Pkcs7 => seq(padSize, _ => U8(padSize))
    case AnsiX923 => seq(padSize - 1, _ => 0) + [U8(padSize)]
  }

  function Pad(scheme: Scheme, blockSize: nat, data: seq<byte>): seq<byte>
    requires 1 <= blockSize <= 255
  {
    data + PadBytes(scheme, blockSize, |data|)
  }

  /** How much one `update` lets go: all whole blocks but the last. */
  function Released(blockSize: nat, length: nat): (n: nat)
    requires blockSize > 0
    ensures n <= length
  {
    var finished := if length / blockSize > 0 then length / blockSize - 1 else 0;
    AtMost(finished, length / blockSize, blockSize);
    finished * blockSize
  }

  lemma AtMost(a: nat, b: nat, k: nat)
    requires a <= b
    ensures a * k <= b * k
  {
  }

  datatype Step = Step(out: seq<byte>, buffer: seq<byte>)

  function UpdateStep(blockSize: nat, buffer: seq<byte>, data: seq<byte>): Step
    requires blockSize > 0
  {
    var v := buffer + data;
    var n := Released(blockSize, |v|);
    Step(v[..n], v[n..])
  }

  ghost function FinalStep(scheme: Scheme, blockSize: nat, buffer: seq<byte>): Result<seq<byte>, Failure>
    requires 1 <= blockSize <= 255
  {
    if |buffer| != blockSize || !WellPadded(scheme, buffer) then Err(InvalidPadding)
    else Ok(buffer[..|buffer| - Size(FromEnd(buffer, 0))])
  }

  /** All updates in turn: the outputs one after the other, and the buffer that is left. */
  function UpdateSteps(blockSize: nat, buffer: seq<byte>, chunks: seq<seq<byte>>): Step
    requires blockSize > 0
    decreases |chunks|
  {
    if chunks == [] then Step([], buffer)
    else
      var first := UpdateStep(blockSize, buffer, chunks[0]);
      var rest := UpdateSteps(blockSize, first.buffer, chunks[1..]);
      Step(first.out + rest.out, rest.buffer)
  }

  /** Unpadding of a message given in chunks. */
  ghost function Unpad(scheme: Scheme, blockSize: nat, chunks: seq<seq<byte>>): Result<seq<byte>, Failure>
    requires 1 <= blockSize <= 255
  {
    var updated := UpdateSteps(blockSize, [], chunks);
    match FinalStep(scheme, blockSize, updated.buffer)
    case Ok(last) => Ok(updated.out + last)
    case Err(e) => Err(e)
  }

  // ---------------------------------------------------------------- contexts

  /** A buffer: the bytes of a Python object, or bytes of the library's own, which stand for Python's `None`. */
  datatype CffiBuf = PythonBuf(bytes: seq<byte>) | OwnBuf(bytes: seq<byte>) {
    function IntoPyObj(): Option<seq<byte>> {
      if PythonBuf? then Some(bytes) else None
    }
  }

  class PaddingContext {
    const scheme: Scheme
    const blockSize: nat
    var lengthSeen: Option<nat>

    constructor (scheme: Scheme, blockSizeBits: nat)
      requires 8 <= blockSizeBits <= 2040 && blockSizeBits % 8 == 0
      ensures this.scheme == scheme && this.blockSize == blockSizeBits / 8 && lengthSeen == Some(0)
    {
      this.scheme, this.blockSize, lengthSeen := scheme, blockSizeBits / 8, Some(0);
    }

    /** The bytes are counted, and the object they came in is handed back as it is. */
    method Update(buf: CffiBuf) returns (r: Result<Option<seq<byte>>, Failure>)
      modifies this
      ensures old(lengthSeen).Some? ==>
                r == Ok(buf.IntoPyObj()) && lengthSeen == Some(old(lengthSeen).value + |buf.bytes|)
      ensures old(lengthSeen).None? ==> r == Err(AlreadyFinalized) && lengthSeen == None
    {
      if lengthSeen.None? {
        return Err(AlreadyFinalized);
      }
      lengthSeen := Some(lengthSeen.value + |buf.bytes|);
      return Ok(buf.IntoPyObj());
    }

    method Finalize() returns (r: Result<seq<byte>, Failure>)
      requires 1 <= blockSize <= 255
      modifies this
      ensures lengthSeen == None
      ensures old(lengthSeen).Some? ==> r == Ok(PadBytes(scheme, blockSize, old(lengthSeen).value))
      ensures old(lengthSeen).None? ==> r == Err(AlreadyFinalized)
    {
      if lengthSeen.None? {
        return Err(AlreadyFinalized);
      }
      var v := lengthSeen.value;
      lengthSeen := None;
      var padSize := blockSize - v % blockSize;
      if scheme.Pkcs7? {
        return Ok(seq(padSize, _ => U8(padSize)));
      } else {
        var pad: seq<byte> := seq(padSize - 1, _ => 0);
        pad := pad + [U8(padSize)];
        return Ok(pad);
      }
    }
  }

  class UnpaddingContext {
    const scheme: Scheme
    const blockSize: nat
    var buffer: Option<seq<byte>>

    constructor (scheme: Scheme, blockSizeBits: nat)
      requires 8 <= blockSizeBits <= 2040 && blockSizeBits % 8 == 0
      ensures this.scheme == scheme && this.blockSize == blockSizeBits / 8 && buffer == Some([])
    {
      this.scheme, this.blockSize, buffer := scheme, blockSizeBits / 8, Some([]);
    }

    method Update(data: seq<byte>) returns (r: Result<seq<byte>, Failure>)
      requires 1 <= blockSize
      modifies this
      ensures old(buffer).Some? ==>
                && r.Ok? && buffer.Some?
                && Step(r.value, buffer.value) == UpdateStep(blockSize, old(buffer).value, data)
      ensures old(buffer).None? ==> r == Err(AlreadyFinalized) && buffer == None
    {
      if buffer.None? {
        return Err(AlreadyFinalized);
      }
      var v := buffer.value + data;
      var finishedBlocks := if |v| / blockSize > 0 then |v| / blockSize - 1 else 0;
      AtMost(finishedBlocks, |v| / blockSize, blockSize);
      var resultSize := finishedBlocks * blockSize;
      buffer := Some(v[resultSize..]);
      return Ok(v[..resultSize]);
    }

    method Finalize() returns (r: Result<seq<byte>, Failure>)
      requires 1 <= blockSize <= 255
      modifies this
      ensures buffer == None
      ensures old(buffer).Some? ==> r == FinalStep(scheme, blockSize, old(buffer).value)
      ensures old(buffer).None? ==> r == Err(AlreadyFinalized)
    {
      hide WellPadded;
      if buffer.None? {
        return Err(AlreadyFinalized);
      }
      var v := buffer.value;
      buffer := None;
      if |v| != blockSize {
        return Err(InvalidPadding);
      }
      var ok: bool;
      if scheme.Pkcs7? {
        ok := CheckPkcs7Padding(v);
      } else {
        ok := CheckAnsiX923Padding(v);
      }
      if !ok {
        return Err(InvalidPadding);
      }
      WellPaddedSize(scheme, v);
      var padSize := v[|v| - 1];
      return Ok(v[..|v| - Size(padSize)]);
    }
  }

  lemma WellPaddedSize(scheme: Scheme, data: seq<byte>)
    requires data != [] && WellPadded(scheme, data)
    ensures 1 <= Size(FromEnd(data, 0)) <= |data|
  {
  }

  // ---------------------------------------------------------------- chunking

  lemma ReleasedInSteps(blockSize: nat, a: nat, b: nat)
    requires blockSize > 0
    ensures var n := Released(blockSize, a);
            Released(blockSize, a + b) == n + Released(blockSize, a - n + b)
  {
    var q, n := a / blockSize, Released(blockSize, a);
    if q > 0 {
      var f, whole := q - 1, (a + b) / blockSize;
      AtMost(f, q, blockSize);
      DivideAfter(a + b, blockSize, f);
      DivideAfter(a + b, blockSize, q);
      Distribute(f, whole - f - 1, blockSize);
    }
  }

  lemma Distribute(a: nat, b: nat, k: nat)
    ensures (a + b) * k == a * k + b * k
  {
  }

  lemma DivideAfter(x: nat, k: nat, f: nat)
    requires k > 0 && f * k <= x
    ensures x / k >= f
    ensures (x - f * k) / k == x / k - f
  {
    var q, r := x / k, x % k;
    assert x == q * k + r;
    if q < f {
      AtMost(q + 1, f, k);
      assert false;
    }
    assert x - f * k == (q - f) * k + r;
    DivUnique(x - f * k, k, q - f, r);
  }

  lemma DivUnique(x: nat, k: nat, q: nat, r: nat)
    requires r < k && x == q * k + r
    ensures x / k == q
  {
    var d := x / k;
    assert x == d * k + x % k;
    if d < q {
      AtMost(d + 1, q, k);
      assert false;
    } else if q < d {
      AtMost(q + 1, d, k);
      assert false;
    }
  }

  /** One update after another is one update with both chunks. */
  lemma TwoUpdates(blockSize: nat, buffer: seq<byte>, x: seq<byte>, y: seq<byte>)
    requires blockSize > 0
    ensures var first := UpdateStep(blockSize, buffer, x);
            var second := UpdateStep(blockSize, first.buffer, y);
            UpdateStep(blockSize, buffer, x + y) == Step(first.out + second.out, second.buffer)
  {
    var v := buffer + x;
    var n := Released(blockSize, |v|);
    ReleasedInSteps(blockSize, |v|, |y|);
    hide Released;
    assert buffer + (x + y) == v + y;
    TakeTwice(v, y, n, Released(blockSize, |v| - n + |y|));
  }

  lemma TakeTwice(v: seq<byte>, y: seq<byte>, n: nat, m: nat)
    requires n <= |v| && n + m <= |v| + |y|
    ensures (v + y)[..n + m] == v[..n] + (v[n..] + y)[..m]
    ensures (v + y)[n + m..] == (v[n..] + y)[m..]
  {
  }

  /** However the input is cut, the outputs joined and the buffer left are those of a single update. */
  lemma {:induction false} ChunkingIsIrrelevant(blockSize: nat, buffer: seq<byte>, chunks: seq<seq<byte>>)
    requires blockSize > 0 && UpdateStep(blockSize, buffer, []) == Step([], buffer)
    ensures UpdateSteps(blockSize, buffer, chunks) == UpdateStep(blockSize, buffer, Flatten(chunks))
    decreases |chunks|
  {
    if chunks != [] {
      var first := UpdateStep(blockSize, buffer, chunks[0]);
      TwoUpdates(blockSize, buffer, chunks[0], []);
      assert chunks[0] + [] == chunks[0];
      var idle := UpdateStep(blockSize, first.buffer, []);
      assert first.out + idle.out == first.out;
      assert idle.out == [];
      ChunkingIsIrrelevant(blockSize, first.buffer, chunks[1..]);
      TwoUpdates(blockSize, buffer, chunks[0], Flatten(chunks[1..]));
    }
  }

  // ---------------------------------------------------------------- unpadding undoes padding, and nothing else

  /** A block is well padded with `p` bytes exactly when it ends in what the padder writes for `p`. */
  lemma WellPaddedMeaning(scheme: Scheme, block: seq<byte>, p: nat)
    requires 1 <= p <= |block| <= 255
    ensures WellPadded(scheme, block) && Size(FromEnd(block, 0)) == p <==> block[|block| - p..] == PadTail(scheme, p)
  {
    hide U8, Size;
    SizeOfU8(p);
    U8OfSize(FromEnd(block, 0));
    var tail := block[|block| - p..];
    assert forall k | 0 <= k < p :: FromEnd(block, k) == tail[p - 1 - k];
    if WellPadded(scheme, block) && Size(FromEnd(block, 0)) == p {
      forall i | 0 <= i < p ensures tail[i] == PadTail(scheme, p)[i] {
        assert FromEnd(block, p - 1 - i) == tail[i];
      }
    }
    if tail == PadTail(scheme, p) {
      assert FromEnd(block, 0) == tail[p - 1] == U8(p);
    }
  }

  lemma ModOf(x: nat, k: nat, q: nat, r: nat)
    requires r < k && x == q * k + r
    ensures x % k == r
  {
    DivUnique(x, k, q, r);
    assert x == (x / k) * k + x % k;
  }

  predicate Multiple(k: nat, n: nat)
    requires k > 0
  {
    n % k == 0
  }

  /** Of whole blocks, all but the last are released. */
  lemma ReleasedOfWhole(blockSize: nat, length: nat)
    requires blockSize > 0 && Multiple(blockSize, length) && length >= blockSize
    ensures Released(blockSize, length) == length - blockSize
  {
    var f := length / blockSize;
    assert length == f * blockSize;
    assert f > 0;
    assert (f - 1) * blockSize == f * blockSize - blockSize;
  }

  lemma OneBlockLeft(blockSize: nat, length: nat)
    requires blockSize > 0 && length - Released(blockSize, length) == blockSize
    ensures Multiple(blockSize, length) && length >= blockSize
  {
    var f := length / blockSize;
    if f == 0 {
      assert false;
    }
    assert (f - 1) * blockSize + blockSize == f * blockSize;
    ModOf(length, blockSize, f, 0);
  }

  lemma PaddedIsMultiple(blockSize: nat, length: nat)
    requires blockSize > 0
    ensures Multiple(blockSize, length + (blockSize - length % blockSize))
  {
    var q := length / blockSize;
    assert length == q * blockSize + length % blockSize;
    assert (q + 1) * blockSize == q * blockSize + blockSize;
    ModOf(length + (blockSize - length % blockSize), blockSize, q + 1, 0);
  }

  /** Taking `p` bytes off whole blocks leaves a length that is padded with `p` bytes again. */
  lemma PadCount(blockSize: nat, length: nat, p: nat)
    requires 1 <= p <= blockSize <= length && Multiple(blockSize, length)
    ensures blockSize - (length - p) % blockSize == p
  {
    var f := length / blockSize;
    assert length == f * blockSize;
    assert (f - 1) * blockSize == f * blockSize - blockSize;
    ModOf(length - p, blockSize, f - 1, blockSize - p);
  }

  ghost function UnpadWhole(scheme: Scheme, blockSize: nat, whole: seq<byte>): Result<seq<byte>, Failure>
    requires 1 <= blockSize <= 255
  {
    var step := UpdateStep(blockSize, [], whole);
    match FinalStep(scheme, blockSize, step.buffer)
    case Ok(last) => Ok(step.out + last)
    case Err(e) => Err(e)
  }

  lemma PadShape(scheme: Scheme, blockSize: nat, data: seq<byte>) returns (p: nat)
    requires 1 <= blockSize <= 255
    ensures 1 <= p <= blockSize && Pad(scheme, blockSize, data) == data + PadTail(scheme, p)
    ensures Multiple(blockSize, |data| + p)
  {
    hide PadTail, Multiple;
    p := blockSize - |data| % blockSize;
    PaddedIsMultiple(blockSize, |data|);
  }

  lemma PadIs(scheme: Scheme, blockSize: nat, data: seq<byte>, p: nat)
    requires 1 <= p <= blockSize <= 255 && |data| + p >= blockSize && Multiple(blockSize, |data| + p)
    ensures Pad(scheme, blockSize, data) == data + PadTail(scheme, p)
  {
    hide PadTail, Multiple;
    PadCount(blockSize, |data| + p, p);
  }

  /** Cutting `n` bytes and the padding off the last block leaves the data. */
  lemma CutAndStrip(whole: seq<byte>, n: nat, p: nat)
    requires n + p <= |whole|
    ensures var block := whole[n..];
            && whole[..n] + block[..|block| - p] == whole[..|whole| - p]
            && block[|block| - p..] == whole[|whole| - p..]
  {
  }

  lemma UnpadWholeBlocks(scheme: Scheme, blockSize: nat, whole: seq<byte>)
    requires 1 <= blockSize <= 255 && |whole| >= blockSize && Multiple(blockSize, |whole|)
    ensures var block := whole[|whole| - blockSize..];
            UnpadWhole(scheme, blockSize, whole) ==
              if WellPadded(scheme, block) then Ok(whole[..|whole| - Size(FromEnd(block, 0))])
              else Err(InvalidPadding)
  {
    hide Released, WellPadded, Size, FromEnd, Multiple;
    ReleasedOfWhole(blockSize, |whole|);
    assert [] + whole == whole;
    var block := whole[|whole| - blockSize..];
    if WellPadded(scheme, block) {
      WellPaddedSize(scheme, block);
      CutAndStrip(whole, |whole| - blockSize, Size(FromEnd(block, 0)));
    }
  }

  /** A long enough text that ends in `tail`. */
  lemma EndsIn(data: seq<byte>, tail: seq<byte>, n: nat)
    requires |tail| <= n <= |data| + |tail|
    ensures var whole := data + tail;
            && whole[|whole| - n..][n - |tail|..] == tail
            && whole[..|whole| - |tail|] == data
  {
  }

  lemma PadThenUnpad(scheme: Scheme, blockSize: nat, data: seq<byte>)
    requires 1 <= blockSize <= 255
    ensures UnpadWhole(scheme, blockSize, Pad(scheme, blockSize, data)) == Ok(data)
  {
    hide *;
    var p := PadShape(scheme, blockSize, data);
    var whole := Pad(scheme, blockSize, data);
    AtLeastOneBlock(blockSize, |whole|);
    UnpadWholeBlocks(scheme, blockSize, whole);
    EndsIn(data, PadTail(scheme, p), blockSize);
    WellPaddedMeaning(scheme, whole[|whole| - blockSize..], p);
  }

  lemma AtLeastOneBlock(k: nat, n: nat)
    requires k > 0 && Multiple(k, n) && n > 0
    ensures n >= k
  {
  }

  lemma SuccessLeavesOneBlock(scheme: Scheme, blockSize: nat, whole: seq<byte>)
    requires 1 <= blockSize <= 255 && UnpadWhole(scheme, blockSize, whole).Ok?
    ensures |whole| - Released(blockSize, |whole|) == blockSize
  {
    hide Released, WellPadded;
    assert [] + whole == whole;
  }

  lemma UnpadThenPad(scheme: Scheme, blockSize: nat, whole: seq<byte>, data: seq<byte>)
    requires 1 <= blockSize <= 255 && UnpadWhole(scheme, blockSize, whole) == Ok(data)
    ensures whole == Pad(scheme, blockSize, data)
  {
    hide *;
    SuccessLeavesOneBlock(scheme, blockSize, whole);
    OneBlockLeft(blockSize, |whole|);
    UnpadWholeBlocks(scheme, blockSize, whole);
    var n := |whole| - blockSize;
    var block := whole[n..];
    WellPaddedSize(scheme, block);
    var p := Size(FromEnd(block, 0));
    assert data == whole[..|whole| - p];
    WellPaddedMeaning(scheme, block, p);
    CutAndStrip(whole, n, p);
    PadIs(scheme, blockSize, data, p);
    assert whole == whole[..|whole| - p] + whole[|whole| - p..];
  }

  /** For every chunking, unpadding succeeds with `data` exactly when the input is the padder's output for it. */
  lemma UnpadIsExact(scheme: Scheme, blockSize: nat, chunks: seq<seq<byte>>, data: seq<byte>)
    requires 1 <= blockSize <= 255
    ensures Unpad(scheme, blockSize, chunks) == Ok(data) <==> Flatten(chunks) == Pad(scheme, blockSize, data)
  {
    assert UpdateStep(blockSize, [], []) == Step([], []);
    ChunkingIsIrrelevant(blockSize, [], chunks);
    assert Unpad(scheme, blockSize, chunks) == UnpadWhole(scheme, blockSize, Flatten(chunks));
    hide Unpad, UnpadWhole, Pad;
    PadThenUnpad(scheme, blockSize, data);
    if UnpadWhole(scheme, blockSize, Flatten(chunks)) == Ok(data) {
      UnpadThenPad(scheme, blockSize, Flatten(chunks), data);
    }
  }
}
