/** The streaming cipher context: chunked updates into a caller's buffer. */
module Ciphers {
  import opened Common
  import Padding

  /** A keyed block cipher mode, as what it makes of a whole number of blocks. */
  datatype Mode = Mode(blockSize: nat, enc: seq<byte> -> seq<byte>, dec: seq<byte> -> seq<byte>) {
    /** Both directions stream, and each undoes the other. */
    ghost predicate Lawful() {
      && blockSize > 0
      && Streaming(blockSize, enc) && Streaming(blockSize, dec)
      && (forall x | Whole(blockSize, x) :: dec(enc(x)) == x)
      && (forall x | Whole(blockSize, x) :: enc(dec(x)) == x)
    }

    function Direction(encrypting: bool): seq<byte> -> seq<byte> {
      if encrypting then enc else dec
    }
  }

  predicate Whole(blockSize: nat, x: seq<byte>)
    requires blockSize > 0
  {
    |x| % blockSize == 0
  }

  /** Output block for block, and no output taken back by later input. */
  ghost predicate Streaming(blockSize: nat, f: seq<byte> -> seq<byte>)
    requires blockSize > 0
  {
    && (forall x | Whole(blockSize, x) :: |f(x)| == |x|)
    && (forall x, y | Whole(blockSize, x) && Whole(blockSize, y) && x <= y :: f(x) <= f(y))
  }

  datatype Failure = BufferTooSmall | NotWholeBlocks | InvalidTag

  lemma WholeLength(blockSize: nat, n: nat)
    requires blockSize > 0
    ensures var m := (n / blockSize) * blockSize;
            m <= n < m + blockSize && m % blockSize == 0
  {
    var q := n / blockSize;
    assert n == q * blockSize + n % blockSize;
    Padding.ModOf(q * blockSize, blockSize, q, 0);
  }

  /** The whole blocks at the front of `x`. */
  function Blocks(blockSize: nat, x: seq<byte>): (r: seq<byte>)
    requires blockSize > 0
    ensures Whole(blockSize, r) && r <= x && |x| < |r| + blockSize
    ensures |r| == (|x| / blockSize) * blockSize
  {
    WholeLength(blockSize, |x|);
    x[..(|x| / blockSize) * blockSize]
  }

  lemma BlocksGrow(blockSize: nat, x: seq<byte>, y: seq<byte>)
    requires blockSize > 0
    ensures Blocks(blockSize, x) <= Blocks(blockSize, x + y)
  {
    var q := |x| / blockSize;
    WholeLength(blockSize, |x|);
    Padding.DivideAfter(|x + y|, blockSize, q);
    Padding.AtMost(q, |x + y| / blockSize, blockSize);
  }

  /** What has been written once `input` has been given: the transform of its whole blocks. */
  function Written(blockSize: nat, f: seq<byte> -> seq<byte>, input: seq<byte>): seq<byte>
    requires blockSize > 0
  {
    f(Blocks(blockSize, input))
  }

  lemma WrittenGrows(blockSize: nat, f: seq<byte> -> seq<byte>, x: seq<byte>, y: seq<byte>)
    requires blockSize > 0 && Streaming(blockSize, f)
    ensures Written(blockSize, f, x) <= Written(blockSize, f, x + y)
    ensures |Written(blockSize, f, x + y)| - |Written(blockSize, f, x)| < |y| + blockSize
  {
    BlocksGrow(blockSize, x, y);
  }

  /** The output of an update with `y`, when `x` has been given before. */
  function NewOutput(blockSize: nat, f: seq<byte> -> seq<byte>, x: seq<byte>, y: seq<byte>): (r: seq<byte>)
    requires blockSize > 0 && Streaming(blockSize, f)
    ensures |r| < |y| + blockSize
    ensures Written(blockSize, f, x) + r == Written(blockSize, f, x + y)
  {
    WrittenGrows(blockSize, f, x, y);
    Written(blockSize, f, x + y)[|Written(blockSize, f, x)|..]
  }

  lemma NewOutputInTwo(blockSize: nat, f: seq<byte> -> seq<byte>, x: seq<byte>, y: seq<byte>, z: seq<byte>)
    requires blockSize > 0 && Streaming(blockSize, f)
    ensures NewOutput(blockSize, f, x, y + z)
            == NewOutput(blockSize, f, x, y) + NewOutput(blockSize, f, x + y, z)
  {
    hide Streaming, Written;
    assert x + (y + z) == (x + y) + z;
    var w, a, b := Written(blockSize, f, x), NewOutput(blockSize, f, x, y), NewOutput(blockSize, f, x + y, z);
    assert w + (a + b) == (w + a) + b == w + NewOutput(blockSize, f, x, y + z);
    assert (w + (a + b))[|w|..] == a + b;
    assert (w + NewOutput(blockSize, f, x, y + z))[|w|..] == NewOutput(blockSize, f, x, y + z);
  }

  const CHUNK_SIZE: nat := 0x2000_0000

  class CipherContext {
    const mode: Mode
    const encrypting: bool
    /** The mode carries an authentication tag. */
    const tagged: bool
    /** What OpenSSL has been given so far; its state is a function of it. */
    var seen: seq<byte>

    ghost predicate Valid() {
      mode.blockSize > 0 && Streaming(mode.blockSize, mode.Direction(encrypting))
    }

    /** The output of an update with `data`, when `before` has been given. */
    function Output(before: seq<byte>, data: seq<byte>): (r: seq<byte>)
      requires Valid()
      ensures |r| < |data| + mode.blockSize
    {
      NewOutput(mode.blockSize, mode.Direction(encrypting), before, data)
    }

    constructor (mode: Mode, encrypting: bool, tagged: bool)
      requires mode.Lawful()
      ensures Valid() && seen == [] && this.mode == mode && this.encrypting == encrypting && this.tagged == tagged
    {
      this.mode, this.encrypting, this.tagged, seen := mode, encrypting, tagged, [];
    }

    /** The foreign `cipher_update_unchecked`: it writes what becomes available, and needs room for it. */
    method CipherUpdateUnchecked(chunk: seq<byte>, buf: array<byte>, start: nat) returns (n: nat)
      requires Valid()
      requires start + |Output(seen, chunk)| <= buf.Length
      modifies this, buf
      ensures seen == old(seen) + chunk
      ensures n == |Output(old(seen), chunk)|
      ensures start + n <= buf.Length && buf[..] == Placed(old(buf[..]), start, Output(old(seen), chunk))
    {
      hide NewOutput;
      var out := Output(seen, chunk);
      n := |out|;
      seen := seen + chunk;
      ghost var before := buf[..];
      forall i | 0 <= i < n {
        buf[start + i] := out[i];
      }
      assert buf[..] == before[..start] + out + before[start + n..];
    }

    /** Nothing is written past `data.len() + block_size - 1` bytes, however the data splits into chunks. */
    method UpdateInto(data: seq<byte>, buf: array<byte>, start: nat) returns (r: Result<nat, Failure>)
      requires Valid() && start <= buf.Length
      modifies this, buf
      ensures r.Err? <==> buf.Length - start < |data| + mode.blockSize - 1
      ensures r.Err? ==> r.error == BufferTooSmall && seen == old(seen) && buf[..] == old(buf[..])
      ensures r.Ok? ==>
                var out := Output(old(seen), data);
                && seen == old(seen) + data
                && r.value == |out| <= |data| + mode.blockSize - 1
                && buf[..start + |out|] == old(buf[..start]) + out
                && buf[..] == Placed(old(buf[..]), start, out)
    {
      hide NewOutput, Streaming, Mode.Direction, Placed;
      if buf.Length - start < |data| + mode.blockSize - 1 {
        return Err(BufferTooSmall);
      }
      ghost var seen0, buf0 := seen, buf[..];
      var totalWritten := 0;
      var k := 0;
      NothingYet(mode.blockSize, mode.Direction(encrypting), seen0, buf0, start);
      while k < |data|
        invariant 0 <= k <= |data| && seen == seen0 + data[..k] && buf.Length == |buf0|
        invariant start + |Output(seen0, data[..k])| <= buf.Length
        invariant totalWritten == |Output(seen0, data[..k])|
        invariant buf[..] == Placed(buf0, start, Output(seen0, data[..k]))
      {
        var end := if k + CHUNK_SIZE < |data| then k + CHUNK_SIZE else |data|;
        var chunk := data[k..end];
        OneMoreChunk(mode.blockSize, mode.Direction(encrypting), seen0, data, k, end, buf0, start);
        var n := CipherUpdateUnchecked(chunk, buf, start + totalWritten);
        totalWritten := totalWritten + n;
        k := end;
      }
      assert data[..k] == data;
      PlacedIs(buf0, start, Output(seen0, data));
      return Ok(totalWritten);
    }

    /** `update` into a buffer of its own, which is always large enough. */
    method Update(data: seq<byte>) returns (out: seq<byte>)
      requires Valid()
      modifies this
      ensures seen == old(seen) + data && out == Output(old(seen), data)
    {
      hide NewOutput, Streaming;
      var buf := new byte[|data| + mode.blockSize];
      ghost var zeros := buf[..];
      var n := UpdateInto(data, buf, 0);
      out := buf[..n.value];
      assert zeros[..0] == [];
    }

    /** Without cipher padding the input must have been whole blocks, and nothing is left to write. `tagFits` is
        OpenSSL's verdict on the tag; a decryption under a tag fails without an error of OpenSSL's if it is negative. */
    method Finalize(tagFits: bool) returns (r: Result<seq<byte>, Failure>)
      requires Valid()
      ensures r == if !Whole(mode.blockSize, seen) then Err(NotWholeBlocks)
                   else if tagged && !encrypting && !tagFits then Err(InvalidTag)
                   else Ok([])
    {
      var answer := CipherFinal(tagFits);
      if answer.Failed? {
        if !answer.withErrors && tagged {
          return Err(InvalidTag);
        }
        return Err(NotWholeBlocks);
      }
      return Ok([]);
    }

    /** The foreign `cipher_final`, by what it leaves on OpenSSL's error stack. */
    function CipherFinal(tagFits: bool): FinalAnswer
      reads this
      requires Valid()
    {
      if |seen| % mode.blockSize != 0 then Failed(true)
      else if tagged && !encrypting && !tagFits then Failed(false)
      else Finished
    }
  }

  datatype FinalAnswer = Finished | Failed(withErrors: bool)

  /** `buf` with `out` written at `start`. */
  ghost function Placed(buf: seq<byte>, start: nat, out: seq<byte>): (r: seq<byte>)
    requires start + |out| <= |buf|
    ensures |r| == |buf|
  {
    buf[..start] + out + buf[start + |out|..]
  }

  lemma PlacedIs(buf: seq<byte>, start: nat, out: seq<byte>)
    requires start + |out| <= |buf|
    ensures Placed(buf, start, out)[..start + |out|] == buf[..start] + out
  {
  }

  lemma NothingYet(blockSize: nat, f: seq<byte> -> seq<byte>, seen: seq<byte>, buf: seq<byte>, start: nat)
    requires blockSize > 0 && Streaming(blockSize, f) && start <= |buf|
    ensures NewOutput(blockSize, f, seen, []) == []
    ensures Placed(buf, start, []) == buf
  {
    assert seen + [] == seen;
    assert buf[..start] + [] + buf[start..] == buf;
  }

  lemma OneMoreChunk(blockSize: nat, f: seq<byte> -> seq<byte>, seen: seq<byte>, data: seq<byte>, k: nat, end: nat,
                     buf: seq<byte>, start: nat)
    requires blockSize > 0 && Streaming(blockSize, f) && k <= end <= |data|
    requires start <= |buf| && |buf| - start >= |data| + blockSize - 1
    ensures var done := NewOutput(blockSize, f, seen, data[..k]);
            var out := NewOutput(blockSize, f, seen + data[..k], data[k..end]);
            && NewOutput(blockSize, f, seen, data[..end]) == done + out
            && (seen + data[..k]) + data[k..end] == seen + data[..end]
            && start + |done| + |out| <= |buf|
            && Placed(Placed(buf, start, done), start + |done|, out) == Placed(buf, start, done + out)
  {
    hide Streaming, Written, Blocks;
    assert data[..k] + data[k..end] == data[..end];
    NewOutputInTwo(blockSize, f, seen, data[..k], data[k..end]);
    assert seen + (data[..k] + data[k..end]) == (seen + data[..k]) + data[k..end];
    var done, out := NewOutput(blockSize, f, seen, data[..k]), NewOutput(blockSize, f, seen + data[..k], data[k..end]);
    PlaceTwice(buf, start, done, out);
  }

  lemma PlaceTwice(buf: seq<byte>, start: nat, a: seq<byte>, b: seq<byte>)
    requires start + |a| + |b| <= |buf|
    ensures Placed(Placed(buf, start, a), start + |a|, b) == Placed(buf, start, a + b)
  {
  }
}
