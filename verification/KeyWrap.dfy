/** AES key wrap (RFC 3394 sections 2.2.1 and 2.2.2) and key wrap with padding (RFC 5649 section 4). */
module KeyWrap {
  import opened Common
  import opened BigEndian
  import opened Ciphers

  /** A 64-bit half of an AES block. */
  type Half = s: seq<byte> | |s| == 8 witness [0, 0, 0, 0, 0, 0, 0, 0]

  /** AES under one key, as a function on 16-byte blocks. */
  datatype BlockCipher = BlockCipher(enc: seq<byte> -> seq<byte>, dec: seq<byte> -> seq<byte>) {
    ghost predicate IsPermutation() {
      && (forall b: seq<byte> | |b| == 16 :: |enc(b)| == 16 && dec(enc(b)) == b)
      && (forall b: seq<byte> | |b| == 16 :: |dec(b)| == 16 && enc(dec(b)) == b)
    }
  }

  type Aes = seq<byte> -> BlockCipher

  predicate ValidAesKey(wrappingKey: seq<byte>) {
    |wrappingKey| == 16 || |wrappingKey| == 24 || |wrappingKey| == 32
  }

  ghost predicate IsAes(aes: Aes) {
    forall key | ValidAesKey(key) :: aes(key).IsPermutation()
  }

  /** The law does not contradict itself: leaving every block as it is obeys it. */
  lemma PermutationsExist()
    ensures BlockCipher(b => b, b => b).IsPermutation()
    ensures IsAes(_ => BlockCipher(b => b, b => b))
  {
  }

  datatype Failure = ValueError | InvalidUnwrap | OverflowError

  // ---------------------------------------------------------------- ECB, as a streaming mode

  /** `f` on every whole block. */
  function Ecb(f: seq<byte> -> seq<byte>, x: seq<byte>): seq<byte> {
    if |x| < 16 then [] else f(x[..16]) + Ecb(f, x[16..])
  }

  function EcbMode(c: BlockCipher): Mode {
    Mode(16, x => Ecb(c.enc, x), x => Ecb(c.dec, x))
  }

  ghost predicate BlockToBlock(f: seq<byte> -> seq<byte>) {
    forall b: seq<byte> | |b| == 16 :: |f(b)| == 16
  }

  lemma EcbCons(f: seq<byte> -> seq<byte>, b: seq<byte>, x: seq<byte>)
    requires |b| == 16
    ensures Ecb(f, b + x) == f(b) + Ecb(f, x)
  {
    assert (b + x)[..16] == b && (b + x)[16..] == x;
  }

  lemma {:induction false} EcbLength(f: seq<byte> -> seq<byte>, x: seq<byte>)
    requires BlockToBlock(f) && Whole(16, x)
    ensures |Ecb(f, x)| == |x|
  {
    if x != [] {
      EcbLength(f, x[16..]);
    }
  }

  lemma {:induction false} EcbConcat(f: seq<byte> -> seq<byte>, x: seq<byte>, y: seq<byte>)
    requires Whole(16, x)
    ensures Ecb(f, x + y) == Ecb(f, x) + Ecb(f, y)
  {
    hide Ecb;
    if x == [] {
      assert x + y == y;
      EcbNothing(f);
    } else {
      var b, t := x[..16], x[16..];
      assert x == b + t;
      EcbConcat(f, t, y);
      EcbCons(f, b, t);
      EcbCons(f, b, t + y);
      ConcatAssoc(b, t, y);
      ConcatAssoc(f(b), Ecb(f, t), Ecb(f, y));
    }
  }

  lemma EcbNothing(f: seq<byte> -> seq<byte>)
    ensures Ecb(f, []) == []
  {
  }

  lemma {:induction false} EcbInverse(f: seq<byte> -> seq<byte>, g: seq<byte> -> seq<byte>, x: seq<byte>)
    requires BlockToBlock(f) && Whole(16, x)
    requires forall b: seq<byte> | |b| == 16 :: g(f(b)) == b
    ensures Ecb(g, Ecb(f, x)) == x
  {
    hide Ecb;
    EcbNothing(f);
    EcbNothing(g);
    if x != [] {
      var b, t := x[..16], x[16..];
      assert x == b + t;
      EcbInverse(f, g, t);
      EcbCons(f, b, t);
      EcbCons(g, f(b), Ecb(f, t));
    }
  }

  lemma EcbStreams(f: seq<byte> -> seq<byte>)
    requires BlockToBlock(f)
    ensures Streaming(16, x => Ecb(f, x))
  {
    hide Ecb;
    forall x | Whole(16, x) ensures |Ecb(f, x)| == |x| {
      EcbLength(f, x);
    }
    forall x, y | Whole(16, x) && Whole(16, y) && x <= y ensures Ecb(f, x) <= Ecb(f, y) {
      assert y == x + y[|x|..];
      EcbConcat(f, x, y[|x|..]);
    }
  }

  /** ECB obeys the laws of a streaming mode, whatever permutation the cipher is. */
  lemma EcbIsLawful(c: BlockCipher)
    requires c.IsPermutation()
    ensures EcbMode(c).Lawful()
  {
    EcbStreams(c.enc);
    EcbStreams(c.dec);
    forall x | Whole(16, x) ensures Ecb(c.dec, Ecb(c.enc, x)) == x && Ecb(c.enc, Ecb(c.dec, x)) == x {
      EcbInverse(c.enc, c.dec, x);
      EcbInverse(c.dec, c.enc, x);
    }
  }

  /** A context that stands between blocks is safe to use again: one block in, its image out. */
  lemma OneBlock(f: seq<byte> -> seq<byte>, g: seq<byte> -> seq<byte>, seen: seq<byte>, block: seq<byte>)
    requires BlockToBlock(f) && Streaming(16, g) && (forall x :: g(x) == Ecb(f, x))
    requires Whole(16, seen) && |block| == 16
    ensures NewOutput(16, g, seen, block) == f(block)
    ensures Whole(16, seen + block)
  {
    hide Ecb, Streaming;
    assert Blocks(16, seen) == seen && Blocks(16, seen + block) == seen + block;
    EcbConcat(f, seen, block);
    EcbCons(f, block, []);
    EcbNothing(f);
    assert block + [] == block && f(block) + [] == f(block);
    EcbLength(f, seen);
    assert (Ecb(f, seen) + f(block))[|Ecb(f, seen)|..] == f(block);
  }

  function Transform(c: BlockCipher, encrypting: bool): seq<byte> -> seq<byte> {
    if encrypting then c.enc else c.dec
  }

  ghost predicate IsEcb(ctx: CipherContext, c: BlockCipher) {
    c.IsPermutation() && ctx.mode == EcbMode(c) && ctx.Valid()
  }

  /** `Cipher(AES(key), ECB()).encryptor()` or `.decryptor()`. */
  method NewEcb(c: BlockCipher, encrypting: bool) returns (ctx: CipherContext)
    requires c.IsPermutation()
    ensures fresh(ctx) && IsEcb(ctx, c) && ctx.encrypting == encrypting && ctx.seen == []
  {
    EcbIsLawful(c);
    ctx := new CipherContext(EcbMode(c), encrypting, false);
  }

  /** One discrete 16-byte operation of a context that has been given whole blocks only. */
  method OnBlock(ctx: CipherContext, ghost c: BlockCipher, block: seq<byte>) returns (b: seq<byte>)
    requires IsEcb(ctx, c) && Whole(16, ctx.seen) && |block| == 16
    modifies ctx
    ensures Whole(16, ctx.seen) && |b| == 16 && b == Transform(c, ctx.encrypting)(block)
  {
    hide NewOutput, Streaming, Ecb;
    OneBlock(Transform(c, ctx.encrypting), ctx.mode.Direction(ctx.encrypting), ctx.seen, block);
    b := ctx.Update(block);
  }

  // ---------------------------------------------------------------- the 6n steps

  /** The half with the step number combined in by exclusive or. */
  function XorStep(a: Half, t: nat): Half {
    seq(8, i requires 0 <= i < 8 => a[i] ^ ToBytes(t, 8)[i])
  }

  /** Two halves make the discrete block that one ECB call handles. */
  function Block(a: Half, r: Half): (b: seq<byte>)
    ensures |b| == 16
  {
    a + r
  }

  datatype State = State(a: Half, r: seq<Half>)

  /** The step numbered `t`, on half `i` of the key data. */
  function WrapStep(c: BlockCipher, st: State, t: nat, i: nat): (next: State)
    requires c.IsPermutation() && i < |st.r|
    ensures |next.r| == |st.r|
  {
    var b := c.enc(Block(st.a, st.r[i]));
    State(XorStep(b[..8], t), st.r[i := b[8..]])
  }

  function UnwrapStep(c: BlockCipher, st: State, t: nat, i: nat): (next: State)
    requires c.IsPermutation() && i < |st.r|
    ensures |next.r| == |st.r|
  {
    var b := c.dec(Block(XorStep(st.a, t), st.r[i]));
    State(b[..8], st.r[i := b[8..]])
  }

  /** The state after `j` whole rounds and `i` steps of the next. */
  function WrapTo(c: BlockCipher, st: State, j: nat, i: nat): (r: State)
    requires c.IsPermutation() && i <= |st.r|
    ensures |r.r| == |st.r|
    decreases j, i
  {
    if i > 0 then WrapStep(c, WrapTo(c, st, j, i - 1), |st.r| * j + i, i - 1)
    else if j > 0 then WrapTo(c, st, j - 1, |st.r|)
    else st
  }

  /** The state after undoing `i` steps of round `j`, and the `j` rounds before it. */
  function UnwrapFrom(c: BlockCipher, st: State, j: nat, i: nat): (r: State)
    requires c.IsPermutation() && i <= |st.r|
    ensures |r.r| == |st.r|
    decreases j, i
  {
    if i > 0 then UnwrapFrom(c, UnwrapStep(c, st, |st.r| * j + i, i - 1), j, i - 1)
    else if j > 0 then UnwrapFrom(c, st, j - 1, |st.r|)
    else st
  }

  lemma XorTwice(a: Half, t: nat)
    ensures XorStep(XorStep(a, t), t) == a
  {
  }

  lemma UnwrapStepUndoes(c: BlockCipher, st: State, t: nat, i: nat)
    requires c.IsPermutation() && i < |st.r|
    ensures UnwrapStep(c, WrapStep(c, st, t, i), t, i) == st
  {
    var b := c.enc(Block(st.a, st.r[i]));
    XorTwice(b[..8], t);
    assert Block(b[..8], b[8..]) == b;
    assert Block(st.a, st.r[i])[..8] == st.a && Block(st.a, st.r[i])[8..] == st.r[i];
    assert st.r[i := b[8..]][i := st.r[i]] == st.r;
  }

  lemma WrapStepUndoes(c: BlockCipher, st: State, t: nat, i: nat)
    requires c.IsPermutation() && i < |st.r|
    ensures WrapStep(c, UnwrapStep(c, st, t, i), t, i) == st
  {
    var x: Half := XorStep(st.a, t);
    var b := c.dec(Block(x, st.r[i]));
    XorTwice(st.a, t);
    assert Block(b[..8], b[8..]) == b;
    assert Block(x, st.r[i])[..8] == x && Block(x, st.r[i])[8..] == st.r[i];
    assert st.r[i := b[8..]][i := st.r[i]] == st.r;
  }

  /** Unwrapping undoes any number of wrap steps, and wrapping any number of unwrap steps. */
  lemma {:induction false} UnwrapUndoesWrap(c: BlockCipher, st: State, j: nat, i: nat)
    requires c.IsPermutation() && i <= |st.r|
    ensures UnwrapFrom(c, WrapTo(c, st, j, i), j, i) == st
    decreases j, i
  {
    hide WrapStep, UnwrapStep;
    if i > 0 {
      UnwrapStepUndoes(c, WrapTo(c, st, j, i - 1), |st.r| * j + i, i - 1);
      UnwrapUndoesWrap(c, st, j, i - 1);
    } else if j > 0 {
      UnwrapUndoesWrap(c, st, j - 1, |st.r|);
    }
  }

  lemma {:induction false} WrapUndoesUnwrap(c: BlockCipher, st: State, j: nat, i: nat)
    requires c.IsPermutation() && i <= |st.r|
    ensures WrapTo(c, UnwrapFrom(c, st, j, i), j, i) == st
    decreases j, i
  {
    hide WrapStep, UnwrapStep;
    if i > 0 {
      var prev := UnwrapStep(c, st, |st.r| * j + i, i - 1);
      WrapUndoesUnwrap(c, prev, j, i - 1);
      WrapStepUndoes(c, st, |st.r| * j + i, i - 1);
    } else if j > 0 {
      WrapUndoesUnwrap(c, st, j - 1, |st.r|);
    }
  }

  // ---------------------------------------------------------------- the loops

  function Wrapped(c: BlockCipher, a: Half, r: seq<Half>): (out: seq<byte>)
    requires c.IsPermutation()
    ensures |out| == 8 + 8 * |r| && |out| % 8 == 0
  {
    var st := WrapTo(c, State(a, r), 6, 0);
    HalvesLength(st.r);
    Eights(|r|);
    st.a + Flatten(st.r)
  }

  lemma Eights(n: nat)
    ensures (8 + 8 * n) % 8 == 0 && (8 + 8 * n) / 8 == n + 1 && (8 * n) % 8 == 0
  {
  }

  lemma {:induction false} HalvesLength(r: seq<Half>)
    ensures |Flatten(r)| == 8 * |r|
  {
    if r != [] { HalvesLength(r[1..]); }
  }

  method WrapCore(c: BlockCipher, a0: Half, r: array<Half>) returns (out: seq<byte>)
    requires c.IsPermutation()
    modifies r
    ensures out == Wrapped(c, a0, old(r[..]))
  {
    hide *;
    var encryptor := NewEcb(c, true);
    assert Whole(16, encryptor.seen) by { NothingIsWhole(); }
    var a := a0;
    var n := r.Length;
    ghost var start := State(a0, r[..]);
    NoSteps(c, start);
    for j := 0 to 6
      invariant Whole(16, encryptor.seen)
      invariant State(a, r[..]) == WrapTo(c, start, j, 0)
    {
      for i := 0 to n
        invariant Whole(16, encryptor.seen)
        invariant State(a, r[..]) == WrapTo(c, start, j, i)
      {
        ghost var st := State(a, r[..]);
        NextStep(c, start, j, i);
        WrapStepMeaning(c, st, n * j + i + 1, i);
        var b := OnBlock(encryptor, c, Block(a, r[i]));
        a := XorStep(b[..8], n * j + i + 1);
        r[i] := b[8..];
        assert r[..] == st.r[i := b[8..]];
      }
      NextRound(c, start, j);
    }
    WrappedIs(c, a0, start.r);
    var last := Finished(encryptor, c);
    assert last == Ok([]);
    out := a + Flatten(r[..]);
  }

  lemma NothingIsWhole()
    ensures Whole(16, [])
  {
  }

  /** `finalize` of a context, with its error as the caller sees it. */
  method Finished(ctx: CipherContext, ghost c: BlockCipher) returns (r: Result<seq<byte>, Failure>)
    requires IsEcb(ctx, c)
    ensures r == if Whole(16, ctx.seen) then Ok([]) else Err(ValueError)
  {
    var last := ctx.Finalize(true);
    r := if last.Ok? then Ok(last.value) else Err(ValueError);
  }

  lemma NoSteps(c: BlockCipher, st: State)
    requires c.IsPermutation()
    ensures WrapTo(c, st, 0, 0) == st
  {
  }

  lemma NextStep(c: BlockCipher, st: State, j: nat, i: nat)
    requires c.IsPermutation() && i < |st.r|
    ensures |WrapTo(c, st, j, i).r| == |st.r|
    ensures WrapTo(c, st, j, i + 1) == WrapStep(c, WrapTo(c, st, j, i), |st.r| * j + i + 1, i)
  {
    hide WrapStep;
  }

  lemma NextRound(c: BlockCipher, st: State, j: nat)
    requires c.IsPermutation()
    ensures WrapTo(c, st, j + 1, 0) == WrapTo(c, st, j, |st.r|)
  {
    hide WrapStep;
  }

  lemma WrappedIs(c: BlockCipher, a: Half, r: seq<Half>)
    requires c.IsPermutation()
    ensures var st := WrapTo(c, State(a, r), 6, 0);
            Wrapped(c, a, r) == st.a + Flatten(st.r)
  {
    hide WrapTo;
  }

  lemma WrapStepMeaning(c: BlockCipher, st: State, t: nat, i: nat)
    requires c.IsPermutation() && i < |st.r|
    ensures |Block(st.a, st.r[i])| == 16
    ensures var b := Transform(c, true)(Block(st.a, st.r[i]));
            |b| == 16 && WrapStep(c, st, t, i) == State(XorStep(b[..8], t), st.r[i := b[8..]])
  {
  }

  lemma UnwrapStepMeaning(c: BlockCipher, st: State, t: nat, i: nat)
    requires c.IsPermutation() && i < |st.r|
    ensures |Block(XorStep(st.a, t), st.r[i])| == 16
    ensures var b := Transform(c, false)(Block(XorStep(st.a, t), st.r[i]));
            |b| == 16 && UnwrapStep(c, st, t, i) == State(b[..8], st.r[i := b[8..]])
  {
  }

  /** `b[:8]` and `b[-8:]`, which are all of a shorter `b`. */
  function FirstEight(b: seq<byte>): seq<byte> {
    if |b| >= 8 then b[..8] else b
  }

  function LastEight(b: seq<byte>): seq<byte> {
    if |b| >= 8 then b[|b| - 8..] else b
  }

  /** `(int.from_bytes(a) ^ t).to_bytes(8)`: eight bytes, however few `a` has. */
  function XorAny(a: seq<byte>, t: nat): Half
    requires |a| <= 8
  {
    XorStep(Zeros(8 - |a|) + a, t)
  }

  ghost predicate AllHalves(r: seq<seq<byte>>) {
    forall k | 0 <= k < |r| :: |r[k]| == 8
  }

  function AsState(a: seq<byte>, r: seq<seq<byte>>): (st: State)
    requires |a| == 8 && AllHalves(r)
    ensures st.r == r && st.a == a
  {
    State(a, r)
  }

  /** Halves, but for a last piece of `m` bytes. */
  ghost predicate ShortLast(r: seq<seq<byte>>, m: nat) {
    && |r| >= 2 && 1 <= m <= 7 && |r[|r| - 1]| == m
    && forall k | 0 <= k < |r| - 1 :: |r[k]| == 8
  }

  /** Where the lengths stand with `j` rounds and `i` steps to go: the short piece goes into the context and stays
      there, and comes out as a whole half one round later. */
  ghost predicate Ragged(m: nat, seen: nat, a: nat, r: seq<seq<byte>>, j: nat, i: nat) {
    && |r| >= 2 && 1 <= m <= 7 && i <= |r|
    && (forall k | 0 <= k < |r| - 1 :: |r[k]| == 8)
    && var n, last := |r|, |r[|r| - 1]|;
       if j >= 6 || (j == 5 && i == n) then a == 8 && last == m && seen % 16 == 0
       else if j == 5 || (j == 4 && i == n) then
         last == 0 && seen % 16 == 8 + m && a == (if j == 5 && i == n - 1 then 0 else 8)
       else last == 8 && a == 8 && seen % 16 == m
  }

  /** What the loops keep: with whole halves the steps still to undo lead to `goal`. */
  ghost predicate Progress(c: BlockCipher, goal: State, m: nat, seen: seq<byte>, a: seq<byte>, r: seq<seq<byte>>,
                           j: nat, i: nat)
  {
    if m == 8 then
      && c.IsPermutation() && |a| == 8 && AllHalves(r) && i <= |r| && Whole(16, seen)
      && UnwrapFrom(c, AsState(a, r), j, i) == goal
    else Ragged(m, |seen|, |a|, r, j, i)
  }

  lemma ProgressStart(c: BlockCipher, a0: Half, r: seq<seq<byte>>, m: nat) returns (goal: State)
    requires c.IsPermutation()
    requires m == 8 ==> AllHalves(r)
    requires m != 8 ==> ShortLast(r, m)
    ensures m == 8 ==> goal == UnwrapFrom(c, AsState(a0, r), 6, 0)
    ensures Progress(c, goal, m, [], a0, r, 6, 0)
  {
    hide UnwrapFrom;
    goal := if m == 8 then UnwrapFrom(c, AsState(a0, r), 6, 0) else State(a0, []);
  }

  lemma ProgressRound(c: BlockCipher, goal: State, m: nat, seen: seq<byte>, a: seq<byte>, r: seq<seq<byte>>, j: nat)
    requires j < 6 && Progress(c, goal, m, seen, a, r, j + 1, 0)
    ensures Progress(c, goal, m, seen, a, r, j, |r|)
  {
    hide UnwrapStep;
  }

  lemma ProgressEnd(c: BlockCipher, goal: State, m: nat, seen: seq<byte>, a: seq<byte>, r: seq<seq<byte>>)
    requires Progress(c, goal, m, seen, a, r, 0, 0)
    ensures m == 8 ==> |a| == 8 && AllHalves(r) && AsState(a, r) == goal && Whole(16, seen)
    ensures m != 8 ==> !Whole(16, seen)
  {
    hide UnwrapStep;
  }

  /** One pass of the inner loop. */
  lemma ProgressStep(ctx: CipherContext, c: BlockCipher, goal: State, m: nat, seen: seq<byte>, a: seq<byte>,
                     r: seq<seq<byte>>, j: nat, i: nat)
    requires IsEcb(ctx, c) && !ctx.encrypting
    requires j < 6 && i < |r| && Progress(c, goal, m, seen, a, r, j, i + 1)
    ensures |a| <= 8
    ensures var atr := XorAny(a, |r| * j + i + 1) + r[i];
            var b := ctx.Output(seen, atr);
            Progress(c, goal, m, seen + atr, FirstEight(b), r[i := LastEight(b)], j, i)
  {
    hide *;
    if m == 8 {
      RegularPass(ctx, c, goal, seen, a, r, j, i, |r| * j + i + 1);
    } else {
      RaggedPass(ctx, c, goal, m, seen, a, r, j, i, |r| * j + i + 1);
    }
  }

  lemma RegularPass(ctx: CipherContext, c: BlockCipher, goal: State, seen: seq<byte>, a: seq<byte>,
                    r: seq<seq<byte>>, j: nat, i: nat, t: nat)
    requires IsEcb(ctx, c) && !ctx.encrypting
    requires i < |r| && t == |r| * j + i + 1 && Progress(c, goal, 8, seen, a, r, j, i + 1)
    ensures |a| <= 8
    ensures var atr := XorAny(a, t) + r[i];
            var b := ctx.Output(seen, atr);
            Progress(c, goal, 8, seen + atr, FirstEight(b), r[i := LastEight(b)], j, i)
  {
    hide XorStep, UnwrapStep, NewOutput, Streaming, Ecb;
    var st := AsState(a, r);
    assert Zeros(0) + a == a;
    var atr := XorAny(a, t) + r[i];
    UnwrapStepMeaning(c, st, t, i);
    assert atr == Block(XorStep(st.a, t), st.r[i]);
    OneBlock(c.dec, ctx.mode.Direction(false), seen, atr);
    var b := ctx.Output(seen, atr);
    assert FirstEight(b) == b[..8] && LastEight(b) == b[8..];
  }

  lemma RaggedPass(ctx: CipherContext, c: BlockCipher, goal: State, m: nat, seen: seq<byte>, a: seq<byte>,
                   r: seq<seq<byte>>, j: nat, i: nat, t: nat)
    requires IsEcb(ctx, c) && !ctx.encrypting && m != 8
    requires j < 6 && i < |r| && Progress(c, goal, m, seen, a, r, j, i + 1)
    ensures |a| <= 8
    ensures var atr := XorAny(a, t) + r[i];
            var b := ctx.Output(seen, atr);
            Progress(c, goal, m, seen + atr, FirstEight(b), r[i := LastEight(b)], j, i)
  {
    hide XorAny, FirstEight, LastEight, NewOutput, Streaming, Ecb, Ragged;
    RaggedLengths(m, |seen|, |a|, r, j, i);
    var atr := XorAny(a, t) + r[i];
    OutputLength(ctx.mode.Direction(false), seen, atr);
    RaggedStep(m, |seen|, |a|, r, j, i, ctx.Output(seen, atr));
  }

  lemma RaggedStep(m: nat, seen: nat, a: nat, r: seq<seq<byte>>, j: nat, i: nat, b: seq<byte>)
    requires j < 6 && i < |r| && Ragged(m, seen, a, r, j, i + 1)
    requires |b| == if seen % 16 + 8 + |r[i]| >= 16 then 16 else 0
    ensures Ragged(m, seen + 8 + |r[i]|, |FirstEight(b)|, r[i := LastEight(b)], j, i)
  {
    assert (seen + 8 + |r[i]|) % 16 == (seen % 16 + 8 + |r[i]|) % 16;
  }

  lemma RaggedLengths(m: nat, seen: nat, a: nat, r: seq<seq<byte>>, j: nat, i: nat)
    requires j < 6 && i < |r| && Ragged(m, seen, a, r, j, i + 1)
    ensures a <= 8 && seen % 16 + 8 + |r[i]| < 32
  {
  }

  /** Bytes that do not fill a block stay in the context. */
  lemma OutputLength(g: seq<byte> -> seq<byte>, seen: seq<byte>, data: seq<byte>)
    requires Streaming(16, g) && |seen| % 16 + |data| < 32
    ensures |NewOutput(16, g, seen, data)| == if |seen| % 16 + |data| >= 16 then 16 else 0
  {
    assert |Blocks(16, seen + data)| == |Blocks(16, seen)| + if |seen| % 16 + |data| >= 16 then 16 else 0;
  }

  /** Whole halves are unwrapped. A short last piece is not looked for: it upsets the context, whose `finalize` then
      raises, whatever the bytes are. */
  method UnwrapCore(c: BlockCipher, a0: Half, r: array<seq<byte>>, ghost m: nat)
    returns (a: seq<byte>, last: Result<seq<byte>, Failure>)
    requires c.IsPermutation()
    requires m == 8 ==> AllHalves(r[..])
    requires m != 8 ==> ShortLast(r[..], m)
    modifies r
    ensures m == 8 ==> last == Ok([]) && |a| == 8 && AllHalves(r[..])
                       && AsState(a, r[..]) == UnwrapFrom(c, AsState(a0, old(r[..])), 6, 0)
    ensures m != 8 ==> last == Err(ValueError)
  {
    hide *;
    var decryptor := NewEcb(c, false);
    a := a0;
    var n := r.Length;
    ghost var goal := ProgressStart(c, a0, r[..], m);
    for j := 6 downto 0
      invariant Progress(c, goal, m, decryptor.seen, a, r[..], j, 0)
    {
      ProgressRound(c, goal, m, decryptor.seen, a, r[..], j);
      for i := n downto 0
        invariant Progress(c, goal, m, decryptor.seen, a, r[..], j, i)
      {
        ghost var before := r[..];
        ProgressStep(decryptor, c, goal, m, decryptor.seen, a, before, j, i);
        var atr := XorAny(a, n * j + i + 1) + r[i];
        var b := decryptor.Update(atr);
        a := FirstEight(b);
        r[i] := LastEight(b);
        assert r[..] == before[i := LastEight(b)];
      }
    }
    ProgressEnd(c, goal, m, decryptor.seen, a, r[..]);
    last := Finished(decryptor, c);
  }

  // ---------------------------------------------------------------- whole byte strings

  /** `[s[i : i + 8] for i in range(0, len(s), 8)]`, for a length divisible by 8. */
  function Halves(s: seq<byte>): (r: seq<Half>)
    requires |s| % 8 == 0
    ensures |r| == |s| / 8
  {
    if s == [] then [] else [s[..8]] + Halves(s[8..])
  }

  lemma {:induction false} HalvesOfFlatten(r: seq<Half>)
    ensures |Flatten(r)| == 8 * |r| && Halves(Flatten(r)) == r
  {
    if r != [] {
      HalvesOfFlatten(r[1..]);
      var first: seq<byte> := r[0];
      assert (first + Flatten(r[1..]))[..8] == first;
      assert (first + Flatten(r[1..]))[8..] == Flatten(r[1..]);
    }
  }

  lemma {:induction false} FlattenOfHalves(s: seq<byte>)
    requires |s| % 8 == 0
    ensures Flatten(Halves(s)) == s
  {
    if s != [] {
      FlattenOfHalves(s[8..]);
      assert s == s[..8] + s[8..];
      assert Halves(s)[1..] == Halves(s[8..]);
    }
  }

  const INITIAL_VALUE: Half := [0xA6, 0xA6, 0xA6, 0xA6, 0xA6, 0xA6, 0xA6, 0xA6]

  function KeyWrapSpec(aes: Aes, wrappingKey: seq<byte>, key: seq<byte>): Result<seq<byte>, Failure>
    requires IsAes(aes)
  {
    if !ValidAesKey(wrappingKey) || |key| < 16 || |key| % 8 != 0 then Err(ValueError)
    else Ok(Wrapped(aes(wrappingKey), INITIAL_VALUE, Halves(key)))
  }

  function KeyUnwrapSpec(aes: Aes, wrappingKey: seq<byte>, wrapped: seq<byte>): Result<seq<byte>, Failure>
    requires IsAes(aes)
  {
    if |wrapped| < 24 || |wrapped| % 8 != 0 then Err(InvalidUnwrap)
    else if !ValidAesKey(wrappingKey) then Err(ValueError)
    else
      var st := Unwrapped(aes(wrappingKey), wrapped);
      if st.a != INITIAL_VALUE then Err(InvalidUnwrap) else Ok(Flatten(st.r))
  }

  /** The first half is the integrity register, the others the key data; all six rounds are undone. */
  function Unwrapped(c: BlockCipher, wrapped: seq<byte>): (st: State)
    requires c.IsPermutation() && |wrapped| >= 8 && |wrapped| % 8 == 0
    ensures |st.r| == |wrapped| / 8 - 1
  {
    UnwrapFrom(c, State(wrapped[..8], Halves(wrapped[8..])), 6, 0)
  }

  method MakeList(s: seq<byte>) returns (r: array<Half>)
    requires |s| % 8 == 0
    ensures fresh(r) && r[..] == Halves(s)
  {
    var halves := Halves(s);
    r := new Half[|halves|](i requires 0 <= i < |halves| => halves[i]);
    assert r[..] == halves;
  }

  method AesKeyWrap(aes: Aes, wrappingKey: seq<byte>, keyToWrap: seq<byte>) returns (r: Result<seq<byte>, Failure>)
    requires IsAes(aes)
    ensures r == KeyWrapSpec(aes, wrappingKey, keyToWrap)
  {
    if !ValidAesKey(wrappingKey) {
      return Err(ValueError);
    }
    if |keyToWrap| < 16 {
      return Err(ValueError);
    }
    if |keyToWrap| % 8 != 0 {
      return Err(ValueError);
    }
    var list := MakeList(keyToWrap);
    var out := WrapCore(aes(wrappingKey), INITIAL_VALUE, list);
    return Ok(out);
  }

  /** The same comprehension for any length: the last piece may be short. */
  function Pieces(s: seq<byte>): (r: seq<seq<byte>>)
    ensures |r| == (|s| + 7) / 8
  {
    if |s| <= 8 then (if s == [] then [] else [s]) else [s[..8]] + Pieces(s[8..])
  }

  lemma {:induction false} PiecesOfWhole(s: seq<byte>)
    requires |s| % 8 == 0
    ensures Pieces(s) == Halves(s)
  {
    if s != [] {
      PiecesOfWhole(s[8..]);
      assert |s| == 8 ==> s[..8] == s && Halves(s[8..]) == [];
    }
  }

  lemma {:induction false} PiecesOfRagged(s: seq<byte>)
    requires |s| % 8 != 0 && |s| > 8
    ensures ShortLast(Pieces(s), |s| % 8)
  {
    var t, rest := s[8..], Pieces(s[8..]);
    if |t| > 8 {
      PiecesOfRagged(t);
    }
    assert Pieces(s)[1..] == rest;
    forall k | 0 <= k < |Pieces(s)| - 1 ensures |Pieces(s)[k]| == 8 {
      if k > 0 { assert Pieces(s)[k] == rest[k - 1]; }
    }
  }

  /** `r.pop(0)` and the six rounds back over what is left. */
  method UnwrapList(c: BlockCipher, wrapped: seq<byte>)
    returns (list: array<seq<byte>>, a: seq<byte>, last: Result<seq<byte>, Failure>)
    requires c.IsPermutation() && |wrapped| > 16
    ensures fresh(list)
    ensures |wrapped| % 8 == 0 ==> last == Ok([]) && |a| == 8 && AllHalves(list[..])
                                   && AsState(a, list[..]) == Unwrapped(c, wrapped)
    ensures |wrapped| % 8 != 0 ==> last == Err(ValueError)
  {
    hide *;
    ghost var m := PiecesOfTail(wrapped);
    list := MakePieces(wrapped[8..]);
    a, last := UnwrapCore(c, wrapped[..8], list, m);
    if m == 8 {
      UnwrappedIs(c, wrapped);
    }
  }

  method MakePieces(s: seq<byte>) returns (r: array<seq<byte>>)
    ensures fresh(r) && r[..] == Pieces(s)
  {
    hide Pieces;
    var pieces := Pieces(s);
    r := new seq<byte>[|pieces|](i requires 0 <= i < |pieces| => pieces[i]);
    assert r[..] == pieces;
  }

  lemma PiecesOfTail(wrapped: seq<byte>) returns (m: nat)
    requires |wrapped| > 16
    ensures m == if |wrapped| % 8 == 0 then 8 else |wrapped| % 8
    ensures m == 8 ==> AllHalves(Pieces(wrapped[8..]))
    ensures m != 8 ==> ShortLast(Pieces(wrapped[8..]), m)
  {
    hide *;
    m := if |wrapped| % 8 == 0 then 8 else |wrapped| % 8;
    EightLess(|wrapped|);
    if m == 8 {
      PiecesOfWhole(wrapped[8..]);
      HalvesAreEight(Halves(wrapped[8..]));
    } else {
      PiecesOfRagged(wrapped[8..]);
    }
  }

  lemma EightLess(n: nat)
    requires n >= 8
    ensures (n - 8) % 8 == n % 8
  {
  }

  lemma HalvesAreEight(r: seq<Half>)
    ensures AllHalves(r)
  {
  }

  lemma UnwrappedIs(c: BlockCipher, wrapped: seq<byte>)
    requires c.IsPermutation() && |wrapped| > 16 && |wrapped| % 8 == 0
    ensures AllHalves(Pieces(wrapped[8..]))
    ensures Unwrapped(c, wrapped) == UnwrapFrom(c, AsState(wrapped[..8], Pieces(wrapped[8..])), 6, 0)
  {
    hide UnwrapFrom, Pieces;
    PiecesOfWhole(wrapped[8..]);
  }

  method AesKeyUnwrap(aes: Aes, wrappingKey: seq<byte>, wrappedKey: seq<byte>) returns (r: Result<seq<byte>, Failure>)
    requires IsAes(aes)
    ensures r == KeyUnwrapSpec(aes, wrappingKey, wrappedKey)
  {
    if |wrappedKey| < 24 {
      return Err(InvalidUnwrap);
    }
    if |wrappedKey| % 8 != 0 {
      return Err(InvalidUnwrap);
    }
    if !ValidAesKey(wrappingKey) {
      return Err(ValueError);
    }
    var list, a, last := UnwrapList(aes(wrappingKey), wrappedKey);
    assert last == Ok([]);
    hide Unwrapped;
    if a != INITIAL_VALUE {
      return Err(InvalidUnwrap);
    }
    return Ok(Flatten(list[..]));
  }

  lemma UnwrappedOfWrapped(c: BlockCipher, a: Half, r: seq<Half>)
    requires c.IsPermutation()
    ensures Unwrapped(c, Wrapped(c, a, r)) == State(a, r)
  {
    UnwrapUndoesWrap(c, State(a, r), 6, 0);
    hide WrapTo, UnwrapFrom;
    var st := WrapTo(c, State(a, r), 6, 0);
    HalvesOfFlatten(st.r);
    var out := Wrapped(c, a, r);
    assert out[..8] == st.a && out[8..] == Flatten(st.r);
  }

  lemma WrappedOfUnwrapped(c: BlockCipher, wrapped: seq<byte>)
    requires c.IsPermutation() && |wrapped| >= 8 && |wrapped| % 8 == 0
    ensures var st := Unwrapped(c, wrapped); Wrapped(c, st.a, st.r) == wrapped
  {
    WrapUndoesUnwrap(c, State(wrapped[..8], Halves(wrapped[8..])), 6, 0);
    hide WrapTo, UnwrapFrom;
    FlattenOfHalves(wrapped[8..]);
    var st := Unwrapped(c, wrapped);
    assert State(st.a, st.r) == st;
    assert wrapped[..8] + wrapped[8..] == wrapped;
  }

  /** Unwrapping inverts wrapping and accepts nothing else, whatever permutation AES is. */
  lemma KeyWrapIsBijection(aes: Aes, wrappingKey: seq<byte>, key: seq<byte>, wrapped: seq<byte>)
    requires IsAes(aes)
    ensures KeyWrapSpec(aes, wrappingKey, key) == Ok(wrapped) <==> KeyUnwrapSpec(aes, wrappingKey, wrapped) == Ok(key)
  {
    hide WrapTo, UnwrapFrom, Wrapped, Unwrapped;
    if KeyWrapSpec(aes, wrappingKey, key) == Ok(wrapped) {
      UnwrappedOfWrapped(aes(wrappingKey), INITIAL_VALUE, Halves(key));
      FlattenOfHalves(key);
    }
    if KeyUnwrapSpec(aes, wrappingKey, wrapped) == Ok(key) {
      WrappedOfUnwrapped(aes(wrappingKey), wrapped);
      HalvesOfFlatten(Unwrapped(aes(wrappingKey), wrapped).r);
    }
  }

  // ---------------------------------------------------------------- wrapping with padding

  const PAD_CONSTANT: seq<byte> := [0xA6, 0x59, 0x59, 0xA6]

  function Zeros(n: nat): seq<byte> {
    seq(n, _ => 0)
  }

  /** The alternative initial value: a constant and the length of the key in 32 bits. */
  function Aiv(length: nat): Half {
    PAD_CONSTANT + ToBytes(length, 4)
  }

  function ZeroPad(key: seq<byte>): (r: seq<byte>)
    ensures |r| % 8 == 0
  {
    key + Zeros((8 - |key| % 8) % 8)
  }

  function PaddedWrapSpec(aes: Aes, wrappingKey: seq<byte>, key: seq<byte>): Result<seq<byte>, Failure>
    requires IsAes(aes)
  {
    if !ValidAesKey(wrappingKey) then Err(ValueError)
    else if |key| >= 0x1_0000_0000 then Err(OverflowError)
    else Ok(WrapPadded(aes(wrappingKey), Aiv(|key|), ZeroPad(key)))
  }

  /** One block is encrypted directly; anything else goes through the six rounds. */
  function WrapPadded(c: BlockCipher, aiv: Half, padded: seq<byte>): seq<byte>
    requires c.IsPermutation() && |padded| % 8 == 0
  {
    if |padded| == 8 then c.enc(Block(aiv, padded)) else Wrapped(c, aiv, Halves(padded))
  }

  /** The integrity half and the padded key data. */
  function UnwrapPadded(c: BlockCipher, wrapped: seq<byte>): (r: (Half, seq<byte>))
    requires c.IsPermutation() && |wrapped| >= 16 && |wrapped| % 8 == 0
    ensures |r.1| == |wrapped| - 8 && |r.1| % 8 == 0
  {
    if |wrapped| == 16 then
      var out := c.dec(wrapped);
      (out[..8], out[8..])
    else
      var st := Unwrapped(c, wrapped);
      HalvesLength(st.r);
      Eights(|st.r|);
      (st.a, Flatten(st.r))
  }

  /** The checks on the length indicator and the zero octets, and the key without its padding. */
  function RecoverKey(a: Half, data: seq<byte>): Result<seq<byte>, Failure>
    requires |data| % 8 == 0
  {
    var n := |data| / 8;
    var mli := FromBytes(a[4..]);
    var b := 8 * n - mli;
    if a[..4] != PAD_CONSTANT || !(8 * (n - 1) < mli <= 8 * n) || (b != 0 && data[|data| - b..] != Zeros(b)) then
      Err(InvalidUnwrap)
    else Ok(data[..|data| - b])
  }

  function PaddedUnwrapSpec(aes: Aes, wrappingKey: seq<byte>, wrapped: seq<byte>): Result<seq<byte>, Failure>
    requires IsAes(aes)
  {
    if |wrapped| < 16 then Err(InvalidUnwrap)
    else if !ValidAesKey(wrappingKey) || |wrapped| % 8 != 0 then Err(ValueError)
    else
      var integrity := UnwrapPadded(aes(wrappingKey), wrapped);
      RecoverKey(integrity.0, integrity.1)
  }

  method AesKeyWrapWithPadding(aes: Aes, wrappingKey: seq<byte>, keyToWrap: seq<byte>)
    returns (r: Result<seq<byte>, Failure>)
    requires IsAes(aes)
    ensures r == PaddedWrapSpec(aes, wrappingKey, keyToWrap)
  {
    hide WrapPadded, Aiv;
    if !ValidAesKey(wrappingKey) {
      return Err(ValueError);
    }
    if |keyToWrap| >= 0x1_0000_0000 {
      return Err(OverflowError);
    }
    var aiv := Aiv(|keyToWrap|);
    var pad := (8 - |keyToWrap| % 8) % 8;
    var padded := keyToWrap + Zeros(pad);
    assert padded == ZeroPad(keyToWrap);
    hide ZeroPad;
    var out := WrapBlocks(aes(wrappingKey), aiv, padded);
    return Ok(out);
  }

  method WrapBlocks(c: BlockCipher, aiv: Half, padded: seq<byte>) returns (out: seq<byte>)
    requires c.IsPermutation() && |padded| % 8 == 0
    ensures out == WrapPadded(c, aiv, padded)
  {
    hide Wrapped, IsEcb, Whole;
    if |padded| == 8 {
      var encryptor := NewEcb(c, true);
      NothingIsWhole();
      out := OnBlock(encryptor, c, Block(aiv, padded));
      var last := Finished(encryptor, c);
      assert last == Ok([]);
    } else {
      var list := MakeList(padded);
      out := WrapCore(c, aiv, list);
    }
  }

  method AesKeyUnwrapWithPadding(aes: Aes, wrappingKey: seq<byte>, wrappedKey: seq<byte>)
    returns (r: Result<seq<byte>, Failure>)
    requires IsAes(aes)
    ensures r == PaddedUnwrapSpec(aes, wrappingKey, wrappedKey)
  {
    hide UnwrapPadded, RecoverKey;
    if |wrappedKey| < 16 {
      return Err(InvalidUnwrap);
    }
    if !ValidAesKey(wrappingKey) {
      return Err(ValueError);
    }
    var last, a, data, n := UnwrapBlocks(aes(wrappingKey), wrappedKey);
    if last.Err? {
      return Err(last.error);
    }
    r := CheckAndStrip(a, data, n);
  }

  method UnwrapBlocks(c: BlockCipher, wrapped: seq<byte>)
    returns (last: Result<seq<byte>, Failure>, a: seq<byte>, data: seq<byte>, n: nat)
    requires c.IsPermutation() && |wrapped| >= 16
    ensures |wrapped| % 8 == 0 ==>
              last == Ok([]) && |a| == 8 && (a, data) == UnwrapPadded(c, wrapped) && n == |data| / 8
    ensures |wrapped| % 8 != 0 ==> last == Err(ValueError)
  {
    hide Unwrapped, IsEcb, Whole;
    if |wrapped| == 16 {
      var decryptor := NewEcb(c, false);
      NothingIsWhole();
      var out := OnBlock(decryptor, c, wrapped);
      last := Finished(decryptor, c);
      a, data, n := out[..8], out[8..], 1;
    } else {
      var list, a', last' := UnwrapList(c, wrapped);
      a, data, n, last := a', Flatten(list[..]), list.Length, last';
      if |wrapped| % 8 == 0 {
        HalvesLength(Unwrapped(c, wrapped).r);
      }
    }
  }

  method CheckAndStrip(a: Half, data: seq<byte>, n: nat) returns (r: Result<seq<byte>, Failure>)
    requires |data| % 8 == 0 && n == |data| / 8
    ensures r == RecoverKey(a, data)
  {
    var mli := FromBytes(a[4..]);
    var b := 8 * n - mli;
    if a[..4] != PAD_CONSTANT || !(8 * (n - 1) < mli <= 8 * n) || (b != 0 && data[|data| - b..] != Zeros(b)) {
      return Err(InvalidUnwrap);
    }
    if b == 0 {
      assert data[..|data|] == data;
      return Ok(data);
    } else {
      return Ok(data[..|data| - b]);
    }
  }

  /** The checks accept exactly the padded form of a non-empty key of the indicated length. */
  lemma RecoverKeyMeaning(a: Half, data: seq<byte>, key: seq<byte>)
    requires |data| % 8 == 0 && data != []
    ensures RecoverKey(a, data) == Ok(key) <==>
            key != [] && |key| < 0x1_0000_0000 && a == Aiv(|key|) && data == ZeroPad(key)
  {
    Pow256Values();
    var mli, n := FromBytes(a[4..]), |data| / 8;
    FromBytesBound(a[4..]);
    ToFromBytes(a[4..]);
    assert a[..4] + a[4..] == a;
    hide FromBytes, ToBytes, Pow256;
    if RecoverKey(a, data) == Ok(key) {
      assert |key| == mli;
      assert data == data[..mli] + data[mli..];
      assert key == data[..mli];
      if mli == 8 * n {
        assert data[mli..] == [] == Zeros(0);
        PadAmount(key, 0);
      } else {
        PadAmount(key, 8 * n - mli);
      }
    }
    if key != [] && |key| < 0x1_0000_0000 && a == Aiv(|key|) && data == ZeroPad(key) {
      FromToBytes(|key|, 4);
      assert a[4..] == ToBytes(|key|, 4) && a[..4] == PAD_CONSTANT;
      assert data[..|key|] == key;
      assert data[|key|..] == Zeros(|data| - |key|);
    }
  }

  lemma PadAmount(key: seq<byte>, b: nat)
    requires b < 8 && (|key| + b) % 8 == 0
    ensures (8 - |key| % 8) % 8 == b
  {
  }

  lemma PaddedInverse(c: BlockCipher, aiv: Half, padded: seq<byte>, wrapped: seq<byte>)
    requires c.IsPermutation() && |padded| % 8 == 0 && padded != []
    requires |wrapped| >= 16 && |wrapped| % 8 == 0
    ensures WrapPadded(c, aiv, padded) == wrapped <==> UnwrapPadded(c, wrapped) == (aiv, padded)
  {
    hide Wrapped, Unwrapped;
    WrapPaddedLength(c, aiv, padded);
    if |wrapped| == 16 && |padded| == 8 {
      var block, out := Block(aiv, padded), c.dec(wrapped);
      assert block[..8] == aiv && block[8..] == padded;
      assert Block(out[..8], out[8..]) == out;
    } else if |wrapped| == |padded| + 8 {
      FlattenOfHalves(padded);
      UnwrappedOfWrapped(c, aiv, Halves(padded));
      WrappedOfUnwrapped(c, wrapped);
      HalvesOfFlatten(Unwrapped(c, wrapped).r);
    }
  }

  lemma WrapPaddedLength(c: BlockCipher, aiv: Half, padded: seq<byte>)
    requires c.IsPermutation() && |padded| % 8 == 0
    ensures |WrapPadded(c, aiv, padded)| == |padded| + 8
    ensures |WrapPadded(c, aiv, padded)| % 8 == 0
  {
    hide Wrapped;
  }

  /** Unwrap succeeds exactly on what wrapping a non-empty key gives, and returns that key. */
  lemma PaddedWrapIsBijection(aes: Aes, wrappingKey: seq<byte>, key: seq<byte>, wrapped: seq<byte>)
    requires IsAes(aes)
    ensures PaddedUnwrapSpec(aes, wrappingKey, wrapped) == Ok(key) <==>
            key != [] && PaddedWrapSpec(aes, wrappingKey, key) == Ok(wrapped)
  {
    hide WrapPadded, UnwrapPadded, Aiv, ZeroPad, RecoverKey, BlockCipher.IsPermutation;
    if ValidAesKey(wrappingKey) {
      var c := aes(wrappingKey);
      WrapPaddedLength(c, Aiv(|key|), ZeroPad(key));
      if |wrapped| >= 16 && |wrapped| % 8 == 0 {
        PaddedInverseForKey(c, key, wrapped);
      } else {
        ZeroPadLength(key);
      }
    }
  }

  lemma PaddedInverseForKey(c: BlockCipher, key: seq<byte>, wrapped: seq<byte>)
    requires c.IsPermutation() && |wrapped| >= 16 && |wrapped| % 8 == 0
    ensures var integrity := UnwrapPadded(c, wrapped);
            RecoverKey(integrity.0, integrity.1) == Ok(key) <==>
            key != [] && |key| < 0x1_0000_0000 && WrapPadded(c, Aiv(|key|), ZeroPad(key)) == wrapped
  {
    hide *;
    var integrity := UnwrapPadded(c, wrapped);
    RecoverKeyMeaning(integrity.0, integrity.1, key);
    if key != [] {
      ZeroPadLength(key);
      PaddedInverse(c, Aiv(|key|), ZeroPad(key), wrapped);
    }
  }

  /** The empty key is wrapped to eight bytes, which unwrapping refuses. */
  lemma EmptyKeyIsLost(aes: Aes, wrappingKey: seq<byte>)
    requires IsAes(aes) && ValidAesKey(wrappingKey)
    ensures PaddedWrapSpec(aes, wrappingKey, []) == Ok(Aiv(0))
    ensures PaddedUnwrapSpec(aes, wrappingKey, Aiv(0)) == Err(InvalidUnwrap)
  {
    hide WrapStep, Aiv;
    var st := State(Aiv(0), []);
    assert ZeroPad([]) == [] && Halves([]) == [];
    NoStepsOnNothing(aes(wrappingKey), st, 6);
    assert Aiv(0) + Flatten<byte>([]) == Aiv(0);
  }

  lemma {:induction false} NoStepsOnNothing(c: BlockCipher, st: State, j: nat)
    requires c.IsPermutation() && st.r == []
    ensures WrapTo(c, st, j, 0) == st
  {
    if j > 0 {
      NoStepsOnNothing(c, st, j - 1);
    }
  }

  lemma ZeroPadLength(key: seq<byte>)
    ensures key != [] ==> |ZeroPad(key)| >= 8
  {
  }
}
