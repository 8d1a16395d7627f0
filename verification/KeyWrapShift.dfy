/** Key wrap as RFC 3394 section 2.2.1 first defines it, by shifting the registers, with its exclusive or on numbers. */
module KeyWrapShift {
  import opened Common
  import opened BigEndian
  import opened Bits
  import opened KeyWrap

  const LIMIT: nat := 0x1_0000_0000_0000_0000

  /** A half with the step number combined in is the exclusive or of the two numbers. */
  lemma XorStepValue(a: Half, t: nat)
    requires t < LIMIT
    ensures FromBytes(XorStep(a, t)) == XorNat(FromBytes(a), t)
    ensures ToBytes(XorNat(FromBytes(a), t), 8) == XorStep(a, t)
  {
    hide FromBytes, ToBytes, XorNat, Pow256;
    Pow256Values();
    FromToBytes(t, 8);
    assert XorStep(a, t) == XorBytes(a, ToBytes(t, 8));
    hide XorStep;
    XorBytesValue(a, ToBytes(t, 8));
    ToFromBytes(XorStep(a, t));
  }

  /** The step number alone: what is combined into a half of zeros. */
  lemma StepNumberAlone(t: nat)
    requires t < LIMIT
    ensures FromBytes(XorStep([0, 0, 0, 0, 0, 0, 0, 0], t)) == t
  {
    var zeros: Half := [0, 0, 0, 0, 0, 0, 0, 0];
    XorStepValue(zeros, t);
    ZeroHalf();
    XorWithZero(t);
  }

  lemma ZeroHalf()
    ensures FromBytes([0, 0, 0, 0, 0, 0, 0, 0]) == 0
  {
    hide ToBytes, FromBytes, Pow256;
    Pow256Values();
    FromToBytes(0, 8);
    ZeroBytes();
  }

  lemma ZeroBytes()
    ensures ToBytes(0, 3) == [0, 0, 0]
    ensures ToBytes(0, 8) == [0, 0, 0, 0, 0, 0, 0, 0]
  {
    assert ToBytes(0, 1) == [0];
    assert ToBytes(0, 2) == [0, 0];
    assert ToBytes(0, 3) == [0, 0, 0];
    assert ToBytes(0, 4) == [0, 0, 0, 0];
    assert ToBytes(0, 5) == [0, 0, 0, 0, 0];
    assert ToBytes(0, 6) == [0, 0, 0, 0, 0, 0];
    assert ToBytes(0, 7) == [0, 0, 0, 0, 0, 0, 0];
  }

  /** B = AES(A | R[1]); A = t ^ MSB(64, B); R[i] = R[i+1]; R[n] = LSB(64, B). */
  function Shift(c: BlockCipher, st: State, t: nat): (next: State)
    requires c.IsPermutation() && st.r != []
    ensures |next.r| == |st.r|
  {
    var b := c.enc(st.a + st.r[0]);
    State(ToBytes(XorNat(FromBytes(b[..8]), t), 8), st.r[1..] + [b[8..]])
  }

  /** Steps 1 to t. */
  function Shifts(c: BlockCipher, st: State, t: nat): (r: State)
    requires c.IsPermutation() && (t > 0 ==> st.r != [])
    ensures |r.r| == |st.r|
  {
    if t == 0 then st else Shift(c, Shifts(c, st, t - 1), t)
  }

  /** The registers of the indexing method, turned so that the next one to be used comes first. */
  function Turned(st: State, i: nat): State
    requires i <= |st.r|
  {
    State(st.a, st.r[i..] + st.r[..i])
  }

  lemma TurnedStep(c: BlockCipher, st: State, t: nat, i: nat)
    requires c.IsPermutation() && i < |st.r| && t < LIMIT
    ensures Turned(st, i).r != []
    ensures Shift(c, Turned(st, i), t) == Turned(WrapStep(c, st, t, i), i + 1)
  {
    var b := c.enc(Block(st.a, st.r[i]));
    XorStepValue(b[..8], t);
    hide XorStep, ToBytes, FromBytes, XorNat;
    TurnedSeq(st.r, i, b[8..]);
  }

  lemma TurnedSeq(r: seq<Half>, i: nat, last: Half)
    requires i < |r|
    ensures (r[i..] + r[..i])[0] == r[i]
    ensures (r[i..] + r[..i])[1..] + [last] == r[i := last][i + 1..] + r[i := last][..i + 1]
  {
    var next := r[i := last];
    assert next[i + 1..] == r[i + 1..];
    assert next[..i + 1] == r[..i] + [last];
    assert (r[i..] + r[..i])[1..] == r[i + 1..] + r[..i];
    ConcatAssoc(r[i + 1..], r[..i], [last]);
  }

  lemma TurnedRound(st: State)
    ensures Turned(st, |st.r|) == Turned(st, 0) == st
  {
    assert st.r[|st.r|..] + st.r[..|st.r|] == st.r == st.r[0..] + st.r[..0];
  }

  /** After any number of steps the two methods hold the same registers, one of them turned. */
  lemma {:induction false} ShiftIsIndex(c: BlockCipher, st: State, j: nat, i: nat)
    requires c.IsPermutation() && i <= |st.r| && st.r != [] && Steps(|st.r|, j, i) < LIMIT
    ensures Shifts(c, st, Steps(|st.r|, j, i)) == Turned(WrapTo(c, st, j, i), i)
    decreases j, i
  {
    hide *;
    StepCounts(|st.r|, j, i);
    if i > 0 {
      ShiftIsIndex(c, st, j, i - 1);
      NextStep(c, st, j, i - 1);
      NextShift(c, st, Steps(|st.r|, j, i - 1));
      TurnedStep(c, WrapTo(c, st, j, i - 1), Steps(|st.r|, j, i), i - 1);
    } else if j > 0 {
      ShiftIsIndex(c, st, j - 1, |st.r|);
      NextRound(c, st, j - 1);
      TurnedRound(WrapTo(c, st, j, 0));
    } else {
      NoSteps(c, st);
      NoShifts(c, st);
      TurnedRound(st);
    }
  }

  function Steps(n: nat, j: nat, i: nat): nat {
    n * j + i
  }

  lemma StepCounts(n: nat, j: nat, i: nat)
    ensures i > 0 ==> Steps(n, j, i) == Steps(n, j, i - 1) + 1 == n * j + (i - 1) + 1
    ensures j > 0 ==> Steps(n, j, 0) == Steps(n, j - 1, n)
    ensures Steps(n, 0, 0) == 0
  {
  }

  lemma NextShift(c: BlockCipher, st: State, t: nat)
    requires c.IsPermutation() && st.r != []
    ensures Shifts(c, st, t + 1) == Shift(c, Shifts(c, st, t), t + 1)
  {
    hide Shift;
  }

  lemma NoShifts(c: BlockCipher, st: State)
    requires c.IsPermutation()
    ensures Shifts(c, st, 0) == st
  {
  }

  /** Six passes over the registers give what 6n shifts give. */
  lemma WrappedByShifting(c: BlockCipher, a: Half, r: seq<Half>)
    requires c.IsPermutation() && 6 * |r| < LIMIT
    ensures var last := Shifts(c, State(a, r), 6 * |r|);
            Wrapped(c, a, r) == last.a + Flatten(last.r)
  {
    hide *;
    var st := State(a, r);
    WrappedIs(c, a, r);
    if r == [] {
      NoStepsOnNothing(c, st, 6);
      NoShifts(c, st);
    } else {
      SixRounds(|r|);
      ShiftIsIndex(c, st, 6, 0);
      TurnedRound(WrapTo(c, st, 6, 0));
    }
  }

  lemma SixRounds(n: nat)
    ensures Steps(n, 6, 0) == 6 * n
  {
  }

  /** `aes_key_wrap` is RFC 3394 section 2.2.1 with the default initial value of section 2.2.3.1. */
  lemma KeyWrapIsRfc3394(aes: Aes, wrappingKey: seq<byte>, key: seq<byte>)
    requires IsAes(aes) && 6 * (|key| / 8) < LIMIT
    ensures KeyWrapSpec(aes, wrappingKey, key) ==
            if (|wrappingKey| != 16 && |wrappingKey| != 24 && |wrappingKey| != 32) || |key| < 16 || |key| % 8 != 0 then
              Err(ValueError)
            else
              var last := Shifts(aes(wrappingKey), State([0xA6, 0xA6, 0xA6, 0xA6, 0xA6, 0xA6, 0xA6, 0xA6], Halves(key)),
                                 6 * (|key| / 8));
              Ok(last.a + Flatten(last.r))
  {
    hide Wrapped, Shifts, Halves;
    if ValidAesKey(wrappingKey) && |key| >= 16 && |key| % 8 == 0 {
      WrappedByShifting(aes(wrappingKey), INITIAL_VALUE, Halves(key));
    }
  }

  /** What an unwrapped key must begin with, and which lengths are refused. */
  lemma KeyUnwrapErrors(aes: Aes, wrappingKey: seq<byte>, wrapped: seq<byte>)
    requires IsAes(aes)
    ensures |wrapped| < 24 || |wrapped| % 8 != 0 ==> KeyUnwrapSpec(aes, wrappingKey, wrapped) == Err(InvalidUnwrap)
    ensures |wrapped| >= 24 && |wrapped| % 8 == 0 && |wrappingKey| != 16 && |wrappingKey| != 24 && |wrappingKey| != 32 ==>
              KeyUnwrapSpec(aes, wrappingKey, wrapped) == Err(ValueError)
    ensures KeyUnwrapSpec(aes, wrappingKey, wrapped) == Err(ValueError) ==> |wrapped| >= 24 && !ValidAesKey(wrappingKey)
  {
    hide Unwrapped;
  }

  /** A key of 1 to 8 bytes is one block: the constant, the length, the key, zeros. */
  lemma ShortKeyIsOneBlock(aes: Aes, wrappingKey: seq<byte>, key: seq<byte>)
    requires IsAes(aes) && 1 <= |key| <= 8 && ValidAesKey(wrappingKey)
    ensures PaddedWrapSpec(aes, wrappingKey, key) ==
            Ok(aes(wrappingKey).enc([0xA6, 0x59, 0x59, 0xA6, 0, 0, 0, U8(|key|)] + key + Zeros(8 - |key|)))
  {
    hide WrapPadded, Aiv, ZeroPad, Zeros, BlockCipher.IsPermutation, U8;
    PaddedIs(aes, wrappingKey, key);
    ShortPad(key);
    ShortAiv(|key|);
    OneBlockIs(aes(wrappingKey), Aiv(|key|), ZeroPad(key));
    ConcatAssoc(Aiv(|key|), key, Zeros(8 - |key|));
  }

  lemma PaddedIs(aes: Aes, wrappingKey: seq<byte>, key: seq<byte>)
    requires IsAes(aes) && |key| < 0x1_0000_0000 && ValidAesKey(wrappingKey)
    ensures PaddedWrapSpec(aes, wrappingKey, key) == Ok(WrapPadded(aes(wrappingKey), Aiv(|key|), ZeroPad(key)))
  {
  }

  /** The empty key becomes the constant and a zero length, with no encryption at all; unwrapping refuses that. */
  lemma EmptyKeyInClear(aes: Aes, wrappingKey: seq<byte>)
    requires IsAes(aes) && ValidAesKey(wrappingKey)
    ensures PaddedWrapSpec(aes, wrappingKey, []) == Ok([0xA6, 0x59, 0x59, 0xA6, 0, 0, 0, 0])
    ensures PaddedUnwrapSpec(aes, wrappingKey, [0xA6, 0x59, 0x59, 0xA6, 0, 0, 0, 0]) == Err(InvalidUnwrap)
  {
    hide PaddedWrapSpec, PaddedUnwrapSpec, Aiv, BlockCipher.IsPermutation;
    EmptyKeyIsLost(aes, wrappingKey);
    ShortAiv(0);
  }

  /** Which inputs the padded forms refuse before they look at a block. */
  lemma PaddedErrors(aes: Aes, wrappingKey: seq<byte>, s: seq<byte>)
    requires IsAes(aes)
    ensures var wrongKey := |wrappingKey| != 16 && |wrappingKey| != 24 && |wrappingKey| != 32;
            && (PaddedWrapSpec(aes, wrappingKey, s) == Err(ValueError) <==> wrongKey)
            && (PaddedWrapSpec(aes, wrappingKey, s) == Err(OverflowError) <==> !wrongKey && |s| >= 0x1_0000_0000)
            && (|s| < 16 ==> PaddedUnwrapSpec(aes, wrappingKey, s) == Err(InvalidUnwrap))
            && (PaddedUnwrapSpec(aes, wrappingKey, s) == Err(ValueError) <==> |s| >= 16 && (wrongKey || |s| % 8 != 0))
  {
    hide WrapPadded, UnwrapPadded, Aiv, ZeroPad;
  }

  lemma ShortPad(key: seq<byte>)
    requires 1 <= |key| <= 8
    ensures ZeroPad(key) == key + Zeros(8 - |key|) && |ZeroPad(key)| == 8
  {
  }

  lemma ShortAiv(n: nat)
    requires n < 256
    ensures Aiv(n) == [0xA6, 0x59, 0x59, 0xA6, 0, 0, 0, U8(n)]
  {
    hide ToBytes, U8;
    ZeroBytes();
    ToBytesSnoc(0, n, 3);
  }

  lemma OneBlockIs(c: BlockCipher, aiv: Half, padded: seq<byte>)
    requires c.IsPermutation() && |padded| == 8
    ensures WrapPadded(c, aiv, padded) == c.enc(aiv + padded)
  {
  }

  /** A longer key is filled up with zeros and wrapped by shifting, from the constant and the length in 32 bits. */
  lemma LongKeyIsShifted(aes: Aes, wrappingKey: seq<byte>, key: seq<byte>)
    requires IsAes(aes) && 8 < |key| < 0x1_0000_0000 && ValidAesKey(wrappingKey)
    ensures var padded := ZeroPad(key);
            && key <= padded && |padded| < |key| + 8 && |padded| % 8 == 0
            && (forall i | |key| <= i < |padded| :: padded[i] == 0)
            && FromBytes(Aiv(|key|)) == 0xA659_59A6 * 0x1_0000_0000 + |key|
            && var last := Shifts(aes(wrappingKey), State(Aiv(|key|), Halves(padded)), 6 * (|padded| / 8));
               PaddedWrapSpec(aes, wrappingKey, key) == Ok(last.a + Flatten(last.r))
  {
    hide WrapPadded, Aiv, ZeroPad, Shifts, Wrapped, Halves, FromBytes, BlockCipher.IsPermutation;
    PaddedIs(aes, wrappingKey, key);
    LongPad(key);
    AivValue(|key|);
    LongIs(aes(wrappingKey), Aiv(|key|), ZeroPad(key));
    WrappedByShifting(aes(wrappingKey), Aiv(|key|), Halves(ZeroPad(key)));
  }

  lemma LongPad(key: seq<byte>)
    requires 8 < |key| < 0x1_0000_0000
    ensures key <= ZeroPad(key) && 8 < |ZeroPad(key)| < |key| + 8
    ensures |ZeroPad(key)| % 8 == 0 && 6 * (|ZeroPad(key)| / 8) < LIMIT
    ensures forall i | |key| <= i < |ZeroPad(key)| :: ZeroPad(key)[i] == 0
  {
  }

  lemma LongIs(c: BlockCipher, aiv: Half, padded: seq<byte>)
    requires c.IsPermutation() && |padded| % 8 == 0 && |padded| > 8
    ensures WrapPadded(c, aiv, padded) == Wrapped(c, aiv, Halves(padded))
  {
  }

  lemma {:induction false} AivValue(n: nat)
    requires n < 0x1_0000_0000
    ensures FromBytes(Aiv(n)) == 0xA659_59A6 * 0x1_0000_0000 + n
  {
    hide FromBytes, ToBytes, Pow256;
    Pow256Values();
    FromToBytes(n, 4);
    ConstantValue();
    FromBytesConcat(PAD_CONSTANT, ToBytes(n, 4));
  }

  lemma ConstantValue()
    ensures FromBytes(PAD_CONSTANT) == 0xA659_59A6
  {
    hide FromBytes;
    EmptyBytes(0);
    FromBytesSnoc([], 0xA6);
    FromBytesSnoc([0xA6], 0x59);
    FromBytesSnoc([0xA6, 0x59], 0x59);
    FromBytesSnoc([0xA6, 0x59, 0x59], 0xA6);
    assert [] + [0xA6] == [0xA6 as byte];
    assert [0xA6 as byte] + [0x59] == [0xA6, 0x59];
    assert [0xA6 as byte, 0x59] + [0x59] == [0xA6, 0x59, 0x59];
    assert [0xA6 as byte, 0x59, 0x59] + [0xA6] == PAD_CONSTANT;
  }

  lemma {:induction false} FromBytesConcat(x: seq<byte>, y: seq<byte>)
    ensures FromBytes(x + y) == FromBytes(x) * Pow256(|y|) + FromBytes(y)
  {
    hide FromBytes, Size;
    if y == [] {
      EmptyBytes(0);
      assert x + y == x;
    } else {
      var front, last := y[..|y| - 1], y[|y| - 1];
      assert y == front + [last];
      ConcatAssoc(x, front, [last]);
      FromBytesConcat(x, front);
      FromBytesSnoc(x + front, last);
      FromBytesSnoc(front, last);
      Regroup(FromBytes(x), Pow256(|front|));
    }
  }

  lemma Regroup(v: nat, p: nat)
    ensures 256 * (v * p) == v * (256 * p)
  {
  }
}
