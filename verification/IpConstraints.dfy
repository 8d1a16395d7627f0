/**
 * IP addresses and CIDR name constraints. An address is its big-endian bit string, so that the
 * 32-bit and the 128-bit arithmetic of the two families is one definition over the width.
 */
module IpConstraints {
  import opened Common
  import opened Bits
  import BigEndian

  datatype IpAddress = V4(value: bits) | V6(value: bits) {
    ghost predicate Valid() {
      |value| == Width()
    }

    function Width(): nat {
      if V4? then 32 else 128
    }

    function With(masked: bits): IpAddress {
      if V4? then V4(masked) else V6(masked)
    }
  }

  function IpFromBytes(b: seq<byte>): (r: Option<IpAddress>)
    ensures r.Some? ==> r.value.Valid()
  {
    if |b| == 4 then Some(V4(FromBigEndian(b)))
    else if |b| == 16 then Some(V6(FromBigEndian(b)))
    else None
  }

  // ---------------------------------------------------------------- fixed-width words

  function LeadingOnes(x: bits): nat {
    if x == [] || !x[0] then 0 else 1 + LeadingOnes(x[1..])
  }

  function CountOnes(x: bits): nat {
    if x == [] then 0 else (if x[0] then 1 else 0) + CountOnes(x[1..])
  }

  function Repeat(b: bool, n: nat): bits {
    seq(n, _ => b)
  }

  /** `checked_shr`: no result once the whole word would be shifted out. */
  function CheckedShr(x: bits, k: nat): (r: Option<bits>)
    ensures r.Some? ==> |r.value| == |x|
  {
    if k < |x| then Some(Repeat(false, k) + x[..|x| - k]) else None
  }

  function CheckedShl(x: bits, k: nat): (r: Option<bits>)
    ensures r.Some? ==> |r.value| == |x|
  {
    if k < |x| then Some(x[k..] + Repeat(false, k)) else None
  }

  lemma ShiftsExist(x: bits, k: nat)
    ensures CheckedShr(x, k).Some? <==> k < |x|
    ensures CheckedShl(x, k).Some? <==> k < |x|
    ensures k < |x| ==> CheckedShr(x, k).value == Repeat(false, k) + x[..|x| - k]
    ensures k < |x| ==> CheckedShl(x, k).value == x[k..] + Repeat(false, k)
  {
  }

  /** Shifting right drops the low `k` bits. */
  lemma ShrMeaning(x: bits, k: nat)
    requires k < |x|
    ensures Value(x) == Value(CheckedShr(x, k).value) * Pow2(k) + Value(x[|x| - k..])
  {
    hide *;
    Cut(x, |x| - k);
    ShiftsExist(x, k);
    RightShiftValue(x[..|x| - k], x[|x| - k..]);
  }

  /** Shifting left multiplies by 2^k and drops the high `k` bits. */
  lemma ShlMeaning(x: bits, k: nat)
    requires k < |x|
    ensures Value(x) * Pow2(k) == Value(x[..k]) * Pow2(|x|) + Value(CheckedShl(x, k).value)
  {
    hide *;
    Cut(x, k);
    ShiftsExist(x, k);
    LeftShiftValue(x[..k], x[k..]);
  }

  lemma Cut(x: bits, k: nat)
    requires k <= |x|
    ensures x == x[..k] + x[k..] && |x[..k]| == k && |x[k..]| == |x| - k
  {
  }

  lemma RightShiftValue(high: bits, low: bits)
    ensures Value(high + low) == Value(Repeat(false, |low|) + high) * Pow2(|low|) + Value(low)
  {
    hide *;
    ValueConcat(high, low);
    ValueConcat(Repeat(false, |low|), high);
    RepeatValue(false, |low|);
  }

  lemma LeftShiftValue(high: bits, low: bits)
    ensures Value(high + low) * Pow2(|high|) ==
            Value(high) * Pow2(|high| + |low|) + Value(low + Repeat(false, |high|))
  {
    hide *;
    var k := |high|;
    ValueConcat(high, low);
    ValueConcat(low, Repeat(false, k));
    RepeatValue(false, k);
    RepeatLength(false, k);
    PowerSum(|low|, k);
    ShiftLeftValue(Value(high), Value(low), Pow2(|low|), Pow2(k));
  }

  lemma RepeatLength(b: bool, n: nat)
    ensures |Repeat(b, n)| == n
  {
  }

  lemma ShiftLeftValue(high: nat, low: nat, p: nat, q: nat)
    ensures (high * p + low) * q == high * (p * q) + low * q
  {
  }

  function OrZero(x: Option<bits>, width: nat): bits {
    match x
    case Some(value) => value
    case None => Repeat(false, width)
  }

  // ---------------------------------------------------------------- masks

  /** The length of the run of set bits, if nothing is set after it. */
  function AsPrefix(a: IpAddress): Option<nat> {
    if LeadingOnes(a.value) != CountOnes(a.value) then None else Some(LeadingOnes(a.value))
  }

  /** All ones, shifted right and back left by the bits the prefix leaves out. */
  function MaskWord(width: nat, prefix: nat): (r: bits)
    ensures |r| == width
  {
    var shift := if prefix < width then width - prefix else 0;
    OrZero(CheckedShl(OrZero(CheckedShr(Repeat(true, width), shift), width), shift), width)
  }

  function Mask(a: IpAddress, prefix: nat): (r: IpAddress)
    requires a.Valid()
    ensures r.Valid() && (r.V4? <==> a.V4?)
  {
    a.With(AndBits(a.value, MaskWord(a.Width(), prefix)))
  }

  datatype IpConstraint = IpConstraint(address: IpAddress, prefix: nat) {
    predicate Matches(addr: IpAddress)
      requires addr.Valid()
    {
      address == Mask(addr, prefix)
    }
  }

  function ConstraintFromBytes(b: seq<byte>): Option<IpConstraint> {
    if |b| != 8 && |b| != 32 then None
    else
      var half := if |b| == 8 then 4 else 16;
      match AsPrefix(IpFromBytes(b[half..]).value)
      case None => None
      case Some(prefix) => Some(IpConstraint(Mask(IpFromBytes(b[..half]).value, prefix), prefix))
  }

  // ---------------------------------------------------------------- what masks mean

  /** `p` ones, then zeros. */
  function Contiguous(width: nat, p: nat): bits
    requires p <= width
  {
    Repeat(true, p) + Repeat(false, width - p)
  }

  function Min(a: nat, b: nat): nat {
    if a < b then a else b
  }

  lemma {:induction false} OnesAtMostLength(x: bits)
    ensures LeadingOnes(x) <= CountOnes(x) <= |x|
  {
    if x != [] { OnesAtMostLength(x[1..]); }
  }

  lemma {:induction false} NoOnes(x: bits)
    ensures CountOnes(x) == 0 <==> x == Repeat(false, |x|)
  {
    if x != [] {
      NoOnes(x[1..]);
      assert x == [x[0]] + x[1..];
      assert Repeat(false, |x|) == [false] + Repeat(false, |x| - 1);
    }
  }

  lemma {:induction false} RunOfOnes(x: bits)
    ensures LeadingOnes(x) <= |x|
    ensures LeadingOnes(x) == CountOnes(x) <==> x == Contiguous(|x|, LeadingOnes(x))
  {
    OnesAtMostLength(x);
    if x != [] {
      assert x == [x[0]] + x[1..];
      if x[0] {
        RunOfOnes(x[1..]);
        assert Contiguous(|x|, LeadingOnes(x)) == [true] + Contiguous(|x| - 1, LeadingOnes(x[1..]));
      } else {
        NoOnes(x);
        assert Contiguous(|x|, 0) == Repeat(false, |x|);
      }
    }
  }

  lemma {:induction false} LeadingOnesOfContiguous(width: nat, p: nat)
    requires p <= width
    ensures LeadingOnes(Contiguous(width, p)) == p
  {
    if p > 0 {
      LeadingOnesOfContiguous(width - 1, p - 1);
      assert Contiguous(width, p)[1..] == Contiguous(width - 1, p - 1);
    }
  }

  /** A mask is accepted exactly when it is all ones with its low bits cleared. */
  lemma AsPrefixMeaning(a: IpAddress, p: nat)
    requires a.Valid()
    ensures AsPrefix(a) == Some(p) <==> p <= a.Width() && a.value == Contiguous(a.Width(), p)
  {
    RunOfOnes(a.value);
    if p <= a.Width() && a.value == Contiguous(a.Width(), p) {
      LeadingOnesOfContiguous(a.Width(), p);
    }
  }

  /** The two shifts build the prefix mask for every prefix, also 0 and over-long ones. */
  lemma MaskWordMeaning(width: nat, prefix: nat)
    ensures MaskWord(width, prefix) == Contiguous(width, Min(prefix, width))
  {
  }

  lemma MaskKeepsPrefix(a: IpAddress, prefix: nat)
    requires a.Valid()
    ensures var p := Min(prefix, a.Width());
            Mask(a, prefix).value == a.value[..p] + Repeat(false, a.Width() - p)
  {
    MaskWordMeaning(a.Width(), prefix);
  }

  lemma MasksCompose(a: IpAddress, p: nat, q: nat)
    requires a.Valid()
    ensures Mask(Mask(a, p), q) == Mask(a, Min(p, q))
  {
    hide MaskWord;
    MaskKeepsPrefix(a, p);
    MaskKeepsPrefix(Mask(a, p), q);
    MaskKeepsPrefix(a, Min(p, q));
  }

  /** A constraint parses exactly when its second half is a contiguous mask of an address family. */
  lemma ConstraintParses(b: seq<byte>)
    ensures ConstraintFromBytes(b).Some? <==>
            && (|b| == 8 || |b| == 32)
            && exists p :: 0 <= p <= 4 * |b| && FromBigEndian(b[|b| / 2..]) == Contiguous(4 * |b|, p)
  {
    if |b| == 8 || |b| == 32 {
      var mask := IpFromBytes(b[|b| / 2..]).value;
      RunOfOnes(mask.value);
      if p :| 0 <= p <= 4 * |b| && FromBigEndian(b[|b| / 2..]) == Contiguous(4 * |b|, p) {
        AsPrefixMeaning(mask, p);
      }
    }
  }

  /** Matching is `addr & mask == network & mask` within one family. */
  lemma ConstraintMeaning(b: seq<byte>, addr: IpAddress)
    requires ConstraintFromBytes(b).Some? && addr.Valid()
    ensures var mask := FromBigEndian(b[|b| / 2..]);
            var net := FromBigEndian(b[..|b| / 2]);
            ConstraintFromBytes(b).value.Matches(addr) <==>
              (addr.V4? <==> |b| == 8) && AndBits(addr.value, mask) == AndBits(net, mask)
  {
    var mask := IpFromBytes(b[|b| / 2..]).value;
    var prefix := AsPrefix(mask).value;
    AsPrefixMeaning(mask, prefix);
    MaskWordMeaning(mask.Width(), prefix);
  }

  // ---------------------------------------------------------------- the same on octets and numbers

  /** Four octets are an IPv4 address, sixteen an IPv6 one, with the octets' big-endian number. */
  lemma IpFromBytesMeaning(octets: seq<byte>)
    ensures IpFromBytes(octets).Some? <==> |octets| == 4 || |octets| == 16
    ensures IpFromBytes(octets).Some? ==>
              var addr := IpFromBytes(octets).value;
              && (addr.V4? <==> |octets| == 4)
              && Value(addr.value) == BigEndian.FromBytes(octets)
  {
    hide FromBigEndian, Value;
    BigEndianValue(octets);
  }

  lemma {:induction false} RepeatValue(b: bool, n: nat)
    ensures Value(Repeat(b, n)) == if b then Pow2(n) - 1 else 0
  {
    if n > 0 {
      RepeatValue(b, n - 1);
      assert Repeat(b, n) == Repeat(b, n - 1) + [b];
      hide *;
      ValueSnoc(Repeat(b, n - 1), b);
      NextPower(n - 1);
      BitIs(b);
    }
  }

  lemma NextPower(n: nat)
    ensures Pow2(n + 1) == 2 * Pow2(n)
  {
  }

  lemma BitIs(b: bool)
    ensures Bit(b) == if b then 1 else 0
  {
  }

  /** All ones with the low bits cleared, as a number. */
  lemma ContiguousValue(width: nat, p: nat)
    requires p <= width
    ensures Value(Contiguous(width, p)) == Pow2(width) - Pow2(width - p)
  {
    hide *;
    ContiguousIs(width, p);
    RepeatValue(true, p);
    RepeatValue(false, width - p);
    ValueConcat(Repeat(true, p), Repeat(false, width - p));
    PowerSum(p, width - p);
    Less(Pow2(p), Pow2(width - p));
  }

  lemma ContiguousIs(width: nat, p: nat)
    requires p <= width
    ensures Contiguous(width, p) == Repeat(true, p) + Repeat(false, width - p)
    ensures |Repeat(false, width - p)| == width - p
  {
  }

  lemma Less(a: nat, b: nat)
    requires a > 0
    ensures (a - 1) * b == a * b - b
  {
  }

  lemma {:induction false} PowerSum(a: nat, b: nat)
    ensures Pow2(a) * Pow2(b) == Pow2(a + b)
  {
    if b > 0 {
      PowerSum(a, b - 1);
      Twice(Pow2(a), Pow2(b - 1));
    }
  }

  /** The mask's octets are the number 2^width - 2^(width - p). */
  ghost predicate IsMask(octets: seq<byte>, p: nat) {
    p <= 8 * |octets| && BigEndian.FromBytes(octets) == Pow2(8 * |octets|) - Pow2(8 * |octets| - p)
  }

  lemma MaskIsNumber(octets: seq<byte>, p: nat)
    requires p <= 8 * |octets|
    ensures FromBigEndian(octets) == Contiguous(8 * |octets|, p) <==> IsMask(octets, p)
  {
    hide FromBigEndian, Value, Contiguous, Pow2;
    BigEndianValue(octets);
    ContiguousValue(8 * |octets|, p);
    ContiguousLength(8 * |octets|, p);
    ValueInjective(FromBigEndian(octets), Contiguous(8 * |octets|, p));
  }

  lemma ContiguousLength(width: nat, p: nat)
    requires p <= width
    ensures |Contiguous(width, p)| == width
  {
  }

  /** A constraint parses exactly when its second half is, as a number, ones followed by zeros. */
  lemma ConstraintParsesAsNumber(b: seq<byte>)
    ensures ConstraintFromBytes(b).Some? <==>
            (|b| == 8 || |b| == 32) && exists p :: 0 <= p <= 4 * |b| && IsMask(b[|b| / 2..], p)
  {
    hide IsMask, FromBigEndian, Contiguous, ConstraintFromBytes;
    ConstraintParses(b);
    if |b| == 8 || |b| == 32 {
      forall p | 0 <= p <= 4 * |b|
        ensures FromBigEndian(b[|b| / 2..]) == Contiguous(4 * |b|, p) <==> IsMask(b[|b| / 2..], p)
      {
        MaskIsNumber(b[|b| / 2..], p);
      }
    }
  }

  /** Of `octets` and `net` the same bits are kept by `mask`. */
  predicate SameUnder(octets: seq<byte>, net: seq<byte>, mask: seq<byte>)
    requires |octets| == |net| == |mask|
  {
    forall k | 0 <= k < |octets| :: octets[k] & mask[k] == net[k] & mask[k]
  }

  /** Matching, octet by octet: one family, and `addr & mask == net & mask`. */
  lemma ConstraintOnOctets(b: seq<byte>, octets: seq<byte>)
    requires ConstraintFromBytes(b).Some? && IpFromBytes(octets).Some?
    ensures ConstraintFromBytes(b).value.Matches(IpFromBytes(octets).value) <==>
            |b| == 2 * |octets| && SameUnder(octets, b[..|b| / 2], b[|b| / 2..])
  {
    hide FromBigEndian, ConstraintFromBytes, IpConstraint.Matches;
    ConstraintParses(b);
    ConstraintMeaning(b, IpFromBytes(octets).value);
    if |b| == 2 * |octets| {
      SameUnderBits(octets, b[..|b| / 2], b[|b| / 2..]);
    }
  }

  lemma SameUnderBytes(octets: seq<byte>, net: seq<byte>, mask: seq<byte>)
    requires |octets| == |net| == |mask|
    ensures SameUnder(octets, net, mask) <==> AndBytes(octets, mask) == AndBytes(net, mask)
  {
    var x, y := AndBytes(octets, mask), AndBytes(net, mask);
    if x == y {
      forall k | 0 <= k < |octets| ensures octets[k] & mask[k] == net[k] & mask[k] {
        assert x[k] == y[k];
      }
    }
  }

  lemma SameUnderBits(octets: seq<byte>, net: seq<byte>, mask: seq<byte>)
    requires |octets| == |net| == |mask|
    ensures SameUnder(octets, net, mask) <==>
            AndBits(FromBigEndian(octets), FromBigEndian(mask)) == AndBits(FromBigEndian(net), FromBigEndian(mask))
  {
    hide *;
    AndBytesBits(octets, mask);
    AndBytesBits(net, mask);
    SameBits(AndBytes(octets, mask), AndBytes(net, mask));
    SameUnderBytes(octets, net, mask);
  }
}
