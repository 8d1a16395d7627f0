/** The password's bytes in the PKCS#12 key derivation: UTF-16, the higher byte of a unit first, and a NUL at the end. */
module PasswordText {
  import opened Common
  import opened BigEndian
  import opened Pkcs12Kdf

  function Unit(high: byte, low: byte): nat {
    256 * Size(high) + Size(low)
  }

  predicate IsHighSurrogate(unit: nat) {
    0xD800 <= unit < 0xDC00
  }

  predicate IsLowSurrogate(unit: nat) {
    0xDC00 <= unit < 0xE000
  }

  /** The text that UTF-16BE bytes encode. */
  function Decoded(b: seq<byte>): Option<string> {
    if b == [] then Some("")
    else if |b| < 2 then None
    else if |b| >= 4 && IsHighSurrogate(Unit(b[0], b[1])) && IsLowSurrogate(Unit(b[2], b[3])) then
      Prepended(0x1_0000 + (Unit(b[0], b[1]) - 0xD800) * 0x400 + (Unit(b[2], b[3]) - 0xDC00), Decoded(b[4..]))
    else Prepended(Unit(b[0], b[1]), Decoded(b[2..]))
  }

  function Prepended(code: nat, rest: Option<string>): Option<string> {
    if rest.None? || 0xD800 <= code < 0xE000 || code >= 0x11_0000 then None else Some([code as char] + rest.value)
  }

  lemma TwoBytes(n: nat)
    requires n < 0x1_0000
    ensures |ToBytes(n, 2)| == 2 && ToBytes(n, 2) == [U8(n / 256), U8(n % 256)]
    ensures Unit(ToBytes(n, 2)[0], ToBytes(n, 2)[1]) == n
  {
    hide U8, Size, ToBytes;
    ToBytesSnoc(n / 256, n % 256, 1);
    ToBytesSnoc(0, n / 256, 0);
    EmptyBytes(0);
    assert [] + [U8(n / 256)] == [U8(n / 256)];
    SizeOfU8(n / 256);
    SizeOfU8(n % 256);
  }

  lemma DecodedUnit(n: nat, rest: seq<byte>)
    requires n < 0x1_0000 && !IsHighSurrogate(n)
    ensures Decoded(ToBytes(n, 2) + rest) == Prepended(n, Decoded(rest))
  {
    hide ToBytes, Unit, Prepended;
    TwoBytes(n);
    var b := ToBytes(n, 2) + rest;
    assert b[2..] == rest && b[0] == ToBytes(n, 2)[0] && b[1] == ToBytes(n, 2)[1];
  }

  lemma DecodedPair(m: nat, n: nat, rest: seq<byte>)
    requires IsHighSurrogate(m) && IsLowSurrogate(n)
    ensures Decoded(ToBytes(m, 2) + (ToBytes(n, 2) + rest)) ==
            Prepended(0x1_0000 + (m - 0xD800) * 0x400 + (n - 0xDC00), Decoded(rest))
  {
    hide ToBytes, Unit, Prepended;
    TwoBytes(m);
    TwoBytes(n);
    var b := ToBytes(m, 2) + (ToBytes(n, 2) + rest);
    assert b[4..] == rest && b[0] == ToBytes(m, 2)[0] && b[1] == ToBytes(m, 2)[1];
    assert b[2] == ToBytes(n, 2)[0] && b[3] == ToBytes(n, 2)[1];
  }

  lemma Surrogates(code: nat)
    requires 0x1_0000 <= code < 0x11_0000
    ensures var high, low := 0xD800 + (code - 0x1_0000) / 0x400, 0xDC00 + (code - 0x1_0000) % 0x400;
            && IsHighSurrogate(high) && IsLowSurrogate(low)
            && 0x1_0000 + (high - 0xD800) * 0x400 + (low - 0xDC00) == code
  {
  }

  lemma UnitsOfChar(c: char, rest: string)
    ensures c as int < 0x1_0000 ==> Utf16Units([c] + rest) == [c as nat] + Utf16Units(rest)
    ensures c as int >= 0x1_0000 ==>
              Utf16Units([c] + rest) ==
              [0xD800 + (c as nat - 0x1_0000) / 0x400, 0xDC00 + (c as nat - 0x1_0000) % 0x400] + Utf16Units(rest)
  {
    assert ([c] + rest)[1..] == rest;
  }

  lemma BytesOfUnit(unit: nat, units: seq<nat>)
    ensures UnitsToBytes([unit] + units) == ToBytes(unit, 2) + UnitsToBytes(units)
  {
    hide ToBytes;
    assert ([unit] + units)[1..] == units;
  }

  lemma BytesOfTwoUnits(m: nat, n: nat, units: seq<nat>)
    ensures UnitsToBytes([m, n] + units) == ToBytes(m, 2) + (ToBytes(n, 2) + UnitsToBytes(units))
  {
    hide ToBytes, UnitsToBytes;
    assert [m, n] + units == [m] + ([n] + units);
    BytesOfUnit(m, [n] + units);
    BytesOfUnit(n, units);
  }

  /** One character in front of bytes that decode. */
  lemma DecodedChar(c: char, text: string, rest: seq<byte>)
    ensures Decoded(UnitsToBytes(Utf16Units([c] + text)) + rest) ==
            Prepended(c as nat, Decoded(UnitsToBytes(Utf16Units(text)) + rest))
  {
    hide *;
    UnitsOfChar(c, text);
    var units := Utf16Units(text);
    var code := c as nat;
    if code < 0x1_0000 {
      BytesOfUnit(code, units);
      ScalarIsNoSurrogate(c);
      DecodedUnit(code, UnitsToBytes(units) + rest);
      ConcatAssoc(ToBytes(code, 2), UnitsToBytes(units), rest);
    } else {
      var m, n := 0xD800 + (code - 0x1_0000) / 0x400, 0xDC00 + (code - 0x1_0000) % 0x400;
      Surrogates(code);
      BytesOfTwoUnits(m, n, units);
      DecodedPair(m, n, UnitsToBytes(units) + rest);
      ConcatAssoc(ToBytes(m, 2), ToBytes(n, 2) + UnitsToBytes(units), rest);
      ConcatAssoc(ToBytes(n, 2), UnitsToBytes(units), rest);
    }
  }

  lemma ScalarIsNoSurrogate(c: char)
    ensures !IsHighSurrogate(c as nat)
  {
  }

  lemma PrependedChar(c: char, text: string)
    ensures Prepended(c as nat, Some(text)) == Some([c] + text)
  {
  }

  lemma {:induction false} DecodedText(pass: string, rest: seq<byte>, tail: string)
    requires Decoded(rest) == Some(tail)
    ensures Decoded(UnitsToBytes(Utf16Units(pass)) + rest) == Some(pass + tail)
  {
    hide *;
    if pass == "" {
      NoUnits(rest);
      assert pass + tail == tail;
    } else {
      var c, text := pass[0], pass[1..];
      assert pass == [c] + text;
      DecodedText(text, rest, tail);
      DecodedChar(c, text, rest);
      PrependedChar(c, text + tail);
      ConcatAssoc([c], text, tail);
    }
  }

  lemma NoUnits(rest: seq<byte>)
    ensures UnitsToBytes(Utf16Units("")) + rest == rest
  {
  }

  /** Read as UTF-16BE, the bytes are the password and a NUL, for every password. */
  lemma PasswordDecodes(pass: string)
    ensures Decoded(PasswordBytes(pass)) == Some(pass + "\0")
  {
    hide UnitsToBytes, Utf16Units, ToBytes;
    NulDecodes();
    DecodedText(pass, ToBytes(0, 2), "\0");
  }

  lemma NulDecodes()
    ensures Decoded(ToBytes(0, 2)) == Some("\0")
  {
    hide Decoded, ToBytes;
    assert ToBytes(0, 2) + [] == ToBytes(0, 2);
    DecodedUnit(0, []);
    DecodedNothing();
    PrependedChar('\0', "");
    assert ['\0'] + "" == "\0";
  }

  lemma DecodedNothing()
    ensures Decoded([]) == Some("")
  {
  }

  /** Passwords with the same bytes are the same. */
  lemma PasswordBytesAreUnambiguous(p: string, q: string)
    ensures PasswordBytes(p) == PasswordBytes(q) <==> p == q
  {
    hide PasswordBytes, Decoded;
    PasswordDecodes(p);
    PasswordDecodes(q);
    assert (p + "\0")[..|p|] == p && (q + "\0")[..|q|] == q;
  }

  ghost predicate Widened(pass: string, b: seq<byte>) {
    && |b| == 2 * |pass|
    && forall i | 0 <= i < |pass| :: Size(b[2 * i]) == 0 && Size(b[2 * i + 1]) == pass[i] as int
  }

  /** Every ASCII character is a zero byte and its code; two zero bytes end the password. */
  lemma AsciiPassword(pass: string)
    requires forall i | 0 <= i < |pass| :: pass[i] as int < 0x80
    ensures |PasswordBytes(pass)| == 2 * |pass| + 2
    ensures Widened(pass, PasswordBytes(pass)[..2 * |pass|])
    ensures PasswordBytes(pass)[2 * |pass|..] == [0, 0]
  {
    hide UnitsToBytes, Utf16Units, ToBytes;
    AsciiUnits(pass);
    TwoBytes(0);
    var b := UnitsToBytes(Utf16Units(pass));
    assert PasswordBytes(pass)[..|b|] == b;
  }

  lemma {:induction false} AsciiUnits(pass: string)
    requires forall i | 0 <= i < |pass| :: pass[i] as int < 0x80
    ensures Widened(pass, UnitsToBytes(Utf16Units(pass)))
  {
    hide Utf16Units, UnitsToBytes, Widened;
    if pass == "" {
      NoText();
    } else {
      var c, text := pass[0], pass[1..];
      assert pass == [c] + text;
      AsciiUnits(text);
      UnitsOfChar(c, text);
      BytesOfUnit(c as nat, Utf16Units(text));
      OneMoreWidened(c, text, UnitsToBytes(Utf16Units(text)));
    }
  }

  lemma NoText()
    ensures Widened("", UnitsToBytes(Utf16Units("")))
  {
  }

  lemma OneMoreWidened(c: char, text: string, b: seq<byte>)
    requires Widened(text, b) && c as int < 0x80
    ensures Widened([c] + text, ToBytes(c as nat, 2) + b)
  {
    hide ToBytes, U8, Size;
    TwoBytes(c as nat);
    SizeOfU8(0);
    SizeOfU8(c as nat);
    var w, s := ToBytes(c as nat, 2) + b, [c] + text;
    assert w[0] == U8(0) && w[1] == U8(c as nat);
    forall i | 0 <= i < |s| ensures Size(w[2 * i]) == 0 && Size(w[2 * i + 1]) == s[i] as int {
      if i > 0 {
        assert w[2 * i] == b[2 * (i - 1)] && w[2 * i + 1] == b[2 * (i - 1) + 1];
      }
    }
  }

  /** The least multiple of the block length that holds n bytes. */
  lemma RoundUpMeaning(n: nat, v: nat, k: nat)
    requires v > 0
    ensures n <= RoundUp(n, v) < n + v
    ensures RoundUp(n, v) % v == 0
    ensures n <= k * v ==> RoundUp(n, v) <= k * v
  {
    var q := (n + v - 1) / v;
    QuotientBounds(n + v - 1, v);
    MultipleMod(q, v);
    if n <= k * v && k < q {
      LessTimes(k, q, v);
    }
    if k >= q {
      MulOrder(q, k, v);
    }
  }

  lemma QuotientBounds(m: nat, v: nat)
    requires v > 0
    ensures v * (m / v) <= m < v * (m / v) + v
  {
  }

  lemma MultipleMod(q: nat, v: nat)
    requires v > 0
    ensures (v * q) % v == 0
  {
    MultipleDiv(q, v, (v * q) / v);
  }

  lemma MultipleDiv(q: nat, v: nat, d: nat)
    requires v > 0 && v * d <= v * q < v * d + v
    ensures d == q
  {
    if d < q {
      LessTimes(d, q, v);
    }
  }

  lemma LessTimes(k: nat, q: nat, v: nat)
    requires k < q
    ensures k * v + v <= q * v
  {
    MulOrder(k + 1, q, v);
  }
}
