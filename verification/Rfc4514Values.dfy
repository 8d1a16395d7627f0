/** What the characters of a printed or parsed name stand for, written out in codes and numbers. */
module Rfc4514Values {
  import opened Common
  import opened DistinguishedNames
  import opened Rfc4514Parser
  import opened Rfc4514Grammar
  import opened Rfc4514RoundTrip

  // ---------------------------------------------------------------- hexadecimal

  /** The value of an ASCII hexadecimal digit, by its code. */
  function HexCode(c: char): (r: Option<nat>)
    ensures r.Some? ==> r.value < 16
  {
    var n := c as int;
    if 0x30 <= n <= 0x39 then Some(n - 0x30)
    else if 0x41 <= n <= 0x46 then Some(n - 0x37)
    else if 0x61 <= n <= 0x66 then Some(n - 0x57)
    else None
  }

  lemma HexValueMeaning(c: char)
    requires c as int < 0x80
    ensures HexValue(c) == HexCode(c)
    ensures IsAlnum(c) <==> LetterOrDigit(c)
    ensures HexCode(c).Some? ==> LetterOrDigit(c)
  {
  }

  lemma DigitOfNibble(n: nat)
    requires n < 16
    ensures HexDigit(n) as int < 0x80 && HexCode(HexDigit(n)) == Some(n)
  {
  }

  lemma Nibbles(b: byte)
    ensures (b >> 4) as nat < 16 && (b & 0xF) as nat < 16
    ensures Size(b) == 16 * (b >> 4) as nat + (b & 0xF) as nat
  {
  }

  /** Two ASCII hexadecimal digits, the higher one first. */
  lemma HexByteMeaning(high: char, low: char)
    requires HexCode(high).Some? && HexCode(low).Some?
    ensures HexByte(high, low) == Some(16 * HexCode(high).value + HexCode(low).value)
  {
    HexValueMeaning(high);
    HexValueMeaning(low);
  }

  lemma HexlifyCons(b: byte, octets: seq<byte>)
    ensures Hexlify([b] + octets) == [HexDigit((b >> 4) as nat), HexDigit((b & 0xF) as nat)] + Hexlify(octets)
  {
    assert ([b] + octets)[1..] == octets;
  }

  lemma UnhexlifyCons(high: char, low: char, rest: string)
    requires HexCode(high).Some? && HexCode(low).Some?
    ensures Unhexlify([high, low] + rest) ==
            match Unhexlify(rest)
            case Ok(octets) => Ok([(16 * HexCode(high).value + HexCode(low).value) as byte] + octets)
            case Err(e) => Err(e)
  {
    hide HexByte;
    HexByteMeaning(high, low);
    var s := [high, low] + rest;
    assert s[0] == high && s[1] == low && s[2..] == rest;
  }

  /** The two digits printed for a byte are read as the byte. */
  lemma HexOfByte(b: byte)
    ensures var high, low := HexDigit((b >> 4) as nat), HexDigit((b & 0xF) as nat);
            && HexCode(high).Some? && HexCode(low).Some?
            && 16 * HexCode(high).value + HexCode(low).value == Size(b)
            && (16 * HexCode(high).value + HexCode(low).value) as byte == b
  {
    hide HexDigit, HexCode, Size;
    Nibbles(b);
    DigitOfNibble((b >> 4) as nat);
    DigitOfNibble((b & 0xF) as nat);
    AsByte(Size(b), b);
  }

  /** Reading back the printed octets gives the octets. */
  lemma {:induction false} UnhexlifyHexlify(octets: seq<byte>)
    ensures Unhexlify(Hexlify(octets)) == Ok(octets)
  {
    hide *;
    if octets == [] {
      NoOctets();
    } else {
      var b, more := octets[0], octets[1..];
      assert octets == [b] + more;
      HexOfByte(b);
      Nibbles(b);
      HexlifyCons(b, more);
      UnhexlifyCons(HexDigit((b >> 4) as nat), HexDigit((b & 0xF) as nat), Hexlify(more));
      UnhexlifyHexlify(more);
    }
  }

  lemma NoOctets()
    ensures Hexlify([]) == "" && Unhexlify("") == Ok([])
  {
  }

  lemma AsByte(n: nat, b: byte)
    requires n == Size(b)
    ensures n < 256 && n as byte == b
  {
    ByteToIntToByte(b);
  }

  /** Only two hexadecimal ASCII digits for every octet are read. */
  lemma {:induction false} UnhexlifyMeaning(s: string)
    ensures Unhexlify(s).Ok? <==>
            |s| % 2 == 0 && forall i | 0 <= i < |s| :: HexCode(s[i]).Some?
    ensures Unhexlify(s).Ok? ==>
              var octets := Unhexlify(s).value;
              && |octets| * 2 == |s|
              && forall i | 0 <= i < |octets| ::
                   Size(octets[i]) == 16 * HexCode(s[2 * i]).value + HexCode(s[2 * i + 1]).value
    decreases |s|
  {
    hide HexCode, HexByte, HexValue, Size;
    if |s| >= 2 {
      HexPairMeaning(s[0], s[1]);
      UnhexlifyMeaning(s[2..]);
      assert forall i | 2 <= i < |s| :: s[2..][i - 2] == s[i];
    }
  }

  lemma HexPairMeaning(high: char, low: char)
    ensures high as int < 0x80 && low as int < 0x80 && HexByte(high, low).Some? <==>
            HexCode(high).Some? && HexCode(low).Some?
    ensures HexCode(high).Some? && HexCode(low).Some? ==>
              && HexByte(high, low) == Some(16 * HexCode(high).value + HexCode(low).value)
              && Size(HexByte(high, low).value as byte) == 16 * HexCode(high).value + HexCode(low).value
  {
    if high as int < 0x80 && low as int < 0x80 {
      HexValueMeaning(high);
      HexValueMeaning(low);
    }
    if HexCode(high).Some? && HexCode(low).Some? {
      HexByteMeaning(high, low);
      ByteRoundTrip(16 * HexCode(high).value + HexCode(low).value);
    }
  }

  // ---------------------------------------------------------------- digits of other scripts

  /** The blocks of ten do not overlap. */
  lemma ZerosApart(y: nat, z: nat)
    requires IsOtherZero(y) && IsOtherZero(z) && y < z
    ensures y + 10 <= z
  {
  }

  lemma {:induction false} OtherDigitFromMeaning(code: nat, from: nat, d: nat)
    requires from <= 10 && d < 10
    ensures OtherDigitFrom(code, from) == Some(d) <==> from <= d <= code && IsOtherZero(code - d)
    decreases 10 - from
  {
    hide IsOtherZero;
    if from < 10 {
      OtherDigitFromMeaning(code, from + 1, d);
      if from < d <= code && IsOtherZero(code - from) && IsOtherZero(code - d) {
        ZerosApart(code - d, code - from);
      }
    }
  }

  /** Digit `d` of a block is the `d`-th character after its zero. */
  lemma OtherDigitMeaning(c: char, d: nat)
    requires d < 10
    ensures OtherDigit(c) == Some(d) <==> c as int >= 0x80 && c as int >= d && IsOtherZero(c as int - d)
  {
    OtherDigitFromMeaning(c as int, 0, d);
  }

  // ---------------------------------------------------------------- unescaping, token by token

  /** An escaped special character stands for itself. */
  lemma UnescapeSpecial(c: char, rest: string)
    requires SpecialCode(c as int)
    ensures Unescape(['\\', c] + rest) ==
            match Unescape(rest)
            case Ok(text) => Ok([c] + text)
            case Err(e) => Err(e)
  {
    CharCodes(c);
    assert (['\\', c] + rest)[2..] == rest;
  }

  /** An escaped pair of hexadecimal digits, in either case, stands for the character with that code. */
  lemma UnescapeHex(high: char, low: char, rest: string)
    requires HexCode(high).Some? && HexCode(low).Some?
    ensures Unescape(['\\', high, low] + rest) ==
            match Unescape(rest)
            case Ok(text) => Ok([(16 * HexCode(high).value + HexCode(low).value) as char] + text)
            case Err(e) => Err(e)
  {
    HexIsPlain(high, low, rest);
    HexByteMeaning(high, low);
    assert (['\\', high, low] + rest)[3..] == rest;
  }

  lemma HexIsPlain(high: char, low: char, rest: string)
    requires HexCode(high).Some? && HexCode(low).Some?
    ensures PairLength(['\\', high, low] + rest) == 3
  {
    HexValueMeaning(high);
    HexValueMeaning(low);
    DigitCodes(high);
    DigitCodes(low);
    CharCodes(high);
    assert !IsPairChar(high);
  }

  /** A pair of letters and digits that is not hexadecimal is an error. */
  lemma UnescapeBadHex(high: char, low: char, rest: string)
    requires high as int < 0x80 && low as int < 0x80 && LetterOrDigit(high) && LetterOrDigit(low)
    requires HexCode(high).None? || HexCode(low).None?
    ensures Unescape(['\\', high, low] + rest).Err?
  {
    HexValueMeaning(high);
    HexValueMeaning(low);
    CharCodes(high);
    var s := ['\\', high, low] + rest;
    assert s[0] == '\\' && s[1] == high && s[2] == low;
    PairIsPlain();
  }

  /** Any character but a backslash stands for itself. */
  lemma UnescapePlain(c: char, rest: string)
    requires c as int != 0x5C
    ensures Unescape([c] + rest) ==
            match Unescape(rest)
            case Ok(text) => Ok([c] + text)
            case Err(e) => Err(e)
  {
    assert ([c] + rest)[1..] == rest;
  }

  /** The escape of one byte in the printed form of octets, in lower or in upper case. */
  lemma UnescapeHexlified(b: byte)
    ensures Unescape("\\" + Hexlify([b])) == Ok([Size(b) as char])
    ensures Unescape("\\" + UpperHex(b)) == Ok([Size(b) as char])
  {
    hide *;
    Nibbles(b);
    HexOfByte(b);
    UpperHexOfByte(b);
    HexlifyOne(b);
    UnescapeOneHex(HexDigit((b >> 4) as nat), HexDigit((b & 0xF) as nat));
    UnescapeOneHex(UpperHex(b)[0], UpperHex(b)[1]);
    assert UpperHex(b) == [UpperHex(b)[0], UpperHex(b)[1]];
    assert "\\" + UpperHex(b) == ['\\', UpperHex(b)[0], UpperHex(b)[1]];
    assert "\\" + Hexlify([b]) == ['\\', HexDigit((b >> 4) as nat), HexDigit((b & 0xF) as nat)];
  }

  lemma HexlifyOne(b: byte)
    ensures Hexlify([b]) == [HexDigit((b >> 4) as nat), HexDigit((b & 0xF) as nat)]
  {
    HexlifyCons(b, []);
    assert [b] + [] == [b];
    NoOctets();
  }

  lemma UnescapeOneHex(high: char, low: char)
    requires HexCode(high).Some? && HexCode(low).Some?
    ensures Unescape(['\\', high, low]) == Ok([(16 * HexCode(high).value + HexCode(low).value) as char])
  {
    hide *;
    UnescapeHex(high, low, "");
    UnescapeEmpty();
    assert ['\\', high, low] + "" == ['\\', high, low];
    var c := (16 * HexCode(high).value + HexCode(low).value) as char;
    assert [c] + "" == [c];
  }

  lemma UpperHexOfByte(b: byte)
    ensures |UpperHex(b)| == 2
    ensures HexCode(UpperHex(b)[0]).Some? && HexCode(UpperHex(b)[1]).Some?
    ensures 16 * HexCode(UpperHex(b)[0]).value + HexCode(UpperHex(b)[1]).value == Size(b)
  {
    hide UpperDigit, HexCode, Size;
    Nibbles(b);
    UpperOfNibble((b >> 4) as nat);
    UpperOfNibble((b & 0xF) as nat);
  }

  function UpperDigit(n: nat): char
    requires n < 16
  {
    "0123456789ABCDEF"[n]
  }

  function UpperHex(b: byte): string {
    [UpperDigit((b >> 4) as nat), UpperDigit((b & 0xF) as nat)]
  }

  lemma UpperOfNibble(n: nat)
    requires n < 16
    ensures HexCode(UpperDigit(n)) == Some(n)
  {
  }

  // ---------------------------------------------------------------- names of attributes

  /** The table of RFC 4514 section 3, in both directions. */
  lemma AttributeTable()
    ensures ShortName("2.5.4.3") == Some("CN") && FromShortName("CN") == Some("2.5.4.3")
    ensures ShortName("2.5.4.7") == Some("L") && FromShortName("L") == Some("2.5.4.7")
    ensures ShortName("2.5.4.8") == Some("ST") && FromShortName("ST") == Some("2.5.4.8")
    ensures ShortName("2.5.4.10") == Some("O") && FromShortName("O") == Some("2.5.4.10")
    ensures ShortName("2.5.4.11") == Some("OU") && FromShortName("OU") == Some("2.5.4.11")
    ensures ShortName("2.5.4.6") == Some("C") && FromShortName("C") == Some("2.5.4.6")
    ensures ShortName("2.5.4.9") == Some("STREET") && FromShortName("STREET") == Some("2.5.4.9")
    ensures ShortName("0.9.2342.19200300.100.1.25") == Some("DC")
    ensures FromShortName("DC") == Some("0.9.2342.19200300.100.1.25")
    ensures ShortName("0.9.2342.19200300.100.1.1") == Some("UID")
    ensures FromShortName("UID") == Some("0.9.2342.19200300.100.1.1")
  {
  }

  /** Each direction of the table is the inverse of the other, and it has no other entries. */
  lemma TableIsBijective(oid: Oid, name: string)
    ensures ShortName(oid) == Some(name) <==> FromShortName(name) == Some(oid)
  {
  }

  /** An override comes before the table, and the dotted string is the last resort. */
  lemma NamePrinted(oid: Oid, overrides: map<Oid, string>)
    ensures oid in overrides ==> AttributeName(oid, overrides) == overrides[oid]
    ensures oid !in overrides && ShortName(oid).Some? ==> AttributeName(oid, overrides) == ShortName(oid).value
    ensures oid !in overrides && ShortName(oid).None? ==> AttributeName(oid, overrides) == oid
  {
  }

  lemma NameLookedUp(env: Env, name: string)
    ensures env.LookUp(name) == if name in env.overrides then Some(env.overrides[name]) else FromShortName(name)
  {
  }

  // ---------------------------------------------------------------- what is printed

  predicate NeedsNoEscape(v: string) {
    && v != "" && LeadCode(v[0] as int) && TrailCode(v[|v| - 1] as int)
    && forall i | 0 <= i < |v| :: StringCode(v[i] as int)
  }

  lemma PlainChar(c: char)
    requires StringCode(c as int)
    ensures EscapeChar(c) == [c]
  {
  }

  lemma {:induction false} PlainChars(v: string)
    requires forall i | 0 <= i < |v| :: StringCode(v[i] as int)
    ensures EscapeChars(v) == v
  {
    hide EscapeChar;
    if v != "" {
      PlainChar(v[0]);
      PlainChars(v[1..]);
      assert v == [v[0]] + v[1..];
    }
  }

  /** Text that the grammar takes as it stands is printed as it stands. */
  lemma PlainTextIsPrinted(v: string)
    requires NeedsNoEscape(v)
    ensures EscapeDnValue(Text(v)) == v
  {
    PlainChars(v);
  }

  lemma TwoAttributes(a: NameAttribute, b: NameAttribute)
    ensures RdnString([a, b], map[]) == AttributeString(a, map[]) + "+" + AttributeString(b, map[])
    ensures RdnString([a], map[]) == AttributeString(a, map[])
  {
    hide AttributeString;
    assert [a, b][1..] == [b];
  }

  lemma TwoRdns(r: Rdn, q: Rdn)
    ensures NameString([r, q], map[]) == RdnString(q, map[]) + "," + RdnString(r, map[])
  {
    hide RdnString;
    assert Reversed([r, q]) == [q, r];
    assert [q, r][1..] == [r];
    assert JoinRdns([r], map[]) == RdnString(r, map[]);
  }

  lemma OneAttribute(oid: Oid, short: string, v: string)
    requires ShortName(oid) == Some(short) && NeedsNoEscape(v)
    ensures AttributeString(NameAttribute(oid, Text(v)), map[]) == short + "=" + v
  {
    hide NeedsNoEscape, EscapeDnValue;
    PlainTextIsPrinted(v);
  }

  /** The last RDN comes first, its attributes in their order; short names, equals signs, plus signs and commas. */
  lemma PrintedForm(c: string, o: string, cn: string)
    requires NeedsNoEscape(c) && NeedsNoEscape(o) && NeedsNoEscape(cn)
    ensures NameString([[NameAttribute("2.5.4.6", Text(c))],
                        [NameAttribute("2.5.4.3", Text(cn)), NameAttribute("2.5.4.10", Text(o))]], map[])
            == "CN=" + cn + "+" + ("O=" + o) + "," + ("C=" + c)
  {
    AttributeTable();
    hide *;
    OneAttribute("2.5.4.6", "C", c);
    OneAttribute("2.5.4.3", "CN", cn);
    OneAttribute("2.5.4.10", "O", o);
    var a, b, d := NameAttribute("2.5.4.6", Text(c)), NameAttribute("2.5.4.3", Text(cn)), NameAttribute("2.5.4.10", Text(o));
    TwoAttributes(a, b);
    TwoAttributes(b, d);
    TwoRdns([a], [b, d]);
    assert "C" + "=" == "C=" && "CN" + "=" == "CN=" && "O" + "=" == "O=";
  }

  /** Octets are printed as `#` and their hexadecimal digits, which are read as the text they encode. */
  lemma OctetsArePrinted(env: Env, octets: seq<byte>, rest: string)
    requires octets != [] && Stops(rest)
    ensures EscapeDnValue(Octets(octets)) == "#" + Hexlify(octets)
    ensures ReadValue(env, EscapeDnValue(Octets(octets)) + rest) ==
            match env.decodeUtf8(octets)
            case Some(text) => Ok((text, rest))
            case None => Err(ValueError)
  {
    HexlifyNonEmpty(octets);
    HexIsRead(Hexlify(octets), rest);
    hide *;
    HexPairsOfHexlify(octets, rest);
    OctetsText(octets);
    UnhexlifyHexlify(octets);
    ReadHexValue(env, Hexlify(octets), rest, octets);
  }

  lemma OctetsText(octets: seq<byte>)
    requires octets != []
    ensures EscapeDnValue(Octets(octets)) == "#" + Hexlify(octets)
  {
  }

  lemma HexIsRead(hex: string, rest: string)
    ensures hex != "" && HexPairsLength(hex + rest) == |hex| ==>
              Read(HexStringRe, "#" + hex + rest) == Ok(("#" + hex, rest))
  {
    hide HexPairsLength;
    var s := "#" + hex + rest;
    assert s[0] == '#' && s[1..] == hex + rest;
    assert s[..1 + |hex|] == "#" + hex && s[1 + |hex|..] == rest;
  }

  lemma ReadHexValue(env: Env, hex: string, rest: string, octets: seq<byte>)
    requires Read(HexStringRe, "#" + hex + rest) == Ok(("#" + hex, rest)) && Unhexlify(hex) == Ok(octets)
    ensures ReadValue(env, "#" + hex + rest) ==
            match env.decodeUtf8(octets)
            case Some(text) => Ok((text, rest))
            case None => Err(ValueError)
  {
    hide Read, Unhexlify;
    assert ("#" + hex)[1..] == hex;
    assert ("#" + hex + rest)[0] == '#';
  }

  lemma HexlifyNonEmpty(octets: seq<byte>)
    ensures octets != [] ==> |Hexlify(octets)| > 0
  {
  }

  lemma {:induction false} HexPairsOfHexlify(octets: seq<byte>, rest: string)
    requires Stops(rest)
    ensures HexPairsLength(Hexlify(octets) + rest) == |Hexlify(octets)|
  {
    hide HexDigit, IsAlnum;
    var s := Hexlify(octets) + rest;
    if octets == [] {
      assert s == rest;
      if rest != "" {
        StopIsNoAlnum(rest);
      }
    } else {
      var high, low := (octets[0] >> 4) as nat, (octets[0] & 0xF) as nat;
      DigitIsAlnum(high);
      DigitIsAlnum(low);
      HexPairsOfHexlify(octets[1..], rest);
      assert s[0] == HexDigit(high) && s[1] == HexDigit(low) && s[2..] == Hexlify(octets[1..]) + rest;
    }
  }

  lemma DigitIsAlnum(n: nat)
    requires n < 16
    ensures IsAlnum(HexDigit(n))
  {
    DigitOfNibble(n);
    HexValueMeaning(HexDigit(n));
  }

  lemma StopIsNoAlnum(rest: string)
    requires Stops(rest) && rest != ""
    ensures !IsAlnum(rest[0])
  {
  }

  // ---------------------------------------------------------------- what is accepted

  /** The length of a character in UTF-8: the least number of bytes whose bits suffice. */
  lemma Utf8LengthOfChar(c: char)
    ensures var n := Utf8Length([c]);
            && 1 <= n <= 4
            && (c as int < 0x80 <==> n <= 1) && (c as int < 0x800 <==> n <= 2) && (c as int < 0x10000 <==> n <= 3)
  {
    assert [c][1..] == "";
  }

  lemma {:induction false} Utf8LengthConcat(x: string, y: string)
    ensures Utf8Length(x + y) == Utf8Length(x) + Utf8Length(y)
  {
    if x == "" {
      assert x + y == y;
    } else {
      assert (x + y)[1..] == x[1..] + y;
      Utf8LengthConcat(x[1..], y);
    }
  }

  /** Which attributes can be built: common names of 1 to 64 bytes, country codes of 2, octets for one OID only. */
  lemma AttributesBuilt(oid: Oid, text: string, octets: seq<byte>)
    ensures ValidAttribute(NameAttribute("2.5.4.3", Text(text))) <==> 1 <= Utf8Length(text) <= 64
    ensures ValidAttribute(NameAttribute("2.5.4.6", Text(text))) <==> Utf8Length(text) == 2
    ensures ValidAttribute(NameAttribute("1.3.6.1.4.1.311.60.2.1.3", Text(text))) <==> Utf8Length(text) == 2
    ensures oid != "2.5.4.3" && oid != "2.5.4.6" && oid != "1.3.6.1.4.1.311.60.2.1.3" ==>
              ValidAttribute(NameAttribute(oid, Text(text)))
    ensures ValidAttribute(NameAttribute(oid, Octets(octets))) <==> oid == "2.5.4.45"
  {
    hide Utf8Length;
  }

  /** A parsed name has no empty RDN and no attribute twice in one; common names and country codes have their lengths. */
  lemma ParsedNamesAreBuilt(env: Env, data: string, name: Name)
    requires ParseName(env, data) == Ok(name)
    ensures forall rdn | rdn in name :: rdn != [] && forall i, j | 0 <= i < j < |rdn| :: rdn[i] != rdn[j]
    ensures forall rdn, na | rdn in name && na in rdn ::
              && na.value.Text?
              && (na.oid == "2.5.4.3" ==> 1 <= Utf8Length(na.value.text) <= 64)
              && (na.oid == "2.5.4.6" ==> Utf8Length(na.value.text) == 2)
  {
    hide ParseName, Utf8Length, Readable;
    ParsedNameIsBuilt(env, data, name);
    forall rdn, na | rdn in name && na in rdn
      ensures na.value.Text?
      ensures na.oid == "2.5.4.3" ==> 1 <= Utf8Length(na.value.text) <= 64
      ensures na.oid == "2.5.4.6" ==> Utf8Length(na.value.text) == 2
    {
      AttributesBuilt(na.oid, na.value.text, []);
    }
  }

  predicate HasRepeat(nas: seq<NameAttribute>) {
    exists i, j :: 0 <= i < |nas| && 0 <= j < |nas| && i != j && nas[i] == nas[j]
  }

  lemma RepeatRefused(nas: seq<NameAttribute>)
    requires nas != []
    ensures ValidRdn(nas) <==> !HasRepeat(nas)
  {
  }

  lemma SomeAttribute(env: Env, s: string)
    requires ParseNas(env, s).Ok?
    ensures ParseNas(env, s).value.0 != []
  {
  }

  /** Attributes make an RDN exactly if none is repeated. */
  lemma RdnsBuilt(env: Env, s: string)
    requires ParseNas(env, s).Ok?
    ensures ParseRdn(env, s) ==
            if HasRepeat(ParseNas(env, s).value.0) then Err(ValueError) else Ok(ParseNas(env, s).value)
  {
    hide ParseNas, ValidRdn, HasRepeat;
    SomeAttribute(env, s);
    RepeatRefused(ParseNas(env, s).value.0);
  }
}
