/** The RFC 4514 parser: greedy scanners for its four patterns, and the parser object over an index. */
module Rfc4514Parser {
  import opened Common
  import opened DistinguishedNames

  // ---------------------------------------------------------------- character classes

  /** The zeros of the decimal digit blocks beyond ASCII (Unicode 14.0); the other nine digits follow each. */
  predicate IsOtherZero(z: nat) {
    || z == 0x660 || z == 0x6F0 || z == 0x7C0 || z == 0x966 || z == 0x9E6 || z == 0xA66
    || z == 0xAE6 || z == 0xB66 || z == 0xBE6 || z == 0xC66 || z == 0xCE6 || z == 0xD66
    || z == 0xDE6 || z == 0xE50 || z == 0xED0 || z == 0xF20 || z == 0x1040 || z == 0x1090
    || z == 0x17E0 || z == 0x1810 || z == 0x1946 || z == 0x19D0 || z == 0x1A80 || z == 0x1A90
    || z == 0x1B50 || z == 0x1BB0 || z == 0x1C40 || z == 0x1C50 || z == 0xA620 || z == 0xA8D0
    || z == 0xA900 || z == 0xA9D0 || z == 0xA9F0 || z == 0xAA50 || z == 0xABF0 || z == 0xFF10
    || z == 0x104A0 || z == 0x10D30 || z == 0x11066 || z == 0x110F0 || z == 0x11136 || z == 0x111D0
    || z == 0x112F0 || z == 0x11450 || z == 0x114D0 || z == 0x11650 || z == 0x116C0 || z == 0x11730
    || z == 0x118E0 || z == 0x11950 || z == 0x11C50 || z == 0x11D50 || z == 0x11DA0 || z == 0x16A60
    || z == 0x16AC0 || z == 0x16B50 || z == 0x1D7CE || z == 0x1D7D8 || z == 0x1D7E2 || z == 0x1D7EC
    || z == 0x1D7F6 || z == 0x1E140 || z == 0x1E2F0 || z == 0x1E950 || z == 0x1FBF0
  }

  /** The digit `code` is, if that is `d` or more. */
  function OtherDigitFrom(code: nat, d: nat): (r: Option<nat>)
    requires d <= 10
    ensures r.Some? ==> r.value < 10
    decreases 10 - d
  {
    if d == 10 then None
    else if code >= d && IsOtherZero(code - d) then Some(d)
    else OtherDigitFrom(code, d + 1)
  }

  function OtherDigit(c: char): (r: Option<nat>)
    ensures r.Some? ==> r.value < 10 && c as int >= 0x80
  {
    if c as int < 0x80 then None else OtherDigitFrom(c as nat, 0)
  }

  /** What `\d` matches in a text pattern, and its value. */
  function DigitValue(c: char): (r: Option<nat>)
    ensures r.Some? ==> r.value < 10
  {
    if '0' <= c <= '9' then Some((c - '0') as nat) else OtherDigit(c)
  }

  predicate IsDigit(c: char) {
    DigitValue(c).Some?
  }

  predicate IsLetter(c: char) {
    'a' <= c <= 'z' || 'A' <= c <= 'Z'
  }

  predicate IsAlnum(c: char) {
    IsDigit(c) || IsLetter(c)
  }

  predicate IsPairChar(c: char) {
    c in "\\ #=\"+,;<>"
  }

  /** SUTF1 or UTFMB of RFC 4514 section 3: what may stand unescaped inside a value. */
  predicate IsStringChar(c: char) {
    c != '\0' && c !in "\"+,;<>\\"
  }

  // ---------------------------------------------------------------- scanners: length of the match at the front

  /** The length of an escape pair at the front of `s`, 0 if there is none. */
  function PairLength(s: string): (n: nat)
    ensures n <= |s|
  {
    if |s| >= 2 && s[0] == '\\' && IsPairChar(s[1]) then 2
    else if |s| >= 3 && s[0] == '\\' && IsAlnum(s[1]) && IsAlnum(s[2]) then 3
    else 0
  }

  function TokenLength(s: string): (n: nat)
    ensures n <= |s|
  {
    if PairLength(s) > 0 then PairLength(s)
    else if s != "" && IsStringChar(s[0]) then 1
    else 0
  }

  /** A token that may begin a value: not a bare space or `#`. */
  predicate IsLeadToken(s: string) {
    PairLength(s) > 0 || (s != "" && IsStringChar(s[0]) && s[0] != ' ' && s[0] != '#')
  }

  /** A token that may end a value: not a bare space. */
  predicate IsTrailToken(s: string) {
    PairLength(s) > 0 || (s != "" && IsStringChar(s[0]) && s[0] != ' ')
  }

  /** The longest run of tokens that ends in a token that may end a value; greedy, with backtracking. */
  function RunLength(s: string): (n: nat)
    ensures n <= |s|
  {
    var t := TokenLength(s);
    if t == 0 then 0
    else if RunLength(s[t..]) > 0 then t + RunLength(s[t..])
    else if IsTrailToken(s) then t
    else 0
  }

  function StringLength(s: string): (n: nat)
    ensures n <= |s|
  {
    if IsLeadToken(s) then TokenLength(s) + RunLength(s[TokenLength(s)..]) else 0
  }

  function DigitsLength(s: string): (n: nat)
    ensures n <= |s|
  {
    if s != "" && IsDigit(s[0]) then 1 + DigitsLength(s[1..]) else 0
  }

  /** One arc without leading zeros, 0 if there is none. */
  function ArcLength(s: string): (n: nat)
    ensures n <= |s|
  {
    if s == "" then 0
    else if s[0] == '0' then 1
    else if '1' <= s[0] <= '9' then 1 + DigitsLength(s[1..])
    else 0
  }

  function DottedArcsLength(s: string): (n: nat)
    ensures n <= |s|
  {
    if s != "" && s[0] == '.' && ArcLength(s[1..]) > 0 then
      1 + ArcLength(s[1..]) + DottedArcsLength(s[1 + ArcLength(s[1..])..])
    else 0
  }

  function AlnumDashLength(s: string): (n: nat)
    ensures n <= |s|
  {
    if s != "" && (IsAlnum(s[0]) || s[0] == '-') then 1 + AlnumDashLength(s[1..]) else 0
  }

  function HexPairsLength(s: string): (n: nat)
    ensures n <= |s|
  {
    if |s| >= 2 && IsAlnum(s[0]) && IsAlnum(s[1]) then 2 + HexPairsLength(s[2..]) else 0
  }

  datatype Pattern = OidRe | DescrRe | StringRe | HexStringRe

  /** The length of the match of a pattern at the front of `s`. */
  function MatchLength(pattern: Pattern, s: string): (r: Option<nat>)
    ensures r.Some? ==> r.value <= |s|
    ensures r.Some? && !pattern.StringRe? ==> r.value > 0
  {
    match pattern
    case OidRe =>
      var first := ArcLength(s);
      if first > 0 && DottedArcsLength(s[first..]) > 0 then Some(first + DottedArcsLength(s[first..])) else None
    case DescrRe =>
      if s != "" && IsLetter(s[0]) then Some(1 + AlnumDashLength(s[1..])) else None
    case StringRe =>
      Some(StringLength(s))
    case HexStringRe =>
      if s != "" && s[0] == '#' && HexPairsLength(s[1..]) > 0 then Some(1 + HexPairsLength(s[1..])) else None
  }

  // ---------------------------------------------------------------- unescaping

  function HexValue(c: char): Option<nat> {
    if IsDigit(c) then DigitValue(c)
    else if 'a' <= c <= 'f' then Some((c - 'a') as nat + 10)
    else if 'A' <= c <= 'F' then Some((c - 'A') as nat + 10)
    else None
  }

  function HexByte(high: char, low: char): (r: Option<nat>)
    ensures r.Some? ==> r.value < 256
  {
    if HexValue(high).Some? && HexValue(low).Some? then Some(16 * HexValue(high).value + HexValue(low).value)
    else None
  }

  datatype Failure = ValueError

  /** Every escape pair from left to right; a pair of characters that are not hexadecimal is an error. */
  function Unescape(s: string): Result<string, Failure> {
    if s == "" then Ok("")
    else if PairLength(s) == 2 then
      var rest :- Unescape(s[2..]);
      Ok([s[1]] + rest)
    else if PairLength(s) == 3 then
      if HexByte(s[1], s[2]).None? then Err(ValueError)
      else
        var rest :- Unescape(s[3..]);
        Ok([HexByte(s[1], s[2]).value as char] + rest)
    else
      var rest :- Unescape(s[1..]);
      Ok([s[0]] + rest)
  }

  /** `binascii.unhexlify`, which takes ASCII digits only. */
  function Unhexlify(s: string): Result<seq<byte>, Failure> {
    if s == "" then Ok([])
    else if |s| == 1 || s[0] as int >= 0x80 || s[1] as int >= 0x80 || HexByte(s[0], s[1]).None? then Err(ValueError)
    else
      var rest :- Unhexlify(s[2..]);
      Ok([HexByte(s[0], s[1]).value as byte] + rest)
  }

  // ---------------------------------------------------------------- the grammar, on the text still to be read

  /** What the parser takes from elsewhere: the OID constructor, the UTF-8 codec and the caller's names. */
  datatype Env = Env(acceptsOid: string -> bool, decodeUtf8: seq<byte> -> Option<string>, overrides: map<string, Oid>) {
    function LookUp(name: string): Option<Oid> {
      if name in overrides then Some(overrides[name]) else FromShortName(name)
    }
  }

  function Read(pattern: Pattern, s: string): (r: Result<(string, string), Failure>)
    ensures r.Ok? ==> r.value.0 + r.value.1 == s
  {
    match MatchLength(pattern, s)
    case Some(n) => Ok((s[..n], s[n..]))
    case None => Err(ValueError)
  }

  function ReadType(env: Env, s: string): (r: Result<(Oid, string), Failure>)
    ensures r.Ok? ==> |r.value.1| < |s|
  {
    match MatchLength(OidRe, s)
    case Some(n) => if env.acceptsOid(s[..n]) then Ok((s[..n], s[n..])) else Err(ValueError)
    case None =>
      match MatchLength(DescrRe, s)
      case None => Err(ValueError)
      case Some(n) =>
        match env.LookUp(s[..n])
        case Some(oid) => Ok((oid, s[n..]))
        case None => Err(ValueError)
  }

  function ReadValue(env: Env, s: string): (r: Result<(string, string), Failure>)
    ensures r.Ok? ==> |r.value.1| <= |s|
  {
    if s != "" && s[0] == '#' then
      var (hex, rest) :- Read(HexStringRe, s);
      var octets :- Unhexlify(hex[1..]);
      match env.decodeUtf8(octets)
      case Some(text) => Ok((text, rest))
      case None => Err(ValueError)
    else
      var (raw, rest) :- Read(StringRe, s);
      var text :- Unescape(raw);
      Ok((text, rest))
  }

  function NewAttribute(oid: Oid, text: string): Result<NameAttribute, Failure> {
    if LengthOk(oid, text) then Ok(NameAttribute(oid, Text(text))) else Err(ValueError)
  }

  function ParseNa(env: Env, s: string): (r: Result<(NameAttribute, string), Failure>)
    ensures r.Ok? ==> |r.value.1| < |s|
  {
    var (oid, afterType) :- ReadType(env, s);
    if afterType == "" || afterType[0] != '=' then Err(ValueError)
    else
      var (text, rest) :- ReadValue(env, afterType[1..]);
      var na :- NewAttribute(oid, text);
      Ok((na, rest))
  }

  function ParseNas(env: Env, s: string): (r: Result<(seq<NameAttribute>, string), Failure>)
    ensures r.Ok? ==> |r.value.1| < |s|
    decreases |s|
  {
    var (na, rest) :- ParseNa(env, s);
    if rest != "" && rest[0] == '+' then
      var (more, after) :- ParseNas(env, rest[1..]);
      Ok(([na] + more, after))
    else Ok(([na], rest))
  }

  function NewRdn(nas: seq<NameAttribute>): Result<Rdn, Failure> {
    if ValidRdn(nas) then Ok(nas) else Err(ValueError)
  }

  function ParseRdn(env: Env, s: string): (r: Result<(Rdn, string), Failure>)
    ensures r.Ok? ==> |r.value.1| < |s|
  {
    var (nas, rest) :- ParseNas(env, s);
    var rdn :- NewRdn(nas);
    Ok((rdn, rest))
  }

  function ParseRdns(env: Env, s: string): Result<seq<Rdn>, Failure>
    decreases |s|
  {
    var (rdn, rest) :- ParseRdn(env, s);
    if rest == "" then Ok([rdn])
    else if rest[0] != ',' then Err(ValueError)
    else
      var more :- ParseRdns(env, rest[1..]);
      Ok([rdn] + more)
  }

  /** `Name.from_rfc4514_string`. */
  function ParseName(env: Env, data: string): Result<Name, Failure> {
    if data == "" then Ok([])
    else
      var rdns :- ParseRdns(env, data);
      Ok(Reversed(rdns))
  }

  // ---------------------------------------------------------------- the parser object

  class NameParser {
    const data: string
    const env: Env
    var idx: nat

    predicate Valid()
      reads this
    {
      idx <= |data|
    }

    /** The text not yet read. */
    function Rest(): string
      reads this
      requires Valid()
    {
      data[idx..]
    }

    constructor (data: string, env: Env)
      ensures Valid() && this.data == data && this.env == env && Rest() == data
    {
      this.data, this.env, idx := data, env, 0;
    }

    predicate HasData()
      reads this
    {
      idx < |data|
    }

    function Peek(): Option<char>
      reads this
    {
      if HasData() then Some(data[idx]) else None
    }

    method ReadChar(ch: char) returns (r: Result<(), Failure>)
      requires Valid()
      modifies this
      ensures Valid()
      ensures r.Ok? <==> old(Rest()) != "" && old(Rest())[0] == ch
      ensures r.Ok? ==> Rest() == old(Rest())[1..]
    {
      if Peek() != Some(ch) {
        return Err(ValueError);
      }
      idx := idx + 1;
      return Ok(());
    }

    method ReadRe(pattern: Pattern) returns (r: Result<string, Failure>)
      requires Valid()
      modifies this
      ensures Valid()
      ensures r.Err? <==> MatchLength(pattern, old(Rest())).None?
      ensures r.Err? ==> idx == old(idx)
      ensures r.Ok? ==> Read(pattern, old(Rest())) == Ok((r.value, Rest()))
    {
      var found := MatchLength(pattern, data[idx..]);
      if found.None? {
        return Err(ValueError);
      }
      var val := data[idx..idx + found.value];
      assert data[idx..][..found.value] == val;
      assert data[idx..][found.value..] == data[idx + found.value..];
      idx := idx + |val|;
      return Ok(val);
    }

    /** The attribute type: an OID, or a name with one. */
    method ParseType() returns (r: Result<Oid, Failure>)
      requires Valid()
      modifies this
      ensures Valid()
      ensures r.Ok? ==> ReadType(env, old(Rest())) == Ok((r.value, Rest()))
      ensures r.Err? ==> ReadType(env, old(Rest())).Err?
    {
      hide MatchLength, Env.LookUp;
      var oidValue := ReadRe(OidRe);
      if oidValue.Err? {
        var name :- ReadRe(DescrRe);
        var found := env.LookUp(name);
        if found.None? {
          return Err(ValueError);
        }
        return Ok(found.value);
      } else {
        if !env.acceptsOid(oidValue.value) {
          return Err(ValueError);
        }
        return Ok(oidValue.value);
      }
    }

    /** What stands after the equals sign. */
    method ParseValue() returns (r: Result<string, Failure>)
      requires Valid()
      modifies this
      ensures Valid()
      ensures r.Ok? ==> ReadValue(env, old(Rest())) == Ok((r.value, Rest()))
      ensures r.Err? ==> ReadValue(env, old(Rest())).Err?
    {
      hide MatchLength, Unescape, Unhexlify;
      if Peek() == Some('#') {
        var hex :- ReadRe(HexStringRe);
        var octets :- Unhexlify(hex[1..]);
        var decoded := env.decodeUtf8(octets);
        if decoded.None? {
          return Err(ValueError);
        }
        return Ok(decoded.value);
      } else {
        var raw :- ReadRe(StringRe);
        r := Unescape(raw);
      }
    }

    method ParseAttribute() returns (r: Result<NameAttribute, Failure>)
      requires Valid()
      modifies this
      ensures Valid()
      ensures r.Ok? ==> ParseNa(env, old(Rest())) == Ok((r.value, Rest()))
      ensures r.Err? ==> ParseNa(env, old(Rest())).Err?
    {
      hide ReadType, ReadValue, LengthOk;
      var oid :- ParseType();
      var _ :- ReadChar('=');
      var value :- ParseValue();
      r := NewAttribute(oid, value);
    }

    method ParseOneRdn() returns (r: Result<Rdn, Failure>)
      requires Valid()
      modifies this
      ensures Valid()
      ensures r.Ok? ==> ParseRdn(env, old(Rest())) == Ok((r.value, Rest()))
      ensures r.Err? ==> ParseRdn(env, old(Rest())).Err?
    {
      hide ParseNa;
      ghost var start := Rest();
      var first :- ParseAttribute();
      var nas := [first];
      while Peek() == Some('+')
        invariant Valid() && nas != []
        invariant AfterNas(env, nas, Rest()) == ParseNas(env, start)
        decreases |data| - idx
      {
        var plus := ReadChar('+');
        assert plus.Ok?;
        ghost var before := Rest();
        var na :- ParseAttribute();
        AfterNasStep(env, nas, na, before, Rest());
        nas := nas + [na];
      }
      r := NewRdn(nas);
    }

    method Parse() returns (r: Result<Name, Failure>)
      requires Valid() && idx == 0
      modifies this
      ensures r.Ok? ==> ParseName(env, data) == Ok(r.value)
      ensures r.Err? ==> ParseName(env, data).Err?
    {
      hide ParseRdn;
      assert Rest() == data;
      if !HasData() {
        return Ok([]);
      }
      var first :- ParseOneRdn();
      var rdns := [first];
      while HasData()
        invariant Valid()
        invariant AfterRdns(env, rdns, Rest()) == ParseRdns(env, data)
        decreases |data| - idx
      {
        var _ :- ReadChar(',');
        ghost var before := Rest();
        var rdn :- ParseOneRdn();
        AfterRdnsStep(env, rdns, rdn, before, Rest());
        rdns := rdns + [rdn];
      }
      return Ok(Reversed(rdns));
    }
  }

  /** What parsing the rest of an RDN comes to once `nas` has been read. */
  ghost function AfterNas(env: Env, nas: seq<NameAttribute>, rest: string)
    : Result<(seq<NameAttribute>, string), Failure>
  {
    if rest != "" && rest[0] == '+' then
      match ParseNas(env, rest[1..])
      case Ok((more, after)) => Ok((nas + more, after))
      case Err(e) => Err(e)
    else Ok((nas, rest))
  }

  lemma AfterNasStep(env: Env, nas: seq<NameAttribute>, na: NameAttribute, before: string, after: string)
    requires ParseNa(env, before) == Ok((na, after))
    ensures AfterNas(env, nas, "+" + before) == AfterNas(env, nas + [na], after)
  {
    hide ParseNa;
    assert ("+" + before)[1..] == before;
    if after != "" && after[0] == '+' && ParseNas(env, after[1..]).Ok? {
      var more := ParseNas(env, after[1..]).value.0;
      assert nas + ([na] + more) == (nas + [na]) + more;
    }
  }

  ghost function AfterRdns(env: Env, rdns: seq<Rdn>, rest: string): Result<seq<Rdn>, Failure> {
    if rest == "" then Ok(rdns)
    else if rest[0] != ',' then Err(ValueError)
    else
      match ParseRdns(env, rest[1..])
      case Ok(more) => Ok(rdns + more)
      case Err(e) => Err(e)
  }

  lemma AfterRdnsStep(env: Env, rdns: seq<Rdn>, rdn: Rdn, before: string, after: string)
    requires ParseRdn(env, before) == Ok((rdn, after))
    ensures AfterRdns(env, rdns, "," + before) == AfterRdns(env, rdns + [rdn], after)
  {
    hide ParseRdn;
    assert ("," + before)[1..] == before;
    if after != "" && after[0] == ',' && ParseRdns(env, after[1..]).Ok? {
      var more := ParseRdns(env, after[1..]).value;
      assert rdns + ([rdn] + more) == (rdns + [rdn]) + more;
    }
  }
}
