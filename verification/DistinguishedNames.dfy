/** X.509 names, and their RFC 4514 text: escaping and printing. */
module DistinguishedNames {
  import opened Common

  /** An OID as its dotted string. */
  type Oid = string

  datatype Value = Text(text: string) | Octets(octets: seq<byte>)

  datatype NameAttribute = NameAttribute(oid: Oid, value: Value)

  type Rdn = seq<NameAttribute>

  type Name = seq<Rdn>

  // ---------------------------------------------------------------- attribute names

  const COMMON_NAME: Oid := "2.5.4.3"
  const LOCALITY_NAME: Oid := "2.5.4.7"
  const STATE_OR_PROVINCE_NAME: Oid := "2.5.4.8"
  const ORGANIZATION_NAME: Oid := "2.5.4.10"
  const ORGANIZATIONAL_UNIT_NAME: Oid := "2.5.4.11"
  const COUNTRY_NAME: Oid := "2.5.4.6"
  const STREET_ADDRESS: Oid := "2.5.4.9"
  const DOMAIN_COMPONENT: Oid := "0.9.2342.19200300.100.1.25"
  const USER_ID: Oid := "0.9.2342.19200300.100.1.1"
  const JURISDICTION_COUNTRY_NAME: Oid := "1.3.6.1.4.1.311.60.2.1.3"
  const X500_UNIQUE_IDENTIFIER: Oid := "2.5.4.45"

  /** The short names of RFC 4514 section 3. */
  function ShortName(oid: Oid): Option<string> {
    if oid == COMMON_NAME then Some("CN")
    else if oid == LOCALITY_NAME then Some("L")
    else if oid == STATE_OR_PROVINCE_NAME then Some("ST")
    else if oid == ORGANIZATION_NAME then Some("O")
    else if oid == ORGANIZATIONAL_UNIT_NAME then Some("OU")
    else if oid == COUNTRY_NAME then Some("C")
    else if oid == STREET_ADDRESS then Some("STREET")
    else if oid == DOMAIN_COMPONENT then Some("DC")
    else if oid == USER_ID then Some("UID")
    else None
  }

  function FromShortName(name: string): Option<Oid> {
    if name == "CN" then Some(COMMON_NAME)
    else if name == "L" then Some(LOCALITY_NAME)
    else if name == "ST" then Some(STATE_OR_PROVINCE_NAME)
    else if name == "O" then Some(ORGANIZATION_NAME)
    else if name == "OU" then Some(ORGANIZATIONAL_UNIT_NAME)
    else if name == "C" then Some(COUNTRY_NAME)
    else if name == "STREET" then Some(STREET_ADDRESS)
    else if name == "DC" then Some(DOMAIN_COMPONENT)
    else if name == "UID" then Some(USER_ID)
    else None
  }

  // ---------------------------------------------------------------- construction

  function Utf8Length(s: string): nat {
    if s == "" then 0
    else
      (if s[0] as int < 0x80 then 1 else if s[0] as int < 0x800 then 2
       else if s[0] as int < 0x1_0000 then 3 else 4) + Utf8Length(s[1..])
  }

  function LengthLimits(oid: Oid): Option<(nat, nat)> {
    if oid == COUNTRY_NAME || oid == JURISDICTION_COUNTRY_NAME then Some((2, 2))
    else if oid == COMMON_NAME then Some((1, 64))
    else None
  }

  predicate LengthOk(oid: Oid, text: string) {
    match LengthLimits(oid)
    case None => true
    case Some((low, high)) => low <= Utf8Length(text) <= high
  }

  /** What the attribute constructor accepts; bytes are for one OID only. */
  predicate ValidAttribute(na: NameAttribute) {
    match na.value
    case Text(text) => LengthOk(na.oid, text)
    case Octets(_) => na.oid == X500_UNIQUE_IDENTIFIER
  }

  predicate ValidRdn(rdn: Rdn) {
    && rdn != []
    && forall i, j | 0 <= i < j < |rdn| :: rdn[i] != rdn[j]
  }

  // ---------------------------------------------------------------- printing

  function AttributeName(oid: Oid, overrides: map<Oid, string>): string {
    if oid in overrides then overrides[oid]
    else
      match ShortName(oid)
      case Some(name) => name
      case None => oid
  }

  function AttributeString(na: NameAttribute, overrides: map<Oid, string>): string {
    AttributeName(na.oid, overrides) + "=" + EscapeDnValue(na.value)
  }

  /** The attributes of an RDN in their order, joined by `+`. */
  function RdnString(rdn: Rdn, overrides: map<Oid, string>): string {
    if rdn == [] then ""
    else if |rdn| == 1 then AttributeString(rdn[0], overrides)
    else AttributeString(rdn[0], overrides) + "+" + RdnString(rdn[1..], overrides)
  }

  /** RDNs in the order given, joined by `,`. */
  function JoinRdns(rdns: Name, overrides: map<Oid, string>): string {
    if rdns == [] then ""
    else if |rdns| == 1 then RdnString(rdns[0], overrides)
    else RdnString(rdns[0], overrides) + "," + JoinRdns(rdns[1..], overrides)
  }

  /** `Name.rfc4514_string`: RFC 4514 section 2.1 reverses the RDNs. */
  function NameString(name: Name, overrides: map<Oid, string>): string {
    JoinRdns(Reversed(name), overrides)
  }

  // ---------------------------------------------------------------- escaping

  function Replace(s: string, c: char, sub: string): string {
    if s == "" then "" else (if s[0] == c then sub else [s[0]]) + Replace(s[1..], c, sub)
  }

  /** The text of one character inside a value. */
  function EscapeChar(c: char): string {
    if c == '\0' then "\\00"
    else if c in "\\\"+,;<>" then ['\\', c]
    else [c]
  }

  function EscapeChars(val: string): (r: string) {
    if val == "" then "" else EscapeChar(val[0]) + EscapeChars(val[1..])
  }

  /** A leading `#` or space and a trailing space get a backslash of their own, one after the other. */
  function EscapeEnds(e: string): string
    requires e != ""
  {
    var e1 := if e[0] == '#' || e[0] == ' ' then "\\" + e else e;
    if e1[|e1| - 1] == ' ' then e1[..|e1| - 1] + "\\ " else e1
  }

  function HexDigit(n: nat): char
    requires n < 16
  {
    if n < 10 then '0' + n as char else 'a' + (n - 10) as char
  }

  function Hexlify(octets: seq<byte>): string {
    if octets == [] then ""
    else
      var high, low := (octets[0] >> 4) as nat, (octets[0] & 0xF) as nat;
      [HexDigit(high), HexDigit(low)] + Hexlify(octets[1..])
  }

  lemma EscapeCharsNonEmpty(val: string)
    requires val != ""
    ensures EscapeChars(val) != ""
  {
  }

  function EscapeDnValue(val: Value): string {
    match val
    case Text(text) =>
      if text == "" then "" else EscapeCharsNonEmpty(text); EscapeEnds(EscapeChars(text))
    case Octets(octets) =>
      if octets == [] then "" else "#" + Hexlify(octets)
  }

  /** `_escape_dn_value`: eight replacements in turn, then the two ends. */
  method EscapeValue(value: Value) returns (r: string)
    ensures r == EscapeDnValue(value)
  {
    hide Replace, EscapeChars, Hexlify;
    if value.Octets? {
      if value.octets == [] {
        return "";
      }
      return "#" + Hexlify(value.octets);
    }
    if value.text == "" {
      return "";
    }
    var val := value.text;
    val := Replace(val, '\\', "\\\\");
    val := Replace(val, '"', "\\\"");
    val := Replace(val, '+', "\\+");
    val := Replace(val, ',', "\\,");
    val := Replace(val, ';', "\\;");
    val := Replace(val, '<', "\\<");
    val := Replace(val, '>', "\\>");
    val := Replace(val, '\0', "\\00");
    ReplacementsAreOnePass(value.text);
    EscapeCharsNonEmpty(value.text);
    if val[0] == '#' || val[0] == ' ' {
      val := "\\" + val;
    }
    if val[|val| - 1] == ' ' {
      val := val[..|val| - 1] + "\\ ";
    }
    return val;
  }

  function Replacements(val: string): string {
    Replace(Replace(Replace(Replace(Replace(Replace(Replace(Replace(val,
      '\\', "\\\\"), '"', "\\\""), '+', "\\+"), ',', "\\,"), ';', "\\;"), '<', "\\<"), '>', "\\>"), '\0', "\\00")
  }

  lemma {:induction false} ReplaceConcat(x: string, y: string, c: char, sub: string)
    ensures Replace(x + y, c, sub) == Replace(x, c, sub) + Replace(y, c, sub)
  {
    if x == "" {
      assert x + y == y;
    } else {
      assert (x + y)[1..] == x[1..] + y;
      ReplaceConcat(x[1..], y, c, sub);
    }
  }

  lemma {:induction false} ReplaceAbsent(x: string, c: char, sub: string)
    requires c !in x
    ensures Replace(x, c, sub) == x
  {
    if x != "" {
      assert x[0] in x;
      ReplaceAbsent(x[1..], c, sub);
    }
  }

  lemma ReplacementsConcat(x: string, y: string)
    ensures Replacements(x + y) == Replacements(x) + Replacements(y)
  {
    ReplaceConcat(x, y, '\\', "\\\\");
    var x1, y1 := Replace(x, '\\', "\\\\"), Replace(y, '\\', "\\\\");
    ReplaceConcat(x1, y1, '"', "\\\"");
    var x2, y2 := Replace(x1, '"', "\\\""), Replace(y1, '"', "\\\"");
    ReplaceConcat(x2, y2, '+', "\\+");
    var x3, y3 := Replace(x2, '+', "\\+"), Replace(y2, '+', "\\+");
    ReplaceConcat(x3, y3, ',', "\\,");
    var x4, y4 := Replace(x3, ',', "\\,"), Replace(y3, ',', "\\,");
    ReplaceConcat(x4, y4, ';', "\\;");
    var x5, y5 := Replace(x4, ';', "\\;"), Replace(y4, ';', "\\;");
    ReplaceConcat(x5, y5, '<', "\\<");
    var x6, y6 := Replace(x5, '<', "\\<"), Replace(y5, '<', "\\<");
    ReplaceConcat(x6, y6, '>', "\\>");
    var x7, y7 := Replace(x6, '>', "\\>"), Replace(y6, '>', "\\>");
    ReplaceConcat(x7, y7, '\0', "\\00");
  }

  lemma ReplaceOne(c: char, d: char, sub: string)
    ensures Replace([c], d, sub) == if c == d then sub else [c]
  {
    assert [c][1..] == "";
    assert sub + "" == sub;
  }

  /** A backslash pair is left alone by the replacements that come after the one that made it. */
  lemma ReplacePair(c: char, d: char, sub: string)
    requires d != '\\' && d != c
    ensures Replace(['\\', c], d, sub) == ['\\', c]
  {
    ReplaceAbsent(['\\', c], d, sub);
  }

  lemma ReplacementsOne(c: char)
    ensures Replacements([c]) == EscapeChar(c)
  {
    ReplaceOne(c, '\\', "\\\\");
    ReplaceOne(c, '"', "\\\"");
    ReplaceOne(c, '+', "\\+");
    ReplaceOne(c, ',', "\\,");
    ReplaceOne(c, ';', "\\;");
    ReplaceOne(c, '<', "\\<");
    ReplaceOne(c, '>', "\\>");
    ReplaceOne(c, '\0', "\\00");
    if c in "\\\"+,;<>" {
      if c != '"' { ReplacePair(c, '"', "\\\""); }
      if c != '+' { ReplacePair(c, '+', "\\+"); }
      if c != ',' { ReplacePair(c, ',', "\\,"); }
      if c != ';' { ReplacePair(c, ';', "\\;"); }
      if c != '<' { ReplacePair(c, '<', "\\<"); }
      if c != '>' { ReplacePair(c, '>', "\\>"); }
      ReplacePair(c, '\0', "\\00");
    }
  }

  /** The eight replacements in turn equal one pass, character by character. */
  lemma {:induction false} ReplacementsAreOnePass(val: string)
    ensures Replacements(val) == EscapeChars(val)
  {
    if val != "" {
      assert val == [val[0]] + val[1..];
      ReplacementsConcat([val[0]], val[1..]);
      ReplacementsOne(val[0]);
      ReplacementsAreOnePass(val[1..]);
    }
  }
}
