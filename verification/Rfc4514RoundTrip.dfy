/** Printing a name and parsing the text gives the name back, exactly when its values allow it. */
module Rfc4514RoundTrip {
  import opened Common
  import opened DistinguishedNames
  import opened Rfc4514Parser

  // ---------------------------------------------------------------- escaped text, token by token

  /** The text of a value after its first character: only a trailing space is special. */
  function EscapeTail(u: string): string {
    if u == "" then ""
    else if u == " " then "\\ "
    else EscapeChar(u[0]) + EscapeTail(u[1..])
  }

  function EscapeLead(c: char): string {
    if c == '#' || c == ' ' then ['\\', c] else EscapeChar(c)
  }

  lemma {:induction false} EscapeTailEnds(u: string)
    requires u != ""
    ensures EscapeChars(u) != ""
    ensures EscapeTail(u) == var e := EscapeChars(u); if e[|e| - 1] == ' ' then e[..|e| - 1] + "\\ " else e
  {
    hide EscapeChar;
    EscapeCharEnds(u[0]);
    if |u| == 1 {
      assert u == [u[0]] && u[1..] == "";
      assert EscapeChars(u) == EscapeChar(u[0]);
      assert EscapeTail(u) == if u[0] == ' ' then "\\ " else EscapeChar(u[0]);
    } else {
      EscapeTailEnds(u[1..]);
      var e, e1 := EscapeChars(u), EscapeChars(u[1..]);
      assert e == EscapeChar(u[0]) + e1;
      assert e[..|e| - 1] == EscapeChar(u[0]) + e1[..|e1| - 1];
    }
  }

  lemma EscapeCharEnds(c: char)
    ensures var e := EscapeChar(c);
            && e != "" && (e[|e| - 1] == ' ' <==> c == ' ') && (c == ' ' ==> e == " ")
            && (e[0] == '#' <==> c == '#') && (e[0] == ' ' <==> c == ' ')
  {
  }

  lemma EndsOfConcat(a: string, e: string)
    requires a != "" && e != ""
    ensures EscapeEnds(a + e) ==
            (if a[0] == '#' || a[0] == ' ' then "\\" + a else a) +
            (if e[|e| - 1] == ' ' then e[..|e| - 1] + "\\ " else e)
  {
    var lead := if a[0] == '#' || a[0] == ' ' then "\\" + a else a;
    ConcatAssoc("\\", a, e);
    FrontOfConcat(lead, e);
    ConcatAssoc(lead, e[..|e| - 1], "\\ ");
  }

  lemma FrontOfConcat(a: string, e: string)
    requires e != ""
    ensures (a + e)[..|a + e| - 1] == a + e[..|e| - 1]
  {
  }

  /** Both ends dealt with at once; the value of one space is the exception. */
  lemma EscapeShape(v: string)
    requires v != "" && v != " "
    ensures EscapeDnValue(Text(v)) == EscapeLead(v[0]) + EscapeTail(v[1..])
  {
    hide *;
    EscapeUnfolds(v);
    EscapeCharEnds(v[0]);
    SpecialLead(v[0]);
    if |v| == 1 {
      assert v == [v[0]];
      OneCharShape(v[0]);
      assert EscapeLead(v[0]) + "" == EscapeLead(v[0]);
    } else {
      EscapeTailEnds(v[1..]);
      EndsOfConcat(EscapeChar(v[0]), EscapeChars(v[1..]));
    }
  }

  lemma EscapeUnfolds(v: string)
    requires v != "" && v != " "
    ensures EscapeDnValue(Text(v)) == EscapeEnds(EscapeChars(v))
    ensures EscapeChars(v) == EscapeChar(v[0]) + EscapeChars(v[1..])
  {
  }

  lemma SpecialLead(c: char)
    ensures c == '#' || c == ' ' ==> EscapeLead(c) == "\\" + EscapeChar(c)
    ensures c != '#' && c != ' ' ==> EscapeLead(c) == EscapeChar(c)
  {
  }

  lemma OneCharShape(c: char)
    requires c != ' '
    ensures EscapeChars([c]) == EscapeChar(c) && EscapeEnds(EscapeChar(c)) == EscapeLead(c)
    ensures EscapeTail([c][1..]) == ""
  {
    assert [c][1..] == "";
  }

  // ---------------------------------------------------------------- one token

  lemma PairIsToken(c: char, rest: string)
    requires IsPairChar(c)
    ensures var s := ['\\', c] + rest;
            && TokenLength(s) == 2 && IsLeadToken(s) && IsTrailToken(s) && s[2..] == rest
            && (Unescape(rest).Ok? ==> Unescape(s) == Ok([c] + Unescape(rest).value))
  {
    assert (['\\', c] + rest)[2..] == rest;
  }

  lemma EscapedCharIsToken(c: char, rest: string)
    ensures var s := EscapeChar(c) + rest;
            && TokenLength(s) == |EscapeChar(c)| > 0
            && (c != ' ' ==> IsTrailToken(s))
            && (c != ' ' && c != '#' ==> IsLeadToken(s))
            && s[|EscapeChar(c)|..] == rest
            && (Unescape(rest).Ok? ==> Unescape(s) == Ok([c] + Unescape(rest).value))
  {
    assert (EscapeChar(c) + rest)[|EscapeChar(c)|..] == rest;
  }

  lemma EscapedLeadIsToken(c: char, rest: string)
    ensures var s := EscapeLead(c) + rest;
            && IsLeadToken(s) && TokenLength(s) == |EscapeLead(c)| > 0
            && s[|EscapeLead(c)|..] == rest
            && s[0] != '#'
            && (Unescape(rest).Ok? ==> Unescape(s) == Ok([c] + Unescape(rest).value))
  {
    hide EscapeChar, TokenLength, Unescape;
    EscapeCharEnds(c);
    if c == '#' || c == ' ' {
      PairIsToken(c, rest);
    } else {
      EscapedCharIsToken(c, rest);
    }
  }

  // ---------------------------------------------------------------- values

  /** What can follow a printed value. */
  predicate Stops(rest: string) {
    rest == "" || rest[0] == ',' || rest[0] == '+'
  }

  lemma RunStep(token: string, more: string)
    requires token != "" && TokenLength(token + more) == |token|
    ensures RunLength(token + more) ==
            if RunLength(more) > 0 then |token| + RunLength(more)
            else if IsTrailToken(token + more) then |token| else 0
  {
    hide TokenLength, IsTrailToken;
    assert (token + more)[|token|..] == more;
  }

  lemma SpaceIsRun(rest: string)
    requires Stops(rest)
    ensures RunLength("\\ " + rest) == 2
  {
    StopIsNoToken(rest);
    hide TokenLength, Unescape, IsTrailToken, IsLeadToken, RunLength;
    PairIsToken(' ', rest);
    RunStep(['\\', ' '], rest);
  }

  lemma TailCons(u: string)
    requires u != "" && u != " "
    ensures EscapeTail(u) == EscapeChar(u[0]) + EscapeTail(u[1..])
    ensures u[1..] == "" ==> u == [u[0]] && u[0] != ' '
  {
    hide EscapeChar;
    if u[1..] == "" {
      assert u == [u[0]];
    }
  }

  lemma {:induction false} TailIsRun(u: string, rest: string)
    requires Stops(rest)
    ensures RunLength(EscapeTail(u) + rest) == |EscapeTail(u)|
  {
    hide *;
    if u == "" {
      StopIsNoToken(rest);
      EmptyTail();
      assert "" + rest == rest;
    } else if u == " " {
      SpaceTail();
      SpaceIsRun(rest);
    } else {
      var first, tail := EscapeChar(u[0]), EscapeTail(u[1..]);
      TailCons(u);
      ConcatAssoc(first, tail, rest);
      TailIsRun(u[1..], rest);
      EscapedCharIsToken(u[0], tail + rest);
      RunStep(first, tail + rest);
      TailNonEmpty(u[1..]);
    }
  }

  lemma EmptyTail()
    ensures EscapeTail("") == ""
  {
  }

  lemma SpaceTail()
    ensures EscapeTail(" ") == "\\ "
  {
  }

  lemma {:induction false} TailUnescapes(u: string)
    ensures Unescape(EscapeTail(u)) == Ok(u)
  {
    UnescapeEmpty();
    hide TokenLength, Unescape, EscapeChar, IsTrailToken, IsLeadToken;
    if u == " " {
      PairIsToken(' ', "");
      assert ['\\', ' '] + "" == EscapeTail(" ");
      assert [' '] + "" == " ";
    } else if u != "" {
      TailUnescapes(u[1..]);
      EscapedCharIsToken(u[0], EscapeTail(u[1..]));
      assert u == [u[0]] + u[1..];
    }
  }

  lemma StopIsNoToken(rest: string)
    requires Stops(rest)
    ensures TokenLength(rest) == 0 && RunLength(rest) == 0 && !IsLeadToken(rest)
  {
  }

  lemma UnescapeEmpty()
    ensures Unescape("") == Ok("")
  {
  }

  lemma TailNonEmpty(u: string)
    ensures EscapeTail(u) == "" <==> u == ""
  {
    if u != "" {
      EscapeTailEnds(u);
    }
  }

  lemma EmptyValue()
    ensures EscapeDnValue(Text("")) == "" && Unescape("") == Ok("")
  {
  }

  lemma ValueUnescapes(v: string)
    requires v != " "
    ensures Unescape(EscapeDnValue(Text(v))) == Ok(v)
  {
    hide *;
    if v == "" {
      EmptyValue();
    } else {
      EscapeShape(v);
      TailUnescapes(v[1..]);
      EscapedLeadIsToken(v[0], EscapeTail(v[1..]));
      assert v == [v[0]] + v[1..];
    }
  }

  lemma LeadStep(lead: string, more: string)
    requires IsLeadToken(lead + more) && TokenLength(lead + more) == |lead| && (lead + more)[|lead|..] == more
    ensures StringLength(lead + more) == |lead| + RunLength(more)
  {
    hide IsLeadToken, TokenLength, RunLength;
  }

  lemma EmptyReads(rest: string)
    requires Stops(rest)
    ensures EscapeDnValue(Text("")) + rest == rest
    ensures StringLength(rest) == 0 && (rest == "" || rest[0] != '#')
  {
    assert EscapeDnValue(Text("")) == "";
    StopIsNoToken(rest);
  }

  lemma NonEmptyReads(v: string, rest: string)
    requires v != "" && v != " " && Stops(rest)
    ensures var e := EscapeDnValue(Text(v));
            StringLength(e + rest) == |e| && e != "" && e[0] != '#'
  {
    hide *;
    EscapeShape(v);
    var lead, tail := EscapeLead(v[0]), EscapeTail(v[1..]);
    TailIsRun(v[1..], rest);
    EscapedLeadIsToken(v[0], tail + rest);
    LeadStep(lead, tail + rest);
    assert lead + tail + rest == lead + (tail + rest);
    assert (lead + (tail + rest))[0] == lead[0];
  }

  /** The scanner takes exactly the escaped text, which unescapes to the value. */
  lemma EscapedValueReads(v: string, rest: string)
    requires v != " " && Stops(rest)
    ensures var e := EscapeDnValue(Text(v));
            && StringLength(e + rest) == |e|
            && Unescape(e) == Ok(v)
            && (e + rest == "" || (e + rest)[0] != '#')
  {
    ValueUnescapes(v);
    if v == "" {
      EmptyReads(rest);
    } else {
      NonEmptyReads(v, rest);
    }
    hide *;
  }

  lemma SpaceShape()
    ensures EscapeDnValue(Text(" ")) == "\\\\ "
  {
    assert EscapeChars(" ") == " ";
  }

  /** One space is escaped twice; the scanner stops before the bare space that is left over. */
  lemma SpaceReadsAsBackslash(rest: string)
    requires Stops(rest)
    ensures EscapeDnValue(Text(" ")) == "\\\\ "
    ensures StringLength("\\\\ " + rest) == 2 && ("\\\\ " + rest)[2..] == " " + rest
    ensures Unescape("\\\\") == Ok("\\")
  {
    SpaceShape();
    hide EscapeDnValue, TokenLength, Unescape, IsLeadToken, RunLength;
    PairIsToken('\\', " " + rest);
    PairIsToken('\\', "");
    UnescapeEmpty();
    BareSpaceEndsNothing(rest);
    assert ['\\', '\\'] + "" == "\\\\";
    assert ['\\'] + "" == "\\";
    assert "\\\\ " + rest == ['\\', '\\'] + (" " + rest);
  }

  lemma BareSpaceEndsNothing(rest: string)
    requires Stops(rest)
    ensures RunLength(" " + rest) == 0
  {
    assert (" " + rest)[1..] == rest;
    StopIsNoToken(rest);
  }

  /** Unescaping undoes escaping on every text but the single space. */
  lemma UnescapeEscape(v: string)
    ensures Unescape(EscapeDnValue(Text(v))) == Ok(v) <==> v != " "
  {
    if v != " " {
      EscapedValueReads(v, "");
      assert EscapeDnValue(Text(v)) + "" == EscapeDnValue(Text(v));
    } else {
      UnescapeEmpty();
      SpaceReadsAsBackslash("");
      EscapedCharIsToken(' ', "");
      PairIsToken('\\', " ");
      assert "\\\\" + " " == "\\\\ ";
      assert EscapeChar(' ') + "" == " ";
    }
  }

  // ---------------------------------------------------------------- attribute types

  lemma {:induction false} DigitsAppend(s: string, r: string)
    requires r != "" && !IsDigit(r[0])
    ensures DigitsLength(s + r) == DigitsLength(s)
  {
    if s == "" {
      assert s + r == r;
    } else {
      assert (s + r)[1..] == s[1..] + r;
      DigitsAppend(s[1..], r);
    }
  }

  lemma ArcAppend(s: string, r: string)
    requires r != "" && !IsDigit(r[0])
    ensures ArcLength(s + r) == ArcLength(s)
  {
    if s == "" {
      assert s + r == r;
    } else {
      assert (s + r)[1..] == s[1..] + r;
      DigitsAppend(s[1..], r);
    }
  }

  lemma {:induction false} DottedArcsAppend(s: string, r: string)
    requires r != "" && !IsDigit(r[0]) && r[0] != '.'
    ensures DottedArcsLength(s + r) == DottedArcsLength(s)
    decreases |s|
  {
    if s == "" {
      assert s + r == r;
    } else {
      assert (s + r)[1..] == s[1..] + r;
      ArcAppend(s[1..], r);
      var n := 1 + ArcLength(s[1..]);
      assert (s + r)[n..] == s[n..] + r;
      DottedArcsAppend(s[n..], r);
    }
  }

  lemma {:induction false} AlnumDashAppend(s: string, r: string)
    requires r != "" && !IsAlnum(r[0]) && r[0] != '-'
    ensures AlnumDashLength(s + r) == AlnumDashLength(s)
  {
    if s == "" {
      assert s + r == r;
    } else {
      assert (s + r)[1..] == s[1..] + r;
      AlnumDashAppend(s[1..], r);
    }
  }

  /** An equals sign ends the match of either pattern for attribute types. */
  lemma TypeMatchAppend(pattern: Pattern, s: string, r: string)
    requires pattern.OidRe? || pattern.DescrRe?
    requires r != "" && r[0] == '='
    ensures MatchLength(pattern, s + r) == MatchLength(pattern, s)
  {
    if pattern.OidRe? {
      OidMatchAppend(s, r);
    } else if s == "" {
      assert s + r == r;
    } else {
      assert (s + r)[0] == s[0] && (s + r)[1..] == s[1..] + r;
      AlnumDashAppend(s[1..], r);
    }
  }

  lemma OidMatchAppend(s: string, r: string)
    requires r != "" && r[0] == '='
    ensures MatchLength(OidRe, s + r) == MatchLength(OidRe, s)
  {
    hide *;
    EqualsIsNoDigit();
    ArcAppend(s, r);
    OidMatchIs(s);
    OidMatchIs(s + r);
    var first := ArcLength(s);
    DropAppend(s, r, first);
    DottedArcsAppend(s[first..], r);
  }

  lemma EqualsIsNoDigit()
    ensures !IsDigit('=')
  {
  }

  lemma OidMatchIs(s: string)
    ensures var first := ArcLength(s);
            MatchLength(OidRe, s) ==
              if first > 0 && DottedArcsLength(s[first..]) > 0 then Some(first + DottedArcsLength(s[first..]))
              else None
  {
    hide ArcLength, DottedArcsLength;
  }

  predicate FullMatch(pattern: Pattern, s: string) {
    MatchLength(pattern, s) == Some(|s|)
  }

  /** The printed attribute name is one the parser takes back to the OID. */
  predicate Readable(env: Env, overrides: map<Oid, string>, oid: Oid) {
    var name := AttributeName(oid, overrides);
    || (FullMatch(OidRe, name) && name == oid && env.acceptsOid(oid))
    || (FullMatch(DescrRe, name) && env.LookUp(name) == Some(oid))
  }

  lemma TypeReads(env: Env, overrides: map<Oid, string>, oid: Oid, rest: string)
    requires Readable(env, overrides, oid)
    requires rest != "" && rest[0] == '='
    ensures ReadType(env, AttributeName(oid, overrides) + rest) == Ok((oid, rest))
  {
    var name := AttributeName(oid, overrides);
    TypeMatchAppend(OidRe, name, rest);
    TypeMatchAppend(DescrRe, name, rest);
    if FullMatch(DescrRe, name) {
      assert ArcLength(name) == 0;
    }
    hide AttributeName, MatchLength;
    assert (name + rest)[..|name|] == name && (name + rest)[|name|..] == rest;
  }

  lemma ShortNamesMatch()
    ensures FullMatch(DescrRe, "CN") && FullMatch(DescrRe, "L") && FullMatch(DescrRe, "ST")
    ensures FullMatch(DescrRe, "O") && FullMatch(DescrRe, "OU") && FullMatch(DescrRe, "C")
    ensures FullMatch(DescrRe, "STREET") && FullMatch(DescrRe, "DC") && FullMatch(DescrRe, "UID")
  {
    assert AlnumDashLength("") == 0;
    assert AlnumDashLength("T") == 1 && AlnumDashLength("N") == 1 && AlnumDashLength("C") == 1
           && AlnumDashLength("U") == 1;
    assert AlnumDashLength("ID") == 2;
    assert AlnumDashLength("ET") == 2;
    assert AlnumDashLength("EET") == 3;
    assert AlnumDashLength("REET") == 4;
    assert AlnumDashLength("TREET") == 5;
  }

  /** With the built-in names only, every OID the constructor accepts reads back. */
  lemma DefaultNamesReadable(env: Env, oid: Oid)
    requires env.overrides == map[]
    requires FullMatch(OidRe, oid) && env.acceptsOid(oid)
    ensures Readable(env, map[], oid)
  {
    ShortNamesMatch();
    hide FullMatch;
    assert ShortName(oid).Some? ==> FromShortName(ShortName(oid).value) == Some(oid);
  }

  // ---------------------------------------------------------------- attributes

  predicate IsSpace(na: NameAttribute) {
    na.value == Text(" ")
  }

  ghost predicate AttributeOk(env: Env, overrides: map<Oid, string>, na: NameAttribute) {
    ValidAttribute(na) && Readable(env, overrides, na.oid)
  }

  lemma AttributeStart(env: Env, overrides: map<Oid, string>, na: NameAttribute, rest: string)
    requires Readable(env, overrides, na.oid)
    ensures ReadType(env, AttributeString(na, overrides) + rest)
            == Ok((na.oid, "=" + (EscapeDnValue(na.value) + rest)))
    ensures ("=" + (EscapeDnValue(na.value) + rest))[1..] == EscapeDnValue(na.value) + rest
  {
    hide Readable, ReadType, AttributeName, EscapeDnValue;
    var name, value := AttributeName(na.oid, overrides), EscapeDnValue(na.value);
    TypeReads(env, overrides, na.oid, "=" + (value + rest));
    assert name + "=" + value + rest == name + ("=" + (value + rest));
  }

  lemma ValueReads(env: Env, text: string, rest: string)
    requires text != " " && Stops(rest)
    ensures ReadValue(env, EscapeDnValue(Text(text)) + rest) == Ok((text, rest))
  {
    hide EscapeDnValue, StringLength, Unescape;
    EscapedValueReads(text, rest);
    var e := EscapeDnValue(Text(text));
    assert (e + rest)[..|e|] == e && (e + rest)[|e|..] == rest;
    assert Read(StringRe, e + rest) == Ok((e, rest));
  }

  lemma SpaceValueReads(env: Env, rest: string)
    requires Stops(rest)
    ensures ReadValue(env, EscapeDnValue(Text(" ")) + rest) == Ok(("\\", " " + rest))
  {
    hide EscapeDnValue, StringLength, Unescape;
    SpaceReadsAsBackslash(rest);
    var s := "\\\\ " + rest;
    assert s[..2] == "\\\\";
    assert Read(StringRe, s) == Ok(("\\\\", " " + rest));
  }

  lemma AttributeReads(env: Env, overrides: map<Oid, string>, na: NameAttribute, rest: string)
    requires AttributeOk(env, overrides, na) && na.value.Text? && !IsSpace(na) && Stops(rest)
    ensures ParseNa(env, AttributeString(na, overrides) + rest) == Ok((na, rest))
  {
    hide ReadType, ReadValue, EscapeDnValue, AttributeString, Readable, LengthOk;
    AttributeStart(env, overrides, na, rest);
    ValueReads(env, na.value.text, rest);
  }

  lemma SpaceAttributeReads(env: Env, overrides: map<Oid, string>, na: NameAttribute, rest: string)
    requires AttributeOk(env, overrides, na) && IsSpace(na) && Stops(rest)
    ensures var r := ParseNa(env, AttributeString(na, overrides) + rest);
            r.Ok? ==> r.value.1 == " " + rest
  {
    hide ReadType, ReadValue, EscapeDnValue, AttributeString, Readable, LengthOk;
    AttributeStart(env, overrides, na, rest);
    SpaceValueReads(env, rest);
  }

  // ---------------------------------------------------------------- RDNs

  ghost predicate AttributesOk(env: Env, overrides: map<Oid, string>, nas: seq<NameAttribute>) {
    forall na | na in nas :: AttributeOk(env, overrides, na) && na.value.Text?
  }

  predicate NoSpace(nas: seq<NameAttribute>) {
    forall na | na in nas :: !IsSpace(na)
  }

  /** The text of the attributes after the first one, with the `+` before them. */
  function AfterFirst(nas: seq<NameAttribute>, overrides: map<Oid, string>): string
    requires nas != []
  {
    if |nas| == 1 then "" else "+" + RdnString(nas[1..], overrides)
  }

  lemma RdnStringShape(nas: seq<NameAttribute>, overrides: map<Oid, string>, rest: string)
    requires nas != [] && Stops(rest)
    ensures RdnString(nas, overrides) + rest
            == AttributeString(nas[0], overrides) + (AfterFirst(nas, overrides) + rest)
    ensures Stops(AfterFirst(nas, overrides) + rest)
    ensures |nas| > 1 ==> (AfterFirst(nas, overrides) + rest)[0] == '+'
                          && (AfterFirst(nas, overrides) + rest)[1..] == RdnString(nas[1..], overrides) + rest
    ensures |nas| == 1 ==> AfterFirst(nas, overrides) + rest == rest
  {
    var first := AttributeString(nas[0], overrides);
    if |nas| > 1 {
      var more := RdnString(nas[1..], overrides);
      assert RdnString(nas, overrides) == first + "+" + more && AfterFirst(nas, overrides) == "+" + more;
      Regroup(first, "+", more, rest);
    } else {
      assert RdnString(nas, overrides) == first && AfterFirst(nas, overrides) == "";
      assert "" + rest == rest;
    }
    hide *;
  }

  lemma Regroup(a: string, sep: string, b: string, c: string)
    ensures a + sep + b + c == a + (sep + b + c)
    ensures (sep + b + c)[|sep|..] == b + c
  {
  }

  lemma {:induction false} NasRead(env: Env, overrides: map<Oid, string>, nas: seq<NameAttribute>, rest: string)
    requires nas != [] && AttributesOk(env, overrides, nas) && NoSpace(nas)
    requires rest == "" || rest[0] == ','
    ensures ParseNas(env, RdnString(nas, overrides) + rest) == Ok((nas, rest))
  {
    hide ParseNa, AttributeString, RdnString, AttributeOk;
    RdnStringShape(nas, overrides, rest);
    var after := AfterFirst(nas, overrides) + rest;
    AttributeReads(env, overrides, nas[0], after);
    if |nas| > 1 {
      NasRead(env, overrides, nas[1..], rest);
      assert nas == [nas[0]] + nas[1..];
    } else {
      assert nas == [nas[0]];
    }
  }

  /** A single-space value leaves a bare space that no RDN can go on from. */
  lemma {:induction false} NasStuck(env: Env, overrides: map<Oid, string>, nas: seq<NameAttribute>, rest: string)
    requires nas != [] && AttributesOk(env, overrides, nas) && !NoSpace(nas)
    requires rest == "" || rest[0] == ','
    ensures var r := ParseNas(env, RdnString(nas, overrides) + rest);
            r.Ok? ==> r.value.1 != "" && r.value.1[0] == ' '
  {
    hide ParseNa, AttributeString, RdnString, AttributeOk, IsSpace;
    RdnStringShape(nas, overrides, rest);
    var after := AfterFirst(nas, overrides) + rest;
    if IsSpace(nas[0]) {
      SpaceAttributeReads(env, overrides, nas[0], after);
    } else {
      assert nas == [nas[0]] + nas[1..];
      AttributeReads(env, overrides, nas[0], after);
      NasStuck(env, overrides, nas[1..], rest);
    }
  }

  // ---------------------------------------------------------------- names

  ghost predicate RdnsOk(env: Env, overrides: map<Oid, string>, rdns: seq<Rdn>) {
    forall rdn | rdn in rdns :: ValidRdn(rdn) && AttributesOk(env, overrides, rdn)
  }

  predicate NoSpaces(rdns: seq<Rdn>) {
    forall rdn | rdn in rdns :: NoSpace(rdn)
  }

  function AfterFirstRdn(rdns: seq<Rdn>, overrides: map<Oid, string>): string
    requires rdns != []
  {
    if |rdns| == 1 then "" else "," + JoinRdns(rdns[1..], overrides)
  }

  lemma JoinShape(rdns: seq<Rdn>, overrides: map<Oid, string>)
    requires rdns != []
    ensures JoinRdns(rdns, overrides) == RdnString(rdns[0], overrides) + AfterFirstRdn(rdns, overrides)
    ensures |rdns| > 1 ==> AfterFirstRdn(rdns, overrides)[1..] == JoinRdns(rdns[1..], overrides)
  {
    hide RdnString;
    assert RdnString(rdns[0], overrides) + "" == RdnString(rdns[0], overrides);
  }

  lemma {:induction false} RdnsRead(env: Env, overrides: map<Oid, string>, rdns: seq<Rdn>)
    requires rdns != [] && RdnsOk(env, overrides, rdns)
    ensures NoSpaces(rdns) ==> ParseRdns(env, JoinRdns(rdns, overrides)) == Ok(rdns)
    ensures !NoSpaces(rdns) ==> ParseRdns(env, JoinRdns(rdns, overrides)).Err?
  {
    hide ParseNas, RdnString, JoinRdns, AttributesOk, NoSpace;
    JoinShape(rdns, overrides);
    assert rdns == [rdns[0]] + rdns[1..];
    assert rdns[0] in rdns && ValidRdn(rdns[0]);
    var after := AfterFirstRdn(rdns, overrides);
    if NoSpace(rdns[0]) {
      NasRead(env, overrides, rdns[0], after);
      assert ParseRdn(env, JoinRdns(rdns, overrides)) == Ok((rdns[0], after));
      if |rdns| > 1 {
        RdnsRead(env, overrides, rdns[1..]);
        assert NoSpaces(rdns) <==> NoSpaces(rdns[1..]);
      } else {
        assert rdns == [rdns[0]];
      }
    } else {
      NasStuck(env, overrides, rdns[0], after);
    }
  }

  /** A name the constructors accept, whose attribute names the parser can take back. */
  ghost predicate Printable(env: Env, overrides: map<Oid, string>, name: Name) {
    forall rdn | rdn in name :: ValidRdn(rdn) && forall na | na in rdn :: AttributeOk(env, overrides, na)
  }

  predicate AllText(name: Name) {
    forall rdn | rdn in name :: forall na | na in rdn :: na.value.Text?
  }

  lemma ReversedTwice(name: Name)
    ensures Reversed(Reversed(name)) == name
    ensures forall rdn :: rdn in Reversed(name) <==> rdn in name
  {
    forall rdn ensures rdn in Reversed(name) <==> rdn in name {
      if rdn in name {
        var i :| 0 <= i < |name| && name[i] == rdn;
        assert Reversed(name)[|name| - 1 - i] == rdn;
      }
    }
  }

  lemma ParseNameIs(env: Env, text: string)
    ensures ParseName(env, text) ==
            if text == "" then Ok([])
            else
              match ParseRdns(env, text)
              case Ok(rdns) => Ok(Reversed(rdns))
              case Err(e) => Err(e)
  {
    hide ParseRdns;
  }

  lemma TextRoundTrip(env: Env, overrides: map<Oid, string>, name: Name)
    requires Printable(env, overrides, name) && AllText(name) && name != []
    ensures ParseName(env, NameString(name, overrides)) == Ok(name) <==> NoSpaces(name)
  {
    hide RdnString, JoinRdns, ParseRdns, ParseName, AttributeOk, ValidRdn, IsSpace;
    var rdns := Reversed(name);
    ReversedTwice(name);
    assert rdns[0] in name;
    RdnsRead(env, overrides, rdns);
    FirstIsNotEmpty(rdns[0]);
    JoinNonEmpty(rdns, overrides);
    ParseNameIs(env, JoinRdns(rdns, overrides));
  }

  lemma FirstIsNotEmpty(rdn: Rdn)
    requires ValidRdn(rdn)
    ensures rdn != []
  {
  }

  /** Parsing the printed text gives the name back exactly when every value is a text other than one space. */
  lemma RoundTrip(env: Env, overrides: map<Oid, string>, name: Name)
    requires Printable(env, overrides, name)
    ensures ParseName(env, NameString(name, overrides)) == Ok(name) <==> AllText(name) && NoSpaces(name)
  {
    hide *;
    if name == [] {
      EmptyName(env, overrides);
    } else if AllText(name) {
      TextRoundTrip(env, overrides, name);
    } else if ParseName(env, NameString(name, overrides)) == Ok(name) {
      ParsedNameIsBuilt(env, NameString(name, overrides), name);
      BuiltIsText(env, name);
    }
  }

  lemma EmptyName(env: Env, overrides: map<Oid, string>)
    ensures ParseName(env, NameString([], overrides)) == Ok([]) && AllText([]) && NoSpaces([])
  {
    assert Reversed<Rdn>([]) == [];
  }

  lemma JoinNonEmpty(rdns: seq<Rdn>, overrides: map<Oid, string>)
    requires rdns != [] && rdns[0] != []
    ensures JoinRdns(rdns, overrides) != ""
  {
    RdnStringShape(rdns[0], overrides, "");
    JoinShape(rdns, overrides);
    assert RdnString(rdns[0], overrides) + "" == RdnString(rdns[0], overrides);
  }

  /** Without overrides on either side, every name of text values but the single space makes the round trip. */
  lemma DefaultRoundTrip(env: Env, name: Name)
    requires env.overrides == map[] && AllText(name) && NoSpaces(name)
    requires forall rdn | rdn in name :: ValidRdn(rdn)
    requires forall rdn, na | rdn in name && na in rdn ::
               ValidAttribute(na) && FullMatch(OidRe, na.oid) && env.acceptsOid(na.oid)
    ensures ParseName(env, NameString(name, map[])) == Ok(name)
  {
    forall rdn, na | rdn in name && na in rdn ensures AttributeOk(env, map[], na) {
      DefaultNamesReadable(env, na.oid);
    }
    hide NameString, ParseName;
    RoundTrip(env, map[], name);
  }

  // ---------------------------------------------------------------- from a text that parses

  /** Cutting a text off after a match does not change the match. */
  lemma {:induction false} DigitsCut(s: string, m: nat)
    requires DigitsLength(s) <= m <= |s|
    ensures DigitsLength(s[..m]) == DigitsLength(s)
  {
    hide IsDigit;
    if m > 0 {
      assert s[..m][1..] == s[1..][..m - 1] && s[..m][0] == s[0];
      if IsDigit(s[0]) {
        DigitsCut(s[1..], m - 1);
      }
    }
  }

  lemma ArcCut(s: string, m: nat)
    requires ArcLength(s) <= m <= |s|
    ensures ArcLength(s[..m]) == ArcLength(s)
  {
    if m > 0 {
      assert s[..m][1..] == s[1..][..m - 1] && s[..m][0] == s[0];
      if '1' <= s[0] <= '9' {
        DigitsCut(s[1..], m - 1);
      }
    }
  }

  lemma {:induction false} DottedArcsCut(s: string, m: nat)
    requires DottedArcsLength(s) <= m <= |s|
    ensures DottedArcsLength(s[..m]) == DottedArcsLength(s)
    decreases |s|
  {
    hide ArcLength;
    if m > 0 && s[0] == '.' {
      var t := s[1..];
      assert s[..m][1..] == t[..m - 1] && s[..m][0] == s[0];
      if ArcLength(t) <= m - 1 {
        ArcCut(t, m - 1);
        var n := 1 + ArcLength(t);
        if ArcLength(t) > 0 {
          DottedArcsCut(s[n..], m - n);
          assert s[..m][n..] == s[n..][..m - n];
        }
      }
    }
  }

  /** What the OID pattern matches at the front of a text is an OID as a whole. */
  lemma OidMatchIsFull(s: string, n: nat)
    requires MatchLength(OidRe, s) == Some(n)
    ensures n <= |s| && FullMatch(OidRe, s[..n])
  {
    hide ArcLength, DottedArcsLength, MatchLength;
    OidMatchIs(s);
    OidMatchIs(s[..n]);
    var first := ArcLength(s);
    ArcCut(s, n);
    DottedArcsCut(s[first..], n - first);
    assert s[..n][first..] == s[first..][..n - first];
  }

  /** Without overrides the parser yields only OIDs that it reads back. */
  lemma ReadTypeIsReadable(env: Env, s: string)
    requires env.overrides == map[] && ReadType(env, s).Ok?
    ensures Readable(env, map[], ReadType(env, s).value.0)
  {
    hide MatchLength, Readable, FullMatch;
    if MatchLength(OidRe, s).Some? {
      var n := MatchLength(OidRe, s).value;
      OidMatchIsFull(s, n);
      DefaultNamesReadable(env, s[..n]);
    } else {
      ShortNameIsReadable(env, s[..MatchLength(DescrRe, s).value]);
    }
  }

  lemma ShortNameIsReadable(env: Env, name: string)
    requires env.overrides == map[] && FromShortName(name).Some?
    ensures Readable(env, map[], FromShortName(name).value)
  {
    hide FullMatch;
    ShortNamesMatch();
  }

  /** The attribute is one the constructor accepts, with a text value. */
  ghost predicate Built(na: NameAttribute) {
    ValidAttribute(na) && na.value.Text?
  }

  lemma ParsedNaIsBuilt(env: Env, s: string)
    requires ParseNa(env, s).Ok?
    ensures Built(ParseNa(env, s).value.0)
    ensures env.overrides == map[] ==> Readable(env, map[], ParseNa(env, s).value.0.oid)
  {
    hide ReadType, ReadValue, Readable, LengthOk;
    if env.overrides == map[] {
      ReadTypeIsReadable(env, s);
    }
  }

  /** Everything that holds of single attributes holds of all the parser yields. */
  ghost predicate NasBuilt(env: Env, nas: seq<NameAttribute>) {
    forall na | na in nas :: Built(na) && (env.overrides == map[] ==> Readable(env, map[], na.oid))
  }

  lemma {:induction false} ParsedNasAreBuilt(env: Env, s: string)
    ensures ParseNas(env, s).Ok? ==> NasBuilt(env, ParseNas(env, s).value.0)
    decreases |s|
  {
    hide ParseNa, Built, Readable;
    if ParseNa(env, s).Ok? {
      ParsedNaIsBuilt(env, s);
      var rest := ParseNa(env, s).value.1;
      if rest != "" {
        ParsedNasAreBuilt(env, rest[1..]);
      }
    }
  }

  lemma {:induction false} ParsedRdnsAreBuilt(env: Env, s: string)
    ensures ParseRdns(env, s).Ok? ==> forall rdn | rdn in ParseRdns(env, s).value :: ValidRdn(rdn) && NasBuilt(env, rdn)
    decreases |s|
  {
    hide ParseNas, NasBuilt, ValidRdn;
    ParsedNasAreBuilt(env, s);
    if ParseRdn(env, s).Ok? {
      var rest := ParseRdn(env, s).value.1;
      if rest != "" {
        ParsedRdnsAreBuilt(env, rest[1..]);
      }
    }
  }

  lemma ParsedNameIsBuilt(env: Env, data: string, name: Name)
    requires ParseName(env, data) == Ok(name)
    ensures forall rdn | rdn in name :: ValidRdn(rdn) && NasBuilt(env, rdn)
  {
    hide ParseRdns, ParseName, NasBuilt, ValidRdn;
    ParseNameIs(env, data);
    if data != "" {
      ParsedRdnsAreBuilt(env, data);
      ReversedTwice(ParseRdns(env, data).value);
    }
  }

  lemma BuiltIsText(env: Env, name: Name)
    requires forall rdn | rdn in name :: NasBuilt(env, rdn)
    ensures AllText(name)
  {
    hide Readable, ValidAttribute;
  }

  /** A name that was parsed is printed to something that parses to it exactly if no value is a single space, as long
      as its attribute types are printed readably. */
  lemma ParsePrintParse(env: Env, overrides: map<Oid, string>, data: string, name: Name)
    requires ParseName(env, data) == Ok(name)
    requires forall rdn, na | rdn in name && na in rdn :: Readable(env, overrides, na.oid)
    ensures ParseName(env, NameString(name, overrides)) == Ok(name) <==> NoSpaces(name)
  {
    hide ParseName, NameString, NoSpaces, Readable, ValidAttribute, ValidRdn;
    ParsedNameIsBuilt(env, data, name);
    BuiltIsText(env, name);
    RoundTrip(env, overrides, name);
  }

  /** Without overrides all types are, so this holds of every text the parser accepts. */
  lemma DefaultParsePrintParse(env: Env, data: string, name: Name)
    requires env.overrides == map[] && ParseName(env, data) == Ok(name)
    ensures ParseName(env, NameString(name, map[])) == Ok(name) <==> NoSpaces(name)
  {
    hide ParseName, NameString, NoSpaces, Readable, Built, ValidRdn;
    ParsedNameIsBuilt(env, data, name);
    ParsePrintParse(env, map[], data, name);
  }
}
