/** The four patterns as languages, in the character codes of RFC 4514 section 3, and the scanners as their longest match. */
module Rfc4514Grammar {
  import opened Common
  import opened Rfc4514Parser

  // ---------------------------------------------------------------- character codes

  predicate UtfMb(n: int) {
    n >= 0x80
  }

  predicate LeadCode(n: int) {
    || 0x01 <= n <= 0x1F || n == 0x21 || 0x24 <= n <= 0x2A || 0x2D <= n <= 0x3A || n == 0x3D
    || 0x3F <= n <= 0x5B || 0x5D <= n <= 0x7F || UtfMb(n)
  }

  predicate StringCode(n: int) {
    || 0x01 <= n <= 0x21 || 0x23 <= n <= 0x2A || 0x2D <= n <= 0x3A || n == 0x3D
    || 0x3F <= n <= 0x5B || 0x5D <= n <= 0x7F || UtfMb(n)
  }

  predicate TrailCode(n: int) {
    || 0x01 <= n <= 0x1F || n == 0x21 || 0x23 <= n <= 0x2A || 0x2D <= n <= 0x3A || n == 0x3D
    || 0x3F <= n <= 0x5B || 0x5D <= n <= 0x7F || UtfMb(n)
  }

  predicate SpecialCode(n: int) {
    || n == 0x5C || n == 0x20 || n == 0x23 || n == 0x3D || n == 0x22
    || n == 0x2B || n == 0x2C || n == 0x3B || n == 0x3C || n == 0x3E
  }

  predicate LetterCode(n: int) {
    0x41 <= n <= 0x5A || 0x61 <= n <= 0x7A
  }

  /** `\d`: the ASCII digits, and those of other scripts. */
  predicate AnyDigit(c: char) {
    0x30 <= c as int <= 0x39 || (c as int >= 0x80 && OtherDigit(c).Some?)
  }

  predicate LetterOrDigit(c: char) {
    LetterCode(c as int) || AnyDigit(c)
  }

  // ---------------------------------------------------------------- tokens

  /** A backslash and a special character, or a backslash and two letters or digits. */
  predicate Pair(t: string) {
    || (|t| == 2 && t[0] as int == 0x5C && SpecialCode(t[1] as int))
    || (|t| == 3 && t[0] as int == 0x5C && LetterOrDigit(t[1]) && LetterOrDigit(t[2]))
  }

  predicate Lead(t: string) {
    Pair(t) || (|t| == 1 && LeadCode(t[0] as int))
  }

  predicate Mid(t: string) {
    Pair(t) || (|t| == 1 && StringCode(t[0] as int))
  }

  predicate Trail(t: string) {
    Pair(t) || (|t| == 1 && TrailCode(t[0] as int))
  }

  /** Tokens of which the last may end a value; none at all is fine. */
  ghost predicate Run(ts: seq<string>) {
    && (forall i | 0 <= i < |ts| :: Mid(ts[i]))
    && (ts != [] ==> Trail(ts[|ts| - 1]))
  }

  predicate Arc(a: string) {
    || (|a| == 1 && a[0] as int == 0x30)
    || (a != "" && 0x31 <= a[0] as int <= 0x39 && forall i | 1 <= i < |a| :: AnyDigit(a[i]))
  }

  /** Every arc with a dot before it. */
  function Dots(arcs: seq<string>): string {
    if arcs == [] then "" else "." + arcs[0] + Dots(arcs[1..])
  }

  predicate Arcs(arcs: seq<string>) {
    forall i | 0 <= i < |arcs| :: Arc(arcs[i])
  }

  // ---------------------------------------------------------------- languages

  ghost predicate InOid(s: string) {
    exists a, arcs :: Arc(a) && Arcs(arcs) && arcs != [] && s == a + Dots(arcs)
  }

  ghost predicate InDescr(s: string) {
    s != "" && LetterCode(s[0] as int) && forall i | 1 <= i < |s| :: LetterOrDigit(s[i]) || s[i] as int == 0x2D
  }

  ghost predicate InString(s: string) {
    s == "" || exists t, ts :: Lead(t) && Run(ts) && s == t + Flatten(ts)
  }

  ghost predicate InHexString(s: string) {
    |s| >= 3 && |s| % 2 == 1 && s[0] as int == 0x23 && forall i | 1 <= i < |s| :: LetterOrDigit(s[i])
  }

  ghost predicate InLanguage(pattern: Pattern, s: string) {
    match pattern
    case OidRe => InOid(s)
    case DescrRe => InDescr(s)
    case StringRe => InString(s)
    case HexStringRe => InHexString(s)
  }

  // ---------------------------------------------------------------- characters

  lemma DigitCodes(c: char)
    ensures IsDigit(c) <==> AnyDigit(c)
    ensures IsLetter(c) <==> LetterCode(c as int)
    ensures IsAlnum(c) <==> LetterOrDigit(c)
  {
    hide OtherDigit;
  }

  lemma CharCodes(c: char)
    ensures IsPairChar(c) <==> SpecialCode(c as int)
    ensures IsStringChar(c) <==> StringCode(c as int)
    ensures IsStringChar(c) && c != ' ' && c != '#' <==> LeadCode(c as int)
    ensures IsStringChar(c) && c != ' ' <==> TrailCode(c as int)
  {
  }

  lemma PairIsPlain()
    ensures !StringCode(0x5C)
    ensures forall c: char | SpecialCode(c as int) :: !LetterOrDigit(c)
  {
    hide OtherDigit;
  }

  /** The token at the front of a text is told by its first characters. */
  lemma TokenAt(t: string, rest: string)
    requires Mid(t)
    ensures TokenLength(t + rest) == |t| > 0 && (t + rest)[|t|..] == rest
    ensures IsTrailToken(t + rest) <==> Trail(t)
    ensures IsLeadToken(t + rest) <==> Lead(t)
  {
    PairIsPlain();
    var s := t + rest;
    assert forall i | 0 <= i < |t| :: s[i] == t[i];
    hide IsPairChar, IsStringChar, IsAlnum, StringCode, SpecialCode, LeadCode, TrailCode, LetterOrDigit;
    CharCodes(t[0]);
    if |t| >= 2 {
      CharCodes(t[1]);
      DigitCodes(t[1]);
    }
    if |t| == 3 {
      DigitCodes(t[2]);
    }
    BackslashCode(t[0]);
  }

  lemma BackslashCode(c: char)
    ensures c == '\\' <==> c as int == 0x5C
  {
  }

  lemma FrontToken(s: string)
    requires TokenLength(s) > 0
    ensures Mid(s[..TokenLength(s)])
    ensures IsTrailToken(s) <==> Trail(s[..TokenLength(s)])
    ensures IsLeadToken(s) <==> Lead(s[..TokenLength(s)])
  {
    hide IsPairChar, IsStringChar, IsAlnum, StringCode, SpecialCode, LeadCode, TrailCode, LetterOrDigit;
    var t := s[..TokenLength(s)];
    CharCodes(s[0]);
    BackslashCode(s[0]);
    if |s| >= 2 {
      CharCodes(s[1]);
      DigitCodes(s[1]);
    }
    if |s| >= 3 {
      DigitCodes(s[2]);
    }
    PairIsPlain();
    assert forall i | 0 <= i < |t| :: t[i] == s[i];
  }

  lemma LeadIsToken(s: string)
    requires IsLeadToken(s)
    ensures TokenLength(s) > 0
  {
  }

  lemma LeadIsMid(t: string)
    ensures Lead(t) ==> Mid(t)
    ensures Trail(t) ==> Mid(t)
  {
  }

  // ---------------------------------------------------------------- strings

  /** The scanner's run is a run of the grammar. */
  lemma {:induction false} RunIsFound(s: string) returns (ts: seq<string>)
    ensures Run(ts) && Flatten(ts) == s[..RunLength(s)]
    decreases |s|
  {
    hide *;
    var n := TokenLength(s);
    RunLengthStep(s);
    if n == 0 || (RunLength(s[n..]) == 0 && !IsTrailToken(s)) {
      ts := [];
      NoTokens();
    } else {
      FrontToken(s);
      var more := RunIsFound(s[n..]);
      ts := [s[..n]] + more;
      EmptyRun(more);
      RunCons(s[..n], more);
      FrontOf(s, n, RunLength(s[n..]));
    }
  }

  lemma RunLengthStep(s: string)
    ensures var n := TokenLength(s);
            RunLength(s) ==
            if n == 0 || (RunLength(s[n..]) == 0 && !IsTrailToken(s)) then 0 else n + RunLength(s[n..])
  {
    hide TokenLength, IsTrailToken;
  }

  lemma NoTokens()
    ensures Run([]) && Flatten<char>([]) == []
  {
  }

  lemma RunCons(t: string, more: seq<string>)
    requires Mid(t) && Run(more) && (more == [] ==> Trail(t))
    ensures Run([t] + more) && Flatten([t] + more) == t + Flatten(more)
  {
    hide Mid, Trail;
    var ts := [t] + more;
    assert ts[1..] == more;
    assert more != [] ==> ts[|ts| - 1] == more[|more| - 1];
  }

  lemma FrontOf(s: string, n: nat, k: nat)
    requires n + k <= |s|
    ensures s[..n + k] == s[..n] + s[n..][..k]
  {
  }

  lemma EmptyRun(ts: seq<string>)
    ensures |Flatten(ts)| > 0 ==> ts != []
  {
  }

  /** No run of the grammar at the front of a text is longer. */
  lemma {:induction false} RunIsLongest(s: string, ts: seq<string>)
    requires Run(ts) && Flatten(ts) <= s
    ensures |Flatten(ts)| <= RunLength(s)
    decreases |ts|
  {
    hide TokenLength, IsTrailToken, Mid, Trail;
    if ts != [] {
      var t, more := ts[0], ts[1..];
      var rest := s[|t|..];
      assert s == t + rest;
      TokenAt(t, rest);
      assert Flatten(ts) == t + Flatten(more);
      assert Flatten(more) <= rest by {
        assert (t + Flatten(more))[|t|..] == Flatten(more);
      }
      if more == [] {
        assert Trail(t);
      } else {
        assert more[|more| - 1] == ts[|ts| - 1];
        RunIsLongest(rest, more);
        NonEmptyRun(more);
      }
    }
  }

  lemma NonEmptyRun(ts: seq<string>)
    requires Run(ts) && ts != []
    ensures |Flatten(ts)| > 0
  {
  }

  lemma StringIsLongest(s: string, m: nat)
    requires m <= |s| && InString(s[..m])
    ensures m <= StringLength(s)
  {
    hide TokenLength, IsLeadToken, Lead, Run, RunLength;
    if m > 0 {
      var t, ts :| Lead(t) && Run(ts) && s[..m] == t + Flatten(ts);
      var rest := s[|t|..];
      assert s == t + rest by {
        assert s == s[..m] + s[m..];
      }
      LeadIsMid(t);
      TokenAt(t, rest);
      assert Flatten(ts) <= rest by {
        assert s[..m][|t|..] == Flatten(ts);
      }
      RunIsLongest(rest, ts);
    }
  }

  lemma StringIsFound(s: string)
    ensures InString(s[..StringLength(s)])
  {
    hide TokenLength, IsLeadToken, Lead, Run, RunLength;
    if IsLeadToken(s) {
      LeadIsToken(s);
      FrontToken(s);
      var n := TokenLength(s);
      var ts := RunIsFound(s[n..]);
      assert s[..n + RunLength(s[n..])] == s[..n] + s[n..][..RunLength(s[n..])];
    }
  }

  // ---------------------------------------------------------------- digits and arcs

  lemma {:induction false} DigitsAre(s: string)
    ensures forall i | 0 <= i < DigitsLength(s) :: IsDigit(s[i])
    ensures DigitsLength(s) < |s| ==> !IsDigit(s[DigitsLength(s)])
  {
    hide IsDigit;
    if s != "" && IsDigit(s[0]) {
      DigitsAre(s[1..]);
    }
  }

  lemma ZeroCode(c: char)
    ensures c == '0' <==> c as int == 0x30
    ensures '1' <= c <= '9' <==> 0x31 <= c as int <= 0x39
    ensures c == '.' ==> !IsDigit(c) && c as int == 0x2E
  {
  }

  /** The arc found, and that what follows it does not go on with it. */
  lemma ArcIsFound(s: string)
    ensures ArcLength(s) > 0 ==> Arc(s[..ArcLength(s)])
    ensures forall m | 0 <= m <= |s| && Arc(s[..m]) :: m <= ArcLength(s)
    ensures forall i | 0 <= i < ArcLength(s) :: s[i] != '.'
  {
    hide IsDigit, AnyDigit;
    forall c ensures IsDigit(c) <==> AnyDigit(c) {
      DigitCodes(c);
    }
    if s != "" {
      var n := ArcLength(s);
      ZeroCode(s[0]);
      ZeroCode('.');
      DigitsAre(s[1..]);
      assert forall i | 1 <= i < |s| :: s[1..][i - 1] == s[i];
      assert forall m, i | 0 <= i < m <= |s| :: s[..m][i] == s[i];
    }
  }

  lemma {:induction false} DotsAreFound(s: string) returns (arcs: seq<string>)
    ensures Arcs(arcs) && Dots(arcs) == s[..DottedArcsLength(s)]
    decreases |s|
  {
    hide ArcLength, Arc;
    if s != "" && s[0] == '.' && ArcLength(s[1..]) > 0 {
      var n := ArcLength(s[1..]);
      ArcIsFound(s[1..]);
      var more := DotsAreFound(s[1 + n..]);
      arcs := [s[1..][..n]] + more;
      assert arcs[1..] == more;
      assert s[..1 + n + |Dots(more)|] == "." + s[1..][..n] + s[1 + n..][..|Dots(more)|];
    } else {
      arcs := [];
    }
  }

  lemma {:induction false} DotsAreLongest(s: string, arcs: seq<string>)
    requires Arcs(arcs) && Dots(arcs) <= s
    ensures |Dots(arcs)| <= DottedArcsLength(s)
    ensures arcs != [] ==> DottedArcsLength(s) > 0
    decreases |arcs|
  {
    hide ArcLength, Arc;
    if arcs != [] {
      var a, more := arcs[0], arcs[1..];
      assert Dots(arcs) == "." + a + Dots(more);
      var t := s[1..];
      assert s[0] == '.';
      assert t[..|a|] == a by {
        assert s[..|Dots(arcs)|] == "." + a + Dots(more);
        assert s[1..1 + |a|] == a;
      }
      ArcIsFound(t);
      ArcIsNotEmpty(a);
      if more != [] {
        assert Dots(more)[0] == '.';
        assert s[1 + |a|] == '.';
        assert t[|a|] == '.';
        assert ArcLength(t) == |a|;
        assert Dots(more) <= s[1 + |a|..] by {
          assert Dots(arcs)[1 + |a|..] == Dots(more);
        }
        DotsAreLongest(s[1 + |a|..], more);
      }
    }
  }

  lemma ArcIsNotEmpty(a: string)
    requires Arc(a)
    ensures |a| > 0
  {
  }

  lemma OidIsFound(s: string)
    requires MatchLength(OidRe, s).Some?
    ensures InOid(s[..MatchLength(OidRe, s).value])
  {
    hide ArcLength, DottedArcsLength, Arc;
    var first := ArcLength(s);
    ArcIsFound(s);
    var arcs := DotsAreFound(s[first..]);
    DotsNonEmpty(arcs);
    var n := first + DottedArcsLength(s[first..]);
    assert s[..n] == s[..first] + s[first..][..n - first];
  }

  lemma DotsNonEmpty(arcs: seq<string>)
    ensures |Dots(arcs)| > 0 <==> arcs != []
  {
  }

  lemma OidIsLongest(s: string, m: nat)
    requires m <= |s| && InOid(s[..m])
    ensures MatchLength(OidRe, s).Some? && m <= MatchLength(OidRe, s).value
  {
    hide ArcLength, DottedArcsLength, Arc;
    var a, arcs :| Arc(a) && Arcs(arcs) && arcs != [] && s[..m] == a + Dots(arcs);
    ArcIsFound(s);
    ArcIsNotEmpty(a);
    DotsNonEmpty(arcs);
    var n := |a|;
    assert s[..n] == a by {
      assert s[..m][..n] == a;
    }
    assert s[n] == '.' by {
      assert s[..m][n] == Dots(arcs)[0];
    }
    assert ArcLength(s) == n;
    assert Dots(arcs) <= s[n..] by {
      assert s[..m][n..] == Dots(arcs);
    }
    DotsAreLongest(s[n..], arcs);
  }

  // ---------------------------------------------------------------- descriptors and hexadecimal strings

  lemma {:induction false} AlnumDashAre(s: string)
    ensures forall i | 0 <= i < AlnumDashLength(s) :: IsAlnum(s[i]) || s[i] == '-'
    ensures AlnumDashLength(s) < |s| ==> var c := s[AlnumDashLength(s)]; !IsAlnum(c) && c != '-'
  {
    hide IsAlnum;
    if s != "" && (IsAlnum(s[0]) || s[0] == '-') {
      AlnumDashAre(s[1..]);
    }
  }

  lemma {:induction false} HexPairsAre(s: string)
    ensures HexPairsLength(s) % 2 == 0
    ensures forall i | 0 <= i < HexPairsLength(s) :: IsAlnum(s[i])
    ensures var n := HexPairsLength(s); n + 1 < |s| ==> !IsAlnum(s[n]) || !IsAlnum(s[n + 1])
  {
    hide IsAlnum;
    if |s| >= 2 && IsAlnum(s[0]) && IsAlnum(s[1]) {
      HexPairsAre(s[2..]);
      var n := HexPairsLength(s[2..]);
      assert forall i | 0 <= i < n :: s[2..][i] == s[i + 2];
    }
  }

  lemma DashCode(c: char)
    ensures c == '-' <==> c as int == 0x2D
    ensures c == '#' <==> c as int == 0x23
  {
  }

  lemma DescrMatch(s: string, m: nat)
    requires m <= |s|
    ensures InDescr(s[..m]) ==> MatchLength(DescrRe, s).Some? && m <= MatchLength(DescrRe, s).value
    ensures MatchLength(DescrRe, s) == Some(m) ==> InDescr(s[..m])
  {
    hide IsAlnum, IsLetter, LetterOrDigit, LetterCode, AlnumDashLength;
    forall c ensures (IsAlnum(c) || c == '-' <==> LetterOrDigit(c) || c as int == 0x2D)
                     && (IsLetter(c) <==> LetterCode(c as int))
    {
      DigitCodes(c);
      DashCode(c);
    }
    if s != "" {
      var t, p := s[1..], s[..m];
      AlnumDashAre(t);
      assert forall i | 1 <= i < |s| :: t[i - 1] == s[i];
      assert forall i | 0 <= i < m :: p[i] == s[i];
    }
  }

  lemma HexMatch(s: string, m: nat)
    requires m <= |s|
    ensures InHexString(s[..m]) ==> MatchLength(HexStringRe, s).Some? && m <= MatchLength(HexStringRe, s).value
    ensures MatchLength(HexStringRe, s) == Some(m) ==> InHexString(s[..m])
  {
    hide IsAlnum, LetterOrDigit, HexPairsLength;
    forall c ensures IsAlnum(c) <==> LetterOrDigit(c) {
      DigitCodes(c);
    }
    if s != "" {
      DashCode(s[0]);
      var t, p := s[1..], s[..m];
      HexPairsAre(t);
      assert forall i | 1 <= i < |s| :: t[i - 1] == s[i];
      assert forall i | 0 <= i < m :: p[i] == s[i];
    }
  }

  /** Each scanner matches the longest front of the text that is in the language of its pattern, or nothing if none is. */
  lemma LongestMatch(pattern: Pattern, s: string)
    ensures match MatchLength(pattern, s)
            case None => forall m | 0 <= m <= |s| :: !InLanguage(pattern, s[..m])
            case Some(n) => InLanguage(pattern, s[..n]) && forall m | n < m <= |s| :: !InLanguage(pattern, s[..m])
  {
    hide InOid, InString, InDescr, InHexString;
    match pattern {
      case OidRe =>
        if MatchLength(OidRe, s).Some? {
          OidIsFound(s);
        }
        forall m | 0 <= m <= |s| && InOid(s[..m])
          ensures MatchLength(OidRe, s).Some? && m <= MatchLength(OidRe, s).value
        {
          OidIsLongest(s, m);
        }
      case StringRe =>
        StringIsFound(s);
        forall m | 0 <= m <= |s| && InString(s[..m]) ensures m <= StringLength(s) {
          StringIsLongest(s, m);
        }
      case DescrRe =>
        forall m | 0 <= m <= |s|
          ensures InDescr(s[..m]) ==> MatchLength(DescrRe, s).Some? && m <= MatchLength(DescrRe, s).value
          ensures MatchLength(DescrRe, s) == Some(m) ==> InDescr(s[..m])
        {
          DescrMatch(s, m);
        }
      case HexStringRe =>
        forall m | 0 <= m <= |s|
          ensures InHexString(s[..m]) ==> MatchLength(HexStringRe, s).Some? && m <= MatchLength(HexStringRe, s).value
          ensures MatchLength(HexStringRe, s) == Some(m) ==> InHexString(s[..m])
        {
          HexMatch(s, m);
        }
    }
  }
}
