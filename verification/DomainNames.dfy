/** DNS names, wildcard patterns and DNS name constraints. */
module DomainNames {
  import opened Common

  // ---------------------------------------------------------------- text

  /** The pieces of `s` between occurrences of `sep`, as `str::split` yields them. */
  function Split(s: string, sep: char): (parts: seq<string>)
    ensures |parts| >= 1
  {
    if s == "" then [""]
    else
      var rest := Split(s[1..], sep);
      if s[0] == sep then [""] + rest else [[s[0]] + rest[0]] + rest[1..]
  }

  /** The two sides of the first `sep`, as `str::split_once` yields them. */
  function SplitOnce(s: string, sep: char): Option<(string, string)> {
    if s == "" then None
    else if s[0] == sep then Some(("", s[1..]))
    else
      match SplitOnce(s[1..], sep)
      case None => None
      case Some((front, back)) => Some(([s[0]] + front, back))
  }

  predicate IsAlphanumeric(c: char) {
    '0' <= c <= '9' || 'a' <= c <= 'z' || 'A' <= c <= 'Z'
  }

  function Lower(c: char): char {
    if 'A' <= c <= 'Z' then 'a' + (c - 'A') else c
  }

  predicate EqIgnoreCase(a: string, b: string) {
    |a| == |b| && forall i | 0 <= i < |a| :: Lower(a[i]) == Lower(b[i])
  }

  // ---------------------------------------------------------------- DNS names

  predicate IsLabel(text: string) {
    && 0 < |text| <= 63
    && text[0] != '-'
    && text[|text| - 1] != '-'
    && forall i | 0 <= i < |text| :: IsAlphanumeric(text[i]) || text[i] == '-'
  }

  predicate AreLabels(labels: seq<string>) {
    forall i | 0 <= i < |labels| :: IsLabel(labels[i])
  }

  predicate IsDnsName(value: string) {
    0 < |value| <= 253 && AreLabels(Split(value, '.'))
  }

  type DnsName = s: string | IsDnsName(s) witness "a"

  function NewDnsName(value: string): Option<DnsName> {
    if IsDnsName(value) then Some(value) else None
  }

  function Parent(name: DnsName): Option<DnsName> {
    match SplitOnce(name, '.')
    case Some((_, parent)) => NewDnsName(parent)
    case None => None
  }

  /** The labels from the top-level domain to the most specific one. */
  function RLabels(s: string): (labels: seq<string>) {
    var labels := Split(s, '.');
    seq(|labels|, i requires 0 <= i < |labels| => labels[|labels| - 1 - i])
  }

  /** `a.zip(b).all(eq_ignore_ascii_case)`: the longer side is cut off. */
  predicate ZipAllEqual(a: seq<string>, b: seq<string>) {
    forall i | 0 <= i < |a| && i < |b| :: EqIgnoreCase(a[i], b[i])
  }

  predicate IsSubdomainOf(name: string, other: string) {
    |name| > |other| && ZipAllEqual(RLabels(name), RLabels(other))
  }

  // ---------------------------------------------------------------- patterns and constraints

  datatype DnsPattern = Exact(name: DnsName) | Wildcard(name: DnsName) {
    predicate Matches(candidate: DnsName) {
      match this
      case Exact(pat) => EqIgnoreCase(pat, candidate)
      case Wildcard(pat) =>
        match Parent(candidate)
        case Some(parent) => EqIgnoreCase(pat, parent)
        case None => false
    }

    /** The name without the wildcard label; name constraints look at nothing else. */
    function InnerName(): DnsName {
      name
    }
  }

  function NewDnsPattern(pat: string): Option<DnsPattern> {
    if "*." <= pat then
      match NewDnsName(pat[2..])
      case Some(name) => Some(Wildcard(name))
      case None => None
    else
      match NewDnsName(pat)
      case Some(name) => Some(Exact(name))
      case None => None
  }

  /** `DNSConstraint::matches`: a length guard, then the zipped reversed labels. */
  predicate ConstraintMatches(constraint: string, name: string) {
    |name| >= |constraint| && ZipAllEqual(RLabels(constraint), RLabels(name))
  }

  // ---------------------------------------------------------------- what matching means

  /** The labels of `c` are the last labels of `n`, up to ASCII case. */
  ghost predicate LabelSuffix(c: string, n: string) {
    var cl, nl := Split(c, '.'), Split(n, '.');
    |cl| <= |nl| && SameLabels(nl[|nl| - |cl|..], cl)
  }

  ghost predicate SameLabels(a: seq<string>, b: seq<string>) {
    |a| == |b| && forall i | 0 <= i < |a| :: EqIgnoreCase(a[i], b[i])
  }

  /** `n` is `c`, or some text, a dot, and then `c`, up to ASCII case. */
  ghost predicate TextSuffix(c: string, n: string) {
    || EqIgnoreCase(n, c)
    || ProperTextSuffix(c, n)
  }

  ghost predicate ProperTextSuffix(c: string, n: string) {
    |n| > |c| && n[|n| - |c| - 1] == '.' && EqIgnoreCase(n[|n| - |c|..], c)
  }

  lemma SplitEmpty(sep: char)
    ensures Split("", sep) == [""]
  {
  }

  lemma SplitCons(c: char, s: string, sep: char)
    ensures Split([c] + s, sep) ==
            if c == sep then [""] + Split(s, sep) else [[c] + Split(s, sep)[0]] + Split(s, sep)[1..]
  {
    assert ([c] + s)[1..] == s;
  }

  lemma {:induction false} SplitConcat(x: string, y: string, sep: char)
    ensures Split(x + [sep] + y, sep) == Split(x, sep) + Split(y, sep)
  {
    hide Split;
    if x == "" {
      assert x + [sep] + y == [sep] + y;
      SplitEmpty(sep);
      SplitCons(sep, y, sep);
    } else {
      var c, t := x[0], x[1..];
      assert x == [c] + t;
      SplitConcat(t, y, sep);
      SplitCons(c, t, sep);
      SplitCons(c, t + [sep] + y, sep);
      ConcatAssoc([c], t, [sep]);
      ConcatAssoc([c], t + [sep], y);
    }
  }

  /** Every label boundary of `s` is an occurrence of the separator. */
  lemma {:induction false} CutAt(s: string, sep: char, k: nat) returns (x: string, y: string)
    requires 0 < k < |Split(s, sep)|
    ensures s == x + [sep] + y
    ensures Split(x, sep) == Split(s, sep)[..k] && Split(y, sep) == Split(s, sep)[k..]
  {
    hide Split;
    SplitEmpty(sep);
    assert s != "";
    var c, t := s[0], s[1..];
    assert s == [c] + t;
    SplitCons(c, t, sep);
    if c == sep && k == 1 {
      x, y := "", t;
      assert [""] + Split(t, sep) == Split(s, sep);
    } else {
      var x1, y1 := CutAt(t, sep, if c == sep then k - 1 else k);
      CutCons(c, t, x1, y1, sep, if c == sep then k - 1 else k);
      x, y := [c] + x1, y1;
    }
  }

  lemma CutCons(c: char, t: string, x: string, y: string, sep: char, k: nat)
    requires 0 < k < |Split(t, sep)| && t == x + [sep] + y
    requires Split(x, sep) == Split(t, sep)[..k] && Split(y, sep) == Split(t, sep)[k..]
    ensures [c] + t == ([c] + x) + [sep] + y
    ensures var n := if c == sep then k + 1 else k;
            && n < |Split([c] + t, sep)|
            && Split([c] + x, sep) == Split([c] + t, sep)[..n] && Split(y, sep) == Split([c] + t, sep)[n..]
  {
    hide Split;
    SplitCons(c, x, sep);
    SplitCons(c, t, sep);
    ConcatAssoc([c], x, [sep]);
    ConcatAssoc([c], x + [sep], y);
  }

  lemma EqCons(c: char, a: string, d: char, b: string)
    ensures EqIgnoreCase([c] + a, [d] + b) <==> Lower(c) == Lower(d) && EqIgnoreCase(a, b)
  {
    if EqIgnoreCase([c] + a, [d] + b) {
      forall i | 0 <= i < |a| ensures Lower(a[i]) == Lower(b[i]) {
        assert Lower(([c] + a)[i + 1]) == Lower(([d] + b)[i + 1]);
      }
      assert Lower(([c] + a)[0]) == Lower(([d] + b)[0]);
    }
  }

  lemma SameLabelsSplit(a: seq<string>, b: seq<string>)
    requires a != [] && b != []
    ensures SameLabels(a, b) <==> EqIgnoreCase(a[0], b[0]) && SameLabels(a[1..], b[1..])
  {
    hide EqIgnoreCase;
    if SameLabels(a[1..], b[1..]) && EqIgnoreCase(a[0], b[0]) {
      forall i | 0 <= i < |a| ensures EqIgnoreCase(a[i], b[i]) {
        if i > 0 { assert EqIgnoreCase(a[1..][i - 1], b[1..][i - 1]); }
      }
    }
  }

  /** The two first characters and the rest decide for the whole texts, split at dots. */
  lemma SameLabelsCons(c: char, a: string, d: char, b: string)
    ensures SameLabels(Split([c] + a, '.'), Split([d] + b, '.')) <==>
            Lower(c) == Lower(d) && SameLabels(Split(a, '.'), Split(b, '.'))
  {
    var pa, pb := Split(a, '.'), Split(b, '.');
    SplitCons(c, a, '.');
    SplitCons(d, b, '.');
    SameLabelsSplit(Split([c] + a, '.'), Split([d] + b, '.'));
    SameLabelsSplit(pa, pb);
    EqCons(c, pa[0], d, pb[0]);
    hide SameLabels, Split;
    assert EqIgnoreCase("", "");
    assert c == '.' && d == '.' ==> Split([c] + a, '.')[1..] == pa && Split([d] + b, '.')[1..] == pb;
    assert (Lower(c) == Lower(d)) ==> (c == '.' <==> d == '.');
  }

  lemma {:induction false} SameTextSameLabels(a: string, b: string)
    ensures EqIgnoreCase(a, b) <==> SameLabels(Split(a, '.'), Split(b, '.'))
  {
    if a != "" && b != "" {
      SameTextSameLabels(a[1..], b[1..]);
      EqCons(a[0], a[1..], b[0], b[1..]);
      SameLabelsCons(a[0], a[1..], b[0], b[1..]);
      hide *;
      assert a == [a[0]] + a[1..] && b == [b[0]] + b[1..];
    } else if SameLabels(Split(a, '.'), Split(b, '.')) {
      assert EqIgnoreCase(Split(a, '.')[0], Split(b, '.')[0]);
    }
  }

  /** Two texts with the same last labels: the one with more labels is strictly longer. */
  lemma MoreLabelsIsLonger(shorter: string, longer: string)
    requires |Split(shorter, '.')| < |Split(longer, '.')|
    requires LabelSuffix(shorter, longer)
    ensures |longer| > |shorter|
    ensures ProperTextSuffix(shorter, longer)
  {
    var k := |Split(longer, '.')| - |Split(shorter, '.')|;
    var x, y := CutAt(longer, '.', k);
    SameTextSameLabels(y, shorter);
    assert longer[|longer| - |shorter|..] == y;
  }

  lemma ZipIsSuffix(c: string, n: string)
    requires ZipAllEqual(RLabels(c), RLabels(n))
    requires |Split(c, '.')| <= |Split(n, '.')|
    ensures LabelSuffix(c, n)
  {
    EqIsSymmetric();
    hide EqIgnoreCase, Split;
    var cl, nl, rc, rn := Split(c, '.'), Split(n, '.'), RLabels(c), RLabels(n);
    forall i | 0 <= i < |cl| ensures EqIgnoreCase(nl[|nl| - |cl|..][i], cl[i]) {
      assert EqIgnoreCase(rc[|cl| - 1 - i], rn[|cl| - 1 - i]);
    }
  }

  /** The zipped comparison relates one name to the other's last labels, whichever is shorter. */
  lemma ZipIsSuffixEitherWay(c: string, n: string)
    requires ZipAllEqual(RLabels(c), RLabels(n))
    ensures LabelSuffix(c, n) || (|Split(n, '.')| < |Split(c, '.')| && |n| < |c|)
  {
    if |Split(c, '.')| <= |Split(n, '.')| {
      ZipIsSuffix(c, n);
    } else {
      ZipSymmetric(RLabels(c), RLabels(n));
      ZipIsSuffix(n, c);
      MoreLabelsIsLonger(n, c);
    }
  }

  lemma EqIsSymmetric()
    ensures forall a, b :: EqIgnoreCase(a, b) ==> EqIgnoreCase(b, a)
  {
  }

  lemma SuffixIsZip(c: string, n: string)
    requires LabelSuffix(c, n)
    ensures ZipAllEqual(RLabels(c), RLabels(n)) && ZipAllEqual(RLabels(n), RLabels(c))
  {
    EqIsSymmetric();
    hide EqIgnoreCase, Split;
    var cl, nl, rc, rn := Split(c, '.'), Split(n, '.'), RLabels(c), RLabels(n);
    forall i | 0 <= i < |rc| ensures EqIgnoreCase(rc[i], rn[i]) {
      assert EqIgnoreCase(nl[|nl| - |cl|..][|cl| - 1 - i], cl[|cl| - 1 - i]);
    }
  }

  /** What comes after a dot is made of the last labels. */
  lemma ProperTextIsLabels(c: string, n: string)
    requires ProperTextSuffix(c, n)
    ensures LabelSuffix(c, n) && |Split(c, '.')| < |Split(n, '.')|
  {
    hide Split, EqIgnoreCase;
    var x, y := n[..|n| - |c| - 1], n[|n| - |c|..];
    assert n == x + ['.'] + y;
    SplitConcat(x, y, '.');
    SameTextSameLabels(y, c);
    assert (Split(x, '.') + Split(y, '.'))[|Split(x, '.')|..] == Split(y, '.');
  }

  lemma SameLengthSuffix(c: string, n: string)
    requires |Split(c, '.')| == |Split(n, '.')|
    ensures LabelSuffix(c, n) <==> EqIgnoreCase(n, c)
  {
    hide Split, EqIgnoreCase;
    SameTextSameLabels(n, c);
    assert Split(n, '.')[0..] == Split(n, '.');
  }

  /** The text after a dot in `n` is made of the last labels of `n`. */
  lemma TextSuffixIsLabelSuffix(c: string, n: string)
    ensures TextSuffix(c, n) <==> LabelSuffix(c, n)
    ensures ProperTextSuffix(c, n) <==> LabelSuffix(c, n) && |Split(c, '.')| < |Split(n, '.')|
  {
    hide Split, EqIgnoreCase, LabelSuffix, ProperTextSuffix;
    SuffixIsShorter(c, n);
    if ProperTextSuffix(c, n) {
      ProperTextIsLabels(c, n);
    }
    if |Split(c, '.')| == |Split(n, '.')| {
      SameLengthSuffix(c, n);
    } else if LabelSuffix(c, n) {
      MoreLabelsIsLonger(c, n);
    }
    if EqIgnoreCase(n, c) {
      SameTextLabelCount(n, c);
    }
  }

  lemma SuffixIsShorter(c: string, n: string)
    ensures LabelSuffix(c, n) ==> |Split(c, '.')| <= |Split(n, '.')|
  {
  }

  lemma SameTextLabelCount(a: string, b: string)
    requires EqIgnoreCase(a, b)
    ensures |Split(a, '.')| == |Split(b, '.')|
  {
    hide Split, EqIgnoreCase;
    SameTextSameLabels(a, b);
  }

  /** The fast comparison decides label suffixes; the length guard makes up for `zip` stopping early. */
  lemma ConstraintMatchesMeaning(constraint: string, name: string)
    ensures ConstraintMatches(constraint, name) <==> LabelSuffix(constraint, name)
    ensures ConstraintMatches(constraint, name) <==> TextSuffix(constraint, name)
  {
    TextSuffixIsLabelSuffix(constraint, name);
    if ConstraintMatches(constraint, name) {
      ZipIsSuffixEitherWay(constraint, name);
    }
    if LabelSuffix(constraint, name) {
      SuffixIsZip(constraint, name);
    }
  }

  lemma SubdomainMeaning(name: string, other: string)
    ensures IsSubdomainOf(name, other) <==>
            LabelSuffix(other, name) && |Split(other, '.')| < |Split(name, '.')|
    ensures IsSubdomainOf(name, other) <==> ProperTextSuffix(other, name)
  {
    TextSuffixIsLabelSuffix(other, name);
    SameTextSameLabels(name, other);
    assert Split(name, '.')[0..] == Split(name, '.');
    if IsSubdomainOf(name, other) {
      ZipSymmetric(RLabels(name), RLabels(other));
      ZipIsSuffixEitherWay(other, name);
    }
    if LabelSuffix(other, name) && |Split(other, '.')| < |Split(name, '.')| {
      SuffixIsZip(other, name);
    }
  }

  lemma ZipSymmetric(a: seq<string>, b: seq<string>)
    requires ZipAllEqual(a, b)
    ensures ZipAllEqual(b, a)
  {
    forall i | 0 <= i < |b| && i < |a| ensures EqIgnoreCase(b[i], a[i]) {
      assert EqIgnoreCase(a[i], b[i]);
    }
  }

  // ---------------------------------------------------------------- parents and wildcards

  lemma {:induction false} SplitOnceIsFirstCut(s: string, sep: char)
    ensures SplitOnce(s, sep).None? <==> |Split(s, sep)| == 1
    ensures SplitOnce(s, sep).Some? ==>
              var (front, back) := SplitOnce(s, sep).value;
              && s == front + [sep] + back
              && Split(s, sep) == [front] + Split(back, sep)
  {
    if s != "" && s[0] != sep {
      SplitOnceIsFirstCut(s[1..], sep);
    }
  }

  /** A valid name has a parent exactly when it has two labels or more, and loses its first label. */
  lemma ParentMeaning(name: DnsName)
    ensures Parent(name).Some? <==> |Split(name, '.')| >= 2
    ensures Parent(name).Some? ==>
              && Split(Parent(name).value, '.') == Split(name, '.')[1..]
              && name == Split(name, '.')[0] + "." + Parent(name).value
  {
    SplitOnceIsFirstCut(name, '.');
    var labels := Split(name, '.');
    if |labels| >= 2 {
      var (front, back) := SplitOnce(name, '.').value;
      forall i | 0 <= i < |Split(back, '.')| ensures IsLabel(Split(back, '.')[i]) {
        assert Split(back, '.')[i] == labels[i + 1];
      }
      assert IsLabel(labels[1]) && Split(back, '.')[0] == labels[1];
    }
  }

  /** The names one label below `base`. */
  lemma ChildOf(front: string, base: DnsName) returns (name: DnsName)
    requires IsLabel(front) && |front| + 1 + |base| <= 253
    ensures name == front + "." + base && Parent(name) == Some(base)
    ensures Split(name, '.') == [front] + Split(base, '.')
  {
    LabelIsOnePiece(front);
    SplitConcat(front, base, '.');
    name := front + "." + base;
    ParentMeaning(name);
    assert name[|front| + 1..] == base;
    assert Parent(name).value == name[|front| + 1..];
  }

  lemma TwoLabels(a: string, b: string)
    requires IsLabel(a) && IsLabel(b)
    requires Split(a + "." + b, '.') == [a] + [b]
    ensures IsDnsName(a + "." + b)
  {
    hide Split;
  }

  lemma {:induction false} LabelIsOnePiece(text: string)
    requires '.' !in text
    ensures Split(text, '.') == [text]
  {
    if text != "" {
      assert text[0] in text;
      LabelIsOnePiece(text[1..]);
      assert [text[0]] + text[1..] == text;
    }
  }

  lemma SameTextTransitive(a: string, b: string, c: string)
    requires EqIgnoreCase(a, b)
    ensures EqIgnoreCase(b, a)
    ensures EqIgnoreCase(b, c) ==> EqIgnoreCase(a, c)
    ensures EqIgnoreCase(a, c) ==> EqIgnoreCase(b, c)
  {
  }

  lemma LabelSuffixThrough(c: string, mid: string, n: string)
    requires LabelSuffix(c, mid) && LabelSuffix(mid, n)
    ensures LabelSuffix(c, n)
  {
    hide EqIgnoreCase, Split;
    var cl, ml, nl := Split(c, '.'), Split(mid, '.'), Split(n, '.');
    forall i | 0 <= i < |cl| ensures EqIgnoreCase(nl[|nl| - |cl|..][i], cl[i]) {
      assert EqIgnoreCase(ml[|ml| - |cl|..][i], cl[i]);
      assert EqIgnoreCase(nl[|nl| - |ml|..][|ml| - |cl| + i], ml[|ml| - |cl| + i]);
      SameTextTransitive(nl[|nl| - |cl| + i], ml[|ml| - |cl| + i], cl[i]);
    }
  }

  /** A name the pattern matches ends in the pattern's inner name, one label higher for a wildcard. */
  lemma PatternNames(pattern: DnsPattern, name: DnsName)
    requires pattern.Matches(name)
    ensures LabelSuffix(pattern.InnerName(), name)
    ensures |Split(name, '.')| ==
            |Split(pattern.InnerName(), '.')| + if pattern.Wildcard? then 1 else 0
  {
    var pl, nl := Split(pattern.InnerName(), '.'), Split(name, '.');
    var tail := if pattern.Wildcard? then Parent(name).value else name;
    assert EqIgnoreCase(pattern.InnerName(), tail);
    hide EqIgnoreCase, Split, Parent;
    ParentMeaning(name);
    SameTextTransitive(pattern.InnerName(), tail, tail);
    SameTextSameLabels(tail, pattern.InnerName());
    assert nl[|nl| - |pl|..] == Split(tail, '.');
  }

  /** A constraint on the inner name covers every name a pattern stands for. */
  lemma WildcardCovered(constraint: DnsName, pattern: DnsPattern, name: DnsName)
    requires ConstraintMatches(constraint, pattern.InnerName())
    requires pattern.Matches(name)
    ensures ConstraintMatches(constraint, name)
  {
    ConstraintMatchesMeaning(constraint, pattern.InnerName());
    PatternNames(pattern, name);
    LabelSuffixThrough(constraint, pattern.InnerName(), name);
    ConstraintMatchesMeaning(constraint, name);
  }

  /** If a constraint reaches past the inner name, it is one of the names of the pattern. */
  lemma LongConstraint(constraint: DnsName, pattern: DnsPattern, name: DnsName)
    requires pattern.Matches(name) && ConstraintMatches(constraint, name)
    requires !ConstraintMatches(constraint, pattern.InnerName())
    ensures pattern.Wildcard? && EqIgnoreCase(constraint, name) && pattern.Matches(constraint)
  {
    hide EqIgnoreCase, Split, Parent, ConstraintMatches;
    var inner := pattern.InnerName();
    var cl, il, nl := Split(constraint, '.'), Split(inner, '.'), Split(name, '.');
    ConstraintMatchesMeaning(constraint, name);
    ConstraintMatchesMeaning(constraint, inner);
    PatternNames(pattern, name);
    if |cl| <= |il| {
      SuffixOfSuffix(constraint, inner, name);
      assert false;
    }
    assert nl[|nl| - |cl|..] == nl;
    SameTextSameLabels(name, constraint);
    SameTextTransitive(name, constraint, constraint);
    SameTailParent(constraint, name, inner);
  }

  lemma SuffixOfSuffix(c: string, mid: string, n: string)
    requires LabelSuffix(c, n) && LabelSuffix(mid, n)
    requires |Split(c, '.')| <= |Split(mid, '.')|
    ensures LabelSuffix(c, mid)
  {
    hide EqIgnoreCase, Split;
    var cl, ml, nl := Split(c, '.'), Split(mid, '.'), Split(n, '.');
    forall i | 0 <= i < |cl| ensures EqIgnoreCase(ml[|ml| - |cl|..][i], cl[i]) {
      assert EqIgnoreCase(nl[|nl| - |cl|..][i], cl[i]);
      assert EqIgnoreCase(nl[|nl| - |ml|..][|ml| - |cl| + i], ml[|ml| - |cl| + i]);
      SameTextTransitive(nl[|nl| - |cl| + i], ml[|ml| - |cl| + i], cl[i]);
    }
  }

  lemma SameTailParent(c: DnsName, n: DnsName, parent: DnsName)
    requires SameLabels(Split(n, '.'), Split(c, '.'))
    requires LabelSuffix(parent, n) && |Split(n, '.')| == |Split(parent, '.')| + 1
    ensures Parent(c).Some? && EqIgnoreCase(parent, Parent(c).value)
  {
    hide EqIgnoreCase, Split, Parent;
    ParentMeaning(c);
    var cl, nl, pl := Split(c, '.'), Split(n, '.'), Split(parent, '.');
    var cp := Parent(c).value;
    forall i | 0 <= i < |pl| ensures EqIgnoreCase(pl[i], Split(cp, '.')[i]) {
      assert EqIgnoreCase(nl[i + 1], cl[i + 1]);
      assert EqIgnoreCase(nl[|nl| - |pl|..][i], pl[i]);
      SameTextTransitive(nl[i + 1], pl[i], cl[i + 1]);
    }
    SameTextSameLabels(parent, cp);
  }

  /** The names below the wildcard would be too long to be DNS names. */
  predicate StandsForNothing(pattern: DnsPattern) {
    pattern.Wildcard? && |pattern.InnerName()| > 251
  }

  lemma ParentIsShorter(name: DnsName)
    requires Parent(name).Some?
    ensures |name| >= |Parent(name).value| + 2
  {
    ParentMeaning(name);
    var labels := Split(name, '.');
    assert IsLabel(labels[0]);
  }

  /** A pattern matches some name exactly if its names are not too long. */
  lemma PatternHasNames(pattern: DnsPattern) returns (name: DnsName)
    ensures pattern.Matches(name) <==> !StandsForNothing(pattern)
    ensures forall other: DnsName | StandsForNothing(pattern) :: !pattern.Matches(other)
  {
    hide Split, Parent;
    var inner := pattern.InnerName();
    if StandsForNothing(pattern) {
      forall other: DnsName ensures !pattern.Matches(other) {
        if Parent(other).Some? {
          ParentIsShorter(other);
        }
      }
      name := inner;
    } else if pattern.Exact? {
      name := inner;
    } else {
      name := ChildOf("a", inner);
    }
  }

  /** Matching the inner name is exactly matching every name of the pattern, whenever it has names. */
  lemma InnerNameMatchIsExact(constraint: DnsName, pattern: DnsPattern)
    ensures ConstraintMatches(constraint, pattern.InnerName()) || StandsForNothing(pattern) <==>
            forall name: DnsName | pattern.Matches(name) :: ConstraintMatches(constraint, name)
  {
    hide Split, ConstraintMatches;
    var inner := pattern.InnerName();
    var some := PatternHasNames(pattern);
    if ConstraintMatches(constraint, inner) {
      forall name: DnsName | pattern.Matches(name) ensures ConstraintMatches(constraint, name) {
        WildcardCovered(constraint, pattern, name);
      }
    } else if !StandsForNothing(pattern) {
      var other := NameOutside(constraint, pattern);
    }
  }

  /** A constraint that misses the inner name misses some name of the pattern. */
  lemma NameOutside(constraint: DnsName, pattern: DnsPattern) returns (name: DnsName)
    requires !ConstraintMatches(constraint, pattern.InnerName()) && !StandsForNothing(pattern)
    ensures pattern.Matches(name) && !ConstraintMatches(constraint, name)
  {
    hide Split, ConstraintMatches;
    name := pattern.InnerName();
    if pattern.Wildcard? {
      var a := ChildOf("a", pattern.InnerName());
      var b := ChildOf("b", pattern.InnerName());
      assert Lower(a[0]) != Lower(b[0]);
      name := a;
      if ConstraintMatches(constraint, a) {
        LongConstraint(constraint, pattern, a);
        assert Lower(constraint[0]) == Lower(a[0]);
        name := b;
        if ConstraintMatches(constraint, b) {
          LongConstraint(constraint, pattern, b);
          assert false;
        }
      }
    }
  }

  /** A name below a wildcard has one label more than the inner name, so as a constraint it cannot match that. */
  lemma ChildMissesInner(constraint: DnsName, pattern: DnsPattern)
    requires pattern.Wildcard? && pattern.Matches(constraint)
    ensures !ConstraintMatches(constraint, pattern.InnerName())
  {
    hide Split, ConstraintMatches, EqIgnoreCase, Parent;
    PatternNames(pattern, constraint);
    ConstraintMatchesMeaning(constraint, pattern.InnerName());
    SuffixIsShorter(constraint, pattern.InnerName());
  }

  /** Some name the pattern stands for lies in the subtree. */
  ghost predicate MeetsSubtree(constraint: DnsName, pattern: DnsPattern) {
    exists name: DnsName :: pattern.Matches(name) && ConstraintMatches(constraint, name)
  }

  /** A subtree meets the names of a pattern exactly when it holds the inner name or roots at one of them. */
  lemma PatternMeetsSubtree(constraint: DnsName, pattern: DnsPattern)
    ensures MeetsSubtree(constraint, pattern) <==>
            || (ConstraintMatches(constraint, pattern.InnerName()) && !StandsForNothing(pattern))
            || pattern.Matches(constraint)
  {
    hide Split, ConstraintMatches, Parent;
    ConstraintMatchesMeaning(constraint, constraint);
    var some := PatternHasNames(pattern);
    if ConstraintMatches(constraint, pattern.InnerName()) && !StandsForNothing(pattern) {
      WildcardCovered(constraint, pattern, some);
    }
    if name: DnsName :| pattern.Matches(name) && ConstraintMatches(constraint, name) {
      if !ConstraintMatches(constraint, pattern.InnerName()) {
        LongConstraint(constraint, pattern, name);
      }
    }
  }

  /** The verdict on the inner name is the verdict on the pattern's names, except for a subtree rooted at one of
      them, which is missed, and for a wildcard that has no names. */
  lemma ExclusionIsExact(constraint: DnsName, pattern: DnsPattern)
    ensures (ConstraintMatches(constraint, pattern.InnerName()) <==> MeetsSubtree(constraint, pattern)) <==>
            && !(pattern.Wildcard? && pattern.Matches(constraint))
            && !(StandsForNothing(pattern) && ConstraintMatches(constraint, pattern.InnerName()))
  {
    hide Split, ConstraintMatches, Parent, MeetsSubtree, EqIgnoreCase;
    PatternMeetsSubtree(constraint, pattern);
    var some := PatternHasNames(pattern);
    if pattern.Wildcard? && pattern.Matches(constraint) {
      ChildMissesInner(constraint, pattern);
    }
    if pattern.Exact? {
      ExactMatchIsCovered(constraint, pattern);
    }
  }

  lemma ExactMatchIsCovered(constraint: DnsName, pattern: DnsPattern)
    requires pattern.Exact?
    ensures pattern.Matches(constraint) ==> ConstraintMatches(constraint, pattern.InnerName())
  {
    hide Split, ConstraintMatches;
    ConstraintMatchesMeaning(constraint, pattern.InnerName());
  }

  // ---------------------------------------------------------------- names and case, as text

  /** An ASCII letter or digit, by its code. */
  predicate IsLetterOrDigit(c: char) {
    48 <= c as int <= 57 || 65 <= c as int <= 90 || 97 <= c as int <= 122
  }

  /** Letters, digits, hyphens and dots, every dot and both ends next to letters or digits, and a dot in any 64
      characters. */
  ghost predicate LabelText(v: string) {
    && v != "" && IsLetterOrDigit(v[0]) && IsLetterOrDigit(v[|v| - 1])
    && (forall i | 0 <= i < |v| :: IsLetterOrDigit(v[i]) || v[i] == '-' || v[i] == '.')
    && (forall i | 0 <= i < |v| && v[i] == '.' :: i + 1 < |v| && IsLetterOrDigit(v[i + 1]))
    && (forall i | 0 < i < |v| && v[i] == '.' :: IsLetterOrDigit(v[i - 1]))
    && forall i | 0 <= i <= |v| - 64 :: HasDot(v, i)
  }

  ghost predicate HasDot(v: string, i: nat)
    requires i + 64 <= |v|
  {
    exists j :: i <= j < i + 64 && v[j] == '.'
  }

  lemma OneLabelText(v: string)
    requires '.' !in v
    ensures IsLabel(v) <==> LabelText(v)
  {
    assert forall i | 0 <= i < |v| :: v[i] in v && v[i] != '.';
    if |v| >= 64 {
      assert !HasDot(v, 0);
    }
  }

  lemma LabelTextFront(front: string, back: string)
    requires LabelText(front + "." + back)
    ensures LabelText(front)
  {
    var v, n := front + "." + back, |front|;
    assert v[n] == '.' && IsLetterOrDigit(v[0]);
    assert n > 0 && IsLetterOrDigit(v[n - 1]);
    assert forall i | 0 <= i < n :: front[i] == v[i];
    forall i | 0 <= i < n && front[i] == '.' ensures i + 1 < n && IsLetterOrDigit(front[i + 1]) {
      assert v[i] == '.' && IsLetterOrDigit(v[i + 1]);
    }
    forall i | 0 < i < n && front[i] == '.' ensures IsLetterOrDigit(front[i - 1]) {
      assert v[i] == '.' && IsLetterOrDigit(v[i - 1]);
    }
    forall i | 0 <= i <= n - 64 ensures HasDot(front, i) {
      assert HasDot(v, i);
    }
  }

  lemma LabelTextBack(front: string, back: string)
    requires LabelText(front + "." + back)
    ensures LabelText(back)
  {
    hide HasDot, IsLetterOrDigit;
    var v, n := front + "." + back, |front|;
    assert v[n] == '.' && n + 1 < |v| && v[n + 1] == back[0] && v[|v| - 1] == back[|back| - 1];
    forall i | 0 <= i < |back| ensures NeighboursOk(back, i) {
      assert NeighboursOk(v, n + 1 + i);
    }
    forall i | 0 <= i <= |back| - 64 ensures HasDot(back, i) {
      assert HasDot(v, n + 1 + i);
      DotBack(front + ".", back, i);
    }
    LabelTextOf(back);
  }

  /** A letter, digit or hyphen, or a dot between letters or digits. */
  predicate NeighboursOk(v: string, i: nat)
    requires i < |v|
  {
    if v[i] == '.' then
      i + 1 < |v| && IsLetterOrDigit(v[i + 1]) && (i > 0 ==> IsLetterOrDigit(v[i - 1]))
    else IsLetterOrDigit(v[i]) || v[i] == '-'
  }

  lemma LabelTextOf(v: string)
    requires v != "" && IsLetterOrDigit(v[0]) && IsLetterOrDigit(v[|v| - 1])
    requires forall i | 0 <= i < |v| :: NeighboursOk(v, i)
    requires forall i | 0 <= i <= |v| - 64 :: HasDot(v, i)
    ensures LabelText(v)
  {
    hide HasDot, IsLetterOrDigit;
    forall i | 0 <= i < |v| ensures IsLetterOrDigit(v[i]) || v[i] == '-' || v[i] == '.' {
      assert NeighboursOk(v, i);
    }
    forall i | 0 <= i < |v| && v[i] == '.' ensures i + 1 < |v| && IsLetterOrDigit(v[i + 1]) {
      assert NeighboursOk(v, i);
    }
    forall i | 0 < i < |v| && v[i] == '.' ensures IsLetterOrDigit(v[i - 1]) {
      assert NeighboursOk(v, i);
    }
  }

  lemma DotBack(front: string, back: string, i: nat)
    requires i + 64 <= |back| && HasDot(front + back, |front| + i)
    ensures HasDot(back, i)
  {
    var v, n := front + back, |front|;
    var j :| n + i <= j < n + i + 64 && v[j] == '.';
    assert back[j - n] == '.';
  }

  lemma LabelTextJoin(front: string, back: string)
    requires LabelText(front) && LabelText(back)
    ensures LabelText(front + "." + back)
  {
    var v, n := front + "." + back, |front|;
    assert forall i | 0 <= i < n :: v[i] == front[i];
    assert v[n] == '.';
    assert forall i | n < i < |v| :: v[i] == back[i - n - 1];
    forall i | 0 <= i <= |v| - 64 ensures HasDot(v, i) {
      if i + 64 <= n {
        assert HasDot(front, i);
        var j :| i <= j < i + 64 && front[j] == '.';
        assert v[j] == '.';
      } else if i <= n {
        assert v[n] == '.';
      } else {
        assert HasDot(back, i - n - 1);
        var j :| i - n - 1 <= j < i - n - 1 + 64 && back[j] == '.';
        assert v[j + n + 1] == '.';
      }
    }
  }

  lemma {:induction false} LabelsAreText(v: string)
    ensures AreLabels(Split(v, '.')) <==> LabelText(v)
    decreases |v|
  {
    SplitOnceIsFirstCut(v, '.');
    if SplitOnce(v, '.').None? {
      SplitOnceIsAbsent(v, '.');
      LabelIsOnePiece(v);
      OneLabelText(v);
      FirstAndRest(v, []);
      assert [v] + [] == [v];
    } else {
      var (front, back) := SplitOnce(v, '.').value;
      SplitOnceFrontIsPlain(v, '.');
      LabelsAreText(back);
      OneLabelText(front);
      FirstAndRest(front, Split(back, '.'));
      hide LabelText;
      if LabelText(v) {
        LabelTextFront(front, back);
        LabelTextBack(front, back);
      }
      if LabelText(front) && LabelText(back) {
        LabelTextJoin(front, back);
      }
    }
  }

  lemma FirstAndRest(first: string, rest: seq<string>)
    ensures AreLabels([first] + rest) <==> IsLabel(first) && AreLabels(rest)
  {
    hide IsLabel;
    var all := [first] + rest;
    if AreLabels(all) {
      assert all[0] == first;
      forall i | 0 <= i < |rest| ensures IsLabel(rest[i]) {
        assert all[i + 1] == rest[i];
      }
    }
  }

  lemma {:induction false} SplitOnceIsAbsent(s: string, sep: char)
    ensures SplitOnce(s, sep).None? <==> sep !in s
  {
    if s != "" && s[0] != sep {
      SplitOnceIsAbsent(s[1..], sep);
    }
  }

  lemma {:induction false} SplitOnceFrontIsPlain(s: string, sep: char)
    requires SplitOnce(s, sep).Some?
    ensures sep !in SplitOnce(s, sep).value.0
  {
    if s[0] != sep {
      SplitOnceFrontIsPlain(s[1..], sep);
    }
  }

  lemma {:induction false} SplitOnceAt(front: string, back: string, sep: char)
    requires sep !in front
    ensures SplitOnce(front + [sep] + back, sep) == Some((front, back))
  {
    var s := front + [sep] + back;
    if front == "" {
      assert s[1..] == back;
    } else {
      assert front[0] in front;
      assert s[1..] == front[1..] + [sep] + back;
      SplitOnceAt(front[1..], back, sep);
      assert [front[0]] + front[1..] == front;
    }
  }

  /** Which texts are DNS names, without splitting them. */
  lemma DnsNameMeaning(v: string)
    ensures IsDnsName(v) <==> |v| <= 253 && LabelText(v)
  {
    LabelsAreText(v);
  }

  /** Two texts are equal up to case when each two characters are equal or one letter in two cases. */
  lemma CaseMeaning(a: string, b: string)
    ensures EqIgnoreCase(a, b) <==>
            |a| == |b| && forall i | 0 <= i < |a| :: a[i] == b[i] || TwoCases(a[i], b[i]) || TwoCases(b[i], a[i])
  {
    forall c: char, d: char ensures Lower(c) == Lower(d) <==> c == d || TwoCases(c, d) || TwoCases(d, c) {
      LowerMeaning(c, d);
    }
  }

  /** An ASCII upper-case letter and the same letter in lower case. */
  predicate TwoCases(upper: char, lower: char) {
    65 <= upper as int <= 90 && lower as int == upper as int + 32
  }

  lemma LowerMeaning(c: char, d: char)
    ensures Lower(c) == Lower(d) <==> c == d || TwoCases(c, d) || TwoCases(d, c)
  {
  }

  /** A pattern is a name, or an asterisk, a dot and a name. */
  lemma PatternForms(pat: string, name: DnsName)
    ensures NewDnsPattern(pat) == Some(Wildcard(name)) <==> pat == "*." + name
    ensures NewDnsPattern(pat) == Some(Exact(name)) <==> pat == name
  {
    hide LabelText, Split;
    DnsNameMeaning(name);
    NoAsterisk(name);
    if pat == "*." + name {
      assert pat[2..] == name;
    }
    if "*." <= pat {
      assert pat == "*." + pat[2..];
    }
  }

  lemma NoAsterisk(name: string)
    requires LabelText(name)
    ensures !("*." <= name)
  {
  }

  /** A pattern matches exactly the names that end in the inner name, one label below it for a wildcard. */
  lemma PatternMatchesMeaning(pattern: DnsPattern, name: DnsName)
    ensures pattern.Matches(name) <==>
            && LabelSuffix(pattern.InnerName(), name)
            && |Split(name, '.')| == |Split(pattern.InnerName(), '.')| + if pattern.Wildcard? then 1 else 0
  {
    var inner := pattern.InnerName();
    if pattern.Matches(name) {
      PatternNames(pattern, name);
    } else if LabelSuffix(inner, name) {
      hide EqIgnoreCase, Split, Parent;
      if pattern.Exact? && |Split(name, '.')| == |Split(inner, '.')| {
        SameLengthSuffix(inner, name);
        SameTextTransitive(name, inner, inner);
      }
      if pattern.Wildcard? && |Split(name, '.')| == |Split(inner, '.')| + 1 {
        EveryTextIsItself(name);
        SameTextSameLabels(name, name);
        SameTailParent(name, name, inner);
      }
    }
  }

  lemma EveryTextIsItself(a: string)
    ensures EqIgnoreCase(a, a)
  {
  }
}
