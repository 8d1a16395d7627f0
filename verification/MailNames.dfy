/** Mailbox names (RFC 822 section 6.1, RFC 2821 section 4.1.2) and constraints on them. */
module MailNames {
  import opened Common
  import opened DomainNames

  const ATEXT_CHARS := "!#$%&'*+-/=?^_`{|}~"

  predicate IsAtom(text: string) {
    text != "" && forall i | 0 <= i < |text| :: IsAlphanumeric(text[i]) || text[i] in ATEXT_CHARS
  }

  datatype MailName = MailName(mailbox: string, domain: DnsName)

  function NewMailName(value: string): Option<MailName> {
    match SplitOnce(value, '@')
    case None => None
    case Some((local, domain)) =>
      var atoms := Split(local, '.');
      if exists i | 0 <= i < |atoms| :: !IsAtom(atoms[i]) then None
      else
        match NewDnsName(domain)
        case Some(name) => Some(MailName(local, name))
        case None => None
  }

  datatype MailConstraint =
    | ExactMailbox(mail: MailName)
    | OnDomain(domain: DnsName)
    | InDomain(domain: DnsName)
  {
    predicate Matches(email: MailName) {
      match this
      case ExactMailbox(pat) => pat.mailbox == email.mailbox && EqIgnoreCase(pat.domain, email.domain)
      case OnDomain(pat) => EqIgnoreCase(email.domain, pat)
      case InDomain(pat) => IsSubdomainOf(email.domain, pat)
    }
  }

  function NewMailConstraint(text: string): Option<MailConstraint> {
    if "." <= text then
      match NewDnsName(text[1..])
      case Some(name) => Some(InDomain(name))
      case None => None
    else
      match NewMailName(text)
      case Some(mail) => Some(ExactMailbox(mail))
      case None =>
        match NewDnsName(text)
        case Some(name) => Some(OnDomain(name))
        case None => None
  }

  lemma {:induction false} SplitKeepsChars(s: string, sep: char, c: char)
    requires c in s && c != sep
    ensures exists i :: 0 <= i < |Split(s, sep)| && c in Split(s, sep)[i]
  {
    var parts := Split(s, sep);
    if s[0] == c {
      assert c in parts[0];
    } else {
      SplitKeepsChars(s[1..], sep, c);
      var rest := Split(s[1..], sep);
      var i :| 0 <= i < |rest| && c in rest[i];
      var k := if s[0] == sep then i + 1 else i;
      assert c in parts[k];
    }
  }

  lemma DnsNameHasNoAt(name: DnsName)
    ensures '@' !in name
  {
    if '@' in name {
      SplitKeepsChars(name, '.', '@');
      assert false;
    }
  }

  /** A constraint text has at most one reading, told by its first character and by '@'. */
  lemma ConstraintForms(text: string)
    ensures var r := NewMailConstraint(text);
            && (r.Some? && r.value.ExactMailbox? <==> text != "" && text[0] != '.' && NewMailName(text).Some?)
            && (r.Some? && r.value.OnDomain? <==> IsDnsName(text))
            && (r.Some? && r.value.InDomain? <==> text != "" && text[0] == '.' && IsDnsName(text[1..]))
            && (r.Some? && r.value.ExactMailbox? ==> '@' in text)
  {
    SplitOnceIsAbsent(text, '@');
    if IsDnsName(text) {
      DnsNameHasNoAt(text);
      SplitOnceIsFirstCut(text, '.');
      assert IsLabel(Split(text, '.')[0]);
    }
  }

  /** The two domain forms split the mailboxes a DNS constraint on that domain would accept. */
  lemma DomainFormsPartition(domain: DnsName, email: MailName)
    ensures ConstraintMatches(domain, email.domain) <==>
            OnDomain(domain).Matches(email) || InDomain(domain).Matches(email)
    ensures !(OnDomain(domain).Matches(email) && InDomain(domain).Matches(email))
  {
    ConstraintMatchesMeaning(domain, email.domain);
    SubdomainMeaning(email.domain, domain);
  }

  // ---------------------------------------------------------------- mailboxes as text

  /** `atext` of RFC 5322 section 3.2.3, by code. */
  predicate IsAtext(c: char) {
    var n := c as int;
    || IsLetterOrDigit(c)
    || n == 33 || 35 <= n <= 39 || n == 42 || n == 43 || n == 45 || n == 47 || n == 61 || n == 63
    || 94 <= n <= 96 || 123 <= n <= 126
  }

  /** `dot-atom-text`: no dot at either end, and no two dots in a row. */
  ghost predicate DotAtom(s: string) {
    && s != "" && IsAtext(s[0]) && IsAtext(s[|s| - 1])
    && (forall i | 0 <= i < |s| :: IsAtext(s[i]) || s[i] == '.')
    && forall i | 0 <= i < |s| - 1 && s[i] == '.' :: s[i + 1] != '.'
  }

  lemma AtextMeaning(c: char)
    ensures IsAtext(c) <==> IsAlphanumeric(c) || c in ATEXT_CHARS
  {
  }

  predicate AreAtoms(atoms: seq<string>) {
    forall i | 0 <= i < |atoms| :: IsAtom(atoms[i])
  }

  lemma OneAtom(s: string)
    requires '.' !in s
    ensures IsAtom(s) <==> DotAtom(s)
  {
    hide IsAtext;
    forall c ensures IsAtext(c) <==> IsAlphanumeric(c) || c in ATEXT_CHARS {
      AtextMeaning(c);
    }
    assert forall i | 0 <= i < |s| :: s[i] in s && s[i] != '.';
  }

  lemma DotIsNoAtext()
    ensures !IsAtext('.') && !IsAtext('@')
  {
  }

  lemma DotAtomCut(front: string, back: string)
    ensures DotAtom(front + "." + back) <==> DotAtom(front) && DotAtom(back)
  {
    DotIsNoAtext();
    hide IsAtext;
    var v, n := front + "." + back, |front|;
    assert v[n] == '.';
    assert forall i | 0 <= i < n :: v[i] == front[i];
    assert forall i | n < i < |v| :: v[i] == back[i - n - 1];
    if DotAtom(v) {
      assert n > 0 && v[n - 1] != '.' && n + 1 < |v| && v[n + 1] != '.';
      forall i | 0 <= i < |back| ensures IsAtext(back[i]) || back[i] == '.' {
        assert v[n + 1 + i] == back[i];
      }
      forall i | 0 <= i < |back| - 1 && back[i] == '.' ensures back[i + 1] != '.' {
        assert v[n + 1 + i] == '.' && v[n + 1 + i + 1] == back[i + 1];
      }
    }
  }

  lemma {:induction false} AtomsAreText(s: string)
    ensures AreAtoms(Split(s, '.')) <==> DotAtom(s)
    decreases |s|
  {
    SplitOnceIsFirstCut(s, '.');
    SplitOnceIsAbsent(s, '.');
    if SplitOnce(s, '.').None? {
      LabelIsOnePiece(s);
      OneAtom(s);
      AtomAndRest(s, []);
      assert [s] + [] == [s];
    } else {
      var (front, back) := SplitOnce(s, '.').value;
      SplitOnceFrontIsPlain(s, '.');
      AtomsAreText(back);
      OneAtom(front);
      AtomAndRest(front, Split(back, '.'));
      DotAtomCut(front, back);
    }
  }

  lemma AtomAndRest(first: string, rest: seq<string>)
    ensures AreAtoms([first] + rest) <==> IsAtom(first) && AreAtoms(rest)
  {
    hide IsAtom;
    var all := [first] + rest;
    if AreAtoms(all) {
      assert all[0] == first;
      forall i | 0 <= i < |rest| ensures IsAtom(rest[i]) {
        assert all[i + 1] == rest[i];
      }
    }
  }

  /** A mailbox name is a dot-atom, an `@` and a DNS name, and nothing else. */
  lemma MailNameMeaning(value: string, mail: MailName)
    ensures NewMailName(value) == Some(mail) <==> DotAtom(mail.mailbox) && value == mail.mailbox + "@" + mail.domain
  {
    hide DotAtom, IsAtom, IsDnsName, SplitOnce, Split;
    SplitOnceIsFirstCut(value, '@');
    if SplitOnce(value, '@').Some? {
      AtomsAreText(SplitOnce(value, '@').value.0);
    }
    if DotAtom(mail.mailbox) && value == mail.mailbox + "@" + mail.domain {
      DotAtomHasNoAt(mail.mailbox);
      SplitOnceAt(mail.mailbox, mail.domain, '@');
      AtomsAreText(mail.mailbox);
    }
  }

  lemma DotAtomHasNoAt(s: string)
    requires DotAtom(s)
    ensures '@' !in s
  {
    DotIsNoAtext();
    hide IsAtext;
  }
}
