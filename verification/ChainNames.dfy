/** What the name constraints of a verified chain mean for the names its members stand for. */
module ChainNames {
  import opened Common
  import opened Certificates
  import opened NameConstraintEvaluation
  import opened ChainBuilding
  import opened ChainSearch
  import opened ChainGuarantees
  import DomainNames
  import IpConstraints
  import MailNames

  function Permitted(nc: NameConstraints): seq<GeneralName> {
    Subtrees(nc.permittedSubtrees)
  }

  function Excluded(nc: NameConstraints): seq<GeneralName> {
    Subtrees(nc.excludedSubtrees)
  }

  /** The subtree is of another kind than the name. */
  predicate Skips(subtree: GeneralName, san: GeneralName) {
    CheckPair(subtree, san) == Ok(Skipped)
  }

  /** An accepted name with permitted subtrees of its kind matches one of them. */
  lemma SomePermittedMatches(nc: NameConstraints, san: GeneralName, k: nat) returns (m: nat)
    requires Accepts(nc, san) && k < |Permitted(nc)| && !Skips(Permitted(nc)[k], san)
    ensures m < |Permitted(nc)| && PairMatches(Permitted(nc)[m], san)
  {
    hide CheckPair;
    var ps := Permitted(nc);
    if PairFails(ps[k], san) {
      assert MatchBelow(ps, san, k);
      m :| 0 <= m < k && PairMatches(ps[m], san);
    } else {
      assert PairApplies(ps[k], san);
      m :| 0 <= m < |ps| && PairMatches(ps[m], san);
    }
  }

  lemma NoExcludedMatches(nc: NameConstraints, san: GeneralName, k: nat)
    requires Accepts(nc, san) && k < |Excluded(nc)|
    ensures !PairFails(Excluded(nc)[k], san) && !PairMatches(Excluded(nc)[k], san)
  {
    hide CheckPair;
  }

  // ---------------------------------------------------------------- DNS names

  predicate HasDns(subtrees: seq<GeneralName>) {
    exists k :: 0 <= k < |subtrees| && subtrees[k].DNSName?
  }

  ghost predicate UnderSomeDns(subtrees: seq<GeneralName>, name: DomainNames.DnsName) {
    exists k :: 0 <= k < |subtrees| && subtrees[k].DNSName? && DomainNames.LabelSuffix(subtrees[k].dns, name)
  }

  /** Every name an accepted pattern stands for is under a permitted DNS subtree, if there are any, and under no
      excluded one, unless that one is itself a name below the wildcard. */
  lemma DnsNamesObey(nc: NameConstraints, text: string, pattern: DomainNames.DnsPattern, name: DomainNames.DnsName)
    requires Accepts(nc, DNSName(text))
    requires DomainNames.NewDnsPattern(text) == Some(pattern) && pattern.Matches(name)
    ensures HasDns(Permitted(nc)) ==> UnderSomeDns(Permitted(nc), name)
    ensures forall k | 0 <= k < |Excluded(nc)| && Excluded(nc)[k].DNSName? ::
              var c := Excluded(nc)[k].dns;
              && DomainNames.IsDnsName(c)
              && (DomainNames.LabelSuffix(c, name) ==> pattern.Wildcard? && pattern.Matches(c))
  {
    hide DomainNames.LabelSuffix, DomainNames.ConstraintMatches, Accepts, DomainNames.DnsPattern.Matches;
    hide DomainNames.IsDnsName;
    if k :| 0 <= k < |Permitted(nc)| && Permitted(nc)[k].DNSName? {
      var m := SomePermittedMatches(nc, DNSName(text), k);
      MatchedDns(Permitted(nc)[m], text, pattern, name);
    }
    forall k | 0 <= k < |Excluded(nc)| && Excluded(nc)[k].DNSName?
      ensures var c := Excluded(nc)[k].dns;
              && DomainNames.IsDnsName(c)
              && (DomainNames.LabelSuffix(c, name) ==> pattern.Wildcard? && pattern.Matches(c))
    {
      NoExcludedMatches(nc, DNSName(text), k);
      MissedDns(Excluded(nc)[k], text, pattern, name);
    }
  }

  lemma MatchedDns(subtree: GeneralName, text: string, pattern: DomainNames.DnsPattern, name: DomainNames.DnsName)
    requires PairMatches(subtree, DNSName(text))
    requires DomainNames.NewDnsPattern(text) == Some(pattern) && pattern.Matches(name)
    ensures subtree.DNSName? && DomainNames.LabelSuffix(subtree.dns, name)
  {
    hide DomainNames.LabelSuffix, DomainNames.ConstraintMatches, DomainNames.DnsPattern.Matches;
    DomainNames.WildcardCovered(subtree.dns, pattern, name);
    DomainNames.ConstraintMatchesMeaning(subtree.dns, name);
  }

  lemma MissedDns(subtree: GeneralName, text: string, pattern: DomainNames.DnsPattern, name: DomainNames.DnsName)
    requires subtree.DNSName? && !PairFails(subtree, DNSName(text)) && !PairMatches(subtree, DNSName(text))
    requires DomainNames.NewDnsPattern(text) == Some(pattern) && pattern.Matches(name)
    ensures DomainNames.IsDnsName(subtree.dns)
    ensures DomainNames.LabelSuffix(subtree.dns, name) ==> pattern.Wildcard? && pattern.Matches(subtree.dns)
  {
    hide DomainNames.LabelSuffix, DomainNames.ConstraintMatches, DomainNames.DnsPattern.Matches;
    if DomainNames.LabelSuffix(subtree.dns, name) {
      DomainNames.ConstraintMatchesMeaning(subtree.dns, name);
      DomainNames.LongConstraint(subtree.dns, pattern, name);
    }
  }

  // ---------------------------------------------------------------- IP addresses

  predicate HasIp(subtrees: seq<GeneralName>) {
    exists k :: 0 <= k < |subtrees| && subtrees[k].IPAddress?
  }

  /** One family, and `addr & mask == net & mask`, octet by octet. */
  predicate InNetwork(b: seq<byte>, octets: seq<byte>) {
    && (|octets| == 4 || |octets| == 16) && |b| == 2 * |octets|
    && IpConstraints.SameUnder(octets, b[..|octets|], b[|octets|..])
  }

  ghost predicate InSomeNetwork(subtrees: seq<GeneralName>, octets: seq<byte>) {
    exists k :: 0 <= k < |subtrees| && subtrees[k].IPAddress? && InNetwork(subtrees[k].octets, octets)
  }

  /** An accepted address is in a permitted network, if there are any, and in no excluded one. */
  lemma IpAddressesObey(nc: NameConstraints, octets: seq<byte>)
    requires Accepts(nc, IPAddress(octets))
    ensures HasIp(Permitted(nc)) ==> InSomeNetwork(Permitted(nc), octets)
    ensures forall k | 0 <= k < |Excluded(nc)| && Excluded(nc)[k].IPAddress? ::
              !InNetwork(Excluded(nc)[k].octets, octets)
  {
    hide InNetwork, Accepts;
    if k :| 0 <= k < |Permitted(nc)| && Permitted(nc)[k].IPAddress? {
      KindsDecide(Permitted(nc)[k], IPAddress(octets));
      var m := SomePermittedMatches(nc, IPAddress(octets), k);
      NetworkMeaning(Permitted(nc)[m], octets);
    }
    forall k | 0 <= k < |Excluded(nc)| && Excluded(nc)[k].IPAddress?
      ensures !InNetwork(Excluded(nc)[k].octets, octets)
    {
      NoExcludedMatches(nc, IPAddress(octets), k);
      NetworkMeaning(Excluded(nc)[k], octets);
    }
  }

  lemma NetworkMeaning(subtree: GeneralName, octets: seq<byte>)
    requires !PairFails(subtree, IPAddress(octets))
    ensures PairMatches(subtree, IPAddress(octets)) <==> subtree.IPAddress? && InNetwork(subtree.octets, octets)
  {
    hide CheckPair, IpConstraints.ConstraintFromBytes;
    KindsDecide(subtree, IPAddress(octets));
    if subtree.IPAddress? {
      IpVerdicts(subtree.octets, octets);
    }
  }

  // ---------------------------------------------------------------- mailboxes

  predicate HasMail(subtrees: seq<GeneralName>) {
    exists k :: 0 <= k < |subtrees| && subtrees[k].RFC822Name?
  }

  /** A text with a leading dot covers the hosts below it, one with `@` a single mailbox, any other one host. */
  ghost predicate CoversMail(c: string, email: MailNames.MailName) {
    if "." <= c then
      DomainNames.IsDnsName(c[1..]) && DomainNames.ProperTextSuffix(c[1..], email.domain)
    else if '@' in c then
      MailNames.NewMailName(c).Some? &&
      var pat := MailNames.NewMailName(c).value;
      pat.mailbox == email.mailbox && DomainNames.EqIgnoreCase(pat.domain, email.domain)
    else DomainNames.IsDnsName(c) && DomainNames.EqIgnoreCase(email.domain, c)
  }

  ghost predicate UnderSomeMail(subtrees: seq<GeneralName>, email: MailNames.MailName) {
    exists k :: 0 <= k < |subtrees| && subtrees[k].RFC822Name? && CoversMail(subtrees[k].mail, email)
  }

  /** An accepted mailbox is covered by a permitted subtree, if there are any, and by no excluded one. */
  lemma MailboxesObey(nc: NameConstraints, text: string, email: MailNames.MailName)
    requires Accepts(nc, RFC822Name(text)) && MailNames.NewMailName(text) == Some(email)
    ensures HasMail(Permitted(nc)) ==> UnderSomeMail(Permitted(nc), email)
    ensures forall k | 0 <= k < |Excluded(nc)| && Excluded(nc)[k].RFC822Name? ::
              !CoversMail(Excluded(nc)[k].mail, email)
  {
    hide CoversMail, Accepts;
    if k :| 0 <= k < |Permitted(nc)| && Permitted(nc)[k].RFC822Name? {
      var m := SomePermittedMatches(nc, RFC822Name(text), k);
      MailMeaning(Permitted(nc)[m], text, email);
    }
    forall k | 0 <= k < |Excluded(nc)| && Excluded(nc)[k].RFC822Name?
      ensures !CoversMail(Excluded(nc)[k].mail, email)
    {
      NoExcludedMatches(nc, RFC822Name(text), k);
      MailMeaning(Excluded(nc)[k], text, email);
    }
  }

  lemma MailMeaning(subtree: GeneralName, text: string, email: MailNames.MailName)
    requires MailNames.NewMailName(text) == Some(email) && !PairFails(subtree, RFC822Name(text))
    ensures PairMatches(subtree, RFC822Name(text)) <==> subtree.RFC822Name? && CoversMail(subtree.mail, email)
  {
    hide DomainNames.IsDnsName, DomainNames.ProperTextSuffix, DomainNames.EqIgnoreCase, DomainNames.IsSubdomainOf;
    hide MailNames.NewMailName, DomainNames.SplitOnce;
    if subtree.RFC822Name? {
      var c := subtree.mail;
      MailNames.ConstraintForms(c);
      if "." <= c && DomainNames.IsDnsName(c[1..]) {
        DomainNames.SubdomainMeaning(email.domain, c[1..]);
      }
      if DomainNames.IsDnsName(c) {
        MailNames.DnsNameHasNoAt(c);
      }
    }
  }

  // ---------------------------------------------------------------- the other kinds

  /** A name of one of the six other kinds meets no subtree of its kind at all. */
  lemma OtherKindsAreAlone(nc: NameConstraints, san: GeneralName)
    requires Accepts(nc, san)
    ensures forall k | 0 <= k < |Permitted(nc)| :: !SameOtherKind(Permitted(nc)[k], san)
    ensures forall k | 0 <= k < |Excluded(nc)| :: !SameOtherKind(Excluded(nc)[k], san)
  {
    hide CheckPair, Accepts, SameOtherKind, SameKind;
    forall k | 0 <= k < |Permitted(nc)| ensures !SameOtherKind(Permitted(nc)[k], san) {
      KindsDecide(Permitted(nc)[k], san);
      if SameOtherKind(Permitted(nc)[k], san) {
        SameOtherIsSame(Permitted(nc)[k], san);
        var m := SomePermittedMatches(nc, san, k);
        KindsDecide(Permitted(nc)[m], san);
        NoneOfThisKindMatches(Permitted(nc)[k], Permitted(nc)[m], san);
      }
    }
    forall k | 0 <= k < |Excluded(nc)| ensures !SameOtherKind(Excluded(nc)[k], san) {
      KindsDecide(Excluded(nc)[k], san);
      NoExcludedMatches(nc, san, k);
    }
  }

  lemma SameOtherIsSame(a: GeneralName, b: GeneralName)
    requires SameOtherKind(a, b)
    ensures SameKind(a, b)
  {
  }

  lemma NoneOfThisKindMatches(a: GeneralName, m: GeneralName, san: GeneralName)
    requires SameOtherKind(a, san) && SameKind(m, san)
    ensures SameOtherKind(m, san)
  {
  }

  /** Subtrees of other kinds never stand in the way. */
  lemma ForeignSubtreesAccept(nc: NameConstraints, san: GeneralName)
    requires forall k | 0 <= k < |Permitted(nc)| :: !SameKind(Permitted(nc)[k], san)
    requires forall k | 0 <= k < |Excluded(nc)| :: !SameKind(Excluded(nc)[k], san)
    ensures Accepts(nc, san)
  {
    hide CheckPair, SameKind;
    var ps, es := Subtrees(nc.permittedSubtrees), Subtrees(nc.excludedSubtrees);
    forall k | 0 <= k < |ps| ensures !PairApplies(ps[k], san) && !PairFails(ps[k], san) {
      assert ps[k] == Permitted(nc)[k];
      KindsDecide(ps[k], san);
    }
    forall k | 0 <= k < |es| ensures !PairMatches(es[k], san) && !PairFails(es[k], san) {
      assert es[k] == Excluded(nc)[k];
      KindsDecide(es[k], san);
    }
  }

  // ---------------------------------------------------------------- chains

  /** One of the certificate's extensions is a subject alternative name with `san` among its names. */
  ghost predicate HasSan(cert: Certificate, san: GeneralName) {
    exists ext: Extension ::
      && cert.rawExtensions.Some? && ext in cert.rawExtensions.value
      && ext.extnId == SubjectAlternativeNameOid && ext.extnValue.Sans? && san in ext.extnValue.names
  }

  /** One of the certificate's extensions holds the name constraints. */
  ghost predicate HasConstraints(cert: Certificate, nc: NameConstraints) {
    exists ext: Extension ::
      && cert.rawExtensions.Some? && ext in cert.rawExtensions.value
      && ext.extnId == NameConstraintsOid && ext.extnValue == Constraints(nc)
  }

  lemma FoundIsListed(cert: Certificate, oid: Oid)
    requires ReadExtensions(cert).Ok?
    ensures var found := ReadExtensions(cert).value.GetExtension(oid);
            && (found.Some? ==> cert.rawExtensions.Some? && found.value in cert.rawExtensions.value
                                && found.value.extnId == oid)
            && (forall ext | cert.rawExtensions.Some? && ext in cert.rawExtensions.value && ext.extnId == oid ::
                  found == Some(ext))
  {
    ExtensionsAreDuplicateFree(cert);
    var raw := ReadExtensions(cert).value.raw;
    FoundHasOid(raw, oid);
    forall ext | ext in raw && ext.extnId == oid ensures Find(raw, oid) == Some(ext) {
      FindMeaning(raw, ext);
    }
  }

  lemma {:induction false} FoundHasOid(exts: seq<Extension>, oid: Oid)
    ensures var found := Find(exts, oid); found.Some? ==> found.value in exts && found.value.extnId == oid
  {
    if exts != [] {
      FoundHasOid(exts[1..], oid);
    }
  }

  /** The names a member contributes are those of its extension, and none for a self-issued member above the leaf. */
  lemma SansAtMeaning(path: Chain, i: nat, san: GeneralName)
    requires i < |path| && ReadExtensions(path[i]).Ok? && SansAt(path, i).Some?
    ensures san in SansAt(path, i).value <==>
            HasSan(path[i], san) && (i == 0 || path[i].issuer != path[i].subject)
  {
    hide ReadExtensions, Extensions.GetExtension;
    FoundIsListed(path[i], SubjectAlternativeNameOid);
  }

  /** The constraints a member carries are those of its extension. */
  lemma CarriedMeaning(path: Chain, j: nat, nc: NameConstraints)
    requires j < |path| && ReadExtensions(path[j]).Ok?
    ensures CarriedConstraints(ExtsAt(path, j)) == Ok(Some(nc)) <==> HasConstraints(path[j], nc)
  {
    hide ReadExtensions, Extensions.GetExtension;
    FoundIsListed(path[j], NameConstraintsOid);
  }

  /** The certificate carries an extension with this OID that decodes as something else, or as nothing. */
  ghost predicate Undecoded(cert: Certificate, oid: Oid) {
    && cert.rawExtensions.Some?
    && exists ext :: ext in cert.rawExtensions.value && ext.extnId == oid
                     && (if oid == SubjectAlternativeNameOid then !ext.extnValue.Sans? else !ext.extnValue.Constraints?)
  }

  /** Names and constraints are unreadable exactly if their extension does not decode; a self-issued member above the
      leaf is not asked for its names. */
  lemma UnreadableMeaning(path: Chain, i: nat)
    requires i < |path| && ReadExtensions(path[i]).Ok?
    ensures SansAt(path, i).None? <==>
            Undecoded(path[i], SubjectAlternativeNameOid) && (i == 0 || path[i].issuer != path[i].subject)
    ensures CarriedConstraints(ExtsAt(path, i)).Err? <==> Undecoded(path[i], NameConstraintsOid)
  {
    hide ReadExtensions, Extensions.GetExtension;
    FoundIsListed(path[i], SubjectAlternativeNameOid);
    FoundIsListed(path[i], NameConstraintsOid);
  }

  /** Member `i` of the chain `verify` returns has `san`, and member `j`, at or above it, carries `nc`; a self-issued
      member above the leaf is exempt. */
  ghost predicate Governs(b: ChainBuilder, leaf: Certificate, j: nat, nc: NameConstraints, i: nat, san: GeneralName) {
    && b.store.Valid() && VerifySpec(leaf, b).Ok?
    && var path := VerifySpec(leaf, b).value;
       && i <= j < |path| && HasConstraints(path[j], nc) && HasSan(path[i], san)
       && (i == 0 || path[i].issuer != path[i].subject)
  }

  lemma GovernedIsAccepted(b: ChainBuilder, leaf: Certificate, j: nat, nc: NameConstraints, i: nat, san: GeneralName)
    requires Governs(b, leaf, j, nc, i, san)
    ensures Accepts(nc, san)
  {
    hide Accepts, HasSan, HasConstraints, CarriedConstraints, SansAt, ConstraintsHold, Linked;
    VerifyIsSound(b, leaf);
    var path := VerifySpec(leaf, b).value;
    assert MemberOk(b, path, i) && MemberOk(b, path, j);
    SansAtMeaning(path, i, san);
    CarriedMeaning(path, j, nc);
    AdmissibleNames(b, leaf, path, j, i, san);
  }

  /** In a chain `verify` returns, a name of one of the six other kinds has no subtree of its own kind above it. */
  lemma VerifiedOtherNames(b: ChainBuilder, leaf: Certificate, j: nat, nc: NameConstraints, i: nat, san: GeneralName)
    requires Governs(b, leaf, j, nc, i, san)
    ensures forall p | p in Permitted(nc) + Excluded(nc) ::
              && (san.OtherName? ==> !p.OtherName?) && (san.X400Address? ==> !p.X400Address?)
              && (san.DirectoryName? ==> !p.DirectoryName?) && (san.EDIPartyName? ==> !p.EDIPartyName?)
              && (san.UniformResourceIdentifier? ==> !p.UniformResourceIdentifier?)
              && (san.RegisteredID? ==> !p.RegisteredID?)
  {
    hide Governs, Accepts;
    GovernedIsAccepted(b, leaf, j, nc, i, san);
    OtherKindsAreAlone(nc, san);
  }

  /** In a chain `verify` returns, every DNS name a member's pattern matches obeys the constraints above it. */
  lemma VerifiedDnsNames(b: ChainBuilder, leaf: Certificate, j: nat, nc: NameConstraints, i: nat, text: string,
                         pattern: DomainNames.DnsPattern, name: DomainNames.DnsName)
    requires Governs(b, leaf, j, nc, i, DNSName(text))
    requires DomainNames.NewDnsPattern(text) == Some(pattern) && pattern.Matches(name)
    ensures HasDns(Permitted(nc)) ==> UnderSomeDns(Permitted(nc), name)
    ensures forall k | 0 <= k < |Excluded(nc)| && Excluded(nc)[k].DNSName? ::
              DomainNames.LabelSuffix(Excluded(nc)[k].dns, name) ==>
              DomainNames.IsDnsName(Excluded(nc)[k].dns) && pattern.Wildcard? && pattern.Matches(Excluded(nc)[k].dns)
  {
    hide Governs, Accepts, UnderSomeDns, HasDns, DomainNames.LabelSuffix, DomainNames.DnsPattern.Matches;
    hide DomainNames.NewDnsPattern, DomainNames.IsDnsName;
    GovernedIsAccepted(b, leaf, j, nc, i, DNSName(text));
    DnsNamesObey(nc, text, pattern, name);
  }

  lemma VerifiedIpAddresses(b: ChainBuilder, leaf: Certificate, j: nat, nc: NameConstraints, i: nat,
                            octets: seq<byte>)
    requires Governs(b, leaf, j, nc, i, IPAddress(octets))
    ensures HasIp(Permitted(nc)) ==> InSomeNetwork(Permitted(nc), octets)
    ensures forall k | 0 <= k < |Excluded(nc)| && Excluded(nc)[k].IPAddress? ::
              !InNetwork(Excluded(nc)[k].octets, octets)
  {
    hide Governs, Accepts, InSomeNetwork, HasIp, InNetwork;
    GovernedIsAccepted(b, leaf, j, nc, i, IPAddress(octets));
    IpAddressesObey(nc, octets);
  }

  lemma VerifiedMailboxes(b: ChainBuilder, leaf: Certificate, j: nat, nc: NameConstraints, i: nat, text: string,
                          email: MailNames.MailName)
    requires Governs(b, leaf, j, nc, i, RFC822Name(text)) && MailNames.NewMailName(text) == Some(email)
    ensures HasMail(Permitted(nc)) ==> UnderSomeMail(Permitted(nc), email)
    ensures forall k | 0 <= k < |Excluded(nc)| && Excluded(nc)[k].RFC822Name? ::
              !CoversMail(Excluded(nc)[k].mail, email)
  {
    hide Governs, Accepts, UnderSomeMail, HasMail, CoversMail, MailNames.NewMailName;
    GovernedIsAccepted(b, leaf, j, nc, i, RFC822Name(text));
    MailboxesObey(nc, text, email);
  }

  /** A SAN that some DNS, IP or mail subtree is checked against can be read, so the laws above speak of it. */
  lemma VerifiedSansAreRead(b: ChainBuilder, leaf: Certificate, j: nat, nc: NameConstraints, i: nat, san: GeneralName)
    requires Governs(b, leaf, j, nc, i, san)
    ensures san.DNSName? && HasDns(Permitted(nc) + Excluded(nc)) ==> DomainNames.NewDnsPattern(san.dns).Some?
    ensures san.IPAddress? && HasIp(Permitted(nc) + Excluded(nc)) ==> |san.octets| == 4 || |san.octets| == 16
    ensures san.RFC822Name? && HasMail(Permitted(nc) + Excluded(nc)) ==> MailNames.NewMailName(san.mail).Some?
  {
    hide Governs, Accepts, CheckPair;
    hide DomainNames.NewDnsPattern, IpConstraints.IpFromBytes, MailNames.NewMailName;
    hide MailNames.NewMailConstraint, IpConstraints.ConstraintFromBytes, DomainNames.NewDnsName;
    GovernedIsAccepted(b, leaf, j, nc, i, san);
    var all := Permitted(nc) + Excluded(nc);
    if k :| 0 <= k < |all| && SameKind(all[k], san) {
      var m := k;
      KindsDecide(all[k], san);
      if k < |Permitted(nc)| {
        m := SomePermittedMatches(nc, san, k);
        assert all[m] == Permitted(nc)[m];
      } else {
        NoExcludedMatches(nc, san, k - |Permitted(nc)|);
      }
      KindsDecide(all[m], san);
      ReadableIfDecided(all[m], san);
    }
    assert forall k | 0 <= k < |all| && all[k].DNSName? && san.DNSName? :: SameKind(all[k], san);
    assert forall k | 0 <= k < |all| && all[k].IPAddress? && san.IPAddress? :: SameKind(all[k], san);
    assert forall k | 0 <= k < |all| && all[k].RFC822Name? && san.RFC822Name? :: SameKind(all[k], san);
  }

  lemma ReadableIfDecided(subtree: GeneralName, san: GeneralName)
    requires SameKind(subtree, san) && !PairFails(subtree, san)
    ensures san.DNSName? ==> DomainNames.NewDnsPattern(san.dns).Some?
    ensures san.IPAddress? ==> |san.octets| == 4 || |san.octets| == 16
    ensures san.RFC822Name? ==> MailNames.NewMailName(san.mail).Some?
  {
    hide CheckPair, DomainNames.NewDnsPattern, MailNames.NewMailName, MailNames.NewMailConstraint;
    hide IpConstraints.ConstraintFromBytes;
    if san.DNSName? {
      DnsVerdicts(subtree.dns, san.dns);
    } else if san.IPAddress? {
      IpVerdicts(subtree.octets, san.octets);
    } else if san.RFC822Name? {
      MailVerdicts(subtree.mail, san.mail);
    }
  }
}
