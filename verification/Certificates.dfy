/** Parsed certificates, their extensions and the trust store. DER decoding has already happened. */
module Certificates {
  import opened Common

  type Name = string

  datatype GeneralName =
    | OtherName(other: string)
    | RFC822Name(mail: string)
    | DNSName(dns: string)
    | X400Address(address: string)
    | DirectoryName(directory: Name)
    | EDIPartyName(party: string)
    | UniformResourceIdentifier(uri: string)
    | IPAddress(octets: seq<byte>)
    | RegisteredID(registered: string)

  /** The bases of the subtrees; RFC 5280 section 4.2.1.10 fixes minimum and maximum. */
  datatype NameConstraints =
    NameConstraints(permittedSubtrees: Option<seq<GeneralName>>, excludedSubtrees: Option<seq<GeneralName>>)

  datatype Oid = SubjectAlternativeNameOid | NameConstraintsOid | OtherOid(arcs: seq<nat>)

  /** What the value of an extension decodes as, if it decodes at all. */
  datatype ExtensionValue =
    | Sans(names: seq<GeneralName>)
    | Constraints(constraints: NameConstraints)
    | Undecodable(octets: seq<byte>)

  datatype Extension = Extension(extnId: Oid, critical: bool, extnValue: ExtensionValue)

  datatype Certificate =
    Certificate(tbs: seq<byte>, subject: Name, issuer: Name, rawExtensions: Option<seq<Extension>>)
  {
    predicate IsSelfIssued() {
      issuer == subject
    }
  }

  // ---------------------------------------------------------------- extensions

  /** A duplicate-free list of extensions. */
  datatype Extensions = Extensions(raw: seq<Extension>) {
    function GetExtension(oid: Oid): Option<Extension> {
      Find(raw, oid)
    }
  }

  function Find(exts: seq<Extension>, oid: Oid): Option<Extension> {
    if exts == [] then None
    else if exts[0].extnId == oid then Some(exts[0])
    else Find(exts[1..], oid)
  }

  ghost predicate NoDuplicates(exts: seq<Extension>) {
    forall i, j | 0 <= i < j < |exts| :: exts[i].extnId != exts[j].extnId
  }

  function Oids(exts: seq<Extension>): set<Oid> {
    set ext | ext in exts :: ext.extnId
  }

  /** The OID of the first extension from index `k` on that repeats an earlier one. */
  function FirstDuplicate(exts: seq<Extension>, k: nat): Option<Oid>
    requires k <= |exts|
    decreases |exts| - k
  {
    if k == |exts| then None
    else if exts[k].extnId in Oids(exts[..k]) then Some(exts[k].extnId)
    else FirstDuplicate(exts, k + 1)
  }

  function ExtensionsOf(cert: Certificate): Result<Extensions, Oid> {
    CheckedExtensions(cert.rawExtensions)
  }

  function CheckedExtensions(raw: Option<seq<Extension>>): Result<Extensions, Oid> {
    match raw
    case None => Ok(Extensions([]))
    case Some(exts) =>
      match FirstDuplicate(exts, 0)
      case Some(oid) => Err(oid)
      case None => Ok(Extensions(exts))
  }

  method FromRawExtensions(raw: Option<seq<Extension>>) returns (r: Result<Extensions, Oid>)
    ensures r == CheckedExtensions(raw)
  {
    if raw.None? {
      return Ok(Extensions([]));
    }
    var exts := raw.value;
    var seenOids := {};
    var k := 0;
    while k < |exts|
      invariant 0 <= k <= |exts|
      invariant seenOids == Oids(exts[..k])
      invariant FirstDuplicate(exts, k) == FirstDuplicate(exts, 0)
    {
      if exts[k].extnId in seenOids {
        return Err(exts[k].extnId);
      }
      seenOids := seenOids + {exts[k].extnId};
      assert exts[..k + 1] == exts[..k] + [exts[k]];
      k := k + 1;
    }
    return Ok(Extensions(exts));
  }

  lemma {:induction false} FirstDuplicateMeaning(exts: seq<Extension>, k: nat)
    requires k <= |exts| && NoDuplicates(exts[..k])
    ensures FirstDuplicate(exts, k).None? <==> NoDuplicates(exts)
    ensures forall oid | FirstDuplicate(exts, k) == Some(oid) ::
              exists i, j :: 0 <= i < j < |exts| && exts[i].extnId == exts[j].extnId == oid
                             && NoDuplicates(exts[..j])
    decreases |exts| - k
  {
    if k == |exts| {
      assert exts[..k] == exts;
    } else if exts[k].extnId in Oids(exts[..k]) {
      var i :| 0 <= i < k && exts[..k][i].extnId == exts[k].extnId;
      assert exts[i].extnId == exts[k].extnId;
    } else {
      forall i | 0 <= i < k ensures exts[i].extnId != exts[k].extnId {
        assert exts[..k][i] in exts[..k];
      }
      FirstDuplicateMeaning(exts, k + 1);
    }
  }

  /** Extensions are refused exactly when two share an OID, and the first repetition is reported. */
  lemma ExtensionsAreDuplicateFree(cert: Certificate)
    ensures ExtensionsOf(cert).Ok? <==> cert.rawExtensions.None? || NoDuplicates(cert.rawExtensions.value)
    ensures ExtensionsOf(cert).Ok? ==> NoDuplicates(ExtensionsOf(cert).value.raw)
    ensures ExtensionsOf(cert).Err? ==>
              exists i, j :: 0 <= i < j < |cert.rawExtensions.value|
                             && cert.rawExtensions.value[i].extnId == ExtensionsOf(cert).error
                             && cert.rawExtensions.value[j].extnId == ExtensionsOf(cert).error
                             && NoDuplicates(cert.rawExtensions.value[..j])
  {
    if cert.rawExtensions.Some? {
      FirstDuplicateMeaning(cert.rawExtensions.value, 0);
    }
  }

  /** Without duplicates, looking an OID up finds the one extension that carries it. */
  lemma {:induction false} FindMeaning(exts: seq<Extension>, ext: Extension)
    requires NoDuplicates(exts)
    ensures Find(exts, ext.extnId) == Some(ext) <==> ext in exts
  {
    if exts != [] {
      assert NoDuplicates(exts[1..]);
      FindMeaning(exts[1..], ext);
      if ext in exts && ext != exts[0] {
        var i :| 0 <= i < |exts| && exts[i] == ext;
        assert exts[0].extnId != exts[i].extnId;
      }
    }
  }
}

/** The root certificates, indexed by subject. */
module TrustStore {
  import opened Certificates

  datatype Store = Store(bySubject: map<Name, seq<Certificate>>) {
    function GetBySubject(subject: Name): seq<Certificate> {
      if subject in bySubject then bySubject[subject] else []
    }

    predicate Contains(cert: Certificate) {
      cert in GetBySubject(cert.subject)
    }

    /** The index agrees with the subjects of the certificates filed under it. */
    ghost predicate Valid() {
      forall name, cert | cert in GetBySubject(name) :: cert.subject == name
    }
  }

  /** The certificates with a subject, by a linear scan. */
  function WithSubject(certs: seq<Certificate>, subject: Name): seq<Certificate> {
    if certs == [] then []
    else
      var front := WithSubject(certs[..|certs| - 1], subject);
      var last := certs[|certs| - 1];
      if last.subject == subject then front + [last] else front
  }

  method NewStore(trusted: seq<Certificate>) returns (store: Store)
    ensures forall name :: store.GetBySubject(name) == WithSubject(trusted, name)
  {
    var bySubject: map<Name, seq<Certificate>> := map[];
    var k := 0;
    while k < |trusted|
      invariant 0 <= k <= |trusted|
      invariant forall name :: Store(bySubject).GetBySubject(name) == WithSubject(trusted[..k], name)
    {
      var cert := trusted[k];
      assert trusted[..k + 1][..k] == trusted[..k];
      ghost var before := Store(bySubject);
      if cert.subject !in bySubject {
        bySubject := bySubject[cert.subject := []];
      }
      bySubject := bySubject[cert.subject := bySubject[cert.subject] + [cert]];
      forall name ensures Store(bySubject).GetBySubject(name) == WithSubject(trusted[..k + 1], name) {
        assert before.GetBySubject(name) == WithSubject(trusted[..k], name);
      }
      k := k + 1;
    }
    assert trusted[..k] == trusted;
    store := Store(bySubject);
  }

  lemma {:induction false} WithSubjectMeaning(certs: seq<Certificate>, subject: Name, cert: Certificate)
    ensures cert in WithSubject(certs, subject) <==> cert in certs && cert.subject == subject
  {
    if certs != [] {
      var front := certs[..|certs| - 1];
      WithSubjectMeaning(front, subject, cert);
      assert certs == front + [certs[|certs| - 1]];
    }
  }

  /** A store built from a list answers like scans of the list. */
  lemma StoreIsTheList(trusted: seq<Certificate>, store: Store)
    requires forall name :: store.GetBySubject(name) == WithSubject(trusted, name)
    ensures store.Valid()
    ensures forall cert :: store.Contains(cert) <==> cert in trusted
  {
    forall name, cert | cert in store.GetBySubject(name) ensures cert.subject == name {
      WithSubjectMeaning(trusted, name, cert);
    }
    forall cert ensures store.Contains(cert) <==> cert in trusted {
      WithSubjectMeaning(trusted, cert.subject, cert);
    }
  }
}
