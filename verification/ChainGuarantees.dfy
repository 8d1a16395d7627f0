/** What a caller of `verify` may rely on. */
module ChainGuarantees {
  import opened Common
  import opened Certificates
  import opened TrustStore
  import opened NameConstraintEvaluation
  import opened ChainBuilding
  import opened ChainSearch

  lemma {:induction false} FilteredMeaning(b: ChainBuilder, certs: seq<Certificate>, subject: Name, cert: Certificate)
    ensures cert in b.Filtered(certs, subject) <==> cert in certs && cert.subject == subject
  {
    if certs != [] {
      FilteredMeaning(b, certs[1..], subject, cert);
      assert certs == [certs[0]] + certs[1..];
    }
  }

  /** Candidates are the store and intermediate certificates whose subject is the issuer's name. */
  lemma PotentialIssuersMeaning(b: ChainBuilder, cert: Certificate, issuer: Certificate)
    requires b.store.Valid()
    ensures issuer in b.PotentialIssuers(cert) <==>
            issuer.subject == cert.issuer && (b.store.Contains(issuer) || issuer in b.intermediates)
  {
    FilteredMeaning(b, b.intermediates, cert.issuer, issuer);
    assert issuer in b.PotentialIssuers(cert) <==>
           issuer in b.store.GetBySubject(cert.issuer) || issuer in b.Filtered(b.intermediates, cert.issuer);
  }

  // ---------------------------------------------------------------- routes are paths

  ghost predicate StepOk(b: ChainBuilder, path: Chain, ks: seq<nat>, j: nat)
    requires |path| == |ks| + 1 && j < |path|
  {
    MemberOk(b, path, j) && (j < |ks| ==> PickOk(b, path, ks, j) && NoneAbandonsBefore(b, path, ks, j))
  }

  ghost predicate StepsOk(b: ChainBuilder, path: Chain, ks: seq<nat>, i: nat)
    requires |path| == |ks| + 1
  {
    forall j | i <= j < |path| :: StepOk(b, path, ks, j)
  }

  lemma CheckConstraintsMeaning(path: Chain, j: nat, names: NameChain)
    requires j < |path| && names.AllSans() == SansUpTo(path, j)
    ensures CheckConstraints(ExtsAt(path, j), names).result.Ok? <==> ConstraintsHold(path, j)
  {
    var carried := CarriedConstraints(ExtsAt(path, j));
    if carried.Ok? && carried.value.Some? {
      EvaluationMeaning(names, carried.value.value);
    }
  }

  lemma AbandonsMeaning(b: ChainBuilder, cert: Certificate, depth: nat, names: NameChain, candidate: Certificate)
    ensures b.Descend(cert, depth, names, candidate).Abandon? <==> Abandons(b, cert, depth, candidate)
  {
  }

  /** Going below a candidate is possible exactly when the next member of the path is in order. */
  lemma EnterMeaning(b: ChainBuilder, path: Chain, j: nat, names: NameChain)
    requires j + 1 < |path| && j <= MAX_U8
    requires names.AllSans() == SansUpTo(path, j)
    ensures var next := b.Descend(path[j], j, names, path[j + 1]);
            && (next.Enter? <==>
                  && ReadExtensions(path[j + 1]).Ok? && SansAt(path, j + 1).Some? && j < MAX_U8
                  && b.policy.validIssuer(path[j + 1], path[j], j, ExtsAt(path, j + 1)).Ok?)
            && (next.Enter? ==> next.exts == ExtsAt(path, j + 1) && next.names.AllSans() == SansUpTo(path, j + 1))
  {
  }

  /** The search's view of a path from member `i` on is the member-by-member one. */
  lemma {:induction false} RouteMeaning(b: ChainBuilder, path: Chain, ks: seq<nat>, i: nat, names: NameChain)
    requires b.store.Valid()
    requires |path| == |ks| + 1 && i < |path| && i <= MAX_U8
    requires ReadExtensions(path[i]).Ok? && SansAt(path, i).Some?
    requires names.AllSans() == SansUpTo(path, i)
    requires forall j | i <= j < |ks| :: PickOk(b, path, ks, j)
    ensures Route(b, path[i], i, ExtsAt(path, i), names, ks[i..]) <==> StepsOk(b, path, ks, i)
    decreases |path| - i
  {
    hide ChainBuilder.PotentialIssuers, ChainBuilder.Descend, CheckConstraints, ConstraintsHold, Abandons, SansUpTo;
    CheckConstraintsMeaning(path, i, names);
    if i == |ks| {
      assert StepsOk(b, path, ks, i) <==> StepOk(b, path, ks, i);
    } else {
      var issuers := b.PotentialIssuers(path[i]);
      assert PickOk(b, path, ks, i);
      assert ks[i..][0] == ks[i] && ks[i..][1..] == ks[i + 1..];
      PotentialIssuersMeaning(b, path[i], path[i + 1]);
      EnterMeaning(b, path, i, names);
      forall m | 0 <= m < ks[i]
        ensures b.Descend(path[i], i, names, issuers[m]).Abandon? <==> Abandons(b, path[i], i, issuers[m])
      {
        AbandonsMeaning(b, path[i], i, names, issuers[m]);
      }
      assert StepsOk(b, path, ks, i) <==> StepOk(b, path, ks, i) && StepsOk(b, path, ks, i + 1);
      var next := b.Descend(path[i], i, names, path[i + 1]);
      if next.Enter? {
        RouteMeaning(b, path, ks, i + 1, next.names);
      } else if StepsOk(b, path, ks, i + 1) {
        assert StepOk(b, path, ks, i + 1);
      }
    }
  }

  lemma {:induction false} RoutePathPicks(b: ChainBuilder, cert: Certificate, depth: nat, exts: Extensions,
                                          names: NameChain, ks: seq<nat>)
    requires depth <= MAX_U8 && Route(b, cert, depth, exts, names, ks)
    ensures Picks(b, RoutePath(b, cert, ks), ks) && RoutePath(b, cert, ks)[0] == cert
    decreases |ks|
  {
    hide ChainBuilder.PotentialIssuers, ChainBuilder.Descend, CheckConstraints;
    if ks != [] {
      var issuers := b.PotentialIssuers(cert);
      var next := b.Descend(cert, depth, names, issuers[ks[0]]);
      RoutePathPicks(b, issuers[ks[0]], depth + 1, next.exts, next.names, ks[1..]);
      var path, rest := RoutePath(b, cert, ks), RoutePath(b, issuers[ks[0]], ks[1..]);
      forall j | 0 <= j < |ks| ensures PickOk(b, path, ks, j) {
        if j > 0 {
          assert PickOk(b, rest, ks[1..], j - 1);
        }
      }
    }
  }

  /** The same picks from the same leaf are the same path. */
  lemma {:induction false} PicksAreRoutePath(b: ChainBuilder, path: Chain, ks: seq<nat>)
    requires Picks(b, path, ks)
    ensures RoutePath(b, path[0], ks) == path
    decreases |ks|
  {
    if ks != [] {
      assert PickOk(b, path, ks, 0);
      forall j | 0 <= j < |ks[1..]| ensures PickOk(b, path[1..], ks[1..], j) {
        assert PickOk(b, path, ks, j + 1);
      }
      PicksAreRoutePath(b, path[1..], ks[1..]);
    }
  }

  lemma {:induction false} NotAfterAntisymmetric(ks: seq<nat>, other: seq<nat>)
    requires NotAfter(ks, other) && NotAfter(other, ks)
    ensures ks == other
  {
    if ks != [] {
      NotAfterAntisymmetric(ks[1..], other[1..]);
      assert ks == [ks[0]] + ks[1..] && other == [other[0]] + other[1..];
    }
  }

  /** Two paths from one leaf, neither of which comes after the other, are the same. */
  lemma SamePicks(b: ChainBuilder, path: Chain, ks: seq<nat>, other: Chain, others: seq<nat>)
    requires Picks(b, path, ks) && Picks(b, other, others) && path[0] == other[0]
    requires NotAfter(ks, others) && NotAfter(others, ks)
    ensures path == other
  {
    NotAfterAntisymmetric(ks, others);
    PicksAreRoutePath(b, path, ks);
    PicksAreRoutePath(b, other, others);
  }

  // ---------------------------------------------------------------- the leaf

  /** The leaf passes the checks made before the search. */
  ghost predicate LeafOk(b: ChainBuilder, leaf: Certificate) {
    && ReadExtensions(leaf).Ok?
    && b.policy.permitsEe(leaf, ExtsAt([leaf], 0)).Ok?
    && SansAt([leaf], 0).Some?
  }

  function LeafNames(leaf: Certificate): NameChain
    requires SansAt([leaf], 0).Some?
  {
    NameChain(None, SansAt([leaf], 0).value)
  }

  lemma ReachableIsRoute(b: ChainBuilder, leaf: Certificate, path: Chain, ks: seq<nat>)
    requires b.store.Valid() && LeafOk(b, leaf) && Picks(b, path, ks) && path[0] == leaf
    ensures Reachable(b, leaf, path, ks) <==> Route(b, leaf, 0, ExtsAt([leaf], 0), LeafNames(leaf), ks)
  {
    assert ExtsAt(path, 0) == ExtsAt([leaf], 0);
    assert ks[0..] == ks;
    RouteMeaning(b, path, ks, 0, LeafNames(leaf));
    if Reachable(b, leaf, path, ks) {
      forall j | 0 <= j < |path| ensures StepOk(b, path, ks, j) {
        assert MemberOk(b, path, j);
      }
    }
    if StepsOk(b, path, ks, 0) {
      forall j | 0 <= j < |path| ensures MemberOk(b, path, j) {
        assert StepOk(b, path, ks, j);
      }
      forall j | 0 <= j < |ks| ensures NoneAbandonsBefore(b, path, ks, j) {
        assert StepOk(b, path, ks, j);
      }
    }
  }

  lemma ReachableLeafOk(b: ChainBuilder, leaf: Certificate, path: Chain)
    requires Admissible(b, leaf, path)
    ensures LeafOk(b, leaf)
  {
    assert MemberOk(b, path, 0);
    assert ExtsAt(path, 0) == ExtsAt([leaf], 0);
  }

  // ---------------------------------------------------------------- exactness of the search

  /** The chain found is reachable, and no reachable path comes before it in depth-first order. */
  lemma SearchFindsFirst(b: ChainBuilder, leaf: Certificate) returns (ks: seq<nat>)
    requires b.store.Valid() && b.BuildChainSpec(leaf).result.Ok?
    ensures Reachable(b, leaf, b.BuildChainSpec(leaf).result.value, ks)
    ensures forall path, other | Reachable(b, leaf, path, other) ::
              && NotAfter(ks, other)
              && (NotAfter(other, ks) ==> path == b.BuildChainSpec(leaf).result.value)
  {
    var exts, names := ExtsAt([leaf], 0), LeafNames(leaf);
    var chain := b.BuildChainSpec(leaf).result.value;
    ks := FirstRoute(b, leaf, 0, exts, names);
    RoutePathPicks(b, leaf, 0, exts, names, ks);
    assert chain == RoutePath(b, leaf, ks);
    ReachableIsRoute(b, leaf, chain, ks);
    forall path, other | Reachable(b, leaf, path, other)
      ensures NotAfter(ks, other) && (NotAfter(other, ks) ==> path == chain)
    {
      ReachableIsRoute(b, leaf, path, other);
      if NotAfter(other, ks) {
        SamePicks(b, chain, ks, path, other);
      }
    }
  }

  lemma ReachableIsFound(b: ChainBuilder, leaf: Certificate, path: Chain, ks: seq<nat>)
    requires b.store.Valid() && Reachable(b, leaf, path, ks)
    ensures b.BuildChainSpec(leaf).result.Ok?
  {
    ReachableLeafOk(b, leaf, path);
    ReachableIsRoute(b, leaf, path, ks);
    RouteFound(b, leaf, 0, ExtsAt([leaf], 0), LeafNames(leaf), ks);
  }

  /** With no hypothesis on the inputs: the search succeeds exactly when some path is reachable. */
  lemma SearchIsExact(b: ChainBuilder, leaf: Certificate)
    requires b.store.Valid()
    ensures b.BuildChainSpec(leaf).result.Ok? <==> exists path, ks :: Reachable(b, leaf, path, ks)
  {
    if b.BuildChainSpec(leaf).result.Ok? {
      var ks := SearchFindsFirst(b, leaf);
    } else if path, ks :| Reachable(b, leaf, path, ks) {
      ReachableIsFound(b, leaf, path, ks);
    }
  }

  // ---------------------------------------------------------------- soundness

  lemma {:induction false} SansUpToMeaning(path: Chain, j: nat, i: nat, san: GeneralName)
    requires i <= j < |path| && SansAt(path, i).Some? && san in SansAt(path, i).value
    ensures san in SansUpTo(path, j)
  {
    if i < j {
      SansUpToMeaning(path, j - 1, i, san);
    }
  }

  lemma AdmissibleLength(b: ChainBuilder, leaf: Certificate, path: Chain)
    requires Admissible(b, leaf, path)
    ensures |path| <= b.policy.maxChainDepth + 2 && |path| <= 256
  {
    if |path| > 1 {
      assert MemberOk(b, path, |path| - 2);
    }
  }

  /** Every name collected at or below a constrained member is permitted and not excluded by it. */
  lemma AdmissibleNames(b: ChainBuilder, leaf: Certificate, path: Chain, j: nat, i: nat, san: GeneralName)
    requires Admissible(b, leaf, path) && i <= j < |path|
    requires CarriedConstraints(ExtsAt(path, j)).Ok? && CarriedConstraints(ExtsAt(path, j)).value.Some?
    requires SansAt(path, i).Some? && san in SansAt(path, i).value
    ensures var nc := CarriedConstraints(ExtsAt(path, j)).value.value;
            Accepts(nc, san) && Permits(nc, san) && !Excludes(nc, san)
  {
    assert MemberOk(b, path, j);
    SansUpToMeaning(path, j, i, san);
  }

  /** Whatever `verify` returns starts at the permitted leaf, ends at the first store member, and is linked. */
  lemma VerifyIsSound(b: ChainBuilder, leaf: Certificate)
    requires b.store.Valid() && VerifySpec(leaf, b).Ok?
    ensures Admissible(b, leaf, VerifySpec(leaf, b).value)
    ensures |VerifySpec(leaf, b).value| <= b.policy.maxChainDepth + 2 && |VerifySpec(leaf, b).value| <= 256
  {
    var ks := SearchFindsFirst(b, leaf);
    AdmissibleLength(b, leaf, VerifySpec(leaf, b).value);
  }

  // ---------------------------------------------------------------- completeness

  /** The certificate's extensions can be read, and its names if they are to be collected. */
  predicate WellFormed(cert: Certificate) {
    && ReadExtensions(cert).Ok?
    && CollectedSans(ReadExtensions(cert).value, cert.IsSelfIssued()).Some?
  }

  ghost predicate NothingAbandons(b: ChainBuilder) {
    && b.policy.maxChainDepth <= 254
    && forall cert | b.store.Contains(cert) || cert in b.intermediates :: WellFormed(cert)
  }

  lemma AdmissibleIsReachable(b: ChainBuilder, leaf: Certificate, path: Chain, ks: seq<nat>)
    requires b.store.Valid() && NothingAbandons(b)
    requires Admissible(b, leaf, path) && Picks(b, path, ks)
    ensures Reachable(b, leaf, path, ks)
  {
    forall j | 0 <= j < |ks| ensures NoneAbandonsBefore(b, path, ks, j) {
      var issuers := b.PotentialIssuers(path[j]);
      assert MemberOk(b, path, j);
      forall m | 0 <= m < ks[j] && m < |issuers| ensures !Abandons(b, path[j], j, issuers[m]) {
        PotentialIssuersMeaning(b, path[j], issuers[m]);
        assert WellFormed(issuers[m]);
      }
    }
  }

  lemma {:induction false} AdmissibleHasPicks(b: ChainBuilder, leaf: Certificate, path: Chain, n: nat)
    returns (ks: seq<nat>)
    requires b.store.Valid() && Admissible(b, leaf, path) && n < |path|
    ensures Picks(b, path[..n + 1], ks)
  {
    if n == 0 {
      ks := [];
    } else {
      var front := AdmissibleHasPicks(b, leaf, path, n - 1);
      assert MemberOk(b, path, n - 1);
      PotentialIssuersMeaning(b, path[n - 1], path[n]);
      var issuers := b.PotentialIssuers(path[n - 1]);
      var k :| 0 <= k < |issuers| && issuers[k] == path[n];
      ks := front + [k];
      var prefix := path[..n + 1];
      forall j | 0 <= j < |ks| ensures PickOk(b, prefix, ks, j) {
        if j < n - 1 {
          assert PickOk(b, path[..n], front, j);
        }
      }
    }
  }

  /** If no certificate makes the search give up a level, it finds a chain whenever the rules allow one. */
  lemma VerifyIsComplete(b: ChainBuilder, leaf: Certificate)
    requires b.store.Valid() && NothingAbandons(b)
    requires b.BuildChainSpec(leaf).checks <= 0x10_0000
    ensures VerifySpec(leaf, b).Ok? <==> exists path :: Admissible(b, leaf, path)
  {
    if VerifySpec(leaf, b).Ok? {
      VerifyIsSound(b, leaf);
    } else if path :| Admissible(b, leaf, path) {
      var ks := AdmissibleHasPicks(b, leaf, path, |path| - 1);
      assert path[..|path|] == path;
      AdmissibleIsReachable(b, leaf, path, ks);
      ReachableIsFound(b, leaf, path, ks);
    }
  }

  /** The chain returned comes first among all admissible paths, store candidates before intermediates. */
  lemma VerifyReturnsFirst(b: ChainBuilder, leaf: Certificate) returns (ks: seq<nat>)
    requires b.store.Valid() && NothingAbandons(b) && VerifySpec(leaf, b).Ok?
    ensures Picks(b, VerifySpec(leaf, b).value, ks)
    ensures forall path, other | Admissible(b, leaf, path) && Picks(b, path, other) ::
              && NotAfter(ks, other)
              && (NotAfter(other, ks) ==> path == VerifySpec(leaf, b).value)
  {
    ks := SearchFindsFirst(b, leaf);
    forall path, other | Admissible(b, leaf, path) && Picks(b, path, other)
      ensures NotAfter(ks, other) && (NotAfter(other, ks) ==> path == VerifySpec(leaf, b).value)
    {
      AdmissibleIsReachable(b, leaf, path, other);
    }
  }

  /**
   * A duplicated extension in one candidate hides the next one: the search gives up although
   * an admissible path exists, so completeness needs its hypothesis.
   */
  lemma AbandonedLevel() returns (b: ChainBuilder, leaf: Certificate, path: Chain)
    ensures b.store.Valid() && b.policy.maxChainDepth <= 254
    ensures Admissible(b, leaf, path)
    ensures VerifySpec(leaf, b) == Err(NewError(ExtensionError(NameConstraintsOid)))
  {
    var ext := Extension(NameConstraintsOid, true, Constraints(NameConstraints(None, None)));
    var broken := Certificate([1], "root", "root", Some([ext, ext]));
    var root := Certificate([2], "root", "root", None);
    leaf := Certificate([3], "leaf", "root", None);
    var policy := Policy(8, (_, _) => Ok(()), (_, _, _, _) => Ok(()));
    b := ChainBuilder([], policy, Store(map["root" := [broken, root]]));
    path := [leaf, root];
    assert CheckedExtensions(Some([ext, ext])) == Err(NameConstraintsOid) by {
      assert [ext, ext][..1] == [ext];
      assert ext in [ext];
      assert FirstDuplicate([ext, ext], 1) == Some(NameConstraintsOid);
    }
    assert b.PotentialIssuers(leaf)[0] == broken;
    assert b.store.Contains(root) && !b.store.Contains(leaf);
    assert MemberOk(b, path, 0) && MemberOk(b, path, 1);
  }

  // ---------------------------------------------------------------- the budget

  /** `verify` reports the fatal error exactly when the search needs more checks than the limit. */
  lemma FatalIsBudget(b: ChainBuilder, leaf: Certificate)
    requires var r := b.policy.permitsEe(leaf, ExtsAt([leaf], 0)); r.Err? ==> !r.error.kind.FatalError?
    ensures (VerifySpec(leaf, b).Err? && VerifySpec(leaf, b).error.kind.FatalError?) <==>
            b.BuildChainSpec(leaf).checks > 0x10_0000
    ensures b.BuildChainSpec(leaf).checks <= 0x10_0000 ==>
              VerifySpec(leaf, b) == b.BuildChainSpec(leaf).result
  {
    if LeafOk(b, leaf) {
      SearchNotFatal(b, leaf, 0, ExtsAt([leaf], 0), LeafNames(leaf));
    }
  }

  // ---------------------------------------------------------------- errors

  function Nesting(e: ValidationError): nat {
    match e.kind
    case CandidatesExhausted(inner) => 1 + Nesting(inner)
    case _ => 0
  }

  /** Nested once at most, or no deeper than some error of the policy's own. */
  ghost predicate Flat(b: ChainBuilder, e: ValidationError) {
    || Nesting(e) <= 1
    || exists issuer, cert, depth: nat, exts ::
         var r := b.policy.validIssuer(issuer, cert, depth, exts);
         r.Err? && Nesting(e) <= Nesting(r.error)
  }

  lemma ExhaustedIsFlat(b: ChainBuilder, lastErr: Option<ValidationError>)
    requires lastErr.Some? ==> Flat(b, lastErr.value)
    ensures Flat(b, Exhausted(lastErr))
  {
    if lastErr.Some? && lastErr.value.kind.CandidatesExhausted? {
      assert Nesting(Exhausted(lastErr)) == Nesting(lastErr.value);
    }
  }

  lemma PolicyErrorIsFlat(b: ChainBuilder, issuer: Certificate, cert: Certificate, depth: nat, exts: Extensions)
    ensures var r := b.policy.validIssuer(issuer, cert, depth, exts); r.Err? ==> Flat(b, r.error)
  {
  }

  lemma {:induction false} TryErrorsAreFlat(b: ChainBuilder, cert: Certificate, depth: nat, names: NameChain,
                                            candidates: seq<Certificate>, lastErr: Option<ValidationError>)
    requires depth <= MAX_U8
    requires lastErr.Some? ==> Flat(b, lastErr.value)
    ensures var r := b.TryCandidates(cert, depth, names, candidates, lastErr).result;
            r.Err? ==> Flat(b, r.error)
    decreases MAX_U8 - depth, 0, |candidates|
  {
    hide ChainBuilder.PotentialIssuers, Flat, Exhausted;
    if candidates == [] {
      ExhaustedIsFlat(b, lastErr);
    } else {
      DescentIsFlat(b, cert, depth, names, candidates[0]);
      match b.Descend(cert, depth, names, candidates[0])
      case Abandon(_) =>
      case Reject(e) => TryErrorsAreFlat(b, cert, depth, names, candidates[1..], Some(e));
      case Enter(exts, extended) =>
        var below := b.Search(candidates[0], depth + 1, exts, extended);
        SearchErrorsAreFlat(b, candidates[0], depth + 1, exts, extended);
        if below.result.Err? {
          TryErrorsAreFlat(b, cert, depth, names, candidates[1..], Some(below.result.error));
        }
    }
  }

  lemma DescentIsFlat(b: ChainBuilder, cert: Certificate, depth: nat, names: NameChain, candidate: Certificate)
    ensures var d := b.Descend(cert, depth, names, candidate);
            && (d.Abandon? ==> Flat(b, d.error))
            && (d.Reject? ==> Flat(b, d.error))
  {
    if ReadExtensions(candidate).Ok? {
      PolicyErrorIsFlat(b, candidate, cert, depth, ReadExtensions(candidate).value);
    }
  }

  /** However deep the search fails, it wraps the last error once at most and nests none itself. */
  lemma {:induction false} SearchErrorsAreFlat(b: ChainBuilder, cert: Certificate, depth: nat, exts: Extensions,
                                               names: NameChain)
    requires depth <= MAX_U8
    ensures var r := b.Search(cert, depth, exts, names).result; r.Err? ==> Flat(b, r.error)
    decreases MAX_U8 - depth, 1, 0
  {
    hide ChainBuilder.PotentialIssuers, ChainBuilder.TryCandidates;
    if CarriedConstraints(exts).Ok? && CarriedConstraints(exts).value.Some? {
      EvaluationNotFatal(names, CarriedConstraints(exts).value.value);
    }
    TryErrorsAreFlat(b, cert, depth, names, b.PotentialIssuers(cert), None);
  }
}
