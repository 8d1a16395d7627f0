/** How many checks a search can need at most, read off the certificates it is given. */
module SearchCost {
  import opened Common
  import opened Certificates
  import opened NameConstraintEvaluation
  import opened ChainBuilding
  import opened ChainSearch
  import opened ChainGuarantees

  /** The most names and subtrees one certificate carries, and the most candidates one certificate has. */
  datatype Limits = Limits(sans: nat, subtrees: nat, candidates: nat)

  function SubtreeCount(nc: NameConstraints): nat {
    |Subtrees(nc.permittedSubtrees)| + |Subtrees(nc.excludedSubtrees)|
  }

  /** Without subtrees nothing is checked, and the other two numbers do not matter. */
  predicate ExtensionsWithin(exts: Extensions, lim: Limits) {
    && (lim.subtrees == 0 || (CollectedSans(exts, false).Some? ==> |CollectedSans(exts, false).value| <= lim.sans))
    && (CarriedConstraints(exts).Ok? && CarriedConstraints(exts).value.Some? ==>
          SubtreeCount(CarriedConstraints(exts).value.value) <= lim.subtrees)
  }

  predicate CertWithin(cert: Certificate, lim: Limits) {
    ReadExtensions(cert).Ok? ==> ExtensionsWithin(ReadExtensions(cert).value, lim)
  }

  ghost predicate Within(b: ChainBuilder, lim: Limits) {
    && (forall cert | b.store.Contains(cert) || cert in b.intermediates :: CertWithin(cert, lim))
    && (lim.subtrees == 0 || forall name :: |b.store.GetBySubject(name)| + |b.intermediates| <= lim.candidates)
  }

  /** The names of `depth + 1` members against all subtrees of one, and the same below every candidate. */
  function Cost(lim: Limits, maxDepth: nat, depth: nat): nat
    requires depth <= MAX_U8
    decreases MAX_U8 - depth
  {
    (depth + 1) * lim.sans * lim.subtrees +
    if depth > maxDepth || depth >= MAX_U8 then 0 else lim.candidates * Cost(lim, maxDepth, depth + 1)
  }

  lemma Times(a: nat, b: nat, c: nat, d: nat)
    requires a <= c && b <= d
    ensures a * b <= c * d
  {
    assert a * b <= c * b <= c * d;
  }

  lemma OneMore(n: nat, w: nat)
    requires n > 0
    ensures w + (n - 1) * w == n * w
  {
  }

  // ---------------------------------------------------------------- one evaluation

  lemma {:induction false} PermittedCost(ps: seq<GeneralName>, san: GeneralName, permit: bool)
    ensures ScanPermitted(ps, san, permit).checks <= |ps|
  {
    hide CheckPair;
    if ps != [] {
      PermittedCost(ps[1..], san, permit);
      PermittedCost(ps[1..], san, false);
    }
  }

  lemma {:induction false} ExcludedCost(es: seq<GeneralName>, san: GeneralName)
    ensures ScanExcluded(es, san).checks <= |es|
  {
    hide CheckPair;
    if es != [] {
      ExcludedCost(es[1..], san);
    }
  }

  lemma {:induction false} SansCost(nc: NameConstraints, sans: seq<GeneralName>)
    ensures EvaluateSans(nc, sans).checks <= |sans| * SubtreeCount(nc)
  {
    if sans != [] {
      PermittedCost(Subtrees(nc.permittedSubtrees), sans[0], true);
      ExcludedCost(Subtrees(nc.excludedSubtrees), sans[0]);
      SansCost(nc, sans[1..]);
      OneMore(|sans|, SubtreeCount(nc));
    }
  }

  /** An evaluation makes at most one check for every name and subtree. */
  lemma {:induction false} EvaluationCost(chain: NameChain, nc: NameConstraints)
    ensures chain.Evaluation(nc).checks <= |chain.AllSans()| * SubtreeCount(nc)
  {
    hide EvaluateSans, SubtreeCount;
    SansCost(nc, chain.sans);
    if chain.child.Some? {
      EvaluationCost(chain.child.value, nc);
      Sum(|chain.child.value.AllSans()|, |chain.sans|, SubtreeCount(nc));
    }
  }

  lemma Sum(a: nat, b: nat, w: nat)
    ensures a * w + b * w == (a + b) * w
  {
  }

  // ---------------------------------------------------------------- the whole search

  /** The names collected down to `depth` are as few as the limits say. */
  ghost predicate FewNames(lim: Limits, depth: nat, names: NameChain) {
    lim.subtrees == 0 || |names.AllSans()| <= (depth + 1) * lim.sans
  }

  lemma CheckCost(lim: Limits, depth: nat, exts: Extensions, names: NameChain)
    requires ExtensionsWithin(exts, lim) && FewNames(lim, depth, names)
    ensures CheckConstraints(exts, names).checks <= (depth + 1) * lim.sans * lim.subtrees
  {
    hide SubtreeCount, CollectedSans;
    var carried := CarriedConstraints(exts);
    if carried.Ok? && carried.value.Some? {
      var nc := carried.value.value;
      EvaluationCost(names, nc);
      if lim.subtrees == 0 {
        assert |names.AllSans()| * SubtreeCount(nc) == 0;
      } else {
        Times(|names.AllSans()|, SubtreeCount(nc), (depth + 1) * lim.sans, lim.subtrees);
      }
    }
  }

  /** A candidate adds its names, or none if it is self-issued. */
  lemma EnterKeepsFew(b: ChainBuilder, lim: Limits, cert: Certificate, depth: nat, names: NameChain, candidate: Certificate)
    requires CertWithin(candidate, lim) && FewNames(lim, depth, names)
    ensures var d := b.Descend(cert, depth, names, candidate);
            d.Enter? ==> ExtensionsWithin(d.exts, lim) && FewNames(lim, depth + 1, d.names)
  {
    hide CarriedConstraints, SubtreeCount;
    var d := b.Descend(cert, depth, names, candidate);
    if d.Enter? && lim.subtrees != 0 {
      assert |d.names.sans| <= lim.sans;
      assert (depth + 2) * lim.sans == (depth + 1) * lim.sans + lim.sans;
    }
  }

  lemma {:induction false} TryCost(b: ChainBuilder, lim: Limits, cert: Certificate, depth: nat, names: NameChain,
                                   candidates: seq<Certificate>, lastErr: Option<ValidationError>)
    requires depth <= MAX_U8 && b.store.Valid() && Within(b, lim) && FewNames(lim, depth, names)
    requires forall c | c in candidates :: CertWithin(c, lim)
    ensures b.TryCandidates(cert, depth, names, candidates, lastErr).checks
            <= if depth >= MAX_U8 then 0 else |candidates| * Cost(lim, b.policy.maxChainDepth, depth + 1)
    decreases MAX_U8 - depth, 0, |candidates|
  {
    hide ChainBuilder.PotentialIssuers, ChainBuilder.Descend, Within, CertWithin, ExtensionsWithin, FewNames, Cost;
    if candidates != [] {
      var first, rest := candidates[0], candidates[1..];
      EnterKeepsFew(b, lim, cert, depth, names, first);
      if depth < MAX_U8 {
        OneMore(|candidates|, Cost(lim, b.policy.maxChainDepth, depth + 1));
      }
      match b.Descend(cert, depth, names, first)
      case Abandon(_) =>
      case Reject(e) => TryCost(b, lim, cert, depth, names, rest, Some(e));
      case Enter(exts, extended) =>
        SearchCost(b, lim, first, depth + 1, exts, extended);
        var below := b.Search(first, depth + 1, exts, extended);
        if below.result.Err? {
          TryCost(b, lim, cert, depth, names, rest, Some(below.result.error));
        }
    }
  }

  lemma CandidatesWithin(b: ChainBuilder, lim: Limits, cert: Certificate)
    requires b.store.Valid() && Within(b, lim)
    ensures forall c | c in b.PotentialIssuers(cert) :: CertWithin(c, lim)
    ensures lim.subtrees == 0 || |b.PotentialIssuers(cert)| <= lim.candidates
  {
    hide CertWithin;
    forall c | c in b.PotentialIssuers(cert) ensures CertWithin(c, lim) {
      PotentialIssuersMeaning(b, cert, c);
    }
    FilteredIsShorter(b, b.intermediates, cert.issuer);
  }

  lemma {:induction false} FilteredIsShorter(b: ChainBuilder, certs: seq<Certificate>, subject: Name)
    ensures |b.Filtered(certs, subject)| <= |certs|
  {
    if certs != [] {
      FilteredIsShorter(b, certs[1..], subject);
    }
  }

  lemma {:induction false} SearchCost(b: ChainBuilder, lim: Limits, cert: Certificate, depth: nat, exts: Extensions,
                                      names: NameChain)
    requires depth <= MAX_U8 && b.store.Valid() && Within(b, lim)
    requires ExtensionsWithin(exts, lim) && FewNames(lim, depth, names)
    ensures b.Search(cert, depth, exts, names).checks <= Cost(lim, b.policy.maxChainDepth, depth)
    decreases MAX_U8 - depth, 1, 0
  {
    hide ChainBuilder.PotentialIssuers, ChainBuilder.TryCandidates, CheckConstraints, CertWithin, ExtensionsWithin,
         FewNames, Within;
    CheckCost(lim, depth, exts, names);
    if depth <= b.policy.maxChainDepth {
      var issuers := b.PotentialIssuers(cert);
      CandidatesWithin(b, lim, cert);
      TryCost(b, lim, cert, depth, names, issuers, None);
      if depth < MAX_U8 {
        var each := Cost(lim, b.policy.maxChainDepth, depth + 1);
        if lim.subtrees == 0 {
          NothingToCheck(lim, b.policy.maxChainDepth, depth + 1);
          assert |issuers| * each == 0;
        } else {
          Times(|issuers|, each, lim.candidates, each);
        }
      }
    }
  }

  lemma {:induction false} NothingToCheck(lim: Limits, maxDepth: nat, depth: nat)
    requires depth <= MAX_U8 && lim.subtrees == 0
    ensures Cost(lim, maxDepth, depth) == 0
    decreases MAX_U8 - depth
  {
    assert (depth + 1) * lim.sans * lim.subtrees == 0;
    if depth <= maxDepth && depth < MAX_U8 {
      NothingToCheck(lim, maxDepth, depth + 1);
      assert lim.candidates * Cost(lim, maxDepth, depth + 1) == 0;
    }
  }

  /** The search never makes more checks than the numbers of names, subtrees and candidates allow. */
  lemma ChecksAreBounded(b: ChainBuilder, leaf: Certificate, lim: Limits)
    requires b.store.Valid() && Within(b, lim) && CertWithin(leaf, lim)
    ensures b.BuildChainSpec(leaf).checks <= Cost(lim, b.policy.maxChainDepth, 0)
  {
    hide ChainBuilder.Search, ExtensionsWithin, Cost;
    if ReadExtensions(leaf).Ok? {
      var exts := ReadExtensions(leaf).value;
      var names := NewNameChain(None, exts, false);
      if names.Ok? {
        LeafIsFew(lim, exts, names.value);
        SearchCost(b, lim, leaf, 0, exts, names.value);
      }
    }
  }

  lemma LeafIsFew(lim: Limits, exts: Extensions, names: NameChain)
    requires ExtensionsWithin(exts, lim) && NewNameChain(None, exts, false) == Ok(names)
    ensures FewNames(lim, 0, names)
  {
  }

  predicate Unconstrained(cert: Certificate) {
    ReadExtensions(cert).Ok? ==>
      var carried := CarriedConstraints(ReadExtensions(cert).value);
      carried.Ok? && carried.value.Some? ==> SubtreeCount(carried.value.value) == 0
  }

  /** If no certificate carries a subtree, nothing is checked. */
  lemma NoSubtreesNoChecks(b: ChainBuilder, leaf: Certificate)
    requires b.store.Valid() && Unconstrained(leaf)
    requires forall cert | b.store.Contains(cert) || cert in b.intermediates :: Unconstrained(cert)
    ensures b.BuildChainSpec(leaf).checks == 0
  {
    var lim := Limits(0, 0, 0);
    ChecksAreBounded(b, leaf, lim);
    NothingToCheck(lim, b.policy.maxChainDepth, 0);
  }

  /** Inputs small enough never meet the limit, and then a chain is found exactly if the rules allow one. */
  lemma SmallInputsAreDecided(b: ChainBuilder, leaf: Certificate, lim: Limits)
    requires b.store.Valid() && Within(b, lim) && CertWithin(leaf, lim)
    requires Cost(lim, b.policy.maxChainDepth, 0) <= 0x10_0000
    ensures VerifySpec(leaf, b) == b.BuildChainSpec(leaf).result
    ensures NothingAbandons(b) ==> (VerifySpec(leaf, b).Ok? <==> exists path :: Admissible(b, leaf, path))
  {
    hide Cost, Within, CertWithin, NothingAbandons, Admissible, ChainBuilder.BuildChainSpec;
    ChecksAreBounded(b, leaf, lim);
    if NothingAbandons(b) {
      VerifyIsComplete(b, leaf);
    }
  }
}
