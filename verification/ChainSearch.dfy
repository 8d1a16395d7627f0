/**
 * What the search returns: sound, complete up to the early returns, first in depth-first order,
 * bounded in length, and cut short by nothing but the check budget.
 */
module ChainSearch {
  import opened Common
  import opened Certificates
  import opened NameConstraintEvaluation
  import opened ChainBuilding

  // ---------------------------------------------------------------- paths, member by member

  function ExtsAt(path: Chain, j: nat): Extensions
    requires j < |path|
  {
    match ReadExtensions(path[j])
    case Ok(exts) => exts
    case Err(_) => Extensions([])
  }

  /** The names member `j` contributes: none for a self-issued member above the leaf. */
  function SansAt(path: Chain, j: nat): Option<seq<GeneralName>>
    requires j < |path|
  {
    CollectedSans(ExtsAt(path, j), j != 0 && path[j].IsSelfIssued())
  }

  /** The names of member `j` and of all members below it. */
  function SansUpTo(path: Chain, j: nat): seq<GeneralName>
    requires j < |path|
  {
    (if j == 0 then [] else SansUpTo(path, j - 1)) + (if SansAt(path, j).Some? then SansAt(path, j).value else [])
  }

  /** If member `j` carries name constraints, every name collected at or below it is accepted. */
  ghost predicate ConstraintsHold(path: Chain, j: nat)
    requires j < |path|
  {
    var carried := CarriedConstraints(ExtsAt(path, j));
    carried.Ok? && (carried.value.Some? ==> AllAccepted(carried.value.value, SansUpTo(path, j)))
  }

  /** `issuer` is a candidate for `cert` by name, and the policy accepts it at that depth. */
  ghost predicate Linked(b: ChainBuilder, path: Chain, j: nat)
    requires j + 1 < |path|
  {
    var issuer := path[j + 1];
    && issuer.subject == path[j].issuer
    && (b.store.Contains(issuer) || issuer in b.intermediates)
    && b.policy.validIssuer(issuer, path[j], j, ExtsAt(path, j + 1)).Ok?
  }

  ghost predicate MemberOk(b: ChainBuilder, path: Chain, j: nat)
    requires j < |path|
  {
    && ReadExtensions(path[j]).Ok?
    && SansAt(path, j).Some?
    && ConstraintsHold(path, j)
    && if j + 1 == |path| then b.store.Contains(path[j])
       else !b.store.Contains(path[j]) && j <= b.policy.maxChainDepth && j < 255 && Linked(b, path, j)
  }

  /** A path the rules allow, leaf first, whatever the search does. */
  ghost predicate Admissible(b: ChainBuilder, leaf: Certificate, path: Chain) {
    && path != [] && path[0] == leaf
    && b.policy.permitsEe(leaf, ExtsAt(path, 0)).Ok?
    && forall j | 0 <= j < |path| :: MemberOk(b, path, j)
  }

  // ---------------------------------------------------------------- the order of the search

  /** `ks` says which candidate of each member comes next on the path. */
  ghost predicate Picks(b: ChainBuilder, path: Chain, ks: seq<nat>) {
    && |path| == |ks| + 1
    && forall j | 0 <= j < |ks| :: PickOk(b, path, ks, j)
  }

  ghost predicate PickOk(b: ChainBuilder, path: Chain, ks: seq<nat>, j: nat)
    requires |path| == |ks| + 1 && j < |ks|
  {
    var issuers := b.PotentialIssuers(path[j]);
    ks[j] < |issuers| && issuers[ks[j]] == path[j + 1]
  }

  /** Trying `candidate` for `cert` ends the whole level with an early return. */
  predicate Abandons(b: ChainBuilder, cert: Certificate, depth: nat, candidate: Certificate) {
    match ReadExtensions(candidate)
    case Err(_) => true
    case Ok(exts) =>
      && b.policy.validIssuer(candidate, cert, depth, exts).Ok?
      && (depth >= 255 || CollectedSans(exts, candidate.IsSelfIssued()).None?)
  }

  ghost predicate NoneAbandonsBefore(b: ChainBuilder, path: Chain, ks: seq<nat>, j: nat)
    requires |path| == |ks| + 1 && j < |ks|
  {
    var issuers := b.PotentialIssuers(path[j]);
    forall m | 0 <= m < ks[j] && m < |issuers| :: !Abandons(b, path[j], j, issuers[m])
  }

  /** An admissible path with no abandoning candidate ahead of it at any of its levels. */
  ghost predicate Reachable(b: ChainBuilder, leaf: Certificate, path: Chain, ks: seq<nat>) {
    && Admissible(b, leaf, path)
    && Picks(b, path, ks)
    && forall j | 0 <= j < |ks| :: NoneAbandonsBefore(b, path, ks, j)
  }

  /** Depth-first order: the first difference decides. */
  ghost predicate NotAfter(ks: seq<nat>, other: seq<nat>) {
    ks == [] || (other != [] && (ks[0] < other[0] || (ks[0] == other[0] && NotAfter(ks[1..], other[1..]))))
  }

  // ---------------------------------------------------------------- routes: the search's own view

  ghost predicate Route(b: ChainBuilder, cert: Certificate, depth: nat, exts: Extensions, names: NameChain, ks: seq<nat>)
    requires depth <= MAX_U8
    decreases |ks|, 1
  {
    && CheckConstraints(exts, names).result.Ok?
    && if ks == [] then b.store.Contains(cert)
       else !b.store.Contains(cert) && depth <= b.policy.maxChainDepth && RouteVia(b, cert, depth, names, ks)
  }

  ghost predicate RouteVia(b: ChainBuilder, cert: Certificate, depth: nat, names: NameChain, ks: seq<nat>)
    requires depth <= MAX_U8 && ks != []
    decreases |ks|, 0
  {
    var issuers := b.PotentialIssuers(cert);
    && ks[0] < |issuers|
    && (forall m | 0 <= m < ks[0] :: !b.Descend(cert, depth, names, issuers[m]).Abandon?)
    && var next := b.Descend(cert, depth, names, issuers[ks[0]]);
       next.Enter? && Route(b, issuers[ks[0]], depth + 1, next.exts, next.names, ks[1..])
  }

  function RoutePath(b: ChainBuilder, cert: Certificate, ks: seq<nat>): Chain
    decreases |ks|
  {
    var issuers := b.PotentialIssuers(cert);
    if ks == [] || ks[0] >= |issuers| then [cert] else [cert] + RoutePath(b, issuers[ks[0]], ks[1..])
  }

  lemma {:induction false} SearchNotFatal(b: ChainBuilder, cert: Certificate, depth: nat, exts: Extensions, names: NameChain)
    requires depth <= MAX_U8
    ensures var r := b.Search(cert, depth, exts, names).result; r.Err? ==> !r.error.kind.FatalError?
    decreases MAX_U8 - depth, 1, 0
  {
    if CarriedConstraints(exts).Ok? && CarriedConstraints(exts).value.Some? {
      EvaluationNotFatal(names, CarriedConstraints(exts).value.value);
    }
    TryNotFatal(b, cert, depth, names, b.PotentialIssuers(cert), None);
  }

  lemma {:induction false} TryNotFatal(b: ChainBuilder, cert: Certificate, depth: nat, names: NameChain,
                                       candidates: seq<Certificate>, lastErr: Option<ValidationError>)
    requires depth <= MAX_U8
    ensures var r := b.TryCandidates(cert, depth, names, candidates, lastErr).result;
            r.Err? ==> !r.error.kind.FatalError?
    decreases MAX_U8 - depth, 0, |candidates|
  {
    hide ChainBuilder.PotentialIssuers;
    if candidates != [] {
      match b.Descend(cert, depth, names, candidates[0])
      case Abandon(_) =>
      case Reject(e) => TryNotFatal(b, cert, depth, names, candidates[1..], Some(e));
      case Enter(exts, extended) =>
        var below := b.Search(candidates[0], depth + 1, exts, extended);
        SearchNotFatal(b, candidates[0], depth + 1, exts, extended);
        if below.result.Err? {
          TryNotFatal(b, cert, depth, names, candidates[1..], Some(below.result.error));
        }
    }
  }

  /** A route is found: no candidate ahead of it ends the level. */
  lemma {:induction false} RouteFound(b: ChainBuilder, cert: Certificate, depth: nat, exts: Extensions,
                                      names: NameChain, ks: seq<nat>)
    requires depth <= MAX_U8 && Route(b, cert, depth, exts, names, ks)
    ensures b.Search(cert, depth, exts, names).result.Ok?
    decreases |ks|
  {
    hide ChainBuilder.PotentialIssuers, ChainBuilder.Descend;
    if ks != [] {
      var issuers := b.PotentialIssuers(cert);
      var next := b.Descend(cert, depth, names, issuers[ks[0]]);
      RouteFound(b, issuers[ks[0]], depth + 1, next.exts, next.names, ks[1..]);
      CandidateFound(b, cert, depth, names, issuers, ks[0], None);
    }
  }

  lemma {:induction false} CandidateFound(b: ChainBuilder, cert: Certificate, depth: nat, names: NameChain,
                                          candidates: seq<Certificate>, k: nat, lastErr: Option<ValidationError>)
    requires depth <= MAX_U8 && k < |candidates|
    requires forall m | 0 <= m < k :: !b.Descend(cert, depth, names, candidates[m]).Abandon?
    requires var next := b.Descend(cert, depth, names, candidates[k]);
             next.Enter? && b.Search(candidates[k], depth + 1, next.exts, next.names).result.Ok?
    ensures b.TryCandidates(cert, depth, names, candidates, lastErr).result.Ok?
    decreases k
  {
    hide ChainBuilder.PotentialIssuers, ChainBuilder.Descend, Exhausted;
    if k > 0 {
      var rest := candidates[1..];
      assert forall m | 0 <= m < |rest| :: rest[m] == candidates[m + 1];
      match b.Descend(cert, depth, names, candidates[0])
      case Reject(e) => CandidateFound(b, cert, depth, names, rest, k - 1, Some(e));
      case Enter(exts, extended) =>
        var below := b.Search(candidates[0], depth + 1, exts, extended);
        SearchNotFatal(b, candidates[0], depth + 1, exts, extended);
        if below.result.Err? {
          CandidateFound(b, cert, depth, names, rest, k - 1, Some(below.result.error));
        }
    }
  }

  lemma ReversedCons(cert: Certificate, rest: Chain)
    ensures Reversed([cert] + rest) == Reversed(rest) + [cert]
  {
  }

  /** The chain found is a route, and no other route comes before it. */
  lemma {:induction false} FirstRoute(b: ChainBuilder, cert: Certificate, depth: nat, exts: Extensions, names: NameChain)
    returns (ks: seq<nat>)
    requires depth <= MAX_U8 && b.Search(cert, depth, exts, names).result.Ok?
    ensures Route(b, cert, depth, exts, names, ks)
    ensures b.Search(cert, depth, exts, names).result.value == Reversed(RoutePath(b, cert, ks))
    ensures forall other | Route(b, cert, depth, exts, names, other) :: NotAfter(ks, other)
    decreases MAX_U8 - depth, 1, 0
  {
    hide ChainBuilder.PotentialIssuers, ChainBuilder.Descend;
    if b.store.Contains(cert) {
      ks := [];
    } else {
      assert b.PotentialIssuers(cert)[0..] == b.PotentialIssuers(cert);
      ks := FirstVia(b, cert, depth, names, 0, None);
    }
  }

  lemma {:induction false} FirstVia(b: ChainBuilder, cert: Certificate, depth: nat, names: NameChain,
                                    i: nat, lastErr: Option<ValidationError>) returns (ks: seq<nat>)
    requires depth <= MAX_U8 && i <= |b.PotentialIssuers(cert)|
    requires forall m | 0 <= m < i :: !b.Descend(cert, depth, names, b.PotentialIssuers(cert)[m]).Abandon?
    requires b.TryCandidates(cert, depth, names, b.PotentialIssuers(cert)[i..], lastErr).result.Ok?
    ensures ks != [] && ks[0] >= i && RouteVia(b, cert, depth, names, ks)
    ensures b.TryCandidates(cert, depth, names, b.PotentialIssuers(cert)[i..], lastErr).result.value
            == Reversed(RoutePath(b, cert, ks))
    ensures forall other | other != [] && other[0] >= i && RouteVia(b, cert, depth, names, other) :: NotAfter(ks, other)
    decreases MAX_U8 - depth, 0, |b.PotentialIssuers(cert)| - i
  {
    hide ChainBuilder.PotentialIssuers, ChainBuilder.Descend, Exhausted;
    var issuers := b.PotentialIssuers(cert);
    var candidate := issuers[i];
    assert issuers[i..][1..] == issuers[i + 1..];
    match b.Descend(cert, depth, names, candidate)
    case Reject(e) =>
      ks := FirstVia(b, cert, depth, names, i + 1, Some(e));
    case Enter(exts, extended) =>
      var below := b.Search(candidate, depth + 1, exts, extended);
      if below.result.Ok? {
        var deeper := FirstRoute(b, candidate, depth + 1, exts, extended);
        ks := [i] + deeper;
        assert ks[1..] == deeper;
        ReversedCons(cert, RoutePath(b, candidate, deeper));
      } else {
        SearchNotFatal(b, candidate, depth + 1, exts, extended);
        ks := FirstVia(b, cert, depth, names, i + 1, Some(below.result.error));
        forall other | other != [] && other[0] == i && RouteVia(b, cert, depth, names, other) ensures false {
          RouteFound(b, candidate, depth + 1, exts, extended, other[1..]);
        }
      }
  }
}
