/**
 * Path building: a depth-first search over the trust store and the intermediates.
 *
 * `Search` and `TryCandidates` are the search without a budget; the methods of `ChainBuilder` run it
 * in place against a `Budget` and are proved equal to it up to the budget.
 */
module ChainBuilding {
  import opened Common
  import opened Certificates
  import opened TrustStore
  import opened NameConstraintEvaluation

  /** The policy module is a parameter: any two functions of the arguments the search hands over. */
  datatype Policy = Policy(
    maxChainDepth: u8,
    permitsEe: (Certificate, Extensions) -> Result<(), ValidationError>,
    validIssuer: (Certificate, Certificate, nat, Extensions) -> Result<(), ValidationError>)

  type Chain = seq<Certificate>

  const MAX_U8: nat := 255

  function ReadExtensions(cert: Certificate): Result<Extensions, ValidationError> {
    match ExtensionsOf(cert)
    case Ok(exts) => Ok(exts)
    case Err(oid) => Err(NewError(ExtensionError(oid)))
  }

  /** `NameChain::new`: the names of a self-issued intermediate are not collected. */
  function NewNameChain(child: Option<NameChain>, exts: Extensions, selfIssuedIntermediate: bool)
    : Result<NameChain, ValidationError>
  {
    match CollectedSans(exts, selfIssuedIntermediate)
    case Some(sans) => Ok(NameChain(child, sans))
    case None => Err(NewError(Malformed))
  }

  function CollectedSans(exts: Extensions, selfIssuedIntermediate: bool): Option<seq<GeneralName>> {
    match exts.GetExtension(SubjectAlternativeNameOid)
    case Some(ext) =>
      if selfIssuedIntermediate then Some([])
      else if ext.extnValue.Sans? then Some(ext.extnValue.names)
      else None
    case None => Some([])
  }

  /** The name constraints a certificate carries: `Ok(None)` if it has no such extension. */
  function CarriedConstraints(exts: Extensions): Result<Option<NameConstraints>, ValidationError> {
    match exts.GetExtension(NameConstraintsOid)
    case None => Ok(None)
    case Some(ext) =>
      if ext.extnValue.Constraints? then Ok(Some(ext.extnValue.constraints)) else Err(NewError(Malformed))
  }

  function CheckConstraints(exts: Extensions, names: NameChain): Counted<()> {
    match CarriedConstraints(exts)
    case Err(e) => Counted(Err(e), 0)
    case Ok(None) => Counted(Ok(()), 0)
    case Ok(Some(nc)) => names.Evaluation(nc)
  }

  /** The error of a level whose candidates are used up; nested exhaustion is flattened. */
  function Exhausted(lastErr: Option<ValidationError>): ValidationError {
    match lastErr
    case None => NewError(CandidatesExhausted(NewError(Other(NoInteriorErrors))))
    case Some(ValidationError(CandidatesExhausted(inner), _)) => NewError(CandidatesExhausted(inner))
    case Some(e) => NewError(CandidatesExhausted(e))
  }

  /** What one candidate leads to before the search goes below it. */
  datatype Descent =
    | Abandon(error: ValidationError)  // an early return: the rest of the level is not tried
    | Reject(error: ValidationError)   // the next candidate is tried
    | Enter(exts: Extensions, names: NameChain)

  datatype ChainBuilder = ChainBuilder(intermediates: seq<Certificate>, policy: Policy, store: Store) {

    function Filtered(certs: seq<Certificate>, subject: Name): seq<Certificate> {
      if certs == [] then []
      else
        var rest := Filtered(certs[1..], subject);
        if certs[0].subject == subject then [certs[0]] + rest else rest
    }

    function PotentialIssuers(cert: Certificate): seq<Certificate> {
      store.GetBySubject(cert.issuer) + Filtered(intermediates, cert.issuer)
    }

    function Descend(cert: Certificate, depth: nat, names: NameChain, candidate: Certificate): (d: Descent)
      ensures d.Enter? ==> depth < MAX_U8
    {
      match ReadExtensions(candidate)
      case Err(e) => Abandon(e)
      case Ok(exts) =>
        match policy.validIssuer(candidate, cert, depth, exts)
        case Err(e) => Reject(e)
        case Ok(_) =>
          if depth >= MAX_U8 then Abandon(NewError(Other(DepthOverflow)))
          else
            match NewNameChain(Some(names), exts, candidate.IsSelfIssued())
            case Err(e) => Abandon(e)
            case Ok(extended) => Enter(exts, extended)
    }

    function Search(cert: Certificate, depth: nat, exts: Extensions, names: NameChain): Counted<Chain>
      requires depth <= MAX_U8
      decreases MAX_U8 - depth, 1, 0
    {
      var constraints := CheckConstraints(exts, names);
      match constraints.result
      case Err(e) => Counted(Err(e), constraints.checks)
      case Ok(_) =>
        if store.Contains(cert) then Counted(Ok([cert]), constraints.checks)
        else if depth > policy.maxChainDepth then Counted(Refuse(MaxDepthExceeded), constraints.checks)
        else After(constraints.checks, TryCandidates(cert, depth, names, PotentialIssuers(cert), None))
    }

    function TryCandidates(cert: Certificate, depth: nat, names: NameChain, candidates: seq<Certificate>,
                           lastErr: Option<ValidationError>): Counted<Chain>
      requires depth <= MAX_U8
      decreases MAX_U8 - depth, 0, |candidates|
    {
      if candidates == [] then Counted(Err(Exhausted(lastErr)), 0)
      else
        match Descend(cert, depth, names, candidates[0])
        case Abandon(e) => Counted(Err(e), 0)
        case Reject(e) => TryCandidates(cert, depth, names, candidates[1..], Some(e))
        case Enter(exts, extended) =>
          var below := Search(candidates[0], depth + 1, exts, extended);
          match below.result
          case Ok(chain) => Counted(Ok(chain + [cert]), below.checks)
          case Err(e) =>
            if e.kind.FatalError? then Counted(Err(e), below.checks)
            else After(below.checks, TryCandidates(cert, depth, names, candidates[1..], Some(e)))
    }

    /** The search from the leaf, once the leaf itself is permitted. */
    function BuildChainSpec(leaf: Certificate): Counted<Chain> {
      match ReadExtensions(leaf)
      case Err(e) => Counted(Err(e), 0)
      case Ok(exts) =>
        match policy.permitsEe(leaf, exts)
        case Err(e) => Counted(Err(e.(cert := Some(leaf))), 0)
        case Ok(_) =>
          match NewNameChain(None, exts, false)
          case Err(e) => Counted(Err(e), 0)
          case Ok(names) =>
            var found := Search(leaf, 0, exts, names);
            match found.result
            case Err(e) => found
            case Ok(chain) => Counted(Ok(Reversed(chain)), found.checks)
    }

    method BuildChainInner(cert: Certificate, depth: nat, exts: Extensions, names: NameChain, budget: Budget)
      returns (r: Result<Chain, ValidationError>)
      requires depth <= MAX_U8
      modifies budget
      ensures (r, budget.nameConstraintChecks) ==
              WithBudget(Search(cert, depth, exts, names), old(budget.nameConstraintChecks))
      decreases MAX_U8 - depth, 1
    {
      hide ChainBuilder.PotentialIssuers, ChainBuilder.TryCandidates, CarriedConstraints;
      var carried := CarriedConstraints(exts);
      if carried.Err? {
        return Err(carried.error);
      }
      if carried.value.Some? {
        var evaluated := names.EvaluateConstraints(carried.value.value, budget);
        if evaluated.Err? {
          return Err(evaluated.error);
        }
      }
      if store.Contains(cert) {
        return Ok([cert]);
      }
      if depth > policy.maxChainDepth {
        return Refuse(MaxDepthExceeded);
      }

      r := TryIssuers(cert, depth, names, budget);
    }

    /** The loop over the candidates. */
    method TryIssuers(cert: Certificate, depth: nat, names: NameChain, budget: Budget)
      returns (r: Result<Chain, ValidationError>)
      requires depth <= MAX_U8
      modifies budget
      ensures (r, budget.nameConstraintChecks) ==
              WithBudget(TryCandidates(cert, depth, names, PotentialIssuers(cert), None),
                         old(budget.nameConstraintChecks))
      decreases MAX_U8 - depth, 0
    {
      hide ChainBuilder.PotentialIssuers, ChainBuilder.Search, ReadExtensions, NewNameChain, Exhausted;
      var lastErr: Option<ValidationError> := None;
      var candidates := PotentialIssuers(cert);
      ghost var goal := WithBudget(TryCandidates(cert, depth, names, candidates, None), budget.nameConstraintChecks);
      var k := 0;
      while k < |candidates|
        invariant 0 <= k <= |candidates|
        invariant WithBudget(TryCandidates(cert, depth, names, candidates[k..], lastErr), budget.nameConstraintChecks)
                  == goal
      {
        var candidate := candidates[k];
        assert candidates[k..][1..] == candidates[k + 1..];
        var issuerExtensions := ReadExtensions(candidate);
        if issuerExtensions.Err? {
          return Err(issuerExtensions.error);
        }
        var valid := policy.validIssuer(candidate, cert, depth, issuerExtensions.value);
        if valid.Ok? {
          if depth >= MAX_U8 {
            return Refuse(DepthOverflow);
          }
          var extended := NewNameChain(Some(names), issuerExtensions.value, candidate.IsSelfIssued());
          if extended.Err? {
            return Err(extended.error);
          }
          var below := BuildChainInner(candidate, depth + 1, issuerExtensions.value, extended.value, budget);
          if below.Ok? {
            return Ok(below.value + [cert]);
          } else if below.error.kind.FatalError? {
            return Err(below.error);
          } else {
            lastErr := Some(below.error);
          }
        } else {
          lastErr := Some(valid.error);
        }
        k := k + 1;
      }
      return Err(Exhausted(lastErr));
    }

    method BuildChain(leaf: Certificate, budget: Budget) returns (r: Result<Chain, ValidationError>)
      modifies budget
      ensures (r, budget.nameConstraintChecks) ==
              WithBudget(BuildChainSpec(leaf), old(budget.nameConstraintChecks))
    {
      var exts := ReadExtensions(leaf);
      if exts.Err? {
        return Err(exts.error);
      }
      var permitted := policy.permitsEe(leaf, exts.value);
      if permitted.Err? {
        return Err(permitted.error.(cert := Some(leaf)));
      }
      var names := NewNameChain(None, exts.value, false);
      if names.Err? {
        return Err(names.error);
      }
      var chain := BuildChainInner(leaf, 0, exts.value, names.value, budget);
      if chain.Err? {
        return Err(chain.error);
      }
      return Ok(Reversed(chain.value));
    }
  }

  /** What `verify` returns: the search, cut off at the default number of checks. */
  function VerifySpec(leaf: Certificate, builder: ChainBuilder): Result<Chain, ValidationError> {
    WithBudget(builder.BuildChainSpec(leaf), Budget.DEFAULT_NAME_CONSTRAINT_CHECK_LIMIT).0
  }

  method Verify(leaf: Certificate, intermediates: seq<Certificate>, policy: Policy, store: Store)
    returns (r: Result<Chain, ValidationError>)
    ensures r == VerifySpec(leaf, ChainBuilder(intermediates, policy, store))
  {
    var builder := ChainBuilder(intermediates, policy, store);
    var budget := new Budget();
    r := builder.BuildChain(leaf, budget);
  }
}
