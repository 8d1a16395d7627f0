/**
 * Name constraints over a chain of subject alternative names (RFC 5280 sections 4.2.1.10 and 6.1).
 *
 * The specification functions run without a budget and count their checks; the methods run in
 * place against a `Budget`, and their contracts say that the budget is all the difference.
 */
module NameConstraintEvaluation {
  import opened Common
  import opened Certificates
  import DomainNames
  import MailNames
  import IpConstraints

  datatype Reason =
    | MalformedSan
    | MalformedConstraint
    | UnsupportedConstraint
    | NotPermitted
    | ExcludedMatch
    | MaxDepthExceeded
    | DepthOverflow
    | NoInteriorErrors
    | PolicyViolation(text: string)

  datatype ErrorKind =
    | CandidatesExhausted(inner: ValidationError)
    | Malformed
    | ExtensionError(oid: Oid)
    | FatalError
    | Other(reason: Reason)

  datatype ValidationError = ValidationError(kind: ErrorKind, cert: Option<Certificate>)

  function NewError(kind: ErrorKind): ValidationError {
    ValidationError(kind, None)
  }

  // ---------------------------------------------------------------- counted computations

  /** The outcome of a computation and the number of budgeted checks it makes. */
  datatype Counted<T> = Counted(result: Result<T, ValidationError>, checks: nat)

  /** What a computation comes to, and what is left, when only `budget` checks are allowed. */
  function WithBudget<T>(c: Counted<T>, budget: nat): (Result<T, ValidationError>, nat) {
    if c.checks <= budget then (c.result, budget - c.checks) else (Err(NewError(FatalError)), 0)
  }

  /** `c` made after `checks` earlier ones. */
  function After<T>(checks: nat, c: Counted<T>): Counted<T> {
    Counted(c.result, checks + c.checks)
  }

  class Budget {
    var nameConstraintChecks: nat

    static const DEFAULT_NAME_CONSTRAINT_CHECK_LIMIT: nat := 0x10_0000

    constructor ()
      ensures nameConstraintChecks == 0x10_0000
    {
      nameConstraintChecks := DEFAULT_NAME_CONSTRAINT_CHECK_LIMIT;
    }

    method NameConstraintCheck() returns (r: Result<(), ValidationError>)
      modifies this
      ensures (r, nameConstraintChecks) == WithBudget(Counted(Ok(()), 1), old(nameConstraintChecks))
    {
      if nameConstraintChecks < 1 {
        return Err(NewError(FatalError));
      }
      nameConstraintChecks := nameConstraintChecks - 1;
      return Ok(());
    }
  }

  // ---------------------------------------------------------------- one constraint, one name

  datatype Status = Applied(isMatch: bool) | Skipped {
    predicate IsApplied() {
      Applied?
    }

    predicate IsMatch() {
      Applied? && isMatch
    }
  }

  function Refuse<T>(reason: Reason): Result<T, ValidationError> {
    Err(NewError(Other(reason)))
  }

  function CheckDns(constraint: string, name: string): Result<Status, ValidationError> {
    match (DomainNames.NewDnsName(constraint), DomainNames.NewDnsPattern(name))
    case (Some(c), Some(n)) => Ok(Applied(DomainNames.ConstraintMatches(c, n.InnerName())))
    case (_, None) => Refuse(MalformedSan)
    case (None, _) => Refuse(MalformedConstraint)
  }

  function CheckIp(constraint: seq<byte>, name: seq<byte>): Result<Status, ValidationError> {
    match (IpConstraints.ConstraintFromBytes(constraint), IpConstraints.IpFromBytes(name))
    case (Some(c), Some(n)) => Ok(Applied(c.Matches(n)))
    case (_, None) => Refuse(MalformedSan)
    case (None, _) => Refuse(MalformedConstraint)
  }

  function CheckMail(constraint: string, name: string): Result<Status, ValidationError> {
    match (MailNames.NewMailConstraint(constraint), MailNames.NewMailName(name))
    case (Some(c), Some(n)) => Ok(Applied(c.Matches(n)))
    case (_, None) => Refuse(MalformedSan)
    case (None, _) => Refuse(MalformedConstraint)
  }

  function CheckPair(constraint: GeneralName, san: GeneralName): Result<Status, ValidationError> {
    match (constraint, san)
    case (DNSName(c), DNSName(n)) => CheckDns(c, n)
    case (IPAddress(c), IPAddress(n)) => CheckIp(c, n)
    case (RFC822Name(c), RFC822Name(n)) => CheckMail(c, n)
    case (OtherName(_), OtherName(_)) => Refuse(UnsupportedConstraint)
    case (X400Address(_), X400Address(_)) => Refuse(UnsupportedConstraint)
    case (DirectoryName(_), DirectoryName(_)) => Refuse(UnsupportedConstraint)
    case (EDIPartyName(_), EDIPartyName(_)) => Refuse(UnsupportedConstraint)
    case (UniformResourceIdentifier(_), UniformResourceIdentifier(_)) => Refuse(UnsupportedConstraint)
    case (RegisteredID(_), RegisteredID(_)) => Refuse(UnsupportedConstraint)
    case _ => Ok(Skipped)
  }

  method EvaluateSingleConstraint(constraint: GeneralName, san: GeneralName, budget: Budget)
    returns (r: Result<Status, ValidationError>)
    modifies budget
    ensures (r, budget.nameConstraintChecks) ==
            WithBudget(Counted(CheckPair(constraint, san), 1), old(budget.nameConstraintChecks))
  {
    var checked := budget.NameConstraintCheck();
    if checked.Err? {
      return Err(checked.error);
    }
    r := CheckPair(constraint, san);
  }

  // ---------------------------------------------------------------- what one pair comes to

  /** Two names of one kind. */
  predicate SameKind(a: GeneralName, b: GeneralName) {
    || (a.DNSName? && b.DNSName?) || (a.IPAddress? && b.IPAddress?) || (a.RFC822Name? && b.RFC822Name?)
    || SameOtherKind(a, b)
  }

  /** Of one kind, and not one of the three that can be compared. */
  predicate SameOtherKind(a: GeneralName, b: GeneralName) {
    || (a.OtherName? && b.OtherName?) || (a.X400Address? && b.X400Address?)
    || (a.DirectoryName? && b.DirectoryName?) || (a.EDIPartyName? && b.EDIPartyName?)
    || (a.UniformResourceIdentifier? && b.UniformResourceIdentifier?) || (a.RegisteredID? && b.RegisteredID?)
  }

  /** Names of different kinds never decide each other, and the six other kinds are always refused. */
  lemma KindsDecide(constraint: GeneralName, san: GeneralName)
    ensures CheckPair(constraint, san) == Ok(Skipped) <==> !SameKind(constraint, san)
    ensures SameOtherKind(constraint, san) ==> CheckPair(constraint, san) == Refuse(UnsupportedConstraint)
  {
    hide CheckDns, CheckIp, CheckMail;
    if constraint.DNSName? && san.DNSName? {
      DnsVerdicts(constraint.dns, san.dns);
    } else if constraint.IPAddress? && san.IPAddress? {
      IpVerdicts(constraint.octets, san.octets);
    } else if constraint.RFC822Name? && san.RFC822Name? {
      MailVerdicts(constraint.mail, san.mail);
    }
  }

  /** An unreadable SAN is reported before an unreadable constraint; else the inner name is compared as text. */
  lemma DnsVerdicts(constraint: string, name: string)
    ensures CheckPair(DNSName(constraint), DNSName(name)) ==
            var san := DomainNames.NewDnsPattern(name);
            if san.None? then Refuse(MalformedSan)
            else if !DomainNames.IsDnsName(constraint) then Refuse(MalformedConstraint)
            else Ok(Applied(DomainNames.TextSuffix(constraint, san.value.InnerName())))
  {
    hide DomainNames.TextSuffix, DomainNames.ConstraintMatches, DomainNames.NewDnsPattern;
    if DomainNames.NewDnsPattern(name).Some? && DomainNames.IsDnsName(constraint) {
      DomainNames.ConstraintMatchesMeaning(constraint, DomainNames.NewDnsPattern(name).value.InnerName());
    }
  }

  lemma IpVerdicts(constraint: seq<byte>, octets: seq<byte>)
    ensures CheckPair(IPAddress(constraint), IPAddress(octets)) ==
            if |octets| != 4 && |octets| != 16 then Refuse(MalformedSan)
            else if IpConstraints.ConstraintFromBytes(constraint).None? then Refuse(MalformedConstraint)
            else Ok(Applied(|constraint| == 2 * |octets|
                            && IpConstraints.SameUnder(octets, constraint[..|octets|], constraint[|octets|..])))
  {
    hide IpConstraints.ConstraintFromBytes, IpConstraints.IpFromBytes, IpConstraints.SameUnder;
    hide IpConstraints.IpConstraint.Matches;
    IpConstraints.IpFromBytesMeaning(octets);
    if IpConstraints.IpFromBytes(octets).Some? && IpConstraints.ConstraintFromBytes(constraint).Some? {
      IpConstraints.ConstraintOnOctets(constraint, octets);
    }
  }

  lemma MailVerdicts(constraint: string, name: string)
    ensures CheckPair(RFC822Name(constraint), RFC822Name(name)) ==
            var san := MailNames.NewMailName(name);
            var pat := MailNames.NewMailConstraint(constraint);
            if san.None? then Refuse(MalformedSan)
            else if pat.None? then Refuse(MalformedConstraint)
            else Ok(Applied(pat.value.Matches(san.value)))
  {
    hide MailNames.NewMailName, MailNames.NewMailConstraint, MailNames.MailConstraint.Matches;
  }

  // ---------------------------------------------------------------- the scans, without a budget

  /** The verdict of the permitted subtrees, given the verdict `permit` of those already seen. */
  function ScanPermitted(subtrees: seq<GeneralName>, san: GeneralName, permit: bool): Counted<bool> {
    if subtrees == [] then Counted(Ok(permit), 0)
    else
      match CheckPair(subtrees[0], san)
      case Err(e) => Counted(Err(e), 1)
      case Ok(Skipped) => After(1, ScanPermitted(subtrees[1..], san, permit))
      case Ok(Applied(true)) => Counted(Ok(true), 1)
      case Ok(Applied(false)) => After(1, ScanPermitted(subtrees[1..], san, false))
  }

  function ScanExcluded(subtrees: seq<GeneralName>, san: GeneralName): Counted<()> {
    if subtrees == [] then Counted(Ok(()), 0)
    else
      match CheckPair(subtrees[0], san)
      case Err(e) => Counted(Err(e), 1)
      case Ok(status) =>
        if status.IsMatch() then Counted(Refuse(ExcludedMatch), 1)
        else After(1, ScanExcluded(subtrees[1..], san))
  }

  function Subtrees(s: Option<seq<GeneralName>>): seq<GeneralName> {
    match s
    case Some(subtrees) => subtrees
    case None => []
  }

  function EvaluateSan(nc: NameConstraints, san: GeneralName): Counted<()> {
    var permitted := ScanPermitted(Subtrees(nc.permittedSubtrees), san, true);
    match permitted.result
    case Err(e) => Counted(Err(e), permitted.checks)
    case Ok(permit) =>
      if !permit then Counted(Refuse(NotPermitted), permitted.checks)
      else After(permitted.checks, ScanExcluded(Subtrees(nc.excludedSubtrees), san))
  }

  function EvaluateSans(nc: NameConstraints, sans: seq<GeneralName>): Counted<()> {
    if sans == [] then Counted(Ok(()), 0)
    else
      var first := EvaluateSan(nc, sans[0]);
      if first.result.Err? then first else After(first.checks, EvaluateSans(nc, sans[1..]))
  }

  // ---------------------------------------------------------------- the chain of names

  datatype NameChain = NameChain(child: Option<NameChain>, sans: seq<GeneralName>) {
    /** The names the chain collected, the leaf's first. */
    function AllSans(): seq<GeneralName> {
      match child
      case None => sans
      case Some(below) => below.AllSans() + sans
    }

    /** The whole chain below first, then the names of this member. */
    function Evaluation(nc: NameConstraints): Counted<()> {
      match child
      case None => EvaluateSans(nc, sans)
      case Some(below) =>
        var first := below.Evaluation(nc);
        if first.result.Err? then first else After(first.checks, EvaluateSans(nc, sans))
    }

    method EvaluateConstraints(nc: NameConstraints, budget: Budget) returns (r: Result<(), ValidationError>)
      modifies budget
      ensures (r, budget.nameConstraintChecks) == WithBudget(Evaluation(nc), old(budget.nameConstraintChecks))
    {
      hide EvaluateSan;
      if child.Some? {
        r := child.value.EvaluateConstraints(nc, budget);
        if r.Err? {
          return;
        }
      }
      var k := 0;
      while k < |sans|
        invariant 0 <= k <= |sans|
        invariant WithBudget(EvaluateSans(nc, sans[k..]), budget.nameConstraintChecks) ==
                  WithBudget(Evaluation(nc), old(budget.nameConstraintChecks))
      {
        r := EvaluateOneSan(nc, sans[k], budget);
        if r.Err? {
          return;
        }
        k := k + 1;
      }
      return Ok(());
    }
  }

  /** The body of the loop over the names. */
  method EvaluateOneSan(nc: NameConstraints, san: GeneralName, budget: Budget)
    returns (r: Result<(), ValidationError>)
    modifies budget
    ensures (r, budget.nameConstraintChecks) == WithBudget(EvaluateSan(nc, san), old(budget.nameConstraintChecks))
  {
    hide CheckPair;
    var permit := true;
    if nc.permittedSubtrees.Some? {
      var scanned := EvaluatePermitted(nc.permittedSubtrees.value, san, budget);
      if scanned.Err? {
        return Err(scanned.error);
      }
      permit := scanned.value;
    }
    if !permit {
      return Refuse(NotPermitted);
    }
    r := Ok(());
    if nc.excludedSubtrees.Some? {
      r := EvaluateExcluded(nc.excludedSubtrees.value, san, budget);
    }
  }

  method EvaluatePermitted(subtrees: seq<GeneralName>, san: GeneralName, budget: Budget)
    returns (r: Result<bool, ValidationError>)
    modifies budget
    ensures (r, budget.nameConstraintChecks) ==
            WithBudget(ScanPermitted(subtrees, san, true), old(budget.nameConstraintChecks))
  {
    hide CheckPair, ScanPermitted;
    var permit := true;
    var k := 0;
    assert subtrees[0..] == subtrees;
    while k < |subtrees|
      invariant 0 <= k <= |subtrees|
      invariant WithBudget(ScanPermitted(subtrees[k..], san, permit), budget.nameConstraintChecks) ==
                WithBudget(ScanPermitted(subtrees, san, true), old(budget.nameConstraintChecks))
    {
      ScanPermittedStep(subtrees, k, san, permit);
      var status := EvaluateSingleConstraint(subtrees[k], san, budget);
      if status.Err? {
        return Err(status.error);
      }
      if status.value.IsApplied() {
        permit := status.value.IsMatch();
        if permit {
          return Ok(true);
        }
      }
      k := k + 1;
    }
    assert subtrees[k..] == [];
    ScanPermittedEnd(san, permit);
    return Ok(permit);
  }

  /** One unfolding of the scan from index `k` on. */
  lemma ScanPermittedStep(subtrees: seq<GeneralName>, k: nat, san: GeneralName, permit: bool)
    requires k < |subtrees|
    ensures ScanPermitted(subtrees[k..], san, permit) ==
            match CheckPair(subtrees[k], san)
            case Err(e) => Counted(Err(e), 1)
            case Ok(Skipped) => After(1, ScanPermitted(subtrees[k + 1..], san, permit))
            case Ok(Applied(true)) => Counted(Ok(true), 1)
            case Ok(Applied(false)) => After(1, ScanPermitted(subtrees[k + 1..], san, false))
  {
    hide CheckPair;
    assert subtrees[k..][1..] == subtrees[k + 1..];
  }

  lemma ScanPermittedEnd(san: GeneralName, permit: bool)
    ensures ScanPermitted([], san, permit) == Counted(Ok(permit), 0)
  {
  }

  method EvaluateExcluded(subtrees: seq<GeneralName>, san: GeneralName, budget: Budget)
    returns (r: Result<(), ValidationError>)
    modifies budget
    ensures (r, budget.nameConstraintChecks) ==
            WithBudget(ScanExcluded(subtrees, san), old(budget.nameConstraintChecks))
  {
    hide CheckPair, ScanExcluded;
    var k := 0;
    assert subtrees[0..] == subtrees;
    while k < |subtrees|
      invariant 0 <= k <= |subtrees|
      invariant WithBudget(ScanExcluded(subtrees[k..], san), budget.nameConstraintChecks) ==
                WithBudget(ScanExcluded(subtrees, san), old(budget.nameConstraintChecks))
    {
      ScanExcludedStep(subtrees, k, san);
      var status := EvaluateSingleConstraint(subtrees[k], san, budget);
      if status.Err? {
        return Err(status.error);
      }
      if status.value.IsMatch() {
        return Refuse(ExcludedMatch);
      }
      k := k + 1;
    }
    assert subtrees[k..] == [];
    ScanExcludedEnd(san);
    return Ok(());
  }

  lemma ScanExcludedStep(subtrees: seq<GeneralName>, k: nat, san: GeneralName)
    requires k < |subtrees|
    ensures ScanExcluded(subtrees[k..], san) ==
            match CheckPair(subtrees[k], san)
            case Err(e) => Counted(Err(e), 1)
            case Ok(status) =>
              if status.IsMatch() then Counted(Refuse(ExcludedMatch), 1)
              else After(1, ScanExcluded(subtrees[k + 1..], san))
  {
    hide CheckPair;
    assert subtrees[k..][1..] == subtrees[k + 1..];
  }

  lemma ScanExcludedEnd(san: GeneralName)
    ensures ScanExcluded([], san) == Counted(Ok(()), 0)
  {
  }

  // ---------------------------------------------------------------- what the evaluation means

  predicate PairMatches(subtree: GeneralName, san: GeneralName) {
    var r := CheckPair(subtree, san);
    r.Ok? && r.value.IsMatch()
  }

  predicate PairApplies(subtree: GeneralName, san: GeneralName) {
    var r := CheckPair(subtree, san);
    r.Ok? && r.value.IsApplied()
  }

  /** The pair is malformed, or of a kind the evaluation does not support. */
  predicate PairFails(subtree: GeneralName, san: GeneralName) {
    CheckPair(subtree, san).Err?
  }

  /** Some permitted subtree matches the name, or none applies to names of its kind. */
  ghost predicate Permits(nc: NameConstraints, san: GeneralName) {
    PermittedBy(Subtrees(nc.permittedSubtrees), san)
  }

  ghost predicate PermittedBy(ps: seq<GeneralName>, san: GeneralName) {
    || (exists i :: 0 <= i < |ps| && PairMatches(ps[i], san))
    || (forall i | 0 <= i < |ps| :: !PairApplies(ps[i], san))
  }

  ghost predicate Excludes(nc: NameConstraints, san: GeneralName) {
    var es := Subtrees(nc.excludedSubtrees);
    exists i :: 0 <= i < |es| && PairMatches(es[i], san)
  }

  /** No failing pair is met before a permitted subtree matches, nor among the excluded ones. */
  ghost predicate ScansCleanly(nc: NameConstraints, san: GeneralName) {
    && FailuresShadowed(Subtrees(nc.permittedSubtrees), san)
    && var es := Subtrees(nc.excludedSubtrees);
       forall i | 0 <= i < |es| :: !PairFails(es[i], san)
  }

  ghost predicate FailuresShadowed(ps: seq<GeneralName>, san: GeneralName) {
    forall i | 0 <= i < |ps| && PairFails(ps[i], san) :: MatchBelow(ps, san, i)
  }

  ghost predicate MatchBelow(ps: seq<GeneralName>, san: GeneralName, k: nat)
    requires k <= |ps|
  {
    exists j :: 0 <= j < k && PairMatches(ps[j], san)
  }

  ghost predicate Accepts(nc: NameConstraints, san: GeneralName) {
    Permits(nc, san) && !Excludes(nc, san) && ScansCleanly(nc, san)
  }

  /** The early exit of the permitted scan, once the verdict `permit` of the subtrees before is known. */
  lemma {:induction false} ScanPermittedMeaning(ps: seq<GeneralName>, san: GeneralName, permit: bool)
    ensures ScanPermitted(ps, san, permit).result == Ok(true) <==>
            && FailuresShadowed(ps, san)
            && (MatchBelow(ps, san, |ps|) || (permit && forall i | 0 <= i < |ps| :: !PairApplies(ps[i], san)))
  {
    hide CheckPair;
    if ps != [] {
      var rest := ps[1..];
      assert forall i | 0 <= i < |rest| :: rest[i] == ps[i + 1];
      if PairFails(ps[0], san) {
        assert !MatchBelow(ps, san, 0);
      } else if PairMatches(ps[0], san) {
        assert forall k | 0 < k <= |ps| :: MatchBelow(ps, san, k);
      } else {
        forall k | 0 <= k <= |rest| ensures MatchBelow(ps, san, k + 1) <==> MatchBelow(rest, san, k) {
          if j :| 0 <= j < k + 1 && PairMatches(ps[j], san) {
            assert PairMatches(rest[j - 1], san);
          }
        }
        ScanPermittedMeaning(rest, san, permit && !PairApplies(ps[0], san));
        ShadowedTail(ps, san);
      }
    }
  }

  lemma ShadowedTail(ps: seq<GeneralName>, san: GeneralName)
    requires ps != [] && !PairFails(ps[0], san)
    requires forall k | 0 <= k <= |ps| - 1 :: MatchBelow(ps, san, k + 1) <==> MatchBelow(ps[1..], san, k)
    ensures FailuresShadowed(ps, san) <==> FailuresShadowed(ps[1..], san)
  {
    var rest := ps[1..];
    if FailuresShadowed(ps, san) {
      forall i | 0 <= i < |rest| && PairFails(rest[i], san) ensures MatchBelow(rest, san, i) {
        assert PairFails(ps[i + 1], san);
      }
    }
    if FailuresShadowed(rest, san) {
      forall i | 0 <= i < |ps| && PairFails(ps[i], san) ensures MatchBelow(ps, san, i) {
        assert PairFails(rest[i - 1], san);
        assert MatchBelow(rest, san, i - 1);
        assert MatchBelow(ps, san, i - 1 + 1);
      }
    }
  }

  lemma {:induction false} ScanExcludedMeaning(es: seq<GeneralName>, san: GeneralName)
    ensures ScanExcluded(es, san).result.Ok? <==>
            forall i | 0 <= i < |es| :: !PairFails(es[i], san) && !PairMatches(es[i], san)
  {
    hide CheckPair;
    if es != [] {
      ScanExcludedMeaning(es[1..], san);
    }
  }

  /** One name passes the two scans exactly when it is permitted, not excluded, and cleanly decided. */
  lemma EvaluateSanMeaning(nc: NameConstraints, san: GeneralName)
    ensures EvaluateSan(nc, san).result.Ok? <==> Accepts(nc, san)
  {
    hide CheckPair, FailuresShadowed, PairMatches, PairApplies, PairFails;
    ScanPermittedMeaning(Subtrees(nc.permittedSubtrees), san, true);
    ScanExcludedMeaning(Subtrees(nc.excludedSubtrees), san);
  }

  ghost predicate AllAccepted(nc: NameConstraints, sans: seq<GeneralName>) {
    forall san | san in sans :: Accepts(nc, san)
  }

  lemma {:induction false} EvaluateSansMeaning(nc: NameConstraints, sans: seq<GeneralName>)
    ensures EvaluateSans(nc, sans).result.Ok? <==> AllAccepted(nc, sans)
  {
    if sans != [] {
      EvaluateSanMeaning(nc, sans[0]);
      EvaluateSansMeaning(nc, sans[1..]);
      assert sans == [sans[0]] + sans[1..];
    }
  }

  /** The evaluation accepts exactly when every name on the whole chain below is accepted. */
  lemma {:induction false} EvaluationMeaning(chain: NameChain, nc: NameConstraints)
    ensures chain.Evaluation(nc).result.Ok? <==> AllAccepted(nc, chain.AllSans())
  {
    EvaluateSansMeaning(nc, chain.sans);
    if chain.child.Some? {
      EvaluationMeaning(chain.child.value, nc);
    }
  }

  /** With no malformed or unsupported pair, only the two subtree rules decide. */
  lemma CleanEvaluation(chain: NameChain, nc: NameConstraints)
    requires forall p, san | p in Subtrees(nc.permittedSubtrees) + Subtrees(nc.excludedSubtrees)
                             && san in chain.AllSans() :: !PairFails(p, san)
    ensures chain.Evaluation(nc).result.Ok? <==>
            forall san | san in chain.AllSans() :: Permits(nc, san) && !Excludes(nc, san)
  {
    EvaluationMeaning(chain, nc);
    var ps, es := Subtrees(nc.permittedSubtrees), Subtrees(nc.excludedSubtrees);
    assert forall i | 0 <= i < |ps| :: ps[i] in ps + es;
    assert forall i | 0 <= i < |es| :: es[i] in ps + es;
    forall san | san in chain.AllSans() ensures ScansCleanly(nc, san) {
    }
  }

  /** `*.foo.com` is accepted although it stands for `a.foo.com`, which is excluded. */
  lemma ExcludedNameSlips() returns (nc: NameConstraints, pattern: DomainNames.DnsPattern, name: DomainNames.DnsName)
    ensures nc == NameConstraints(None, Some([DNSName("a.foo.com")]))
    ensures DomainNames.NewDnsPattern("*.foo.com") == Some(pattern)
    ensures name == "a.foo.com" && pattern.Matches(name)
    ensures Excludes(nc, DNSName(name))
    ensures EvaluateSan(nc, DNSName("*.foo.com")).result == Ok(())
  {
    hide DomainNames.ConstraintMatches, DomainNames.Split, DomainNames.Parent;
    nc := NameConstraints(None, Some([DNSName("a.foo.com")]));
    FooIsName();
    var foo: DomainNames.DnsName := "foo.com";
    name := DomainNames.ChildOf("a", foo);
    pattern := DomainNames.Wildcard(foo);
    assert "*.foo.com"[2..] == foo;
    assert DomainNames.EqIgnoreCase(foo, foo);
    DomainNames.ChildMissesInner(name, pattern);
    DomainNames.ConstraintMatchesMeaning(name, name);
    assert !("*." <= name) by {
      assert name[0] == 'a';
    }
    assert name == "a.foo.com" by {
      assert "a" + "." + "foo.com" == "a.foo.com";
    }
    var es := Subtrees(nc.excludedSubtrees);
    assert es == [DNSName(name)];
    DnsVerdict(name, name, DomainNames.Exact(name));
    assert PairMatches(es[0], DNSName(name));
    DnsVerdict(name, "*.foo.com", pattern);
    assert ScanExcluded(es[1..], DNSName("*.foo.com")).result == Ok(());
  }

  lemma DnsVerdict(constraint: DomainNames.DnsName, text: string, pattern: DomainNames.DnsPattern)
    requires DomainNames.NewDnsPattern(text) == Some(pattern)
    ensures CheckPair(DNSName(constraint), DNSName(text))
            == Ok(Applied(DomainNames.ConstraintMatches(constraint, pattern.InnerName())))
  {
    hide DomainNames.ConstraintMatches;
  }

  lemma FooIsName()
    ensures DomainNames.IsDnsName("foo.com")
  {
    hide DomainNames.Split;
    DomainNames.LabelIsOnePiece("foo");
    DomainNames.LabelIsOnePiece("com");
    DomainNames.SplitConcat("foo", "com", '.');
    assert "foo" + "." + "com" == "foo.com";
    assert DomainNames.IsLabel("foo") && DomainNames.IsLabel("com");
    hide *;
    DomainNames.TwoLabels("foo", "com");
  }

  /** Only the budget makes an evaluation fatal. */
  lemma {:induction false} EvaluationNotFatal(chain: NameChain, nc: NameConstraints)
    ensures chain.Evaluation(nc).result.Err? ==> chain.Evaluation(nc).result.error.kind.Other?
  {
    if chain.child.Some? { EvaluationNotFatal(chain.child.value, nc); }
    SansNotFatal(nc, chain.sans);
  }

  lemma {:induction false} SansNotFatal(nc: NameConstraints, sans: seq<GeneralName>)
    ensures EvaluateSans(nc, sans).result.Err? ==> EvaluateSans(nc, sans).result.error.kind.Other?
  {
    if sans != [] {
      PermittedNotFatal(Subtrees(nc.permittedSubtrees), sans[0], true);
      ExcludedNotFatal(Subtrees(nc.excludedSubtrees), sans[0]);
      SansNotFatal(nc, sans[1..]);
    }
  }

  lemma {:induction false} PermittedNotFatal(ps: seq<GeneralName>, san: GeneralName, permit: bool)
    ensures var r := ScanPermitted(ps, san, permit).result; r.Err? ==> r.error.kind.Other?
  {
    if ps != [] {
      PermittedNotFatal(ps[1..], san, permit);
      PermittedNotFatal(ps[1..], san, false);
    }
  }

  lemma {:induction false} ExcludedNotFatal(es: seq<GeneralName>, san: GeneralName)
    ensures var r := ScanExcluded(es, san).result; r.Err? ==> r.error.kind.Other?
  {
    if es != [] { ExcludedNotFatal(es[1..], san); }
  }
}
