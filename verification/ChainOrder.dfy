/** The order of the search, on the lists it is given: the trusted certificates first, then the intermediates. */
module ChainOrder {
  import opened Common
  import opened Certificates
  import opened TrustStore
  import opened NameConstraintEvaluation
  import opened ChainBuilding
  import opened ChainSearch
  import opened ChainGuarantees

  /** The store was built from `trusted`. */
  ghost predicate BuiltFrom(b: ChainBuilder, trusted: seq<Certificate>) {
    forall name :: b.store.GetBySubject(name) == WithSubject(trusted, name)
  }

  lemma {:induction false} WithSubjectConcat(x: seq<Certificate>, y: seq<Certificate>, subject: Name)
    ensures WithSubject(x + y, subject) == WithSubject(x, subject) + WithSubject(y, subject)
  {
    if y == [] {
      assert x + y == x;
      assert WithSubject(x, subject) + [] == WithSubject(x, subject);
    } else {
      var front, last := y[..|y| - 1], y[|y| - 1];
      assert (x + y)[..|x + y| - 1] == x + front && (x + y)[|x + y| - 1] == last;
      WithSubjectConcat(x, front, subject);
      ConcatAssoc(WithSubject(x, subject), WithSubject(front, subject), [last]);
    }
  }

  lemma {:induction false} FilteredIsScan(b: ChainBuilder, certs: seq<Certificate>, subject: Name)
    ensures b.Filtered(certs, subject) == WithSubject(certs, subject)
  {
    if certs != [] {
      FilteredIsScan(b, certs[1..], subject);
      assert certs == [certs[0]] + certs[1..];
      WithSubjectConcat([certs[0]], certs[1..], subject);
      assert WithSubject([certs[0]], subject) == if certs[0].subject == subject then [certs[0]] else [];
    }
  }

  /** The candidates are one scan of the trusted certificates followed by the intermediates, in the order given. */
  lemma CandidatesAreOneScan(b: ChainBuilder, trusted: seq<Certificate>, cert: Certificate)
    requires BuiltFrom(b, trusted)
    ensures b.PotentialIssuers(cert) == WithSubject(trusted + b.intermediates, cert.issuer)
  {
    FilteredIsScan(b, b.intermediates, cert.issuer);
    WithSubjectConcat(trusted, b.intermediates, cert.issuer);
  }

  // ---------------------------------------------------------------- positions

  /** The positions a scan stops at. */
  function Positions(certs: seq<Certificate>, subject: Name): (at: seq<nat>)
    ensures |at| == |WithSubject(certs, subject)|
  {
    if certs == [] then []
    else
      var m := |certs| - 1;
      Positions(certs[..m], subject) + if certs[m].subject == subject then [m] else []
  }

  /** The positions below `n` of the certificates with the subject, in their order. */
  ghost predicate Listed(at: seq<nat>, certs: seq<Certificate>, subject: Name, n: nat)
    requires n <= |certs|
  {
    && (forall k | 0 <= k < |at| :: at[k] < n && certs[at[k]].subject == subject)
    && (forall i, k | 0 <= i < k < |at| :: at[i] < at[k])
    && (forall p | 0 <= p < n && certs[p].subject == subject :: p in at)
  }

  lemma ListedSnoc(at: seq<nat>, certs: seq<Certificate>, subject: Name, n: nat)
    requires n < |certs| && Listed(at, certs, subject, n)
    ensures Listed(at + if certs[n].subject == subject then [n] else [], certs, subject, n + 1)
  {
    var longer := at + if certs[n].subject == subject then [n] else [];
    forall p | 0 <= p < n + 1 && certs[p].subject == subject ensures p in longer {
      if p == n {
        assert longer[|at|] == n;
      } else {
        assert p in at;
      }
    }
  }

  lemma ListedOnPrefix(at: seq<nat>, certs: seq<Certificate>, subject: Name, n: nat)
    requires n <= |certs| && Listed(at, certs[..n], subject, n)
    ensures Listed(at, certs, subject, n)
  {
    assert forall p | 0 <= p < n :: certs[..n][p] == certs[p];
  }

  lemma {:induction false} PositionsAreListed(certs: seq<Certificate>, subject: Name)
    ensures Listed(Positions(certs, subject), certs, subject, |certs|)
  {
    hide Listed;
    if certs == [] {
      NothingListed(certs, subject);
    } else {
      var m := |certs| - 1;
      PositionsAreListed(certs[..m], subject);
      ListedOnPrefix(Positions(certs[..m], subject), certs, subject, m);
      ListedSnoc(Positions(certs[..m], subject), certs, subject, m);
    }
  }

  lemma NothingListed(certs: seq<Certificate>, subject: Name)
    ensures Listed([], certs, subject, 0)
  {
  }

  /** The scan has, in order, the certificates at the positions. */
  ghost predicate Picked(at: seq<nat>, certs: seq<Certificate>, scan: seq<Certificate>) {
    |at| == |scan| && forall k | 0 <= k < |at| :: at[k] < |certs| && certs[at[k]] == scan[k]
  }

  lemma PickedSnoc(at: seq<nat>, front: seq<Certificate>, last: Certificate, scan: seq<Certificate>)
    requires Picked(at, front, scan)
    ensures Picked(at, front + [last], scan) && Picked(at + [|front|], front + [last], scan + [last])
  {
  }

  lemma {:induction false} PositionsPickTheScan(certs: seq<Certificate>, subject: Name)
    ensures Picked(Positions(certs, subject), certs, WithSubject(certs, subject))
  {
    hide Picked;
    if certs == [] {
      NothingPicked();
    } else {
      var m := |certs| - 1;
      assert certs == certs[..m] + [certs[m]];
      PositionsPickTheScan(certs[..m], subject);
      PickedSnoc(Positions(certs[..m], subject), certs[..m], certs[m], WithSubject(certs[..m], subject));
      assert Positions(certs[..m], subject) + [] == Positions(certs[..m], subject);
    }
  }

  lemma NothingPicked()
    ensures Picked([], [], [])
  {
  }

  /** They increase, and are those of the certificates with the subject. */
  lemma PositionsMeaning(certs: seq<Certificate>, subject: Name)
    ensures var at := Positions(certs, subject);
            && (forall k | 0 <= k < |at| :: at[k] < |certs| && certs[at[k]] == WithSubject(certs, subject)[k])
            && (forall i, k | 0 <= i < k < |at| :: at[i] < at[k])
            && (forall k | 0 <= k < |at| :: certs[at[k]].subject == subject)
            && (forall p | 0 <= p < |certs| && certs[p].subject == subject :: p in at)
  {
    hide Positions, WithSubject;
    PositionsAreListed(certs, subject);
    PositionsPickTheScan(certs, subject);
  }

  /** Where in the lists each next member of the path was taken from. */
  ghost predicate TakenFrom(all: seq<Certificate>, path: Chain, ps: seq<nat>) {
    && |path| == |ps| + 1
    && forall j | 0 <= j < |ps| :: TakenAt(all, path, ps, j)
  }

  ghost predicate TakenAt(all: seq<Certificate>, path: Chain, ps: seq<nat>, j: nat)
    requires |path| == |ps| + 1 && j < |ps|
  {
    ps[j] < |all| && all[ps[j]] == path[j + 1] && path[j + 1].subject == path[j].issuer
  }

  /** Index `k` among the candidates of member `j` is position `p` in the lists, and the next member. */
  ghost predicate PairOk(b: ChainBuilder, all: seq<Certificate>, path: Chain, j: nat, k: nat, p: nat) {
    && j + 1 < |path|
    && var issuers, at := b.PotentialIssuers(path[j]), Positions(all, path[j].issuer);
       && k < |issuers| == |at| && issuers[k] == path[j + 1] && at[k] == p
       && p < |all| && all[p] == path[j + 1] && path[j + 1].subject == path[j].issuer
  }

  lemma IndexOf(b: ChainBuilder, trusted: seq<Certificate>, path: Chain, j: nat, p: nat) returns (k: nat)
    requires BuiltFrom(b, trusted) && j + 1 < |path|
    requires var all := trusted + b.intermediates;
             p < |all| && all[p] == path[j + 1] && path[j + 1].subject == path[j].issuer
    ensures PairOk(b, trusted + b.intermediates, path, j, k, p)
  {
    hide ChainBuilder.PotentialIssuers, WithSubject, Positions;
    var all := trusted + b.intermediates;
    CandidatesAreOneScan(b, trusted, path[j]);
    PositionsMeaning(all, path[j].issuer);
    k :| 0 <= k < |Positions(all, path[j].issuer)| && Positions(all, path[j].issuer)[k] == p;
  }

  lemma PositionOf(b: ChainBuilder, trusted: seq<Certificate>, path: Chain, j: nat, k: nat) returns (p: nat)
    requires BuiltFrom(b, trusted) && j + 1 < |path|
    requires k < |b.PotentialIssuers(path[j])| && b.PotentialIssuers(path[j])[k] == path[j + 1]
    ensures PairOk(b, trusted + b.intermediates, path, j, k, p)
  {
    hide ChainBuilder.PotentialIssuers, WithSubject, Positions;
    var all := trusted + b.intermediates;
    CandidatesAreOneScan(b, trusted, path[j]);
    PositionsMeaning(all, path[j].issuer);
    p := Positions(all, path[j].issuer)[k];
  }

  ghost predicate PairsOk(b: ChainBuilder, all: seq<Certificate>, path: Chain, ks: seq<nat>, ps: seq<nat>, n: nat) {
    && n <= |ks| && n <= |ps|
    && forall j | 0 <= j < n :: PairOk(b, all, path, j, ks[j], ps[j])
  }

  lemma {:induction false} ToIndices(b: ChainBuilder, trusted: seq<Certificate>, path: Chain, ps: seq<nat>, n: nat)
    returns (ks: seq<nat>)
    requires BuiltFrom(b, trusted) && TakenFrom(trusted + b.intermediates, path, ps) && n <= |ps|
    ensures |ks| == n && PairsOk(b, trusted + b.intermediates, path, ks, ps, n)
  {
    hide PairOk, BuiltFrom;
    if n == 0 {
      ks := [];
    } else {
      var front := ToIndices(b, trusted, path, ps, n - 1);
      assert TakenAt(trusted + b.intermediates, path, ps, n - 1);
      var k := IndexOf(b, trusted, path, n - 1, ps[n - 1]);
      ks := front + [k];
    }
  }

  lemma {:induction false} ToPositions(b: ChainBuilder, trusted: seq<Certificate>, path: Chain, ks: seq<nat>, n: nat)
    returns (ps: seq<nat>)
    requires BuiltFrom(b, trusted) && Picks(b, path, ks) && n <= |ks|
    ensures |ps| == n && PairsOk(b, trusted + b.intermediates, path, ks, ps, n)
  {
    hide PairOk, BuiltFrom, ChainBuilder.PotentialIssuers;
    if n == 0 {
      ps := [];
    } else {
      var front := ToPositions(b, trusted, path, ks, n - 1);
      assert PickOk(b, path, ks, n - 1);
      var p := PositionOf(b, trusted, path, n - 1, ks[n - 1]);
      ps := front + [p];
    }
  }

  /** Pairs of indices and positions are picks on the one side and places in the lists on the other. */
  lemma PairsAreBoth(b: ChainBuilder, all: seq<Certificate>, path: Chain, ks: seq<nat>, ps: seq<nat>)
    requires |path| == |ks| + 1 == |ps| + 1 && PairsOk(b, all, path, ks, ps, |ks|)
    ensures Picks(b, path, ks) && TakenFrom(all, path, ps)
  {
    hide ChainBuilder.PotentialIssuers, Positions;
    forall j | 0 <= j < |ks| ensures PickOk(b, path, ks, j) && TakenAt(all, path, ps, j) {
      assert PairOk(b, all, path, j, ks[j], ps[j]);
    }
  }

  /** Comparing indices among the candidates is comparing positions in the lists. */
  lemma {:induction false} SameOrder(b: ChainBuilder, all: seq<Certificate>, path: Chain, ks: seq<nat>, ps: seq<nat>,
                                     other: Chain, ls: seq<nat>, qs: seq<nat>)
    requires |path| == |ks| + 1 == |ps| + 1 && |other| == |ls| + 1 == |qs| + 1 && path[0] == other[0]
    requires PairsOk(b, all, path, ks, ps, |ks|) && PairsOk(b, all, other, ls, qs, |ls|)
    ensures NotAfter(ks, ls) <==> NotAfter(ps, qs)
    decreases |ks|
  {
    hide ChainBuilder.PotentialIssuers, Positions, PairOk;
    if ks != [] && ls != [] {
      assert PairOk(b, all, path, 0, ks[0], ps[0]) && PairOk(b, all, other, 0, ls[0], qs[0]);
      FirstPairs(b, all, path, ks[0], ps[0], other, ls[0], qs[0]);
      if ks[0] == ls[0] {
        TailPairs(b, all, path, ks, ps);
        TailPairs(b, all, other, ls, qs);
        SameOrder(b, all, path[1..], ks[1..], ps[1..], other[1..], ls[1..], qs[1..]);
      }
    }
  }

  lemma FirstPairs(b: ChainBuilder, all: seq<Certificate>, path: Chain, k: nat, p: nat, other: Chain, l: nat, q: nat)
    requires PairOk(b, all, path, 0, k, p) && PairOk(b, all, other, 0, l, q) && path[0] == other[0]
    ensures (k < l <==> p < q) && (k == l <==> p == q) && (k == l ==> path[1] == other[1])
  {
    hide ChainBuilder.PotentialIssuers, Positions, WithSubject;
    PositionsMeaning(all, path[0].issuer);
  }

  lemma TailPairs(b: ChainBuilder, all: seq<Certificate>, path: Chain, ks: seq<nat>, ps: seq<nat>)
    requires |path| == |ks| + 1 == |ps| + 1 && ks != [] && PairsOk(b, all, path, ks, ps, |ks|)
    ensures PairsOk(b, all, path[1..], ks[1..], ps[1..], |ks| - 1)
  {
    hide ChainBuilder.PotentialIssuers, Positions;
    forall j | 0 <= j < |ks| - 1 ensures PairOk(b, all, path[1..], j, ks[1..][j], ps[1..][j]) {
      assert PairOk(b, all, path, j + 1, ks[j + 1], ps[j + 1]);
    }
  }

  /** Of all admissible paths, `verify` returns the first in depth-first order, where at each member the trusted
      certificates come in their order before the intermediates in theirs; and no other is first. */
  lemma VerifyReturnsFirstListed(b: ChainBuilder, leaf: Certificate, trusted: seq<Certificate>) returns (ps: seq<nat>)
    requires BuiltFrom(b, trusted) && NothingAbandons(b) && VerifySpec(leaf, b).Ok?
    ensures TakenFrom(trusted + b.intermediates, VerifySpec(leaf, b).value, ps)
    ensures forall path, other | Admissible(b, leaf, path) && TakenFrom(trusted + b.intermediates, path, other) ::
              && NotAfter(ps, other)
              && (NotAfter(other, ps) ==> path == VerifySpec(leaf, b).value)
  {
    hide ChainBuilder.PotentialIssuers, NothingAbandons, MemberOk, NotAfter, Positions, VerifySpec, PairOk, Picks;
    hide TakenFrom, BuiltFrom;
    BuiltIsList(b, trusted);
    var all, chain := trusted + b.intermediates, VerifySpec(leaf, b).value;
    VerifyIsSound(b, leaf);
    var ks := VerifyReturnsFirst(b, leaf);
    PicksLength(b, chain, ks);
    ps := ToPositions(b, trusted, chain, ks, |ks|);
    PairsAreBoth(b, all, chain, ks, ps);
    forall path, other | Admissible(b, leaf, path) && TakenFrom(all, path, other)
      ensures NotAfter(ps, other) && (NotAfter(other, ps) ==> path == chain)
    {
      TakenLength(all, path, other);
      var ls := ToIndices(b, trusted, path, other, |other|);
      PairsAreBoth(b, all, path, ls, other);
      SameOrder(b, all, chain, ks, ps, path, ls, other);
      SameOrder(b, all, path, ls, other, chain, ks, ps);
    }
  }

  lemma BuiltIsList(b: ChainBuilder, trusted: seq<Certificate>)
    requires BuiltFrom(b, trusted)
    ensures b.store.Valid()
  {
    StoreIsTheList(trusted, b.store);
  }

  lemma PicksLength(b: ChainBuilder, path: Chain, ks: seq<nat>)
    requires Picks(b, path, ks)
    ensures |path| == |ks| + 1
  {
  }

  lemma TakenLength(all: seq<Certificate>, path: Chain, ps: seq<nat>)
    requires TakenFrom(all, path, ps)
    ensures |path| == |ps| + 1
  {
  }

  /** A trusted certificate among the candidates comes before every intermediate. */
  lemma TrustedComeFirst(b: ChainBuilder, trusted: seq<Certificate>, cert: Certificate, root: nat, other: nat)
    requires BuiltFrom(b, trusted) && root < |trusted| && other < |b.intermediates|
    requires trusted[root].subject == cert.issuer && b.intermediates[other].subject == cert.issuer
    ensures exists i, k :: 0 <= i < k < |b.PotentialIssuers(cert)|
                           && b.PotentialIssuers(cert)[i] == trusted[root]
                           && b.PotentialIssuers(cert)[k] == b.intermediates[other]
  {
    hide ChainBuilder.PotentialIssuers, WithSubject;
    var all := trusted + b.intermediates;
    CandidatesAreOneScan(b, trusted, cert);
    PositionsMeaning(all, cert.issuer);
    var at := Positions(all, cert.issuer);
    assert all[root] == trusted[root] && all[|trusted| + other] == b.intermediates[other];
    var i :| 0 <= i < |at| && at[i] == root;
    var k :| 0 <= k < |at| && at[k] == |trusted| + other;
    assert i < k;
  }

  // ---------------------------------------------------------------- which error

  /** The leaf's own errors come first, and a refusal by the policy names the leaf. */
  lemma LeafErrors(b: ChainBuilder, leaf: Certificate)
    ensures ExtensionsOf(leaf).Err? ==>
              VerifySpec(leaf, b) == Err(ValidationError(ExtensionError(ExtensionsOf(leaf).error), None))
    ensures ExtensionsOf(leaf).Ok? && b.policy.permitsEe(leaf, ExtensionsOf(leaf).value).Err? ==>
              VerifySpec(leaf, b) ==
              Err(ValidationError(b.policy.permitsEe(leaf, ExtensionsOf(leaf).value).error.kind, Some(leaf)))
  {
  }

  /** A leaf that passes its own checks, carries no constraints and is not trusted itself. */
  ghost predicate PlainLeaf(b: ChainBuilder, leaf: Certificate) {
    LeafOk(b, leaf) && CarriedConstraints(ExtsAt([leaf], 0)) == Ok(None) && !b.store.Contains(leaf)
  }

  /** Without candidates the search ends with its own error. */
  lemma NoCandidatesError(b: ChainBuilder, leaf: Certificate)
    requires PlainLeaf(b, leaf) && b.PotentialIssuers(leaf) == []
    ensures VerifySpec(leaf, b) ==
            Err(ValidationError(CandidatesExhausted(ValidationError(Other(NoInteriorErrors), None)), None))
  {
    hide ChainBuilder.PotentialIssuers;
  }

  /** If the policy rejects all candidates, the last rejection is the one reported. */
  lemma LastRejectionIsReported(b: ChainBuilder, leaf: Certificate, rejection: ValidationError)
    requires PlainLeaf(b, leaf) && b.PotentialIssuers(leaf) != []
    requires forall c | c in b.PotentialIssuers(leaf) ::
               ExtensionsOf(c).Ok? && b.policy.validIssuer(c, leaf, 0, ExtensionsOf(c).value).Err?
    requires var issuers := b.PotentialIssuers(leaf);
             var last := issuers[|issuers| - 1];
             b.policy.validIssuer(last, leaf, 0, ExtensionsOf(last).value) == Err(rejection)
    ensures VerifySpec(leaf, b) ==
            Err(ValidationError(CandidatesExhausted(
              if rejection.kind.CandidatesExhausted? then rejection.kind.inner else rejection), None))
  {
    hide ChainBuilder.PotentialIssuers, Exhausted;
    var issuers := b.PotentialIssuers(leaf);
    TryRejections(b, leaf, LeafNames(leaf), issuers, None, rejection);
    ExhaustedMeaning(rejection);
  }

  lemma ExhaustedMeaning(e: ValidationError)
    ensures Exhausted(Some(e)) ==
            ValidationError(CandidatesExhausted(if e.kind.CandidatesExhausted? then e.kind.inner else e), None)
  {
  }

  lemma {:induction false} TryRejections(b: ChainBuilder, cert: Certificate, names: NameChain,
                                         candidates: seq<Certificate>, lastErr: Option<ValidationError>,
                                         rejection: ValidationError)
    requires candidates != []
    requires forall c | c in candidates ::
               ExtensionsOf(c).Ok? && b.policy.validIssuer(c, cert, 0, ExtensionsOf(c).value).Err?
    requires var last := candidates[|candidates| - 1];
             b.policy.validIssuer(last, cert, 0, ExtensionsOf(last).value) == Err(rejection)
    ensures b.TryCandidates(cert, 0, names, candidates, lastErr) == Counted(Err(Exhausted(Some(rejection))), 0)
    decreases |candidates|
  {
    hide ChainBuilder.PotentialIssuers, Exhausted;
    var c := candidates[0];
    assert c in candidates;
    var e := b.policy.validIssuer(c, cert, 0, ExtensionsOf(c).value).error;
    assert b.Descend(cert, 0, names, c) == Reject(e);
    if |candidates| > 1 {
      TryRejections(b, cert, names, candidates[1..], Some(e), rejection);
    }
  }
}
