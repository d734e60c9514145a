/** Signing at will: over any policy, any quorum of witnesses can sign a first statement, a successor of any accepted
    package, or a rotation of its policy, and the verifiers accept the result. A witness who signed the package before
    moves on by one observation; one who did not signs at a place of its own choosing. */
module Countersigning {
  import opened Prelude
  import opened MerkleTree
  import opened Records
  import opened LineageCompaction
  import opened LineageMembership
  import opened LineageConsistency
  import opened WitnessSets
  import opened LineageWitness
  import opened WitnessHandoff

  predicate IsQuorum(signers: seq<string>, policy: Policy) {
    && Ordered(signers) && Distinct(signers)
    && Elements(signers) <= Elements(policy.authorizedWitnessIds)
    && |signers| >= policy.threshold
  }

  // ---------------------------------------------------------------- places in a witness's log

  datatype Place = Place(sequence: int, previous: Digest)

  predicate ValidPlace(x: Place) {
    x.sequence > 0 && (if x.sequence == 1 then x.previous == Zero else x.previous != Zero)
  }

  /** Where a witness signs next: one past its observation in `before`, or, if it has none there, at a sequence number
      `start` of its own choosing. */
  function NextPlace(before: seq<Observation>, id: string, start: nat): Place {
    if Observed(before, id) then
      var o := ObservationBy(before, id);
      Place(o.sequence + 1, ObservationDigest(o))
    else Place(start, if start == 1 then Zero else Foreign(0))
  }

  lemma NextPlaceIsValid(before: seq<Observation>, id: string, start: nat)
    requires start > 0 && forall o :: o in before ==> o.sequence > 0
    ensures ValidPlace(NextPlace(before, id, start))
  {
  }

  // ---------------------------------------------------------------- quorums over a statement

  /** An authority's statement about an endpoint. */
  function StatementFor(e: Endpoint, authorityId: string, sequence: int, previous: Digest, provenance: Digest)
    : AnchorStatement
  {
    AnchorStatement(true, authorityId, sequence, previous, provenance, e.anchor.trustDomain, e.anchor.logicalStateId,
                    e.anchor.treeSize, DigestOf(AnchorJson(e.anchor)), e.anchor.merkleRoot, e.anchor.treeAlgorithm,
                    e.anchor.membershipContract, e.anchor.authorizationContract)
  }

  /** It is the one the builder makes. */
  lemma StatementFits(e: Endpoint, authorityId: string, sequence: int, previous: Digest, provenance: Digest)
    requires ValidAnchor(e.anchor, e.accumulator) && NonEmpty(authorityId) && provenance != Zero && sequence > 0
    requires if sequence == 1 then previous == Zero else previous != Zero
    ensures ValidStatement(StatementFor(e, authorityId, sequence, previous, provenance), e.anchor, e.accumulator)
    ensures BuildStatement(e.anchor, e.accumulator, true, authorityId, sequence, previous, provenance)
         == Ok(StatementFor(e, authorityId, sequence, previous, provenance))
  {
    hide ValidAnchor, BuildStatement;
    StatementsAreTheBuiltOnes(e.anchor, e.accumulator, StatementFor(e, authorityId, sequence, previous, provenance));
  }

  function SignatureOn(s: AnchorStatement, policy: Policy, id: string, at: Place): Observation {
    Observation(true, id, at.sequence, at.previous, Foreign(2), PolicyDigest(policy), StatementDigest(s), s.authorityId,
                s.trustDomain, s.logicalStateId, s.treeSize, s.anchor, s.membershipRoot, s.treeAlgorithm,
                s.membershipContract, s.authorizationContract)
  }

  lemma SignatureIsValid(e: Endpoint, s: AnchorStatement, policy: Policy, id: string, at: Place)
    requires ValidStatement(s, e.anchor, e.accumulator) && ValidPolicy(policy)
    requires id in policy.authorizedWitnessIds && ValidPlace(at)
    ensures ValidObservation(SignatureOn(s, policy, id, at), e.anchor, e.accumulator, s, policy)
  {
    hide ValidStatement, ValidPolicy;
  }

  function QuorumFor(e: Endpoint, s: AnchorStatement, policy: Policy, observations: seq<Observation>): QuorumPackage {
    QuorumPackage(e.anchor, e.accumulator, s, policy, observations, CertificateFor(s, policy, observations))
  }

  /** A quorum of valid observations, one per name, is accepted. */
  lemma QuorumVerifies(e: Endpoint, s: AnchorStatement, policy: Policy, signers: seq<string>,
                       observations: seq<Observation>)
    requires ValidStatement(s, e.anchor, e.accumulator) && ValidPolicy(policy) && IsQuorum(signers, policy)
    requires WitnessIds(observations) == signers
    requires forall o :: o in observations ==> ValidObservation(o, e.anchor, e.accumulator, s, policy)
    ensures VerifyQuorum(QuorumFor(e, s, policy, observations)).None?
  {
    hide ValidStatement, ValidObservation, Ordered, Distinct, CertificateFor;
    forall id | id in signers ensures NonEmpty(id) {
      assert id in Elements(signers);
    }
  }

  /** The signers' observations of a statement, after `before`. */
  function SignedNext(s: AnchorStatement, policy: Policy, signers: seq<string>, before: seq<Observation>, start: nat)
    : (r: seq<Observation>)
    ensures |r| == |signers|
    ensures forall i :: 0 <= i < |r| ==>
              r[i] == SignatureOn(s, policy, signers[i], NextPlace(before, signers[i], start))
  {
    seq(|signers|, i requires 0 <= i < |signers| =>
      SignatureOn(s, policy, signers[i], NextPlace(before, signers[i], start)))
  }

  lemma SignedNextFacts(s: AnchorStatement, policy: Policy, signers: seq<string>, before: seq<Observation>, start: nat)
    requires Distinct(signers)
    ensures WitnessIds(SignedNext(s, policy, signers, before, start)) == signers
    ensures var observations := SignedNext(s, policy, signers, before, start);
            forall id :: id in signers ==>
              && Observed(observations, id)
              && ObservationBy(observations, id) == SignatureOn(s, policy, id, NextPlace(before, id, start))
  {
    hide Distinct, NextPlace, LastNamed;
    var observations := SignedNext(s, policy, signers, before, start);
    assert WitnessIds(observations) == signers;
    forall id | id in signers
      ensures Observed(observations, id)
      ensures ObservationBy(observations, id) == SignatureOn(s, policy, id, NextPlace(before, id, start))
    {
      var i :| 0 <= i < |signers| && signers[i] == id;
      FoundByName(observations, WitnessOf, i);
    }
  }

  function Countersigned(e: Endpoint, s: AnchorStatement, policy: Policy, signers: seq<string>,
                         before: seq<Observation>, start: nat): QuorumPackage
  {
    QuorumFor(e, s, policy, SignedNext(s, policy, signers, before, start))
  }

  lemma CountersignedVerifies(e: Endpoint, s: AnchorStatement, policy: Policy, signers: seq<string>,
                              before: seq<Observation>, start: nat)
    requires ValidStatement(s, e.anchor, e.accumulator) && ValidPolicy(policy) && IsQuorum(signers, policy)
    requires start > 0 && forall o :: o in before ==> o.sequence > 0
    ensures VerifyQuorum(Countersigned(e, s, policy, signers, before, start)).None?
  {
    hide VerifyQuorum, ValidStatement, ValidPolicy, ValidObservation, Ordered, Distinct, NextPlace, SignatureOn;
    var observations := SignedNext(s, policy, signers, before, start);
    SignedNextFacts(s, policy, signers, before, start);
    forall o | o in observations ensures ValidObservation(o, e.anchor, e.accumulator, s, policy) {
      var i :| 0 <= i < |observations| && o == observations[i];
      assert signers[i] in Elements(signers);
      NextPlaceIsValid(before, signers[i], start);
      SignatureIsValid(e, s, policy, signers[i], NextPlace(before, signers[i], start));
    }
    QuorumVerifies(e, s, policy, signers, observations);
  }

  /** The signers' first quorum over an endpoint. */
  function FirstQuorum(e: Endpoint, policy: Policy, signers: seq<string>): QuorumPackage {
    Countersigned(e, StatementFor(e, "authority", 1, Zero, Foreign(1)), policy, signers, [], 1)
  }

  lemma FirstQuorumVerifies(e: Endpoint, policy: Policy, signers: seq<string>)
    requires ValidAnchor(e.anchor, e.accumulator) && ValidPolicy(policy) && IsQuorum(signers, policy)
    ensures VerifyQuorum(FirstQuorum(e, policy, signers)).None?
    ensures WitnessIds(FirstQuorum(e, policy, signers).observations) == signers
  {
    hide ValidAnchor, ValidPolicy, VerifyQuorum, ValidStatement, Distinct, Ordered, BuildStatement;
    StatementFits(e, "authority", 1, Zero, Foreign(1));
    CountersignedVerifies(e, StatementFor(e, "authority", 1, Zero, Foreign(1)), policy, signers, [], 1);
    SignedNextFacts(StatementFor(e, "authority", 1, Zero, Foreign(1)), policy, signers, [], 1);
  }

  function NextStatement(before: AnchorStatement, e: Endpoint): AnchorStatement {
    StatementFor(e, before.authorityId, before.sequence + 1, StatementDigest(before), Foreign(1))
  }

  /** The signers' quorum over the next statement after an accepted package. */
  function NextQuorum(before: QuorumPackage, e: Endpoint, signers: seq<string>, start: nat): QuorumPackage {
    Countersigned(e, NextStatement(before.statement, e), before.policy, signers, before.observations, start)
  }

  lemma NextStatementIsAuthorized(p: ConsistencyPackage, before: AnchorStatement)
    requires VerifyConsistency(p).None? && ValidStatement(before, p.oldEndpoint.anchor, p.oldEndpoint.accumulator)
    ensures VerifyAuthorized(p, before, NextStatement(before, p.newEndpoint)).None?
    ensures ValidStatement(NextStatement(before, p.newEndpoint), p.newEndpoint.anchor, p.newEndpoint.accumulator)
  {
    hide VerifyConsistency, ValidAnchor, ContextFault, BuildStatement;
    AcceptedContext(p);
    StatementFits(p.newEndpoint, before.authorityId, before.sequence + 1, StatementDigest(before), Foreign(1));
  }

  lemma ObservationsHavePlaces(q: QuorumPackage)
    requires VerifyQuorum(q).None?
    ensures forall o :: o in q.observations ==> o.sequence > 0
  {
    hide VerifyQuorum, ValidStatement, ValidPolicy, Distinct, Ordered, CertificateFor;
    AcceptedQuorum(q);
  }

  /** Any quorum of the policy can extend any accepted package to any accepted endpoint. */
  lemma NextQuorumIsWitnessed(p: ConsistencyPackage, before: QuorumPackage, signers: seq<string>, start: nat)
    requires VerifyConsistency(p).None? && VerifyQuorum(before).None? && Publication(before).endpoint == p.oldEndpoint
    requires IsQuorum(signers, before.policy) && start > 0
    ensures VerifyWitnessed(p, before, NextQuorum(before, p.newEndpoint, signers, start)).None?
  {
    hide VerifyConsistency, VerifyQuorum, VerifyAuthorized, ValidStatement, ValidPolicy, Distinct, Ordered,
      CertificateFor, NextStatement, ContinuityFault, SharedWitnesses, SignedNext, ObservationBy, ObservationDigest,
      Observed;
    var after := NextQuorum(before, p.newEndpoint, signers, start);
    AcceptedQuorum(before);
    NextStatementIsAuthorized(p, before.statement);
    ObservationsHavePlaces(before);
    CountersignedVerifies(p.newEndpoint, after.statement, before.policy, signers, before.observations, start);
    SignedNextFacts(after.statement, before.policy, signers, before.observations, start);
    AcceptedQuorumsIntersect(before, after);
    forall id | id in SharedWitnesses(before, after) ensures id in signers {
      SharedAreObserved(before, after, id);
      ObservedIsNamed(after.observations, id);
    }
    forall id | id in SharedWitnesses(before, after)
      ensures Observed(before.observations, id) && Observed(after.observations, id)
    {
      SharedAreObserved(before, after, id);
    }
    ContinuityFaults(SharedWitnesses(before, after), before.observations, after.observations);
  }

  lemma ObservedIsNamed(observations: seq<Observation>, id: string)
    ensures Observed(observations, id) <==> id in WitnessIds(observations)
  {
  }
  // ---------------------------------------------------------------- rotations

  /** The same electorate, one policy epoch later. */
  function NextPolicy(policy: Policy): Policy {
    policy.(policyEpoch := policy.policyEpoch + 1)
  }

  /** The statement that hands the package's view over to the next policy. */
  function RotationStatement(q: QuorumPackage, contract: Digest): HandoffStatement {
    var s, before, after := q.statement, q.policy, NextPolicy(q.policy);
    HandoffStatement(true, s.authorityId, s.trustDomain, s.logicalStateId, s.treeSize, s.anchor, s.membershipRoot,
                     StatementDigest(s), before.policyId, PolicyDigest(before), PolicyDigest(after), before.policyEpoch,
                     after.policyEpoch, contract, Foreign(11), Foreign(12))
  }

  function RotationSignature(s: HandoffStatement, id: string, at: Place): HandoffObservation {
    HandoffObservation(true, id, at.sequence, at.previous, Foreign(14), HandoffStatementDigest(s), s.producerStatement,
                       s.oldPolicy, s.newPolicy, s.authorityId, s.trustDomain, s.logicalStateId, s.treeSize, s.anchor,
                       s.membershipRoot)
  }

  /** The witness's handoff observation, after the package. */
  function RotationBy(q: QuorumPackage, contract: Digest, id: string, start: nat): HandoffObservation {
    RotationSignature(RotationStatement(q, contract), id, NextPlace(q.observations, id, start))
  }

  /** Its observation under the next policy, after that. */
  function ActivationBy(q: QuorumPackage, contract: Digest, id: string, start: nat): Observation {
    var o := RotationBy(q, contract, id, start);
    SignatureOn(q.statement, NextPolicy(q.policy), id, Place(o.sequence + 1, HandoffObservationDigest(o)))
  }

  function Rotations(q: QuorumPackage, contract: Digest, signers: seq<string>, start: nat): (r: seq<HandoffObservation>)
    ensures |r| == |signers|
    ensures forall i :: 0 <= i < |r| ==> r[i] == RotationBy(q, contract, signers[i], start)
  {
    seq(|signers|, i requires 0 <= i < |signers| => RotationBy(q, contract, signers[i], start))
  }

  function Activations(q: QuorumPackage, contract: Digest, signers: seq<string>, start: nat): (r: seq<Observation>)
    ensures |r| == |signers|
    ensures forall i :: 0 <= i < |r| ==> r[i] == ActivationBy(q, contract, signers[i], start)
  {
    seq(|signers|, i requires 0 <= i < |signers| => ActivationBy(q, contract, signers[i], start))
  }

  /** The package that activates the next policy. */
  function Activated(q: QuorumPackage, contract: Digest, signers: seq<string>, start: nat): QuorumPackage {
    QuorumFor(Publication(q).endpoint, q.statement, NextPolicy(q.policy), Activations(q, contract, signers, start))
  }

  lemma RotationsAreNamed(q: QuorumPackage, contract: Digest, signers: seq<string>, start: nat)
    requires Distinct(signers)
    ensures HandoffIds(Rotations(q, contract, signers, start)) == signers
    ensures WitnessIds(Activations(q, contract, signers, start)) == signers
    ensures forall id :: id in signers ==>
              && HandedOff(Rotations(q, contract, signers, start), id)
              && HandoffBy(Rotations(q, contract, signers, start), id) == RotationBy(q, contract, id, start)
              && Observed(Activations(q, contract, signers, start), id)
              && ObservationBy(Activations(q, contract, signers, start), id) == ActivationBy(q, contract, id, start)
  {
    hide Distinct, NextPlace, LastNamed, RotationStatement, HandoffObservationDigest;
    var rotations, activations := Rotations(q, contract, signers, start), Activations(q, contract, signers, start);
    assert HandoffIds(rotations) == signers && WitnessIds(activations) == signers;
    forall id | id in signers
      ensures HandedOff(rotations, id) && HandoffBy(rotations, id) == RotationBy(q, contract, id, start)
      ensures Observed(activations, id) && ObservationBy(activations, id) == ActivationBy(q, contract, id, start)
    {
      var i :| 0 <= i < |signers| && signers[i] == id;
      FoundByName(rotations, RotatorOf, i);
      FoundByName(activations, WitnessOf, i);
    }
  }

  function RoleFor(role: Role, policy: Policy, q: QuorumPackage, contract: Digest, signers: seq<string>, start: nat)
    : RoleCertificate
    requires Distinct(signers)
  {
    RotationsAreNamed(q, contract, signers, start);
    RoleCertificate(role, HandoffStatementDigest(RotationStatement(q, contract)), PolicyDigest(policy),
      policy.threshold,
                    |policy.authorizedWitnessIds|, MinimumIntersection(policy), |signers|, signers,
                    HandoffDigests(signers, Rotations(q, contract, signers, start)))
  }

  function BlankReceipt(): HandoffCertificate {
    HandoffCertificate(Zero, Zero, "", "", "", 0, Zero, ZeroHash, "", Zero, Zero, 0, 0, Zero, Zero, Zero, Zero, 0, 0,
      [], [], [], Zero, Zero)
  }

  /** The signers rotate the policy of an accepted package, in both roles. */
  function Rotated(q: QuorumPackage, contract: Digest, signers: seq<string>, start: nat): HandoffPackage
    requires Distinct(signers)
  {
    var p := HandoffPackage(q, Activated(q, contract, signers, start), RotationStatement(q, contract),
      Rotations(q, contract, signers, start), RoleFor(OldRole, q.policy, q, contract, signers, start),
      RoleFor(NewRole, NextPolicy(q.policy), q, contract, signers, start), BlankReceipt());
    p.(certificate := HandoffReceipt(p))
  }

  lemma ReceiptIgnoresReceipt(q: QuorumPackage, contract: Digest, signers: seq<string>, start: nat)
    requires Distinct(signers)
    ensures Rotated(q, contract, signers, start).certificate == HandoffReceipt(Rotated(q, contract, signers, start))
  {
    hide Distinct, Activated, RotationStatement, Rotations, RoleFor, MinimumIntersection, Overlap;
  }

  lemma NextPolicyIsValid(policy: Policy)
    requires ValidPolicy(policy)
    ensures ValidTransition(policy, NextPolicy(policy))
  {
  }

  lemma RotationIsValid(q: QuorumPackage, contract: Digest, id: string, start: nat)
    requires VerifyQuorum(q).None? && contract != Zero && start > 0 && id in q.policy.authorizedWitnessIds
    ensures var s, after := RotationStatement(q, contract), NextPolicy(q.policy);
            && ValidHandoffStatement(s, q.anchor, q.accumulator, q.statement, q.policy, after)
            && ValidHandoffObservation(RotationBy(q, contract, id, start), s, q.policy, after)
            && ValidObservation(ActivationBy(q, contract, id, start), q.anchor, q.accumulator, q.statement, after)
  {
    hide VerifyQuorum, ValidStatement, ValidPolicy, NextPlace, CertificateFor, Distinct, Ordered;
    AcceptedQuorum(q);
    NextPolicyIsValid(q.policy);
    ObservationsHavePlaces(q);
    NextPlaceIsValid(q.observations, id, start);
  }

  lemma ActivationVerifies(q: QuorumPackage, contract: Digest, signers: seq<string>, start: nat)
    requires VerifyQuorum(q).None? && contract != Zero && start > 0 && IsQuorum(signers, q.policy)
    ensures VerifyQuorum(Activated(q, contract, signers, start)).None?
  {
    hide VerifyQuorum, ValidStatement, ValidPolicy, ValidObservation, Distinct, Ordered, ActivationBy, RotationBy,
      ValidHandoffStatement, ValidHandoffObservation, RotationStatement, CertificateFor;
    var observations := Activations(q, contract, signers, start);
    AcceptedQuorum(q);
    NextPolicyIsValid(q.policy);
    RotationsAreNamed(q, contract, signers, start);
    forall o | o in observations
      ensures ValidObservation(o, q.anchor, q.accumulator, q.statement, NextPolicy(q.policy))
    {
      var i :| 0 <= i < |observations| && o == observations[i];
      assert signers[i] in Elements(signers);
      RotationIsValid(q, contract, signers[i], start);
    }
    QuorumVerifies(Publication(q).endpoint, q.statement, NextPolicy(q.policy), signers, observations);
  }

  lemma RoleIsValid(role: Role, policy: Policy, q: QuorumPackage, contract: Digest, signers: seq<string>, start: nat)
    requires IsQuorum(signers, policy) && policy.threshold > 0
    ensures ValidRoleCertificate(RoleFor(role, policy, q, contract, signers, start), role, policy,
                                 RotationStatement(q, contract), Rotations(q, contract, signers, start))
  {
    hide Distinct, Ordered, RotationStatement, RotationBy, HandoffDigests;
    RotationsAreNamed(q, contract, signers, start);
  }

  lemma ObjectsByParts(p: HandoffPackage)
    requires VerifyQuorum(p.oldActive).None? && VerifyQuorum(p.newActivation).None?
    requires ValidTransition(p.oldActive.policy, p.newActivation.policy)
    requires p.oldActive.anchor == p.newActivation.anchor && p.oldActive.accumulator == p.newActivation.accumulator
    requires p.oldActive.statement == p.newActivation.statement
    requires ValidHandoffStatement(p.statement, p.oldActive.anchor, p.oldActive.accumulator, p.oldActive.statement,
                                   p.oldActive.policy, p.newActivation.policy)
    requires var ids := HandoffIds(p.observations);
             && Ordered(ids) && Distinct(ids) && (forall id :: id in ids ==> NonEmpty(id))
             && ids == p.oldCertificate.witnessIds == p.newCertificate.witnessIds
    requires forall o :: o in p.observations ==>
               ValidHandoffObservation(o, p.statement, p.oldActive.policy, p.newActivation.policy)
    requires ValidRoleCertificate(p.oldCertificate, OldRole, p.oldActive.policy, p.statement, p.observations)
    requires ValidRoleCertificate(p.newCertificate, NewRole, p.newActivation.policy, p.statement, p.observations)
    ensures ObjectsFault(p).None?
  {
    hide VerifyQuorum, ValidTransition, ValidHandoffStatement, ValidHandoffObservation, ValidRoleCertificate, Distinct,
      Ordered;
  }

  lemma RotatedObjects(q: QuorumPackage, contract: Digest, signers: seq<string>, start: nat)
    requires VerifyQuorum(q).None? && contract != Zero && start > 0 && IsQuorum(signers, q.policy)
    ensures ObjectsFault(Rotated(q, contract, signers, start)).None?
  {
    hide VerifyQuorum, ValidStatement, ValidObservation, ValidTransition, ValidHandoffStatement,
      ValidHandoffObservation, ValidRoleCertificate, HandoffReceipt, Distinct, Ordered, CertificateFor,
      RotationStatement, RotationBy, ActivationBy, HandoffDigests, NextPlace, ObjectsFault;
    var observations := Rotations(q, contract, signers, start);
    AcceptedQuorum(q);
    NextPolicyIsValid(q.policy);
    RotationsAreNamed(q, contract, signers, start);
    ActivationVerifies(q, contract, signers, start);
    RoleIsValid(OldRole, q.policy, q, contract, signers, start);
    RoleIsValid(NewRole, NextPolicy(q.policy), q, contract, signers, start);
    assert signers[0] in Elements(signers);
    RotationIsValid(q, contract, signers[0], start);
    forall o | o in observations
      ensures ValidHandoffObservation(o, RotationStatement(q, contract), q.policy, NextPolicy(q.policy))
    {
      var i :| 0 <= i < |observations| && o == observations[i];
      assert signers[i] in Elements(signers);
      RotationIsValid(q, contract, signers[i], start);
    }
    forall id | id in signers ensures NonEmpty(id) {
      assert id in Elements(signers);
    }
    ObjectsByParts(Rotated(q, contract, signers, start));
  }

  lemma {:induction false} OldContinuityFollows(ids: seq<string>, active: seq<Observation>,
                                                handoff: seq<HandoffObservation>)
    requires forall id :: id in ids ==> Observed(active, id) && HandedOff(handoff, id)
    requires forall id :: id in ids ==>
               var earlier, later := ObservationBy(active, id), HandoffBy(handoff, id);
               later.sequence == earlier.sequence + 1 && later.previousObservation == ObservationDigest(earlier)
    ensures OldContinuityFault(ids, active, handoff).None?
  {
    hide ObservationBy, HandoffBy, Observed, HandedOff, ObservationDigest;
    if ids != [] {
      OldContinuityFollows(ids[1..], active, handoff);
    }
  }

  lemma {:induction false} NewContinuityFollows(ids: seq<string>, handoff: seq<HandoffObservation>,
                                                active: seq<Observation>)
    requires forall id :: id in ids ==> HandedOff(handoff, id) && Observed(active, id)
    requires forall id :: id in ids ==>
               var earlier, later := HandoffBy(handoff, id), ObservationBy(active, id);
               later.sequence == earlier.sequence + 1 && later.previousObservation == HandoffObservationDigest(earlier)
    ensures NewContinuityFault(ids, handoff, active).None?
  {
    hide ObservationBy, HandoffBy, Observed, HandedOff, HandoffObservationDigest;
    if ids != [] {
      NewContinuityFollows(ids[1..], handoff, active);
    }
  }

  lemma RotatedContinuity(q: QuorumPackage, contract: Digest, signers: seq<string>, start: nat)
    requires Distinct(signers) && ObjectsFault(Rotated(q, contract, signers, start)).None?
    ensures var p := Rotated(q, contract, signers, start);
            && (forall id :: id in OldOverlap(p) ==>
                  Observed(p.oldActive.observations, id) && HandedOff(p.observations, id))
            && (forall id :: id in NewOverlap(p) ==>
                  HandedOff(p.observations, id) && Observed(p.newActivation.observations, id))
            && OldContinuityFault(OldOverlap(p), p.oldActive.observations, p.observations).None?
            && NewContinuityFault(NewOverlap(p), p.observations, p.newActivation.observations).None?
  {
    hide ObjectsFault, HandoffReceipt, Distinct, RotationStatement, CertificateFor, ObservationBy, HandoffBy, Observed,
      HandedOff, ObservationDigest, HandoffObservationDigest, HandoffDigests, Overlap;
    var p := Rotated(q, contract, signers, start);
    OverlapsAreObserved(p);
    RotationsAreNamed(q, contract, signers, start);
    OverlapMembers(WitnessIds(p.oldActive.observations), signers);
    OverlapMembers(WitnessIds(p.newActivation.observations), signers);
    forall id | id in OldOverlap(p) ensures id in signers {
      assert id in Elements(OldOverlap(p));
    }
    forall id | id in NewOverlap(p) ensures id in signers {
      assert id in Elements(NewOverlap(p));
    }
    OldContinuityFollows(OldOverlap(p), p.oldActive.observations, p.observations);
    NewContinuityFollows(NewOverlap(p), p.observations, p.newActivation.observations);
  }

  /** Any quorum of the policy can rotate the policy of any accepted package, under any handoff contract. */
  lemma RotatedVerifies(q: QuorumPackage, contract: Digest, signers: seq<string>, start: nat)
    requires VerifyQuorum(q).None? && contract != Zero && start > 0 && IsQuorum(signers, q.policy)
    ensures VerifyHandoff(Rotated(q, contract, signers, start)).None?
  {
    hide VerifyQuorum, ObjectsFault, HandoffReceipt, OldContinuityFault, NewContinuityFault, OldOverlap, NewOverlap,
      Distinct, Ordered, RotationStatement, CertificateFor, MinimumIntersection, Rotated;
    var p := Rotated(q, contract, signers, start);
    RotatedObjects(q, contract, signers, start);
    OverlapsSuffice(p);
    RotatedContinuity(q, contract, signers, start);
    ReceiptIgnoresReceipt(q, contract, signers, start);
  }
}
