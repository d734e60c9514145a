/** Dual-quorum policy handoff: the old policy's quorum and the new policy's quorum both sign one rotation. */
module WitnessHandoff {
  import opened Prelude
  import opened MerkleTree
  import opened Records
  import opened LineageCompaction
  import opened LineageMembership
  import opened LineageConsistency
  import opened WitnessSets
  import opened LineageWitness

  predicate ValidTransition(before: Policy, after: Policy) {
    && ValidPolicy(before)
    && ValidPolicy(after)
    && before.policyId == after.policyId
    && after.policyEpoch == before.policyEpoch + 1
    && PolicyDigest(before) != PolicyDigest(after)
  }

  function HandoffStatementDigest(s: HandoffStatement): Digest {
    DigestOf(HandoffStatementJson(s))
  }

  function HandoffObservationDigest(o: HandoffObservation): Digest {
    DigestOf(HandoffObservationJson(o))
  }

  predicate ValidHandoffStatement(s: HandoffStatement, anchor: LineageAnchor, acc: Accumulator,
                                  producer: AnchorStatement, before: Policy, after: Policy)
  {
    && ValidStatement(producer, anchor, acc)
    && ValidTransition(before, after)
    && s.verified
    && s.authorityId == producer.authorityId
    && s.trustDomain == producer.trustDomain
    && s.logicalStateId == producer.logicalStateId
    && s.treeSize == producer.treeSize
    && s.anchor == producer.anchor
    && s.membershipRoot == producer.membershipRoot
    && s.producerStatement == StatementDigest(producer)
    && s.policyId == before.policyId
    && s.oldPolicy == PolicyDigest(before)
    && s.newPolicy == PolicyDigest(after)
    && s.oldPolicyEpoch == before.policyEpoch
    && s.newPolicyEpoch == after.policyEpoch
    && s.handoffContract != Zero
    && s.authorizationContract != Zero
    && s.provenance != Zero
  }

  predicate ValidHandoffObservation(o: HandoffObservation, s: HandoffStatement, before: Policy, after: Policy) {
    && ValidTransition(before, after)
    && o.verified
    && (o.witnessId in before.authorizedWitnessIds || o.witnessId in after.authorizedWitnessIds)
    && o.sequence > 0
    && (if o.sequence == 1 then o.previousObservation == Zero else o.previousObservation != Zero)
    && o.provenance != Zero
    && o.handoffStatement == HandoffStatementDigest(s)
    && o.producerStatement == s.producerStatement
    && o.oldPolicy == PolicyDigest(before)
    && o.newPolicy == PolicyDigest(after)
    && o.authorityId == s.authorityId
    && o.trustDomain == s.trustDomain
    && o.logicalStateId == s.logicalStateId
    && o.treeSize == s.treeSize
    && o.anchor == s.anchor
    && o.membershipRoot == s.membershipRoot
  }

  function RotatorOf(o: HandoffObservation): string {
    o.witnessId
  }

  function HandoffIds(observations: seq<HandoffObservation>): (r: seq<string>)
    ensures |r| == |observations|
    ensures forall i :: 0 <= i < |r| ==> r[i] == observations[i].witnessId
  {
    NamesOf(observations, RotatorOf)
  }

  predicate HandedOff(observations: seq<HandoffObservation>, id: string) {
    id in HandoffIds(observations)
  }

  /** The entry of `_handoff_observations_by_id` for one identifier. */
  function HandoffBy(observations: seq<HandoffObservation>, id: string): (o: HandoffObservation)
    requires HandedOff(observations, id)
    ensures o in observations && o.witnessId == id
  {
    LastNamed(observations, RotatorOf, id)
  }

  function HandoffDigests(ids: seq<string>, observations: seq<HandoffObservation>): (r: seq<Digest>)
    requires forall id :: id in ids ==> HandedOff(observations, id)
    ensures |r| == |ids|
    ensures forall i :: 0 <= i < |r| ==> r[i] == HandoffObservationDigest(HandoffBy(observations, ids[i]))
  {
    seq(|ids|, i requires 0 <= i < |ids| => HandoffObservationDigest(HandoffBy(observations, ids[i])))
  }

  /** `_validate_role_certificate`: the certificate is the one rebuilt from its own selected witnesses. */
  predicate ValidRoleCertificate(c: RoleCertificate, role: Role, policy: Policy, s: HandoffStatement,
                                 observations: seq<HandoffObservation>)
  {
    && c.witnessIds != []
    && Ordered(c.witnessIds)
    && Distinct(c.witnessIds)
    && |c.witnessIds| >= policy.threshold
    && Elements(c.witnessIds) <= Elements(policy.authorizedWitnessIds)
    && (forall id :: id in c.witnessIds ==> HandedOff(observations, id))
    && c == RoleCertificate(role, HandoffStatementDigest(s), PolicyDigest(policy), policy.threshold,
              |policy.authorizedWitnessIds|, MinimumIntersection(policy), |c.witnessIds|, c.witnessIds,
              HandoffDigests(c.witnessIds, observations))
  }

  datatype HandoffFault =
    | OldActiveInvalid(fault: QuorumFault)
    | NewActivationInvalid(fault: QuorumFault)
    | PolicyTransitionInvalid
    | ViewMismatch
    | HandoffStatementInvalid
    | HandoffObservationOrderInvalid
    | HandoffObservationInvalid
    | HandoffObservationDuplicate
    | OldHandoffCertificateInvalid
    | NewHandoffCertificateInvalid
    | ObservationCoverageInvalid
    | OldContinuityIntersectionInsufficient
    | NewContinuityIntersectionInsufficient
    | OldWitnessSequenceDiscontinuity
    | OldWitnessPredecessorMismatch
    | NewWitnessSequenceDiscontinuity
    | NewWitnessPredecessorMismatch
    | HandoffCertificateMismatch

  /** Active observation, then handoff observation: one step each. */
  function OldContinuityFault(ids: seq<string>, active: seq<Observation>, handoff: seq<HandoffObservation>)
    : Option<HandoffFault>
    requires forall id :: id in ids ==> Observed(active, id) && HandedOff(handoff, id)
  {
    if ids == [] then None
    else
      var previous, current := ObservationBy(active, ids[0]), HandoffBy(handoff, ids[0]);
      if current.sequence != previous.sequence + 1 then Some(OldWitnessSequenceDiscontinuity)
      else if current.previousObservation != ObservationDigest(previous) then Some(OldWitnessPredecessorMismatch)
      else OldContinuityFault(ids[1..], active, handoff)
  }

  /** Handoff observation, then activation observation: one step each. */
  function NewContinuityFault(ids: seq<string>, handoff: seq<HandoffObservation>, activation: seq<Observation>)
    : Option<HandoffFault>
    requires forall id :: id in ids ==> HandedOff(handoff, id) && Observed(activation, id)
  {
    if ids == [] then None
    else
      var previous, current := HandoffBy(handoff, ids[0]), ObservationBy(activation, ids[0]);
      if current.sequence != previous.sequence + 1 then Some(NewWitnessSequenceDiscontinuity)
      else if current.previousObservation != HandoffObservationDigest(previous) then Some(NewWitnessPredecessorMismatch)
      else NewContinuityFault(ids[1..], handoff, activation)
  }

  function OldOverlap(p: HandoffPackage): seq<string> {
    Overlap(WitnessIds(p.oldActive.observations), p.oldCertificate.witnessIds)
  }

  function NewOverlap(p: HandoffPackage): seq<string> {
    Overlap(WitnessIds(p.newActivation.observations), p.newCertificate.witnessIds)
  }

  /** The checks up to the coverage of the handoff observations. */
  function ObjectsFault(p: HandoffPackage): Option<HandoffFault> {
    var a, b := p.oldActive, p.newActivation;
    var oldFault, newFault := VerifyQuorum(a), VerifyQuorum(b);
    if oldFault.Some? then Some(OldActiveInvalid(oldFault.value))
    else if newFault.Some? then Some(NewActivationInvalid(newFault.value))
    else if !ValidTransition(a.policy, b.policy) then Some(PolicyTransitionInvalid)
    else if a.anchor != b.anchor || a.accumulator != b.accumulator || a.statement != b.statement then Some(ViewMismatch)
    else if !ValidHandoffStatement(p.statement, a.anchor, a.accumulator, a.statement, a.policy, b.policy) then
      Some(HandoffStatementInvalid)
    else if !Ordered(HandoffIds(p.observations)) then Some(HandoffObservationOrderInvalid)
    else if exists id :: id in HandoffIds(p.observations) && !NonEmpty(id) then Some(HandoffObservationInvalid)
    else if !Distinct(HandoffIds(p.observations)) then Some(HandoffObservationDuplicate)
    else if exists o :: o in p.observations && !ValidHandoffObservation(o, p.statement, a.policy, b.policy) then
      Some(HandoffObservationInvalid)
    else if !ValidRoleCertificate(p.oldCertificate, OldRole, a.policy, p.statement, p.observations) then
      Some(OldHandoffCertificateInvalid)
    else if !ValidRoleCertificate(p.newCertificate, NewRole, b.policy, p.statement, p.observations) then
      Some(NewHandoffCertificateInvalid)
    else if Elements(HandoffIds(p.observations))
            != Elements(p.oldCertificate.witnessIds) + Elements(p.newCertificate.witnessIds) then
      Some(ObservationCoverageInvalid)
    else None
  }

  lemma OverlapsAreObserved(p: HandoffPackage)
    requires ObjectsFault(p).None?
    ensures forall id :: id in OldOverlap(p) ==> Observed(p.oldActive.observations, id) && HandedOff(p.observations, id)
    ensures forall id :: id in NewOverlap(p) ==>
              HandedOff(p.observations, id) && Observed(p.newActivation.observations, id)
  {
    hide VerifyQuorum, ValidHandoffStatement, ValidTransition, ValidHandoffObservation, Ordered, Distinct;
    OverlapMembers(WitnessIds(p.oldActive.observations), p.oldCertificate.witnessIds);
    OverlapMembers(WitnessIds(p.newActivation.observations), p.newCertificate.witnessIds);
    forall id | id in OldOverlap(p)
      ensures Observed(p.oldActive.observations, id) && HandedOff(p.observations, id)
    {
      assert id in Elements(OldOverlap(p));
    }
    forall id | id in NewOverlap(p)
      ensures HandedOff(p.observations, id) && Observed(p.newActivation.observations, id)
    {
      assert id in Elements(NewOverlap(p));
    }
  }

  /** `_validate_handoff_package_parts`: the first reason to refuse, or None. */
  function PartsFault(p: HandoffPackage): Option<HandoffFault> {
    var fault := ObjectsFault(p);
    if fault.Some? then fault
    else if |OldOverlap(p)| < MinimumIntersection(p.oldActive.policy) then Some(OldContinuityIntersectionInsufficient)
    else if |NewOverlap(p)| < MinimumIntersection(p.newActivation.policy) then
      Some(NewContinuityIntersectionInsufficient)
    else
      OverlapsAreObserved(p);
      var oldFault := OldContinuityFault(OldOverlap(p), p.oldActive.observations, p.observations);
      if oldFault.Some? then oldFault
      else NewContinuityFault(NewOverlap(p), p.observations, p.newActivation.observations)
  }

  function HandoffReceipt(p: HandoffPackage): HandoffCertificate {
    var a, b, s := p.oldActive, p.newActivation, p.oldActive.statement;
    HandoffCertificate(HandoffStatementDigest(p.statement), StatementDigest(s), s.authorityId, s.trustDomain,
      s.logicalStateId, s.treeSize, s.anchor, s.membershipRoot, a.policy.policyId, PolicyDigest(a.policy),
      PolicyDigest(b.policy), a.policy.policyEpoch, b.policy.policyEpoch,
      DigestOf(QuorumCertificateJson(a.certificate)), DigestOf(RoleCertificateJson(p.oldCertificate)),
      DigestOf(RoleCertificateJson(p.newCertificate)), DigestOf(QuorumCertificateJson(b.certificate)),
      MinimumIntersection(a.policy), MinimumIntersection(b.policy), OldOverlap(p), NewOverlap(p),
      Overlap(p.oldCertificate.witnessIds, p.newCertificate.witnessIds), p.statement.handoffContract,
      p.statement.authorizationContract)
  }

  /** `verify_witness_policy_handoff_package`. */
  function VerifyHandoff(p: HandoffPackage): Option<HandoffFault> {
    var fault := PartsFault(p);
    if fault.Some? then fault
    else if p.certificate != HandoffReceipt(p) then Some(HandoffCertificateMismatch)
    else None
  }

  // ---------------------------------------------------------------- the intersection tests are dead

  lemma {:induction false} OldContinuityReasons(ids: seq<string>, active: seq<Observation>,
                                                handoff: seq<HandoffObservation>)
    requires forall id :: id in ids ==> Observed(active, id) && HandedOff(handoff, id)
    ensures OldContinuityFault(ids, active, handoff)
            in {None, Some(OldWitnessSequenceDiscontinuity), Some(OldWitnessPredecessorMismatch)}
  {
    if ids != [] {
      OldContinuityReasons(ids[1..], active, handoff);
    }
  }

  lemma {:induction false} NewContinuityReasons(ids: seq<string>, handoff: seq<HandoffObservation>,
                                                activation: seq<Observation>)
    requires forall id :: id in ids ==> HandedOff(handoff, id) && Observed(activation, id)
    ensures NewContinuityFault(ids, handoff, activation)
            in {None, Some(NewWitnessSequenceDiscontinuity), Some(NewWitnessPredecessorMismatch)}
  {
    if ids != [] {
      NewContinuityReasons(ids[1..], handoff, activation);
    }
  }

  lemma ObjectsFaultReasons(p: HandoffPackage)
    ensures ObjectsFault(p) !in {Some(OldContinuityIntersectionInsufficient),
                                 Some(NewContinuityIntersectionInsufficient)}
  {
    hide VerifyQuorum, ValidHandoffStatement, ValidTransition, ValidRoleCertificate, Ordered, Distinct;
  }

  lemma ObjectFacts(p: HandoffPackage)
    requires ObjectsFault(p).None?
    ensures VerifyQuorum(p.oldActive).None? && VerifyQuorum(p.newActivation).None?
    ensures ValidTransition(p.oldActive.policy, p.newActivation.policy)
    ensures p.oldActive.anchor == p.newActivation.anchor && p.oldActive.accumulator == p.newActivation.accumulator
    ensures p.oldActive.statement == p.newActivation.statement
    ensures ValidHandoffStatement(p.statement, p.oldActive.anchor, p.oldActive.accumulator, p.oldActive.statement,
                                  p.oldActive.policy, p.newActivation.policy)
    ensures forall o :: o in p.observations ==>
              ValidHandoffObservation(o, p.statement, p.oldActive.policy, p.newActivation.policy)
    ensures ValidRoleCertificate(p.oldCertificate, OldRole, p.oldActive.policy, p.statement, p.observations)
    ensures ValidRoleCertificate(p.newCertificate, NewRole, p.newActivation.policy, p.statement, p.observations)
  {
    hide VerifyQuorum, ValidHandoffStatement, ValidTransition, ValidRoleCertificate, ValidHandoffObservation, Ordered,
      Distinct;
  }

  /** Active and handoff quorums of one policy always meet in at least 2 * threshold - n >= 1 witnesses. */
  lemma ActiveMeetsHandoff(q: QuorumPackage, c: RoleCertificate, role: Role, s: HandoffStatement,
                           observations: seq<HandoffObservation>)
    requires VerifyQuorum(q).None? && ValidRoleCertificate(c, role, q.policy, s, observations)
    ensures |Overlap(WitnessIds(q.observations), c.witnessIds)| >= MinimumIntersection(q.policy) >= 1
  {
    hide VerifyQuorum, ValidStatement, ValidObservation, HandoffDigests;
    AcceptedQuorum(q);
    QuorumsIntersect(WitnessIds(q.observations), c.witnessIds, q.policy.authorizedWitnessIds);
  }

  lemma OverlapsSuffice(p: HandoffPackage)
    requires ObjectsFault(p).None?
    ensures |OldOverlap(p)| >= MinimumIntersection(p.oldActive.policy)
    ensures |NewOverlap(p)| >= MinimumIntersection(p.newActivation.policy)
  {
    hide ObjectsFault, MinimumIntersection;
    ObjectFacts(p);
    ActiveMeetsHandoff(p.oldActive, p.oldCertificate, OldRole, p.statement, p.observations);
    ActiveMeetsHandoff(p.newActivation, p.newCertificate, NewRole, p.statement, p.observations);
  }

  /** The two continuity-intersection branches of the handoff verifier can never be taken. */
  lemma ContinuityIntersectionNeverFails(p: HandoffPackage)
    ensures VerifyHandoff(p)
            !in {Some(OldContinuityIntersectionInsufficient), Some(NewContinuityIntersectionInsufficient)}
  {
    hide ObjectsFault, MinimumIntersection, HandoffReceipt, OldOverlap, NewOverlap, OldContinuityFault,
      NewContinuityFault;
    ObjectsFaultReasons(p);
    if ObjectsFault(p).None? {
      OverlapsSuffice(p);
      OverlapsAreObserved(p);
      OldContinuityReasons(OldOverlap(p), p.oldActive.observations, p.observations);
      NewContinuityReasons(NewOverlap(p), p.observations, p.newActivation.observations);
    }
  }

  lemma AcceptedHandoff(p: HandoffPackage)
    requires VerifyHandoff(p).None?
    ensures ObjectsFault(p).None? && p.certificate == HandoffReceipt(p)
  {
    hide ObjectsFault, HandoffReceipt;
  }

  // ---------------------------------------------------------------- handoff equivocation

  datatype RotationFault =
    | RotationAInvalid(fault: HandoffFault)
    | RotationBInvalid(fault: HandoffFault)
    | OldPolicyContextMismatch
    | ProducerContextMismatch
    | OldQuorumIntersectionInsufficient

  datatype RotationVerdict = SameRotation
    | ConflictingRotations(minimum: int, doubleSigners: seq<string>, observationsA: seq<Digest>,
                           observationsB: seq<Digest>)

  /** What two rotations must share to count as the same: new policy, handoff contract and authorisation. */
  predicate SameMeaning(a: HandoffStatement, b: HandoffStatement) {
    a.newPolicy == b.newPolicy && a.handoffContract == b.handoffContract
    && a.authorizationContract == b.authorizationContract
  }

  function SharedSigners(a: HandoffPackage, b: HandoffPackage): seq<string> {
    Overlap(a.oldCertificate.witnessIds, b.oldCertificate.witnessIds)
  }

  lemma SharedSignersHandedOff(a: HandoffPackage, b: HandoffPackage)
    requires VerifyHandoff(a).None? && VerifyHandoff(b).None?
    ensures forall id :: id in SharedSigners(a, b) ==> HandedOff(a.observations, id) && HandedOff(b.observations, id)
    ensures forall id :: id in SharedSigners(a, b) ==> id in a.oldActive.policy.authorizedWitnessIds
  {
    hide VerifyHandoff, ObjectsFault, VerifyQuorum, ValidHandoffStatement, ValidTransition, ValidHandoffObservation,
      HandoffDigests;
    AcceptedHandoff(a);
    AcceptedHandoff(b);
    ObjectFacts(a);
    ObjectFacts(b);
    OverlapMembers(a.oldCertificate.witnessIds, b.oldCertificate.witnessIds);
    forall id | id in SharedSigners(a, b)
      ensures HandedOff(a.observations, id) && HandedOff(b.observations, id)
      ensures id in a.oldActive.policy.authorizedWitnessIds
    {
      assert id in Elements(SharedSigners(a, b));
      assert id in Elements(a.oldCertificate.witnessIds);
    }
  }

  function DetectRotationConflict(a: HandoffPackage, b: HandoffPackage): Result<RotationVerdict, RotationFault> {
    var faultA, faultB := VerifyHandoff(a), VerifyHandoff(b);
    if faultA.Some? then Err(RotationAInvalid(faultA.value))
    else if faultB.Some? then Err(RotationBInvalid(faultB.value))
    else if PolicyDigest(a.oldActive.policy) != PolicyDigest(b.oldActive.policy) then Err(OldPolicyContextMismatch)
    else if StatementDigest(a.oldActive.statement) != StatementDigest(b.oldActive.statement) then
      Err(ProducerContextMismatch)
    else if SameMeaning(a.statement, b.statement) then Ok(SameRotation)
    else if |SharedSigners(a, b)| < MinimumIntersection(a.oldActive.policy) then Err(OldQuorumIntersectionInsufficient)
    else
      SharedSignersHandedOff(a, b);
      Ok(ConflictingRotations(MinimumIntersection(a.oldActive.policy), SharedSigners(a, b),
                              HandoffDigests(SharedSigners(a, b), a.observations),
                              HandoffDigests(SharedSigners(a, b), b.observations)))
  }

  lemma SignersIntersect(a: HandoffPackage, b: HandoffPackage)
    requires VerifyHandoff(a).None? && VerifyHandoff(b).None? && a.oldActive.policy == b.oldActive.policy
    ensures |SharedSigners(a, b)| >= MinimumIntersection(a.oldActive.policy) >= 1 && Distinct(SharedSigners(a, b))
  {
    hide VerifyHandoff, ObjectsFault, VerifyQuorum, ValidHandoffStatement, ValidHandoffObservation, HandoffDigests;
    AcceptedHandoff(a);
    AcceptedHandoff(b);
    ObjectFacts(a);
    ObjectFacts(b);
    QuorumsIntersect(a.oldCertificate.witnessIds, b.oldCertificate.witnessIds, a.oldActive.policy.authorizedWitnessIds);
    OverlapDistinct(a.oldCertificate.witnessIds, b.oldCertificate.witnessIds);
  }

  /** Two accepted rotations from one old policy and one producer statement always get a verdict: a conflict is
      reported exactly when they mean different things, and then at least 2 * threshold - n >= 1 distinct old
      witnesses are named, each with two different handoff observations. */
  lemma ConflictingRotationsAreAttributed(a: HandoffPackage, b: HandoffPackage)
    requires VerifyHandoff(a).None? && VerifyHandoff(b).None?
    requires a.oldActive.policy == b.oldActive.policy && a.oldActive.statement == b.oldActive.statement
    ensures DetectRotationConflict(a, b).Ok?
    ensures var v := DetectRotationConflict(a, b).value;
            && (v.ConflictingRotations? <==> !SameMeaning(a.statement, b.statement))
            && (v.ConflictingRotations? ==>
                  && |v.doubleSigners| >= v.minimum == MinimumIntersection(a.oldActive.policy) >= 1
                  && Distinct(v.doubleSigners)
                  && |v.observationsA| == |v.observationsB| == |v.doubleSigners|
                  && forall i :: 0 <= i < |v.doubleSigners| ==>
                       && v.doubleSigners[i] in a.oldActive.policy.authorizedWitnessIds
                       && HandedOff(a.observations, v.doubleSigners[i]) && HandedOff(b.observations, v.doubleSigners[i])
                       && v.observationsA[i] == HandoffObservationDigest(HandoffBy(a.observations, v.doubleSigners[i]))
                       && v.observationsB[i] == HandoffObservationDigest(HandoffBy(b.observations, v.doubleSigners[i]))
                       && v.observationsA[i] != v.observationsB[i])
  {
    hide VerifyHandoff, MinimumIntersection, Distinct;
    SignersIntersect(a, b);
    SharedSignersHandedOff(a, b);
    if !SameMeaning(a.statement, b.statement) {
      forall id | id in SharedSigners(a, b)
        ensures HandedOff(a.observations, id) && HandedOff(b.observations, id)
        ensures HandoffBy(a.observations, id) != HandoffBy(b.observations, id)
      {
        SignedDifferently(a, b, id);
      }
    }
  }

  lemma SignedDifferently(a: HandoffPackage, b: HandoffPackage, id: string)
    requires VerifyHandoff(a).None? && VerifyHandoff(b).None? && !SameMeaning(a.statement, b.statement)
    requires HandedOff(a.observations, id) && HandedOff(b.observations, id)
    ensures HandoffBy(a.observations, id) != HandoffBy(b.observations, id)
  {
    hide VerifyHandoff, ObjectsFault, VerifyQuorum, ValidHandoffStatement, ValidTransition, ValidRoleCertificate;
    AcceptedHandoff(a);
    AcceptedHandoff(b);
    ObjectFacts(a);
    ObjectFacts(b);
    assert ValidHandoffObservation(HandoffBy(a.observations, id), a.statement, a.oldActive.policy,
                                   a.newActivation.policy);
    assert ValidHandoffObservation(HandoffBy(b.observations, id), b.statement, b.oldActive.policy,
                                   b.newActivation.policy);
  }
}
