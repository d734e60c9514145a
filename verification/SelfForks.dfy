/** Which double signers fork their own observation logs: exactly who is forced to, and how many that are at least.
    A witness forks its log when it holds two different observations with one sequence number and one predecessor. */
module SelfForks {
  import opened Prelude
  import opened Records
  import opened LineageMembership
  import opened LineageConsistency
  import opened WitnessSets
  import opened LineageWitness
  import opened WitnessHandoff
  import opened Countersigning

  /** How many witnesses any three quorums of a policy share. */
  function TripleIntersection(policy: Policy): int {
    var bound := 3 * policy.threshold - 2 * |policy.authorizedWitnessIds|;
    if bound > 0 then bound else 0
  }

  lemma EveryoneIsAQuorum(policy: Policy)
    requires ValidPolicy(policy)
    ensures IsQuorum(policy.authorizedWitnessIds, policy)
  {
    hide Ordered, Distinct;
  }

  // ---------------------------------------------------------------- split successors

  predicate ForksOwnLog(a: seq<Observation>, b: seq<Observation>, id: string) {
    && Observed(a, id) && Observed(b, id)
    && var x, y := ObservationBy(a, id), ObservationBy(b, id);
    && x != y && x.sequence == y.sequence && x.previousObservation == y.previousObservation
  }

  function RepeatSigners(before: QuorumPackage, a: QuorumPackage, b: QuorumPackage): seq<string> {
    Overlap(WitnessIds(before.observations), SharedWitnesses(a, b))
  }

  lemma RepeatSignersCount(before: QuorumPackage, a: QuorumPackage, b: QuorumPackage)
    requires VerifyQuorum(before).None? && VerifyQuorum(a).None? && VerifyQuorum(b).None?
    requires before.policy == a.policy == b.policy
    ensures |RepeatSigners(before, a, b)| >= 3 * before.policy.threshold - 2 * |before.policy.authorizedWitnessIds|
    ensures Distinct(RepeatSigners(before, a, b))
    ensures forall id :: id in RepeatSigners(before, a, b)
                    <==> Observed(before.observations, id) && id in SharedWitnesses(a, b)
  {
    hide VerifyQuorum, ValidObservation, ValidStatement, Ordered, Distinct, CertificateFor;
    AcceptedQuorum(before);
    AcceptedQuorum(a);
    AcceptedQuorum(b);
    var x, y, z := WitnessIds(before.observations), WitnessIds(a.observations), WitnessIds(b.observations);
    ThreeQuorumsIntersect(x, y, z, before.policy.authorizedWitnessIds);
    OverlapMembers(x, Overlap(y, z));
    forall id ensures id in RepeatSigners(before, a, b) <==> id in x && id in Overlap(y, z) {
      assert id in RepeatSigners(before, a, b) <==> id in Elements(Overlap(x, Overlap(y, z)));
      assert id in Overlap(y, z) <==> id in Elements(Overlap(y, z));
    }
  }

  /** In a split from one old package, every double signer who also signed the old package forks its own log, and there
      are at least 3 * threshold - 2 * n of them. */
  lemma RepeatSignersForkTheirLogs(p: ConsistencyPackage, q: ConsistencyPackage, before: QuorumPackage,
                                   a: QuorumPackage, b: QuorumPackage)
    requires VerifyWitnessed(p, before, a).None? && VerifyWitnessed(q, before, b).None?
    requires p.newEndpoint.anchor != q.newEndpoint.anchor
    ensures DetectSplit(a, b).Ok? && DetectSplit(a, b).value.Detected?
    ensures Distinct(RepeatSigners(before, a, b)) && |RepeatSigners(before, a, b)| >= TripleIntersection(before.policy)
    ensures forall id :: id in RepeatSigners(before, a, b)
                    <==> id in DetectSplit(a, b).value.doubleSigners && Observed(before.observations, id)
    ensures forall id :: id in RepeatSigners(before, a, b) ==> ForksOwnLog(a.observations, b.observations, id)
  {
    hide VerifyWitnessed, VerifyQuorum, VerifyAuthorized, DetectSplit, RepeatSigners, Distinct, Observed, ForksOwnLog,
      SharedWitnesses, Conflict;
    AcceptedWitnessed(p, before, a);
    AcceptedWitnessed(q, before, b);
    SplitSuccessorsAreAttributed(p, q, before, a, b);
    SplitFacts(a, b, DetectSplit(a, b).value);
    RepeatSignersCount(before, a, b);
    forall id | id in RepeatSigners(before, a, b) ensures ForksOwnLog(a.observations, b.observations, id) {
      RepeatSignerForks(p, q, before, a, b, id);
    }
  }

  lemma RepeatSignerForks(p: ConsistencyPackage, q: ConsistencyPackage, before: QuorumPackage, a: QuorumPackage,
                          b: QuorumPackage, id: string)
    requires VerifyWitnessed(p, before, a).None? && VerifyWitnessed(q, before, b).None?
    requires Conflict(a.statement, b.statement).Some?
    requires Observed(before.observations, id) && id in SharedWitnesses(a, b)
    ensures ForksOwnLog(a.observations, b.observations, id)
  {
    hide VerifyWitnessed, VerifyQuorum, Conflict, ObservationBy, ObservationDigest, Observed, SharedWitnesses;
    SharedAreObserved(a, b, id);
    SignedOnward(p, before, a, id);
    SignedOnward(q, before, b, id);
    AcceptedWitnessed(p, before, a);
    AcceptedWitnessed(q, before, b);
    TwoDifferentObservations(a, b, id);
  }

  lemma SignedOnward(p: ConsistencyPackage, before: QuorumPackage, after: QuorumPackage, id: string)
    requires VerifyWitnessed(p, before, after).None?
    requires Observed(before.observations, id) && Observed(after.observations, id)
    ensures var earlier, later := ObservationBy(before.observations, id), ObservationBy(after.observations, id);
            later.sequence == earlier.sequence + 1 && later.previousObservation == ObservationDigest(earlier)
  {
    hide VerifyWitnessed, ObservationDigest, ObservationBy;
    OverlapMembers(WitnessIds(before.observations), WitnessIds(after.observations));
    assert id in Elements(SharedWitnesses(before, after));
    AcceptedWitnessed(p, before, after);
  }

  /** Two accepted successors of one package, both signed by the witness. */
  predicate DoubleSigned(p: ConsistencyPackage, q: ConsistencyPackage, before: QuorumPackage, a: QuorumPackage,
                         b: QuorumPackage, id: string)
  {
    VerifyWitnessed(p, before, a).None? && VerifyWitnessed(q, before, b).None? && id in SharedWitnesses(a, b)
  }

  /** Successors signed by the same quorums, whose newcomers sign at the given places. */
  lemma QuorumsDoubleSign(p: ConsistencyPackage, q: ConsistencyPackage, before: QuorumPackage, x: seq<string>,
                          y: seq<string>, id: string, first: nat, second: nat)
    requires VerifyConsistency(p).None? && VerifyConsistency(q).None? && VerifyQuorum(before).None?
    requires Publication(before).endpoint == p.oldEndpoint == q.oldEndpoint
    requires IsQuorum(x, before.policy) && IsQuorum(y, before.policy) && id in x && id in y
    requires first > 0 && second > 0
    ensures var a, b := NextQuorum(before, p.newEndpoint, x, first), NextQuorum(before, q.newEndpoint, y, second);
            && DoubleSigned(p, q, before, a, b, id)
            && Observed(a.observations, id) && Observed(b.observations, id)
            && ObservationBy(a.observations, id) == SignatureOn(a.statement, before.policy, id,
                                                                NextPlace(before.observations, id, first))
            && ObservationBy(b.observations, id) == SignatureOn(b.statement, before.policy, id,
                                                                NextPlace(before.observations, id, second))
  {
    hide VerifyConsistency, VerifyQuorum, VerifyWitnessed, NextStatement, SignatureOn, NextPlace, CertificateFor,
      Observed, ObservationBy, Distinct, Ordered;
    var a, b := NextQuorum(before, p.newEndpoint, x, first), NextQuorum(before, q.newEndpoint, y, second);
    NextQuorumIsWitnessed(p, before, x, first);
    NextQuorumIsWitnessed(q, before, y, second);
    SignedNextFacts(a.statement, before.policy, x, before.observations, first);
    SignedNextFacts(b.statement, before.policy, y, before.observations, second);
    OverlapMembers(x, y);
    assert id in Elements(Overlap(x, y));
  }

  /** A newcomer forks its log when it signs both sides at one place, and does not when it signs at two. */
  lemma NewcomerChooses(p: ConsistencyPackage, q: ConsistencyPackage, before: QuorumPackage, x: seq<string>,
                        y: seq<string>, id: string, second: nat)
    requires VerifyConsistency(p).None? && VerifyConsistency(q).None? && VerifyQuorum(before).None?
    requires Publication(before).endpoint == p.oldEndpoint == q.oldEndpoint
    requires p.newEndpoint.anchor != q.newEndpoint.anchor
    requires IsQuorum(x, before.policy) && IsQuorum(y, before.policy) && id in x && id in y && second in {1, 2}
    requires !Observed(before.observations, id)
    ensures var a, b := NextQuorum(before, p.newEndpoint, x, 1), NextQuorum(before, q.newEndpoint, y, second);
            DoubleSigned(p, q, before, a, b, id) && (ForksOwnLog(a.observations, b.observations, id) <==> second == 1)
  {
    hide VerifyConsistency, VerifyQuorum, DoubleSigned, CertificateFor, Observed, ObservationBy, Distinct, Ordered;
    QuorumsDoubleSign(p, q, before, x, y, id, 1, second);
  }

  /** The exact guard. For any accepted package and any two accepted extensions of it to different anchors, some pair of
      successors is signed twice by the witness; every such pair makes the witness fork its own log if and only if the
      witness signed the old package. A newcomer can fork its log too, but need not. */
  lemma SigningBeforeForcesTheFork(p: ConsistencyPackage, q: ConsistencyPackage, before: QuorumPackage, id: string)
    requires VerifyConsistency(p).None? && VerifyConsistency(q).None? && VerifyQuorum(before).None?
    requires Publication(before).endpoint == p.oldEndpoint == q.oldEndpoint
    requires p.newEndpoint.anchor != q.newEndpoint.anchor && id in before.policy.authorizedWitnessIds
    ensures exists a, b :: DoubleSigned(p, q, before, a, b, id) && ForksOwnLog(a.observations, b.observations, id)
    ensures (forall a, b :: DoubleSigned(p, q, before, a, b, id) ==> ForksOwnLog(a.observations, b.observations, id))
       <==> Observed(before.observations, id)
  {
    hide VerifyConsistency, VerifyQuorum, DoubleSigned, ForksOwnLog, Observed, NextQuorum, ValidPolicy, ValidStatement,
      ValidObservation, IsQuorum;
    var everyone := before.policy.authorizedWitnessIds;
    AcceptedQuorum(before);
    EveryoneIsAQuorum(before.policy);
    QuorumsDoubleSign(p, q, before, everyone, everyone, id, 1, 1);
    if Observed(before.observations, id) {
      forall a, b | DoubleSigned(p, q, before, a, b, id) ensures ForksOwnLog(a.observations, b.observations, id) {
        DoubleSignersFork(p, q, before, a, b, id);
      }
    } else {
      NewcomerChooses(p, q, before, everyone, everyone, id, 1);
      NewcomerChooses(p, q, before, everyone, everyone, id, 2);
    }
  }

  lemma DoubleSignersFork(p: ConsistencyPackage, q: ConsistencyPackage, before: QuorumPackage, a: QuorumPackage,
                          b: QuorumPackage, id: string)
    requires DoubleSigned(p, q, before, a, b, id) && Observed(before.observations, id)
    requires p.newEndpoint.anchor != q.newEndpoint.anchor
    ensures ForksOwnLog(a.observations, b.observations, id)
  {
    hide VerifyWitnessed, ForksOwnLog, Observed, SharedWitnesses, DetectSplit, Conflict;
    AcceptedWitnessed(p, before, a);
    AcceptedWitnessed(q, before, b);
    SplitSuccessorsAreAttributed(p, q, before, a, b);
    SplitFacts(a, b, DetectSplit(a, b).value);
    RepeatSignerForks(p, q, before, a, b, id);
  }

  /** The bound is tight for every policy: between any two accepted extensions of one endpoint to different anchors
      there is a split in which exactly 3 * threshold - 2 * n double signers (or none) fork their own logs. */
  lemma RepeatSignerBoundIsTight(p: ConsistencyPackage, q: ConsistencyPackage, policy: Policy)
    returns (before: QuorumPackage, a: QuorumPackage, b: QuorumPackage)
    requires VerifyConsistency(p).None? && VerifyConsistency(q).None? && p.oldEndpoint == q.oldEndpoint
    requires p.newEndpoint.anchor != q.newEndpoint.anchor && ValidPolicy(policy)
    ensures before.policy == policy && VerifyWitnessed(p, before, a).None? && VerifyWitnessed(q, before, b).None?
    ensures SplitProven(a, b)
    ensures |RepeatSigners(before, a, b)| == TripleIntersection(policy)
    ensures forall id :: id in DetectSplit(a, b).value.doubleSigners ==>
              (ForksOwnLog(a.observations, b.observations, id) <==> id in RepeatSigners(before, a, b))
  {
    hide VerifyConsistency, VerifyQuorum, VerifyWitnessed, ForksOwnLog, Observed, NextQuorum, FirstQuorum, Overlap,
      ValidAnchor, ContextFault, DetectSplit, Distinct, Ordered;
    var x, y, z := ThreeQuorumsMayMeetExactly(policy.authorizedWitnessIds, policy.threshold);
    assert x in [x, y, z] && y in [x, y, z] && z in [x, y, z];
    AcceptedContext(p);
    FirstQuorumVerifies(p.oldEndpoint, policy, x);
    before := FirstQuorum(p.oldEndpoint, policy, x);
    FirstQuorumParts(p.oldEndpoint, policy, x);
    a, b := NextQuorum(before, p.newEndpoint, y, 1), NextQuorum(before, q.newEndpoint, z, 2);
    NextQuorumIsWitnessed(p, before, y, 1);
    NextQuorumIsWitnessed(q, before, z, 2);
    NextQuorumSigners(before, p.newEndpoint, y, 1);
    NextQuorumSigners(before, q.newEndpoint, z, 2);
    RepeatSignersForkTheirLogs(p, q, before, a, b);
    forall id | id in DetectSplit(a, b).value.doubleSigners
      ensures ForksOwnLog(a.observations, b.observations, id) <==> id in RepeatSigners(before, a, b)
    {
      SplitFacts(a, b, DetectSplit(a, b).value);
      OverlapMembers(y, z);
      assert id in Elements(Overlap(y, z));
      if !Observed(before.observations, id) {
        NewcomerChooses(p, q, before, y, z, id, 2);
      }
    }
  }

  lemma FirstQuorumParts(e: Endpoint, policy: Policy, signers: seq<string>)
    ensures var q := FirstQuorum(e, policy, signers); q.policy == policy && Publication(q).endpoint == e
  {
  }

  lemma NextQuorumSigners(before: QuorumPackage, e: Endpoint, signers: seq<string>, start: nat)
    requires Distinct(signers)
    ensures WitnessIds(NextQuorum(before, e, signers, start).observations) == signers
  {
    hide Distinct, NextStatement, CertificateFor;
    SignedNextFacts(NextStatement(before.statement, e), before.policy, signers, before.observations, start);
  }

  // ---------------------------------------------------------------- conflicting rotations

  predicate ForksRotationLog(a: seq<HandoffObservation>, b: seq<HandoffObservation>, id: string) {
    && HandedOff(a, id) && HandedOff(b, id)
    && var x, y := HandoffBy(a, id), HandoffBy(b, id);
    && x != y && x.sequence == y.sequence && x.previousObservation == y.previousObservation
  }

  lemma {:induction false} OldContinuityHolds(ids: seq<string>, active: seq<Observation>,
                                              handoff: seq<HandoffObservation>)
    requires forall id :: id in ids ==> Observed(active, id) && HandedOff(handoff, id)
    requires OldContinuityFault(ids, active, handoff).None?
    ensures forall id :: id in ids ==>
              var earlier, later := ObservationBy(active, id), HandoffBy(handoff, id);
              later.sequence == earlier.sequence + 1 && later.previousObservation == ObservationDigest(earlier)
  {
    hide ObservationBy, HandoffBy, Observed, HandedOff, ObservationDigest;
    if ids != [] {
      OldContinuityHolds(ids[1..], active, handoff);
      assert forall id :: id in ids <==> id == ids[0] || id in ids[1..];
    }
  }

  function RepeatRotators(a: HandoffPackage, b: HandoffPackage): seq<string> {
    Overlap(WitnessIds(a.oldActive.observations), SharedSigners(a, b))
  }

  lemma RepeatRotatorsCount(a: HandoffPackage, b: HandoffPackage)
    requires VerifyHandoff(a).None? && VerifyHandoff(b).None? && a.oldActive == b.oldActive
    ensures var policy := a.oldActive.policy;
            |RepeatRotators(a, b)| >= 3 * policy.threshold - 2 * |policy.authorizedWitnessIds|
    ensures Distinct(RepeatRotators(a, b))
    ensures forall id :: id in RepeatRotators(a, b)
                    <==> Observed(a.oldActive.observations, id) && id in SharedSigners(a, b)
  {
    hide VerifyHandoff, ObjectsFault, VerifyQuorum, ValidHandoffStatement, ValidHandoffObservation, HandoffDigests,
      ValidObservation, ValidStatement, Ordered, Distinct, CertificateFor, HandedOff;
    AcceptedHandoff(a);
    AcceptedHandoff(b);
    ObjectFacts(a);
    ObjectFacts(b);
    AcceptedQuorum(a.oldActive);
    var x, y, z := WitnessIds(a.oldActive.observations), a.oldCertificate.witnessIds, b.oldCertificate.witnessIds;
    ThreeQuorumsIntersect(x, y, z, a.oldActive.policy.authorizedWitnessIds);
    OverlapMembers(x, Overlap(y, z));
    forall id ensures id in RepeatRotators(a, b) <==> id in x && id in Overlap(y, z) {
      assert id in RepeatRotators(a, b) <==> id in Elements(Overlap(x, Overlap(y, z)));
      assert id in Overlap(y, z) <==> id in Elements(Overlap(y, z));
    }
  }

  lemma RotatedOnward(p: HandoffPackage, id: string)
    requires VerifyHandoff(p).None? && Observed(p.oldActive.observations, id) && id in p.oldCertificate.witnessIds
    ensures HandedOff(p.observations, id)
    ensures var earlier, later := ObservationBy(p.oldActive.observations, id), HandoffBy(p.observations, id);
            later.sequence == earlier.sequence + 1 && later.previousObservation == ObservationDigest(earlier)
  {
    hide ObjectsFault, HandoffReceipt, ObservationBy, HandoffBy, NewContinuityFault, MinimumIntersection,
      ObservationDigest;
    AcceptedHandoff(p);
    OverlapMembers(WitnessIds(p.oldActive.observations), p.oldCertificate.witnessIds);
    assert id in Elements(OldOverlap(p));
    OverlapsAreObserved(p);
    OldContinuityHolds(OldOverlap(p), p.oldActive.observations, p.observations);
  }

  lemma RotatorForks(a: HandoffPackage, b: HandoffPackage, id: string)
    requires VerifyHandoff(a).None? && VerifyHandoff(b).None? && a.oldActive == b.oldActive
    requires !SameMeaning(a.statement, b.statement)
    requires Observed(a.oldActive.observations, id) && id in SharedSigners(a, b)
    ensures ForksRotationLog(a.observations, b.observations, id)
  {
    hide VerifyHandoff, SameMeaning, ObservationBy, HandoffBy, Observed, HandedOff, ObservationDigest;
    OverlapMembers(a.oldCertificate.witnessIds, b.oldCertificate.witnessIds);
    assert id in Elements(SharedSigners(a, b));
    RotatedOnward(a, id);
    RotatedOnward(b, id);
    SignedDifferently(a, b, id);
  }

  lemma NamedSigners(a: HandoffPackage, b: HandoffPackage)
    requires DetectRotationConflict(a, b).Ok? && DetectRotationConflict(a, b).value.ConflictingRotations?
    ensures DetectRotationConflict(a, b).value.doubleSigners == SharedSigners(a, b)
  {
    hide VerifyHandoff, SharedSigners, SameMeaning, MinimumIntersection, HandedOff;
  }

  /** When two rotations of different meaning leave one active package, every double signer who also signed that package
      forks its own log, and there are at least 3 * threshold - 2 * n of them. */
  lemma RepeatRotatorsForkTheirLogs(a: HandoffPackage, b: HandoffPackage)
    requires VerifyHandoff(a).None? && VerifyHandoff(b).None? && a.oldActive == b.oldActive
    requires !SameMeaning(a.statement, b.statement)
    ensures DetectRotationConflict(a, b).Ok? && DetectRotationConflict(a, b).value.ConflictingRotations?
    ensures Distinct(RepeatRotators(a, b)) && |RepeatRotators(a, b)| >= TripleIntersection(a.oldActive.policy)
    ensures forall id :: id in RepeatRotators(a, b)
                    <==> id in DetectRotationConflict(a, b).value.doubleSigners
                         && Observed(a.oldActive.observations, id)
    ensures forall id :: id in RepeatRotators(a, b) ==> ForksRotationLog(a.observations, b.observations, id)
  {
    hide VerifyHandoff, SameMeaning, DetectRotationConflict, RepeatRotators, SharedSigners, Distinct, Observed,
      HandedOff, ForksRotationLog, MinimumIntersection;
    ConflictingRotationsAreAttributed(a, b);
    NamedSigners(a, b);
    RepeatRotatorsCount(a, b);
    forall id | id in RepeatRotators(a, b) ensures ForksRotationLog(a.observations, b.observations, id) {
      RotatorForks(a, b, id);
    }
  }

  /** Two accepted rotations of one active package with different meaning, both signed by the witness. */
  predicate DoubleRotated(active: QuorumPackage, a: HandoffPackage, b: HandoffPackage, id: string) {
    && VerifyHandoff(a).None? && VerifyHandoff(b).None?
    && a.oldActive == b.oldActive == active
    && !SameMeaning(a.statement, b.statement)
    && id in SharedSigners(a, b)
  }

  lemma QuorumRotates(active: QuorumPackage, contract: Digest, signers: seq<string>, start: nat, id: string)
    requires VerifyQuorum(active).None? && IsQuorum(signers, active.policy)
    requires contract != Zero && start > 0 && id in signers
    ensures var p := Rotated(active, contract, signers, start);
            && VerifyHandoff(p).None? && p.oldActive == active && p.oldCertificate.witnessIds == signers
            && HandedOff(p.observations, id) && HandoffBy(p.observations, id) == RotationBy(active, contract, id, start)
  {
    hide VerifyQuorum, VerifyHandoff, Rotated, HandedOff, HandoffBy, RotationBy, Distinct, Ordered;
    RotatedVerifies(active, contract, signers, start);
    RotationsAreNamed(active, contract, signers, start);
    RotatedSigners(active, contract, signers, start);
  }

  lemma QuorumsDoubleRotate(active: QuorumPackage, x: seq<string>, y: seq<string>, id: string, first: nat, second: nat)
    requires VerifyQuorum(active).None? && IsQuorum(x, active.policy) && IsQuorum(y, active.policy)
    requires id in x && id in y && first > 0 && second > 0
    ensures var a, b := Rotated(active, Foreign(1), x, first), Rotated(active, Foreign(2), y, second);
            && DoubleRotated(active, a, b, id)
            && HandedOff(a.observations, id)
            && HandoffBy(a.observations, id) == RotationBy(active, Foreign(1), id, first)
            && HandedOff(b.observations, id)
            && HandoffBy(b.observations, id) == RotationBy(active, Foreign(2), id, second)
  {
    hide VerifyQuorum, VerifyHandoff, Rotated, HandedOff, HandoffBy, RotationBy, SameMeaning, IsQuorum, Overlap;
    QuorumsAreDistinct(x, active.policy);
    QuorumsAreDistinct(y, active.policy);
    QuorumRotates(active, Foreign(1), x, first, id);
    QuorumRotates(active, Foreign(2), y, second, id);
    ContractsDiffer(active, x, first, y, second);
    OverlapMembers(x, y);
    assert id in Elements(Overlap(x, y));
  }

  lemma QuorumsAreDistinct(signers: seq<string>, policy: Policy)
    requires IsQuorum(signers, policy)
    ensures Distinct(signers)
  {
  }

  lemma RotatedSigners(active: QuorumPackage, contract: Digest, signers: seq<string>, start: nat)
    requires Distinct(signers)
    ensures var p := Rotated(active, contract, signers, start);
            && p.oldActive == active && p.oldCertificate.witnessIds == signers
            && p.observations == Rotations(active, contract, signers, start)
  {
    hide Distinct, HandoffReceipt, Activated, RotationStatement, Rotations, HandoffDigests;
  }

  lemma ContractsDiffer(active: QuorumPackage, x: seq<string>, first: nat, y: seq<string>, second: nat)
    requires Distinct(x) && Distinct(y)
    ensures !SameMeaning(Rotated(active, Foreign(1), x, first).statement,
                         Rotated(active, Foreign(2), y, second).statement)
  {
    hide Distinct, HandoffReceipt, Activated, Rotations, RoleFor;
  }

  lemma NewcomerChoosesRotation(active: QuorumPackage, x: seq<string>, y: seq<string>, id: string, second: nat)
    requires VerifyQuorum(active).None? && IsQuorum(x, active.policy) && IsQuorum(y, active.policy)
    requires id in x && id in y && second in {1, 2} && !Observed(active.observations, id)
    ensures var a, b := Rotated(active, Foreign(1), x, 1), Rotated(active, Foreign(2), y, second);
            DoubleRotated(active, a, b, id) && (ForksRotationLog(a.observations, b.observations, id) <==> second == 1)
  {
    hide VerifyQuorum, DoubleRotated, Observed, HandedOff, HandoffBy, Distinct, Ordered, Rotated;
    QuorumsDoubleRotate(active, x, y, id, 1, second);
  }

  /** The exact guard for rotations, for every accepted active package: some two rotations of different meaning are
      signed twice by the witness; every such pair makes it fork its own log if and only if it signed the active
      package. A newcomer can fork its log too, but need not. */
  lemma SigningActiveForcesTheFork(active: QuorumPackage, id: string)
    requires VerifyQuorum(active).None? && id in active.policy.authorizedWitnessIds
    ensures exists a, b :: DoubleRotated(active, a, b, id) && ForksRotationLog(a.observations, b.observations, id)
    ensures (forall a, b :: DoubleRotated(active, a, b, id) ==> ForksRotationLog(a.observations, b.observations, id))
       <==> Observed(active.observations, id)
  {
    hide VerifyQuorum, DoubleRotated, ForksRotationLog, Observed, Rotated, ValidPolicy, ValidStatement,
      ValidObservation, IsQuorum;
    var everyone := active.policy.authorizedWitnessIds;
    AcceptedQuorum(active);
    EveryoneIsAQuorum(active.policy);
    QuorumsAreDistinct(everyone, active.policy);
    QuorumsDoubleRotate(active, everyone, everyone, id, 1, 1);
    if Observed(active.observations, id) {
      forall a, b | DoubleRotated(active, a, b, id) ensures ForksRotationLog(a.observations, b.observations, id) {
        DoubleRotatorsFork(active, a, b, id);
      }
    } else {
      NewcomerChoosesRotation(active, everyone, everyone, id, 1);
      NewcomerChoosesRotation(active, everyone, everyone, id, 2);
    }
  }

  lemma DoubleRotatorsFork(active: QuorumPackage, a: HandoffPackage, b: HandoffPackage, id: string)
    requires DoubleRotated(active, a, b, id) && Observed(active.observations, id)
    ensures ForksRotationLog(a.observations, b.observations, id)
  {
    hide VerifyHandoff, ForksRotationLog, Observed, SharedSigners, SameMeaning;
    RotatorForks(a, b, id);
  }

  /** The bound is tight for rotations as well: over any anchor and any policy there is an active package with two
      rotations of different meaning in which exactly 3 * threshold - 2 * n double signers (or none) fork their logs. */
  lemma RepeatRotatorBoundIsTight(e: Endpoint, policy: Policy)
    returns (active: QuorumPackage, a: HandoffPackage, b: HandoffPackage)
    requires ValidAnchor(e.anchor, e.accumulator) && ValidPolicy(policy)
    ensures VerifyQuorum(active).None? && active.policy == policy && a.oldActive == b.oldActive == active
    ensures VerifyHandoff(a).None? && VerifyHandoff(b).None? && !SameMeaning(a.statement, b.statement)
    ensures |RepeatRotators(a, b)| == TripleIntersection(policy)
    ensures forall id :: id in SharedSigners(a, b) ==>
              (ForksRotationLog(a.observations, b.observations, id) <==> id in RepeatRotators(a, b))
  {
    hide ValidAnchor, VerifyQuorum, VerifyHandoff, ForksRotationLog, Observed, FirstQuorum, Overlap, Distinct, Ordered,
      HandoffReceipt, Activated, RoleFor, ValidPolicy;
    PolicyBounds(policy);
    var x, y, z := ThreeQuorumsMayMeetExactly(policy.authorizedWitnessIds, policy.threshold);
    assert x in [x, y, z] && y in [x, y, z] && z in [x, y, z];
    FirstQuorumVerifies(e, policy, x);
    FirstQuorumParts(e, policy, x);
    active := FirstQuorum(e, policy, x);
    a, b := Rotated(active, Foreign(1), y, 1), Rotated(active, Foreign(2), z, 2);
    RotatedVerifies(active, Foreign(1), y, 1);
    RotatedVerifies(active, Foreign(2), z, 2);
    RotatedSigners(active, Foreign(1), y, 1);
    RotatedSigners(active, Foreign(2), z, 2);
    RepeatRotatorsForkTheirLogs(a, b);
    RepeatRotatorsCount(a, b);
    forall id | id in SharedSigners(a, b)
      ensures ForksRotationLog(a.observations, b.observations, id) <==> id in RepeatRotators(a, b)
    {
      OverlapMembers(y, z);
      assert id in Elements(Overlap(y, z));
      if !Observed(active.observations, id) {
        NewcomerChoosesRotation(active, y, z, id, 2);
      }
    }
  }

  lemma PolicyBounds(policy: Policy)
    requires ValidPolicy(policy)
    ensures Ordered(policy.authorizedWitnessIds) && Distinct(policy.authorizedWitnessIds)
    ensures 0 < policy.threshold <= |policy.authorizedWitnessIds| < 2 * policy.threshold
  {
    hide Ordered, Distinct;
  }
}
