/** Witness policies, quorum packages over one anchor statement, witnessed consistency and attributable split views. */
module LineageWitness {
  import opened Prelude
  import opened MerkleTree
  import opened Records
  import opened LineageCompaction
  import opened LineageMembership
  import opened LineageConsistency
  import opened AuthorityLogs
  import opened WitnessSets

  // ---------------------------------------------------------------- policy

  predicate ValidPolicy(p: Policy) {
    && p.authorizedWitnessIds != []
    && Ordered(p.authorizedWitnessIds)
    && (forall id :: id in p.authorizedWitnessIds ==> NonEmpty(id))
    && Distinct(p.authorizedWitnessIds)
    && NonEmpty(p.policyId)
    && p.policyEpoch > 0
    && p.threshold > 0
    && p.threshold <= |p.authorizedWitnessIds|
    && 2 * p.threshold > |p.authorizedWitnessIds|
    && p.witnessContract != Zero
    && p.authorizationContract != Zero
  }

  function MinimumIntersection(p: Policy): int {
    2 * p.threshold - |p.authorizedWitnessIds|
  }

  function PolicyDigest(p: Policy): Digest {
    DigestOf(PolicyJson(p))
  }

  // ---------------------------------------------------------------- observations and packages

  predicate ValidObservation(o: Observation, anchor: LineageAnchor, acc: Accumulator, s: AnchorStatement, p: Policy) {
    && ValidPolicy(p)
    && ValidStatement(s, anchor, acc)
    && o.verified
    && o.witnessId in p.authorizedWitnessIds
    && o.sequence > 0
    && (if o.sequence == 1 then o.previousObservation == Zero else o.previousObservation != Zero)
    && o.provenance != Zero
    && o.policy == PolicyDigest(p)
    && o.producerStatement == StatementDigest(s)
    && o.authorityId == s.authorityId
    && o.trustDomain == s.trustDomain
    && o.logicalStateId == s.logicalStateId
    && o.treeSize == s.treeSize
    && o.anchor == s.anchor
    && o.membershipRoot == s.membershipRoot
    && o.treeAlgorithm == s.treeAlgorithm
    && o.membershipContract == s.membershipContract
    && o.authorizationContract == s.authorizationContract
  }

  function WitnessOf(o: Observation): string {
    o.witnessId
  }

  function WitnessIds(observations: seq<Observation>): (r: seq<string>)
    ensures |r| == |observations|
    ensures forall i :: 0 <= i < |r| ==> r[i] == observations[i].witnessId
  {
    NamesOf(observations, WitnessOf)
  }

  function ObservationDigest(o: Observation): Digest {
    DigestOf(ObservationJson(o))
  }

  function CertificateFor(s: AnchorStatement, p: Policy, observations: seq<Observation>): QuorumCertificate {
    QuorumCertificate(PolicyDigest(p), StatementDigest(s), s.authorityId, s.sequence, s.trustDomain, s.logicalStateId,
      s.treeSize, s.anchor, s.membershipRoot, s.treeAlgorithm, s.membershipContract, s.authorizationContract,
      p.threshold, |p.authorizedWitnessIds|, MinimumIntersection(p), |observations|, WitnessIds(observations),
      seq(|observations|, i requires 0 <= i < |observations| => ObservationDigest(observations[i])))
  }

  datatype QuorumFault =
    | WitnessPolicyInvalid
    | ProducerStatementInvalid
    | ObservationOrderInvalid
    | ObservationInvalid
    | ObservationDuplicate
    | QuorumInsufficient
    | CertificateMismatch

  /** `verify_lineage_witness_quorum_package`: the first reason to refuse, or None. */
  function VerifyQuorum(q: QuorumPackage): Option<QuorumFault> {
    var ids := WitnessIds(q.observations);
    if !ValidPolicy(q.policy) then Some(WitnessPolicyInvalid)
    else if !ValidStatement(q.statement, q.anchor, q.accumulator) then Some(ProducerStatementInvalid)
    else if !Ordered(ids) then Some(ObservationOrderInvalid)
    else if exists id :: id in ids && !NonEmpty(id) then Some(ObservationInvalid)
    else if !Distinct(ids) then Some(ObservationDuplicate)
    else if |q.observations| < q.policy.threshold then Some(QuorumInsufficient)
    else if exists o :: o in q.observations
                        && !ValidObservation(o, q.anchor, q.accumulator, q.statement, q.policy) then
      Some(ObservationInvalid)
    else if q.certificate != CertificateFor(q.statement, q.policy, q.observations) then Some(CertificateMismatch)
    else None
  }

  predicate Observed(observations: seq<Observation>, id: string) {
    id in WitnessIds(observations)
  }

  /** The entry of `_observations_by_witness` for one identifier. */
  function ObservationBy(observations: seq<Observation>, id: string): (o: Observation)
    requires Observed(observations, id)
    ensures o in observations && o.witnessId == id
  {
    LastNamed(observations, WitnessOf, id)
  }

  function SharedWitnesses(a: QuorumPackage, b: QuorumPackage): seq<string> {
    Overlap(WitnessIds(a.observations), WitnessIds(b.observations))
  }

  lemma SharedAreObserved(a: QuorumPackage, b: QuorumPackage, id: string)
    requires id in SharedWitnesses(a, b)
    ensures Observed(a.observations, id) && Observed(b.observations, id)
  {
    OverlapMembers(WitnessIds(a.observations), WitnessIds(b.observations));
    assert id in Elements(SharedWitnesses(a, b));
  }

  /** What the verifier established about the observers of an accepted package. */
  lemma AcceptedQuorum(q: QuorumPackage)
    requires VerifyQuorum(q).None?
    ensures ValidPolicy(q.policy) && ValidStatement(q.statement, q.anchor, q.accumulator)
    ensures Distinct(WitnessIds(q.observations)) && Ordered(WitnessIds(q.observations))
    ensures Elements(WitnessIds(q.observations)) <= Elements(q.policy.authorizedWitnessIds)
    ensures |WitnessIds(q.observations)| >= q.policy.threshold
    ensures forall o :: o in q.observations ==> ValidObservation(o, q.anchor, q.accumulator, q.statement, q.policy)
    ensures q.certificate == CertificateFor(q.statement, q.policy, q.observations)
  {
    hide ValidPolicy, ValidStatement, Ordered, Distinct, CertificateFor;
    forall id | id in WitnessIds(q.observations) ensures id in q.policy.authorizedWitnessIds {
      var o := ObservationBy(q.observations, id);
      assert ValidObservation(o, q.anchor, q.accumulator, q.statement, q.policy);
    }
  }

  /** Any two accepted packages under one policy share at least 2 * threshold - n >= 1 witnesses. */
  lemma AcceptedQuorumsIntersect(a: QuorumPackage, b: QuorumPackage)
    requires VerifyQuorum(a).None? && VerifyQuorum(b).None? && a.policy == b.policy
    ensures |SharedWitnesses(a, b)| >= MinimumIntersection(a.policy) >= 1
  {
    hide VerifyQuorum, ValidObservation, ValidStatement;
    AcceptedQuorum(a);
    AcceptedQuorum(b);
    QuorumsIntersect(WitnessIds(a.observations), WitnessIds(b.observations), a.policy.authorizedWitnessIds);
  }

  // ---------------------------------------------------------------- witnessed consistency

  datatype WitnessedFault =
    | OldQuorumInvalid(fault: QuorumFault)
    | NewQuorumInvalid(fault: QuorumFault)
    | NotAuthorized(authorityFault: AuthorityFault)
    | WitnessPolicyDrift
    | QuorumIntersectionInsufficient
    | ObservationSequenceDiscontinuity
    | ObservationPredecessorMismatch

  /** The loop over shared witnesses: each must have moved on by exactly one observation. */
  function ContinuityFault(ids: seq<string>, before: seq<Observation>, after: seq<Observation>): Option<WitnessedFault>
    requires forall id :: id in ids ==> Observed(before, id) && Observed(after, id)
  {
    if ids == [] then None
    else
      var earlier, later := ObservationBy(before, ids[0]), ObservationBy(after, ids[0]);
      if later.sequence != earlier.sequence + 1 then Some(ObservationSequenceDiscontinuity)
      else if later.previousObservation != ObservationDigest(earlier) then Some(ObservationPredecessorMismatch)
      else ContinuityFault(ids[1..], before, after)
  }

  function VerifyWitnessed(p: ConsistencyPackage, before: QuorumPackage, after: QuorumPackage): Option<WitnessedFault> {
    var beforeFault, afterFault := VerifyQuorum(before), VerifyQuorum(after);
    if beforeFault.Some? then Some(OldQuorumInvalid(beforeFault.value))
    else if afterFault.Some? then Some(NewQuorumInvalid(afterFault.value))
    else
      var authorityFault := VerifyAuthorized(p, before.statement, after.statement);
      if authorityFault.Some? then Some(NotAuthorized(authorityFault.value))
      else if PolicyDigest(before.policy) != PolicyDigest(after.policy) then Some(WitnessPolicyDrift)
      else
        var shared := SharedWitnesses(before, after);
        if |shared| < MinimumIntersection(before.policy) then Some(QuorumIntersectionInsufficient)
        else
          assert forall id :: id in shared ==>
                   Observed(before.observations, id) && Observed(after.observations, id) by {
            forall id | id in shared { SharedAreObserved(before, after, id); }
          }
          ContinuityFault(shared, before.observations, after.observations)
  }

  lemma {:induction false} ContinuityFaults(ids: seq<string>, before: seq<Observation>, after: seq<Observation>)
    requires forall id :: id in ids ==> Observed(before, id) && Observed(after, id)
    ensures ContinuityFault(ids, before, after)
            in {None, Some(ObservationSequenceDiscontinuity), Some(ObservationPredecessorMismatch)}
    ensures ContinuityFault(ids, before, after).None? <==>
              forall id :: id in ids ==>
                var earlier, later := ObservationBy(before, id), ObservationBy(after, id);
                later.sequence == earlier.sequence + 1 && later.previousObservation == ObservationDigest(earlier)
  {
    hide ObservationBy, Observed, ObservationDigest;
    if ids != [] {
      ContinuityFaults(ids[1..], before, after);
      assert ids[0] in ids;
      assert forall id :: id in ids <==> id == ids[0] || id in ids[1..];
    }
  }

  /** The intersection test of witnessed consistency never fails; when everything passes, every shared witness has a
      continuous observation chain. */
  lemma WitnessedIntersectionNeverFails(p: ConsistencyPackage, before: QuorumPackage, after: QuorumPackage)
    ensures VerifyWitnessed(p, before, after) != Some(QuorumIntersectionInsufficient)
  {
    hide VerifyQuorum, VerifyAuthorized;
    if VerifyQuorum(before).None? && VerifyQuorum(after).None? && before.policy == after.policy {
      AcceptedQuorumsIntersect(before, after);
      forall id | id in SharedWitnesses(before, after) { SharedAreObserved(before, after, id); }
      ContinuityFaults(SharedWitnesses(before, after), before.observations, after.observations);
    }
  }

  lemma AcceptedWitnessed(p: ConsistencyPackage, before: QuorumPackage, after: QuorumPackage)
    requires VerifyWitnessed(p, before, after).None?
    ensures VerifyQuorum(before).None? && VerifyQuorum(after).None? && before.policy == after.policy
    ensures VerifyAuthorized(p, before.statement, after.statement).None?
    ensures forall id :: id in SharedWitnesses(before, after) ==>
              && Observed(before.observations, id) && Observed(after.observations, id)
              && ObservationBy(after.observations, id).sequence == ObservationBy(before.observations, id).sequence + 1
              && ObservationBy(after.observations, id).previousObservation
                 == ObservationDigest(ObservationBy(before.observations, id))
  {
    hide VerifyQuorum, VerifyAuthorized;
    forall id | id in SharedWitnesses(before, after) { SharedAreObserved(before, after, id); }
    ContinuityFaults(SharedWitnesses(before, after), before.observations, after.observations);
  }

  // ---------------------------------------------------------------- attributable split views

  datatype SplitFault =
    | PackageAInvalid(fault: QuorumFault)
    | PackageBInvalid(fault: QuorumFault)
    | PolicyContextMismatch
    | ProducerStatementsInvalid
    | SplitIntersectionInsufficient

  datatype SplitVerdict = NotProven
    | Detected(producer: EquivocationEvidence, minimum: int, doubleSigners: seq<string>, observationsA: seq<Digest>,
               observationsB: seq<Digest>)

  function DigestsFor(ids: seq<string>, observations: seq<Observation>): (r: seq<Digest>)
    requires forall id :: id in ids ==> Observed(observations, id)
    ensures |r| == |ids|
    ensures forall i :: 0 <= i < |r| ==> r[i] == ObservationDigest(ObservationBy(observations, ids[i]))
  {
    seq(|ids|, i requires 0 <= i < |ids| => ObservationDigest(ObservationBy(observations, ids[i])))
  }

  function DetectSplit(a: QuorumPackage, b: QuorumPackage): Result<SplitVerdict, SplitFault> {
    var faultA, faultB := VerifyQuorum(a), VerifyQuorum(b);
    if faultA.Some? then Err(PackageAInvalid(faultA.value))
    else if faultB.Some? then Err(PackageBInvalid(faultB.value))
    else if PolicyDigest(a.policy) != PolicyDigest(b.policy) then Err(PolicyContextMismatch)
    else
      match DetectEquivocation(a.anchor, a.accumulator, a.statement, b.anchor, b.accumulator, b.statement)
      case None => Err(ProducerStatementsInvalid)
      case Some(producer) =>
        if producer.mode.None? then Ok(NotProven)
        else
          var shared := SharedWitnesses(a, b);
          if |shared| < MinimumIntersection(a.policy) then Err(SplitIntersectionInsufficient)
          else
            assert forall id :: id in shared ==> Observed(a.observations, id) && Observed(b.observations, id) by {
              forall id | id in shared { SharedAreObserved(a, b, id); }
            }
            Ok(Detected(producer, MinimumIntersection(a.policy), shared, DigestsFor(shared, a.observations),
                        DigestsFor(shared, b.observations)))
  }

  /** For two accepted packages under one policy the detector always reaches a verdict: neither the statement test
      nor the intersection test can fail, and a detection is reported exactly when the statements conflict. */
  lemma SplitDetectionIsTotal(a: QuorumPackage, b: QuorumPackage)
    requires VerifyQuorum(a).None? && VerifyQuorum(b).None? && a.policy == b.policy
    ensures DetectSplit(a, b).Ok?
    ensures DetectSplit(a, b).value.Detected? <==> Conflict(a.statement, b.statement).Some?
  {
    hide VerifyQuorum, ValidStatement, Conflict;
    AcceptedQuorum(a);
    AcceptedQuorum(b);
    AcceptedQuorumsIntersect(a, b);
  }

  /** A conflict needs two different statements. */
  lemma ConflictingStatementsDiffer(a: AnchorStatement, b: AnchorStatement)
    requires Conflict(a, b).Some?
    ensures a != b
  {
  }

  /** Every detected split names at least 2 * threshold - n >= 1 distinct authorised witnesses, and each of them really
      signed both sides: its two observations are in the packages and differ. */
  lemma DoubleSignersAreReal(a: QuorumPackage, b: QuorumPackage)
    requires var r := DetectSplit(a, b); r.Ok? && r.value.Detected?
    ensures var d := DetectSplit(a, b).value;
            && |d.doubleSigners| >= d.minimum == MinimumIntersection(a.policy) >= 1
            && Distinct(d.doubleSigners)
            && |d.observationsA| == |d.observationsB| == |d.doubleSigners|
            && forall i :: 0 <= i < |d.doubleSigners| ==>
                 && d.doubleSigners[i] in a.policy.authorizedWitnessIds
                 && d.observationsA[i] != d.observationsB[i]
                 && (exists o :: o in a.observations && o.witnessId == d.doubleSigners[i]
                                 && d.observationsA[i] == ObservationDigest(o))
                 && (exists o :: o in b.observations && o.witnessId == d.doubleSigners[i]
                                 && d.observationsB[i] == ObservationDigest(o))
  {
    var d := DetectSplit(a, b).value;
    SplitFacts(a, b, d);
    forall i | 0 <= i < |d.doubleSigners|
      ensures d.doubleSigners[i] in a.policy.authorizedWitnessIds
      ensures d.observationsA[i] != d.observationsB[i]
      ensures exists o :: o in a.observations && o.witnessId == d.doubleSigners[i]
                          && d.observationsA[i] == ObservationDigest(o)
      ensures exists o :: o in b.observations && o.witnessId == d.doubleSigners[i]
                          && d.observationsB[i] == ObservationDigest(o)
    {
      hide DetectSplit, VerifyQuorum;
      var id := d.doubleSigners[i];
      SharedAreObserved(a, b, id);
      TwoDifferentObservations(a, b, id);
    }
  }

  lemma SplitFacts(a: QuorumPackage, b: QuorumPackage, d: SplitVerdict)
    requires DetectSplit(a, b) == Ok(d) && d.Detected?
    ensures VerifyQuorum(a).None? && VerifyQuorum(b).None? && a.policy == b.policy
    ensures Conflict(a.statement, b.statement).Some?
    ensures |d.doubleSigners| >= d.minimum == MinimumIntersection(a.policy) >= 1
    ensures Distinct(d.doubleSigners) && d.doubleSigners == SharedWitnesses(a, b)
    ensures forall id :: id in d.doubleSigners ==> Observed(a.observations, id) && Observed(b.observations, id)
    ensures d.observationsA == DigestsFor(d.doubleSigners, a.observations)
    ensures d.observationsB == DigestsFor(d.doubleSigners, b.observations)
  {
    hide VerifyQuorum, Conflict, Distinct, ValidStatement, Overlap;
    AcceptedQuorumsIntersect(a, b);
    AcceptedQuorum(a);
    OverlapDistinct(WitnessIds(a.observations), WitnessIds(b.observations));
    forall id | id in SharedWitnesses(a, b) { SharedAreObserved(a, b, id); }
  }

  lemma TwoDifferentObservations(a: QuorumPackage, b: QuorumPackage, id: string)
    requires VerifyQuorum(a).None? && VerifyQuorum(b).None? && a.policy == b.policy
    requires Conflict(a.statement, b.statement).Some?
    requires Observed(a.observations, id) && Observed(b.observations, id)
    ensures id in a.policy.authorizedWitnessIds
    ensures ObservationBy(a.observations, id) != ObservationBy(b.observations, id)
  {
    hide VerifyQuorum, ValidPolicy, ValidStatement, Conflict, ObservationBy, Elements;
    AcceptedQuorum(a);
    AcceptedQuorum(b);
    ConflictingStatementsDiffer(a.statement, b.statement);
    assert ValidObservation(ObservationBy(a.observations, id), a.anchor, a.accumulator, a.statement, a.policy);
    assert ValidObservation(ObservationBy(b.observations, id), b.anchor, b.accumulator, b.statement, b.policy);
  }

  /** Split successors are always attributable: two accepted witnessed successors of one old package either bind the
      same anchor, or the detector proves the split and names real double-signers. */
  lemma SplitSuccessorsAreAttributed(p: ConsistencyPackage, q: ConsistencyPackage, before: QuorumPackage,
                                     a: QuorumPackage, b: QuorumPackage)
    requires VerifyWitnessed(p, before, a).None? && VerifyWitnessed(q, before, b).None?
    ensures DetectSplit(a, b).Ok?
    ensures DetectSplit(a, b).value.Detected? <==> p.newEndpoint.anchor != q.newEndpoint.anchor
  {
    hide VerifyWitnessed, VerifyQuorum, VerifyAuthorized, ValidAnchor;
    AcceptedWitnessed(p, before, a);
    AcceptedWitnessed(q, before, b);
    SplitDetectionIsTotal(a, b);
    SplitSuccessorsAreDetected(p, q, before.statement, a.statement, b.statement);
    var evidence := DetectEquivocation(p.newEndpoint.anchor, p.newEndpoint.accumulator, a.statement,
                                       q.newEndpoint.anchor, q.newEndpoint.accumulator, b.statement);
    assert evidence.value.mode == Conflict(a.statement, b.statement);
  }

  // ---------------------------------------------------------------- whole witnessed logs

  ghost predicate WitnessedSucceeds(before: QuorumPackage, after: QuorumPackage) {
    exists p :: VerifyWitnessed(p, before, after).None?
  }

  /** A log in which a quorum of one policy vouches for every statement and every step. */
  ghost predicate WitnessedLog(log: seq<QuorumPackage>) {
    && |log| > 0
    && VerifyQuorum(log[0]).None?
    && forall i :: 0 < i < |log| ==> WitnessedSucceeds(log[i - 1], log[i])
  }

  function Publication(q: QuorumPackage): Published {
    Published(Endpoint(q.anchor, q.accumulator), q.statement)
  }

  function Publications(log: seq<QuorumPackage>): (r: seq<Published>)
    ensures |r| == |log|
    ensures forall i :: 0 <= i < |r| ==> r[i] == Publication(log[i])
  {
    seq(|log|, i requires 0 <= i < |log| => Publication(log[i]))
  }

  lemma EndpointIsTheQuorums(e: Endpoint, q: QuorumPackage)
    requires ValidStatement(q.statement, e.anchor, e.accumulator)
    requires ValidStatement(q.statement, q.anchor, q.accumulator)
    ensures e == Publication(q).endpoint
  {
    hide ValidAnchor;
    assert e.anchor == q.anchor;
    SameEndpoint(e, Publication(q).endpoint);
  }

  lemma WitnessedStep(before: QuorumPackage, after: QuorumPackage)
    requires WitnessedSucceeds(before, after)
    ensures VerifyQuorum(before).None? && VerifyQuorum(after).None? && before.policy == after.policy
    ensures Succeeds(Publication(before), Publication(after))
  {
    hide VerifyWitnessed, VerifyQuorum, VerifyAuthorized, ValidStatement;
    var p :| VerifyWitnessed(p, before, after).None?;
    AcceptedWitnessed(p, before, after);
    AuthorizedFacts(p, before.statement, after.statement);
    AcceptedQuorum(before);
    AcceptedQuorum(after);
    EndpointIsTheQuorums(p.oldEndpoint, before);
    EndpointIsTheQuorums(p.newEndpoint, after);
    assert p == ConsistencyPackage(Publication(before).endpoint, Publication(after).endpoint, p.proof);
  }

  lemma {:induction false} WitnessedFacts(log: seq<QuorumPackage>, i: nat)
    requires WitnessedLog(log) && i < |log|
    ensures VerifyQuorum(log[i]).None? && log[i].policy == log[0].policy
  {
    hide WitnessedSucceeds, VerifyQuorum;
    if i > 0 {
      WitnessedFacts(log, i - 1);
      WitnessedStep(log[i - 1], log[i]);
    }
  }

  lemma WitnessedIsPublished(log: seq<QuorumPackage>)
    requires WitnessedLog(log)
    ensures PublishedLog(Publications(log))
  {
    hide WitnessedSucceeds, Succeeds, VerifyQuorum, ValidPolicy, ValidObservation, ValidAnchor, CertificateFor;
    AcceptedQuorum(log[0]);
    forall i | 0 < i < |log| ensures Succeeds(Publications(log)[i - 1], Publications(log)[i]) {
      WitnessedStep(log[i - 1], log[i]);
    }
  }

  /** The detector accepts both packages and proves a split. */
  predicate SplitProven(a: QuorumPackage, b: QuorumPackage) {
    DetectSplit(a, b).Ok? && DetectSplit(a, b).value.Detected?
  }

  ghost predicate SomeSplitProven(a: seq<QuorumPackage>, b: seq<QuorumPackage>) {
    exists i, j :: 0 <= i < |a| && 0 <= j < |b| && SplitProven(a[i], b[j])
  }

  lemma SplitIsReport(a: QuorumPackage, b: QuorumPackage)
    requires VerifyQuorum(a).None? && VerifyQuorum(b).None? && a.policy == b.policy
    ensures SplitProven(a, b) <==> Reported(Publication(a), Publication(b))
  {
    hide VerifyQuorum, DetectSplit, ValidStatement, Conflict, ValidPolicy;
    SplitDetectionIsTotal(a, b);
    AcceptedQuorum(a);
    AcceptedQuorum(b);
  }

  /** Two whole witnessed logs of one policy that split at d: some pair of their packages is a proven split, with real
      double signers, exactly when the two packages at d have different anchors, or the logs later vouch for one tree
      size with different roots. */
  lemma SplitLogsAreAttributed(a: seq<QuorumPackage>, b: seq<QuorumPackage>, d: nat)
    requires WitnessedLog(a) && WitnessedLog(b) && a[0].policy == b[0].policy
    requires SplitAt(Entries(Publications(a)), Entries(Publications(b)), d)
    ensures SomeSplitProven(a, b)
       <==> a[d].anchor != b[d].anchor || SizesMeetWithTwoRoots(Entries(Publications(a)), Entries(Publications(b)), d)
    ensures a[d].anchor != b[d].anchor ==> SplitProven(a[d], b[d])
  {
    hide WitnessedLog, SplitProven, VerifyQuorum, Reported, SizesMeetWithTwoRoots, PublishedLog, Succeeds;
    WitnessedIsPublished(a);
    WitnessedIsPublished(b);
    SplitLogsAreDetected(Publications(a), Publications(b), d);
    forall i, j | 0 <= i < |a| && 0 <= j < |b|
      ensures SplitProven(a[i], b[j]) <==> Reported(Publications(a)[i], Publications(b)[j])
    {
      WitnessedFacts(a, i);
      WitnessedFacts(b, j);
      SplitIsReport(a[i], b[j]);
    }
  }
}
