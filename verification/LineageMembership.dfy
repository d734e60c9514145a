/** Cycle-chain validation, membership anchors and selective disclosure of one reconciliation cycle. */
module LineageMembership {
  import opened Prelude
  import opened MerkleTree
  import opened Records
  import opened PortableCausality
  import opened LineageCompaction

  datatype ChainFault =
    | CycleIndexNotContiguous
    | CycleCommonStateInvalid
    | CycleAccumulatorInvalid
    | CycleReconciliationInvalid
    | CycleAccumulatorIndexMismatch
    | CycleAccumulatorDomainMismatch
    | CycleAccumulatorStateIdMismatch
    | CycleAccumulatorEpochMismatch
    | CycleAccumulatorStateMismatch
    | CycleAccumulatorReconciliationMismatch
    | CycleCommitmentMismatch
    | CycleChainMustStartAtOne
    | SeedCyclePredecessorInvalid
    | CycleCommonStateDiscontinuity
    | CyclePreviousAccumulatorMismatch
    | CyclePreviousRootMismatch
    | CycleAccumulatorContractDrift
    | CycleAccumulatorAuthorizationDrift
    | CycleRecordsEmpty
    | CurrentAccumulatorInvalid
    | CycleCountAccumulatorMismatch
    | CurrentAccumulatorNotChainTip

  // ---------------------------------------------------------------- the cycle chain

  /** `_validate_cycle_record`: the first reason to refuse one record, given its predecessor. */
  function RecordFault(lt: Order, r: CycleRecord, expectedIndex: int, previous: Option<CycleRecord>)
    : Option<ChainFault>
  {
    var acc := r.accumulator;
    if r.cycleIndex != expectedIndex || r.cycleIndex <= 0 then Some(CycleIndexNotContiguous)
    else if !ValidStateRef(r.common) then Some(CycleCommonStateInvalid)
    else if !ValidAccumulator(acc) then Some(CycleAccumulatorInvalid)
    else if !ValidAgreement(lt, r.reconciliation, r.common) then Some(CycleReconciliationInvalid)
    else
      var state := r.reconciliation.reconciledStateRef.value;
      if acc.completedCycles != r.cycleIndex then Some(CycleAccumulatorIndexMismatch)
      else if acc.trustDomain != state.trustDomain then Some(CycleAccumulatorDomainMismatch)
      else if acc.logicalStateId != state.logicalStateId then Some(CycleAccumulatorStateIdMismatch)
      else if acc.currentEpoch != state.causalEpoch then Some(CycleAccumulatorEpochMismatch)
      else if acc.currentStateRef != DigestOf(StateRefJson(state)) then Some(CycleAccumulatorStateMismatch)
      else if acc.currentReconciliation != DigestOf(AgreementJson(r.reconciliation)) then
        Some(CycleAccumulatorReconciliationMismatch)
      else if acc.cycleCommitment != Commitment(r.cycleIndex, r.common, r.reconciliation) then
        Some(CycleCommitmentMismatch)
      else PredecessorFault(r, previous)
  }

  function PredecessorFault(r: CycleRecord, previous: Option<CycleRecord>): Option<ChainFault> {
    var acc := r.accumulator;
    match previous
    case None =>
      if r.cycleIndex != 1 then Some(CycleChainMustStartAtOne)
      else if acc.previousAccumulator != Zero || acc.previousLineageRoot != Zero then Some(SeedCyclePredecessorInvalid)
      else None
    case Some(p) =>
      if Some(r.common) != p.reconciliation.reconciledStateRef then Some(CycleCommonStateDiscontinuity)
      else if acc.previousAccumulator != DigestOf(AccumulatorJson(p.accumulator)) then
        Some(CyclePreviousAccumulatorMismatch)
      else if acc.previousLineageRoot != p.accumulator.lineageRoot then Some(CyclePreviousRootMismatch)
      else if acc.accumulatorContract != p.accumulator.accumulatorContract then Some(CycleAccumulatorContractDrift)
      else if acc.authorizationContract != p.accumulator.authorizationContract then
        Some(CycleAccumulatorAuthorizationDrift)
      else None
  }

  function Before(records: seq<CycleRecord>, i: nat): Option<CycleRecord>
    requires i < |records|
  {
    if i == 0 then None else Some(records[i - 1])
  }

  /** The first i records pass. */
  predicate CleanUpTo(lt: Order, records: seq<CycleRecord>, i: nat)
    requires i <= |records|
  {
    forall k :: 0 <= k < i ==> RecordFault(lt, records[k], k + 1, Before(records, k)).None?
  }

  /** A complete history whose last accumulator is `tip`. */
  predicate ValidHistory(lt: Order, records: seq<CycleRecord>, tip: Accumulator) {
    && |records| > 0
    && ValidAccumulator(tip)
    && CleanUpTo(lt, records, |records|)
    && |records| == tip.completedCycles
    && records[|records| - 1].accumulator == tip
  }

  method ValidateCycleChain(lt: Order, records: seq<CycleRecord>, tip: Accumulator) returns (fault: Option<ChainFault>)
    ensures fault.None? <==> ValidHistory(lt, records, tip)
    ensures |records| > 0 && ValidAccumulator(tip) && !CleanUpTo(lt, records, |records|) ==>
              exists k :: 0 <= k < |records| && CleanUpTo(lt, records, k)
                          && fault == RecordFault(lt, records[k], k + 1, Before(records, k)) && fault.Some?
  {
    hide RecordFault, ValidAccumulator;
    if |records| == 0 {
      return Some(CycleRecordsEmpty);
    }
    if !ValidAccumulator(tip) {
      return Some(CurrentAccumulatorInvalid);
    }
    var previous: Option<CycleRecord> := None;
    for i := 0 to |records|
      invariant CleanUpTo(lt, records, i)
      invariant i < |records| ==> previous == Before(records, i)
    {
      fault := RecordFault(lt, records[i], i + 1, previous);
      if fault.Some? {
        return;
      }
      previous := Some(records[i]);
    }
    if |records| != tip.completedCycles {
      return Some(CycleCountAccumulatorMismatch);
    }
    if records[|records| - 1].accumulator != tip {
      return Some(CurrentAccumulatorNotChainTip);
    }
    return None;
  }

  /** Every seed/advance run is a history the membership builder accepts. */
  lemma RunsAreValidHistories(lt: Order, leaks: LeakTest, records: seq<CycleRecord>)
    requires Run(lt, leaks, records)
    ensures ValidHistory(lt, records, records[|records| - 1].accumulator)
  {
    hide RecordFault, WellBuilt, AdvanceStep;
    forall k | 0 <= k < |records| ensures RecordFault(lt, records[k], k + 1, Before(records, k)).None? {
      RunInvariant(lt, leaks, records, k);
      if k == 0 {
        BuiltDescribes(lt, records[0], Zero, Zero, records[0].accumulator.accumulatorContract,
                       records[0].accumulator.authorizationContract);
      }
      CleanRecord(lt, records[k], k + 1, Before(records, k));
    }
    RunInvariant(lt, leaks, records, |records| - 1);
  }

  lemma CleanRecord(lt: Order, r: CycleRecord, index: int, previous: Option<CycleRecord>)
    requires WellBuilt(lt, r) && r.cycleIndex == index > 0 && PredecessorFault(r, previous).None?
    ensures RecordFault(lt, r, index, previous).None?
  {
  }

  lemma CleanRecordFacts(lt: Order, r: CycleRecord, index: int, previous: Option<CycleRecord>)
    requires RecordFault(lt, r, index, previous).None?
    ensures WellBuilt(lt, r) && r.cycleIndex == index > 0
    ensures PredecessorFault(r, previous).None?
  {
  }

  /** Equal tips force equal histories: the rolling accumulator commits to every record. */
  lemma TipDeterminesHistory(lt: Order, a: seq<CycleRecord>, b: seq<CycleRecord>, tip: Accumulator)
    requires ValidHistory(lt, a, tip) && ValidHistory(lt, b, tip)
    ensures a == b
  {
    hide RecordFault, ValidAccumulator;
    TipDeterminesRecords(lt, a, b, |a|);
  }

  lemma {:induction false} TipDeterminesRecords(lt: Order, a: seq<CycleRecord>, b: seq<CycleRecord>, n: nat)
    requires 0 < n <= |a| && n <= |b|
    requires CleanUpTo(lt, a, n) && CleanUpTo(lt, b, n)
    requires a[n - 1].accumulator == b[n - 1].accumulator
    ensures a[..n] == b[..n]
  {
    hide RecordFault, ValidAccumulator, ValidAgreement;
    CleanRecordFacts(lt, a[n - 1], n, Before(a, n - 1));
    CleanRecordFacts(lt, b[n - 1], n, Before(b, n - 1));
    SameAccumulatorSameRecord(a[n - 1], b[n - 1]);
    if n > 1 {
      TipDeterminesRecords(lt, a, b, n - 1);
    }
    assert a[..n] == a[..n - 1] + [a[n - 1]] && b[..n] == b[..n - 1] + [b[n - 1]];
  }

  lemma SameAccumulatorSameRecord(r: CycleRecord, s: CycleRecord)
    requires Describes(r) && Describes(s) && r.accumulator == s.accumulator
    ensures r == s
  {
  }

  // ---------------------------------------------------------------- the anchor

  predicate ValidAnchor(anchor: LineageAnchor, acc: Accumulator) {
    && ValidAccumulator(acc)
    && anchor.trustDomain == acc.trustDomain
    && anchor.logicalStateId == acc.logicalStateId
    && anchor.completedCycles == acc.completedCycles
    && anchor.currentEpoch == acc.currentEpoch
    && anchor.currentAccumulator == DigestOf(AccumulatorJson(acc))
    && anchor.currentLineageRoot == acc.lineageRoot
    && anchor.currentCycleCommitment == acc.cycleCommitment
    && anchor.treeSize == acc.completedCycles
    && anchor.treeAlgorithm == PairwiseDuplicateLast
    && anchor.merkleRoot != ZeroHash
    && anchor.membershipContract != Zero
    && anchor.authorizationContract != Zero
  }

  function Commitments(records: seq<CycleRecord>): (r: seq<Digest>)
    ensures |r| == |records|
    ensures forall i :: 0 <= i < |r| ==> r[i] == records[i].accumulator.cycleCommitment
  {
    seq(|records|, i requires 0 <= i < |records| => records[i].accumulator.cycleCommitment)
  }

  function AnchorOf(records: seq<CycleRecord>, tip: Accumulator, membershipContract: Digest,
                    authorizationContract: Digest): LineageAnchor
    requires |records| > 0
  {
    LineageAnchor(tip.trustDomain, tip.logicalStateId, tip.completedCycles, tip.currentEpoch,
      DigestOf(AccumulatorJson(tip)), tip.lineageRoot, tip.cycleCommitment, |records|, PairwiseDuplicateLast,
      Root(LeafHashes(Commitments(records))), membershipContract, authorizationContract)
  }

  datatype AnchorError = MembershipContractInvalid | MembershipAuthorizationInvalid | HistoryInvalid(fault: ChainFault)
                       | MembershipAnchorInvalid

  method BuildAnchor(lt: Order, records: seq<CycleRecord>, tip: Accumulator, membershipContract: Digest,
                     authorizationContract: Digest) returns (r: Result<LineageAnchor, AnchorError>)
    ensures r.Ok? <==> membershipContract != Zero && authorizationContract != Zero && ValidHistory(lt, records, tip)
    ensures r.Ok? ==> r.value == AnchorOf(records, tip, membershipContract, authorizationContract)
  {
    if membershipContract == Zero {
      return Err(MembershipContractInvalid);
    }
    if authorizationContract == Zero {
      return Err(MembershipAuthorizationInvalid);
    }
    var fault := ValidateCycleChain(lt, records, tip);
    if fault.Some? {
      return Err(HistoryInvalid(fault.value));
    }
    var root := MerkleRoot(LeafHashes(Commitments(records)), false);
    var anchor := LineageAnchor(tip.trustDomain, tip.logicalStateId, tip.completedCycles, tip.currentEpoch,
      DigestOf(AccumulatorJson(tip)), tip.lineageRoot, tip.cycleCommitment, |records|, PairwiseDuplicateLast,
      root.value, membershipContract, authorizationContract);
    AnchorIsValid(lt, records, tip, membershipContract, authorizationContract);
    if !ValidAnchor(anchor, tip) {
      return Err(MembershipAnchorInvalid);
    }
    return Ok(anchor);
  }

  lemma LeavesAreAdmissible(commitments: seq<Digest>, strict: bool)
    ensures AllAdmissible(LeafHashes(commitments), strict)
  {
  }

  lemma RootIsNotZero(commitments: seq<Digest>)
    requires |commitments| > 0
    ensures Root(LeafHashes(commitments)) != ZeroHash
  {
    PathClimbs(LeafHashes(commitments), 0, true);
  }

  /** The builder's own anchor self-check never fires. */
  lemma AnchorIsValid(lt: Order, records: seq<CycleRecord>, tip: Accumulator, membershipContract: Digest,
                      authorizationContract: Digest)
    requires ValidHistory(lt, records, tip) && membershipContract != Zero && authorizationContract != Zero
    ensures ValidAnchor(AnchorOf(records, tip, membershipContract, authorizationContract), tip)
  {
    RootIsNotZero(Commitments(records));
  }

  // ---------------------------------------------------------------- selective disclosure

  datatype DisclosedCycle = DisclosedCycle(cycleIndex: int, common: StateRef, reconciliation: Agreement,
                                           accumulator: Accumulator, summary: CycleSummary, commitment: Digest)

  datatype MembershipProof = MembershipProof(
    anchor: Digest, cycleIndex: int, leafIndex: int, treeSize: int, treeAlgorithm: Algorithm, commitment: Digest,
    leaf: MerkleHash, siblingPath: seq<PathEntry<Digest>>, currentSiblingPath: seq<PathEntry<Digest>>)

  datatype Disclosure = Disclosure(anchor: LineageAnchor, accumulator: Accumulator, cycle: DisclosedCycle,
                                   proof: MembershipProof)

  datatype DisclosureFault =
    | DisclosureAnchorInvalid
    | DisclosedCycleIndexInvalid
    | ProofCycleIndexMismatch
    | ProofLeafIndexMismatch
    | ProofTreeSizeMismatch
    | ProofTreeAlgorithmInvalid
    | ProofAnchorMismatch
    | DisclosedCommonStateInvalid
    | DisclosedReconciliationInvalid
    | DisclosedCycleSummaryMismatch
    | DisclosedCycleCommitmentMismatch
    | ProofCycleCommitmentMismatch
    | DisclosedAccumulatorInvalid
    | DisclosedAccumulatorIndexMismatch
    | DisclosedAccumulatorStateMismatch
    | DisclosedAccumulatorReconciliationMismatch
    | DisclosedAccumulatorCommitmentMismatch
    | DisclosedSeedPredecessorInvalid
    | DisclosedPredecessorMissing
    | ProofLeafMismatch
    | MembershipPathInvalid
    | CurrentCycleMembershipPathInvalid

  /** `verify_selective_lineage_disclosure`: the first reason to refuse, or None. */
  function VerifyDisclosure(lt: Order, d: Disclosure): Option<DisclosureFault> {
    var c, proof, index := d.cycle, d.proof, d.cycle.cycleIndex;
    if !ValidAnchor(d.anchor, d.accumulator) then Some(DisclosureAnchorInvalid)
    else if index <= 0 then Some(DisclosedCycleIndexInvalid)
    else if index != proof.cycleIndex then Some(ProofCycleIndexMismatch)
    else if proof.leafIndex != index - 1 then Some(ProofLeafIndexMismatch)
    else if proof.treeSize != d.anchor.treeSize then Some(ProofTreeSizeMismatch)
    else if proof.treeAlgorithm != PairwiseDuplicateLast then Some(ProofTreeAlgorithmInvalid)
    else if proof.anchor != DigestOf(AnchorJson(d.anchor)) then Some(ProofAnchorMismatch)
    else
      var fault := DisclosedCycleFault(lt, c, proof.commitment);
      if fault.Some? then fault
      else if proof.leaf != Leaf(index, proof.commitment) then Some(ProofLeafMismatch)
      else if !PathAccepts(proof.leaf, proof.leafIndex, proof.treeSize, proof.siblingPath, d.anchor.merkleRoot,
                           false) then
        Some(MembershipPathInvalid)
      else if !PathAccepts(Leaf(d.anchor.treeSize, d.anchor.currentCycleCommitment), d.anchor.treeSize - 1,
                           d.anchor.treeSize, proof.currentSiblingPath, d.anchor.merkleRoot, false) then
        Some(CurrentCycleMembershipPathInvalid)
      else None
  }

  /** The checks on the disclosed cycle itself, against the commitment the proof names. */
  function DisclosedCycleFault(lt: Order, c: DisclosedCycle, proofCommitment: Digest): Option<DisclosureFault> {
    if !ValidStateRef(c.common) then Some(DisclosedCommonStateInvalid)
    else if !ValidAgreement(lt, c.reconciliation, c.common) then Some(DisclosedReconciliationInvalid)
    else if c.summary != CycleSummaryOf(c.cycleIndex, c.common, c.reconciliation) then
      Some(DisclosedCycleSummaryMismatch)
    else
      var commitment := Commitment(c.cycleIndex, c.common, c.reconciliation);
      var acc := c.accumulator;
      if c.commitment != commitment then Some(DisclosedCycleCommitmentMismatch)
      else if proofCommitment != commitment then Some(ProofCycleCommitmentMismatch)
      else if !ValidAccumulator(acc) then Some(DisclosedAccumulatorInvalid)
      else if acc.completedCycles != c.cycleIndex then Some(DisclosedAccumulatorIndexMismatch)
      else if acc.currentStateRef != DigestOf(StateRefJson(c.reconciliation.reconciledStateRef.value)) then
        Some(DisclosedAccumulatorStateMismatch)
      else if acc.currentReconciliation != DigestOf(AgreementJson(c.reconciliation)) then
        Some(DisclosedAccumulatorReconciliationMismatch)
      else if acc.cycleCommitment != commitment then Some(DisclosedAccumulatorCommitmentMismatch)
      else if c.cycleIndex == 1 && (acc.previousAccumulator != Zero || acc.previousLineageRoot != Zero) then
        Some(DisclosedSeedPredecessorInvalid)
      else if c.cycleIndex > 1 && (acc.previousAccumulator == Zero || acc.previousLineageRoot == Zero) then
        Some(DisclosedPredecessorMissing)
      else None
  }

  function DisclosureOf(records: seq<CycleRecord>, tip: Accumulator, selected: nat, membershipContract: Digest,
                        authorizationContract: Digest): Disclosure
    requires 0 < selected <= |records| && Complete(records[selected - 1].reconciliation)
  {
    var anchor := AnchorOf(records, tip, membershipContract, authorizationContract);
    var leaves, r := LeafHashes(Commitments(records)), records[selected - 1];
    Disclosure(anchor, tip,
      DisclosedCycle(r.cycleIndex, r.common, r.reconciliation, r.accumulator,
                     CycleSummaryOf(r.cycleIndex, r.common, r.reconciliation), r.accumulator.cycleCommitment),
      MembershipProof(DigestOf(AnchorJson(anchor)), selected, selected - 1, |records|, PairwiseDuplicateLast,
                      r.accumulator.cycleCommitment, leaves[selected - 1], Path(leaves, selected - 1),
                      Path(leaves, |leaves| - 1)))
  }

  /** What the checks on an accepted disclosure amount to, without their order. */
  lemma AcceptedDisclosure(lt: Order, d: Disclosure)
    requires VerifyDisclosure(lt, d).None?
    ensures ValidAnchor(d.anchor, d.accumulator)
    ensures DisclosedCycleFault(lt, d.cycle, d.proof.commitment).None? && Complete(d.cycle.reconciliation)
    ensures d.proof.commitment == Commitment(d.cycle.cycleIndex, d.cycle.common, d.cycle.reconciliation)
    ensures d.cycle.reconciliation.verified
    ensures PathAccepts(Leaf(d.cycle.cycleIndex, d.proof.commitment), d.cycle.cycleIndex - 1, d.anchor.treeSize,
                        d.proof.siblingPath, d.anchor.merkleRoot, false)
  {
  }

  /** Binding: against the anchor of a real history, an accepted disclosure carries exactly that history's common
      state and reconciliation at its index, and the only path there is. */
  lemma DisclosureBinds(lt: Order, records: seq<CycleRecord>, tip: Accumulator, membershipContract: Digest,
                        authorizationContract: Digest, d: Disclosure)
    requires ValidHistory(lt, records, tip)
    requires d.anchor == AnchorOf(records, tip, membershipContract, authorizationContract)
    requires VerifyDisclosure(lt, d).None?
    ensures 1 <= d.cycle.cycleIndex <= |records|
    ensures var r := records[d.cycle.cycleIndex - 1];
            d.cycle.common == r.common && d.cycle.reconciliation == r.reconciliation
    ensures d.proof.siblingPath == Path(LeafHashes(Commitments(records)), d.cycle.cycleIndex - 1)
  {
    AcceptedDisclosure(lt, d);
    var leaves, i := LeafHashes(Commitments(records)), d.cycle.cycleIndex - 1;
    LeavesAreAdmissible(Commitments(records), false);
    PathExact(leaves, Leaf(i + 1, d.proof.commitment), i, d.proof.siblingPath, false);
    var r := records[i];
    assert RecordFault(lt, r, i + 1, Before(records, i)).None?;
    CleanRecordFacts(lt, r, i + 1, Before(records, i));
    assert leaves[i] == Leaf(i + 1, r.accumulator.cycleCommitment);
    CommitmentBinds(d.cycle.cycleIndex, d.cycle.common, d.cycle.reconciliation, r.cycleIndex, r.common,
                    r.reconciliation);
  }

  ghost predicate CycleDiscloses(lt: Order, r: CycleRecord)
    requires Complete(r.reconciliation)
  {
    DisclosedCycleFault(lt, DisclosedCycle(r.cycleIndex, r.common, r.reconciliation, r.accumulator,
                                           CycleSummaryOf(r.cycleIndex, r.common, r.reconciliation),
                                           r.accumulator.cycleCommitment),
                        r.accumulator.cycleCommitment).None?
  }

  lemma CleanCycleDiscloses(lt: Order, r: CycleRecord)
    requires WellBuilt(lt, r) && r.cycleIndex > 0
    ensures CycleDiscloses(lt, r)
  {
  }

  /** Completeness: the disclosure built from a real history is always accepted, so the builder's own check of its
      result never fails. */
  lemma BuiltDisclosureVerifies(lt: Order, records: seq<CycleRecord>, tip: Accumulator, selected: nat,
                                membershipContract: Digest, authorizationContract: Digest)
    requires ValidHistory(lt, records, tip) && 0 < selected <= |records|
    requires membershipContract != Zero && authorizationContract != Zero
    ensures Complete(records[selected - 1].reconciliation)
    ensures VerifyDisclosure(lt, DisclosureOf(records, tip, selected, membershipContract, authorizationContract)).None?
  {
    hide ValidHistory, ValidAccumulator, ValidAgreement, CycleDiscloses, ValidAnchor, PathFits, PathAccepts, Root, Path;
    hide LeafHashes, Commitments, VerifyDisclosure, DisclosureOf;
    HistoryRecord(lt, records, tip, selected - 1);
    CleanCycleDiscloses(lt, records[selected - 1]);
    AnchorIsValid(lt, records, tip, membershipContract, authorizationContract);
    BuiltPathsFit(records, selected - 1);
    BuiltPathsFit(records, |records| - 1);
    AssembledDisclosureAccepted(lt, records, tip, selected, membershipContract, authorizationContract);
  }

  lemma HistoryRecord(lt: Order, records: seq<CycleRecord>, tip: Accumulator, i: nat)
    requires ValidHistory(lt, records, tip) && i < |records|
    ensures WellBuilt(lt, records[i]) && records[i].cycleIndex == i + 1
    ensures |records| == tip.completedCycles && records[|records| - 1].accumulator == tip
  {
    hide RecordFault, ValidAccumulator, WellBuilt;
    assert RecordFault(lt, records[i], i + 1, Before(records, i)).None?;
    CleanRecordFacts(lt, records[i], i + 1, Before(records, i));
  }

  lemma AssembledDisclosureAccepted(lt: Order, records: seq<CycleRecord>, tip: Accumulator, selected: nat,
                                    membershipContract: Digest, authorizationContract: Digest)
    requires 0 < selected <= |records| == tip.completedCycles && records[|records| - 1].accumulator == tip
    requires records[selected - 1].cycleIndex == selected && Complete(records[selected - 1].reconciliation)
    requires CycleDiscloses(lt, records[selected - 1])
    requires ValidAnchor(AnchorOf(records, tip, membershipContract, authorizationContract), tip)
    requires PathFits(records, selected - 1) && PathFits(records, |records| - 1)
    ensures VerifyDisclosure(lt, DisclosureOf(records, tip, selected, membershipContract, authorizationContract)).None?
  {
    hide ValidAnchor, DisclosedCycleFault, PathAccepts, Path, Root, CycleSummaryOf, VerifyDisclosure;
    DisclosureAccepted(lt, DisclosureOf(records, tip, selected, membershipContract, authorizationContract));
  }

  ghost predicate PathFits(records: seq<CycleRecord>, i: nat)
    requires i < |records|
  {
    var leaves := LeafHashes(Commitments(records));
    && leaves[i] == Leaf(i + 1, records[i].accumulator.cycleCommitment)
    && PathAccepts(leaves[i], i, |records|, Path(leaves, i), Root(leaves), false)
  }

  lemma BuiltPathsFit(records: seq<CycleRecord>, i: nat)
    requires i < |records|
    ensures PathFits(records, i)
  {
    var leaves := LeafHashes(Commitments(records));
    LeavesAreAdmissible(Commitments(records), false);
    PathExact(leaves, leaves[i], i, Path(leaves, i), false);
  }

  lemma DisclosureAccepted(lt: Order, d: Disclosure)
    requires ValidAnchor(d.anchor, d.accumulator)
    requires d.cycle.cycleIndex == d.proof.cycleIndex == d.proof.leafIndex + 1 && d.proof.leafIndex >= 0
    requires d.proof.treeSize == d.anchor.treeSize && d.proof.treeAlgorithm == PairwiseDuplicateLast
    requires d.proof.anchor == DigestOf(AnchorJson(d.anchor))
    requires DisclosedCycleFault(lt, d.cycle, d.proof.commitment).None?
    requires d.proof.leaf == Leaf(d.cycle.cycleIndex, d.proof.commitment)
    requires PathAccepts(d.proof.leaf, d.proof.leafIndex, d.proof.treeSize, d.proof.siblingPath, d.anchor.merkleRoot,
                         false)
    requires PathAccepts(Leaf(d.anchor.treeSize, d.anchor.currentCycleCommitment), d.anchor.treeSize - 1,
                         d.anchor.treeSize, d.proof.currentSiblingPath, d.anchor.merkleRoot, false)
    ensures VerifyDisclosure(lt, d).None?
  {
    hide ValidAnchor, DisclosedCycleFault, PathAccepts;
  }

  /** The predecessor digests of the disclosed accumulator are NOT bound: past the first cycle they can be replaced
      by any nonzero digests, with the root recomputed, and the disclosure is still accepted. */
  lemma PredecessorIsNotBound(lt: Order, d: Disclosure, previousAccumulator: Digest, previousLineageRoot: Digest)
    requires VerifyDisclosure(lt, d).None? && d.cycle.cycleIndex > 1
    requires previousAccumulator != Zero && previousLineageRoot != Zero
    ensures var blank := d.cycle.accumulator.(previousAccumulator := previousAccumulator,
                                              previousLineageRoot := previousLineageRoot);
            var forged := blank.(lineageRoot := LineageRoot(blank));
            VerifyDisclosure(lt, d.(cycle := d.cycle.(accumulator := forged))).None?
  {
    var blank := d.cycle.accumulator.(previousAccumulator := previousAccumulator,
                                      previousLineageRoot := previousLineageRoot);
    var forged := blank.(lineageRoot := LineageRoot(blank));
    hide PathAccepts, ValidAnchor, ValidAgreement, CycleSummaryOf, Commitment;
    assert ValidAccumulator(forged);
    assert DisclosedCycleFault(lt, d.cycle.(accumulator := forged), d.proof.commitment).None?;
  }

  /** Exactly what of the disclosed accumulator is bound: replacing it keeps an accepted disclosure accepted if and only
      if the replacement is valid on its own and agrees on index, state, reconciliation and commitment. */
  lemma AccumulatorBindingExact(lt: Order, d: Disclosure, other: Accumulator)
    requires VerifyDisclosure(lt, d).None?
    ensures VerifyDisclosure(lt, d.(cycle := d.cycle.(accumulator := other))).None?
       <==> && ValidAccumulator(other)
            && other.completedCycles == d.cycle.accumulator.completedCycles
            && other.currentStateRef == d.cycle.accumulator.currentStateRef
            && other.currentReconciliation == d.cycle.accumulator.currentReconciliation
            && other.cycleCommitment == d.cycle.accumulator.cycleCommitment
  {
    hide PathAccepts, ValidAnchor, DisclosedCycleFault;
    SwapAccumulator(lt, d.cycle, d.proof.commitment, other);
  }

  lemma SwapAccumulator(lt: Order, c: DisclosedCycle, commitment: Digest, other: Accumulator)
    requires DisclosedCycleFault(lt, c, commitment).None?
    ensures DisclosedCycleFault(lt, c.(accumulator := other), commitment).None?
       <==> && ValidAccumulator(other)
            && other.completedCycles == c.accumulator.completedCycles
            && other.currentStateRef == c.accumulator.currentStateRef
            && other.currentReconciliation == c.accumulator.currentReconciliation
            && other.cycleCommitment == c.accumulator.cycleCommitment
  {
    hide ValidAgreement, CycleSummaryOf, Commitment, LineageRoot;
  }

  // ---------------------------------------------------------------- one disclosure per index

  lemma AcceptedDisclosureHeader(lt: Order, d: Disclosure)
    requires VerifyDisclosure(lt, d).None?
    ensures ValidAnchor(d.anchor, d.accumulator)
    ensures var proof, index := d.proof, d.cycle.cycleIndex;
            && proof.cycleIndex == index && proof.leafIndex == index - 1 && proof.treeSize == d.anchor.treeSize
            && proof.treeAlgorithm == PairwiseDuplicateLast && proof.anchor == DigestOf(AnchorJson(d.anchor))
            && proof.leaf == Leaf(index, proof.commitment)
            && PathAccepts(Leaf(d.anchor.treeSize, d.anchor.currentCycleCommitment), d.anchor.treeSize - 1,
                           d.anchor.treeSize, proof.currentSiblingPath, d.anchor.merkleRoot, false)
  {
    hide DisclosedCycleFault, PathAccepts, ValidAnchor;
  }

  lemma CycleFields(lt: Order, c: DisclosedCycle, commitment: Digest)
    requires DisclosedCycleFault(lt, c, commitment).None?
    ensures Complete(c.reconciliation) && c.reconciliation.verified
    ensures c.summary == CycleSummaryOf(c.cycleIndex, c.common, c.reconciliation)
    ensures c.commitment == commitment == Commitment(c.cycleIndex, c.common, c.reconciliation)
  {
    hide ValidAccumulator;
  }

  /** Against any anchor, real or not, one index has one accepted disclosure: two of them agree on the tip, the whole
      proof and the whole cycle, and can differ only in the unbound part of the disclosed accumulator. */
  lemma DisclosureIsUnique(lt: Order, d: Disclosure, e: Disclosure)
    requires VerifyDisclosure(lt, d).None? && VerifyDisclosure(lt, e).None?
    requires d.anchor == e.anchor && d.cycle.cycleIndex == e.cycle.cycleIndex
    ensures e == d.(cycle := d.cycle.(accumulator := e.cycle.accumulator))
  {
    hide VerifyDisclosure, DisclosedCycleFault, CycleSummaryOf, Commitment, ValidAnchor, PathAccepts;
    AcceptedDisclosure(lt, d);
    AcceptedDisclosure(lt, e);
    AcceptedDisclosureHeader(lt, d);
    AcceptedDisclosureHeader(lt, e);
    SameTip(d, e);
    var c, x, i := d.cycle, e.cycle, d.cycle.cycleIndex;
    CycleFields(lt, c, d.proof.commitment);
    CycleFields(lt, x, e.proof.commitment);
    PathsAreUnique(Leaf(i, d.proof.commitment), d.proof.siblingPath, Leaf(i, e.proof.commitment), e.proof.siblingPath,
                   i - 1, d.anchor.treeSize, d.anchor.merkleRoot, false);
    var current := Leaf(d.anchor.treeSize, d.anchor.currentCycleCommitment);
    PathsAreUnique(current, d.proof.currentSiblingPath, current, e.proof.currentSiblingPath, d.anchor.treeSize - 1,
                   d.anchor.treeSize, d.anchor.merkleRoot, false);
    CommitmentBinds(i, c.common, c.reconciliation, i, x.common, x.reconciliation);
  }

  lemma SameTip(d: Disclosure, e: Disclosure)
    requires ValidAnchor(d.anchor, d.accumulator) && ValidAnchor(e.anchor, e.accumulator) && d.anchor == e.anchor
    ensures d.accumulator == e.accumulator
  {
    hide ValidAccumulator;
  }

  lemma PathsAreUnique(x: MerkleHash, p: seq<PathEntry<Digest>>, y: MerkleHash, q: seq<PathEntry<Digest>>, index: int,
                       size: int, root: MerkleHash, strict: bool)
    requires PathAccepts(x, index, size, p, root, strict) && PathAccepts(y, index, size, q, root, strict)
    ensures x == y && p == q
  {
    ClimbInjective(x, p, y, q, index, size, strict);
  }
}
