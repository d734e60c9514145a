/** The fixed-shape lineage accumulator: one reconciliation cycle after another is folded into a rolling root. */
module LineageCompaction {
  import opened Prelude
  import opened Records
  import opened PortableCausality

  datatype CompactionReceipt = CompactionReceipt(
    previousCycles: int, completedCycles: int, commonEpoch: int, forkEpoch: int, reconciledEpoch: int,
    previousAccumulator: Digest, previousLineageRoot: Digest, cycleCommitment: Digest, lineageRoot: Digest,
    lineageAccumulator: Digest, activeStateRef: Digest, activeReconciliation: Digest,
    bothCurrentLineagesPreserved: bool)

  datatype Compaction = Compaction(reconciliation: Agreement, accumulator: Accumulator, receipt: CompactionReceipt)

  datatype CompactionError =
    | ReconciliationAgreementInvalid
    | LineageCycleCountInvalid
    | LineageAccumulatorInvalid
    | PreviousLineageAccumulatorInvalid
    | CommonStateRefInvalid
    | CompactedCommonStateMismatch
    | CompactedCommonIdentityMismatch
    | NotReconciled(reason: Rejection)
    | CompactionValidationFailed
    | RawEvidenceDependency

  /** Substring search for raw evidence in the serialised result, as an arbitrary extra refusal. */
  type LeakTest = (Compaction, seq<BranchEvidence>, seq<Vote>) -> bool

  // ---------------------------------------------------------------- commitments

  predicate Complete(a: Agreement) {
    a.parentSet.Some? && a.reconciledStateRef.Some? && a.reconciliationRef.Some? && a.receipt.Some?
  }

  function TipSetDigest(tips: seq<BranchTip>): Digest {
    DigestOf(DigestListJson(seq(|tips|, i requires 0 <= i < |tips| => TipDigest(tips[i]))))
  }

  function CycleSummaryOf(cycleIndex: int, common: StateRef, a: Agreement): CycleSummary
    requires Complete(a)
  {
    CycleSummary(cycleIndex, DigestOf(StateRefJson(common)), a.receipt.value.forkEpoch, a.receipt.value.reconciledEpoch,
      TipSetDigest(a.branchTips), DigestOf(ParentSetJson(a.parentSet.value)),
      DigestOf(ReconciliationRefJson(a.reconciliationRef.value)), DigestOf(StateRefJson(a.reconciledStateRef.value)),
      DigestOf(ReconciliationReceiptJson(a.receipt.value)), a.reconciliationRef.value.reconciliationContract,
      a.reconciliationRef.value.authorizationContract)
  }

  function Commitment(cycleIndex: int, common: StateRef, a: Agreement): Digest
    requires Complete(a)
  {
    DigestOf(CycleSummaryJson(CycleSummaryOf(cycleIndex, common, a)))
  }

  lemma TipSetInjective(a: seq<BranchTip>, b: seq<BranchTip>)
    requires TipSetDigest(a) == TipSetDigest(b)
    ensures a == b
  {
    var da := seq(|a|, i requires 0 <= i < |a| => TipDigest(a[i]));
    var db := seq(|b|, i requires 0 <= i < |b| => TipDigest(b[i]));
    assert da == db;
    assert |a| == |da| == |db| == |b|;
    forall i | 0 <= i < |a| ensures a[i] == b[i] {
      assert da[i] == TipDigest(a[i]) && db[i] == TipDigest(b[i]);
    }
  }

  /** A cycle commitment determines the index, the common state and the whole verified agreement. */
  lemma CommitmentBinds(i: int, c: StateRef, a: Agreement, j: int, d: StateRef, b: Agreement)
    requires Complete(a) && Complete(b) && a.verified == b.verified
    requires Commitment(i, c, a) == Commitment(j, d, b)
    ensures i == j && c == d && a == b
  {
    TipSetInjective(a.branchTips, b.branchTips);
  }

  // ---------------------------------------------------------------- the accumulator

  function LineageRoot(acc: Accumulator): Digest {
    DigestOf(LineageRootStepJson(acc.(lineageRoot := Zero)))
  }

  predicate ValidAccumulator(acc: Accumulator) {
    && NonEmpty(acc.trustDomain) && NonEmpty(acc.logicalStateId)
    && acc.completedCycles >= 1 && acc.currentEpoch >= 0
    && acc.currentStateRef != Zero && acc.currentReconciliation != Zero && acc.cycleCommitment != Zero
    && acc.lineageRoot != Zero && acc.accumulatorContract != Zero && acc.authorizationContract != Zero
    && (acc.completedCycles == 1 ==> acc.previousAccumulator == Zero && acc.previousLineageRoot == Zero)
    && (acc.completedCycles > 1 ==> acc.previousAccumulator != Zero && acc.previousLineageRoot != Zero)
    && acc.lineageRoot == LineageRoot(acc)
  }

  function BuildAccumulator(lt: Order, common: StateRef, a: Agreement, cycleIndex: int, previousAccumulator: Digest,
                            previousLineageRoot: Digest, accumulatorContract: Digest, authorizationContract: Digest)
    : Result<Accumulator, CompactionError>
  {
    if !ValidAgreement(lt, a, common) then Err(ReconciliationAgreementInvalid)
    else if cycleIndex < 1 then Err(LineageCycleCountInvalid)
    else
      var state := a.reconciledStateRef.value;
      var blank := Accumulator(state.trustDomain, state.logicalStateId, cycleIndex, state.causalEpoch,
        DigestOf(StateRefJson(state)), DigestOf(AgreementJson(a)), previousAccumulator, previousLineageRoot,
        Commitment(cycleIndex, common, a), Zero, accumulatorContract, authorizationContract);
      var acc := blank.(lineageRoot := LineageRoot(blank));
      if !ValidAccumulator(acc) then Err(LineageAccumulatorInvalid) else Ok(acc)
  }

  function Seed(lt: Order, common: StateRef, a: Agreement, accumulatorContract: Digest, authorizationContract: Digest)
    : Result<Accumulator, CompactionError>
  {
    BuildAccumulator(lt, common, a, 1, Zero, Zero, accumulatorContract, authorizationContract)
  }

  function Successor(lt: Order, previous: Accumulator, common: StateRef, a: Agreement)
    : Result<Accumulator, CompactionError>
  {
    BuildAccumulator(lt, common, a, previous.completedCycles + 1, DigestOf(AccumulatorJson(previous)),
                     previous.lineageRoot, previous.accumulatorContract, previous.authorizationContract)
  }

  function BuildReceipt(previous: Accumulator, common: StateRef, a: Agreement, acc: Accumulator): CompactionReceipt
    requires Complete(a)
  {
    CompactionReceipt(previous.completedCycles, acc.completedCycles, common.causalEpoch, a.receipt.value.forkEpoch,
      a.receipt.value.reconciledEpoch, DigestOf(AccumulatorJson(previous)), previous.lineageRoot, acc.cycleCommitment,
      acc.lineageRoot, DigestOf(AccumulatorJson(acc)), acc.currentStateRef, acc.currentReconciliation,
      a.receipt.value.bothLineagesPreserved)
  }

  /** `validate_lineage_compaction`: one incremental cycle is recomputed from scratch. */
  predicate ValidCompaction(lt: Order, previous: Accumulator, common: StateRef, c: Compaction) {
    && ValidAccumulator(previous)
    && ValidAgreement(lt, c.reconciliation, common)
    && previous.currentStateRef == DigestOf(StateRefJson(common))
    && previous.trustDomain == common.trustDomain
    && previous.logicalStateId == common.logicalStateId
    && Successor(lt, previous, common, c.reconciliation) == Ok(c.accumulator)
    && c.receipt == BuildReceipt(previous, common, c.reconciliation, c.accumulator)
  }

  function Advance(lt: Order, leaks: LeakTest, previous: Accumulator, common: StateRef, branches: seq<BranchEvidence>,
                   votes: seq<Vote>): Result<Compaction, CompactionError>
  {
    if !ValidAccumulator(previous) then Err(PreviousLineageAccumulatorInvalid)
    else if !ValidStateRef(common) then Err(CompactionError.CommonStateRefInvalid)
    else if previous.currentStateRef != DigestOf(StateRefJson(common)) then Err(CompactedCommonStateMismatch)
    else if previous.trustDomain != common.trustDomain || previous.logicalStateId != common.logicalStateId then
      Err(CompactedCommonIdentityMismatch)
    else
      match Reconcile(lt, common, branches, votes)
      case Err(reason) => Err(NotReconciled(reason))
      case Ok(a) =>
        match Successor(lt, previous, common, a)
        case Err(e) => Err(e)
        case Ok(acc) =>
          if !Complete(a) then Err(ReconciliationAgreementInvalid)
          else
            var c := Compaction(a, acc, BuildReceipt(previous, common, a, acc));
            if !ValidCompaction(lt, previous, common, c) then Err(CompactionValidationFailed)
            else if leaks(c, branches, votes) then Err(RawEvidenceDependency)
            else Ok(c)
  }

  // ---------------------------------------------------------------- one step

  /** Building on a valid accumulator succeeds for every valid agreement over a state of the right identity. */
  lemma SuccessorExists(lt: Order, previous: Accumulator, common: StateRef, a: Agreement)
    requires ValidAccumulator(previous) && ValidAgreement(lt, a, common)
    ensures Successor(lt, previous, common, a).Ok?
  {
  }

  /** Advancing a valid accumulator fails only for the stated caller reasons: the step's own validation, its
      accumulator self-check and its agreement re-check never fire. */
  lemma AdvanceSelfCheckNeverFails(lt: Order, leaks: LeakTest, previous: Accumulator, common: StateRef,
                                   branches: seq<BranchEvidence>, votes: seq<Vote>)
    requires Trichotomous(lt)
    ensures var r := Advance(lt, leaks, previous, common, branches, votes);
            r.Err? ==> r.error !in {CompactionValidationFailed, LineageAccumulatorInvalid, LineageCycleCountInvalid,
                                    ReconciliationAgreementInvalid, NotReconciled(AgreementInvalid)}
  {
    hide Reconcile, ValidStateRef, BuildReceipt;
    SelfChecksNeverFail(lt, common, branches, votes);
    var reconciled := Reconcile(lt, common, branches, votes);
    if ValidAccumulator(previous) && reconciled.Ok? {
      SuccessorExists(lt, previous, common, reconciled.value);
    }
  }

  // ---------------------------------------------------------------- whole runs

  datatype CycleRecord = CycleRecord(cycleIndex: int, common: StateRef, reconciliation: Agreement,
                                     accumulator: Accumulator)

  ghost predicate SeedStep(lt: Order, r: CycleRecord) {
    && r.cycleIndex == 1
    && Seed(lt, r.common, r.reconciliation, r.accumulator.accumulatorContract, r.accumulator.authorizationContract)
       == Ok(r.accumulator)
  }

  ghost predicate AdvanceStep(lt: Order, leaks: LeakTest, previous: CycleRecord, r: CycleRecord) {
    && r.cycleIndex == previous.cycleIndex + 1
    && exists branches, votes, receipt ::
         Advance(lt, leaks, previous.accumulator, r.common, branches, votes)
         == Ok(Compaction(r.reconciliation, r.accumulator, receipt))
  }

  /** The records a client keeps while it seeds once and then only advances. */
  ghost predicate Run(lt: Order, leaks: LeakTest, records: seq<CycleRecord>) {
    && |records| > 0
    && SeedStep(lt, records[0])
    && forall i :: 0 < i < |records| ==> AdvanceStep(lt, leaks, records[i - 1], records[i])
  }

  /** What one record of a run is, on its own: a valid agreement folded into a valid accumulator. */
  ghost predicate WellBuilt(lt: Order, r: CycleRecord) {
    && ValidAgreement(lt, r.reconciliation, r.common)
    && ValidAccumulator(r.accumulator)
    && Describes(r)
  }

  /** The accumulator's own fields restate the record they summarise. */
  predicate Describes(r: CycleRecord) {
    var acc := r.accumulator;
    && Complete(r.reconciliation)
    && var state := r.reconciliation.reconciledStateRef.value;
    && acc.completedCycles == r.cycleIndex
    && acc.currentStateRef == DigestOf(StateRefJson(state))
    && acc.currentReconciliation == DigestOf(AgreementJson(r.reconciliation))
    && acc.cycleCommitment == Commitment(r.cycleIndex, r.common, r.reconciliation)
    && acc.trustDomain == state.trustDomain
    && acc.logicalStateId == state.logicalStateId
    && acc.currentEpoch == state.causalEpoch
  }

  /** The accumulator of `next` points at the accumulator of `previous` and keeps its contracts. */
  predicate Linked(previous: Accumulator, next: Accumulator) {
    && next.previousAccumulator == DigestOf(AccumulatorJson(previous))
    && next.previousLineageRoot == previous.lineageRoot
    && next.accumulatorContract == previous.accumulatorContract
    && next.authorizationContract == previous.authorizationContract
  }

  lemma BuiltDescribes(lt: Order, r: CycleRecord, previousAccumulator: Digest, previousLineageRoot: Digest,
                       accumulatorContract: Digest, authorizationContract: Digest)
    requires BuildAccumulator(lt, r.common, r.reconciliation, r.cycleIndex, previousAccumulator, previousLineageRoot,
                              accumulatorContract, authorizationContract) == Ok(r.accumulator)
    ensures WellBuilt(lt, r)
    ensures r.accumulator.previousAccumulator == previousAccumulator
    ensures r.accumulator.previousLineageRoot == previousLineageRoot
    ensures r.accumulator.accumulatorContract == accumulatorContract
    ensures r.accumulator.authorizationContract == authorizationContract
  {
  }

  lemma AdvancedIsValid(lt: Order, leaks: LeakTest, previous: Accumulator, common: StateRef,
                        branches: seq<BranchEvidence>, votes: seq<Vote>)
    ensures var r := Advance(lt, leaks, previous, common, branches, votes);
            r.Ok? ==> ValidCompaction(lt, previous, common, r.value)
  {
  }

  lemma CompactionStep(lt: Order, previous: CycleRecord, r: CycleRecord, receipt: CompactionReceipt)
    requires Describes(previous) && r.cycleIndex == previous.cycleIndex + 1
    requires ValidCompaction(lt, previous.accumulator, r.common, Compaction(r.reconciliation, r.accumulator, receipt))
    ensures WellBuilt(lt, r) && Linked(previous.accumulator, r.accumulator)
    ensures previous.reconciliation.reconciledStateRef == Some(r.common)
  {
    var acc := previous.accumulator;
    BuiltDescribes(lt, r, DigestOf(AccumulatorJson(acc)), acc.lineageRoot, acc.accumulatorContract,
                   acc.authorizationContract);
  }

  lemma StepReceipt(lt: Order, leaks: LeakTest, previous: CycleRecord, r: CycleRecord)
    returns (receipt: CompactionReceipt)
    requires AdvanceStep(lt, leaks, previous, r)
    ensures ValidCompaction(lt, previous.accumulator, r.common, Compaction(r.reconciliation, r.accumulator, receipt))
  {
    var branches, votes, found :| Advance(lt, leaks, previous.accumulator, r.common, branches, votes)
                                  == Ok(Compaction(r.reconciliation, r.accumulator, found));
    AdvancedIsValid(lt, leaks, previous.accumulator, r.common, branches, votes);
    return found;
  }

  lemma StepIsWellBuilt(lt: Order, leaks: LeakTest, previous: CycleRecord, r: CycleRecord)
    requires AdvanceStep(lt, leaks, previous, r) && WellBuilt(lt, previous)
    ensures WellBuilt(lt, r) && Linked(previous.accumulator, r.accumulator)
    ensures previous.reconciliation.reconciledStateRef == Some(r.common)
  {
    var receipt := StepReceipt(lt, leaks, previous, r);
    CompactionStep(lt, previous, r, receipt);
  }

  lemma AgreementMovesTwoEpochs(lt: Order, r: CycleRecord)
    requires WellBuilt(lt, r)
    ensures r.accumulator.currentEpoch == r.common.causalEpoch + 2
    ensures r.accumulator.trustDomain == r.common.trustDomain && r.accumulator.logicalStateId == r.common.logicalStateId
  {
  }

  /** After k cycles of any run the count is k, the epoch has advanced by 2k, the identity is that of the first
      common state, and each cycle starts from the state the previous one reached. */
  lemma {:induction false} RunInvariant(lt: Order, leaks: LeakTest, records: seq<CycleRecord>, i: nat)
    requires Run(lt, leaks, records) && i < |records|
    ensures WellBuilt(lt, records[i])
    ensures records[i].cycleIndex == records[i].accumulator.completedCycles == i + 1
    ensures records[i].accumulator.currentEpoch == records[0].common.causalEpoch + 2 * (i + 1)
    ensures records[i].accumulator.trustDomain == records[0].common.trustDomain
    ensures records[i].accumulator.logicalStateId == records[0].common.logicalStateId
    ensures i > 0 ==> records[i - 1].reconciliation.reconciledStateRef == Some(records[i].common)
    ensures i > 0 ==> Linked(records[i - 1].accumulator, records[i].accumulator)
  {
    if i > 0 {
      RunInvariant(lt, leaks, records, i - 1);
      StepIsWellBuilt(lt, leaks, records[i - 1], records[i]);
    } else {
      BuiltDescribes(lt, records[0], Zero, Zero, records[0].accumulator.accumulatorContract,
                     records[0].accumulator.authorizationContract);
    }
    AgreementMovesTwoEpochs(lt, records[i]);
  }
}
