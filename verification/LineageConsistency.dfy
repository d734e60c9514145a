/** Append-only consistency between two lineage anchors, authority statements about anchors, and equivocation. */
module LineageConsistency {
  import opened Prelude
  import opened MerkleTree
  import opened BlockShapes
  import opened Frontier
  import opened Records
  import opened PortableCausality
  import opened LineageCompaction
  import opened LineageMembership
  import opened AuthorityLogs

  datatype Endpoint = Endpoint(anchor: LineageAnchor, accumulator: Accumulator)

  datatype ConsistencyProof = ConsistencyProof(
    oldAnchor: Digest, newAnchor: Digest, oldTreeSize: int, newTreeSize: int, membershipAlgorithm: Algorithm,
    consistencyAlgorithm: Algorithm, oldFrontier: seq<Block<Digest>>, appendBlocks: seq<Block<Digest>>,
    oldCurrentPath: seq<PathEntry<Digest>>, newCurrentPath: seq<PathEntry<Digest>>)

  datatype ConsistencyPackage = ConsistencyPackage(oldEndpoint: Endpoint, newEndpoint: Endpoint,
                                                   proof: ConsistencyProof)

  datatype ConsistencyFault =
    | MembershipAnchorInvalid
    | TreeNotExtended
    | OldTreeSizeMismatch
    | NewTreeSizeMismatch
    | OldAnchorMismatch
    | NewAnchorMismatch
    | MembershipAlgorithmInvalid
    | ConsistencyAlgorithmInvalid
    | TrustDomainMismatch
    | LogicalStateMismatch
    | MembershipContractMismatch
    | AuthorizationContractMismatch
    | CycleCountMismatch
    | CausalEpochNotAdvanced
    | FrontierFault(error: FrontierError)
    | OldCurrentTipNotBound
    | NewCurrentTipNotBound

  // ---------------------------------------------------------------- the verifier

  /** `verify_lineage_root_consistency`: the first reason to refuse a package, or None. */
  function VerifyConsistency(p: ConsistencyPackage): Option<ConsistencyFault> {
    var a, b, proof := p.oldEndpoint.anchor, p.newEndpoint.anchor, p.proof;
    if !ValidAnchor(a, p.oldEndpoint.accumulator) || !ValidAnchor(b, p.newEndpoint.accumulator) then
      Some(ConsistencyFault.MembershipAnchorInvalid)
    else if a.treeSize >= b.treeSize then Some(TreeNotExtended)
    else
      var contextFault := ContextFault(a, b, proof);
      if contextFault.Some? then contextFault
      else
        var frontier := FrontierVerdict(a.treeSize, b.treeSize, a.merkleRoot, b.merkleRoot, proof.oldFrontier,
                                        proof.appendBlocks, false);
        if frontier.Err? then Some(FrontierFault(frontier.error))
        else if !PathAccepts(Leaf(a.treeSize, a.currentCycleCommitment), a.treeSize - 1, a.treeSize,
                             proof.oldCurrentPath, a.merkleRoot, false) then Some(OldCurrentTipNotBound)
        else if !PathAccepts(Leaf(b.treeSize, b.currentCycleCommitment), b.treeSize - 1, b.treeSize,
                             proof.newCurrentPath, b.merkleRoot, false) then Some(NewCurrentTipNotBound)
        else None
  }

  /** The header checks: sizes, digests, algorithms, shared context, cycle counts and epochs. */
  function ContextFault(a: LineageAnchor, b: LineageAnchor, proof: ConsistencyProof): Option<ConsistencyFault> {
    if proof.oldTreeSize != a.treeSize then Some(OldTreeSizeMismatch)
    else if proof.newTreeSize != b.treeSize then Some(NewTreeSizeMismatch)
    else if proof.oldAnchor != DigestOf(AnchorJson(a)) then Some(OldAnchorMismatch)
    else if proof.newAnchor != DigestOf(AnchorJson(b)) then Some(NewAnchorMismatch)
    else if proof.membershipAlgorithm != PairwiseDuplicateLast || a.treeAlgorithm != PairwiseDuplicateLast
         || b.treeAlgorithm != PairwiseDuplicateLast then Some(MembershipAlgorithmInvalid)
    else if proof.consistencyAlgorithm != CompactFrontier then Some(ConsistencyAlgorithmInvalid)
    else if a.trustDomain != b.trustDomain then Some(TrustDomainMismatch)
    else if a.logicalStateId != b.logicalStateId then Some(LogicalStateMismatch)
    else if a.membershipContract != b.membershipContract then Some(MembershipContractMismatch)
    else if a.authorizationContract != b.authorizationContract then Some(AuthorizationContractMismatch)
    else if a.completedCycles != a.treeSize || b.completedCycles != b.treeSize then Some(CycleCountMismatch)
    else if b.currentEpoch <= a.currentEpoch then Some(CausalEpochNotAdvanced)
    else None
  }

  lemma AcceptedPackage(p: ConsistencyPackage)
    requires VerifyConsistency(p).None?
    ensures var a, b, proof := p.oldEndpoint.anchor, p.newEndpoint.anchor, p.proof;
            && 0 < a.treeSize < b.treeSize
            && FrontierAccepts(a.treeSize, b.treeSize, a.merkleRoot, b.merkleRoot, proof.oldFrontier,
                               proof.appendBlocks, false)
            && PathAccepts(Leaf(a.treeSize, a.currentCycleCommitment), a.treeSize - 1, a.treeSize, proof.oldCurrentPath,
                           a.merkleRoot, false)
            && PathAccepts(Leaf(b.treeSize, b.currentCycleCommitment), b.treeSize - 1, b.treeSize, proof.newCurrentPath,
                           b.merkleRoot, false)
  {
    hide PathAccepts, FrontierVerdict;
  }

  /** Soundness: when both roots commit to some indexed commitment lists, an accepted package proves the old list to
      be a proper prefix of the new one. The claimed tree sizes need not be trusted: the two tip paths pin them. */
  lemma ConsistencySound(p: ConsistencyPackage, before: seq<Digest>, after: seq<Digest>)
    requires |before| > 0 && |after| > 0
    requires p.oldEndpoint.anchor.merkleRoot == Root(LeafHashes(before))
    requires p.newEndpoint.anchor.merkleRoot == Root(LeafHashes(after))
    requires VerifyConsistency(p).None?
    ensures |before| < |after| && before == after[..|before|]
    ensures p.oldEndpoint.anchor.treeSize == |before| && p.newEndpoint.anchor.treeSize == |after|
    ensures p.oldEndpoint.anchor.currentCycleCommitment == before[|before| - 1]
    ensures p.newEndpoint.anchor.currentCycleCommitment == after[|after| - 1]
  {
    hide VerifyConsistency, FrontierAccepts, PathAccepts, Root;
    var a, b := p.oldEndpoint.anchor, p.newEndpoint.anchor;
    AcceptedPackage(p);
    LastPathPinsSize(before, a.treeSize, a.currentCycleCommitment, p.proof.oldCurrentPath, false);
    LastPathPinsSize(after, b.treeSize, b.currentCycleCommitment, p.proof.newCurrentPath, false);
    LeavesAreAdmissible(after, false);
    AppendOnlySound(LeafHashes(before), LeafHashes(after), p.proof.oldFrontier, p.proof.appendBlocks, false);
    LeafHashesPrefix(after, |before|);
    LeafHashesInjective(before, after[..|before|]);
  }

  // ---------------------------------------------------------------- the builder

  datatype BuilderError =
    | AnchorFailure(error: AnchorError)
    | HistoryNotExtended
    | PrefixMismatch

  method BuildConsistencyPackage(lt: Order, oldRecords: seq<CycleRecord>, oldTip: Accumulator,
                                 newRecords: seq<CycleRecord>, newTip: Accumulator, membershipContract: Digest,
                                 authorizationContract: Digest) returns (r: Result<ConsistencyPackage, BuilderError>)
    ensures r.Ok? <==> membershipContract != Zero && authorizationContract != Zero
                       && ValidHistory(lt, oldRecords, oldTip) && ValidHistory(lt, newRecords, newTip)
                       && |oldRecords| < |newRecords|
                       && Commitments(newRecords)[..|oldRecords|] == Commitments(oldRecords)
    ensures r.Ok? ==> VerifyConsistency(r.value).None?
    ensures r.Ok? ==>
              && r.value.oldEndpoint ==
                 Endpoint(AnchorOf(oldRecords, oldTip, membershipContract, authorizationContract), oldTip)
              && r.value.newEndpoint ==
                 Endpoint(AnchorOf(newRecords, newTip, membershipContract, authorizationContract), newTip)
  {
    hide ValidHistory, VerifyConsistency, AnchorOf, Root, Path, BuildBlocks;
    var oldAnchor := BuildAnchor(lt, oldRecords, oldTip, membershipContract, authorizationContract);
    if oldAnchor.Err? {
      return Err(AnchorFailure(oldAnchor.error));
    }
    var newAnchor := BuildAnchor(lt, newRecords, newTip, membershipContract, authorizationContract);
    if newAnchor.Err? {
      return Err(AnchorFailure(newAnchor.error));
    }
    HistoryIsNonEmpty(lt, oldRecords, oldTip);
    HistoryIsNonEmpty(lt, newRecords, newTip);
    var m, n := |oldRecords|, |newRecords|;
    if m >= n {
      return Err(HistoryNotExtended);
    }
    if Commitments(newRecords)[..m] != Commitments(oldRecords) {
      return Err(PrefixMismatch);
    }
    var oldLeaves, newLeaves := LeafHashes(Commitments(oldRecords)), LeafHashes(Commitments(newRecords));
    BuiltBlocksExist(Commitments(oldRecords), Commitments(newRecords), false);
    var oldShapes := PrefixBlockShapes(m);
    var oldFrontier := BuildBlocks(oldLeaves, oldShapes.value, false);
    var suffixShapes := SuffixBlockShapes(m, n);
    var appendBlocks := BuildBlocks(newLeaves, suffixShapes.value, false);
    var oldPath := MerklePath(oldLeaves, m - 1);
    var newPath := MerklePath(newLeaves, n - 1);
    var package := ConsistencyPackage(
      Endpoint(oldAnchor.value, oldTip), Endpoint(newAnchor.value, newTip),
      ConsistencyProof(DigestOf(AnchorJson(oldAnchor.value)), DigestOf(AnchorJson(newAnchor.value)), m, n,
                       PairwiseDuplicateLast, CompactFrontier, oldFrontier.value, appendBlocks.value, oldPath.value,
                       newPath.value));
    BuiltPackageVerifies(lt, oldRecords, oldTip, newRecords, newTip, membershipContract, authorizationContract,
                         package);
    assert VerifyConsistency(package).None?;  // so `consistency_package_invalid` is never raised
    return Ok(package);
  }

  lemma HistoryIsNonEmpty(lt: Order, records: seq<CycleRecord>, tip: Accumulator)
    requires ValidHistory(lt, records, tip)
    ensures |records| > 0 && records[|records| - 1].accumulator == tip
  {
    hide CleanUpTo, ValidAccumulator;
  }

  lemma BuiltBlocksExist(before: seq<Digest>, after: seq<Digest>, strict: bool)
    requires 0 < |before| < |after| && before == after[..|before|]
    ensures BuildBlocks(LeafHashes(before), PrefixShapes(|before|), strict).Ok?
    ensures BuildBlocks(LeafHashes(after), SuffixShapes(|before|, |after|), strict).Ok?
    ensures FrontierAccepts(|before|, |after|, Root(LeafHashes(before)), Root(LeafHashes(after)),
              BuildBlocks(LeafHashes(before), PrefixShapes(|before|), strict).value,
              BuildBlocks(LeafHashes(after), SuffixShapes(|before|, |after|), strict).value, strict)
  {
    hide FrontierAccepts, Root, BuildBlocks;
    LeavesAreAdmissible(after, strict);
    LeafHashesPrefix(after, |before|);
    AppendOnlyComplete(LeafHashes(after), |before|, strict);
  }

  /** The identity and epoch of the tip of the first k + 1 cycles. */
  lemma {:induction false} HistoryAdvances(lt: Order, records: seq<CycleRecord>, i: nat, j: nat)
    requires i <= j < |records| && CleanUpTo(lt, records, |records|)
    ensures records[j].accumulator.currentEpoch == records[i].accumulator.currentEpoch + 2 * (j - i)
    ensures records[j].accumulator.trustDomain == records[i].accumulator.trustDomain
    ensures records[j].accumulator.logicalStateId == records[i].accumulator.logicalStateId
    decreases j - i
  {
    hide RecordFault, ValidAccumulator, ValidAgreement;
    if i < j {
      HistoryAdvances(lt, records, i, j - 1);
      assert RecordFault(lt, records[j], j + 1, Before(records, j)).None?;
      assert RecordFault(lt, records[j - 1], j, Before(records, j - 1)).None?;
      CleanRecordFacts(lt, records[j], j + 1, Before(records, j));
      CleanRecordFacts(lt, records[j - 1], j, Before(records, j - 1));
      AgreementMovesTwoEpochs(lt, records[j]);
    }
  }

  /** Equal commitments at one index mean equal identity and epoch there. */
  lemma CommitmentFixesState(lt: Order, a: seq<CycleRecord>, b: seq<CycleRecord>, i: nat)
    requires i < |a| && i < |b| && CleanUpTo(lt, a, |a|) && CleanUpTo(lt, b, |b|)
    requires a[i].accumulator.cycleCommitment == b[i].accumulator.cycleCommitment
    ensures a[i].common == b[i].common && a[i].reconciliation == b[i].reconciliation
    ensures a[i].accumulator.currentEpoch == b[i].accumulator.currentEpoch
    ensures a[i].accumulator.trustDomain == b[i].accumulator.trustDomain
    ensures a[i].accumulator.logicalStateId == b[i].accumulator.logicalStateId
  {
    hide RecordFault, ValidAccumulator;
    assert RecordFault(lt, a[i], i + 1, Before(a, i)).None?;
    assert RecordFault(lt, b[i], i + 1, Before(b, i)).None?;
    CleanRecordFacts(lt, a[i], i + 1, Before(a, i));
    CleanRecordFacts(lt, b[i], i + 1, Before(b, i));
    AgreementIsVerified(lt, a[i]);
    AgreementIsVerified(lt, b[i]);
    CommitmentBinds(i + 1, a[i].common, a[i].reconciliation, i + 1, b[i].common, b[i].reconciliation);
  }

  lemma AgreementIsVerified(lt: Order, r: CycleRecord)
    requires WellBuilt(lt, r)
    ensures r.reconciliation.verified
  {
  }

  /** The anchors of a history and of a proper extension agree on identity, and the epoch has moved on. */
  lemma AnchorsShareContext(lt: Order, oldRecords: seq<CycleRecord>, oldTip: Accumulator, newRecords: seq<CycleRecord>,
                            newTip: Accumulator)
    requires ValidHistory(lt, oldRecords, oldTip) && ValidHistory(lt, newRecords, newTip)
    requires |oldRecords| < |newRecords| && Commitments(newRecords)[..|oldRecords|] == Commitments(oldRecords)
    ensures oldTip.trustDomain == newTip.trustDomain && oldTip.logicalStateId == newTip.logicalStateId
    ensures oldTip.currentEpoch < newTip.currentEpoch
    ensures oldTip.completedCycles == |oldRecords| && newTip.completedCycles == |newRecords|
  {
    hide RecordFault, ValidAccumulator, CleanUpTo;
    var m, n := |oldRecords|, |newRecords|;
    assert Commitments(oldRecords)[m - 1] == Commitments(newRecords)[..m][m - 1];
    CommitmentFixesState(lt, oldRecords, newRecords, m - 1);
    HistoryAdvances(lt, newRecords, m - 1, n - 1);
  }

  /** Every package whose endpoints and proof are computed from two such histories is accepted. */
  lemma BuiltPackageVerifies(lt: Order, oldRecords: seq<CycleRecord>, oldTip: Accumulator, newRecords: seq<CycleRecord>,
                             newTip: Accumulator, membershipContract: Digest, authorizationContract: Digest,
                             p: ConsistencyPackage)
    requires membershipContract != Zero && authorizationContract != Zero
    requires ValidHistory(lt, oldRecords, oldTip) && ValidHistory(lt, newRecords, newTip)
    requires 0 < |oldRecords| < |newRecords| && Commitments(newRecords)[..|oldRecords|] == Commitments(oldRecords)
    requires p.oldEndpoint == Endpoint(AnchorOf(oldRecords, oldTip, membershipContract, authorizationContract), oldTip)
    requires p.newEndpoint == Endpoint(AnchorOf(newRecords, newTip, membershipContract, authorizationContract), newTip)
    requires p.proof.oldAnchor == DigestOf(AnchorJson(p.oldEndpoint.anchor))
    requires p.proof.newAnchor == DigestOf(AnchorJson(p.newEndpoint.anchor))
    requires p.proof.oldTreeSize == |oldRecords| && p.proof.newTreeSize == |newRecords|
    requires p.proof.membershipAlgorithm == PairwiseDuplicateLast && p.proof.consistencyAlgorithm == CompactFrontier
    requires Ok(p.proof.oldFrontier)
             == BuildBlocks(LeafHashes(Commitments(oldRecords)), PrefixShapes(|oldRecords|), false)
    requires Ok(p.proof.appendBlocks)
          == BuildBlocks(LeafHashes(Commitments(newRecords)), SuffixShapes(|oldRecords|, |newRecords|), false)
    requires p.proof.oldCurrentPath == Path(LeafHashes(Commitments(oldRecords)), |oldRecords| - 1)
    requires p.proof.newCurrentPath == Path(LeafHashes(Commitments(newRecords)), |newRecords| - 1)
    ensures VerifyConsistency(p).None?
  {
    hide ValidHistory, ValidAnchor, FrontierAccepts, FrontierVerdict, BuildBlocks, Root, Path, PathAccepts, PathFits;
    AnchorIsValid(lt, oldRecords, oldTip, membershipContract, authorizationContract);
    AnchorIsValid(lt, newRecords, newTip, membershipContract, authorizationContract);
    AnchorsShareContext(lt, oldRecords, oldTip, newRecords, newTip);
    BuiltBlocksExist(Commitments(oldRecords), Commitments(newRecords), false);
    TipPathFits(lt, oldRecords, oldTip);
    TipPathFits(lt, newRecords, newTip);
    AcceptedByParts(p);
  }

  lemma PackageExists(lt: Order, oldRecords: seq<CycleRecord>, oldTip: Accumulator, newRecords: seq<CycleRecord>,
                      newTip: Accumulator, membershipContract: Digest, authorizationContract: Digest)
    returns (p: ConsistencyPackage)
    requires membershipContract != Zero && authorizationContract != Zero
    requires ValidHistory(lt, oldRecords, oldTip) && ValidHistory(lt, newRecords, newTip)
    requires |oldRecords| < |newRecords| && Commitments(newRecords)[..|oldRecords|] == Commitments(oldRecords)
    ensures p.oldEndpoint == Endpoint(AnchorOf(oldRecords, oldTip, membershipContract, authorizationContract), oldTip)
    ensures p.newEndpoint == Endpoint(AnchorOf(newRecords, newTip, membershipContract, authorizationContract), newTip)
    ensures VerifyConsistency(p).None?
  {
    hide ValidHistory, VerifyConsistency, AnchorOf, Root, Path, BuildBlocks, FrontierAccepts;
    HistoryIsNonEmpty(lt, oldRecords, oldTip);
    HistoryIsNonEmpty(lt, newRecords, newTip);
    var m, n := |oldRecords|, |newRecords|;
    var oldLeaves, newLeaves := LeafHashes(Commitments(oldRecords)), LeafHashes(Commitments(newRecords));
    BuiltBlocksExist(Commitments(oldRecords), Commitments(newRecords), false);
    var oldAnchor := AnchorOf(oldRecords, oldTip, membershipContract, authorizationContract);
    var newAnchor := AnchorOf(newRecords, newTip, membershipContract, authorizationContract);
    p := ConsistencyPackage(
      Endpoint(oldAnchor, oldTip), Endpoint(newAnchor, newTip),
      ConsistencyProof(DigestOf(AnchorJson(oldAnchor)), DigestOf(AnchorJson(newAnchor)), m, n, PairwiseDuplicateLast,
                       CompactFrontier, BuildBlocks(oldLeaves, PrefixShapes(m), false).value,
                       BuildBlocks(newLeaves, SuffixShapes(m, n), false).value, Path(oldLeaves, m - 1),
                       Path(newLeaves, n - 1)));
    BuiltPackageVerifies(lt, oldRecords, oldTip, newRecords, newTip, membershipContract, authorizationContract, p);
  }

  /** Between the anchors of two real histories an accepted package exists exactly when the older commitments are a
      proper prefix of the newer ones: the verifier misses no extension and admits nothing else. */
  lemma ConsistencyExact(lt: Order, oldRecords: seq<CycleRecord>, oldTip: Accumulator, newRecords: seq<CycleRecord>,
                         newTip: Accumulator, membershipContract: Digest, authorizationContract: Digest)
    requires membershipContract != Zero && authorizationContract != Zero
    requires ValidHistory(lt, oldRecords, oldTip) && ValidHistory(lt, newRecords, newTip)
    ensures (exists p: ConsistencyPackage ::
               && p.oldEndpoint.anchor == AnchorOf(oldRecords, oldTip, membershipContract, authorizationContract)
               && p.newEndpoint.anchor == AnchorOf(newRecords, newTip, membershipContract, authorizationContract)
               && VerifyConsistency(p).None?)
       <==> |oldRecords| < |newRecords| && Commitments(newRecords)[..|oldRecords|] == Commitments(oldRecords)
  {
    hide CleanUpTo, ValidAccumulator, VerifyConsistency, Root;
    forall p: ConsistencyPackage |
      && p.oldEndpoint.anchor == AnchorOf(oldRecords, oldTip, membershipContract, authorizationContract)
      && p.newEndpoint.anchor == AnchorOf(newRecords, newTip, membershipContract, authorizationContract)
      && VerifyConsistency(p).None?
      ensures |oldRecords| < |newRecords| && Commitments(newRecords)[..|oldRecords|] == Commitments(oldRecords)
    {
      ConsistencySound(p, Commitments(oldRecords), Commitments(newRecords));
    }
    if |oldRecords| < |newRecords| && Commitments(newRecords)[..|oldRecords|] == Commitments(oldRecords) {
      var p := PackageExists(lt, oldRecords, oldTip, newRecords, newTip, membershipContract, authorizationContract);
    }
  }

  lemma TipPathFits(lt: Order, records: seq<CycleRecord>, tip: Accumulator)
    requires ValidHistory(lt, records, tip)
    ensures var leaves := LeafHashes(Commitments(records));
            |records| > 0 && PathAccepts(Leaf(|records|, tip.cycleCommitment), |records| - 1, |records|,
                                         Path(leaves, |records| - 1), Root(leaves), false)
  {
    hide ValidHistory, Root, Path, PathAccepts;
    HistoryIsNonEmpty(lt, records, tip);
    BuiltPathsFit(records, |records| - 1);
  }

  lemma AcceptedByParts(p: ConsistencyPackage)
    requires ValidAnchor(p.oldEndpoint.anchor, p.oldEndpoint.accumulator)
    requires ValidAnchor(p.newEndpoint.anchor, p.newEndpoint.accumulator)
    requires var a, b, proof := p.oldEndpoint.anchor, p.newEndpoint.anchor, p.proof;
             && 0 < a.treeSize < b.treeSize
             && ContextFault(a, b, proof).None?
             && FrontierAccepts(a.treeSize, b.treeSize, a.merkleRoot, b.merkleRoot, proof.oldFrontier,
                                proof.appendBlocks, false)
             && PathAccepts(Leaf(a.treeSize, a.currentCycleCommitment), a.treeSize - 1, a.treeSize,
                            proof.oldCurrentPath,
                            a.merkleRoot, false)
             && PathAccepts(Leaf(b.treeSize, b.currentCycleCommitment), b.treeSize - 1, b.treeSize,
                            proof.newCurrentPath,
                            b.merkleRoot, false)
    ensures VerifyConsistency(p).None?
  {
    hide ValidAnchor, ContextFault, PathAccepts, FrontierVerdict;
  }

  // ---------------------------------------------------------------- histories

  /** The two contracts every accumulator of a history carries on from its seed. No commitment covers them, and the
      verifier compares neither between its two endpoints. */
  predicate SameContracts(a: Accumulator, b: Accumulator) {
    a.accumulatorContract == b.accumulatorContract && a.authorizationContract == b.authorizationContract
  }

  lemma SameInputsSameRecord(r: CycleRecord, s: CycleRecord, previous: Option<CycleRecord>)
    requires Describes(r) && Describes(s) && ValidAccumulator(r.accumulator) && ValidAccumulator(s.accumulator)
    requires PredecessorFault(r, previous).None? && PredecessorFault(s, previous).None?
    requires r.cycleIndex == s.cycleIndex && r.common == s.common && r.reconciliation == s.reconciliation
    requires SameContracts(r.accumulator, s.accumulator)
    ensures r == s
  {
  }

  lemma ContractsCarryOn(r: CycleRecord, previous: CycleRecord)
    requires PredecessorFault(r, Some(previous)).None?
    ensures SameContracts(r.accumulator, previous.accumulator)
  {
  }

  /** Equal commitments over equal seed contracts leave no other choice. */
  lemma {:induction false} CommitmentsFixRecords(lt: Order, a: seq<CycleRecord>, b: seq<CycleRecord>, i: nat)
    requires i < |a| && i < |b| && CleanUpTo(lt, a, |a|) && CleanUpTo(lt, b, |b|)
    requires forall k :: 0 <= k <= i ==> a[k].accumulator.cycleCommitment == b[k].accumulator.cycleCommitment
    requires SameContracts(a[0].accumulator, b[0].accumulator)
    ensures a[i] == b[i]
  {
    hide RecordFault, PredecessorFault, ValidAccumulator, Describes, ValidAgreement;
    CleanRecordFacts(lt, a[i], i + 1, Before(a, i));
    CleanRecordFacts(lt, b[i], i + 1, Before(b, i));
    CommitmentFixesState(lt, a, b, i);
    if i > 0 {
      CommitmentsFixRecords(lt, a, b, i - 1);
      ContractsCarryOn(a[i], a[i - 1]);
      ContractsCarryOn(b[i], b[i - 1]);
    }
    SameInputsSameRecord(a[i], b[i], Before(a, i));
  }

  lemma CommitmentsAgree(a: seq<CycleRecord>, b: seq<CycleRecord>)
    requires |a| <= |b| && Commitments(a) == Commitments(b)[..|a|]
    ensures forall k :: 0 <= k < |a| ==> a[k].accumulator.cycleCommitment == b[k].accumulator.cycleCommitment
  {
    forall k | 0 <= k < |a| ensures a[k].accumulator.cycleCommitment == b[k].accumulator.cycleCommitment {
      assert Commitments(a)[k] == Commitments(b)[..|a|][k];
    }
  }

  /** For two real histories: an accepted package between their anchors means that the newer history repeats every
      common state and every reconciliation of the older one, in order. It repeats the records themselves, and so
      passes through the older tip, exactly when the two seeds also agree on their contracts. */
  lemma AcceptedHistoriesExtend(lt: Order, p: ConsistencyPackage, oldRecords: seq<CycleRecord>, oldTip: Accumulator,
                                newRecords: seq<CycleRecord>, newTip: Accumulator, membershipContract: Digest,
                                authorizationContract: Digest)
    requires ValidHistory(lt, oldRecords, oldTip) && ValidHistory(lt, newRecords, newTip)
    requires p.oldEndpoint.anchor == AnchorOf(oldRecords, oldTip, membershipContract, authorizationContract)
    requires p.newEndpoint.anchor == AnchorOf(newRecords, newTip, membershipContract, authorizationContract)
    requires VerifyConsistency(p).None?
    ensures |oldRecords| < |newRecords|
    ensures forall i :: 0 <= i < |oldRecords| ==>
              newRecords[i].common == oldRecords[i].common
                  && newRecords[i].reconciliation == oldRecords[i].reconciliation
    ensures newRecords[..|oldRecords|] == oldRecords
       <==> SameContracts(oldRecords[0].accumulator, newRecords[0].accumulator)
    ensures newRecords[|oldRecords| - 1].accumulator == oldTip
       <==> SameContracts(oldRecords[0].accumulator, newRecords[0].accumulator)
  {
    hide RecordFault, CleanUpTo, VerifyConsistency, Root;
    var m := |oldRecords|;
    ConsistencySound(p, Commitments(oldRecords), Commitments(newRecords));
    CommitmentsAgree(oldRecords, newRecords);
    forall i | 0 <= i < m
      ensures newRecords[i].common == oldRecords[i].common
              && newRecords[i].reconciliation == oldRecords[i].reconciliation
      ensures SameContracts(oldRecords[0].accumulator, newRecords[0].accumulator) ==> newRecords[i] == oldRecords[i]
    {
      CommitmentFixesState(lt, oldRecords, newRecords, i);
      if SameContracts(oldRecords[0].accumulator, newRecords[0].accumulator) {
        CommitmentsFixRecords(lt, oldRecords, newRecords, i);
      }
    }
    if newRecords[m - 1].accumulator == oldTip {
      TipFixesPrefix(lt, oldRecords, oldTip, newRecords, newTip);
    }
  }

  /** A history that passes through another's tip starts with all of it. */
  lemma TipFixesPrefix(lt: Order, oldRecords: seq<CycleRecord>, oldTip: Accumulator, newRecords: seq<CycleRecord>,
                       newTip: Accumulator)
    requires ValidHistory(lt, oldRecords, oldTip) && ValidHistory(lt, newRecords, newTip)
    requires |oldRecords| <= |newRecords| && newRecords[|oldRecords| - 1].accumulator == oldTip
    ensures newRecords[..|oldRecords|] == oldRecords
  {
    hide RecordFault, ValidAccumulator;
    TipDeterminesRecords(lt, oldRecords, newRecords, |oldRecords|);
    assert oldRecords[..|oldRecords|] == oldRecords;
  }

  /** Over a whole sequence of accepted packages, the first committed list is a prefix of every later one. */
  lemma {:induction false} PackagesCompose(packages: seq<ConsistencyPackage>, lists: seq<seq<Digest>>, k: nat)
    requires |lists| == |packages| + 1 && k <= |packages|
    requires forall i :: 0 <= i < |lists| ==> |lists[i]| > 0
    requires forall i :: 0 <= i < |packages| ==>
               && VerifyConsistency(packages[i]).None?
               && packages[i].oldEndpoint.anchor.merkleRoot == Root(LeafHashes(lists[i]))
               && packages[i].newEndpoint.anchor.merkleRoot == Root(LeafHashes(lists[i + 1]))
    ensures |lists[0]| + k <= |lists[k]| && lists[0] == lists[k][..|lists[0]|]
  {
    hide VerifyConsistency, Root;
    if k > 0 {
      PackagesCompose(packages, lists, k - 1);
      ConsistencySound(packages[k - 1], lists[k - 1], lists[k]);
      assert lists[k][..|lists[k - 1]|][..|lists[0]|] == lists[k][..|lists[0]|];
    }
  }

  // ---------------------------------------------------------------- authority statements

  datatype StatementError =
    | StatementAnchorInvalid
    | StatementUnverified
    | StatementAuthorityInvalid
    | StatementSequenceInvalid
    | StatementProvenanceInvalid
    | StatementSeedPredecessorInvalid
    | StatementPredecessorInvalid
    | StatementInvalid

  predicate ValidStatement(s: AnchorStatement, anchor: LineageAnchor, acc: Accumulator) {
    && ValidAnchor(anchor, acc)
    && s.verified
    && NonEmpty(s.authorityId)
    && s.sequence > 0
    && (if s.sequence == 1 then s.previousStatement == Zero else s.previousStatement != Zero)
    && s.provenance != Zero
    && s.trustDomain == anchor.trustDomain
    && s.logicalStateId == anchor.logicalStateId
    && s.treeSize == anchor.treeSize
    && s.anchor == DigestOf(AnchorJson(anchor))
    && s.membershipRoot == anchor.merkleRoot
    && s.treeAlgorithm == anchor.treeAlgorithm
    && s.membershipContract == anchor.membershipContract
    && s.authorizationContract == anchor.authorizationContract
  }

  function BuildStatement(anchor: LineageAnchor, acc: Accumulator, verified: bool, authorityId: string, sequence: int,
                          previousStatement: Digest, provenance: Digest): Result<AnchorStatement, StatementError>
  {
    if !ValidAnchor(anchor, acc) then Err(StatementAnchorInvalid)
    else if !verified then Err(StatementUnverified)
    else if !NonEmpty(authorityId) then Err(StatementAuthorityInvalid)
    else if sequence <= 0 then Err(StatementSequenceInvalid)
    else if provenance == Zero then Err(StatementProvenanceInvalid)
    else if sequence == 1 && previousStatement != Zero then Err(StatementSeedPredecessorInvalid)
    else if sequence != 1 && previousStatement == Zero then Err(StatementPredecessorInvalid)
    else
      var s := AnchorStatement(true, authorityId, sequence, previousStatement, provenance, anchor.trustDomain,
        anchor.logicalStateId, anchor.treeSize, DigestOf(AnchorJson(anchor)), anchor.merkleRoot, anchor.treeAlgorithm,
        anchor.membershipContract, anchor.authorizationContract);
      if !ValidStatement(s, anchor, acc) then Err(StatementInvalid) else Ok(s)
  }

  /** Building and validating agree: the builder reaches exactly the valid statements, and its self-check is dead. */
  lemma StatementsAreTheBuiltOnes(anchor: LineageAnchor, acc: Accumulator, s: AnchorStatement)
    ensures ValidStatement(s, anchor, acc)
       <==> BuildStatement(anchor, acc, s.verified, s.authorityId, s.sequence, s.previousStatement, s.provenance) ==
            Ok(s)
    ensures BuildStatement(anchor, acc, s.verified, s.authorityId, s.sequence, s.previousStatement, s.provenance)
            != Err(StatementInvalid)
  {
    hide ValidAnchor;
  }

  /** No other field of a valid statement is free. */
  lemma StatementIsDetermined(s: AnchorStatement, t: AnchorStatement, anchor: LineageAnchor, acc: Accumulator)
    requires ValidStatement(s, anchor, acc) && ValidStatement(t, anchor, acc)
    requires s.authorityId == t.authorityId && s.sequence == t.sequence && s.previousStatement == t.previousStatement
    requires s.provenance == t.provenance
    ensures s == t
  {
    hide ValidAnchor;
  }

  datatype AuthorityFault =
    | Inconsistent(fault: ConsistencyFault)
    | OldStatementInvalid
    | NewStatementInvalid
    | AuthorityMismatch
    | SequenceDiscontinuity
    | PredecessorMismatch

  function StatementDigest(s: AnchorStatement): Digest {
    DigestOf(AnchorStatementJson(s))
  }

  function VerifyAuthorized(p: ConsistencyPackage, before: AnchorStatement, after: AnchorStatement)
    : Option<AuthorityFault>
  {
    var fault := VerifyConsistency(p);
    if fault.Some? then Some(Inconsistent(fault.value))
    else if !ValidStatement(before, p.oldEndpoint.anchor, p.oldEndpoint.accumulator) then Some(OldStatementInvalid)
    else if !ValidStatement(after, p.newEndpoint.anchor, p.newEndpoint.accumulator) then Some(NewStatementInvalid)
    else if before.authorityId != after.authorityId then Some(AuthorityMismatch)
    else if after.sequence != before.sequence + 1 then Some(SequenceDiscontinuity)
    else if after.previousStatement != StatementDigest(before) then Some(PredecessorMismatch)
    else None
  }

  // ---------------------------------------------------------------- equivocation

  datatype EquivocationEvidence = EquivocationEvidence(
    mode: Option<ConflictMode>, authorityId: Option<string>, statementA: Digest, statementB: Digest, anchorA: Digest,
    anchorB: Digest, treeSizeA: int, treeSizeB: int, rootA: MerkleHash, rootB: MerkleHash)

  predicate Comparable(a: AnchorStatement, b: AnchorStatement) {
    && a.authorityId == b.authorityId
    && a.trustDomain == b.trustDomain
    && a.logicalStateId == b.logicalStateId
    && a.treeAlgorithm == b.treeAlgorithm
    && a.membershipContract == b.membershipContract
    && a.authorizationContract == b.authorizationContract
  }

  function Conflict(a: AnchorStatement, b: AnchorStatement): Option<ConflictMode> {
    if !Comparable(a, b) then None
    else if a.sequence == b.sequence && a.previousStatement == b.previousStatement && a.anchor != b.anchor then
      Some(SameSequenceConflict)
    else if a.treeSize == b.treeSize && a.membershipRoot != b.membershipRoot then Some(SameSizeRootConflict)
    else None
  }

  /** None when a statement does not fit its anchor; otherwise the evidence, whose mode says whether they conflict. */
  function DetectEquivocation(anchorA: LineageAnchor, accA: Accumulator, a: AnchorStatement, anchorB: LineageAnchor,
                              accB: Accumulator, b: AnchorStatement): Option<EquivocationEvidence>
  {
    if !ValidStatement(a, anchorA, accA) || !ValidStatement(b, anchorB, accB) then None
    else Some(EquivocationEvidence(Conflict(a, b), if Comparable(a, b) then Some(a.authorityId) else None,
      StatementDigest(a), StatementDigest(b), DigestOf(AnchorJson(anchorA)), DigestOf(AnchorJson(anchorB)),
      anchorA.treeSize, anchorB.treeSize, anchorA.merkleRoot, anchorB.merkleRoot))
  }

  lemma AuthorizedFacts(p: ConsistencyPackage, before: AnchorStatement, after: AnchorStatement)
    requires VerifyAuthorized(p, before, after).None?
    ensures ValidStatement(before, p.oldEndpoint.anchor, p.oldEndpoint.accumulator)
    ensures ValidStatement(after, p.newEndpoint.anchor, p.newEndpoint.accumulator)
    ensures before.authorityId == after.authorityId && after.sequence == before.sequence + 1
    ensures after.previousStatement == StatementDigest(before)
    ensures before.trustDomain == after.trustDomain && before.logicalStateId == after.logicalStateId
    ensures before.treeAlgorithm == after.treeAlgorithm && before.membershipContract == after.membershipContract
    ensures before.authorizationContract == after.authorizationContract
  {
    hide ValidAnchor, PathAccepts, FrontierVerdict;
  }

  /** Two accepted successors of one statement conflict exactly when they name different anchors, and then the
      detector reports the same-sequence conflict of that authority. */
  lemma SplitSuccessorsAreDetected(p: ConsistencyPackage, q: ConsistencyPackage, before: AnchorStatement,
                                   a: AnchorStatement, b: AnchorStatement)
    requires VerifyAuthorized(p, before, a).None? && VerifyAuthorized(q, before, b).None?
    ensures var evidence := DetectEquivocation(p.newEndpoint.anchor, p.newEndpoint.accumulator, a,
                                               q.newEndpoint.anchor, q.newEndpoint.accumulator, b);
            && evidence.Some?
            && evidence.value.authorityId == Some(before.authorityId)
            && evidence.value.mode
               == (if p.newEndpoint.anchor == q.newEndpoint.anchor then None else Some(SameSequenceConflict))
  {
    hide VerifyAuthorized, ValidAnchor;
    AuthorizedFacts(p, before, a);
    AuthorizedFacts(q, before, b);
  }

  // ---------------------------------------------------------------- whole statement logs

  datatype Context = Context(authorityId: string, trustDomain: string, logicalStateId: string, treeAlgorithm: Algorithm,
                             membershipContract: Digest, authorizationContract: Digest)

  function EntryOf(s: AnchorStatement): Entry<Context> {
    Entry(Context(s.authorityId, s.trustDomain, s.logicalStateId, s.treeAlgorithm, s.membershipContract,
                  s.authorizationContract),
          s.sequence, s.previousStatement, StatementDigest(s), s.anchor, s.treeSize, s.membershipRoot)
  }

  datatype Published = Published(endpoint: Endpoint, statement: AnchorStatement)

  predicate Fits(x: Published) {
    ValidStatement(x.statement, x.endpoint.anchor, x.endpoint.accumulator)
  }

  ghost predicate Succeeds(before: Published, after: Published) {
    exists proof :: VerifyAuthorized(ConsistencyPackage(before.endpoint, after.endpoint, proof), before.statement,
                                     after.statement).None?
  }

  /** What a client of one authority collects: a first statement, then one accepted package for every later one. */
  ghost predicate PublishedLog(log: seq<Published>) {
    |log| > 0 && Fits(log[0]) && forall i :: 0 < i < |log| ==> Succeeds(log[i - 1], log[i])
  }

  function Entries(log: seq<Published>): (r: seq<Entry<Context>>)
    ensures |r| == |log|
    ensures forall i :: 0 <= i < |r| ==> r[i] == EntryOf(log[i].statement)
  {
    seq(|log|, i requires 0 <= i < |log| => EntryOf(log[i].statement))
  }

  lemma SucceedsFollows(before: Published, after: Published)
    requires Succeeds(before, after)
    ensures Fits(before) && Fits(after) && Follows(EntryOf(before.statement), EntryOf(after.statement))
  {
    hide VerifyAuthorized, VerifyConsistency, ValidAnchor, PathAccepts, FrontierAccepts;
    var proof :| VerifyAuthorized(ConsistencyPackage(before.endpoint, after.endpoint, proof), before.statement,
                                  after.statement).None?;
    var p := ConsistencyPackage(before.endpoint, after.endpoint, proof);
    AuthorizedFacts(p, before.statement, after.statement);
    AuthorizedIsConsistent(p, before.statement, after.statement);
    AcceptedPackage(p);
  }

  lemma AuthorizedIsConsistent(p: ConsistencyPackage, before: AnchorStatement, after: AnchorStatement)
    requires VerifyAuthorized(p, before, after).None?
    ensures VerifyConsistency(p).None?
  {
    hide VerifyConsistency, ValidStatement;
  }

  lemma PublishedIsLog(log: seq<Published>)
    requires PublishedLog(log)
    ensures Log(Entries(log)) && forall x :: x in log ==> Fits(x)
  {
    hide Succeeds, Fits, Follows;
    forall i | 0 < i < |log| ensures Follows(Entries(log)[i - 1], Entries(log)[i]) && Fits(log[i]) {
      SucceedsFollows(log[i - 1], log[i]);
    }
  }

  lemma FittingEntries(x: Published, y: Published)
    requires Fits(x) && Fits(y)
    ensures EntryOf(x.statement).statement == EntryOf(y.statement).statement ==> x.statement == y.statement
    ensures EntryOf(x.statement).anchor == EntryOf(y.statement).anchor <==> x.endpoint.anchor == y.endpoint.anchor
    ensures x.endpoint.anchor == y.endpoint.anchor ==>
              x.statement.treeSize == y.statement.treeSize && x.statement.membershipRoot == y.statement.membershipRoot
    ensures EntryConflict(EntryOf(x.statement), EntryOf(y.statement)) == Conflict(x.statement, y.statement)
  {
    hide ValidAnchor;
  }

  lemma PublishedAreFaithful(a: seq<Published>, b: seq<Published>)
    requires PublishedLog(a) && PublishedLog(b)
    ensures Faithful(Entries(a), Entries(b))
  {
    hide PublishedLog, Fits, EntryOf;
    PublishedIsLog(a);
    PublishedIsLog(b);
    forall x, y | x in Entries(a) && y in Entries(b)
      ensures x.statement == y.statement ==> x == y
      ensures x.anchor == y.anchor ==> x.treeSize == y.treeSize && x.root == y.root
    {
      var i :| 0 <= i < |a| && x == EntryOf(a[i].statement);
      var j :| 0 <= j < |b| && y == EntryOf(b[j].statement);
      EntryFacts(a[i].statement);
      EntryFacts(b[j].statement);
      FittingEntries(a[i], b[j]);
    }
  }

  lemma EntryFacts(s: AnchorStatement)
    ensures EntryOf(s).treeSize == s.treeSize && EntryOf(s).root == s.membershipRoot && EntryOf(s).anchor == s.anchor
  {
  }

  /** The detector accepts both statements and reports a conflict. */
  predicate Reported(x: Published, y: Published) {
    var evidence := DetectEquivocation(x.endpoint.anchor, x.endpoint.accumulator, x.statement, y.endpoint.anchor,
                                       y.endpoint.accumulator, y.statement);
    evidence.Some? && evidence.value.mode.Some?
  }

  ghost predicate SomeReported(a: seq<Published>, b: seq<Published>) {
    exists i, j :: 0 <= i < |a| && 0 <= j < |b| && Reported(a[i], b[j])
  }

  lemma ReportsAreEntryConflicts(a: seq<Published>, b: seq<Published>)
    requires PublishedLog(a) && PublishedLog(b)
    ensures forall i, j :: 0 <= i < |a| && 0 <= j < |b| ==>
              (Reported(a[i], b[j]) <==> EntryConflict(Entries(a)[i], Entries(b)[j]).Some?)
    ensures SomeReported(a, b) <==> SomeConflict(Entries(a), Entries(b))
  {
    hide PublishedLog, EntryOf, Conflict, ValidStatement, EntryConflict;
    PublishedIsLog(a);
    PublishedIsLog(b);
    forall i, j | 0 <= i < |a| && 0 <= j < |b|
      ensures Reported(a[i], b[j]) <==> EntryConflict(Entries(a)[i], Entries(b)[j]).Some?
    {
      FittingEntries(a[i], b[j]);
    }
  }

  /** Two whole logs that split at d: some pair of their statements is reported exactly when the two statements at d
      name different anchors, or the logs later publish one tree size with different roots. If the anchors at d are the
      same, the two statements there are twins: they differ in provenance and nothing else. */
  lemma SplitLogsAreDetected(a: seq<Published>, b: seq<Published>, d: nat)
    requires PublishedLog(a) && PublishedLog(b) && SplitAt(Entries(a), Entries(b), d)
    ensures SomeReported(a, b)
       <==> a[d].endpoint.anchor != b[d].endpoint.anchor || SizesMeetWithTwoRoots(Entries(a), Entries(b), d)
    ensures a[d].endpoint.anchor != b[d].endpoint.anchor ==> Reported(a[d], b[d])
    ensures a[d].endpoint.anchor == b[d].endpoint.anchor ==>
              a[d].statement == b[d].statement.(provenance := a[d].statement.provenance)
  {
    hide PublishedLog, Reported, SomeReported, Fits, Conflict, EntryConflict, SizesMeetWithTwoRoots, SomeConflict,
      Faithful;
    PublishedIsLog(a);
    PublishedIsLog(b);
    PublishedAreFaithful(a, b);
    SplitDetectionExact(Entries(a), Entries(b), d);
    ReportsAreEntryConflicts(a, b);
    FittingEntries(a[d], b[d]);
    if a[d].endpoint.anchor == b[d].endpoint.anchor {
      TwinsDifferInProvenance(a[d], b[d]);
    }
  }

  lemma TwinsDifferInProvenance(x: Published, y: Published)
    requires Fits(x) && Fits(y) && x.endpoint.anchor == y.endpoint.anchor
    requires x.statement.authorityId == y.statement.authorityId && x.statement.sequence == y.statement.sequence
    requires x.statement.previousStatement == y.statement.previousStatement
    ensures x.statement == y.statement.(provenance := x.statement.provenance)
  {
    hide ValidAnchor;
    assert x.endpoint.accumulator == y.endpoint.accumulator by {
      SameEndpoint(x.endpoint, y.endpoint);
    }
    StatementIsDetermined(x.statement, y.statement.(provenance := x.statement.provenance), x.endpoint.anchor,
                          x.endpoint.accumulator);
  }

  /** An authority that only ever extends one log is never reported, and two logs from sequence 1 either nest or
      split. */
  lemma SeededLogsNestOrSplit(a: seq<Published>, b: seq<Published>) returns (d: nat)
    requires PublishedLog(a) && PublishedLog(b)
    requires a[0].statement.sequence == b[0].statement.sequence == 1 && Comparable(a[0].statement, b[0].statement)
    ensures SplitAt(Entries(a), Entries(b), d)
         || ((Entries(a) <= Entries(b) || Entries(b) <= Entries(a)) && !SomeReported(a, b))
  {
    hide SomeReported, SomeConflict, Succeeds, ValidAnchor, SplitAt, Log;
    PublishedIsLog(a);
    PublishedIsLog(b);
    ReportsAreEntryConflicts(a, b);
    d := LogsNestOrSplit(Entries(a), Entries(b));
    if Entries(a) <= Entries(b) {
      NestedLogsNeverConflict(Entries(a), Entries(b));
    } else if Entries(b) <= Entries(a) {
      NestedLogsNeverConflict(Entries(b), Entries(a));
      ConflictsAreMutual(Entries(a), Entries(b));
    }
  }

  // ---------------------------------------------------------------- one proof per pair of anchors

  lemma AcceptedContext(p: ConsistencyPackage)
    requires VerifyConsistency(p).None?
    ensures ContextFault(p.oldEndpoint.anchor, p.newEndpoint.anchor, p.proof).None?
    ensures ValidAnchor(p.oldEndpoint.anchor, p.oldEndpoint.accumulator)
    ensures ValidAnchor(p.newEndpoint.anchor, p.newEndpoint.accumulator)
  {
    hide ValidAnchor, ContextFault, PathAccepts, FrontierVerdict;
  }

  lemma SameEndpoint(e: Endpoint, f: Endpoint)
    requires ValidAnchor(e.anchor, e.accumulator) && ValidAnchor(f.anchor, f.accumulator) && e.anchor == f.anchor
    ensures e == f
  {
    hide ValidAccumulator;
  }

  lemma SameHeader(p: ConsistencyPackage, q: ConsistencyPackage)
    requires p.oldEndpoint == q.oldEndpoint && p.newEndpoint == q.newEndpoint
    requires ContextFault(p.oldEndpoint.anchor, p.newEndpoint.anchor, p.proof).None?
    requires ContextFault(q.oldEndpoint.anchor, q.newEndpoint.anchor, q.proof).None?
    requires p.proof.oldFrontier == q.proof.oldFrontier && p.proof.appendBlocks == q.proof.appendBlocks
    requires p.proof.oldCurrentPath == q.proof.oldCurrentPath && p.proof.newCurrentPath == q.proof.newCurrentPath
    ensures p == q
  {
  }

  /** Between any two anchors, real or not, there is at most one accepted package. */
  lemma ConsistencyProofIsUnique(p: ConsistencyPackage, q: ConsistencyPackage)
    requires VerifyConsistency(p).None? && VerifyConsistency(q).None?
    requires p.oldEndpoint.anchor == q.oldEndpoint.anchor && p.newEndpoint.anchor == q.newEndpoint.anchor
    ensures p == q
  {
    hide VerifyConsistency, ValidAnchor, ContextFault, PathAccepts, FrontierAccepts;
    var a, b := p.oldEndpoint.anchor, p.newEndpoint.anchor;
    AcceptedPackage(p);
    AcceptedPackage(q);
    AcceptedContext(p);
    AcceptedContext(q);
    SameEndpoint(p.oldEndpoint, q.oldEndpoint);
    SameEndpoint(p.newEndpoint, q.newEndpoint);
    FrontierIsUnique(a.treeSize, b.treeSize, a.merkleRoot, b.merkleRoot, p.proof.oldFrontier, p.proof.appendBlocks,
                     q.proof.oldFrontier, q.proof.appendBlocks, false);
    var oldLeaf, newLeaf := Leaf(a.treeSize, a.currentCycleCommitment), Leaf(b.treeSize, b.currentCycleCommitment);
    PathsAreUnique(oldLeaf, p.proof.oldCurrentPath, oldLeaf, q.proof.oldCurrentPath, a.treeSize - 1, a.treeSize,
                   a.merkleRoot, false);
    PathsAreUnique(newLeaf, p.proof.newCurrentPath, newLeaf, q.proof.newCurrentPath, b.treeSize - 1, b.treeSize,
                   b.merkleRoot, false);
    SameHeader(p, q);
  }
}
