/** Append-only consistency between two handoff-chain anchors, authority statements about them, and equivocation. */
module HandoffConsistency {
  import opened Prelude
  import opened MerkleTree
  import opened BlockShapes
  import opened Frontier
  import opened Records
  import opened LineageMembership
  import opened AuthorityLogs
  import LineageConsistency
  import opened WitnessHandoff
  import opened HandoffChain
  import opened HandoffMembership

  type ConsistencyProof = LineageConsistency.ConsistencyProof

  datatype HandoffEndpoint = HandoffEndpoint(anchor: HandoffAnchor, currentRef: ChainRef)

  datatype HandoffConsistencyPackage = HandoffConsistencyPackage(
    oldEndpoint: HandoffEndpoint, newEndpoint: HandoffEndpoint, proof: ConsistencyProof)

  datatype HandoffConsistencyFault =
    | HandoffEndpointInvalid
    | HandoffTreeNotExtended
    | OldProofSizeInvalid
    | NewProofSizeInvalid
    | OldProofSizeMismatch
    | NewProofSizeMismatch
    | OldHandoffAnchorMismatch
    | NewHandoffAnchorMismatch
    | HandoffMembershipAlgorithmInvalid
    | HandoffConsistencyAlgorithmInvalid
    | ChainIdMismatch
    | ChainPolicyIdMismatch
    | GenesisPolicyEpochMismatch
    | ChainGenesisPolicyMismatch
    | TreeAlgorithmMismatch
    | ChainContractMismatch
    | ChainAuthorizationContractMismatch
    | HandoffMembershipContractMismatch
    | HandoffAuthorizationContractMismatch
    | HandoffCountMismatch
    | PolicyEpochNotAdvanced
    | HandoffFrontierFault(error: FrontierError)
    | OldCurrentStepNotBound
    | NewCurrentStepNotBound

  // ---------------------------------------------------------------- the verifier

  /** `_same_membership_context`: the nine shared fields, in order. */
  function SharedContextFault(a: HandoffAnchor, b: HandoffAnchor): Option<HandoffConsistencyFault> {
    if a.chainId != b.chainId then Some(ChainIdMismatch)
    else if a.policyId != b.policyId then Some(ChainPolicyIdMismatch)
    else if a.genesisPolicyEpoch != b.genesisPolicyEpoch then Some(GenesisPolicyEpochMismatch)
    else if a.genesisPolicy != b.genesisPolicy then Some(ChainGenesisPolicyMismatch)
    else if a.treeAlgorithm != b.treeAlgorithm then Some(TreeAlgorithmMismatch)
    else if a.chainContract != b.chainContract then Some(ChainContractMismatch)
    else if a.chainAuthorizationContract != b.chainAuthorizationContract then Some(ChainAuthorizationContractMismatch)
    else if a.membershipContract != b.membershipContract then Some(HandoffMembershipContractMismatch)
    else if a.authorizationContract != b.authorizationContract then Some(HandoffAuthorizationContractMismatch)
    else None
  }

  function HandoffContextFault(a: HandoffAnchor, b: HandoffAnchor, proof: ConsistencyProof)
    : Option<HandoffConsistencyFault>
  {
    if proof.oldTreeSize <= 0 then Some(OldProofSizeInvalid)
    else if proof.newTreeSize <= 0 then Some(NewProofSizeInvalid)
    else if proof.oldTreeSize != a.treeSize then Some(OldProofSizeMismatch)
    else if proof.newTreeSize != b.treeSize then Some(NewProofSizeMismatch)
    else if proof.oldAnchor != DigestOf(HandoffAnchorJson(a)) then Some(OldHandoffAnchorMismatch)
    else if proof.newAnchor != DigestOf(HandoffAnchorJson(b)) then Some(NewHandoffAnchorMismatch)
    else if proof.membershipAlgorithm != PairwiseDuplicateLast || a.treeAlgorithm != PairwiseDuplicateLast
         || b.treeAlgorithm != PairwiseDuplicateLast then Some(HandoffMembershipAlgorithmInvalid)
    else if proof.consistencyAlgorithm != CompactFrontier then Some(HandoffConsistencyAlgorithmInvalid)
    else
      var shared := SharedContextFault(a, b);
      if shared.Some? then shared
      else if a.completedHandoffs != a.treeSize || b.completedHandoffs != b.treeSize then Some(HandoffCountMismatch)
      else if b.currentPolicyEpoch <= a.currentPolicyEpoch then Some(PolicyEpochNotAdvanced)
      else None
  }

  /** `verify_witness_policy_handoff_chain_membership_root_consistency`: the first reason to refuse, or None. */
  function VerifyHandoffConsistency(p: HandoffConsistencyPackage): Option<HandoffConsistencyFault> {
    var a, b, proof := p.oldEndpoint.anchor, p.newEndpoint.anchor, p.proof;
    if !ValidHandoffAnchor(a, p.oldEndpoint.currentRef) || !ValidHandoffAnchor(b, p.newEndpoint.currentRef) then
      Some(HandoffEndpointInvalid)
    else if a.treeSize >= b.treeSize then Some(HandoffTreeNotExtended)
    else
      var contextFault := HandoffContextFault(a, b, proof);
      if contextFault.Some? then contextFault
      else
        var frontier := FrontierVerdict(a.treeSize, b.treeSize, a.merkleRoot, b.merkleRoot, proof.oldFrontier,
                                        proof.appendBlocks, true);
        if frontier.Err? then Some(HandoffFrontierFault(frontier.error))
        else if !CurrentStepBound(a, proof.oldCurrentPath) then Some(OldCurrentStepNotBound)
        else if !CurrentStepBound(b, proof.newCurrentPath) then Some(NewCurrentStepNotBound)
        else None
  }

  predicate CurrentStepBound(a: HandoffAnchor, path: seq<PathEntry<Digest>>)
    requires a.treeSize > 0
  {
    PathAccepts(Leaf(a.treeSize, a.currentStepCommitment), a.treeSize - 1, a.treeSize, path, a.merkleRoot, true)
  }

  lemma AcceptedHandoffConsistency(p: HandoffConsistencyPackage)
    requires VerifyHandoffConsistency(p).None?
    ensures ValidHandoffAnchor(p.oldEndpoint.anchor, p.oldEndpoint.currentRef)
    ensures ValidHandoffAnchor(p.newEndpoint.anchor, p.newEndpoint.currentRef)
    ensures var a, b, proof := p.oldEndpoint.anchor, p.newEndpoint.anchor, p.proof;
            && 0 < a.treeSize < b.treeSize && SharedContextFault(a, b).None?
            && a.currentPolicyEpoch < b.currentPolicyEpoch
            && FrontierAccepts(a.treeSize, b.treeSize, a.merkleRoot, b.merkleRoot, proof.oldFrontier,
                               proof.appendBlocks, true)
            && CurrentStepBound(a, proof.oldCurrentPath) && CurrentStepBound(b, proof.newCurrentPath)
  {
    hide CurrentStepBound, FrontierVerdict, ValidRef;
  }

  /** Soundness: when both roots commit to some indexed commitment lists, an accepted package proves the old list to
      be a proper prefix of the new one, whatever sizes it claims. */
  lemma HandoffConsistencySound(p: HandoffConsistencyPackage, before: seq<Digest>, after: seq<Digest>)
    requires |before| > 0 && |after| > 0
    requires p.oldEndpoint.anchor.merkleRoot == Root(LeafHashes(before))
    requires p.newEndpoint.anchor.merkleRoot == Root(LeafHashes(after))
    requires VerifyHandoffConsistency(p).None?
    ensures |before| < |after| && before == after[..|before|]
    ensures p.oldEndpoint.anchor.treeSize == |before| && p.newEndpoint.anchor.treeSize == |after|
    ensures p.oldEndpoint.anchor.currentStepCommitment == before[|before| - 1]
    ensures p.newEndpoint.anchor.currentStepCommitment == after[|after| - 1]
  {
    hide VerifyHandoffConsistency, FrontierAccepts, PathAccepts, Root, ValidHandoffAnchor;
    var a, b := p.oldEndpoint.anchor, p.newEndpoint.anchor;
    AcceptedHandoffConsistency(p);
    LastPathPinsSize(before, a.treeSize, a.currentStepCommitment, p.proof.oldCurrentPath, true);
    LastPathPinsSize(after, b.treeSize, b.currentStepCommitment, p.proof.newCurrentPath, true);
    LeavesAreAdmissible(after, true);
    AppendOnlySound(LeafHashes(before), LeafHashes(after), p.proof.oldFrontier, p.proof.appendBlocks, true);
    LeafHashesPrefix(after, |before|);
    LeafHashesInjective(before, after[..|before|]);
  }

  // ---------------------------------------------------------------- what step commitments determine

  ghost function CommitmentsOf(packages: seq<HandoffPackage>, tip: ChainRef): (r: seq<Digest>)
    requires ValidHandoffHistory(packages, tip)
    ensures |r| == |packages|
  {
    StepCommitments(Handoffs(packages, GenesisOf(tip)))
  }

  lemma CommitmentAt(packages: seq<HandoffPackage>, tip: ChainRef, i: nat)
    requires ValidHandoffHistory(packages, tip) && i < |packages|
    ensures CommitmentsOf(packages, tip)[i] == StepDigest(RecordAt(packages, GenesisOf(tip), i).step)
    ensures RecordAt(packages, GenesisOf(tip), i).step.handoffPackage == HandoffPackageDigest(packages[i])
  {
    hide Replay, RecordAt;
    RecordShape(packages, GenesisOf(tip), i);
    RecordFacts(packages, GenesisOf(tip), i);
  }

  /** One equal commitment already fixes the package behind it. */
  lemma CommitmentFixesPackage(a: seq<HandoffPackage>, x: ChainRef, b: seq<HandoffPackage>, y: ChainRef, i: nat)
    requires ValidHandoffHistory(a, x) && ValidHandoffHistory(b, y) && i < |a| && i < |b|
    requires CommitmentsOf(a, x)[i] == CommitmentsOf(b, y)[i]
    ensures RecordAt(a, GenesisOf(x), i).step == RecordAt(b, GenesisOf(y), i).step && a[i] == b[i]
  {
    hide Replay, RecordAt, CommitmentsOf;
    CommitmentAt(a, x, i);
    CommitmentAt(b, y, i);
    assert HandoffPackageDigest(a[i]) == HandoffPackageDigest(b[i]);
  }

  lemma FirstStepFixesGenesis(a: seq<HandoffPackage>, g: Genesis, b: seq<HandoffPackage>, h: Genesis)
    requires |a| > 0 && |b| > 0 && Replay(a, g).Ok? && Replay(b, h).Ok?
    requires RecordAt(a, g, 0).step == RecordAt(b, h, 0).step
    ensures g == h
  {
    hide VerifyHandoff, SeedChain, AdvanceChain, ValidRef;
    PrefixReplays(a, g, 1);
    PrefixReplays(b, h, 1);
    RunInvariant(a[..1], g);
    RunInvariant(b[..1], h);
    SeedExact(a[0], g);
    SeedExact(b[0], h);
  }

  /** The old commitments are a prefix of the new ones exactly when the old packages are a prefix of the new packages
      under the same genesis. */
  lemma CommitmentPrefixExact(a: seq<HandoffPackage>, x: ChainRef, b: seq<HandoffPackage>, y: ChainRef)
    requires ValidHandoffHistory(a, x) && ValidHandoffHistory(b, y) && |a| <= |b|
    ensures CommitmentsOf(b, y)[..|a|] == CommitmentsOf(a, x) <==> a == b[..|a|] && GenesisOf(x) == GenesisOf(y)
  {
    hide Replay, RecordAt, CommitmentsOf, ValidHandoffHistory;
    var m := |a|;
    if CommitmentsOf(b, y)[..m] == CommitmentsOf(a, x) {
      forall i | 0 <= i < m ensures a[i] == b[i] {
        assert CommitmentsOf(b, y)[..m][i] == CommitmentsOf(a, x)[i];
        CommitmentFixesPackage(a, x, b, y, i);
      }
      SameFirstCommitment(a, x, b, y);
    }
    if a == b[..m] && GenesisOf(x) == GenesisOf(y) {
      forall i | 0 <= i < m ensures CommitmentsOf(b, y)[i] == CommitmentsOf(a, x)[i] {
        PrefixCommitment(a, x, b, y, i);
      }
    }
  }

  lemma SameFirstCommitment(a: seq<HandoffPackage>, x: ChainRef, b: seq<HandoffPackage>, y: ChainRef)
    requires ValidHandoffHistory(a, x) && ValidHandoffHistory(b, y) && |a| <= |b|
    requires CommitmentsOf(b, y)[..|a|] == CommitmentsOf(a, x)
    ensures GenesisOf(x) == GenesisOf(y)
  {
    hide Replay, RecordAt, CommitmentsOf;
    assert CommitmentsOf(b, y)[..|a|][0] == CommitmentsOf(a, x)[0];
    CommitmentFixesPackage(a, x, b, y, 0);
    FirstStepFixesGenesis(a, GenesisOf(x), b, GenesisOf(y));
  }

  lemma PrefixCommitment(a: seq<HandoffPackage>, x: ChainRef, b: seq<HandoffPackage>, y: ChainRef, i: nat)
    requires ValidHandoffHistory(a, x) && ValidHandoffHistory(b, y) && i < |a| <= |b|
    requires a == b[..|a|] && GenesisOf(x) == GenesisOf(y)
    ensures CommitmentsOf(b, y)[i] == CommitmentsOf(a, x)[i]
  {
    hide Replay, RecordAt, CommitmentsOf;
    RecordSnoc(b, GenesisOf(y), |a|, i);
    CommitmentAt(a, x, i);
    CommitmentAt(b, y, i);
  }

  /** A commitment prefix fixes the boundary too: the new history passes through exactly the old tip. */
  lemma PrefixReachesOldTip(a: seq<HandoffPackage>, x: ChainRef, b: seq<HandoffPackage>, y: ChainRef)
    requires ValidHandoffHistory(a, x) && ValidHandoffHistory(b, y) && |a| <= |b|
    requires a == b[..|a|] && GenesisOf(x) == GenesisOf(y)
    ensures RecordAt(b, GenesisOf(y), |a| - 1).ref == x
  {
    hide Replay, RecordAt;
    RecordSnoc(b, GenesisOf(y), |a|, |a| - 1);
    LastRecordIsTip(a, x);
  }

  // ---------------------------------------------------------------- the builder

  datatype HandoffBuilderError =
    | BuilderMembershipContractInvalid
    | BuilderAuthorizationContractInvalid
    | BuilderHistoryInvalid(error: HandoffHistoryError)
    | BuilderAnchorInvalid(anchorError: HandoffAnchorError)
    | BuilderTreeNotExtended
    | BuilderPrefixMismatch
    | BoundaryRefMismatch

  ghost predicate Assembled(before: seq<HandoffRecord>, oldTip: ChainRef, after: seq<HandoffRecord>, newTip: ChainRef,
                            membershipContract: Digest, authorizationContract: Digest, p: HandoffConsistencyPackage)
    requires |before| > 0 && |after| > 0
  {
    var m, n := |before|, |after|;
    var oldLeaves, newLeaves := LeafHashes(StepCommitments(before)), LeafHashes(StepCommitments(after));
    && p.oldEndpoint ==
       HandoffEndpoint(HandoffAnchorFrom(before, oldTip, membershipContract, authorizationContract), oldTip)
    && p.newEndpoint ==
       HandoffEndpoint(HandoffAnchorFrom(after, newTip, membershipContract, authorizationContract), newTip)
    && p.proof.oldAnchor == DigestOf(HandoffAnchorJson(p.oldEndpoint.anchor))
    && p.proof.newAnchor == DigestOf(HandoffAnchorJson(p.newEndpoint.anchor))
    && p.proof.oldTreeSize == m && p.proof.newTreeSize == n
    && p.proof.membershipAlgorithm == PairwiseDuplicateLast && p.proof.consistencyAlgorithm == CompactFrontier
    && Ok(p.proof.oldFrontier) == BuildBlocks(oldLeaves, PrefixShapes(m), true)
    && Ok(p.proof.appendBlocks) == BuildBlocks(newLeaves, if m < n then SuffixShapes(m, n) else [], true)
    && p.proof.oldCurrentPath == Path(oldLeaves, m - 1)
    && p.proof.newCurrentPath == Path(newLeaves, n - 1)
  }

  /** The second half of the builder: both anchors, the frontier, the appended blocks and the two current-step paths. */
  method AssemblePackage(before: seq<HandoffRecord>, oldTip: ChainRef, after: seq<HandoffRecord>, newTip: ChainRef,
                         membershipContract: Digest, authorizationContract: Digest)
    returns (p: HandoffConsistencyPackage)
    requires 0 < |before| < |after| && StepCommitments(after)[..|before|] == StepCommitments(before)
    requires membershipContract != Zero && authorizationContract != Zero
    requires ValidRef(oldTip) && |before| == oldTip.completedHandoffs
    requires ValidRef(newTip) && |after| == newTip.completedHandoffs
    ensures Assembled(before, oldTip, after, newTip, membershipContract, authorizationContract, p)
    ensures p.oldEndpoint.currentRef == oldTip && p.newEndpoint.currentRef == newTip
  {
    hide Root, Path, BuildBlocks, ValidRef;
    var m, n := |before|, |after|;
    var oldAnchor := BuildHandoffAnchor(before, oldTip, membershipContract, authorizationContract);
    var newAnchor := BuildHandoffAnchor(after, newTip, membershipContract, authorizationContract);
    var oldLeaves, newLeaves := LeafHashes(StepCommitments(before)), LeafHashes(StepCommitments(after));
    LineageConsistency.BuiltBlocksExist(StepCommitments(before), StepCommitments(after), true);
    var oldShapes := PrefixBlockShapes(m);
    var oldFrontier := BuildBlocks(oldLeaves, oldShapes.value, true);
    var suffixShapes := SuffixBlockShapes(m, n);
    var appendBlocks := BuildBlocks(newLeaves, suffixShapes.value, true);
    var oldPath := MerklePath(oldLeaves, m - 1);
    var newPath := MerklePath(newLeaves, n - 1);
    return HandoffConsistencyPackage(
      HandoffEndpoint(oldAnchor.value, oldTip), HandoffEndpoint(newAnchor.value, newTip),
      LineageConsistency.ConsistencyProof(
        DigestOf(HandoffAnchorJson(oldAnchor.value)), DigestOf(HandoffAnchorJson(newAnchor.value)), m, n,
        PairwiseDuplicateLast, CompactFrontier, oldFrontier.value, appendBlocks.value, oldPath.value, newPath.value));
  }

  method BuildHandoffConsistencyPackage(oldPackages: seq<HandoffPackage>, oldTip: ChainRef,
                                        newPackages: seq<HandoffPackage>, newTip: ChainRef, membershipContract: Digest,
                                        authorizationContract: Digest)
    returns (r: Result<HandoffConsistencyPackage, HandoffBuilderError>)
    ensures r.Ok? <==> membershipContract != Zero && authorizationContract != Zero
                       && ValidHandoffHistory(oldPackages, oldTip) && ValidHandoffHistory(newPackages, newTip)
                       && |oldPackages| < |newPackages| && oldPackages == newPackages[..|oldPackages|]
                       && GenesisOf(oldTip) == GenesisOf(newTip)
    ensures r.Ok? ==> VerifyHandoffConsistency(r.value).None?
    ensures r.Ok? ==> r.value.oldEndpoint.currentRef == oldTip && r.value.newEndpoint.currentRef == newTip
    ensures r != Err(BoundaryRefMismatch)
  {
    hide ValidHandoffHistory, VerifyHandoffConsistency, Assembled, Replay, RecordAt, ValidRef;
    if membershipContract == Zero {
      return Err(BuilderMembershipContractInvalid);
    }
    if authorizationContract == Zero {
      return Err(BuilderAuthorizationContractInvalid);
    }
    HistoryFaultExact(oldPackages, oldTip);
    HistoryFaultExact(newPackages, newTip);
    var oldHistory := ValidateHandoffHistory(oldPackages, oldTip);
    if oldHistory.Err? {
      return Err(BuilderHistoryInvalid(oldHistory.error));
    }
    var newHistory := ValidateHandoffHistory(newPackages, newTip);
    if newHistory.Err? {
      return Err(BuilderHistoryInvalid(newHistory.error));
    }
    var before, after := oldHistory.value, newHistory.value;
    var m, n := |before|, |after|;
    if m >= n {
      return Err(BuilderTreeNotExtended);
    }
    HistoryLengths(oldPackages, oldTip);
    HistoryLengths(newPackages, newTip);
    CommitmentPrefixExact(oldPackages, oldTip, newPackages, newTip);
    if StepCommitments(after)[..m] != StepCommitments(before) {
      return Err(BuilderPrefixMismatch);
    }
    PrefixReachesOldTip(oldPackages, oldTip, newPackages, newTip);
    if after[m - 1].ref != oldTip {
      return Err(BoundaryRefMismatch);
    }
    var package := AssemblePackage(before, oldTip, after, newTip, membershipContract, authorizationContract);
    BuiltHandoffPackageVerifies(oldPackages, oldTip, newPackages, newTip, membershipContract, authorizationContract,
                                package);
    assert VerifyHandoffConsistency(package).None?;  // so the package self-check is never raised
    return Ok(package);
  }

  lemma HistoryLengths(packages: seq<HandoffPackage>, tip: ChainRef)
    requires ValidHandoffHistory(packages, tip)
    ensures |packages| > 0 && Replay(packages, GenesisOf(tip)).Ok?
    ensures CommitmentsOf(packages, tip) == StepCommitments(Handoffs(packages, GenesisOf(tip)))
  {
    hide Replay, RecordAt;
  }

  /** The anchors of a history and of a proper extension share their context, and the policy epoch has moved on. */
  lemma HandoffAnchorsShareContext(a: seq<HandoffPackage>, x: ChainRef, b: seq<HandoffPackage>, y: ChainRef)
    requires ValidHandoffHistory(a, x) && ValidHandoffHistory(b, y) && |a| < |b|
    requires a == b[..|a|] && GenesisOf(x) == GenesisOf(y)
    ensures x.policyId == y.policyId && x.currentPolicyEpoch < y.currentPolicyEpoch
    ensures x.completedHandoffs == |a| && y.completedHandoffs == |b| && ValidRef(x) && ValidRef(y)
  {
    hide Replay, VerifyHandoff, ValidRef, StepOf;
    HistoryFaultExact(a, x);
    HistoryFaultExact(b, y);
    TipKeepsPolicyId(a, x);
    TipKeepsPolicyId(b, y);
    RunInvariant(a, GenesisOf(x));
    RunInvariant(b, GenesisOf(y));
  }

  /** Every package assembled from a history and a proper extension of it is accepted. */
  lemma BuiltHandoffPackageVerifies(oldPackages: seq<HandoffPackage>, oldTip: ChainRef,
                                    newPackages: seq<HandoffPackage>, newTip: ChainRef, membershipContract: Digest,
                                    authorizationContract: Digest, p: HandoffConsistencyPackage)
    requires membershipContract != Zero && authorizationContract != Zero
    requires ValidHandoffHistory(oldPackages, oldTip) && ValidHandoffHistory(newPackages, newTip)
    requires |oldPackages| < |newPackages| && oldPackages == newPackages[..|oldPackages|]
    requires GenesisOf(oldTip) == GenesisOf(newTip)
    requires Assembled(Handoffs(oldPackages, GenesisOf(oldTip)), oldTip, Handoffs(newPackages, GenesisOf(newTip)),
                       newTip,
                       membershipContract, authorizationContract, p)
    ensures VerifyHandoffConsistency(p).None?
  {
    hide VerifyHandoffConsistency, Assembled, Replay, RecordAt, ValidRef, TipBound;
    var before, after := Handoffs(oldPackages, GenesisOf(oldTip)), Handoffs(newPackages, GenesisOf(newTip));
    HistoryLengths(oldPackages, oldTip);
    HistoryLengths(newPackages, newTip);
    CommitmentPrefixExact(oldPackages, oldTip, newPackages, newTip);
    HandoffAnchorsShareContext(oldPackages, oldTip, newPackages, newTip);
    TipIsBound(oldPackages, oldTip);
    TipIsBound(newPackages, newTip);
    AssembledVerifies(before, oldTip, after, newTip, membershipContract, authorizationContract, p);
  }

  lemma AssembledExists(before: seq<HandoffRecord>, oldTip: ChainRef, after: seq<HandoffRecord>, newTip: ChainRef,
                        membershipContract: Digest, authorizationContract: Digest)
    returns (p: HandoffConsistencyPackage)
    requires 0 < |before| < |after| && StepCommitments(after)[..|before|] == StepCommitments(before)
    ensures Assembled(before, oldTip, after, newTip, membershipContract, authorizationContract, p)
  {
    hide Root, Path, BuildBlocks, FrontierAccepts;
    var m, n := |before|, |after|;
    var oldLeaves, newLeaves := LeafHashes(StepCommitments(before)), LeafHashes(StepCommitments(after));
    LineageConsistency.BuiltBlocksExist(StepCommitments(before), StepCommitments(after), true);
    var oldAnchor := HandoffAnchorFrom(before, oldTip, membershipContract, authorizationContract);
    var newAnchor := HandoffAnchorFrom(after, newTip, membershipContract, authorizationContract);
    p := HandoffConsistencyPackage(
      HandoffEndpoint(oldAnchor, oldTip), HandoffEndpoint(newAnchor, newTip),
      LineageConsistency.ConsistencyProof(
        DigestOf(HandoffAnchorJson(oldAnchor)), DigestOf(HandoffAnchorJson(newAnchor)), m, n, PairwiseDuplicateLast,
        CompactFrontier, BuildBlocks(oldLeaves, PrefixShapes(m), true).value,
        BuildBlocks(newLeaves, SuffixShapes(m, n), true).value, Path(oldLeaves, m - 1), Path(newLeaves, n - 1)));
  }

  ghost predicate Connects(p: HandoffConsistencyPackage, oldPackages: seq<HandoffPackage>, oldTip: ChainRef,
                           newPackages: seq<HandoffPackage>, newTip: ChainRef, membershipContract: Digest,
                           authorizationContract: Digest)
    requires ValidHandoffHistory(oldPackages, oldTip) && ValidHandoffHistory(newPackages, newTip)
  {
    && p.oldEndpoint.anchor == HandoffAnchorFrom(Handoffs(oldPackages, GenesisOf(oldTip)), oldTip, membershipContract,
                                                 authorizationContract)
    && p.newEndpoint.anchor == HandoffAnchorFrom(Handoffs(newPackages, GenesisOf(newTip)), newTip, membershipContract,
                                                 authorizationContract)
    && VerifyHandoffConsistency(p).None?
  }

  /** Between the anchors of two real chains an accepted package exists exactly when the older chain's packages are a
      proper prefix of the newer one's, from one genesis: the verifier misses no extension and admits nothing else. */
  lemma HandoffConsistencyExact(oldPackages: seq<HandoffPackage>, oldTip: ChainRef, newPackages: seq<HandoffPackage>,
                                newTip: ChainRef, membershipContract: Digest, authorizationContract: Digest)
    requires membershipContract != Zero && authorizationContract != Zero
    requires ValidHandoffHistory(oldPackages, oldTip) && ValidHandoffHistory(newPackages, newTip)
    ensures (exists p :: Connects(p, oldPackages, oldTip, newPackages, newTip, membershipContract,
                                  authorizationContract))
       <==> |oldPackages| < |newPackages| && oldPackages == newPackages[..|oldPackages|]
            && GenesisOf(oldTip) == GenesisOf(newTip)
  {
    hide ValidHandoffHistory, VerifyHandoffConsistency, Assembled, Replay, RecordAt, HandoffAnchorFrom;
    forall p | Connects(p, oldPackages, oldTip, newPackages, newTip, membershipContract, authorizationContract)
      ensures |oldPackages| < |newPackages| && oldPackages == newPackages[..|oldPackages|]
      ensures GenesisOf(oldTip) == GenesisOf(newTip)
    {
      AcceptedHandoffHistoriesExtend(p, oldPackages, oldTip, newPackages, newTip, membershipContract,
                                     authorizationContract);
    }
    if && |oldPackages| < |newPackages| && oldPackages == newPackages[..|oldPackages|]
       && GenesisOf(oldTip) == GenesisOf(newTip) {
      ExtensionIsConnected(oldPackages, oldTip, newPackages, newTip, membershipContract, authorizationContract);
    }
  }

  lemma ExtensionIsConnected(oldPackages: seq<HandoffPackage>, oldTip: ChainRef, newPackages: seq<HandoffPackage>,
                             newTip: ChainRef, membershipContract: Digest, authorizationContract: Digest)
    requires membershipContract != Zero && authorizationContract != Zero
    requires ValidHandoffHistory(oldPackages, oldTip) && ValidHandoffHistory(newPackages, newTip)
    requires |oldPackages| < |newPackages| && oldPackages == newPackages[..|oldPackages|]
    requires GenesisOf(oldTip) == GenesisOf(newTip)
    ensures exists p :: Connects(p, oldPackages, oldTip, newPackages, newTip, membershipContract, authorizationContract)
  {
    hide ValidHandoffHistory, VerifyHandoffConsistency, Replay, RecordAt, BuildBlocks, Root, Path, CommitmentsOf;
    HistoryLengths(oldPackages, oldTip);
    HistoryLengths(newPackages, newTip);
    var before, after := Handoffs(oldPackages, GenesisOf(oldTip)), Handoffs(newPackages, GenesisOf(newTip));
    CommitmentPrefixExact(oldPackages, oldTip, newPackages, newTip);
    var p := AssembledExists(before, oldTip, after, newTip, membershipContract, authorizationContract);
    BuiltHandoffPackageVerifies(oldPackages, oldTip, newPackages, newTip, membershipContract, authorizationContract, p);
    assert Connects(p, oldPackages, oldTip, newPackages, newTip, membershipContract, authorizationContract);
  }

  ghost predicate TipBound(handoffs: seq<HandoffRecord>, tip: ChainRef) {
    var leaves := LeafHashes(StepCommitments(handoffs));
    |handoffs| > 0 && PathAccepts(Leaf(|handoffs|, tip.stepCommitment), |handoffs| - 1, |handoffs|,
                                  Path(leaves, |handoffs| - 1), Root(leaves), true)
  }

  lemma LastCommitmentIsTheTips(packages: seq<HandoffPackage>, tip: ChainRef)
    requires ValidHandoffHistory(packages, tip)
    ensures RecordAt(packages, GenesisOf(tip), |packages| - 1).commitment == tip.stepCommitment
  {
    hide Replay, StepOf, VerifyHandoff, ValidRef;
    assert packages[..|packages|] == packages;
    RunInvariant(packages, GenesisOf(tip));
  }

  lemma TipIsBound(packages: seq<HandoffPackage>, tip: ChainRef)
    requires ValidHandoffHistory(packages, tip)
    ensures TipBound(Handoffs(packages, GenesisOf(tip)), tip)
  {
    hide Replay, RecordAt, Root, Path, PathAccepts;
    var handoffs := Handoffs(packages, GenesisOf(tip));
    LastCommitmentIsTheTips(packages, tip);
    BuiltHandoffPathsFit(handoffs, |handoffs| - 1);
  }

  lemma AssembledVerifies(before: seq<HandoffRecord>, oldTip: ChainRef, after: seq<HandoffRecord>, newTip: ChainRef,
                          membershipContract: Digest, authorizationContract: Digest, p: HandoffConsistencyPackage)
    requires 0 < |before| < |after| && StepCommitments(after)[..|before|] == StepCommitments(before)
    requires membershipContract != Zero && authorizationContract != Zero
    requires ValidRef(oldTip) && ValidRef(newTip) && GenesisOf(oldTip) == GenesisOf(newTip)
    requires oldTip.completedHandoffs == |before| && newTip.completedHandoffs == |after|
    requires oldTip.policyId == newTip.policyId && oldTip.currentPolicyEpoch < newTip.currentPolicyEpoch
    requires TipBound(before, oldTip) && TipBound(after, newTip)
    requires Assembled(before, oldTip, after, newTip, membershipContract, authorizationContract, p)
    ensures VerifyHandoffConsistency(p).None?
  {
    hide ValidRef, ValidHandoffAnchor, FrontierAccepts, BuildBlocks, Root, Path, PathAccepts, HandoffContextFault,
      CurrentStepBound, TipBound, VerifyHandoffConsistency;
    AnchorFits(before, oldTip, membershipContract, authorizationContract);
    AnchorFits(after, newTip, membershipContract, authorizationContract);
    LineageConsistency.BuiltBlocksExist(StepCommitments(before), StepCommitments(after), true);
    AssembledContext(before, oldTip, after, newTip, membershipContract, authorizationContract, p);
    TipIsCurrent(before, oldTip, membershipContract, authorizationContract);
    TipIsCurrent(after, newTip, membershipContract, authorizationContract);
    AcceptedHandoffParts(p);
  }

  lemma AssembledContext(before: seq<HandoffRecord>, oldTip: ChainRef, after: seq<HandoffRecord>, newTip: ChainRef,
                         membershipContract: Digest, authorizationContract: Digest, p: HandoffConsistencyPackage)
    requires 0 < |before| < |after| && GenesisOf(oldTip) == GenesisOf(newTip)
    requires oldTip.completedHandoffs == |before| && newTip.completedHandoffs == |after|
    requires oldTip.policyId == newTip.policyId && oldTip.currentPolicyEpoch < newTip.currentPolicyEpoch
    requires Assembled(before, oldTip, after, newTip, membershipContract, authorizationContract, p)
    ensures HandoffContextFault(p.oldEndpoint.anchor, p.newEndpoint.anchor, p.proof).None?
  {
    hide BuildBlocks, Root, Path;
  }

  lemma TipIsCurrent(handoffs: seq<HandoffRecord>, tip: ChainRef, membershipContract: Digest,
                     authorizationContract: Digest)
    requires TipBound(handoffs, tip) && tip.completedHandoffs == |handoffs|
    ensures CurrentStepBound(HandoffAnchorFrom(handoffs, tip, membershipContract, authorizationContract),
                             Path(LeafHashes(StepCommitments(handoffs)), |handoffs| - 1))
  {
    hide Root, Path, PathAccepts;
  }

  lemma AcceptedHandoffParts(p: HandoffConsistencyPackage)
    requires ValidHandoffAnchor(p.oldEndpoint.anchor, p.oldEndpoint.currentRef)
    requires ValidHandoffAnchor(p.newEndpoint.anchor, p.newEndpoint.currentRef)
    requires var a, b, proof := p.oldEndpoint.anchor, p.newEndpoint.anchor, p.proof;
             && 0 < a.treeSize < b.treeSize
             && HandoffContextFault(a, b, proof).None?
             && FrontierAccepts(a.treeSize, b.treeSize, a.merkleRoot, b.merkleRoot, proof.oldFrontier,
                                proof.appendBlocks, true)
             && CurrentStepBound(a, proof.oldCurrentPath) && CurrentStepBound(b, proof.newCurrentPath)
    ensures VerifyHandoffConsistency(p).None?
  {
    hide ValidHandoffAnchor, HandoffContextFault, CurrentStepBound, FrontierVerdict;
  }

  // ---------------------------------------------------------------- histories

  /** For two real histories: an accepted package between their anchors means that the newer history starts with
      exactly the older history's packages, from the same genesis, and passes through the older tip. */
  lemma AcceptedHandoffHistoriesExtend(p: HandoffConsistencyPackage, oldPackages: seq<HandoffPackage>, oldTip: ChainRef,
                                       newPackages: seq<HandoffPackage>, newTip: ChainRef, membershipContract: Digest,
                                       authorizationContract: Digest)
    requires ValidHandoffHistory(oldPackages, oldTip) && ValidHandoffHistory(newPackages, newTip)
    requires p.oldEndpoint.anchor == HandoffAnchorFrom(Handoffs(oldPackages, GenesisOf(oldTip)), oldTip,
                                                       membershipContract, authorizationContract)
    requires p.newEndpoint.anchor == HandoffAnchorFrom(Handoffs(newPackages, GenesisOf(newTip)), newTip,
                                                       membershipContract, authorizationContract)
    requires VerifyHandoffConsistency(p).None?
    ensures |oldPackages| < |newPackages| && oldPackages == newPackages[..|oldPackages|]
    ensures GenesisOf(oldTip) == GenesisOf(newTip)
    ensures RecordAt(newPackages, GenesisOf(newTip), |oldPackages| - 1).ref == oldTip
  {
    hide VerifyHandoffConsistency, Root, Replay, RecordAt;
    HistoryLengths(oldPackages, oldTip);
    HistoryLengths(newPackages, newTip);
    HandoffConsistencySound(p, CommitmentsOf(oldPackages, oldTip), CommitmentsOf(newPackages, newTip));
    CommitmentPrefixExact(oldPackages, oldTip, newPackages, newTip);
    PrefixReachesOldTip(oldPackages, oldTip, newPackages, newTip);
  }

  // ---------------------------------------------------------------- authority statements

  datatype HandoffStatementError =
    | HandoffStatementAnchorInvalid
    | HandoffStatementUnverified
    | HandoffStatementAuthorityInvalid
    | HandoffStatementSequenceInvalid
    | HandoffStatementProvenanceInvalid
    | HandoffStatementSeedPredecessorInvalid
    | HandoffStatementPredecessorInvalid
    | HandoffStatementRejected

  predicate ValidAnchorStatement(s: HandoffAnchorStatement, a: HandoffAnchor, tip: ChainRef) {
    && ValidHandoffAnchor(a, tip)
    && s.verified
    && NonEmpty(s.authorityId)
    && s.sequence > 0
    && (if s.sequence == 1 then s.previousStatement == Zero else s.previousStatement != Zero)
    && s.provenance != Zero
    && s.chainId == a.chainId
    && s.policyId == a.policyId
    && s.genesisPolicyEpoch == a.genesisPolicyEpoch
    && s.genesisPolicy == a.genesisPolicy
    && s.treeSize == a.treeSize
    && s.anchor == DigestOf(HandoffAnchorJson(a))
    && s.membershipRoot == a.merkleRoot
    && s.currentChainRef == RefDigest(tip)
    && s.currentChainRoot == a.currentChainRoot
    && s.currentStepCommitment == a.currentStepCommitment
    && s.currentPolicyEpoch == a.currentPolicyEpoch
    && s.currentPolicy == a.currentPolicy
    && s.treeAlgorithm == a.treeAlgorithm
    && s.chainContract == a.chainContract
    && s.chainAuthorizationContract == a.chainAuthorizationContract
    && s.membershipContract == a.membershipContract
    && s.authorizationContract == a.authorizationContract
  }

  function BuildAnchorStatement(a: HandoffAnchor, tip: ChainRef, verified: bool, authorityId: string, sequence: int,
                                previousStatement: Digest, provenance: Digest)
    : Result<HandoffAnchorStatement, HandoffStatementError>
  {
    if !ValidHandoffAnchor(a, tip) then Err(HandoffStatementAnchorInvalid)
    else if !verified then Err(HandoffStatementUnverified)
    else if !NonEmpty(authorityId) then Err(HandoffStatementAuthorityInvalid)
    else if sequence <= 0 then Err(HandoffStatementSequenceInvalid)
    else if provenance == Zero then Err(HandoffStatementProvenanceInvalid)
    else if sequence == 1 && previousStatement != Zero then Err(HandoffStatementSeedPredecessorInvalid)
    else if sequence != 1 && previousStatement == Zero then Err(HandoffStatementPredecessorInvalid)
    else
      var s := HandoffAnchorStatement(true, authorityId, sequence, previousStatement, provenance, a.chainId, a.policyId,
        a.genesisPolicyEpoch, a.genesisPolicy, a.treeSize, DigestOf(HandoffAnchorJson(a)), a.merkleRoot, RefDigest(tip),
        a.currentChainRoot, a.currentStepCommitment, a.currentPolicyEpoch, a.currentPolicy, a.treeAlgorithm,
        a.chainContract, a.chainAuthorizationContract, a.membershipContract, a.authorizationContract);
      if !ValidAnchorStatement(s, a, tip) then Err(HandoffStatementRejected) else Ok(s)
  }

  /** Building and validating agree: the builder reaches exactly the valid statements, and its self-check is dead. */
  lemma AnchorStatementsAreTheBuiltOnes(a: HandoffAnchor, tip: ChainRef, s: HandoffAnchorStatement)
    ensures ValidAnchorStatement(s, a, tip)
       <==> BuildAnchorStatement(a, tip, s.verified, s.authorityId, s.sequence, s.previousStatement, s.provenance) ==
            Ok(s)
    ensures BuildAnchorStatement(a, tip, s.verified, s.authorityId, s.sequence, s.previousStatement, s.provenance)
            != Err(HandoffStatementRejected)
  {
    hide ValidHandoffAnchor;
  }

  /** No other field of a valid anchor statement is free. */
  lemma AnchorStatementIsDetermined(s: HandoffAnchorStatement, t: HandoffAnchorStatement, a: HandoffAnchor,
                                    tip: ChainRef)
    requires ValidAnchorStatement(s, a, tip) && ValidAnchorStatement(t, a, tip)
    requires s.authorityId == t.authorityId && s.sequence == t.sequence && s.previousStatement == t.previousStatement
    requires s.provenance == t.provenance
    ensures s == t
  {
    hide ValidHandoffAnchor;
  }

  datatype HandoffAuthorityFault =
    | HandoffInconsistent(fault: HandoffConsistencyFault)
    | OldAnchorStatementInvalid
    | NewAnchorStatementInvalid
    | StatementAuthorityMismatch
    | StatementSequenceDiscontinuity
    | StatementPredecessorMismatch

  function AnchorStatementDigest(s: HandoffAnchorStatement): Digest {
    DigestOf(HandoffAnchorStatementJson(s))
  }

  function VerifyHandoffAuthorized(p: HandoffConsistencyPackage, before: HandoffAnchorStatement,
                                   after: HandoffAnchorStatement): Option<HandoffAuthorityFault>
  {
    var fault := VerifyHandoffConsistency(p);
    if fault.Some? then Some(HandoffInconsistent(fault.value))
    else if !ValidAnchorStatement(before, p.oldEndpoint.anchor, p.oldEndpoint.currentRef) then
      Some(OldAnchorStatementInvalid)
    else if !ValidAnchorStatement(after, p.newEndpoint.anchor, p.newEndpoint.currentRef) then
      Some(NewAnchorStatementInvalid)
    else if before.authorityId != after.authorityId then Some(StatementAuthorityMismatch)
    else if after.sequence != before.sequence + 1 then Some(StatementSequenceDiscontinuity)
    else if after.previousStatement != AnchorStatementDigest(before) then Some(StatementPredecessorMismatch)
    else None
  }

  // ---------------------------------------------------------------- equivocation

  predicate ComparableStatements(a: HandoffAnchorStatement, b: HandoffAnchorStatement) {
    && a.authorityId == b.authorityId
    && a.chainId == b.chainId
    && a.policyId == b.policyId
    && a.genesisPolicyEpoch == b.genesisPolicyEpoch
    && a.genesisPolicy == b.genesisPolicy
    && a.treeAlgorithm == b.treeAlgorithm
    && a.chainContract == b.chainContract
    && a.chainAuthorizationContract == b.chainAuthorizationContract
    && a.membershipContract == b.membershipContract
    && a.authorizationContract == b.authorizationContract
  }

  function StatementConflict(a: HandoffAnchorStatement, b: HandoffAnchorStatement): Option<ConflictMode> {
    if !ComparableStatements(a, b) then None
    else if a.sequence == b.sequence && a.previousStatement == b.previousStatement && a.anchor != b.anchor then
      Some(SameSequenceConflict)
    else if a.treeSize == b.treeSize && a.membershipRoot != b.membershipRoot then
      Some(SameSizeRootConflict)
    else None
  }

  datatype HandoffEquivocation = HandoffEquivocation(
    mode: Option<ConflictMode>, authorityId: Option<string>, statementA: Digest, statementB: Digest, anchorA: Digest,
    anchorB: Digest, refA: Digest, refB: Digest, treeSizeA: int, treeSizeB: int, rootA: MerkleHash, rootB: MerkleHash)

  /** None when a statement does not fit its anchor; otherwise the evidence, whose mode says whether they conflict. */
  function DetectHandoffEquivocation(anchorA: HandoffAnchor, tipA: ChainRef, a: HandoffAnchorStatement,
                                     anchorB: HandoffAnchor, tipB: ChainRef, b: HandoffAnchorStatement)
    : Option<HandoffEquivocation>
  {
    if !ValidAnchorStatement(a, anchorA, tipA) || !ValidAnchorStatement(b, anchorB, tipB) then None
    else Some(HandoffEquivocation(StatementConflict(a, b),
      if ComparableStatements(a, b) then Some(a.authorityId) else None,
      AnchorStatementDigest(a), AnchorStatementDigest(b),
      DigestOf(HandoffAnchorJson(anchorA)), DigestOf(HandoffAnchorJson(anchorB)), RefDigest(tipA), RefDigest(tipB),
      anchorA.treeSize, anchorB.treeSize, anchorA.merkleRoot, anchorB.merkleRoot))
  }

  lemma HandoffAuthorizedFacts(p: HandoffConsistencyPackage, before: HandoffAnchorStatement,
                               after: HandoffAnchorStatement)
    requires VerifyHandoffAuthorized(p, before, after).None?
    ensures ValidAnchorStatement(before, p.oldEndpoint.anchor, p.oldEndpoint.currentRef)
    ensures ValidAnchorStatement(after, p.newEndpoint.anchor, p.newEndpoint.currentRef)
    ensures ComparableStatements(before, after) && after.sequence == before.sequence + 1
    ensures after.previousStatement == AnchorStatementDigest(before)
  {
    hide ValidHandoffAnchor, VerifyHandoffConsistency;
    AcceptedHandoffConsistency(p);
  }

  /** Two accepted successors of one statement conflict exactly when they name different anchors, and then the
      detector reports the same-sequence conflict of that authority. */
  lemma SplitHandoffSuccessorsAreDetected(p: HandoffConsistencyPackage, q: HandoffConsistencyPackage,
                                          before: HandoffAnchorStatement, a: HandoffAnchorStatement,
                                          b: HandoffAnchorStatement)
    requires VerifyHandoffAuthorized(p, before, a).None? && VerifyHandoffAuthorized(q, before, b).None?
    ensures var evidence := DetectHandoffEquivocation(p.newEndpoint.anchor, p.newEndpoint.currentRef, a,
                                                      q.newEndpoint.anchor, q.newEndpoint.currentRef, b);
            && evidence.Some?
            && evidence.value.authorityId == Some(before.authorityId)
            && evidence.value.mode == (if p.newEndpoint.anchor == q.newEndpoint.anchor then None
                                       else Some(SameSequenceConflict))
  {
    hide VerifyHandoffAuthorized, ValidHandoffAnchor;
    HandoffAuthorizedFacts(p, before, a);
    HandoffAuthorizedFacts(q, before, b);
  }

  // ---------------------------------------------------------------- whole statement logs

  datatype ChainContext = ChainContext(
    authorityId: string, chainId: string, policyId: string, genesisPolicyEpoch: int, genesisPolicy: Digest,
    treeAlgorithm: Algorithm, chainContract: Digest, chainAuthorizationContract: Digest, membershipContract: Digest,
    authorizationContract: Digest)

  function EntryOf(s: HandoffAnchorStatement): Entry<ChainContext> {
    Entry(ChainContext(s.authorityId, s.chainId, s.policyId, s.genesisPolicyEpoch, s.genesisPolicy, s.treeAlgorithm,
                       s.chainContract, s.chainAuthorizationContract, s.membershipContract, s.authorizationContract),
          s.sequence, s.previousStatement, AnchorStatementDigest(s), s.anchor, s.treeSize, s.membershipRoot)
  }

  datatype PublishedHandoff = PublishedHandoff(endpoint: HandoffEndpoint, statement: HandoffAnchorStatement)

  predicate HandoffFits(x: PublishedHandoff) {
    ValidAnchorStatement(x.statement, x.endpoint.anchor, x.endpoint.currentRef)
  }

  ghost predicate HandoffSucceeds(before: PublishedHandoff, after: PublishedHandoff) {
    exists proof :: VerifyHandoffAuthorized(HandoffConsistencyPackage(before.endpoint, after.endpoint, proof),
                                            before.statement, after.statement).None?
  }

  /** What a client of one authority collects: a first statement, then one accepted package for every later one. */
  ghost predicate HandoffLog(log: seq<PublishedHandoff>) {
    |log| > 0 && HandoffFits(log[0]) && forall i :: 0 < i < |log| ==> HandoffSucceeds(log[i - 1], log[i])
  }

  function Entries(log: seq<PublishedHandoff>): (r: seq<Entry<ChainContext>>)
    ensures |r| == |log|
    ensures forall i :: 0 <= i < |r| ==> r[i] == EntryOf(log[i].statement)
  {
    seq(|log|, i requires 0 <= i < |log| => EntryOf(log[i].statement))
  }

  lemma HandoffSucceedsFollows(before: PublishedHandoff, after: PublishedHandoff)
    requires HandoffSucceeds(before, after)
    ensures HandoffFits(before) && HandoffFits(after) && Follows(EntryOf(before.statement), EntryOf(after.statement))
  {
    hide VerifyHandoffAuthorized, VerifyHandoffConsistency, ValidHandoffAnchor, FrontierAccepts, CurrentStepBound,
      SharedContextFault;
    var proof :| VerifyHandoffAuthorized(HandoffConsistencyPackage(before.endpoint, after.endpoint, proof),
                                         before.statement, after.statement).None?;
    var p := HandoffConsistencyPackage(before.endpoint, after.endpoint, proof);
    HandoffAuthorizedFacts(p, before.statement, after.statement);
    HandoffAuthorizedIsConsistent(p, before.statement, after.statement);
    AcceptedHandoffConsistency(p);
  }

  lemma HandoffAuthorizedIsConsistent(p: HandoffConsistencyPackage, before: HandoffAnchorStatement,
                                      after: HandoffAnchorStatement)
    requires VerifyHandoffAuthorized(p, before, after).None?
    ensures VerifyHandoffConsistency(p).None?
  {
    hide VerifyHandoffConsistency, ValidAnchorStatement;
  }

  lemma HandoffLogIsLog(log: seq<PublishedHandoff>)
    requires HandoffLog(log)
    ensures Log(Entries(log)) && forall x :: x in log ==> HandoffFits(x)
  {
    hide HandoffSucceeds, HandoffFits, Follows;
    forall i | 0 < i < |log| ensures Follows(Entries(log)[i - 1], Entries(log)[i]) && HandoffFits(log[i]) {
      HandoffSucceedsFollows(log[i - 1], log[i]);
    }
  }

  lemma FittingHandoffEntries(x: PublishedHandoff, y: PublishedHandoff)
    requires HandoffFits(x) && HandoffFits(y)
    ensures EntryOf(x.statement).statement == EntryOf(y.statement).statement ==> x.statement == y.statement
    ensures EntryOf(x.statement).anchor == EntryOf(y.statement).anchor <==> x.endpoint.anchor == y.endpoint.anchor
    ensures x.endpoint.anchor == y.endpoint.anchor ==>
              && EntryOf(x.statement).treeSize == EntryOf(y.statement).treeSize
              && EntryOf(x.statement).root == EntryOf(y.statement).root
    ensures EntryConflict(EntryOf(x.statement), EntryOf(y.statement)) == StatementConflict(x.statement, y.statement)
  {
    hide ValidHandoffAnchor;
  }

  lemma HandoffLogsAreFaithful(a: seq<PublishedHandoff>, b: seq<PublishedHandoff>)
    requires HandoffLog(a) && HandoffLog(b)
    ensures Faithful(Entries(a), Entries(b))
  {
    hide HandoffLog, HandoffFits, EntryOf;
    HandoffLogIsLog(a);
    HandoffLogIsLog(b);
    forall x, y | x in Entries(a) && y in Entries(b)
      ensures x.statement == y.statement ==> x == y
      ensures x.anchor == y.anchor ==> x.treeSize == y.treeSize && x.root == y.root
    {
      var i :| 0 <= i < |a| && x == EntryOf(a[i].statement);
      var j :| 0 <= j < |b| && y == EntryOf(b[j].statement);
      FittingHandoffEntries(a[i], b[j]);
    }
  }

  /** The detector accepts both statements and reports a conflict. */
  predicate HandoffReported(x: PublishedHandoff, y: PublishedHandoff) {
    var evidence := DetectHandoffEquivocation(x.endpoint.anchor, x.endpoint.currentRef, x.statement, y.endpoint.anchor,
                                              y.endpoint.currentRef, y.statement);
    evidence.Some? && evidence.value.mode.Some?
  }

  ghost predicate SomeHandoffReported(a: seq<PublishedHandoff>, b: seq<PublishedHandoff>) {
    exists i, j :: 0 <= i < |a| && 0 <= j < |b| && HandoffReported(a[i], b[j])
  }

  lemma HandoffReportsAreEntryConflicts(a: seq<PublishedHandoff>, b: seq<PublishedHandoff>)
    requires HandoffLog(a) && HandoffLog(b)
    ensures forall i, j :: 0 <= i < |a| && 0 <= j < |b| ==>
              (HandoffReported(a[i], b[j]) <==> EntryConflict(Entries(a)[i], Entries(b)[j]).Some?)
    ensures SomeHandoffReported(a, b) <==> SomeConflict(Entries(a), Entries(b))
  {
    hide HandoffLog, EntryOf, StatementConflict, ValidAnchorStatement, EntryConflict;
    HandoffLogIsLog(a);
    HandoffLogIsLog(b);
    forall i, j | 0 <= i < |a| && 0 <= j < |b|
      ensures HandoffReported(a[i], b[j]) <==> EntryConflict(Entries(a)[i], Entries(b)[j]).Some?
    {
      FittingHandoffEntries(a[i], b[j]);
    }
  }

  /** Two whole logs that split at d: some pair of their statements is reported exactly when the two statements at d
      name different anchors, or the logs later publish one tree size with different roots. If the anchors at d are the
      same, the two statements there are twins: they differ in provenance and nothing else. */
  lemma SplitHandoffLogsAreDetected(a: seq<PublishedHandoff>, b: seq<PublishedHandoff>, d: nat)
    requires HandoffLog(a) && HandoffLog(b) && SplitAt(Entries(a), Entries(b), d)
    ensures SomeHandoffReported(a, b)
       <==> a[d].endpoint.anchor != b[d].endpoint.anchor || SizesMeetWithTwoRoots(Entries(a), Entries(b), d)
    ensures a[d].endpoint.anchor != b[d].endpoint.anchor ==> HandoffReported(a[d], b[d])
    ensures a[d].endpoint.anchor == b[d].endpoint.anchor ==>
              a[d].statement == b[d].statement.(provenance := a[d].statement.provenance)
  {
    hide HandoffLog, HandoffReported, SomeHandoffReported, HandoffFits, StatementConflict, EntryConflict,
      SizesMeetWithTwoRoots, SomeConflict, Faithful;
    HandoffLogIsLog(a);
    HandoffLogIsLog(b);
    HandoffLogsAreFaithful(a, b);
    SplitDetectionExact(Entries(a), Entries(b), d);
    HandoffReportsAreEntryConflicts(a, b);
    FittingHandoffEntries(a[d], b[d]);
    if a[d].endpoint.anchor == b[d].endpoint.anchor {
      HandoffTwins(a[d], b[d]);
    }
  }

  lemma HandoffTwins(x: PublishedHandoff, y: PublishedHandoff)
    requires HandoffFits(x) && HandoffFits(y) && x.endpoint.anchor == y.endpoint.anchor
    requires x.statement.authorityId == y.statement.authorityId && x.statement.sequence == y.statement.sequence
    requires x.statement.previousStatement == y.statement.previousStatement
    ensures x.statement == y.statement.(provenance := x.statement.provenance)
  {
    hide ValidHandoffAnchor;
    assert x.endpoint.currentRef == y.endpoint.currentRef by {
      SameHandoffEndpoint(x.endpoint, y.endpoint);
    }
    AnchorStatementIsDetermined(x.statement, y.statement.(provenance := x.statement.provenance), x.endpoint.anchor,
                                x.endpoint.currentRef);
  }

  /** An authority that only ever extends one log is never reported, and two logs from sequence 1 either nest or
      split. */
  lemma SeededHandoffLogsNestOrSplit(a: seq<PublishedHandoff>, b: seq<PublishedHandoff>) returns (d: nat)
    requires HandoffLog(a) && HandoffLog(b)
    requires a[0].statement.sequence == b[0].statement.sequence == 1
    requires ComparableStatements(a[0].statement, b[0].statement)
    ensures SplitAt(Entries(a), Entries(b), d)
         || ((Entries(a) <= Entries(b) || Entries(b) <= Entries(a)) && !SomeHandoffReported(a, b))
  {
    hide SomeHandoffReported, SomeConflict, HandoffSucceeds, ValidHandoffAnchor, SplitAt, Log;
    HandoffLogIsLog(a);
    HandoffLogIsLog(b);
    HandoffReportsAreEntryConflicts(a, b);
    d := LogsNestOrSplit(Entries(a), Entries(b));
    if Entries(a) <= Entries(b) {
      NestedLogsNeverConflict(Entries(a), Entries(b));
    } else if Entries(b) <= Entries(a) {
      NestedLogsNeverConflict(Entries(b), Entries(a));
      ConflictsAreMutual(Entries(a), Entries(b));
    }
  }

  // ---------------------------------------------------------------- one proof per pair of anchors

  lemma AcceptedHandoffContext(p: HandoffConsistencyPackage)
    requires VerifyHandoffConsistency(p).None?
    ensures HandoffContextFault(p.oldEndpoint.anchor, p.newEndpoint.anchor, p.proof).None?
  {
    hide ValidHandoffAnchor, HandoffContextFault, CurrentStepBound, FrontierVerdict;
  }

  lemma SameHandoffEndpoint(e: HandoffEndpoint, f: HandoffEndpoint)
    requires ValidHandoffAnchor(e.anchor, e.currentRef) && ValidHandoffAnchor(f.anchor, f.currentRef)
             && e.anchor == f.anchor
    ensures e == f
  {
    hide ValidRef;
  }

  lemma SameHandoffHeader(p: HandoffConsistencyPackage, q: HandoffConsistencyPackage)
    requires p.oldEndpoint == q.oldEndpoint && p.newEndpoint == q.newEndpoint
    requires HandoffContextFault(p.oldEndpoint.anchor, p.newEndpoint.anchor, p.proof).None?
    requires HandoffContextFault(q.oldEndpoint.anchor, q.newEndpoint.anchor, q.proof).None?
    requires p.proof.oldFrontier == q.proof.oldFrontier && p.proof.appendBlocks == q.proof.appendBlocks
    requires p.proof.oldCurrentPath == q.proof.oldCurrentPath && p.proof.newCurrentPath == q.proof.newCurrentPath
    ensures p == q
  {
    hide SharedContextFault;
  }

  /** Between any two anchors, real or not, there is at most one accepted package. */
  lemma HandoffConsistencyProofIsUnique(p: HandoffConsistencyPackage, q: HandoffConsistencyPackage)
    requires VerifyHandoffConsistency(p).None? && VerifyHandoffConsistency(q).None?
    requires p.oldEndpoint.anchor == q.oldEndpoint.anchor && p.newEndpoint.anchor == q.newEndpoint.anchor
    ensures p == q
  {
    hide VerifyHandoffConsistency, ValidHandoffAnchor, HandoffContextFault, SharedContextFault, PathAccepts,
      FrontierAccepts;
    var a, b := p.oldEndpoint.anchor, p.newEndpoint.anchor;
    AcceptedHandoffConsistency(p);
    AcceptedHandoffConsistency(q);
    AcceptedHandoffContext(p);
    AcceptedHandoffContext(q);
    SameHandoffEndpoint(p.oldEndpoint, q.oldEndpoint);
    SameHandoffEndpoint(p.newEndpoint, q.newEndpoint);
    FrontierIsUnique(a.treeSize, b.treeSize, a.merkleRoot, b.merkleRoot, p.proof.oldFrontier, p.proof.appendBlocks,
                     q.proof.oldFrontier, q.proof.appendBlocks, true);
    var oldLeaf, newLeaf := Leaf(a.treeSize, a.currentStepCommitment), Leaf(b.treeSize, b.currentStepCommitment);
    PathsAreUnique(oldLeaf, p.proof.oldCurrentPath, oldLeaf, q.proof.oldCurrentPath, a.treeSize - 1, a.treeSize,
                   a.merkleRoot, true);
    PathsAreUnique(newLeaf, p.proof.newCurrentPath, newLeaf, q.proof.newCurrentPath, b.treeSize - 1, b.treeSize,
                   b.merkleRoot, true);
    SameHandoffHeader(p, q);
  }
}
