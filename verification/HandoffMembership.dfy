/** Whole-history validation, membership anchors and selective disclosure of one policy handoff. */
module HandoffMembership {
  import opened Prelude
  import opened MerkleTree
  import opened Records
  import opened LineageMembership
  import opened LineageWitness
  import opened WitnessHandoff
  import opened HandoffChain

  /** One validated handoff, which is also what a disclosure reveals about it. */
  datatype HandoffRecord = HandoffRecord(handoffIndex: int, previousRef: Option<ChainRef>, package: HandoffPackage,
                                         step: ChainStep, ref: ChainRef, commitment: Digest)

  datatype HandoffHistoryError =
    | HandoffPackagesEmpty
    | CurrentRefInvalid
    | PackageCountMismatch
    | ChainFailure(error: ChainError)
    | HandoffIndexNotContiguous
    | StepCommitmentMismatch
    | CurrentRefNotHistoryTip

  // ---------------------------------------------------------------- history

  /** A complete package list whose replay, from the genesis the tip names, ends in the tip. */
  predicate ValidHandoffHistory(packages: seq<HandoffPackage>, tip: ChainRef) {
    |packages| > 0 && Replay(packages, GenesisOf(tip)).Ok? && Replay(packages, GenesisOf(tip)).value.ref == tip
  }

  /** The link reached after the first i packages. */
  function LinkAt(packages: seq<HandoffPackage>, g: Genesis, i: nat): ChainLink
    requires 0 < i <= |packages| && Replay(packages, g).Ok?
  {
    PrefixReplays(packages, g, i);
    Replay(packages[..i], g).value
  }

  function RecordAt(packages: seq<HandoffPackage>, g: Genesis, i: nat): HandoffRecord
    requires i < |packages| && Replay(packages, g).Ok?
  {
    var link := LinkAt(packages, g, i + 1);
    HandoffRecord(i + 1, if i == 0 then None else Some(LinkAt(packages, g, i).ref), packages[i], link.step, link.ref,
                  StepDigest(link.step))
  }

  function Handoffs(packages: seq<HandoffPackage>, g: Genesis): (r: seq<HandoffRecord>)
    requires |packages| > 0 && Replay(packages, g).Ok?
    ensures |r| == |packages|
    ensures forall i :: 0 <= i < |r| ==> r[i] == RecordAt(packages, g, i)
  {
    seq(|packages|, i requires 0 <= i < |packages| => RecordAt(packages, g, i))
  }

  /** How one record of a run hangs together with its predecessor. */
  lemma RecordFacts(packages: seq<HandoffPackage>, g: Genesis, i: nat)
    requires i < |packages| && Replay(packages, g).Ok?
    ensures var r := RecordAt(packages, g, i);
            && r.previousRef == (if i == 0 then None else Some(RecordAt(packages, g, i - 1).ref))
            && (i == 0 ==> SeedChain(packages[0], g) == Ok(ChainLink(r.step, r.ref)))
            && (i > 0 ==> AdvanceChain(RecordAt(packages, g, i - 1).ref, packages[i]) == Ok(ChainLink(r.step, r.ref)))
            && GenesisOf(r.ref) == g
            && r.ref.completedHandoffs == i + 1 == r.step.handoffIndex
            && r.ref.stepCommitment == r.commitment == StepDigest(r.step)
            && r.step.handoffPackage == HandoffPackageDigest(packages[i])
            && (i > 0 ==> r.step.previousChainRef == RefDigest(RecordAt(packages, g, i - 1).ref))
            && ValidRef(r.ref)
            && r.ref.policyId == packages[0].oldActive.policy.policyId
  {
    hide SeedChain, AdvanceChain, ValidRef, VerifyHandoff;
    PrefixReplays(packages, g, i + 1);
    RunInvariant(packages[..i + 1], g);
    RunIsContiguous(packages, g, i);
    assert packages[..i + 1][..i] == packages[..i];
    if i > 0 {
      PrefixReplays(packages, g, i);
    }
  }

  lemma RecordSnoc(packages: seq<HandoffPackage>, g: Genesis, k: nat, i: nat)
    requires i < k <= |packages| && Replay(packages, g).Ok?
    ensures Replay(packages[..k], g).Ok?
    ensures RecordAt(packages[..k], g, i) == RecordAt(packages, g, i)
  {
    hide Replay, SeedChain, AdvanceChain;
    PrefixReplays(packages, g, k);
    assert packages[..k][..i + 1] == packages[..i + 1] && packages[..k][..i] == packages[..i];
  }

  /** The first reason `_validate_handoff_history` gives, or None. */
  function HistoryFault(packages: seq<HandoffPackage>, tip: ChainRef): Option<HandoffHistoryError> {
    if |packages| == 0 then Some(HandoffPackagesEmpty)
    else if !ValidRef(tip) then Some(CurrentRefInvalid)
    else if |packages| != tip.completedHandoffs then Some(PackageCountMismatch)
    else
      match Replay(packages, GenesisOf(tip))
      case Err(e) => Some(ChainFailure(e))
      case Ok(link) => if link.ref != tip then Some(CurrentRefNotHistoryTip) else None
  }

  lemma HistoryFaultExact(packages: seq<HandoffPackage>, tip: ChainRef)
    ensures HistoryFault(packages, tip).None? <==> ValidHandoffHistory(packages, tip)
    ensures ValidHandoffHistory(packages, tip) ==> |packages| == tip.completedHandoffs && ValidRef(tip)
  {
    hide Replay, ValidRef;
    if ValidHandoffHistory(packages, tip) {
      RunInvariant(packages, GenesisOf(tip));
    }
  }

  /** One pass over the packages; the two re-checks inside the loop are dead, so the verdict is `HistoryFault`. */
  method ValidateHandoffHistory(packages: seq<HandoffPackage>, tip: ChainRef)
    returns (r: Result<seq<HandoffRecord>, HandoffHistoryError>)
    ensures r.Err? <==> HistoryFault(packages, tip).Some?
    ensures r.Err? ==> r.error == HistoryFault(packages, tip).value
    ensures r.Ok? ==> ValidHandoffHistory(packages, tip) && r.value == Handoffs(packages, GenesisOf(tip))
  {
    hide SeedChain, AdvanceChain, ValidRef, VerifyHandoff, StepOf, Replay, RecordAt, LinkDescribes;
    if |packages| == 0 {
      return Err(HandoffPackagesEmpty);
    }
    if !ValidRef(tip) {
      return Err(CurrentRefInvalid);
    }
    if |packages| != tip.completedHandoffs {
      return Err(PackageCountMismatch);
    }
    var g := GenesisOf(tip);
    var validated: seq<HandoffRecord> := [];
    var previous: Option<ChainRef> := None;
    for i := 0 to |packages|
      invariant |validated| == i
      invariant i > 0 ==> Replay(packages[..i], g).Ok? && previous == Some(Replay(packages[..i], g).value.ref)
      invariant i > 0 ==> forall k :: 0 <= k < i ==> validated[k] == RecordAt(packages[..i], g, k)
      invariant i == 0 ==> previous == None
    {
      var result := if previous.None? then SeedChain(packages[i], g) else AdvanceChain(previous.value, packages[i]);
      ReplayStep(packages, g, i, result);
      if result.Err? {
        ReplayStops(packages, i + 1, g);
        return Err(ChainFailure(result.error));
      }
      RecordFacts(packages[..i + 1], g, i);
      ReplayedRecord(packages, g, i);
      if result.value.ref.completedHandoffs != i + 1 {
        return Err(HandoffIndexNotContiguous);
      }
      if result.value.ref.stepCommitment != StepDigest(result.value.step) {
        return Err(StepCommitmentMismatch);
      }
      validated := validated + [HandoffRecord(i + 1, previous, packages[i], result.value.step, result.value.ref,
                                              StepDigest(result.value.step))];
      forall k | 0 <= k < i ensures validated[k] == RecordAt(packages[..i + 1], g, k) {
        assert packages[..i + 1][..i] == packages[..i];
        RecordSnoc(packages[..i + 1], g, i, k);
      }
      assert validated[i] == RecordAt(packages[..i + 1], g, i);
      previous := Some(result.value.ref);
    }
    assert packages[..|packages|] == packages;
    if previous != Some(tip) {
      return Err(CurrentRefNotHistoryTip);
    }
    return Ok(validated);
  }

  lemma ReplayStep(packages: seq<HandoffPackage>, g: Genesis, i: nat, result: Result<ChainLink, ChainError>)
    requires i < |packages|
    requires i == 0 ==> result == SeedChain(packages[0], g)
    requires i > 0 ==> Replay(packages[..i], g).Ok?
                       && result == AdvanceChain(Replay(packages[..i], g).value.ref, packages[i])
    ensures Replay(packages[..i + 1], g) == result
  {
    hide SeedChain, AdvanceChain;
    assert packages[..i + 1][..i] == packages[..i];
  }

  lemma ReplayedRecord(packages: seq<HandoffPackage>, g: Genesis, i: nat)
    requires i < |packages| && Replay(packages[..i + 1], g).Ok?
    ensures i > 0 ==> Replay(packages[..i], g).Ok?
    ensures var link := Replay(packages[..i + 1], g).value;
            RecordAt(packages[..i + 1], g, i)
            == HandoffRecord(i + 1, if i == 0 then None else Some(Replay(packages[..i], g).value.ref), packages[i],
                             link.step, link.ref, StepDigest(link.step))
  {
    hide Replay;
    var seen := packages[..i + 1];
    assert seen[..i + 1] == seen && seen[..i] == packages[..i];
    if i > 0 {
      PrefixReplays(seen, g, i);
    }
  }

  // ---------------------------------------------------------------- the anchor

  predicate ValidHandoffAnchor(a: HandoffAnchor, tip: ChainRef) {
    && ValidRef(tip)
    && a.chainId == tip.chainId
    && a.policyId == tip.policyId
    && a.genesisPolicyEpoch == tip.genesisPolicyEpoch
    && a.genesisPolicy == tip.genesisPolicy
    && a.completedHandoffs == tip.completedHandoffs
    && a.currentPolicyEpoch == tip.currentPolicyEpoch
    && a.currentPolicy == tip.currentPolicy
    && a.currentChainRef == RefDigest(tip)
    && a.currentChainRoot == tip.chainRoot
    && a.currentStepCommitment == tip.stepCommitment
    && a.treeSize == tip.completedHandoffs
    && a.treeAlgorithm == PairwiseDuplicateLast
    && a.merkleRoot != ZeroHash
    && a.chainContract == tip.chainContract
    && a.chainAuthorizationContract == tip.authorizationContract
    && a.membershipContract != Zero
    && a.authorizationContract != Zero
  }

  function StepCommitments(handoffs: seq<HandoffRecord>): (r: seq<Digest>)
    ensures |r| == |handoffs|
    ensures forall i :: 0 <= i < |r| ==> r[i] == handoffs[i].commitment
  {
    seq(|handoffs|, i requires 0 <= i < |handoffs| => handoffs[i].commitment)
  }

  function HandoffAnchorFrom(handoffs: seq<HandoffRecord>, tip: ChainRef, membershipContract: Digest,
                             authorizationContract: Digest): HandoffAnchor
    requires |handoffs| > 0
  {
    HandoffAnchor(tip.chainId, tip.policyId, tip.genesisPolicyEpoch, tip.genesisPolicy, tip.completedHandoffs,
      tip.currentPolicyEpoch, tip.currentPolicy, RefDigest(tip), tip.chainRoot, tip.stepCommitment, |handoffs|,
      PairwiseDuplicateLast, Root(LeafHashes(StepCommitments(handoffs))), tip.chainContract, tip.authorizationContract,
      membershipContract, authorizationContract)
  }

  datatype HandoffAnchorError = HandoffMembershipContractInvalid | HandoffMembershipAuthorizationInvalid
                              | HandoffHistoryInvalid(fault: HandoffHistoryError) | HandoffAnchorInvalid

  /** `_build_anchor`, with its self-check. */
  method BuildHandoffAnchor(handoffs: seq<HandoffRecord>, tip: ChainRef, membershipContract: Digest,
                            authorizationContract: Digest) returns (r: Result<HandoffAnchor, HandoffAnchorError>)
    requires |handoffs| > 0
    ensures r.Ok? <==> ValidRef(tip) && |handoffs| == tip.completedHandoffs && membershipContract != Zero
                       && authorizationContract != Zero
    ensures r.Ok? ==> r.value == HandoffAnchorFrom(handoffs, tip, membershipContract, authorizationContract)
  {
    hide ValidRef;
    LeavesAreAdmissible(StepCommitments(handoffs), true);
    RootIsNotZero(StepCommitments(handoffs));
    var root := MerkleRoot(LeafHashes(StepCommitments(handoffs)), true);
    var anchor := HandoffAnchor(tip.chainId, tip.policyId, tip.genesisPolicyEpoch, tip.genesisPolicy,
      tip.completedHandoffs, tip.currentPolicyEpoch, tip.currentPolicy, RefDigest(tip), tip.chainRoot,
      tip.stepCommitment, |handoffs|, PairwiseDuplicateLast, root.value, tip.chainContract, tip.authorizationContract,
      membershipContract, authorizationContract);
    if !ValidHandoffAnchor(anchor, tip) {
      return Err(HandoffAnchorInvalid);
    }
    return Ok(anchor);
  }

  method BuildMembershipAnchor(packages: seq<HandoffPackage>, tip: ChainRef, membershipContract: Digest,
                               authorizationContract: Digest) returns (r: Result<HandoffAnchor, HandoffAnchorError>)
    ensures r.Ok? <==> membershipContract != Zero && authorizationContract != Zero && ValidHandoffHistory(packages, tip)
    ensures r.Ok? ==> r.value == HandoffAnchorFrom(Handoffs(packages, GenesisOf(tip)), tip, membershipContract,
                                                   authorizationContract)
  {
    hide ValidRef, Replay, RecordAt;
    if membershipContract == Zero {
      return Err(HandoffMembershipContractInvalid);
    }
    if authorizationContract == Zero {
      return Err(HandoffMembershipAuthorizationInvalid);
    }
    HistoryFaultExact(packages, tip);
    var history := ValidateHandoffHistory(packages, tip);
    if history.Err? {
      return Err(HandoffHistoryInvalid(history.error));
    }
    r := BuildHandoffAnchor(history.value, tip, membershipContract, authorizationContract);
  }

  // ---------------------------------------------------------------- selective disclosure

  datatype HandoffMembershipProof = HandoffMembershipProof(
    anchor: Digest, handoffIndex: int, leafIndex: int, treeSize: int, treeAlgorithm: Algorithm, commitment: Digest,
    leaf: MerkleHash, siblingPath: seq<PathEntry<Digest>>, currentSiblingPath: seq<PathEntry<Digest>>)

  datatype HandoffDisclosure = HandoffDisclosure(anchor: HandoffAnchor, currentRef: ChainRef, handoff: HandoffRecord,
                                                 proof: HandoffMembershipProof)

  datatype HandoffDisclosureFault =
    | HandoffDisclosureAnchorInvalid
    | DisclosedHandoffIndexInvalid
    | ProofHandoffIndexMismatch
    | HandoffProofLeafIndexMismatch
    | HandoffProofTreeSizeMismatch
    | ProofHandoffIndexOutOfRange
    | HandoffProofTreeAlgorithmInvalid
    | HandoffProofAnchorMismatch
    | DisclosedHandoffSeedPredecessorInvalid
    | DisclosedPredecessorInvalid
    | DisclosedPredecessorIndexMismatch
    | DisclosedPredecessorContextMismatch
    | DisclosedChainFailure(error: ChainError)
    | DisclosedStepMismatch
    | DisclosedRefMismatch
    | DisclosedRefInvalid
    | DisclosedRefIndexMismatch
    | DisclosedRefContextMismatch
    | DisclosedStepCommitmentMismatch
    | DisclosedRefStepCommitmentMismatch
    | ProofStepCommitmentMismatch
    | SelectedTipMismatch
    | HandoffProofLeafMismatch
    | HandoffPathInvalid
    | CurrentHandoffPathInvalid

  function AnchorGenesis(a: HandoffAnchor): Genesis {
    Genesis(a.chainId, a.genesisPolicyEpoch, a.genesisPolicy, a.chainContract, a.chainAuthorizationContract)
  }

  predicate SameChainContext(ref: ChainRef, a: HandoffAnchor) {
    && ref.chainId == a.chainId
    && ref.policyId == a.policyId
    && ref.genesisPolicyEpoch == a.genesisPolicyEpoch
    && ref.genesisPolicy == a.genesisPolicy
    && ref.chainContract == a.chainContract
    && ref.authorizationContract == a.chainAuthorizationContract
  }

  function HeaderFault(d: HandoffDisclosure): Option<HandoffDisclosureFault> {
    var index, proof := d.handoff.handoffIndex, d.proof;
    if !ValidHandoffAnchor(d.anchor, d.currentRef) then Some(HandoffDisclosureAnchorInvalid)
    else if index <= 0 then Some(DisclosedHandoffIndexInvalid)
    else if proof.handoffIndex != index then Some(ProofHandoffIndexMismatch)
    else if proof.leafIndex != index - 1 then Some(HandoffProofLeafIndexMismatch)
    else if proof.treeSize != d.anchor.treeSize then Some(HandoffProofTreeSizeMismatch)
    else if index > proof.treeSize then Some(ProofHandoffIndexOutOfRange)
    else if proof.treeAlgorithm != PairwiseDuplicateLast then Some(HandoffProofTreeAlgorithmInvalid)
    else if proof.anchor != DigestOf(HandoffAnchorJson(d.anchor)) then Some(HandoffProofAnchorMismatch)
    else None
  }

  /** The disclosed handoff is rebuilt from its package and its predecessor. */
  function Rebuilt(h: HandoffRecord, a: HandoffAnchor): Result<ChainLink, HandoffDisclosureFault> {
    if h.handoffIndex == 1 then
      if h.previousRef.Some? then Err(DisclosedHandoffSeedPredecessorInvalid)
      else
        var link := SeedChain(h.package, AnchorGenesis(a));
        if link.Err? then Err(DisclosedChainFailure(link.error)) else Ok(link.value)
    else if h.previousRef.None? || !ValidRef(h.previousRef.value) then Err(DisclosedPredecessorInvalid)
    else if h.previousRef.value.completedHandoffs != h.handoffIndex - 1 then Err(DisclosedPredecessorIndexMismatch)
    else if !SameChainContext(h.previousRef.value, a) then Err(DisclosedPredecessorContextMismatch)
    else
      var link := AdvanceChain(h.previousRef.value, h.package);
      if link.Err? then Err(DisclosedChainFailure(link.error)) else Ok(link.value)
  }

  /** The supplied step and ref against the rebuilt ones. */
  function SuppliedFault(d: HandoffDisclosure, link: ChainLink): Option<HandoffDisclosureFault> {
    var h, index := d.handoff, d.handoff.handoffIndex;
    if link.step != h.step then Some(DisclosedStepMismatch)
    else if link.ref != h.ref then Some(DisclosedRefMismatch)
    else if !ValidRef(h.ref) then Some(DisclosedRefInvalid)
    else if h.ref.completedHandoffs != index then Some(DisclosedRefIndexMismatch)
    else if !SameChainContext(h.ref, d.anchor) then Some(DisclosedRefContextMismatch)
    else if h.commitment != StepDigest(link.step) then Some(DisclosedStepCommitmentMismatch)
    else if h.ref.stepCommitment != StepDigest(link.step) then Some(DisclosedRefStepCommitmentMismatch)
    else if d.proof.commitment != StepDigest(link.step) then Some(ProofStepCommitmentMismatch)
    else if index == d.proof.treeSize && h.ref != d.currentRef then Some(SelectedTipMismatch)
    else None
  }

  function PathsFault(d: HandoffDisclosure, commitment: Digest): Option<HandoffDisclosureFault>
    requires d.handoff.handoffIndex > 0 && d.anchor.treeSize > 0
  {
    var leaf, proof, size := Leaf(d.handoff.handoffIndex, commitment), d.proof, d.anchor.treeSize;
    if proof.leaf != leaf then Some(HandoffProofLeafMismatch)
    else if !PathAccepts(leaf, proof.leafIndex, proof.treeSize, proof.siblingPath, d.anchor.merkleRoot, true) then
      Some(HandoffPathInvalid)
    else if !PathAccepts(Leaf(size, d.anchor.currentStepCommitment), size - 1, size, proof.currentSiblingPath,
                         d.anchor.merkleRoot, true) then Some(CurrentHandoffPathInvalid)
    else None
  }

  /** `verify_selective_witness_policy_handoff_chain_disclosure`: the first reason to refuse, or None. */
  function VerifyHandoffDisclosure(d: HandoffDisclosure): Option<HandoffDisclosureFault> {
    var header := HeaderFault(d);
    if header.Some? then header
    else
      var rebuilt := Rebuilt(d.handoff, d.anchor);
      if rebuilt.Err? then Some(rebuilt.error)
      else
        var supplied := SuppliedFault(d, rebuilt.value);
        if supplied.Some? then supplied else PathsFault(d, StepDigest(rebuilt.value.step))
  }

  lemma RebuiltFacts(h: HandoffRecord, a: HandoffAnchor)
    requires Rebuilt(h, a).Ok? && h.handoffIndex > 0
    ensures var link := Rebuilt(h, a).value;
            && link.step.handoffIndex == h.handoffIndex == link.ref.completedHandoffs
            && link.step.handoffPackage == HandoffPackageDigest(h.package)
            && link.step.previousChainRef == (if h.previousRef.Some? then RefDigest(h.previousRef.value) else Zero)
            && link.ref.stepCommitment == StepDigest(link.step)
            && (h.handoffIndex == 1 <==> h.previousRef.None?)
            && GenesisOf(link.ref) == AnchorGenesis(a)
            && ValidRef(link.ref)
  {
    hide SeedChain, AdvanceChain, ValidRef, VerifyHandoff;
    if h.handoffIndex == 1 {
      SeedExact(h.package, AnchorGenesis(a));
    } else {
      AdvanceExact(h.previousRef.value, h.package);
    }
  }

  /** Three of the verifier's later tests are implied by its rebuild and can never fail. */
  lemma RebuildImpliesRefChecks(d: HandoffDisclosure)
    ensures VerifyHandoffDisclosure(d)
            !in {Some(DisclosedRefInvalid), Some(DisclosedRefIndexMismatch), Some(DisclosedRefStepCommitmentMismatch)}
  {
    hide SeedChain, AdvanceChain, ValidRef, VerifyHandoff, PathAccepts, SameChainContext, ValidHandoffAnchor;
    if HeaderFault(d).None? && Rebuilt(d.handoff, d.anchor).Ok? {
      RebuiltFacts(d.handoff, d.anchor);
    }
  }

  lemma AcceptedHandoffDisclosure(d: HandoffDisclosure)
    requires VerifyHandoffDisclosure(d).None?
    ensures d.handoff.handoffIndex > 0 && Rebuilt(d.handoff, d.anchor).Ok?
    ensures ValidHandoffAnchor(d.anchor, d.currentRef)
    ensures var link := Rebuilt(d.handoff, d.anchor).value;
            && d.handoff.step == link.step && d.handoff.ref == link.ref && d.handoff.commitment == StepDigest(link.step)
            && PathAccepts(Leaf(d.handoff.handoffIndex, StepDigest(link.step)), d.handoff.handoffIndex - 1,
                           d.anchor.treeSize, d.proof.siblingPath, d.anchor.merkleRoot, true)
  {
    hide Rebuilt, ValidHandoffAnchor, PathAccepts, ValidRef, SameChainContext;
  }

  /** A disclosed record whose step is the step of the i-th handoff of a run is that whole record. */
  lemma StepFixesRecord(packages: seq<HandoffPackage>, g: Genesis, i: nat, h: HandoffRecord, a: HandoffAnchor)
    requires i < |packages| && Replay(packages, g).Ok? && AnchorGenesis(a) == g
    requires Rebuilt(h, a).Ok? && h.handoffIndex == i + 1
    requires Rebuilt(h, a).value.step == RecordAt(packages, g, i).step
    ensures h.previousRef == RecordAt(packages, g, i).previousRef && h.package == packages[i]
    ensures Rebuilt(h, a).value.ref == RecordAt(packages, g, i).ref
  {
    hide SeedChain, AdvanceChain, ValidRef, VerifyHandoff, Replay, RecordAt;
    RebuiltFacts(h, a);
    RecordFacts(packages, g, i);
    assert HandoffPackageDigest(h.package) == HandoffPackageDigest(packages[i]);
  }

  /** Binding: against the anchor of a real history, an accepted disclosure carries exactly that history's record at
      its index (predecessor ref, package, step, chain ref and commitment), the history's tip, and the only path. */
  lemma HandoffDisclosureBinds(packages: seq<HandoffPackage>, tip: ChainRef, membershipContract: Digest,
                               authorizationContract: Digest, d: HandoffDisclosure)
    requires ValidHandoffHistory(packages, tip)
    requires d.anchor
             == HandoffAnchorFrom(Handoffs(packages, GenesisOf(tip)), tip, membershipContract, authorizationContract)
    requires VerifyHandoffDisclosure(d).None?
    ensures 1 <= d.handoff.handoffIndex <= |packages|
    ensures d.handoff == Handoffs(packages, GenesisOf(tip))[d.handoff.handoffIndex - 1]
    ensures d.currentRef == tip
    ensures d.proof.siblingPath == Path(LeafHashes(StepCommitments(Handoffs(packages, GenesisOf(tip)))),
                                        d.handoff.handoffIndex - 1)
  {
    hide VerifyHandoffDisclosure, Rebuilt, Replay, ValidRef, Root, Path, PathAccepts, RecordAt;
    AcceptedHandoffDisclosure(d);
    var g, i := GenesisOf(tip), d.handoff.handoffIndex - 1;
    var handoffs := Handoffs(packages, g);
    var leaves := LeafHashes(StepCommitments(handoffs));
    LeavesAreAdmissible(StepCommitments(handoffs), true);
    var link := Rebuilt(d.handoff, d.anchor).value;
    PathExact(leaves, Leaf(i + 1, StepDigest(link.step)), i, d.proof.siblingPath, true);
    RecordFacts(packages, g, i);
    assert StepDigest(link.step) == handoffs[i].commitment == RecordAt(packages, g, i).commitment;
    StepFixesRecord(packages, g, i, d.handoff, d.anchor);
    RecordShape(packages, g, i);
    assert RefDigest(d.currentRef) == RefDigest(tip);
  }

  lemma RecordShape(packages: seq<HandoffPackage>, g: Genesis, i: nat)
    requires i < |packages| && Replay(packages, g).Ok?
    ensures var r := RecordAt(packages, g, i);
            r.handoffIndex == i + 1 && r.package == packages[i] && r.commitment == StepDigest(r.step)
  {
    hide LinkAt, Replay;
  }

  // ---------------------------------------------------------------- completeness

  function HandoffDisclosureOf(packages: seq<HandoffPackage>, tip: ChainRef, selected: nat, membershipContract: Digest,
                               authorizationContract: Digest): HandoffDisclosure
    requires ValidHandoffHistory(packages, tip) && 0 < selected <= |packages|
  {
    var handoffs := Handoffs(packages, GenesisOf(tip));
    var anchor := HandoffAnchorFrom(handoffs, tip, membershipContract, authorizationContract);
    var leaves := LeafHashes(StepCommitments(handoffs));
    HandoffDisclosure(anchor, tip, handoffs[selected - 1],
      HandoffMembershipProof(DigestOf(HandoffAnchorJson(anchor)), selected, selected - 1, |packages|,
        PairwiseDuplicateLast, handoffs[selected - 1].commitment, leaves[selected - 1], Path(leaves, selected - 1),
        Path(leaves, |leaves| - 1)))
  }

  ghost predicate HandoffPathFits(handoffs: seq<HandoffRecord>, i: nat)
    requires i < |handoffs|
  {
    var leaves := LeafHashes(StepCommitments(handoffs));
    PathAccepts(Leaf(i + 1, handoffs[i].commitment), i, |handoffs|, Path(leaves, i), Root(leaves), true)
  }

  lemma BuiltHandoffPathsFit(handoffs: seq<HandoffRecord>, i: nat)
    requires i < |handoffs|
    ensures HandoffPathFits(handoffs, i)
  {
    var leaves := LeafHashes(StepCommitments(handoffs));
    LeavesAreAdmissible(StepCommitments(handoffs), true);
    PathExact(leaves, leaves[i], i, Path(leaves, i), true);
  }

  lemma AnchorFits(handoffs: seq<HandoffRecord>, tip: ChainRef, membershipContract: Digest,
                   authorizationContract: Digest)
    requires |handoffs| > 0 && ValidRef(tip) && |handoffs| == tip.completedHandoffs
    requires membershipContract != Zero && authorizationContract != Zero
    ensures ValidHandoffAnchor(HandoffAnchorFrom(handoffs, tip, membershipContract, authorizationContract), tip)
  {
    hide ValidRef, Root;
    RootIsNotZero(StepCommitments(handoffs));
  }

  lemma RecordRebuilds(packages: seq<HandoffPackage>, g: Genesis, i: nat, a: HandoffAnchor)
    requires i < |packages| && Replay(packages, g).Ok? && AnchorGenesis(a) == g
    requires a.policyId == packages[0].oldActive.policy.policyId
    ensures var r := RecordAt(packages, g, i);
            Rebuilt(r, a) == Ok(ChainLink(r.step, r.ref)) && SameChainContext(r.ref, a)
  {
    hide SeedChain, AdvanceChain, ValidRef, VerifyHandoff, Replay, RecordAt;
    RecordFacts(packages, g, i);
    RecordShape(packages, g, i);
    if i > 0 {
      RecordFacts(packages, g, i - 1);
    }
  }

  lemma LastRecordIsTip(packages: seq<HandoffPackage>, tip: ChainRef)
    requires ValidHandoffHistory(packages, tip)
    ensures RecordAt(packages, GenesisOf(tip), |packages| - 1).ref == tip
  {
    hide Replay;
    assert packages[..|packages|] == packages;
  }

  /** The parts an accepted disclosure is made of, checked one by one. */
  ghost predicate GoodParts(d: HandoffDisclosure) {
    var h, proof, index, size := d.handoff, d.proof, d.handoff.handoffIndex, d.anchor.treeSize;
    && ValidHandoffAnchor(d.anchor, d.currentRef)
    && 0 < index == proof.handoffIndex == proof.leafIndex + 1 <= size == proof.treeSize
    && proof.treeAlgorithm == PairwiseDuplicateLast && proof.anchor == DigestOf(HandoffAnchorJson(d.anchor))
    && Rebuilt(h, d.anchor) == Ok(ChainLink(h.step, h.ref))
    && ValidRef(h.ref) && h.ref.completedHandoffs == index && SameChainContext(h.ref, d.anchor)
    && h.commitment == h.ref.stepCommitment == proof.commitment == StepDigest(h.step)
    && (index == size ==> h.ref == d.currentRef)
    && proof.leaf == Leaf(index, h.commitment)
    && PathAccepts(Leaf(index, h.commitment), index - 1, size, proof.siblingPath, d.anchor.merkleRoot, true)
    && PathAccepts(Leaf(size, d.anchor.currentStepCommitment), size - 1, size, proof.currentSiblingPath,
                   d.anchor.merkleRoot, true)
  }

  lemma GoodPartsAccepted(d: HandoffDisclosure)
    requires GoodParts(d)
    ensures VerifyHandoffDisclosure(d).None?
  {
    hide Rebuilt, ValidHandoffAnchor, ValidRef, SameChainContext, PathAccepts;
  }

  /** The i-th record of a run survives the verifier's rebuild and ref tests. */
  ghost predicate GoodRecord(r: HandoffRecord, index: int, a: HandoffAnchor) {
    && Rebuilt(r, a) == Ok(ChainLink(r.step, r.ref)) && SameChainContext(r.ref, a)
    && ValidRef(r.ref) && r.ref.completedHandoffs == index == r.handoffIndex
    && r.commitment == r.ref.stepCommitment == StepDigest(r.step)
  }

  lemma TipKeepsPolicyId(packages: seq<HandoffPackage>, tip: ChainRef)
    requires ValidHandoffHistory(packages, tip)
    ensures tip.policyId == packages[0].oldActive.policy.policyId
  {
    hide Replay, ValidRef, StepOf, VerifyHandoff;
    RunInvariant(packages, GenesisOf(tip));
    RunIsContiguous(packages, GenesisOf(tip), |packages| - 1);
  }

  lemma RecordIsGood(packages: seq<HandoffPackage>, tip: ChainRef, i: nat, a: HandoffAnchor)
    requires ValidHandoffHistory(packages, tip) && i < |packages|
    requires AnchorGenesis(a) == GenesisOf(tip) && a.policyId == tip.policyId
    ensures GoodRecord(RecordAt(packages, GenesisOf(tip), i), i + 1, a)
  {
    hide Replay, ValidRef, RecordAt, Rebuilt, SameChainContext;
    TipKeepsPolicyId(packages, tip);
    RecordFacts(packages, GenesisOf(tip), i);
    RecordShape(packages, GenesisOf(tip), i);
    RecordRebuilds(packages, GenesisOf(tip), i, a);
  }

  lemma BuiltPartsAreGood(packages: seq<HandoffPackage>, tip: ChainRef, selected: nat, membershipContract: Digest,
                          authorizationContract: Digest)
    requires ValidHandoffHistory(packages, tip) && 0 < selected <= |packages| == tip.completedHandoffs
    requires var handoffs := Handoffs(packages, GenesisOf(tip));
             var a := HandoffAnchorFrom(handoffs, tip, membershipContract, authorizationContract);
             && ValidHandoffAnchor(a, tip)
             && GoodRecord(handoffs[selected - 1], selected, a)
             && GoodRecord(handoffs[|handoffs| - 1], |handoffs|, a)
             && handoffs[|handoffs| - 1].ref == tip
             && HandoffPathFits(handoffs, selected - 1) && HandoffPathFits(handoffs, |handoffs| - 1)
    ensures GoodParts(HandoffDisclosureOf(packages, tip, selected, membershipContract, authorizationContract))
  {
    hide Replay, ValidRef, Root, Path, PathAccepts, RecordAt, Rebuilt, ValidHandoffAnchor, SameChainContext,
      ValidHandoffHistory;
  }

  /** Completeness: the disclosure built from a real history is accepted at every index, so the builder's own check of
      its result never fails. */
  lemma BuiltHandoffDisclosureVerifies(packages: seq<HandoffPackage>, tip: ChainRef, selected: nat,
                                       membershipContract: Digest, authorizationContract: Digest)
    requires ValidHandoffHistory(packages, tip) && 0 < selected <= |packages|
    requires membershipContract != Zero && authorizationContract != Zero
    ensures VerifyHandoffDisclosure(HandoffDisclosureOf(packages, tip, selected, membershipContract,
                                                        authorizationContract)).None?
  {
    hide Replay, ValidRef, HandoffPathFits, RecordAt, GoodRecord, ValidHandoffAnchor, GoodParts,
      VerifyHandoffDisclosure, HandoffDisclosureOf, ChainRoot, LeafHashes, StepCommitments;
    var handoffs := Handoffs(packages, GenesisOf(tip));
    var a := HandoffAnchorFrom(handoffs, tip, membershipContract, authorizationContract);
    HistoryFaultExact(packages, tip);
    AnchorFits(handoffs, tip, membershipContract, authorizationContract);
    LastRecordIsTip(packages, tip);
    RecordIsGood(packages, tip, selected - 1, a);
    RecordIsGood(packages, tip, |packages| - 1, a);
    BuiltHandoffPathsFit(handoffs, selected - 1);
    BuiltHandoffPathsFit(handoffs, |handoffs| - 1);
    BuiltPartsAreGood(packages, tip, selected, membershipContract, authorizationContract);
    GoodPartsAccepted(HandoffDisclosureOf(packages, tip, selected, membershipContract, authorizationContract));
  }

  // ---------------------------------------------------------------- one disclosure per index

  lemma AcceptedHandoffHeader(d: HandoffDisclosure)
    requires VerifyHandoffDisclosure(d).None?
    ensures ValidHandoffAnchor(d.anchor, d.currentRef)
    ensures var proof, index := d.proof, d.handoff.handoffIndex;
            && index > 0 && proof.handoffIndex == index && proof.leafIndex == index - 1
            && proof.treeSize == d.anchor.treeSize
            && proof.treeAlgorithm == PairwiseDuplicateLast && proof.anchor == DigestOf(HandoffAnchorJson(d.anchor))
            && proof.commitment == d.handoff.commitment == StepDigest(d.handoff.step)
            && proof.leaf == Leaf(index, proof.commitment)
            && d.anchor.treeSize > 0
            && PathAccepts(Leaf(d.anchor.treeSize, d.anchor.currentStepCommitment), d.anchor.treeSize - 1,
                           d.anchor.treeSize, proof.currentSiblingPath, d.anchor.merkleRoot, true)
  {
    hide Rebuilt, PathAccepts, ValidRef, SameChainContext;
  }

  lemma RebuiltIsDetermined(h: HandoffRecord, x: HandoffRecord, a: HandoffAnchor)
    requires h.handoffIndex == x.handoffIndex > 0
    requires Rebuilt(h, a).Ok? && Rebuilt(x, a).Ok? && Rebuilt(h, a).value.step == Rebuilt(x, a).value.step
    ensures h.package == x.package && h.previousRef == x.previousRef && Rebuilt(h, a) == Rebuilt(x, a)
  {
    hide SeedChain, AdvanceChain, ValidRef;
    RebuiltFacts(h, a);
    RebuiltFacts(x, a);
    assert HandoffPackageDigest(h.package) == HandoffPackageDigest(x.package);
  }

  /** Against any anchor, real or not, one index has one accepted disclosure: two of them are equal in every field. */
  lemma HandoffDisclosureIsUnique(d: HandoffDisclosure, e: HandoffDisclosure)
    requires VerifyHandoffDisclosure(d).None? && VerifyHandoffDisclosure(e).None?
    requires d.anchor == e.anchor && d.handoff.handoffIndex == e.handoff.handoffIndex
    ensures d == e
  {
    hide VerifyHandoffDisclosure, Rebuilt, ValidHandoffAnchor, PathAccepts, StepDigest;
    AcceptedHandoffDisclosure(d);
    AcceptedHandoffDisclosure(e);
    AcceptedHandoffHeader(d);
    AcceptedHandoffHeader(e);
    SameCurrentRef(d, e);
    var a, i := d.anchor, d.handoff.handoffIndex;
    PathsAreUnique(Leaf(i, d.proof.commitment), d.proof.siblingPath, Leaf(i, e.proof.commitment), e.proof.siblingPath,
                   i - 1, a.treeSize, a.merkleRoot, true);
    var current := Leaf(a.treeSize, a.currentStepCommitment);
    PathsAreUnique(current, d.proof.currentSiblingPath, current, e.proof.currentSiblingPath, a.treeSize - 1, a.treeSize,
                   a.merkleRoot, true);
    EqualSteps(d.handoff.step, e.handoff.step);
    RebuiltIsDetermined(d.handoff, e.handoff, a);
  }

  lemma EqualSteps(s: ChainStep, t: ChainStep)
    requires StepDigest(s) == StepDigest(t)
    ensures s == t
  {
  }

  lemma SameCurrentRef(d: HandoffDisclosure, e: HandoffDisclosure)
    requires ValidHandoffAnchor(d.anchor, d.currentRef) && ValidHandoffAnchor(e.anchor, e.currentRef)
             && d.anchor == e.anchor
    ensures d.currentRef == e.currentRef
  {
    hide ValidRef;
  }
}
