/** The JSON records of the lineage and witness profiles as typed values, and their digests.
    `DigestOf` is `digest_json`: one constructor per hashed record kind, so digests are collision-free.
    Fields that every check compares with one fixed constant (schema names, fixed reasons and statuses) are dropped. */
module Records {
  import opened Prelude
  import opened MerkleTree

  datatype Digest = Zero | Foreign(id: nat) | DigestOf(json: Json)

  type MerkleHash = Hash<Digest>

  datatype Algorithm = PairwiseDuplicateLast | CompactFrontier | Unknown(id: nat)

  datatype Json =
    | StateRefJson(stateRef: StateRef)
    | BranchRefJson(branchRef: BranchRef)
    | BranchTipJson(tip: BranchTip)
    | DigestListJson(digests: seq<Digest>)
    | ParentSetJson(parentSet: ParentSet)
    | ReconciliationRefJson(ref: ReconciliationRef)
    | ReconciliationReceiptJson(receipt: ReconciliationReceipt)
    | AgreementJson(agreement: Agreement)
    | CycleSummaryJson(summary: CycleSummary)
    | LineageRootStepJson(rootInput: Accumulator)
    | AccumulatorJson(accumulator: Accumulator)
    | AnchorJson(anchor: LineageAnchor)
    | AnchorStatementJson(anchorStatement: AnchorStatement)
    | PolicyJson(policy: Policy)
    | ObservationJson(observation: Observation)
    | QuorumCertificateJson(quorumCertificate: QuorumCertificate)
    | QuorumPackageJson(quorumPackage: QuorumPackage)
    | HandoffStatementJson(handoffStatement: HandoffStatement)
    | HandoffObservationJson(handoffObservation: HandoffObservation)
    | RoleCertificateJson(roleCertificate: RoleCertificate)
    | HandoffCertificateJson(handoffCertificate: HandoffCertificate)
    | HandoffPackageJson(handoffPackage: HandoffPackage)
    | ChainStepJson(chainStep: ChainStep)
    | ChainRootInputJson(chainRootInput: ChainRef)
    | ChainRefJson(chainRef: ChainRef)
    | HandoffAnchorJson(handoffAnchor: HandoffAnchor)
    | HandoffAnchorStatementJson(handoffAnchorStatement: HandoffAnchorStatement)

  // ---------------------------------------------------------------- portable causality

  datatype StateRef = StateRef(
    trustDomain: string, logicalStateId: string, causalEpoch: int, semanticState: Digest)

  datatype BranchRef = BranchRef(
    trustDomain: string, logicalStateId: string, logicalBranchId: string, fromEpoch: int, toEpoch: int,
    fromStateRef: Digest, toStateRef: Digest, branchContract: Digest, authorizationContract: Digest)

  datatype BranchTip = BranchTip(stateRef: StateRef, branchRef: BranchRef)

  datatype Parent = Parent(branchTip: Digest, branchRef: Digest, stateRef: Digest)

  datatype ParentSet = ParentSet(parents: seq<Parent>)

  datatype ReconciliationRef = ReconciliationRef(
    trustDomain: string, logicalStateId: string, logicalReconciliationId: string, commonStateRef: Digest,
    forkEpoch: int, reconciledEpoch: int, parentSet: Digest, parentTips: seq<Digest>, resultStateRef: Digest,
    reconciliationContract: Digest, authorizationContract: Digest)

  datatype ReconciliationReceipt = ReconciliationReceipt(
    verified: bool, commonStateRef: Digest, forkEpoch: int, reconciledEpoch: int, lineageParentCount: int,
    bothLineagesPreserved: bool, forkSemanticsDivergent: bool, branchOrderCanonical: bool, rawEvidenceEmbedded: bool,
    parentSet: Digest, resultStateRef: Digest, reconciliationRef: Digest)

  datatype Agreement = Agreement(
    verified: bool, branchTips: seq<BranchTip>, parentSet: Option<ParentSet>, reconciledStateRef: Option<StateRef>,
    reconciliationRef: Option<ReconciliationRef>, receipt: Option<ReconciliationReceipt>)

  // ---------------------------------------------------------------- lineage accumulator and membership

  datatype CycleSummary = CycleSummary(
    cycleIndex: int, commonStateRef: Digest, forkEpoch: int, reconciledEpoch: int, branchTipSet: Digest,
    parentSet: Digest, reconciliationRef: Digest, resultStateRef: Digest, receipt: Digest,
    reconciliationContract: Digest, authorizationContract: Digest)

  datatype Accumulator = Accumulator(
    trustDomain: string, logicalStateId: string, completedCycles: int, currentEpoch: int, currentStateRef: Digest,
    currentReconciliation: Digest, previousAccumulator: Digest, previousLineageRoot: Digest, cycleCommitment: Digest,
    lineageRoot: Digest, accumulatorContract: Digest, authorizationContract: Digest)

  datatype LineageAnchor = LineageAnchor(
    trustDomain: string, logicalStateId: string, completedCycles: int, currentEpoch: int, currentAccumulator: Digest,
    currentLineageRoot: Digest, currentCycleCommitment: Digest, treeSize: int, treeAlgorithm: Algorithm,
    merkleRoot: MerkleHash, membershipContract: Digest, authorizationContract: Digest)

  datatype AnchorStatement = AnchorStatement(
    verified: bool, authorityId: string, sequence: int, previousStatement: Digest, provenance: Digest,
    trustDomain: string, logicalStateId: string, treeSize: int, anchor: Digest, membershipRoot: MerkleHash,
    treeAlgorithm: Algorithm, membershipContract: Digest, authorizationContract: Digest)

  // ---------------------------------------------------------------- witness quorums

  datatype Policy = Policy(
    policyId: string, policyEpoch: int, authorizedWitnessIds: seq<string>, threshold: int, witnessContract: Digest,
    authorizationContract: Digest)

  datatype Observation = Observation(
    verified: bool, witnessId: string, sequence: int, previousObservation: Digest, provenance: Digest,
    policy: Digest, producerStatement: Digest, authorityId: string, trustDomain: string, logicalStateId: string,
    treeSize: int, anchor: Digest, membershipRoot: MerkleHash, treeAlgorithm: Algorithm, membershipContract: Digest,
    authorizationContract: Digest)

  datatype QuorumCertificate = QuorumCertificate(
    policy: Digest, producerStatement: Digest, authorityId: string, statementSequence: int, trustDomain: string,
    logicalStateId: string, treeSize: int, anchor: Digest, membershipRoot: MerkleHash, treeAlgorithm: Algorithm,
    membershipContract: Digest, authorizationContract: Digest, threshold: int, authorizedWitnessCount: int,
    minimumIntersection: int, witnessCount: int, witnessIds: seq<string>, observations: seq<Digest>)

  datatype QuorumPackage = QuorumPackage(
    anchor: LineageAnchor, accumulator: Accumulator, statement: AnchorStatement, policy: Policy,
    observations: seq<Observation>, certificate: QuorumCertificate)

  // ---------------------------------------------------------------- policy handoff

  datatype HandoffStatement = HandoffStatement(
    verified: bool, authorityId: string, trustDomain: string, logicalStateId: string, treeSize: int, anchor: Digest,
    membershipRoot: MerkleHash, producerStatement: Digest, policyId: string, oldPolicy: Digest, newPolicy: Digest,
    oldPolicyEpoch: int, newPolicyEpoch: int, handoffContract: Digest, authorizationContract: Digest,
    provenance: Digest)

  datatype HandoffObservation = HandoffObservation(
    verified: bool, witnessId: string, sequence: int, previousObservation: Digest, provenance: Digest,
    handoffStatement: Digest, producerStatement: Digest, oldPolicy: Digest, newPolicy: Digest, authorityId: string,
    trustDomain: string, logicalStateId: string, treeSize: int, anchor: Digest, membershipRoot: MerkleHash)

  datatype Role = OldRole | NewRole

  datatype RoleCertificate = RoleCertificate(
    role: Role, handoffStatement: Digest, policy: Digest, threshold: int, authorizedWitnessCount: int,
    minimumIntersection: int, witnessCount: int, witnessIds: seq<string>, observations: seq<Digest>)

  datatype HandoffCertificate = HandoffCertificate(
    handoffStatement: Digest, producerStatement: Digest, authorityId: string, trustDomain: string,
    logicalStateId: string, treeSize: int, anchor: Digest, membershipRoot: MerkleHash, policyId: string,
    oldPolicy: Digest, newPolicy: Digest, oldPolicyEpoch: int, newPolicyEpoch: int, oldActiveCertificate: Digest,
    oldHandoffCertificate: Digest, newHandoffCertificate: Digest, newActivationCertificate: Digest,
    oldMinimumIntersection: int, newMinimumIntersection: int, oldContinuityIds: seq<string>,
    newContinuityIds: seq<string>, crossPolicyIds: seq<string>, handoffContract: Digest,
    authorizationContract: Digest)

  datatype HandoffPackage = HandoffPackage(
    oldActive: QuorumPackage, newActivation: QuorumPackage, statement: HandoffStatement,
    observations: seq<HandoffObservation>, oldCertificate: RoleCertificate, newCertificate: RoleCertificate,
    certificate: HandoffCertificate)

  // ---------------------------------------------------------------- handoff chain

  datatype ChainStep = ChainStep(
    chainId: string, handoffIndex: int, policyId: string, oldPolicyEpoch: int, newPolicyEpoch: int,
    oldPolicy: Digest, newPolicy: Digest, oldActivePackage: Digest, newActivationPackage: Digest,
    oldActiveCertificate: Digest, newActivationCertificate: Digest, handoffPackage: Digest,
    handoffCertificate: Digest, producerStatement: Digest, anchor: Digest, membershipRoot: MerkleHash,
    previousChainRef: Digest, previousChainRoot: Digest, chainContract: Digest, authorizationContract: Digest)

  datatype ChainRef = ChainRef(
    chainId: string, policyId: string, genesisPolicyEpoch: int, genesisPolicy: Digest, completedHandoffs: int,
    currentPolicyEpoch: int, currentPolicy: Digest, currentActivationPackage: Digest,
    currentActivationCertificate: Digest, currentHandoffPackage: Digest, currentHandoffCertificate: Digest,
    previousChainRef: Digest, previousChainRoot: Digest, stepCommitment: Digest, chainRoot: Digest,
    chainContract: Digest, authorizationContract: Digest)

  datatype HandoffAnchor = HandoffAnchor(
    chainId: string, policyId: string, genesisPolicyEpoch: int, genesisPolicy: Digest, completedHandoffs: int,
    currentPolicyEpoch: int, currentPolicy: Digest, currentChainRef: Digest, currentChainRoot: Digest,
    currentStepCommitment: Digest, treeSize: int, treeAlgorithm: Algorithm, merkleRoot: MerkleHash,
    chainContract: Digest, chainAuthorizationContract: Digest, membershipContract: Digest,
    authorizationContract: Digest)

  datatype HandoffAnchorStatement = HandoffAnchorStatement(
    verified: bool, authorityId: string, sequence: int, previousStatement: Digest, provenance: Digest,
    chainId: string, policyId: string, genesisPolicyEpoch: int, genesisPolicy: Digest, treeSize: int, anchor: Digest,
    membershipRoot: MerkleHash, currentChainRef: Digest, currentChainRoot: Digest, currentStepCommitment: Digest,
    currentPolicyEpoch: int, currentPolicy: Digest, treeAlgorithm: Algorithm, chainContract: Digest,
    chainAuthorizationContract: Digest, membershipContract: Digest, authorizationContract: Digest)

  predicate NonEmpty(text: string) {
    text != ""
  }
}
