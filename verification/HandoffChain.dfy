/** The rolling chain of policy handoffs: seed, advance, replay of a whole chain, and direct-successor forks. */
module HandoffChain {
  import opened Prelude
  import opened MerkleTree
  import opened Records
  import opened LineageMembership
  import opened LineageConsistency
  import opened WitnessSets
  import opened LineageWitness
  import opened WitnessHandoff

  /** The pinned start of a chain, as the callers of the seed pass it. */
  datatype Genesis = Genesis(chainId: string, policyEpoch: int, policy: Digest, chainContract: Digest,
                             authorizationContract: Digest)

  datatype ChainLink = ChainLink(step: ChainStep, ref: ChainRef)

  datatype ChainError =
    | HandoffInvalid(fault: HandoffFault)
    | ChainIdInvalid
    | GenesisInvalid
    | ChainContractInvalid
    | GenesisEpochMismatch
    | GenesisPolicyMismatch
    | ChainStepInvalid
    | ChainRefInvalid
    | PreviousRefInvalid
    | PolicyIdMismatch
    | OldPolicyEpochMismatch
    | OldPolicyMismatch
    | ActivationCarryForwardMismatch
    | ActivationCertificateMismatch
    | PackagesEmpty
    | ExpectedRefInvalid
    | TipMismatch

  function QuorumPackageDigest(q: QuorumPackage): Digest {
    DigestOf(QuorumPackageJson(q))
  }

  function HandoffPackageDigest(p: HandoffPackage): Digest {
    DigestOf(HandoffPackageJson(p))
  }

  function RefDigest(ref: ChainRef): Digest {
    DigestOf(ChainRefJson(ref))
  }

  function StepDigest(step: ChainStep): Digest {
    DigestOf(ChainStepJson(step))
  }

  // ---------------------------------------------------------------- steps and refs

  function StepOf(p: HandoffPackage, chainId: string, index: int, previousRef: Digest, previousRoot: Digest,
                  chainContract: Digest, authorizationContract: Digest): ChainStep
  {
    var before, after := p.oldActive.policy, p.newActivation.policy;
    ChainStep(chainId, index, before.policyId, before.policyEpoch, after.policyEpoch, PolicyDigest(before),
      PolicyDigest(after), QuorumPackageDigest(p.oldActive), QuorumPackageDigest(p.newActivation),
      DigestOf(QuorumCertificateJson(p.oldActive.certificate)),
      DigestOf(QuorumCertificateJson(p.newActivation.certificate)), HandoffPackageDigest(p),
      DigestOf(HandoffCertificateJson(p.certificate)), p.statement.producerStatement, p.statement.anchor,
      p.statement.membershipRoot, previousRef, previousRoot, chainContract, authorizationContract)
  }

  predicate ValidStep(s: ChainStep) {
    && NonEmpty(s.chainId)
    && s.handoffIndex > 0
    && NonEmpty(s.policyId)
    && s.oldPolicyEpoch > 0 && s.newPolicyEpoch > 0
    && s.newPolicyEpoch == s.oldPolicyEpoch + 1
    && s.oldPolicy != Zero && s.newPolicy != Zero
    && s.oldActivePackage != Zero && s.newActivationPackage != Zero
    && s.oldActiveCertificate != Zero && s.newActivationCertificate != Zero
    && s.handoffPackage != Zero && s.handoffCertificate != Zero
    && s.producerStatement != Zero && s.anchor != Zero && s.membershipRoot != ZeroHash
    && s.chainContract != Zero && s.authorizationContract != Zero
    && (if s.handoffIndex == 1 then s.previousChainRef == Zero && s.previousChainRoot == Zero
        else s.previousChainRef != Zero && s.previousChainRoot != Zero)
  }

  /** The chain root covers every field of the ref except itself. */
  function ChainRoot(ref: ChainRef): Digest {
    DigestOf(ChainRootInputJson(ref.(chainRoot := Zero)))
  }

  predicate ValidRef(r: ChainRef) {
    && NonEmpty(r.chainId) && NonEmpty(r.policyId)
    && r.genesisPolicyEpoch > 0 && r.completedHandoffs > 0 && r.currentPolicyEpoch > 0
    && r.currentPolicyEpoch == r.genesisPolicyEpoch + r.completedHandoffs
    && r.genesisPolicy != Zero && r.currentPolicy != Zero
    && r.currentActivationPackage != Zero && r.currentActivationCertificate != Zero
    && r.currentHandoffPackage != Zero && r.currentHandoffCertificate != Zero
    && r.stepCommitment != Zero && r.chainRoot != Zero && r.chainContract != Zero && r.authorizationContract != Zero
    && (r.completedHandoffs == 1 ==> r.previousChainRef == Zero && r.previousChainRoot == Zero)
    && (r.completedHandoffs > 1 ==> r.previousChainRef != Zero && r.previousChainRoot != Zero)
    && r.chainRoot == ChainRoot(r)
  }

  /** `_build_ref`, with both of its self-checks. */
  function BuildRef(p: HandoffPackage, g: Genesis, index: int, previousRef: Digest, previousRoot: Digest)
    : Result<ChainLink, ChainError>
  {
    var step := StepOf(p, g.chainId, index, previousRef, previousRoot, g.chainContract, g.authorizationContract);
    if !ValidStep(step) then Err(ChainStepInvalid)
    else
      var after := p.newActivation;
      var blank := ChainRef(g.chainId, after.policy.policyId, g.policyEpoch, g.policy, index, after.policy.policyEpoch,
        PolicyDigest(after.policy), QuorumPackageDigest(after), DigestOf(QuorumCertificateJson(after.certificate)),
        HandoffPackageDigest(p), DigestOf(HandoffCertificateJson(p.certificate)), previousRef, previousRoot,
        StepDigest(step), Zero, g.chainContract, g.authorizationContract);
      var ref := blank.(chainRoot := ChainRoot(blank));
      if !ValidRef(ref) then Err(ChainRefInvalid) else Ok(ChainLink(step, ref))
  }

  function SeedChain(p: HandoffPackage, g: Genesis): Result<ChainLink, ChainError> {
    var fault, before := VerifyHandoff(p), p.oldActive.policy;
    if fault.Some? then Err(HandoffInvalid(fault.value))
    else if !NonEmpty(g.chainId) then Err(ChainIdInvalid)
    else if g.policyEpoch <= 0 then Err(GenesisInvalid)
    else if g.policy == Zero || g.chainContract == Zero || g.authorizationContract == Zero then
      Err(ChainContractInvalid)
    else if before.policyEpoch != g.policyEpoch then Err(GenesisEpochMismatch)
    else if PolicyDigest(before) != g.policy then Err(GenesisPolicyMismatch)
    else BuildRef(p, g, 1, Zero, Zero)
  }

  /** The genesis a ref carries forward. */
  function GenesisOf(ref: ChainRef): Genesis {
    Genesis(ref.chainId, ref.genesisPolicyEpoch, ref.genesisPolicy, ref.chainContract, ref.authorizationContract)
  }

  function AdvanceChain(previous: ChainRef, p: HandoffPackage): Result<ChainLink, ChainError> {
    var fault, before := VerifyHandoff(p), p.oldActive.policy;
    if !ValidRef(previous) then Err(PreviousRefInvalid)
    else if fault.Some? then Err(HandoffInvalid(fault.value))
    else if before.policyId != previous.policyId then Err(PolicyIdMismatch)
    else if before.policyEpoch != previous.currentPolicyEpoch then Err(OldPolicyEpochMismatch)
    else if PolicyDigest(before) != previous.currentPolicy then Err(OldPolicyMismatch)
    else if QuorumPackageDigest(p.oldActive) != previous.currentActivationPackage then
      Err(ActivationCarryForwardMismatch)
    else if DigestOf(QuorumCertificateJson(p.oldActive.certificate)) != previous.currentActivationCertificate then
      Err(ActivationCertificateMismatch)
    else BuildRef(p, GenesisOf(previous), previous.completedHandoffs + 1, RefDigest(previous), previous.chainRoot)
  }

  // ---------------------------------------------------------------- one step

  /** What an accepted handoff package guarantees to the chain. */
  lemma AcceptedRotation(p: HandoffPackage)
    requires VerifyHandoff(p).None?
    ensures var before, after := p.oldActive.policy, p.newActivation.policy;
            && NonEmpty(before.policyId) && after.policyId == before.policyId
            && before.policyEpoch > 0 && after.policyEpoch == before.policyEpoch + 1
    ensures p.statement.producerStatement == StatementDigest(p.oldActive.statement)
    ensures p.statement.anchor != Zero && p.statement.membershipRoot != ZeroHash
    ensures p.oldActive.anchor == p.newActivation.anchor && p.oldActive.accumulator == p.newActivation.accumulator
    ensures p.oldActive.statement == p.newActivation.statement
  {
    hide VerifyHandoff, VerifyQuorum, ObjectsFault, ValidRoleCertificate, ValidHandoffObservation, Ordered, Distinct;
    AcceptedHandoff(p);
    ObjectFacts(p);
  }

  /** Everything a new ref records about its package. */
  ghost predicate LinkDescribes(link: ChainLink, p: HandoffPackage, g: Genesis, index: int, previousRef: Digest,
                          previousRoot: Digest)
  {
    && link.step == StepOf(p, g.chainId, index, previousRef, previousRoot, g.chainContract, g.authorizationContract)
    && link.ref.stepCommitment == StepDigest(link.step)
    && GenesisOf(link.ref) == g
    && link.ref.policyId == p.newActivation.policy.policyId
    && link.ref.completedHandoffs == index
    && link.ref.currentPolicyEpoch == p.newActivation.policy.policyEpoch
    && link.ref.currentPolicy == PolicyDigest(p.newActivation.policy)
    && link.ref.currentActivationPackage == QuorumPackageDigest(p.newActivation)
    && link.ref.currentActivationCertificate == DigestOf(QuorumCertificateJson(p.newActivation.certificate))
    && link.ref.currentHandoffPackage == HandoffPackageDigest(p)
    && link.ref.currentHandoffCertificate == DigestOf(HandoffCertificateJson(p.certificate))
    && link.ref.previousChainRef == previousRef && link.ref.previousChainRoot == previousRoot
    && ValidRef(link.ref)
  }

  /** `_build_ref` never raises when its caller's own tests have passed. */
  lemma BuildRefNeverFails(p: HandoffPackage, g: Genesis, index: int, previousRef: Digest, previousRoot: Digest)
    requires VerifyHandoff(p).None?
    requires NonEmpty(g.chainId) && g.policyEpoch > 0 && g.policy != Zero
    requires g.chainContract != Zero && g.authorizationContract != Zero
    requires index > 0 && p.oldActive.policy.policyEpoch == g.policyEpoch + index - 1
    requires if index == 1 then previousRef == Zero && previousRoot == Zero
             else previousRef != Zero && previousRoot != Zero
    ensures BuildRef(p, g, index, previousRef, previousRoot).Ok?
    ensures LinkDescribes(BuildRef(p, g, index, previousRef, previousRoot).value, p, g, index, previousRef,
                          previousRoot)
  {
    hide VerifyHandoff;
    AcceptedRotation(p);
  }

  /** The tests a first package must pass against the pinned genesis. */
  predicate Starts(p: HandoffPackage, g: Genesis) {
    && NonEmpty(g.chainId)
    && g.policyEpoch > 0
    && g.chainContract != Zero && g.authorizationContract != Zero
    && p.oldActive.policy.policyEpoch == g.policyEpoch
    && PolicyDigest(p.oldActive.policy) == g.policy
  }

  /** The seed fails for its caller's stated reasons only. */
  lemma SeedExact(p: HandoffPackage, g: Genesis)
    ensures SeedChain(p, g).Ok? <==> VerifyHandoff(p).None? && Starts(p, g)
    ensures SeedChain(p, g) !in {Err(ChainStepInvalid), Err(ChainRefInvalid)}
    ensures SeedChain(p, g).Ok? ==> LinkDescribes(SeedChain(p, g).value, p, g, 1, Zero, Zero)
  {
    hide VerifyHandoff, BuildRef, LinkDescribes;
    if VerifyHandoff(p).None? && Starts(p, g) {
      BuildRefNeverFails(p, g, 1, Zero, Zero);
    }
  }

  /** The tests a successor must pass against the ref it extends. */
  predicate Extends(previous: ChainRef, p: HandoffPackage) {
    && p.oldActive.policy.policyId == previous.policyId
    && p.oldActive.policy.policyEpoch == previous.currentPolicyEpoch
    && PolicyDigest(p.oldActive.policy) == previous.currentPolicy
    && QuorumPackageDigest(p.oldActive) == previous.currentActivationPackage
    && DigestOf(QuorumCertificateJson(p.oldActive.certificate)) == previous.currentActivationCertificate
  }

  /** An advance fails for its stated reasons only: the step and ref self-checks are dead. */
  lemma AdvanceExact(previous: ChainRef, p: HandoffPackage)
    ensures AdvanceChain(previous, p).Ok? <==> ValidRef(previous) && VerifyHandoff(p).None? && Extends(previous, p)
    ensures AdvanceChain(previous, p) !in {Err(ChainStepInvalid), Err(ChainRefInvalid)}
    ensures AdvanceChain(previous, p).Ok? ==>
              LinkDescribes(AdvanceChain(previous, p).value, p, GenesisOf(previous), previous.completedHandoffs + 1,
                      RefDigest(previous), previous.chainRoot)
  {
    hide VerifyHandoff, BuildRef, LinkDescribes;
    if ValidRef(previous) && VerifyHandoff(p).None? && Extends(previous, p) {
      BuildRefNeverFails(p, GenesisOf(previous), previous.completedHandoffs + 1, RefDigest(previous),
                         previous.chainRoot);
    }
  }

  // ---------------------------------------------------------------- replay

  /** Seed with the first package, then advance with each later one. */
  function Replay(packages: seq<HandoffPackage>, g: Genesis): Result<ChainLink, ChainError>
    requires |packages| > 0
  {
    var last := |packages| - 1;
    if last == 0 then SeedChain(packages[0], g)
    else
      match Replay(packages[..last], g)
      case Err(e) => Err(e)
      case Ok(link) => AdvanceChain(link.ref, packages[last])
  }

  function ChainVerdict(packages: seq<HandoffPackage>, expected: ChainRef, g: Genesis): Result<ChainRef, ChainError> {
    if |packages| == 0 then Err(PackagesEmpty)
    else
      match Replay(packages, g)
      case Err(e) => Err(e)
      case Ok(link) =>
        if !ValidRef(expected) then Err(ExpectedRefInvalid)
        else if link.ref != expected then Err(TipMismatch)
        else Ok(expected)
  }

  lemma {:induction false} ReplayStops(packages: seq<HandoffPackage>, k: nat, g: Genesis)
    requires 0 < k <= |packages| && Replay(packages[..k], g).Err?
    ensures Replay(packages, g) == Replay(packages[..k], g)
    decreases |packages|
  {
    hide SeedChain, AdvanceChain;
    var last := |packages| - 1;
    if k == |packages| {
      assert packages[..k] == packages;
    } else {
      assert packages[..last][..k] == packages[..k];
      ReplayStops(packages[..last], k, g);
    }
  }

  method VerifyChain(packages: seq<HandoffPackage>, expected: ChainRef, g: Genesis)
    returns (r: Result<ChainRef, ChainError>)
    ensures r == ChainVerdict(packages, expected, g)
  {
    hide SeedChain, AdvanceChain, ValidRef;
    if |packages| == 0 {
      return Err(PackagesEmpty);
    }
    var result := SeedChain(packages[0], g);
    if result.Err? {
      ReplayStops(packages, 1, g);
      return Err(result.error);
    }
    var current := result.value.ref;
    for i := 1 to |packages|
      invariant Replay(packages[..i], g).Ok? && Replay(packages[..i], g).value.ref == current
    {
      result := AdvanceChain(current, packages[i]);
      assert packages[..i + 1][..i] == packages[..i];
      if result.Err? {
        ReplayStops(packages, i + 1, g);
        return Err(result.error);
      }
      current := result.value.ref;
    }
    assert packages[..|packages|] == packages;
    if !ValidRef(expected) {
      return Err(ExpectedRefInvalid);
    }
    if current != expected {
      return Err(TipMismatch);
    }
    return Ok(current);
  }

  // ---------------------------------------------------------------- whole runs

  ghost function PreviousRef(packages: seq<HandoffPackage>, g: Genesis): Digest
    requires |packages| > 0
  {
    var last := |packages| - 1;
    if last > 0 && Replay(packages[..last], g).Ok? then RefDigest(Replay(packages[..last], g).value.ref) else Zero
  }

  ghost function PreviousRoot(packages: seq<HandoffPackage>, g: Genesis): Digest
    requires |packages| > 0
  {
    var last := |packages| - 1;
    if last > 0 && Replay(packages[..last], g).Ok? then Replay(packages[..last], g).value.ref.chainRoot else Zero
  }

  /** After k handoffs of any run the count is k, the epoch is the genesis epoch plus k, the genesis is unchanged, and
      the tip describes the last package. */
  lemma {:induction false} RunInvariant(packages: seq<HandoffPackage>, g: Genesis)
    requires |packages| > 0 && Replay(packages, g).Ok?
    ensures var link, last := Replay(packages, g).value, packages[|packages| - 1];
            && LinkDescribes(link, last, g, |packages|, PreviousRef(packages, g), PreviousRoot(packages, g))
            && VerifyHandoff(last).None?
            && link.ref.completedHandoffs == |packages|
            && link.ref.currentPolicyEpoch == g.policyEpoch + |packages|
  {
    hide VerifyHandoff, SeedChain, AdvanceChain, ValidRef, StepOf;
    var last := |packages| - 1;
    if last == 0 {
      SeedExact(packages[0], g);
      AcceptedRotation(packages[0]);
    } else {
      RunInvariant(packages[..last], g);
      var previous := Replay(packages[..last], g).value.ref;
      AdvanceExact(previous, packages[last]);
      AcceptedRotation(packages[last]);
    }
  }

  lemma {:induction false} PrefixReplays(packages: seq<HandoffPackage>, g: Genesis, k: nat)
    requires 0 < k <= |packages| && Replay(packages, g).Ok?
    ensures Replay(packages[..k], g).Ok?
  {
    if Replay(packages[..k], g).Err? {
      ReplayStops(packages, k, g);
    }
  }

  /** One link of a run: the i-th package starts from exactly the package the previous one activated. */
  lemma ActivationCarriesForward(packages: seq<HandoffPackage>, g: Genesis, i: nat)
    requires 0 < i < |packages| && Replay(packages, g).Ok?
    ensures packages[i].oldActive == packages[i - 1].newActivation
    ensures VerifyHandoff(packages[i]).None?
  {
    hide VerifyHandoff, AdvanceChain, SeedChain, ValidRef, StepOf;
    PrefixReplays(packages, g, i + 1);
    PrefixReplays(packages, g, i);
    assert packages[..i + 1][..i] == packages[..i];
    RunInvariant(packages[..i], g);
    AdvanceExact(Replay(packages[..i], g).value.ref, packages[i]);
  }

  /** Over every run: handoff i starts at genesis epoch + i, the policy identifier never changes, and neither does the
      lineage view (anchor, accumulator and producer statement) the policies vouch for. */
  lemma {:induction false} RunIsContiguous(packages: seq<HandoffPackage>, g: Genesis, i: nat)
    requires i < |packages| && Replay(packages, g).Ok?
    ensures packages[i].oldActive.policy.policyEpoch == g.policyEpoch + i
    ensures PolicyDigest(packages[0].oldActive.policy) == g.policy
    ensures packages[i].oldActive.policy.policyId == packages[0].oldActive.policy.policyId
    ensures packages[i].newActivation.policy.policyId == packages[0].oldActive.policy.policyId
    ensures packages[i].newActivation.anchor == packages[0].oldActive.anchor
    ensures packages[i].newActivation.accumulator == packages[0].oldActive.accumulator
    ensures packages[i].newActivation.statement == packages[0].oldActive.statement
  {
    hide VerifyHandoff, SeedChain, AdvanceChain, ValidRef, LinkDescribes;
    PrefixReplays(packages, g, i + 1);
    if i == 0 {
      SeedExact(packages[0], g);
    } else {
      RunIsContiguous(packages, g, i - 1);
      ActivationCarriesForward(packages, g, i);
      PrefixReplays(packages, g, i);
      RunInvariant(packages[..i], g);
      AcceptedRotation(packages[i - 1]);
    }
    RunInvariant(packages[..i + 1], g);
    AcceptedRotation(packages[i]);
  }

  /** Equal tips force equal genesis and equal package lists: the tip commits to the whole run. */
  lemma {:induction false} TipDeterminesPackages(a: seq<HandoffPackage>, g: Genesis, b: seq<HandoffPackage>, h: Genesis)
    requires |a| > 0 && |b| > 0 && Replay(a, g).Ok? && Replay(b, h).Ok?
    requires Replay(a, g).value.ref == Replay(b, h).value.ref
    ensures g == h && a == b
    decreases |a|
  {
    hide VerifyHandoff, SeedChain, AdvanceChain, ValidRef, StepOf;
    RunInvariant(a, g);
    RunInvariant(b, h);
    var last := |a| - 1;
    assert HandoffPackageDigest(a[last]) == HandoffPackageDigest(b[last]);
    if last > 0 {
      PrefixReplays(a, g, last);
      PrefixReplays(b, h, last);
      assert RefDigest(Replay(a[..last], g).value.ref) == RefDigest(Replay(b[..last], h).value.ref);
      TipDeterminesPackages(a[..last], g, b[..last], h);
    }
    assert a == a[..last] + [a[last]] && b == b[..last] + [b[last]];
  }

  /** `verify_witness_policy_handoff_chain` accepts exactly the runs that end in the expected tip, and at most one
      package list is accepted for one tip. */
  lemma VerdictIsTheRun(packages: seq<HandoffPackage>, expected: ChainRef, g: Genesis)
    ensures ChainVerdict(packages, expected, g).Ok?
       <==> |packages| > 0 && Replay(packages, g).Ok? && Replay(packages, g).value.ref == expected
    ensures ChainVerdict(packages, expected, g).Ok? ==>
              forall others, h :: ChainVerdict(others, expected, h).Ok? ==> others == packages && h == g
  {
    hide Replay, SeedChain, AdvanceChain, VerifyHandoff;
    if |packages| > 0 && Replay(packages, g).Ok? {
      RunInvariant(packages, g);
      forall others, h | ChainVerdict(packages, expected, g).Ok? && ChainVerdict(others, expected, h).Ok?
        ensures others == packages && h == g
      {
        TipDeterminesPackages(others, h, packages, g);
      }
    }
  }

  /** Replay and rollback: a package the chain has consumed is refused at this and every later tip, because its old
      policy epoch is not the tip's. */
  lemma ConsumedPackageIsRejected(packages: seq<HandoffPackage>, g: Genesis, i: nat)
    requires i < |packages| && Replay(packages, g).Ok?
    ensures AdvanceChain(Replay(packages, g).value.ref, packages[i]) == Err(OldPolicyEpochMismatch)
  {
    hide VerifyHandoff, Replay, SeedChain, StepOf, ValidRef, BuildRef;
    RunInvariant(packages, g);
    RunIsContiguous(packages, g, i);
    RunIsContiguous(packages, g, |packages| - 1);
    PrefixReplays(packages, g, i + 1);
    RunInvariant(packages[..i + 1], g);
  }

  // ---------------------------------------------------------------- forks

  datatype ForkEvidence = ForkEvidence(
    chainId: string, policyId: string, previousRef: Digest, previousRoot: Digest, oldPolicyEpoch: int,
    oldPolicy: Digest, refA: Digest, refB: Digest, rootA: Digest, rootB: Digest, newPolicyA: Digest,
    newPolicyB: Digest, packageA: Digest, packageB: Digest)

  datatype ForkVerdict = ForkNotProven | Forked(evidence: ForkEvidence)

  /** The comparison of two accepted successors of one ref. */
  function ForkBetween(previous: ChainRef, x: ChainRef, y: ChainRef): ForkVerdict {
    if x == y then ForkNotProven
    else if x.currentPolicy == y.currentPolicy && x.currentHandoffPackage == y.currentHandoffPackage
         && x.currentHandoffCertificate == y.currentHandoffCertificate then ForkNotProven
    else Forked(ForkEvidence(previous.chainId, previous.policyId, RefDigest(previous), previous.chainRoot,
           previous.currentPolicyEpoch, previous.currentPolicy, RefDigest(x), RefDigest(y), x.chainRoot, y.chainRoot,
           x.currentPolicy, y.currentPolicy, x.currentHandoffPackage, y.currentHandoffPackage))
  }

  function DetectFork(previous: ChainRef, a: HandoffPackage, b: HandoffPackage): Result<ForkVerdict, ChainError> {
    match AdvanceChain(previous, a)
    case Err(e) => Err(e)
    case Ok(first) =>
      match AdvanceChain(previous, b)
      case Err(e) => Err(e)
      case Ok(second) => Ok(ForkBetween(previous, first.ref, second.ref))
  }

  /** The evidence names two different successors of one ref, by ref and by package. */
  predicate ForkNames(e: ForkEvidence, previous: ChainRef, x: ChainRef, y: ChainRef, a: HandoffPackage,
                      b: HandoffPackage)
  {
    && e.chainId == previous.chainId && e.policyId == previous.policyId
    && e.previousRef == RefDigest(previous) && e.previousRoot == previous.chainRoot
    && e.refA == RefDigest(x) && e.refB == RefDigest(y) && e.refA != e.refB
    && e.packageA == HandoffPackageDigest(a) && e.packageB == HandoffPackageDigest(b) && e.packageA != e.packageB
  }

  lemma SuccessorsDiffer(previous: ChainRef, a: HandoffPackage, b: HandoffPackage, x: ChainLink, y: ChainLink)
    requires LinkDescribes(x, a, GenesisOf(previous), previous.completedHandoffs + 1, RefDigest(previous),
                           previous.chainRoot)
    requires LinkDescribes(y, b, GenesisOf(previous), previous.completedHandoffs + 1, RefDigest(previous),
                           previous.chainRoot)
    ensures x.ref.currentHandoffPackage == HandoffPackageDigest(a)
    ensures y.ref.currentHandoffPackage == HandoffPackageDigest(b)
    ensures a == b ==> x.ref == y.ref
  {
    hide StepOf;
  }

  lemma ForkBetweenExact(previous: ChainRef, a: HandoffPackage, b: HandoffPackage, x: ChainRef, y: ChainRef)
    requires x.currentHandoffPackage == HandoffPackageDigest(a) && y.currentHandoffPackage == HandoffPackageDigest(b)
    requires a == b ==> x == y
    ensures ForkBetween(previous, x, y).Forked? <==> a != b
    ensures a != b ==> ForkNames(ForkBetween(previous, x, y).evidence, previous, x, y, a, b)
  {
  }

  /** Fork detection is exact: two accepted successors of one ref fork if and only if the packages differ, and the
      evidence then names both successors. */
  lemma ForkExact(previous: ChainRef, a: HandoffPackage, b: HandoffPackage)
    requires AdvanceChain(previous, a).Ok? && AdvanceChain(previous, b).Ok?
    ensures DetectFork(previous, a, b).Ok?
    ensures DetectFork(previous, a, b).value.Forked? <==> a != b
    ensures a != b ==>
              ForkNames(DetectFork(previous, a, b).value.evidence, previous, AdvanceChain(previous, a).value.ref,
                        AdvanceChain(previous, b).value.ref, a, b)
  {
    hide AdvanceChain, ValidRef, StepOf, LinkDescribes, ForkBetween, ForkNames, HandoffPackageDigest, RefDigest;
    AdvanceExact(previous, a);
    AdvanceExact(previous, b);
    var first, second := AdvanceChain(previous, a).value, AdvanceChain(previous, b).value;
    SuccessorsDiffer(previous, a, b, first, second);
    ForkBetweenExact(previous, a, b, first.ref, second.ref);
  }

  /** One of the observations is by this witness and has this digest. */
  ghost predicate SignedBy(digest: Digest, id: string, observations: seq<HandoffObservation>) {
    exists o :: o in observations && o.witnessId == id && digest == HandoffObservationDigest(o)
  }

  /** A conflict verdict on real signatures: at least 2 * threshold - n >= 1 distinct witnesses of the old policy, each
      with one handoff observation out of either package, and the two differ. */
  ghost predicate NamesDoubleSigners(v: RotationVerdict, a: HandoffPackage, b: HandoffPackage) {
    && v.ConflictingRotations?
    && |v.doubleSigners| >= v.minimum == MinimumIntersection(a.oldActive.policy) >= 1
    && Distinct(v.doubleSigners)
    && |v.observationsA| == |v.observationsB| == |v.doubleSigners|
    && forall i :: 0 <= i < |v.doubleSigners| ==>
         && v.doubleSigners[i] in a.oldActive.policy.authorizedWitnessIds
         && SignedBy(v.observationsA[i], v.doubleSigners[i], a.observations)
         && SignedBy(v.observationsB[i], v.doubleSigners[i], b.observations)
         && v.observationsA[i] != v.observationsB[i]
  }

  lemma SuccessorsShareTheOldSide(previous: ChainRef, a: HandoffPackage, b: HandoffPackage)
    requires AdvanceChain(previous, a).Ok? && AdvanceChain(previous, b).Ok?
    ensures VerifyHandoff(a).None? && VerifyHandoff(b).None? && a.oldActive == b.oldActive
  {
    hide AdvanceChain, VerifyHandoff, ValidRef, LinkDescribes;
    AdvanceExact(previous, a);
    AdvanceExact(previous, b);
    assert QuorumPackageDigest(a.oldActive) == QuorumPackageDigest(b.oldActive);
  }

  lemma ConflictNamesDoubleSigners(a: HandoffPackage, b: HandoffPackage)
    requires VerifyHandoff(a).None? && VerifyHandoff(b).None?
    requires a.oldActive.policy == b.oldActive.policy && a.oldActive.statement == b.oldActive.statement
    requires !SameMeaning(a.statement, b.statement)
    ensures DetectRotationConflict(a, b).Ok? && NamesDoubleSigners(DetectRotationConflict(a, b).value, a, b)
  {
    hide DetectRotationConflict, VerifyHandoff, SameMeaning, MinimumIntersection, Distinct, HandoffObservationDigest;
    ConflictingRotationsAreAttributed(a, b);
  }

  /** Two accepted successors of one ref are attributed as a conflict exactly when their rotations mean different
      things; the packages then also fork the chain, and the verdict names real double signers of the old policy. */
  lemma ForksAreAttributed(previous: ChainRef, a: HandoffPackage, b: HandoffPackage)
    requires AdvanceChain(previous, a).Ok? && AdvanceChain(previous, b).Ok?
    ensures DetectFork(previous, a, b).Ok? && DetectRotationConflict(a, b).Ok?
    ensures DetectRotationConflict(a, b).value.ConflictingRotations? <==> !SameMeaning(a.statement, b.statement)
    ensures !SameMeaning(a.statement, b.statement) ==>
              && DetectFork(previous, a, b).value.Forked?
              && NamesDoubleSigners(DetectRotationConflict(a, b).value, a, b)
  {
    hide AdvanceChain, DetectRotationConflict, DetectFork, VerifyHandoff, NamesDoubleSigners;
    SuccessorsShareTheOldSide(previous, a, b);
    ForkExact(previous, a, b);
    ConflictingRotationsAreAttributed(a, b);
    if !SameMeaning(a.statement, b.statement) {
      ConflictNamesDoubleSigners(a, b);
    }
  }
  // ---------------------------------------------------------------- whole chains

  /** The rotation detector reaches a verdict on the two packages exactly when they start from one producer statement;
      it is a conflict exactly when they mean different things, and then names real double signers. */
  ghost predicate ConflictDecides(a: HandoffPackage, b: HandoffPackage) {
    var r := DetectRotationConflict(a, b);
    && (r.Ok? <==> a.oldActive.statement == b.oldActive.statement)
    && (r.Ok? ==> (r.value.ConflictingRotations? <==> !SameMeaning(a.statement, b.statement)))
    && (r.Ok? && !SameMeaning(a.statement, b.statement) ==> NamesDoubleSigners(r.value, a, b))
  }

  /** The chains share their first d packages and differ in the next one. Past the first package they leave one ref, at
      which they fork, and one producer statement. */
  ghost predicate ChainsPartAt(a: seq<HandoffPackage>, b: seq<HandoffPackage>, g: Genesis, d: nat) {
    && d < |a| && d < |b| && a[..d] == b[..d] && a[d] != b[d]
    && ConflictDecides(a[d], b[d])
    && (d > 0 ==>
          && a[d].oldActive == b[d].oldActive
          && Replay(a[..d], g).Ok?
          && DetectFork(Replay(a[..d], g).value.ref, a[d], b[d]).Ok?
          && DetectFork(Replay(a[..d], g).value.ref, a[d], b[d]).value.Forked?)
  }

  lemma RotationsAreDecided(a: HandoffPackage, b: HandoffPackage)
    requires VerifyHandoff(a).None? && VerifyHandoff(b).None? && a.oldActive.policy == b.oldActive.policy
    ensures ConflictDecides(a, b)
  {
    hide VerifyHandoff, SameMeaning, NamesDoubleSigners;
    if a.oldActive.statement == b.oldActive.statement {
      hide DetectRotationConflict;
      ConflictingRotationsAreAttributed(a, b);
      if !SameMeaning(a.statement, b.statement) {
        ConflictNamesDoubleSigners(a, b);
      }
    }
  }

  lemma RunStep(packages: seq<HandoffPackage>, g: Genesis, d: nat)
    requires d < |packages| && Replay(packages, g).Ok?
    ensures VerifyHandoff(packages[d]).None?
    ensures d == 0 ==> PolicyDigest(packages[0].oldActive.policy) == g.policy
    ensures d > 0 ==> Replay(packages[..d], g).Ok? && AdvanceChain(Replay(packages[..d], g).value.ref, packages[d]).Ok?
  {
    hide VerifyHandoff, SeedChain, AdvanceChain, LinkDescribes;
    PrefixReplays(packages, g, d + 1);
    RunInvariant(packages[..d + 1], g);
    if d == 0 {
      RunIsContiguous(packages, g, 0);
    } else {
      PrefixReplays(packages, g, d);
      assert packages[..d + 1][..d] == packages[..d];
    }
  }

  lemma PartingForks(a: seq<HandoffPackage>, b: seq<HandoffPackage>, g: Genesis, d: nat)
    requires |a| > 0 && |b| > 0 && Replay(a, g).Ok? && Replay(b, g).Ok? && d < |a| && d < |b| && a[..d] == b[..d]
             && a[d] != b[d]
    ensures ChainsPartAt(a, b, g, d)
  {
    hide VerifyHandoff, Replay, AdvanceChain, DetectFork, ForkNames, ConflictDecides;
    RunStep(a, g, d);
    RunStep(b, g, d);
    if d > 0 {
      var tip := Replay(a[..d], g).value.ref;
      SuccessorsShareTheOldSide(tip, a[d], b[d]);
      ForkExact(tip, a[d], b[d]);
    }
    RotationsAreDecided(a[d], b[d]);
  }

  /** Two whole chains of one genesis either nest or part at exactly one position. Parting past the first package is a
      fork of the common ref. Parting at the first package has no ref to fork, and the rotation detector then decides it
      only for equal producer statements: the genesis pins the policy and not the lineage view. */
  lemma ChainsNestOrPart(a: seq<HandoffPackage>, b: seq<HandoffPackage>, g: Genesis) returns (d: nat)
    requires |a| > 0 && |b| > 0 && Replay(a, g).Ok? && Replay(b, g).Ok?
    ensures a <= b || b <= a || ChainsPartAt(a, b, g, d)
    ensures ChainsPartAt(a, b, g, d) ==> !(a <= b) && !(b <= a)
    ensures forall e: nat :: ChainsPartAt(a, b, g, e) ==> e == d
  {
    hide Replay, ConflictDecides, DetectFork;
    d := 0;
    while d < |a| && d < |b| && a[d] == b[d]
      invariant d <= |a| && d <= |b| && a[..d] == b[..d]
    {
      d := d + 1;
    }
    if d < |a| && d < |b| {
      PartingForks(a, b, g, d);
    }
    assert forall i :: 0 <= i < d ==> a[..d][i] == b[..d][i];
    forall e: nat | ChainsPartAt(a, b, g, e) ensures e == d {
      assert forall i :: 0 <= i < e ==> a[..e][i] == b[..e][i];
    }
  }
}
