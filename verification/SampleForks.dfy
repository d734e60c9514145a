/** Handoff chains that part, with accepted consistency packages to either side, and twin statements that hide it. */
module SampleForks {
  import opened Prelude
  import opened Records
  import opened AuthorityLogs
  import opened WitnessSets
  import opened LineageWitness
  import opened WitnessHandoff
  import opened HandoffChain
  import opened HandoffMembership
  import opened HandoffConsistency
  import opened SampleChains

  // ---------------------------------------------------------------- twin statements

  /** The authority's statement about an endpoint. */
  function StatementAbout(e: HandoffEndpoint, sequence: int, previous: Digest, provenance: Digest)
    : HandoffAnchorStatement
  {
    var a := e.anchor;
    HandoffAnchorStatement(true, "authority", sequence, previous, provenance, a.chainId, a.policyId,
      a.genesisPolicyEpoch,
      a.genesisPolicy, a.treeSize, DigestOf(HandoffAnchorJson(a)), a.merkleRoot, RefDigest(e.currentRef),
      a.currentChainRoot, a.currentStepCommitment, a.currentPolicyEpoch, a.currentPolicy, a.treeAlgorithm,
      a.chainContract, a.chainAuthorizationContract, a.membershipContract, a.authorizationContract)
  }

  /** It is the one the builder makes. */
  lemma StatementIsBuilt(e: HandoffEndpoint, sequence: int, previous: Digest, provenance: Digest)
    requires ValidHandoffAnchor(e.anchor, e.currentRef) && provenance != Zero && sequence > 0
    requires if sequence == 1 then previous == Zero else previous != Zero
    ensures ValidAnchorStatement(StatementAbout(e, sequence, previous, provenance), e.anchor, e.currentRef)
    ensures BuildAnchorStatement(e.anchor, e.currentRef, true, "authority", sequence, previous, provenance)
         == Ok(StatementAbout(e, sequence, previous, provenance))
  {
    hide ValidHandoffAnchor, BuildAnchorStatement;
    AnchorStatementsAreTheBuiltOnes(e.anchor, e.currentRef, StatementAbout(e, sequence, previous, provenance));
  }

  /** One statement about either end of a package. */
  function TwoSteps(p: HandoffConsistencyPackage, provenance: Digest): (log: seq<PublishedHandoff>)
    ensures |log| == 2
  {
    var first := StatementAbout(p.oldEndpoint, 1, Zero, provenance);
    [PublishedHandoff(p.oldEndpoint, first),
     PublishedHandoff(p.newEndpoint, StatementAbout(p.newEndpoint, 2, AnchorStatementDigest(first), provenance))]
  }

  lemma TwoStepsAreALog(p: HandoffConsistencyPackage, provenance: Digest)
    requires VerifyHandoffConsistency(p).None? && provenance != Zero
    ensures HandoffLog(TwoSteps(p, provenance))
  {
    hide VerifyHandoffConsistency, ValidAnchorStatement, ValidHandoffAnchor, BuildAnchorStatement, SharedContextFault,
      CurrentStepBound;
    var log := TwoSteps(p, provenance);
    AcceptedHandoffConsistency(p);
    StatementIsBuilt(p.oldEndpoint, 1, Zero, provenance);
    StatementIsBuilt(p.newEndpoint, 2, AnchorStatementDigest(log[0].statement), provenance);
    assert p == HandoffConsistencyPackage(p.oldEndpoint, p.newEndpoint, p.proof);
    assert HandoffSucceeds(log[0], log[1]);
  }

  /** Two logs of one authority, over twin first statements about one endpoint and then over different endpoints, that
      split without a single reported pair. */
  ghost predicate Missed(p: HandoffConsistencyPackage, q: HandoffConsistencyPackage) {
    var a, b := TwoSteps(p, Foreign(1)), TwoSteps(q, Foreign(2));
    && HandoffLog(a) && HandoffLog(b) && a[0].endpoint == b[0].endpoint
    && a[1].endpoint == p.newEndpoint && b[1].endpoint == q.newEndpoint
    && SplitAt(Entries(a), Entries(b), 0) && !SomeHandoffReported(a, b)
  }

  /** Whenever one endpoint has accepted extensions of two different sizes, an authority that issues twin first
      statements can show either extension to a different client, and no pair of its four statements is reported. */
  lemma TwinsAreNeverReported(p: HandoffConsistencyPackage, q: HandoffConsistencyPackage)
    requires VerifyHandoffConsistency(p).None? && VerifyHandoffConsistency(q).None? && p.oldEndpoint == q.oldEndpoint
    requires p.newEndpoint.anchor.treeSize != q.newEndpoint.anchor.treeSize
    ensures Missed(p, q)
  {
    hide VerifyHandoffConsistency, HandoffLog, SomeHandoffReported;
    var a, b := TwoSteps(p, Foreign(1)), TwoSteps(q, Foreign(2));
    TwoStepsAreALog(p, Foreign(1));
    TwoStepsAreALog(q, Foreign(2));
    assert Entries(a)[0].statement != Entries(b)[0].statement;
    SplitHandoffLogsAreDetected(a, b, 0);
  }

  // ---------------------------------------------------------------- chains that part

  /** n rotations, and then one under the given handoff contract. */
  function Parted(q: QuorumPackage, n: nat, contract: Digest): (r: seq<HandoffPackage>)
    requires Distinct(Everyone(q))
    ensures |r| == n + 1
  {
    Chain(q, n) + [Rotation(q, n, contract)]
  }

  /** The chain after two more rotations. */
  function TwoMore(q: QuorumPackage, n: nat): seq<HandoffPackage>
    requires Distinct(Everyone(q))
  {
    Chain(q, n + 2)
  }

  lemma PartedReplays(q: QuorumPackage, n: nat, contract: Digest)
    requires VerifyQuorum(q).None? && n > 0 && contract != Zero && Distinct(Everyone(q))
    ensures Replay(Parted(q, n, contract), Start(q)).Ok?
  {
    hide Rotation, VerifyQuorum, VerifyHandoff, AdvanceChain, SeedChain, LinkDescribes, Distinct;
    ChainsExist(q, n);
    TipAdvances(q, n, contract);
    assert Parted(q, n, contract)[..n] == Chain(q, n);
  }

  lemma ReplayIsHistory(packages: seq<HandoffPackage>, g: Genesis) returns (tip: ChainRef)
    requires |packages| > 0 && Replay(packages, g).Ok?
    ensures ValidHandoffHistory(packages, tip) && GenesisOf(tip) == g && tip.completedHandoffs == |packages|
  {
    hide Replay, VerifyHandoff, ValidRef, StepOf;
    tip := Replay(packages, g).value.ref;
    RunInvariant(packages, g);
  }

  /** An accepted package from one real chain to another. */
  ghost predicate ProvenExtension(p: HandoffConsistencyPackage, oldPackages: seq<HandoffPackage>, oldTip: ChainRef,
                                  newPackages: seq<HandoffPackage>, newTip: ChainRef)
  {
    && ValidHandoffHistory(oldPackages, oldTip) && ValidHandoffHistory(newPackages, newTip)
    && Connects(p, oldPackages, oldTip, newPackages, newTip, Foreign(6), Foreign(7))
  }

  lemma PackageTo(oldPackages: seq<HandoffPackage>, oldTip: ChainRef, newPackages: seq<HandoffPackage>,
                  newTip: ChainRef)
    returns (p: HandoffConsistencyPackage)
    requires ValidHandoffHistory(oldPackages, oldTip) && ValidHandoffHistory(newPackages, newTip)
    requires |oldPackages| < |newPackages| && oldPackages == newPackages[..|oldPackages|]
    requires GenesisOf(oldTip) == GenesisOf(newTip)
    ensures ProvenExtension(p, oldPackages, oldTip, newPackages, newTip)
  {
    hide ValidHandoffHistory, Connects;
    HandoffConsistencyExact(oldPackages, oldTip, newPackages, newTip, Foreign(6), Foreign(7));
    p :| Connects(p, oldPackages, oldTip, newPackages, newTip, Foreign(6), Foreign(7));
  }

  lemma SharedStart(p: HandoffConsistencyPackage, q: HandoffConsistencyPackage)
    requires VerifyHandoffConsistency(p).None? && VerifyHandoffConsistency(q).None?
    requires p.oldEndpoint.anchor == q.oldEndpoint.anchor
    ensures p.oldEndpoint == q.oldEndpoint
  {
    hide VerifyHandoffConsistency, ValidHandoffAnchor, SharedContextFault, CurrentStepBound;
    AcceptedHandoffConsistency(p);
    AcceptedHandoffConsistency(q);
    SameHandoffEndpoint(p.oldEndpoint, q.oldEndpoint);
  }

  lemma ExtensionFacts(p: HandoffConsistencyPackage, q: HandoffConsistencyPackage, oldPackages: seq<HandoffPackage>,
                       oldTip: ChainRef, left: seq<HandoffPackage>, leftTip: ChainRef, right: seq<HandoffPackage>,
                       rightTip: ChainRef)
    requires ProvenExtension(p, oldPackages, oldTip, left, leftTip)
             && ProvenExtension(q, oldPackages, oldTip, right, rightTip)
    ensures VerifyHandoffConsistency(p).None? && VerifyHandoffConsistency(q).None? && p.oldEndpoint == q.oldEndpoint
    ensures p.newEndpoint.anchor.treeSize == |left| && q.newEndpoint.anchor.treeSize == |right|
  {
    hide VerifyHandoffConsistency, Replay, RecordAt;
    SharedStart(p, q);
  }

  /** The chains share n packages, and then rotate with different meaning. */
  predicate PartAt(left: seq<HandoffPackage>, right: seq<HandoffPackage>, n: nat) {
    n < |left| && n < |right| && left[..n] == right[..n] && !SameMeaning(left[n].statement, right[n].statement)
  }

  /** At every length every chain can part for good: two real chains that share n packages and then rotate with
      different meaning, each with an accepted package from the shared part, and with twin statements the split is
      missed. */
  lemma PartedChainsAreMissed(q: QuorumPackage, n: nat, contract: Digest)
    returns (tip: ChainRef, leftTip: ChainRef, rightTip: ChainRef, left: HandoffConsistencyPackage,
             right: HandoffConsistencyPackage)
    requires VerifyQuorum(q).None? && n > 0 && contract != Foreign(1) && contract != Zero && Distinct(Everyone(q))
    ensures PartAt(Parted(q, n, contract), TwoMore(q, n), n)
    ensures ProvenExtension(left, Chain(q, n), tip, Parted(q, n, contract), leftTip)
    ensures ProvenExtension(right, Chain(q, n), tip, TwoMore(q, n), rightTip)
    ensures Missed(left, right)
  {
    hide Rotation, Replay, SameMeaning, ProvenExtension, Missed, ValidHandoffHistory, VerifyHandoffConsistency,
      VerifyQuorum, Distinct;
    ChainsExist(q, n);
    ChainsExist(q, n + 2);
    PartedReplays(q, n, contract);
    tip := ReplayIsHistory(Chain(q, n), Start(q));
    leftTip := ReplayIsHistory(Parted(q, n, contract), Start(q));
    rightTip := ReplayIsHistory(TwoMore(q, n), Start(q));
    assert Chain(q, n + 2) == Chain(q, n) + [Rotation(q, n, Foreign(1)), Rotation(q, n + 1, Foreign(1))];
    ContractsChangeMeaning(q, n, contract, Foreign(1));
    left := PackageTo(Chain(q, n), tip, Parted(q, n, contract), leftTip);
    right := PackageTo(Chain(q, n), tip, TwoMore(q, n), rightTip);
    ExtensionFacts(left, right, Chain(q, n), tip, Parted(q, n, contract), leftTip, TwoMore(q, n), rightTip);
    TwinsAreNeverReported(left, right);
  }
}
