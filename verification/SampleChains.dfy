/** From every accepted package, over every policy, handoff chains of every length exist, and at every tip they fork. */
module SampleChains {
  import opened Prelude
  import opened Records
  import opened LineageMembership
  import opened LineageConsistency
  import opened WitnessSets
  import opened LineageWitness
  import opened WitnessHandoff
  import opened Countersigning
  import SelfForks
  import HandoffChain

  function Everyone(q: QuorumPackage): seq<string> {
    q.policy.authorizedWitnessIds
  }

  /** The active package after n rotations by the whole electorate. */
  function ActiveAfter(q: QuorumPackage, n: nat): QuorumPackage {
    if n == 0 then q else Activated(ActiveAfter(q, n - 1), Foreign(1), Everyone(q), 1)
  }

  function Rotation(q: QuorumPackage, k: nat, contract: Digest): HandoffPackage
    requires Distinct(Everyone(q))
  {
    Rotated(ActiveAfter(q, k), contract, Everyone(q), 1)
  }

  function Chain(q: QuorumPackage, n: nat): (r: seq<HandoffPackage>)
    requires Distinct(Everyone(q))
    ensures |r| == n
  {
    if n == 0 then [] else Chain(q, n - 1) + [Rotation(q, n - 1, Foreign(1))]
  }

  function Start(q: QuorumPackage): HandoffChain.Genesis {
    HandoffChain.Genesis("chain", q.policy.policyEpoch, PolicyDigest(q.policy), Foreign(15), Foreign(16))
  }

  lemma EveryoneIsDistinct(q: QuorumPackage)
    requires VerifyQuorum(q).None?
    ensures Distinct(Everyone(q)) && IsQuorum(Everyone(q), q.policy)
  {
    hide VerifyQuorum, ValidStatement, ValidObservation, ValidPolicy;
    AcceptedQuorum(q);
    SelfForks.EveryoneIsAQuorum(q.policy);
  }

  lemma {:induction false} ActiveVerifies(q: QuorumPackage, n: nat)
    requires VerifyQuorum(q).None?
    ensures VerifyQuorum(ActiveAfter(q, n)).None? && Everyone(ActiveAfter(q, n)) == Everyone(q)
  {
    hide VerifyQuorum, Activations, CertificateFor;
    if n > 0 {
      ActiveVerifies(q, n - 1);
      EveryoneIsDistinct(ActiveAfter(q, n - 1));
      ActivationVerifies(ActiveAfter(q, n - 1), Foreign(1), Everyone(q), 1);
    }
  }

  lemma RotationVerifies(q: QuorumPackage, k: nat, contract: Digest)
    requires VerifyQuorum(q).None? && contract != Zero
    ensures Distinct(Everyone(q)) && VerifyHandoff(Rotation(q, k, contract)).None?
    ensures Rotation(q, k, contract).oldActive == ActiveAfter(q, k)
    ensures Rotation(q, k, Foreign(1)).newActivation == ActiveAfter(q, k + 1)
  {
    hide VerifyQuorum, VerifyHandoff, HandoffReceipt, RoleFor, Distinct, IsQuorum, Rotations, Activations;
    ActiveVerifies(q, k);
    EveryoneIsDistinct(q);
    EveryoneIsDistinct(ActiveAfter(q, k));
    RotatedVerifies(ActiveAfter(q, k), contract, Everyone(q), 1);
  }

  lemma SampleAdvances(q: QuorumPackage, link: HandoffChain.ChainLink, k: nat, contract: Digest, previousRef: Digest,
                       previousRoot: Digest)
    requires VerifyQuorum(q).None? && contract != Zero && Distinct(Everyone(q))
    requires HandoffChain.LinkDescribes(link, Rotation(q, k, Foreign(1)), Start(q), k + 1, previousRef, previousRoot)
    ensures HandoffChain.AdvanceChain(link.ref, Rotation(q, k + 1, contract)).Ok?
  {
    hide Rotation, VerifyQuorum, VerifyHandoff, HandoffChain.AdvanceChain, HandoffChain.ValidRef, HandoffChain.StepOf,
      Distinct, ActiveAfter;
    RotationVerifies(q, k, Foreign(1));
    RotationVerifies(q, k + 1, contract);
    HandoffChain.AdvanceExact(link.ref, Rotation(q, k + 1, contract));
  }

  /** From every accepted package handoff chains of every length exist. */
  lemma {:induction false} ChainsExist(q: QuorumPackage, n: nat)
    requires VerifyQuorum(q).None? && n > 0
    ensures Distinct(Everyone(q)) && HandoffChain.Replay(Chain(q, n), Start(q)).Ok?
  {
    hide Rotation, VerifyQuorum, VerifyHandoff, HandoffChain.AdvanceChain, HandoffChain.SeedChain,
      HandoffChain.LinkDescribes, Distinct;
    EveryoneIsDistinct(q);
    if n == 1 {
      RotationVerifies(q, 0, Foreign(1));
      HandoffChain.SeedExact(Rotation(q, 0, Foreign(1)), Start(q));
      FirstStarts(q);
      assert Chain(q, 1) == [Rotation(q, 0, Foreign(1))];
    } else {
      ChainsExist(q, n - 1);
      assert Chain(q, n)[..n - 1] == Chain(q, n - 1);
      TipAdvances(q, n - 1, Foreign(1));
    }
  }

  /** The tip after n rotations. */
  ghost function TipAfter(q: QuorumPackage, n: nat): (tip: ChainRef)
    requires VerifyQuorum(q).None? && n > 0
    ensures Distinct(Everyone(q)) && HandoffChain.Replay(Chain(q, n), Start(q)).Ok?
    ensures HandoffChain.Replay(Chain(q, n), Start(q)).value.ref == tip
  {
    ChainsExist(q, n);
    HandoffChain.Replay(Chain(q, n), Start(q)).value.ref
  }

  lemma TipAdvances(q: QuorumPackage, n: nat, contract: Digest)
    requires VerifyQuorum(q).None? && n > 0 && contract != Zero && Distinct(Everyone(q))
    requires HandoffChain.Replay(Chain(q, n), Start(q)).Ok?
    ensures HandoffChain.AdvanceChain(HandoffChain.Replay(Chain(q, n), Start(q)).value.ref,
                                      Rotation(q, n, contract)).Ok?
  {
    hide Rotation, VerifyQuorum, VerifyHandoff, HandoffChain.AdvanceChain, HandoffChain.Replay,
      HandoffChain.LinkDescribes, Distinct;
    HandoffChain.RunInvariant(Chain(q, n), Start(q));
    SampleAdvances(q, HandoffChain.Replay(Chain(q, n), Start(q)).value, n - 1, contract,
                   HandoffChain.PreviousRef(Chain(q, n), Start(q)), HandoffChain.PreviousRoot(Chain(q, n), Start(q)));
  }

  /** The packages are two accepted successors of the ref that mean different things, fork the chain, and conflict. */
  predicate ForkAt(tip: ChainRef, a: HandoffPackage, b: HandoffPackage) {
    && HandoffChain.AdvanceChain(tip, a).Ok? && HandoffChain.AdvanceChain(tip, b).Ok?
    && !SameMeaning(a.statement, b.statement)
    && HandoffChain.DetectFork(tip, a, b).Ok? && HandoffChain.DetectFork(tip, a, b).value.Forked?
    && DetectRotationConflict(a, b).Ok? && DetectRotationConflict(a, b).value.ConflictingRotations?
  }

  /** At the tip of a chain of any length, any two handoff contracts give two accepted successors of different meaning:
      they fork the chain, and the conflict detector names the double signers. */
  lemma ForksExist(q: QuorumPackage, n: nat, x: Digest, y: Digest)
    requires VerifyQuorum(q).None? && n > 0 && x != y && x != Zero && y != Zero
    ensures Distinct(Everyone(q)) && ForkAt(TipAfter(q, n), Rotation(q, n, x), Rotation(q, n, y))
  {
    hide Rotation, VerifyQuorum, VerifyHandoff, SameMeaning, DetectRotationConflict, HandoffChain.AdvanceChain,
      HandoffChain.Replay, HandoffChain.DetectFork, HandoffChain.NamesDoubleSigners, TipAfter, Distinct;
    var tip := TipAfter(q, n);
    TipAdvances(q, n, x);
    TipAdvances(q, n, y);
    ContractsChangeMeaning(q, n, x, y);
    HandoffChain.ForksAreAttributed(tip, Rotation(q, n, x), Rotation(q, n, y));
  }

  lemma FirstStarts(q: QuorumPackage)
    requires VerifyQuorum(q).None? && Distinct(Everyone(q))
    ensures HandoffChain.Starts(Rotation(q, 0, Foreign(1)), Start(q))
  {
    hide VerifyQuorum, ValidStatement, ValidObservation, Ordered, Distinct, Rotation;
    AcceptedQuorum(q);
    RotationVerifies(q, 0, Foreign(1));
  }

  lemma ContractsChangeMeaning(q: QuorumPackage, k: nat, x: Digest, y: Digest)
    requires Distinct(Everyone(q)) && x != y
    ensures !SameMeaning(Rotation(q, k, x).statement, Rotation(q, k, y).statement)
  {
    hide HandoffReceipt, ActiveAfter, Activated, Rotations, RoleFor, Distinct;
  }

  /** Over one policy, packages for different producer statements start chains of one genesis: chains of any lengths
      that part at their first package, which the rotation detector refuses to compare. */
  lemma FirstPackagesPartUnseen(q: QuorumPackage, r: QuorumPackage, m: nat, n: nat)
    requires VerifyQuorum(q).None? && VerifyQuorum(r).None? && q.policy == r.policy && q.statement != r.statement
    requires m > 0 && n > 0
    ensures Distinct(Everyone(q)) && Start(q) == Start(r)
    ensures HandoffChain.Replay(Chain(q, m), Start(q)).Ok? && HandoffChain.Replay(Chain(r, n), Start(q)).Ok?
    ensures Chain(q, m)[0] != Chain(r, n)[0]
    ensures DetectRotationConflict(Chain(q, m)[0], Chain(r, n)[0]) == Err(ProducerContextMismatch)
  {
    hide Rotation, VerifyQuorum, VerifyHandoff, HandoffChain.Replay, SameMeaning, Distinct;
    ChainsExist(q, m);
    ChainsExist(r, n);
    FirstOfChain(q, m);
    FirstOfChain(r, n);
    RotationVerifies(q, 0, Foreign(1));
    RotationVerifies(r, 0, Foreign(1));
  }

  lemma {:induction false} FirstOfChain(q: QuorumPackage, n: nat)
    requires Distinct(Everyone(q)) && n > 0
    ensures Chain(q, n)[0] == Rotation(q, 0, Foreign(1))
  {
    hide Rotation, Distinct;
    if n > 1 {
      FirstOfChain(q, n - 1);
    }
  }
}
