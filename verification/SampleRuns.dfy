/** The lineage protocols can run: lineage runs of every length, runs that part after their first cycle, witnessed
    successors, a detected split, and the splits nothing detects. */
module SampleRuns {
  import opened Prelude
  import opened MerkleTree
  import opened Frontier
  import opened Records
  import opened PortableCausality
  import opened LineageCompaction
  import opened LineageMembership
  import opened LineageConsistency
  import opened WitnessSets
  import opened LineageWitness
  import opened Countersigning
  import opened SelfForks
  import opened AuthorityLogs

  // ---------------------------------------------------------------- lineage runs

  ghost function Pick(s: set<Digest>): (d: Digest)
    requires s != {}
    ensures d in s
  {
    var d :| d in s;
    d
  }

  /** Trichotomous orders of digests exist. */
  lemma OrdersExist() returns (lt: Order)
    ensures Trichotomous(lt)
  {
    lt := (a, b) => a != b && Pick({a, b}) == a;
    forall a, b ensures if a == b then !lt(a, b) else lt(a, b) != lt(b, a) {
      assert {a, b} == {b, a};
    }
  }

  /** The state before cycle k + 1. Runs of different variants share their first cycle and part in the second. */
  function Common(k: nat, v: nat): StateRef {
    StateRef("td", "st", 2 * k, Foreign(3 * (k + (if k <= 1 then 0 else v)) + 10))
  }

  function BranchA(k: nat, v: nat): BranchEvidence {
    BranchEvidence(true, "pa", "qa", Foreign(0), "td", "ba", DigestOf(StateRefJson(Common(k, v))), Foreign(3 * k + 11),
                   Foreign(4), Foreign(5))
  }

  function BranchB(k: nat, v: nat): BranchEvidence {
    BranchEvidence(true, "pb", "qb", Foreign(1), "td", "bb", DigestOf(StateRefJson(Common(k, v))), Foreign(3 * k + 12),
                   Foreign(4), Foreign(5))
  }

  function VoteFor(k: nat, v: nat, b: BranchEvidence, provenance: Digest): Vote {
    var tip := TipOf(Common(k, v), b);
    Vote(true, b.providerId, b.authorityId, provenance, "td", "rc", DigestOf(BranchRefJson(tip.branchRef)),
         DigestOf(StateRefJson(tip.stateRef)), TipDigest(tip), Common(k + 1, v).semanticState, Foreign(6), Foreign(7))
  }

  function Branches(k: nat, v: nat): seq<BranchEvidence> {
    [BranchA(k, v), BranchB(k, v)]
  }

  function Votes(k: nat, v: nat): seq<Vote> {
    [VoteFor(k, v, BranchA(k, v), Foreign(2)), VoteFor(k, v, BranchB(k, v), Foreign(3))]
  }

  /** No evidence leaks into a portable record. */
  const NO_LEAKS: LeakTest := (c, branches, votes) => false

  lemma SampleIsReconcilable(k: nat, v: nat)
    ensures Reconcilable(Common(k, v), BranchA(k, v), BranchB(k, v), Votes(k, v)[0], Votes(k, v)[1])
  {
  }

  /** Provider and authority names start with p or q; provenance digests are the first four. */
  predicate Portable(t: Token) {
    match t
    case Word(text) => text == "" || text[0] !in {'p', 'q'}
    case Hex(digest) => digest !in {Foreign(0), Foreign(1), Foreign(2), Foreign(3)}
  }

  lemma ForbiddenIsNotPortable(k: nat, v: nat)
    ensures forall t :: t in ForbiddenTokens(Branches(k, v), Votes(k, v)) ==> !Portable(t)
  {
    hide TipOf, TipDigest;
  }

  lemma StateIsPortable(s: StateRef)
    requires s.trustDomain == "td" && s.logicalStateId == "st" && Portable(Hex(s.semanticState))
    ensures forall t :: t in StateTokens(s) ==> Portable(t)
  {
  }

  lemma TipIsPortable(tip: BranchTip, k: nat, v: nat)
    requires tip in {TipOf(Common(k, v), BranchA(k, v)), TipOf(Common(k, v), BranchB(k, v))}
    ensures forall t :: t in TipTokens(tip) ==> Portable(t)
    ensures forall t :: t in ParentTokens(ParentOf(tip)) ==> Portable(t)
  {
    hide StateTokens;
    StateIsPortable(tip.stateRef);
  }

  lemma SampleTokensAreDisjoint(k: nat, v: nat, t0: BranchTip, t1: BranchTip, vote: Vote)
    requires t0 in {TipOf(Common(k, v), BranchA(k, v)), TipOf(Common(k, v), BranchB(k, v))}
    requires t1 in {TipOf(Common(k, v), BranchA(k, v)), TipOf(Common(k, v), BranchB(k, v))}
    requires vote in Votes(k, v)
    ensures var a := Assemble(Common(k, v), t0, t1, vote);
            ForbiddenTokens(Branches(k, v), Votes(k, v))
            * PortableTokens(t0, t1, a.reconciledStateRef.value, a.reconciliationRef.value) == {}
  {
    hide ForbiddenTokens, TipTokens, ParentTokens, StateTokens, ReconciliationTokens, TipOf;
    var a := Assemble(Common(k, v), t0, t1, vote);
    ForbiddenIsNotPortable(k, v);
    TipIsPortable(t0, k, v);
    TipIsPortable(t1, k, v);
    StateIsPortable(a.reconciledStateRef.value);
    ReferenceIsPortable(a.reconciliationRef.value);
  }

  lemma ReferenceIsPortable(ref: ReconciliationRef)
    requires ref.trustDomain == "td" && ref.logicalStateId == "st" && ref.logicalReconciliationId == "rc"
    requires ref.commonStateRef.DigestOf? && ref.parentSet.DigestOf? && ref.resultStateRef.DigestOf?
    requires ref.reconciliationContract == Foreign(6) && ref.authorizationContract == Foreign(7)
    requires |ref.parentTips| == 2 && ref.parentTips[0].DigestOf? && ref.parentTips[1].DigestOf?
    ensures forall t :: t in ReconciliationTokens(ref) ==> Portable(t)
  {
    forall d | d in ref.parentTips ensures d.DigestOf? {
    }
  }

  /** Every sample cycle reconciles, and its result is the next common state. */
  lemma SampleReconciles(lt: Order, k: nat, v: nat)
    requires Trichotomous(lt)
    ensures var r := Reconcile(lt, Common(k, v), Branches(k, v), Votes(k, v));
            r.Ok? && r.value.reconciledStateRef == Some(Common(k + 1, v))
  {
    hide Trichotomous, Reconcilable, ReconcilePair, ValidAgreement, ForbiddenTokens, PortableTokens, TipOf, BranchA,
      BranchB;
    var a, b, x, y := BranchA(k, v), BranchB(k, v), Votes(k, v)[0], Votes(k, v)[1];
    SampleIsReconcilable(k, v);
    PairCases(lt, Common(k, v), a, b, x, y);
    ConcludeIsSound(lt, Common(k, v), a, b, x, y);
    SampleTokensAreDisjoint(k, v, TipOf(Common(k, v), a), TipOf(Common(k, v), b), x);
    SampleTokensAreDisjoint(k, v, TipOf(Common(k, v), b), TipOf(Common(k, v), a), x);
  }

  /** What cycle k + 1 of variant v agrees on. */
  ghost function Agreed(lt: Order, k: nat, v: nat): (a: Agreement)
    requires Trichotomous(lt)
    ensures Reconcile(lt, Common(k, v), Branches(k, v), Votes(k, v)) == Ok(a)
    ensures a.reconciledStateRef == Some(Common(k + 1, v))
  {
    SampleReconciles(lt, k, v);
    Reconcile(lt, Common(k, v), Branches(k, v), Votes(k, v)).value
  }

  lemma SeedSucceeds(lt: Order, common: StateRef, a: Agreement, contract: Digest)
    requires ValidAgreement(lt, a, common) && contract != Zero
    ensures Seed(lt, common, a, contract, Foreign(9)).Ok?
    ensures SeedStep(lt, CycleRecord(1, common, a, Seed(lt, common, a, contract, Foreign(9)).value))
    ensures Seed(lt, common, a, contract, Foreign(9)).value.accumulatorContract == contract
  {
    hide CycleSummaryOf;
  }

  /** The first |records| cycles of variant v, over an accumulator contract. */
  ghost predicate SampleRun(lt: Order, records: seq<CycleRecord>, v: nat, contract: Digest)
    requires Trichotomous(lt)
  {
    && |records| > 0
    && Run(lt, NO_LEAKS, records)
    && records[0].accumulator.accumulatorContract == contract
    && forall i :: 0 <= i < |records| ==> SampleCycle(lt, records[i], i, v)
  }

  ghost predicate SampleCycle(lt: Order, r: CycleRecord, i: nat, v: nat)
    requires Trichotomous(lt)
  {
    r.common == Common(i, v) && r.reconciliation == Agreed(lt, i, v)
  }

  lemma SampleSeed(lt: Order, v: nat, contract: Digest) returns (records: seq<CycleRecord>)
    requires Trichotomous(lt) && contract != Zero
    ensures |records| == 1 && SampleRun(lt, records, v, contract)
  {
    hide Reconcile, ValidAgreement, Seed, SeedStep, Agreed, Branches, Votes;
    SelfChecksNeverFail(lt, Common(0, v), Branches(0, v), Votes(0, v));
    var agreement := Agreed(lt, 0, v);
    SeedSucceeds(lt, Common(0, v), agreement, contract);
    var acc := Seed(lt, Common(0, v), agreement, contract, Foreign(9));
    records := [CycleRecord(1, Common(0, v), agreement, acc.value)];
  }

  lemma AdvanceSucceeds(lt: Order, previous: Accumulator, k: nat, v: nat)
    requires Trichotomous(lt)
    requires ValidAccumulator(previous) && previous.currentStateRef == DigestOf(StateRefJson(Common(k, v)))
    requires previous.trustDomain == "td" && previous.logicalStateId == "st"
    requires ValidAgreement(lt, Agreed(lt, k, v), Common(k, v))
    ensures var r := Advance(lt, NO_LEAKS, previous, Common(k, v), Branches(k, v), Votes(k, v));
            r.Ok? && r.value.reconciliation == Agreed(lt, k, v)
  {
    hide Reconcile, ValidAccumulator, Successor, BuildReceipt, Agreed, Branches, Votes;
    SuccessorExists(lt, previous, Common(k, v), Agreed(lt, k, v));
  }

  lemma SampleStep(lt: Order, records: seq<CycleRecord>, v: nat, contract: Digest) returns (next: CycleRecord)
    requires Trichotomous(lt) && SampleRun(lt, records, v, contract)
    ensures AdvanceStep(lt, NO_LEAKS, records[|records| - 1], next)
    ensures SampleCycle(lt, next, |records|, v)
  {
    hide Reconcile, Run, ValidAccumulator, Advance, ValidAgreement, Agreed, Branches, Votes;
    var k := |records|;
    var last := records[k - 1];
    RunInvariant(lt, NO_LEAKS, records, k - 1);
    SelfChecksNeverFail(lt, Common(k, v), Branches(k, v), Votes(k, v));
    AdvanceSucceeds(lt, last.accumulator, k, v);
    var r := Advance(lt, NO_LEAKS, last.accumulator, Common(k, v), Branches(k, v), Votes(k, v));
    next := CycleRecord(k + 1, Common(k, v), r.value.reconciliation, r.value.accumulator);
    assert Advance(lt, NO_LEAKS, last.accumulator, next.common, Branches(k, v), Votes(k, v))
        == Ok(Compaction(next.reconciliation, next.accumulator, r.value.receipt));
  }

  lemma RunGrows(lt: Order, records: seq<CycleRecord>, next: CycleRecord)
    requires Run(lt, NO_LEAKS, records) && |records| > 0 && AdvanceStep(lt, NO_LEAKS, records[|records| - 1], next)
    ensures Run(lt, NO_LEAKS, records + [next])
  {
    hide SeedStep, AdvanceStep;
  }

  lemma SampleRunGrows(lt: Order, records: seq<CycleRecord>, v: nat, contract: Digest, next: CycleRecord)
    requires Trichotomous(lt) && SampleRun(lt, records, v, contract)
    requires AdvanceStep(lt, NO_LEAKS, records[|records| - 1], next)
    requires SampleCycle(lt, next, |records|, v)
    ensures SampleRun(lt, records + [next], v, contract)
  {
    hide Run, Trichotomous, AdvanceStep, SampleCycle;
    RunGrows(lt, records, next);
  }

  /** Lineage runs of every length, variant and accumulator contract exist. */
  lemma {:induction false} LineageRunsExist(lt: Order, n: nat, v: nat, contract: Digest)
    returns (records: seq<CycleRecord>)
    requires Trichotomous(lt) && n > 0 && contract != Zero
    ensures |records| == n && SampleRun(lt, records, v, contract)
  {
    hide Run, Trichotomous, AdvanceStep, SampleCycle;
    if n == 1 {
      records := SampleSeed(lt, v, contract);
    } else {
      var shorter := LineageRunsExist(lt, n - 1, v, contract);
      var next := SampleStep(lt, shorter, v, contract);
      SampleRunGrows(lt, shorter, v, contract, next);
      records := shorter + [next];
    }
  }

  // ---------------------------------------------------------------- packages between runs

  function Tip(records: seq<CycleRecord>): Accumulator
    requires |records| > 0
  {
    records[|records| - 1].accumulator
  }

  function EndpointOf(records: seq<CycleRecord>): Endpoint
    requires |records| > 0
  {
    Endpoint(AnchorOf(records, Tip(records), Foreign(6), Foreign(7)), Tip(records))
  }

  lemma SampleCommitment(lt: Order, records: seq<CycleRecord>, v: nat, contract: Digest, i: nat)
    requires Trichotomous(lt) && SampleRun(lt, records, v, contract) && i < |records|
    ensures Complete(Agreed(lt, i, v))
    ensures records[i].accumulator.cycleCommitment == Commitment(i + 1, Common(i, v), Agreed(lt, i, v))
  {
    hide Run, ValidAgreement, ValidAccumulator, Agreed, Common;
    RunInvariant(lt, NO_LEAKS, records, i);
  }

  lemma VariantsShareTheFirstCycle(lt: Order, v: nat, w: nat)
    requires Trichotomous(lt)
    ensures Common(0, v) == Common(0, w) && Agreed(lt, 0, v) == Agreed(lt, 0, w)
  {
    assert Branches(0, v) == Branches(0, w) && Votes(0, v) == Votes(0, w);
  }

  lemma SampleIsHistory(lt: Order, records: seq<CycleRecord>, v: nat, contract: Digest)
    requires Trichotomous(lt) && SampleRun(lt, records, v, contract)
    ensures |records| > 0 && ValidHistory(lt, records, Tip(records))
    ensures records[0].accumulator.accumulatorContract == contract
  {
    hide Run, ValidHistory, Agreed, Common, Trichotomous;
    RunsAreValidHistories(lt, NO_LEAKS, records);
  }

  lemma SharedCommitment(lt: Order, before: seq<CycleRecord>, v: nat, c: Digest, after: seq<CycleRecord>, w: nat,
                         d: Digest, i: nat)
    requires Trichotomous(lt) && SampleRun(lt, before, v, c) && SampleRun(lt, after, w, d)
    requires i < |before| && i < |after| && (v == w || i == 0)
    ensures before[i].accumulator.cycleCommitment == after[i].accumulator.cycleCommitment
  {
    hide SampleRun, Trichotomous, Agreed, Common, Commitment, Complete;
    SampleCommitment(lt, before, v, c, i);
    SampleCommitment(lt, after, w, d, i);
    if i == 0 {
      VariantsShareTheFirstCycle(lt, v, w);
    }
  }

  lemma SamplesShareCommitments(lt: Order, before: seq<CycleRecord>, v: nat, c: Digest, after: seq<CycleRecord>, w: nat,
                                d: Digest)
    requires Trichotomous(lt) && SampleRun(lt, before, v, c) && SampleRun(lt, after, w, d)
    requires |before| < |after| && (v == w || |before| == 1)
    ensures Commitments(after)[..|before|] == Commitments(before)
  {
    hide SampleRun, Trichotomous;
    forall i | 0 <= i < |before| ensures before[i].accumulator.cycleCommitment == after[i].accumulator.cycleCommitment {
      SharedCommitment(lt, before, v, c, after, w, d, i);
    }
  }

  /** Any sample run is extended by any longer one of its variant, and a single cycle by any longer run at all. */
  lemma SamplesExtend(lt: Order, before: seq<CycleRecord>, v: nat, c: Digest, after: seq<CycleRecord>, w: nat,
                      d: Digest)
    returns (p: ConsistencyPackage)
    requires Trichotomous(lt) && SampleRun(lt, before, v, c) && SampleRun(lt, after, w, d)
    requires 0 < |before| < |after| && (v == w || |before| == 1)
    ensures p.oldEndpoint == EndpointOf(before) && p.newEndpoint == EndpointOf(after) && VerifyConsistency(p).None?
  {
    hide SampleRun, Trichotomous, ValidHistory, VerifyConsistency, AnchorOf;
    SampleIsHistory(lt, before, v, c);
    SampleIsHistory(lt, after, w, d);
    SamplesShareCommitments(lt, before, v, c, after, w, d);
    p := PackageExists(lt, before, Tip(before), after, Tip(after), Foreign(6), Foreign(7));
  }

  /** For any two lengths there are real histories, joined by an accepted package, whose accumulators differ throughout:
      the newer history does not pass through the older tip. */
  lemma ContractsMayDiffer(lt: Order, m: nat, n: nat)
    returns (before: seq<CycleRecord>, after: seq<CycleRecord>, p: ConsistencyPackage)
    requires Trichotomous(lt) && 0 < m < n
    ensures |before| == m && |after| == n && Run(lt, NO_LEAKS, before) && Run(lt, NO_LEAKS, after)
    ensures p.oldEndpoint == EndpointOf(before) && p.newEndpoint == EndpointOf(after) && VerifyConsistency(p).None?
    ensures after[..m] != before && after[m - 1].accumulator != Tip(before)
  {
    hide SampleRun, Trichotomous, VerifyConsistency, EndpointOf, Tip;
    before := LineageRunsExist(lt, m, 0, Foreign(8));
    after := LineageRunsExist(lt, n, 0, Foreign(9));
    SampleIsRun(lt, before, 0, Foreign(8));
    SampleIsRun(lt, after, 0, Foreign(9));
    p := SamplesExtend(lt, before, 0, Foreign(8), after, 0, Foreign(9));
    ContractsKeepApart(lt, before, 0, Foreign(8), after, 0, Foreign(9), p);
  }

  lemma SampleIsRun(lt: Order, records: seq<CycleRecord>, v: nat, contract: Digest)
    requires Trichotomous(lt) && SampleRun(lt, records, v, contract)
    ensures |records| > 0 && Run(lt, NO_LEAKS, records)
  {
  }

  lemma ContractsKeepApart(lt: Order, before: seq<CycleRecord>, v: nat, c: Digest, after: seq<CycleRecord>, w: nat,
                           d: Digest, p: ConsistencyPackage)
    requires Trichotomous(lt) && SampleRun(lt, before, v, c) && SampleRun(lt, after, w, d) && c != d
    requires 0 < |before| < |after|
    requires p.oldEndpoint == EndpointOf(before) && p.newEndpoint == EndpointOf(after) && VerifyConsistency(p).None?
    ensures after[..|before|] != before && after[|before| - 1].accumulator != Tip(before)
  {
    hide SampleRun, Trichotomous, ValidHistory, VerifyConsistency, AnchorOf;
    SampleIsHistory(lt, before, v, c);
    SampleIsHistory(lt, after, w, d);
    AcceptedHistoriesExtend(lt, p, before, Tip(before), after, Tip(after), Foreign(6), Foreign(7));
  }

  // ---------------------------------------------------------------- twin statements

  /** One statement about either end of a package. */
  function TwoSteps(p: ConsistencyPackage, provenance: Digest): (log: seq<Published>)
    ensures |log| == 2
  {
    var first := StatementFor(p.oldEndpoint, "authority", 1, Zero, provenance);
    [Published(p.oldEndpoint, first),
     Published(p.newEndpoint, StatementFor(p.newEndpoint, "authority", 2, StatementDigest(first), provenance))]
  }

  lemma TwoStepsAreALog(p: ConsistencyPackage, provenance: Digest)
    requires VerifyConsistency(p).None? && provenance != Zero
    ensures var log := TwoSteps(p, provenance);
            VerifyAuthorized(p, log[0].statement, log[1].statement).None? && PublishedLog(log)
  {
    hide VerifyConsistency, ValidStatement, ContextFault, ValidAnchor;
    var log := TwoSteps(p, provenance);
    AcceptedContext(p);
    StatementFits(p.oldEndpoint, "authority", 1, Zero, provenance);
    StatementFits(p.newEndpoint, "authority", 2, StatementDigest(log[0].statement), provenance);
    assert p == ConsistencyPackage(p.oldEndpoint, p.newEndpoint, p.proof);
    assert Succeeds(log[0], log[1]);
  }

  /** Two logs of one authority, over twin first statements about one endpoint and then over different endpoints, that
      split without a single reported pair. */
  ghost predicate Missed(p: ConsistencyPackage, q: ConsistencyPackage) {
    var a, b := TwoSteps(p, Foreign(1)), TwoSteps(q, Foreign(2));
    && PublishedLog(a) && PublishedLog(b) && a[0].endpoint == b[0].endpoint
    && a[1].endpoint == p.newEndpoint && b[1].endpoint == q.newEndpoint
    && SplitAt(Entries(a), Entries(b), 0) && !SomeReported(a, b)
  }

  /** Whenever one endpoint has accepted extensions of two different sizes, an authority that issues twin first
      statements can show either extension to a different client, and no pair of its four statements is reported. */
  lemma TwinsAreNeverReported(p: ConsistencyPackage, q: ConsistencyPackage)
    requires VerifyConsistency(p).None? && VerifyConsistency(q).None? && p.oldEndpoint == q.oldEndpoint
    requires p.newEndpoint.anchor.treeSize != q.newEndpoint.anchor.treeSize
    ensures Missed(p, q)
  {
    hide VerifyConsistency, PublishedLog, SomeReported;
    var a, b := TwoSteps(p, Foreign(1)), TwoSteps(q, Foreign(2));
    TwoStepsAreALog(p, Foreign(1));
    TwoStepsAreALog(q, Foreign(2));
    assert Entries(a)[0].statement != Entries(b)[0].statement;
    SplitLogsAreDetected(a, b, 0);
  }

  lemma VariantsPart(lt: Order, left: seq<CycleRecord>, v: nat, right: seq<CycleRecord>, w: nat, c: Digest)
    requires Trichotomous(lt) && SampleRun(lt, left, v, c) && SampleRun(lt, right, w, c)
    requires v != w && |left| > 1 && |right| > 1
    ensures left[1].reconciliation.reconciledStateRef != right[1].reconciliation.reconciledStateRef
    ensures EndpointOf(left).anchor != EndpointOf(right).anchor
  {
    hide Run, Agreed, Trichotomous, ValidHistory, Commitments, Root;
    assert Common(2, v) != Common(2, w);
    if EndpointOf(left).anchor == EndpointOf(right).anchor {
      SampleIsHistory(lt, left, v, c);
      SampleIsHistory(lt, right, w, c);
      assert Tip(left) == Tip(right);
      TipDeterminesHistory(lt, left, right, Tip(left));
    }
  }

  /** Such endpoints exist, for any lengths: two real runs that share their first cycle and reach different states in
      the second, with one accepted package to each. */
  lemma PartedRunsExist(lt: Order, m: nat, n: nat)
    returns (left: seq<CycleRecord>, right: seq<CycleRecord>, p: ConsistencyPackage, q: ConsistencyPackage)
    requires Trichotomous(lt) && m > 1 && n > 1
    ensures |left| == m && |right| == n && Run(lt, NO_LEAKS, left) && Run(lt, NO_LEAKS, right)
    ensures left[1].reconciliation.reconciledStateRef != right[1].reconciliation.reconciledStateRef
    ensures VerifyConsistency(p).None? && VerifyConsistency(q).None? && p.oldEndpoint == q.oldEndpoint
    ensures p.newEndpoint == EndpointOf(left) && q.newEndpoint == EndpointOf(right)
    ensures p.newEndpoint.anchor != q.newEndpoint.anchor
    ensures p.newEndpoint.anchor.treeSize == m && q.newEndpoint.anchor.treeSize == n
  {
    hide SampleRun, Trichotomous, VerifyConsistency, Tip, Root;
    var first := LineageRunsExist(lt, 1, 0, Foreign(8));
    left := LineageRunsExist(lt, m, 0, Foreign(8));
    right := LineageRunsExist(lt, n, 1, Foreign(8));
    SampleIsRun(lt, left, 0, Foreign(8));
    SampleIsRun(lt, right, 1, Foreign(8));
    p := SamplesExtend(lt, first, 0, Foreign(8), left, 0, Foreign(8));
    q := SamplesExtend(lt, first, 0, Foreign(8), right, 1, Foreign(8));
    VariantsPart(lt, left, 0, right, 1, Foreign(8));
  }

  // ---------------------------------------------------------------- witnessed successors and splits

  /** Every accepted consistency package has witnessed statements on both ends, over every policy and whichever quorums
      sign; the older end does not depend on the newer. */
  lemma WitnessedSuccessorsExist(p: ConsistencyPackage, policy: Policy, x: seq<string>, y: seq<string>)
    requires VerifyConsistency(p).None? && ValidPolicy(policy) && IsQuorum(x, policy) && IsQuorum(y, policy)
    ensures var before := FirstQuorum(p.oldEndpoint, policy, x);
            VerifyWitnessed(p, before, NextQuorum(before, p.newEndpoint, y, 1)).None?
  {
    hide VerifyConsistency, ContextFault, ValidAnchor, ValidPolicy, VerifyQuorum, VerifyWitnessed, FirstQuorum,
      IsQuorum;
    AcceptedContext(p);
    FirstQuorumVerifies(p.oldEndpoint, policy, x);
    FirstQuorumParts(p.oldEndpoint, policy, x);
    NextQuorumIsWitnessed(p, FirstQuorum(p.oldEndpoint, policy, x), y, 1);
  }

  /** Three witnesses, any two of which are a quorum. */
  const TRIO := Policy("policy", 1, ["u", "v", "w"], 2, Foreign(9), Foreign(10))

  lemma TrioIsValid()
    ensures ValidPolicy(TRIO)
    ensures IsQuorum(["u", "v", "w"], TRIO) && IsQuorum(["u", "v"], TRIO) && IsQuorum(["v", "w"], TRIO)
    ensures IsQuorum(["u", "w"], TRIO)
  {
    assert Elements(["u", "v", "w"]) == {"u", "v", "w"} && Elements(["u", "v"]) == {"u", "v"};
    assert Elements(["v", "w"]) == {"v", "w"} && Elements(["u", "w"]) == {"u", "w"};
    assert Less("u", "v") && Less("v", "w") && Less("u", "w");
  }

  lemma TrioOverlaps()
    ensures Overlap(["u", "v"], ["v", "w"]) == ["v"] && Overlap(["u", "w"], ["v"]) == []
  {
    assert "u"[0] != "v"[0] && "v"[0] != "w"[0] && "u"[0] != "w"[0];
    OverlapPair("u", "v", ["v", "w"]);
    OverlapPair("u", "w", ["v"]);
  }

  lemma OverlapPair(x: string, y: string, other: seq<string>)
    ensures Overlap([x, y], other) == (if x in other then [x] else []) + (if y in other then [y] else [])
  {
    assert [x, y][1..] == [y] && [y][1..] == [];
    assert Overlap([y], other) == if y in other then [y] else [];
  }

  /** Two successors of one package over the trio, one signed by u and v and one by v and w, are a proven split that
      names v alone. */
  lemma TrioSplits(p: ConsistencyPackage, q: ConsistencyPackage, signers: seq<string>, second: nat)
    requires VerifyConsistency(p).None? && VerifyConsistency(q).None? && p.oldEndpoint == q.oldEndpoint
    requires p.newEndpoint.anchor != q.newEndpoint.anchor && IsQuorum(signers, TRIO) && second > 0
    ensures var before := FirstQuorum(p.oldEndpoint, TRIO, signers);
            var a := NextQuorum(before, p.newEndpoint, ["u", "v"], 1);
            var b := NextQuorum(before, q.newEndpoint, ["v", "w"], second);
            && VerifyQuorum(before).None? && WitnessIds(before.observations) == signers
            && VerifyWitnessed(p, before, a).None? && VerifyWitnessed(q, before, b).None?
            && SplitProven(a, b) && DetectSplit(a, b).value.doubleSigners == SharedWitnesses(a, b) == ["v"]
  {
    hide VerifyConsistency, VerifyWitnessed, VerifyQuorum, DetectSplit, Overlap, ValidAnchor, ContextFault, FirstQuorum,
      NextQuorum, Distinct, Ordered;
    var before := FirstQuorum(p.oldEndpoint, TRIO, signers);
    var a, b := NextQuorum(before, p.newEndpoint, ["u", "v"], 1), NextQuorum(before, q.newEndpoint, ["v", "w"], second);
    TrioIsValid();
    TrioOverlaps();
    AcceptedContext(p);
    FirstQuorumVerifies(p.oldEndpoint, TRIO, signers);
    FirstQuorumParts(p.oldEndpoint, TRIO, signers);
    NextQuorumIsWitnessed(p, before, ["u", "v"], 1);
    NextQuorumIsWitnessed(q, before, ["v", "w"], second);
    NextQuorumSigners(before, p.newEndpoint, ["u", "v"], 1);
    NextQuorumSigners(before, q.newEndpoint, ["v", "w"], second);
    SplitSuccessorsAreAttributed(p, q, before, a, b);
    SplitFacts(a, b, DetectSplit(a, b).value);
  }

  /** Both follow one package that all three signed, and v's log forks. */
  predicate Caught(p: ConsistencyPackage, q: ConsistencyPackage) {
    var before := FirstQuorum(p.oldEndpoint, TRIO, ["u", "v", "w"]);
    var a, b := NextQuorum(before, p.newEndpoint, ["u", "v"], 1), NextQuorum(before, q.newEndpoint, ["v", "w"], 1);
    && VerifyWitnessed(p, before, a).None? && VerifyWitnessed(q, before, b).None?
    && SplitProven(a, b) && DetectSplit(a, b).value.doubleSigners == ["v"]
    && ForksOwnLog(a.observations, b.observations, "v")
  }

  /** Two different accepted extensions of one endpoint, each signed by two of the three witnesses: the detector proves
      the split and names the one witness who signed both. */
  lemma SplitsAreCaught(p: ConsistencyPackage, q: ConsistencyPackage)
    requires VerifyConsistency(p).None? && VerifyConsistency(q).None? && p.oldEndpoint == q.oldEndpoint
    requires p.newEndpoint.anchor != q.newEndpoint.anchor
    ensures Caught(p, q)
  {
    hide VerifyConsistency, VerifyWitnessed, VerifyQuorum, DetectSplit, Overlap, FirstQuorum, NextQuorum, ForksOwnLog,
      Distinct, Ordered, SharedWitnesses;
    var before := FirstQuorum(p.oldEndpoint, TRIO, ["u", "v", "w"]);
    var a, b := NextQuorum(before, p.newEndpoint, ["u", "v"], 1), NextQuorum(before, q.newEndpoint, ["v", "w"], 1);
    TrioIsValid();
    TrioSplits(p, q, ["u", "v", "w"], 1);
    DoubleSignersFork(p, q, before, a, b, "v");
  }

  /** Both follow a package that only u and w signed. The one double signer, v, forks its log when it starts on both
      sides at sequence number 1, and does not when it claims number 2 on one of them. */
  lemma NewcomersForkAtWill(p: ConsistencyPackage, q: ConsistencyPackage, second: nat)
    requires VerifyConsistency(p).None? && VerifyConsistency(q).None? && p.oldEndpoint == q.oldEndpoint
    requires p.newEndpoint.anchor != q.newEndpoint.anchor && second in {1, 2}
    ensures var before := FirstQuorum(p.oldEndpoint, TRIO, ["u", "w"]);
            var a := NextQuorum(before, p.newEndpoint, ["u", "v"], 1);
            var b := NextQuorum(before, q.newEndpoint, ["v", "w"], second);
            && VerifyWitnessed(p, before, a).None? && VerifyWitnessed(q, before, b).None?
            && SplitProven(a, b) && DetectSplit(a, b).value.doubleSigners == ["v"]
            && RepeatSigners(before, a, b) == [] && TripleIntersection(TRIO) == 0
            && (ForksOwnLog(a.observations, b.observations, "v") <==> second == 1)
  {
    hide VerifyConsistency, VerifyWitnessed, VerifyQuorum, DetectSplit, Overlap, FirstQuorum, NextQuorum, ForksOwnLog,
      Distinct, Ordered, SharedWitnesses;
    var before := FirstQuorum(p.oldEndpoint, TRIO, ["u", "w"]);
    TrioIsValid();
    TrioOverlaps();
    TrioSplits(p, q, ["u", "w"], second);
    FirstQuorumParts(p.oldEndpoint, TRIO, ["u", "w"]);
    assert "u"[0] != "v"[0] && "v"[0] != "w"[0];
    NewcomerChooses(p, q, before, ["u", "v"], ["v", "w"], "v", second);
  }

  // ---------------------------------------------------------------- caught or missed

  /** For any two different lengths there are real histories that share one cycle and then reach different states, which
      are caught when both follow one signed first statement and missed when they follow twins. */
  lemma CaughtOrMissed(lt: Order, m: nat, n: nat)
    returns (left: seq<CycleRecord>, right: seq<CycleRecord>, p: ConsistencyPackage, q: ConsistencyPackage)
    requires Trichotomous(lt) && m > 1 && n > 1 && m != n
    ensures |left| == m && |right| == n && Run(lt, NO_LEAKS, left) && Run(lt, NO_LEAKS, right)
    ensures left[1].reconciliation.reconciledStateRef != right[1].reconciliation.reconciledStateRef
    ensures p.newEndpoint == EndpointOf(left) && q.newEndpoint == EndpointOf(right)
    ensures Caught(p, q) && Missed(p, q)
  {
    hide Run, Trichotomous, VerifyConsistency, EndpointOf, Caught, Missed;
    left, right, p, q := PartedRunsExist(lt, m, n);
    SplitsAreCaught(p, q);
    TwinsAreNeverReported(p, q);
  }
}
