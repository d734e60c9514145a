/** Fork and reconciliation: two independent branches of one state and two votes produce one canonical agreement. */
module PortableCausality {
  import opened Prelude
  import opened Records

  datatype BranchEvidence = BranchEvidence(
    verified: bool, providerId: string, authorityId: string, provenance: Digest, trustDomain: string,
    logicalBranchId: string, fromStateRef: Digest, toSemanticState: Digest, branchContract: Digest,
    authorizationContract: Digest)

  datatype Vote = Vote(
    verified: bool, providerId: string, authorityId: string, provenance: Digest, trustDomain: string,
    logicalReconciliationId: string, branchRef: Digest, branchStateRef: Digest, branchTip: Digest,
    targetSemanticState: Digest, reconciliationContract: Digest, authorizationContract: Digest)

  datatype Rejection =
    | CommonStateRefInvalid
    | BranchCardinalityInvalid
    | VoteCardinalityInvalid
    | BranchEvidenceInvalid
    | ReconciliationVoteInvalid
    | BranchProviderNotIndependent
    | BranchAuthorityNotIndependent
    | BranchProvenanceNotIndependent
    | LogicalBranchIdDuplicate
    | BranchTrustDomainMismatch
    | BranchCommonStateMismatch
    | BranchContractMismatch
    | BranchAuthorizationMismatch
    | ForkSemanticsNotDivergent
    | BranchSemanticNoop
    | BranchTipInvalid
    | BranchRefDuplicate
    | VoteBranchDuplicate
    | VoteBranchSetMismatch
    | VoteProvenanceNotIndependent
    | LogicalReconciliationMismatch
    | ReconciliationTargetMismatch
    | ReconciliationContractMismatch
    | ReconciliationAuthorizationMismatch
    | ReconciliationTrustDomainMismatch
    | ReconciliationTargetNotNew
    | VoteProviderBindingMismatch
    | VoteAuthorityBindingMismatch
    | VoteBranchStateBindingMismatch
    | VoteBranchTipBindingMismatch
    | ReconciliationParentDuplicate
    | RawEvidenceEmbedded
    | AgreementInvalid

  /** Hex order of digests, which decides the canonical order of the two tips. Only trichotomy matters. */
  type Order = (Digest, Digest) -> bool

  ghost predicate Trichotomous(lt: Order) {
    forall a, b :: if a == b then !lt(a, b) else lt(a, b) != lt(b, a)
  }

  // ---------------------------------------------------------------- validators

  predicate ValidStateRef(s: StateRef) {
    NonEmpty(s.trustDomain) && NonEmpty(s.logicalStateId) && s.causalEpoch >= 0
  }

  predicate ValidBranch(b: BranchEvidence) {
    b.verified && NonEmpty(b.providerId) && NonEmpty(b.authorityId) && NonEmpty(b.trustDomain)
    && NonEmpty(b.logicalBranchId)
  }

  predicate ValidVote(v: Vote) {
    v.verified && NonEmpty(v.providerId) && NonEmpty(v.authorityId) && NonEmpty(v.trustDomain)
    && NonEmpty(v.logicalReconciliationId)
  }

  predicate ValidBranchTip(tip: BranchTip, common: StateRef) {
    var state, ref := tip.stateRef, tip.branchRef;
    && ValidStateRef(common)
    && ValidStateRef(state)
    && ref.trustDomain == common.trustDomain == state.trustDomain
    && ref.logicalStateId == common.logicalStateId == state.logicalStateId
    && NonEmpty(ref.logicalBranchId)
    && ref.fromEpoch == common.causalEpoch
    && ref.toEpoch == state.causalEpoch
    && ref.toEpoch == ref.fromEpoch + 1
    && ref.fromStateRef == DigestOf(StateRefJson(common))
    && ref.toStateRef == DigestOf(StateRefJson(state))
    && state.semanticState != common.semanticState
  }

  function BuildBranchTip(common: StateRef, b: BranchEvidence): Result<BranchTip, Rejection> {
    if !ValidStateRef(common) then Err(CommonStateRefInvalid)
    else if !ValidBranch(b) then Err(BranchEvidenceInvalid)
    else if b.trustDomain != common.trustDomain then Err(BranchTrustDomainMismatch)
    else if b.fromStateRef != DigestOf(StateRefJson(common)) then Err(BranchCommonStateMismatch)
    else if b.toSemanticState == common.semanticState then Err(BranchSemanticNoop)
    else
      var tip := TipOf(common, b);
      if !ValidBranchTip(tip, common) then Err(BranchTipInvalid) else Ok(tip)
  }

  function TipOf(common: StateRef, b: BranchEvidence): BranchTip {
    var state := StateRef(common.trustDomain, common.logicalStateId, common.causalEpoch + 1, b.toSemanticState);
    BranchTip(state,
      BranchRef(common.trustDomain, common.logicalStateId, b.logicalBranchId, common.causalEpoch, state.causalEpoch,
                DigestOf(StateRefJson(common)), DigestOf(StateRefJson(state)), b.branchContract,
                b.authorizationContract))
  }

  function TipDigest(tip: BranchTip): Digest {
    DigestOf(BranchTipJson(tip))
  }

  function ParentOf(tip: BranchTip): Parent {
    Parent(TipDigest(tip), DigestOf(BranchRefJson(tip.branchRef)), DigestOf(StateRefJson(tip.stateRef)))
  }

  predicate ValidReconciliationRef(ref: ReconciliationRef, common: StateRef, parentSet: ParentSet, tips: seq<BranchTip>,
                                   result: StateRef)
  {
    && ref.trustDomain == common.trustDomain
    && ref.logicalStateId == common.logicalStateId
    && NonEmpty(ref.logicalReconciliationId)
    && ref.commonStateRef == DigestOf(StateRefJson(common))
    && ref.forkEpoch == common.causalEpoch + 1
    && ref.reconciledEpoch == result.causalEpoch
    && ref.parentSet == DigestOf(ParentSetJson(parentSet))
    && ref.parentTips == seq(|tips|, i requires 0 <= i < |tips| => TipDigest(tips[i]))
    && ref.resultStateRef == DigestOf(StateRefJson(result))
  }

  predicate ValidReceipt(receipt: ReconciliationReceipt, common: StateRef, parentSet: ParentSet, result: StateRef,
                         ref: ReconciliationRef)
  {
    && receipt.verified
    && receipt.commonStateRef == DigestOf(StateRefJson(common))
    && receipt.forkEpoch == common.causalEpoch + 1
    && receipt.reconciledEpoch == result.causalEpoch
    && receipt.lineageParentCount == |parentSet.parents|
    && receipt.bothLineagesPreserved
    && receipt.forkSemanticsDivergent
    && receipt.branchOrderCanonical
    && !receipt.rawEvidenceEmbedded
    && receipt.parentSet == DigestOf(ParentSetJson(parentSet))
    && receipt.resultStateRef == DigestOf(StateRefJson(result))
    && receipt.reconciliationRef == DigestOf(ReconciliationRefJson(ref))
  }

  predicate ValidTips(lt: Order, tips: seq<BranchTip>, common: StateRef) {
    && |tips| == 2
    && ValidBranchTip(tips[0], common)
    && ValidBranchTip(tips[1], common)
    && !lt(TipDigest(tips[1]), TipDigest(tips[0]))
    && TipDigest(tips[0]) != TipDigest(tips[1])
    && tips[0].branchRef != tips[1].branchRef
    && tips[0].stateRef != tips[1].stateRef
    && tips[0].branchRef.logicalBranchId != tips[1].branchRef.logicalBranchId
    && tips[0].stateRef.semanticState != tips[1].stateRef.semanticState
    && common.semanticState != tips[0].stateRef.semanticState
    && common.semanticState != tips[1].stateRef.semanticState
    && tips[0].branchRef.branchContract == tips[1].branchRef.branchContract
    && tips[0].branchRef.authorizationContract == tips[1].branchRef.authorizationContract
  }

  /** `validate_reconciliation_agreement`: every invariant is recomputed from the portable objects. */
  predicate ValidAgreement(lt: Order, a: Agreement, common: StateRef) {
    && a.verified
    && ValidStateRef(common)
    && ValidTips(lt, a.branchTips, common)
    && a.parentSet.Some?
    && a.parentSet.value.parents == [ParentOf(a.branchTips[0]), ParentOf(a.branchTips[1])]
    && a.reconciledStateRef.Some?
    && var result := a.reconciledStateRef.value;
    && ValidStateRef(result)
    && result.trustDomain == common.trustDomain
    && result.logicalStateId == common.logicalStateId
    && result.causalEpoch == common.causalEpoch + 2
    && result.semanticState != common.semanticState
    && result.semanticState != a.branchTips[0].stateRef.semanticState
    && result.semanticState != a.branchTips[1].stateRef.semanticState
    && a.reconciliationRef.Some?
    && ValidReconciliationRef(a.reconciliationRef.value, common, a.parentSet.value, a.branchTips, result)
    && a.receipt.Some?
    && ValidReceipt(a.receipt.value, common, a.parentSet.value, result, a.reconciliationRef.value)
  }

  // ---------------------------------------------------------------- raw evidence

  /** Strings that can occur in a portable object: plain text or a digest. */
  datatype Token = Word(text: string) | Hex(digest: Digest)

  const STATE_REF_SCHEMA := "ttrace-portable-state-ref/v0.1"
  const BRANCH_REF_SCHEMA := "ttrace-portable-fork-branch-ref/v0.1"
  const BRANCH_TIP_SCHEMA := "ttrace-portable-fork-branch-tip/v0.1"
  const PARENT_SET_SCHEMA := "ttrace-portable-causal-parent-set/v0.1"
  const RECONCILIATION_REF_SCHEMA := "ttrace-portable-reconciliation-ref/v0.1"

  function StateTokens(s: StateRef): set<Token> {
    {Word(STATE_REF_SCHEMA), Word(s.trustDomain), Word(s.logicalStateId), Hex(s.semanticState)}
  }

  function TipTokens(tip: BranchTip): set<Token> {
    var ref := tip.branchRef;
    {Word(BRANCH_TIP_SCHEMA), Word(BRANCH_REF_SCHEMA), Word(ref.trustDomain), Word(ref.logicalStateId),
     Word(ref.logicalBranchId), Hex(ref.fromStateRef), Hex(ref.toStateRef), Hex(ref.branchContract),
     Hex(ref.authorizationContract)} + StateTokens(tip.stateRef)
  }

  function ParentTokens(p: Parent): set<Token> {
    {Hex(p.branchTip), Hex(p.branchRef), Hex(p.stateRef)}
  }

  function ReconciliationTokens(ref: ReconciliationRef): set<Token> {
    {Word(RECONCILIATION_REF_SCHEMA), Word(ref.trustDomain), Word(ref.logicalStateId),
     Word(ref.logicalReconciliationId), Hex(ref.commonStateRef), Hex(ref.parentSet), Hex(ref.resultStateRef),
     Hex(ref.reconciliationContract), Hex(ref.authorizationContract)}
    + (set d | d in ref.parentTips :: Hex(d))
  }

  /** `set(_strings(portable))` for the two tips, the parent set, the result state and the reconciliation ref. */
  function PortableTokens(t0: BranchTip, t1: BranchTip, result: StateRef, ref: ReconciliationRef): set<Token> {
    {Word(PARENT_SET_SCHEMA)} + TipTokens(t0) + TipTokens(t1) + ParentTokens(ParentOf(t0))
    + ParentTokens(ParentOf(t1)) + StateTokens(result) + ReconciliationTokens(ref)
  }

  function ForbiddenTokens(branches: seq<BranchEvidence>, votes: seq<Vote>): set<Token> {
    (set b | b in branches :: Word(b.providerId)) + (set b | b in branches :: Word(b.authorityId))
    + (set b | b in branches :: Hex(b.provenance)) + (set v | v in votes :: Hex(v.provenance))
  }

  // ---------------------------------------------------------------- reconciliation

  /** The branch checks, up to and including the divergence of the two forks. */
  function CheckBranches(common: StateRef, a: BranchEvidence, b: BranchEvidence): Option<Rejection> {
    if a.providerId == b.providerId then Some(BranchProviderNotIndependent)
    else if a.authorityId == b.authorityId then Some(BranchAuthorityNotIndependent)
    else if a.provenance == b.provenance then Some(BranchProvenanceNotIndependent)
    else if a.logicalBranchId == b.logicalBranchId then Some(LogicalBranchIdDuplicate)
    else if a.trustDomain != b.trustDomain || a.trustDomain != common.trustDomain then Some(BranchTrustDomainMismatch)
    else if a.fromStateRef != b.fromStateRef || a.fromStateRef != DigestOf(StateRefJson(common)) then
      Some(BranchCommonStateMismatch)
    else if a.branchContract != b.branchContract then Some(BranchContractMismatch)
    else if a.authorizationContract != b.authorizationContract then Some(BranchAuthorizationMismatch)
    else if a.toSemanticState == b.toSemanticState then Some(ForkSemanticsNotDivergent)
    else None
  }

  /** The vote checks, up to and including the freshness of the target. */
  function CheckVotes(common: StateRef, a: BranchEvidence, b: BranchEvidence, refs: set<Digest>, v: Vote, w: Vote)
    : Option<Rejection>
  {
    if v.branchRef == w.branchRef then Some(VoteBranchDuplicate)
    else if {v.branchRef, w.branchRef} != refs then Some(VoteBranchSetMismatch)
    else if v.provenance == w.provenance then Some(VoteProvenanceNotIndependent)
    else if v.logicalReconciliationId != w.logicalReconciliationId then Some(LogicalReconciliationMismatch)
    else if v.targetSemanticState != w.targetSemanticState then Some(ReconciliationTargetMismatch)
    else if v.reconciliationContract != w.reconciliationContract then Some(ReconciliationContractMismatch)
    else if v.authorizationContract != w.authorizationContract then Some(ReconciliationAuthorizationMismatch)
    else if v.trustDomain != w.trustDomain || v.trustDomain != common.trustDomain then
      Some(ReconciliationTrustDomainMismatch)
    else if v.targetSemanticState in {common.semanticState, a.toSemanticState, b.toSemanticState} then
      Some(ReconciliationTargetNotNew)
    else None
  }

  /** The bindings of one vote to the branch it names. */
  function CheckBinding(vote: Vote, evidence: BranchEvidence, tip: BranchTip): Option<Rejection> {
    if vote.providerId != evidence.providerId then Some(VoteProviderBindingMismatch)
    else if vote.authorityId != evidence.authorityId then Some(VoteAuthorityBindingMismatch)
    else if vote.branchStateRef != DigestOf(StateRefJson(tip.stateRef)) then Some(VoteBranchStateBindingMismatch)
    else if vote.branchTip != TipDigest(tip) then Some(VoteBranchTipBindingMismatch)
    else None
  }

  /** The tests on both votes, then the binding of each vote to the branch it names. */
  function VoteFault(common: StateRef, a: BranchEvidence, b: BranchEvidence, v: Vote, w: Vote, ta: BranchTip,
                     tb: BranchTip): Option<Rejection>
  {
    var ra, rb := DigestOf(BranchRefJson(ta.branchRef)), DigestOf(BranchRefJson(tb.branchRef));
    var fault := CheckVotes(common, a, b, {ra, rb}, v, w);
    if fault.Some? then fault
    else
      var (va, vb) := if v.branchRef == ra then (v, w) else (w, v);
      var bindingA := CheckBinding(va, a, ta);
      if bindingA.Some? then bindingA else CheckBinding(vb, b, tb)
  }

  /** The agreement for two tips already in canonical order. */
  function Assemble(common: StateRef, t0: BranchTip, t1: BranchTip, v: Vote): Agreement {
    var parentSet := ParentSet([ParentOf(t0), ParentOf(t1)]);
    var result := StateRef(common.trustDomain, common.logicalStateId, common.causalEpoch + 2, v.targetSemanticState);
    var ref := ReconciliationRef(common.trustDomain, common.logicalStateId, v.logicalReconciliationId,
      DigestOf(StateRefJson(common)), common.causalEpoch + 1, result.causalEpoch, DigestOf(ParentSetJson(parentSet)),
      [TipDigest(t0), TipDigest(t1)], DigestOf(StateRefJson(result)), v.reconciliationContract,
      v.authorizationContract);
    Agreement(true, [t0, t1], Some(parentSet), Some(result), Some(ref),
      Some(ReconciliationReceipt(true, DigestOf(StateRefJson(common)), common.causalEpoch + 1, result.causalEpoch, 2,
        true, true, true, false, DigestOf(ParentSetJson(parentSet)), DigestOf(StateRefJson(result)),
        DigestOf(ReconciliationRefJson(ref)))))
  }

  /** Canonical order, duplicate and raw-evidence tests, and the final self-check. */
  function Conclude(lt: Order, common: StateRef, branches: seq<BranchEvidence>, votes: seq<Vote>, ta: BranchTip,
                    tb: BranchTip): Result<Agreement, Rejection>
    requires |votes| > 0
  {
    var (t0, t1) := if lt(TipDigest(tb), TipDigest(ta)) then (tb, ta) else (ta, tb);
    if TipDigest(t0) == TipDigest(t1) then Err(ReconciliationParentDuplicate)
    else
      var agreement := Assemble(common, t0, t1, votes[0]);
      var tokens := PortableTokens(t0, t1, agreement.reconciledStateRef.value, agreement.reconciliationRef.value);
      if ForbiddenTokens(branches, votes) * tokens != {} then Err(RawEvidenceEmbedded)
      else if !ValidAgreement(lt, agreement, common) then Err(AgreementInvalid)
      else Ok(agreement)
  }

  function ReconcilePair(lt: Order, common: StateRef, a: BranchEvidence, b: BranchEvidence, v: Vote, w: Vote)
    : Result<Agreement, Rejection>
  {
    if !ValidBranch(a) || !ValidBranch(b) then Err(BranchEvidenceInvalid)
    else if !ValidVote(v) || !ValidVote(w) then Err(ReconciliationVoteInvalid)
    else
      var branchFault := CheckBranches(common, a, b);
      if branchFault.Some? then Err(branchFault.value)
      else
        match BuildBranchTip(common, a)
        case Err(e) => Err(e)
        case Ok(ta) =>
          match BuildBranchTip(common, b)
          case Err(e) => Err(e)
          case Ok(tb) =>
            var ra, rb := DigestOf(BranchRefJson(ta.branchRef)), DigestOf(BranchRefJson(tb.branchRef));
            if ra == rb then Err(BranchRefDuplicate)
            else
              var voteFault := VoteFault(common, a, b, v, w, ta, tb);
              if voteFault.Some? then Err(voteFault.value) else Conclude(lt, common, [a, b], [v, w], ta, tb)
  }

  function Reconcile(lt: Order, common: StateRef, branches: seq<BranchEvidence>, votes: seq<Vote>)
    : Result<Agreement, Rejection>
  {
    if !ValidStateRef(common) then Err(CommonStateRefInvalid)
    else if |branches| != 2 then Err(BranchCardinalityInvalid)
    else if |votes| != 2 then Err(VoteCardinalityInvalid)
    else ReconcilePair(lt, common, branches[0], branches[1], votes[0], votes[1])
  }

  // ---------------------------------------------------------------- theorems

  lemma BuiltTips(common: StateRef, b: BranchEvidence)
    requires ValidStateRef(common) && ValidBranch(b)
    ensures BuildBranchTip(common, b) != Err(BranchTipInvalid)
    ensures BuildBranchTip(common, b).Ok? ==>
              && BuildBranchTip(common, b).value == TipOf(common, b)
              && ValidBranchTip(TipOf(common, b), common)
  {
  }

  /** Checked inputs assemble into a valid agreement, in either branch order. */
  lemma AssembledIsValid(lt: Order, common: StateRef, a: BranchEvidence, b: BranchEvidence, v: Vote)
    requires Trichotomous(lt) && ValidStateRef(common) && ValidVote(v)
    requires CheckBranches(common, a, b).None?
    requires ValidBranchTip(TipOf(common, a), common) && ValidBranchTip(TipOf(common, b), common)
    requires v.targetSemanticState !in {common.semanticState, a.toSemanticState, b.toSemanticState}
    requires !lt(TipDigest(TipOf(common, b)), TipDigest(TipOf(common, a)))
    ensures ValidAgreement(lt, Assemble(common, TipOf(common, a), TipOf(common, b), v), common)
  {
    var ta, tb := TipOf(common, a), TipOf(common, b);
    var agreement := Assemble(common, ta, tb, v);
    assert ValidTips(lt, agreement.branchTips, common);
    assert agreement.reconciliationRef.value.parentTips == seq(2, i requires 0 <= i < 2 => TipDigest([ta, tb][i]));
  }

  /** Everything `reconcile_two_branches` demands before it orders the tips. */
  predicate Reconcilable(common: StateRef, a: BranchEvidence, b: BranchEvidence, v: Vote, w: Vote) {
    && ValidStateRef(common) && ValidBranch(a) && ValidBranch(b) && ValidVote(v) && ValidVote(w)
    && CheckBranches(common, a, b).None?
    && BuildBranchTip(common, a).Ok? && BuildBranchTip(common, b).Ok?
    && VoteFault(common, a, b, v, w, TipOf(common, a), TipOf(common, b)).None?
  }

  lemma BranchesDiffer(common: StateRef, a: BranchEvidence, b: BranchEvidence)
    requires CheckBranches(common, a, b).None?
    ensures TipOf(common, a).branchRef != TipOf(common, b).branchRef
  {
  }

  lemma CheckReasons(common: StateRef, a: BranchEvidence, b: BranchEvidence, v: Vote, w: Vote)
    ensures CheckBranches(common, a, b) !in {Some(AgreementInvalid), Some(BranchTipInvalid), Some(BranchRefDuplicate),
                                             Some(ReconciliationParentDuplicate)}
    ensures VoteFault(common, a, b, v, w, TipOf(common, a), TipOf(common, b))
            !in {Some(AgreementInvalid), Some(BranchTipInvalid), Some(BranchRefDuplicate),
                 Some(ReconciliationParentDuplicate)}
  {
    hide TipOf, TipDigest;
  }

  lemma PairCases(lt: Order, common: StateRef, a: BranchEvidence, b: BranchEvidence, v: Vote, w: Vote)
    requires ValidStateRef(common)
    ensures Reconcilable(common, a, b, v, w) ==>
              ReconcilePair(lt, common, a, b, v, w)
              == Conclude(lt, common, [a, b], [v, w], TipOf(common, a), TipOf(common, b))
    ensures !Reconcilable(common, a, b, v, w) ==>
              var r := ReconcilePair(lt, common, a, b, v, w);
              r.Err? && r.error !in {AgreementInvalid, BranchTipInvalid, BranchRefDuplicate,
                                     ReconciliationParentDuplicate}
  {
    hide Conclude, VoteFault, CheckBranches, TipOf;
    CheckReasons(common, a, b, v, w);
    if ValidBranch(a) && ValidBranch(b) && CheckBranches(common, a, b).None? {
      BuiltTips(common, a);
      BuiltTips(common, b);
      BranchesDiffer(common, a, b);
    }
  }

  lemma ConcludeIsSound(lt: Order, common: StateRef, a: BranchEvidence, b: BranchEvidence, v: Vote, w: Vote)
    requires Trichotomous(lt) && Reconcilable(common, a, b, v, w)
    ensures var r := Conclude(lt, common, [a, b], [v, w], TipOf(common, a), TipOf(common, b));
            if r.Err? then r.error == RawEvidenceEmbedded else ValidAgreement(lt, r.value, common)
  {
    hide CheckBinding, Assemble, ValidAgreement;
    var ta, tb := TipOf(common, a), TipOf(common, b);
    BuiltTips(common, a);
    BuiltTips(common, b);
    assert CheckBranches(common, b, a).None?;
    if lt(TipDigest(tb), TipDigest(ta)) {
      AssembledIsValid(lt, common, b, a, v);
    } else {
      AssembledIsValid(lt, common, a, b, v);
    }
  }

  lemma PairForm<T>(s: seq<T>)
    requires |s| == 2
    ensures s == [s[0], s[1]]
  {
  }

  /** The closing self-check of `reconcile_two_branches`, its tip self-check and its duplicate tests never fire,
      and every returned agreement passes the independent validator. */
  lemma SelfChecksNeverFail(lt: Order, common: StateRef, branches: seq<BranchEvidence>, votes: seq<Vote>)
    requires Trichotomous(lt)
    ensures var r := Reconcile(lt, common, branches, votes);
            if r.Err?
            then r.error !in {AgreementInvalid, BranchTipInvalid, BranchRefDuplicate, ReconciliationParentDuplicate}
            else ValidAgreement(lt, r.value, common)
  {
    if ValidStateRef(common) && |branches| == 2 && |votes| == 2 {
      PairCases(lt, common, branches[0], branches[1], votes[0], votes[1]);
      if Reconcilable(common, branches[0], branches[1], votes[0], votes[1]) {
        ConcludeIsSound(lt, common, branches[0], branches[1], votes[0], votes[1]);
      }
    }
  }

  lemma ReconcilableSymmetric(common: StateRef, a: BranchEvidence, b: BranchEvidence, v: Vote, w: Vote)
    requires Reconcilable(common, a, b, v, w)
    ensures Reconcilable(common, b, a, v, w)
    ensures Reconcilable(common, a, b, w, v)
  {
    var ra, rb := DigestOf(BranchRefJson(TipOf(common, a).branchRef)),
        DigestOf(BranchRefJson(TipOf(common, b).branchRef));
    assert {ra, rb} == {rb, ra};
    assert {v.branchRef, w.branchRef} == {w.branchRef, v.branchRef};
    assert ra in {v.branchRef, w.branchRef} && rb in {v.branchRef, w.branchRef};
  }

  lemma PermutedPair<T>(s: seq<T>, t: seq<T>)
    requires |s| == 2 && multiset(s) == multiset(t)
    ensures |t| == 2 && (t == s || t == [s[1], s[0]])
  {
    assert |t| == |multiset(t)| == 2;
    PairForm(s);
    PairForm(t);
    assert t[0] in multiset(s) && t[1] in multiset(s);
    assert multiset(s) == multiset{s[0], s[1]} && multiset(t) == multiset{t[0], t[1]};
    if t[0] == s[0] {
      assert multiset{t[0], t[1]} - multiset{s[0]} == multiset{t[1]};
      assert multiset{s[0], s[1]} - multiset{s[0]} == multiset{s[1]};
      assert t[1] in multiset{s[1]};
    } else {
      assert multiset{t[0], t[1]} - multiset{s[1]} == multiset{t[1]};
      assert multiset{s[0], s[1]} - multiset{s[1]} == multiset{s[0]};
      assert t[1] in multiset{s[0]};
    }
  }

  lemma ForbiddenSymmetric(a: BranchEvidence, b: BranchEvidence, v: Vote, w: Vote)
    ensures ForbiddenTokens([a, b], [v, w]) == ForbiddenTokens([b, a], [v, w])
    ensures ForbiddenTokens([a, b], [v, w]) == ForbiddenTokens([a, b], [w, v])
  {
    assert forall e :: e in [a, b] <==> e in [b, a];
    assert forall e :: e in [v, w] <==> e in [w, v];
  }

  lemma ConcludeSwapsVotes(lt: Order, common: StateRef, branches: seq<BranchEvidence>, v: Vote, w: Vote, ta: BranchTip,
                           tb: BranchTip)
    requires |branches| == 2
    requires v.targetSemanticState == w.targetSemanticState && v.logicalReconciliationId == w.logicalReconciliationId
    requires v.reconciliationContract == w.reconciliationContract && v.authorizationContract == w.authorizationContract
    ensures Conclude(lt, common, branches, [v, w], ta, tb) == Conclude(lt, common, branches, [w, v], ta, tb)
  {
    PairForm(branches);
    ForbiddenSymmetric(branches[0], branches[1], v, w);
    assert Assemble(common, ta, tb, v) == Assemble(common, ta, tb, w);
    assert Assemble(common, tb, ta, v) == Assemble(common, tb, ta, w);
  }

  lemma ConcludeSwapsBranches(lt: Order, common: StateRef, a: BranchEvidence, b: BranchEvidence, votes: seq<Vote>,
                              ta: BranchTip, tb: BranchTip)
    requires Trichotomous(lt) && |votes| == 2 && TipDigest(ta) != TipDigest(tb)
    ensures Conclude(lt, common, [a, b], votes, ta, tb) == Conclude(lt, common, [b, a], votes, tb, ta)
  {
    hide ValidAgreement, Assemble, PortableTokens, ForbiddenTokens;
    PairForm(votes);
    ForbiddenSymmetric(a, b, votes[0], votes[1]);
  }

  lemma PermutedAgrees(lt: Order, common: StateRef, branches: seq<BranchEvidence>, votes: seq<Vote>,
                       branches': seq<BranchEvidence>, votes': seq<Vote>)
    requires Trichotomous(lt)
    requires multiset(branches) == multiset(branches') && multiset(votes) == multiset(votes')
    requires Reconcile(lt, common, branches, votes).Ok?
    ensures Reconcile(lt, common, branches', votes') == Reconcile(lt, common, branches, votes)
  {
    PermutedPair(branches, branches');
    PermutedPair(votes, votes');
    SwapsAgree(lt, common, branches, votes, branches', votes');
  }

  /** Permuting branches or votes keeps acceptance and every field of the accepted agreement. */
  lemma ReconciliationIsCanonical(lt: Order, common: StateRef, branches: seq<BranchEvidence>, votes: seq<Vote>,
                                  branches': seq<BranchEvidence>, votes': seq<Vote>)
    requires Trichotomous(lt)
    requires multiset(branches) == multiset(branches') && multiset(votes) == multiset(votes')
    ensures Reconcile(lt, common, branches, votes).Ok? <==> Reconcile(lt, common, branches', votes').Ok?
    ensures Reconcile(lt, common, branches, votes).Ok? ==>
              Reconcile(lt, common, branches, votes) == Reconcile(lt, common, branches', votes')
  {
    if Reconcile(lt, common, branches, votes).Ok? {
      PermutedAgrees(lt, common, branches, votes, branches', votes');
    } else if Reconcile(lt, common, branches', votes').Ok? {
      PermutedAgrees(lt, common, branches', votes', branches, votes);
    }
  }

  lemma SwapVotes(lt: Order, common: StateRef, a: BranchEvidence, b: BranchEvidence, v: Vote, w: Vote)
    requires ValidStateRef(common) && ReconcilePair(lt, common, a, b, v, w).Ok?
    ensures ReconcilePair(lt, common, a, b, w, v) == ReconcilePair(lt, common, a, b, v, w)
  {
    hide ReconcilePair, Conclude;
    PairCases(lt, common, a, b, v, w);
    ReconcilableSymmetric(common, a, b, v, w);
    PairCases(lt, common, a, b, w, v);
    ConcludeSwapsVotes(lt, common, [a, b], v, w, TipOf(common, a), TipOf(common, b));
  }

  lemma SwapBranches(lt: Order, common: StateRef, a: BranchEvidence, b: BranchEvidence, v: Vote, w: Vote)
    requires Trichotomous(lt) && ValidStateRef(common) && ReconcilePair(lt, common, a, b, v, w).Ok?
    ensures ReconcilePair(lt, common, b, a, v, w) == ReconcilePair(lt, common, a, b, v, w)
  {
    hide ReconcilePair, Conclude;
    PairCases(lt, common, a, b, v, w);
    ReconcilableSymmetric(common, a, b, v, w);
    PairCases(lt, common, b, a, v, w);
    ConcludeSwapsBranches(lt, common, a, b, [v, w], TipOf(common, a), TipOf(common, b));
  }

  lemma SwapsAgree(lt: Order, common: StateRef, branches: seq<BranchEvidence>, votes: seq<Vote>,
                   branches': seq<BranchEvidence>, votes': seq<Vote>)
    requires Trichotomous(lt) && ValidStateRef(common) && |branches| == |votes| == 2
    requires branches' == branches || branches' == [branches[1], branches[0]]
    requires votes' == votes || votes' == [votes[1], votes[0]]
    ensures Reconcile(lt, common, branches, votes).Ok? ==>
              Reconcile(lt, common, branches', votes') == Reconcile(lt, common, branches, votes)
  {
    var a, b, v, w := branches[0], branches[1], votes[0], votes[1];
    if ReconcilePair(lt, common, a, b, v, w).Ok? {
      SwapVotes(lt, common, a, b, v, w);
      SwapBranches(lt, common, a, b, v, w);
      SwapBranches(lt, common, a, b, w, v);
    }
  }
}
