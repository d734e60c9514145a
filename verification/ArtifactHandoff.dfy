/** Bounded artifact handoff: temporal authority of two receipts, their projection into a cross-source comparison, and
    the verdict at the audit cutoff. */
module ArtifactHandoff {
  import opened Prelude
  import opened SortedKeys
  import opened WitnessSets
  import opened TraceValidation
  import opened CrossSource

  datatype Role = Sender | Receiver

  datatype Binding = Binding(sourceId: string, publicKey: string, notBeforeMs: int, notAfterMs: int)

  datatype RolePolicy = RolePolicy(epoch: int, validFromMs: int, validUntilMs: int, sender: Binding, receiver: Binding)

  datatype CurrentPolicy = CurrentPolicy(policy: RolePolicy, asOfMs: int, nextUpdateMs: int)

  datatype EventKind = Revoked | Compromised

  datatype KeyEvent = KeyEvent(publicKey: string, kind: EventKind, effectiveAtMs: int)

  datatype KeyStatus = KeyStatus(asOfMs: int, nextUpdateMs: int, events: seq<KeyEvent>)

  datatype Expected = Expected(correlationId: string, artifactHash: string, artifactBytes: int, senderSource: string,
                               receiverSource: string, windowStartMs: int, auditCutoffMs: int, final: bool)

  /** What the receiver accepts; `observations` maps a receipt digest to its accepted observation time. */
  datatype Context = Context(expected: Expected, evaluationTimeMs: int, historicalPolicies: seq<RolePolicy>,
                             currentPolicy: Option<CurrentPolicy>, keyStatus: Option<KeyStatus>,
                             observations: map<string, int>)

  datatype HandoffReceipt = HandoffReceipt(stepId: string, success: bool, tsMs: int, publicKey: string,
                                           sourceId: string,
                                           correlationId: string, artifactHash: string, artifactBytes: int,
                                           policyEpoch: int)

  /** One receipt file: its decoded content, the digest of its bytes, and whether its signature verifies. */
  datatype ReceiptFile = ReceiptFile(receipt: HandoffReceipt, digest: string, signed: bool)

  datatype Package = Package(correlationId: string, artifactHash: string, artifactBytes: int,
                             receipts: map<Role, ReceiptFile>)

  // ---------------------------------------------------------------- inputs

  predicate IsAlphanumeric(c: char) {
    'A' <= c <= 'Z' || 'a' <= c <= 'z' || '0' <= c <= '9'
  }

  predicate Identifier(s: string) {
    && 0 < |s| <= 64
    && IsAlphanumeric(s[0])
    && forall i :: 0 < i < |s| ==> IsAlphanumeric(s[i]) || s[i] in {'.', '_', ':', '-'}
  }

  const MAX_TIME_MS := 4_102_444_800_000

  predicate Time(ms: int) {
    0 <= ms <= MAX_TIME_MS
  }

  function SourceOf(e: Expected, role: Role): string {
    if role.Sender? then e.senderSource else e.receiverSource
  }

  function BindingOf(p: RolePolicy, role: Role): Binding {
    if role.Sender? then p.sender else p.receiver
  }

  predicate ValidBinding(b: Binding) {
    Identifier(b.sourceId) && Time(b.notBeforeMs) && Time(b.notAfterMs) && b.notBeforeMs < b.notAfterMs
  }

  predicate ValidRolePolicy(p: RolePolicy) {
    && 1 <= p.epoch <= 2_147_483_647
    && Time(p.validFromMs) && Time(p.validUntilMs) && p.validFromMs < p.validUntilMs
    && ValidBinding(p.sender) && ValidBinding(p.receiver)
    && p.sender.sourceId != p.receiver.sourceId && p.sender.publicKey != p.receiver.publicKey
  }

  predicate ValidFreshness(asOfMs: int, nextUpdateMs: int) {
    Time(asOfMs) && Time(nextUpdateMs) && asOfMs < nextUpdateMs
  }

  predicate ValidKeyStatus(s: KeyStatus) {
    && ValidFreshness(s.asOfMs, s.nextUpdateMs)
    && (forall i :: 0 <= i < |s.events| ==> Time(s.events[i].effectiveAtMs) && s.events[i].effectiveAtMs <= s.asOfMs)
    && (forall i, j :: 0 <= i < j < |s.events| ==> s.events[i].publicKey != s.events[j].publicKey)
  }

  predicate ValidContext(c: Context) {
    && Identifier(c.expected.correlationId)
    && Identifier(c.expected.senderSource) && Identifier(c.expected.receiverSource)
    && c.expected.senderSource != c.expected.receiverSource
    && Time(c.expected.windowStartMs) && Time(c.expected.auditCutoffMs) && Time(c.evaluationTimeMs)
    && c.expected.windowStartMs <= c.expected.auditCutoffMs <= c.evaluationTimeMs
    && |c.historicalPolicies| <= 16
    && (forall i :: 0 <= i < |c.historicalPolicies| ==> ValidRolePolicy(c.historicalPolicies[i]))
    && (forall i, j :: 0 <= i < j < |c.historicalPolicies| ==>
          c.historicalPolicies[i].epoch != c.historicalPolicies[j].epoch)
    && (c.currentPolicy.Some? ==>
          && ValidRolePolicy(c.currentPolicy.value.policy)
          && ValidFreshness(c.currentPolicy.value.asOfMs, c.currentPolicy.value.nextUpdateMs)
          && forall i :: 0 <= i < |c.historicalPolicies| &&
                         c.historicalPolicies[i].epoch == c.currentPolicy.value.policy.epoch ==>
               c.historicalPolicies[i] == c.currentPolicy.value.policy)
    && (c.keyStatus.Some? ==> ValidKeyStatus(c.keyStatus.value) && |c.keyStatus.value.events| <= 32)
    && |c.observations| <= 2
    && (forall d :: d in c.observations ==> Time(c.observations[d]) && c.observations[d] <= c.evaluationTimeMs)
  }

  predicate ValidReceipt(r: HandoffReceipt) {
    Identifier(r.stepId) && Time(r.tsMs) && Identifier(r.sourceId) && Identifier(r.correlationId)
  }

  // ---------------------------------------------------------------- authority over time

  predicate Fresh(asOfMs: int, nextUpdateMs: int, now: int) {
    asOfMs <= now < nextUpdateMs
  }

  predicate BindingMatches(p: RolePolicy, role: Role, r: HandoffReceipt, e: Expected) {
    BindingOf(p, role).publicKey == r.publicKey && BindingOf(p, role).sourceId == r.sourceId == SourceOf(e, role)
  }

  /** `_within`: both intervals are closed at the start and open at the end. */
  predicate Within(p: RolePolicy, role: Role, at: int) {
    p.validFromMs <= at < p.validUntilMs && BindingOf(p, role).notBeforeMs <= at < BindingOf(p, role).notAfterMs
  }

  /** `_event`: the first event of the key that is effective at the given time. */
  function EventAt(events: seq<KeyEvent>, key: string, at: int): Option<EventKind> {
    if events == [] then None
    else if events[0].publicKey == key && events[0].effectiveAtMs <= at then Some(events[0].kind)
    else EventAt(events[1..], key, at)
  }

  function PolicyOfEpoch(policies: seq<RolePolicy>, epoch: int): Option<RolePolicy> {
    if policies == [] then None
    else if policies[0].epoch == epoch then Some(policies[0])
    else PolicyOfEpoch(policies[1..], epoch)
  }

  datatype HistoricalAuthority =
    | SignatureNotEvaluable
    | PolicyArchiveInsufficient
    | RoleBindingNotAuthorized
    | ObservationInsufficient
    | ObservationContradictory
    | KeyStatusInsufficient
    | IndeterminateAfterCompromise
    | RevokedBeforeObservation
    | NotAuthorizedAtObservation
    | AuthorizedAtObservation

  function Historical(c: Context, role: Role, r: HandoffReceipt, observed: Option<int>, signed: bool)
    : HistoricalAuthority
  {
    var policy := PolicyOfEpoch(c.historicalPolicies, r.policyEpoch);
    if !signed then SignatureNotEvaluable
    else if policy.None? then PolicyArchiveInsufficient
    else if !BindingMatches(policy.value, role, r, c.expected) then RoleBindingNotAuthorized
    else if observed.None? then ObservationInsufficient
    else if observed.value < r.tsMs then ObservationContradictory
    else if c.keyStatus.None?
         || !Fresh(c.keyStatus.value.asOfMs, c.keyStatus.value.nextUpdateMs, c.evaluationTimeMs) then
      KeyStatusInsufficient
    else
      var event := EventAt(c.keyStatus.value.events, r.publicKey, observed.value);
      if event == Some(Compromised) then IndeterminateAfterCompromise
      else if event == Some(Revoked) then RevokedBeforeObservation
      else if !Within(policy.value, role, observed.value) then NotAuthorizedAtObservation
      else AuthorizedAtObservation
  }

  datatype CurrentAuthority =
    | CurrentSignatureNotEvaluable
    | CurrentPolicyInsufficient
    | CurrentKeyStatusInsufficient
    | KeyEventBlocks
    | NotCurrentPolicy
    | NotAuthorizedAtEvaluation
    | AuthorizedForCurrentPolicy

  function Current(c: Context, role: Role, r: HandoffReceipt, signed: bool): CurrentAuthority {
    var now := c.evaluationTimeMs;
    if !signed then CurrentSignatureNotEvaluable
    else if c.currentPolicy.None? || !Fresh(c.currentPolicy.value.asOfMs, c.currentPolicy.value.nextUpdateMs, now) then
      CurrentPolicyInsufficient
    else if c.keyStatus.None? || !Fresh(c.keyStatus.value.asOfMs, c.keyStatus.value.nextUpdateMs, now) then
      CurrentKeyStatusInsufficient
    else if EventAt(c.keyStatus.value.events, r.publicKey, now).Some? then KeyEventBlocks
    else
      var policy := c.currentPolicy.value.policy;
      if policy.epoch != r.policyEpoch || !BindingMatches(policy, role, r, c.expected) then NotCurrentPolicy
      else if !Within(policy, role, now) then NotAuthorizedAtEvaluation
      else AuthorizedForCurrentPolicy
  }

  lemma {:induction false} EventExact(events: seq<KeyEvent>, key: string, at: int)
    ensures EventAt(events, key, at).None? <==> forall e :: e in events && e.publicKey == key ==> at < e.effectiveAtMs
  {
    if events != [] {
      EventExact(events[1..], key, at);
      assert events == [events[0]] + events[1..];
    }
  }

  lemma {:induction false} PolicyExact(policies: seq<RolePolicy>, epoch: int)
    ensures match PolicyOfEpoch(policies, epoch)
            case None => forall p :: p in policies ==> p.epoch != epoch
            case Some(p) => p in policies && p.epoch == epoch
  {
    if policies != [] {
      PolicyExact(policies[1..], epoch);
      assert policies == [policies[0]] + policies[1..];
    }
  }

  /** An archived policy of the signed epoch binds this key and source to the role and was in force at the time. */
  ghost predicate BoundAt(c: Context, role: Role, r: HandoffReceipt, at: int) {
    exists p :: p in c.historicalPolicies && p.epoch == r.policyEpoch && BindingMatches(p, role, r, c.expected)
                && Within(p, role, at)
  }

  ghost predicate EventFree(s: KeyStatus, key: string, at: int) {
    forall e :: e in s.events && e.publicKey == key ==> at < e.effectiveAtMs
  }

  /** Historical authority, declaratively: signed, observed and not before it was made, under a fresh key status that
      shows no event of the key by then, and bound by an archived policy in force at the observation. */
  lemma HistoricalExact(c: Context, role: Role, r: HandoffReceipt, observed: Option<int>, signed: bool)
    requires ValidContext(c)
    ensures Historical(c, role, r, observed, signed) == AuthorizedAtObservation
       <==> signed && observed.Some? && r.tsMs <= observed.value && c.keyStatus.Some?
            && Fresh(c.keyStatus.value.asOfMs, c.keyStatus.value.nextUpdateMs, c.evaluationTimeMs)
            && EventFree(c.keyStatus.value, r.publicKey, observed.value)
            && BoundAt(c, role, r, observed.value)
  {
    hide ValidContext, Fresh, BindingMatches, Within, BoundAt;
    if observed.Some? {
      BoundAtExact(c, role, r, observed.value);
      if c.keyStatus.Some? {
        EventExact(c.keyStatus.value.events, r.publicKey, observed.value);
        var event := EventAt(c.keyStatus.value.events, r.publicKey, observed.value);
        assert event.Some? ==> event.value.Revoked? || event.value.Compromised?;
      }
    }
  }

  lemma BoundAtExact(c: Context, role: Role, r: HandoffReceipt, at: int)
    requires ValidContext(c)
    ensures var policy := PolicyOfEpoch(c.historicalPolicies, r.policyEpoch);
            BoundAt(c, role, r, at) <==>
              policy.Some? && BindingMatches(policy.value, role, r, c.expected) && Within(policy.value, role, at)
  {
    hide ValidContext, BindingMatches, Within;
    PolicyExact(c.historicalPolicies, r.policyEpoch);
    forall p | p in c.historicalPolicies && p.epoch == r.policyEpoch
      ensures PolicyOfEpoch(c.historicalPolicies, r.policyEpoch) == Some(p)
    {
      OnePolicyPerEpoch(c, p);
    }
  }

  lemma OnePolicyPerEpoch(c: Context, p: RolePolicy)
    requires ValidContext(c) && p in c.historicalPolicies
    ensures PolicyOfEpoch(c.historicalPolicies, p.epoch) == Some(p)
  {
    hide Identifier, ValidRolePolicy, ValidKeyStatus;
    PolicyExact(c.historicalPolicies, p.epoch);
  }

  /** Adding one event at position k of the list, for a key and a time: invisible before its time, visible from then
      on. */
  lemma {:induction false} InsertedEvent(events: seq<KeyEvent>, k: nat, event: KeyEvent, at: int)
    requires k <= |events|
    ensures var more := events[..k] + [event] + events[k..];
            && (at < event.effectiveAtMs ==>
                  forall key :: EventAt(more, key, at) == EventAt(events, key, at))
            && (event.effectiveAtMs <= at ==> EventAt(more, event.publicKey, at).Some?)
  {
    var more := events[..k] + [event] + events[k..];
    if k == 0 {
      assert more[1..] == events;
    } else {
      InsertedEvent(events[1..], k - 1, event, at);
      assert more[1..] == events[1..][..k - 1] + [event] + events[1..][k - 1..];
      assert more[0] == events[0];
    }
  }

  /** A key event takes effect from its time on and never before, wherever it stands in the list: it leaves every
      earlier observation's authority as it was, and it blocks current authority from then on. */
  lemma RevocationIsNotRetroactive(c: Context, role: Role, r: HandoffReceipt, observed: int, signed: bool,
                                   event: KeyEvent, k: nat)
    requires c.keyStatus.Some? && k <= |c.keyStatus.value.events| && event.publicKey == r.publicKey
    requires observed < event.effectiveAtMs <= c.evaluationTimeMs
    ensures var events := c.keyStatus.value.events;
            var status := c.keyStatus.value.(events := events[..k] + [event] + events[k..]);
            var later := c.(keyStatus := Some(status));
            && Historical(later, role, r, Some(observed), signed) == Historical(c, role, r, Some(observed), signed)
            && Current(later, role, r, signed) != AuthorizedForCurrentPolicy
  {
    hide PolicyOfEpoch, BindingMatches, Within, Fresh, EventAt;
    InsertedEvent(c.keyStatus.value.events, k, event, observed);
    InsertedEvent(c.keyStatus.value.events, k, event, c.evaluationTimeMs);
  }

  // ---------------------------------------------------------------- projection

  function RoleName(role: Role): string {
    if role.Sender? then "sender" else "receiver"
  }

  function Seconds(ms: int): real {
    ms as real / 1000.0
  }

  predicate AtCutoff(e: Expected, r: HandoffReceipt, observed: Option<int>) {
    observed.Some? && observed.value <= e.auditCutoffMs && e.windowStartMs <= r.tsMs <= e.auditCutoffMs
  }

  function SidesFor(e: Expected): map<string, string> {
    map["sender" := e.senderSource, "receiver" := e.receiverSource]
  }

  function RulesFor(e: Expected): Rules {
    Rules(SidesFor(e), Seconds(e.windowStartMs), Seconds(e.auditCutoffMs))
  }

  /** The receipt's own cutoff test is exactly the cross-source scope filter. */
  lemma AtCutoffIsScopeFilter(e: Expected, r: HandoffReceipt, observed: int)
    ensures AtCutoff(e, r, Some(observed)) <==> ScopeFilter(RulesFor(e), Seconds(r.tsMs), Seconds(observed)).None?
  {
  }

  function ObservedAt(c: Context, f: ReceiptFile): Option<int> {
    if f.digest in c.observations then Some(c.observations[f.digest]) else None
  }

  predicate Authorized(c: Context, role: Role, f: ReceiptFile) {
    Historical(c, role, f.receipt, ObservedAt(c, f), f.signed) == AuthorizedAtObservation
  }

  function CrossRecordOf(c: Context, role: Role, f: ReceiptFile): CrossRecord {
    var r, observed := f.receipt, ObservedAt(c, f);
    var line := Object(Some(Words(r.stepId)), Some(Sense), Some(At(Finite(Seconds(r.tsMs)))), Some(Words(r.sourceId)));
    CrossRecord(line, true, true,
                ExactFields, if observed.Some? then Some(Seconds(observed.value)) else None, Words(r.correlationId),
                Words(r.sourceId), Words(RoleName(role)), Some("sha256:" + r.artifactHash))
  }

  function RecordOfRole(c: Context, p: Package, role: Role): seq<CrossRecord> {
    if role in p.receipts then [CrossRecordOf(c, role, p.receipts[role])] else []
  }

  function ProjectedRecords(c: Context, p: Package): seq<CrossRecord> {
    RecordOfRole(c, p, Sender) + RecordOfRole(c, p, Receiver)
  }

  datatype ProjectionStatus = InsufficientAuthenticated | NotEvaluableClaimBinding | Compared(status: PairwiseStatus)

  datatype Projection = Projection(status: ProjectionStatus, matched: seq<string>, missingSides: seq<string>,
                                   conflicting: bool, excludedSides: seq<string>)

  datatype HandoffError =
    | ContextInvalid
    | ReceiptInvalid(role: Role)
    | DuplicateStepId
    | ProjectionRejected(error: RequestError)

  predicate WrongCorrelationAtCutoff(c: Context, p: Package, role: Role) {
    && role in p.receipts
    && p.receipts[role].receipt.correlationId != c.expected.correlationId
    && AtCutoff(c.expected, p.receipts[role].receipt, ObservedAt(c, p.receipts[role]))
  }

  function MissingSidesOf(missing: seq<Missing>): set<string> {
    set m, side | m in missing && side in m.missingSides :: side
  }

  function ExcludedSidesOf(excluded: seq<OutOfScope>): set<string> {
    set x | x in excluded :: x.side
  }

  /** `_projection`; an invalid comparison request would be an error. */
  function Project(c: Context, p: Package): Result<Projection, HandoffError> {
    if exists role :: role in p.receipts && !Authorized(c, role, p.receipts[role]) then
      Ok(Projection(InsufficientAuthenticated, [], [], false, []))
    else if WrongCorrelationAtCutoff(c, p, Sender) || WrongCorrelationAtCutoff(c, p, Receiver) then
      Ok(Projection(NotEvaluableClaimBinding, [], [], false, []))
    else
      match Assessment(ProjectedRecords(c, p), SidesFor(c.expected), Some(Seconds(c.expected.windowStartMs)),
                       Some(Seconds(c.expected.auditCutoffMs)), c.expected.final)
      case Err(e) => Err(ProjectionRejected(e))
      case Ok(report) =>
        Ok(Projection(Compared(report.status), report.matched, Sorted(MissingSidesOf(report.missing)),
                      report.conflicts != [], Sorted(ExcludedSidesOf(report.outOfScope))))
  }

  // ---------------------------------------------------------------- the verdict

  datatype TimeBinding = TimeMissing | TimeContradictory | ObservedAfterCutoff | ObservedByCutoff

  datatype Detail =
    | Absent
    | Present(signed: bool, claimMatches: bool, digest: string, observedAt: Option<int>, timeBinding: TimeBinding,
              historical: HistoricalAuthority, current: CurrentAuthority)

  datatype Verdict = ViolatedExpectedClaim | ViolatedSnapshotContract | Supported | InsufficientEvidence

  datatype HandoffReport = HandoffReport(artifactMatch: bool, manifestMatch: bool, details: map<Role, Detail>,
                                         projection: Projection, verdict: Verdict)

  predicate ArtifactMatch(c: Context, p: Package) {
    p.artifactHash == c.expected.artifactHash && p.artifactBytes == c.expected.artifactBytes
  }

  predicate ManifestMatch(c: Context, p: Package) {
    p.correlationId == c.expected.correlationId
  }

  predicate ClaimMatches(c: Context, p: Package, role: Role, r: HandoffReceipt) {
    && ManifestMatch(c, p) && ArtifactMatch(c, p)
    && r.correlationId == c.expected.correlationId
    && r.sourceId == SourceOf(c.expected, role)
    && r.artifactHash == p.artifactHash && r.artifactBytes == p.artifactBytes
    && r.success
  }

  function TimeBindingOf(e: Expected, r: HandoffReceipt, observed: Option<int>): TimeBinding {
    if observed.None? then TimeMissing
    else if observed.value < r.tsMs then TimeContradictory
    else if observed.value > e.auditCutoffMs then ObservedAfterCutoff
    else ObservedByCutoff
  }

  function DetailOf(c: Context, p: Package, role: Role): Detail {
    if role !in p.receipts then Absent
    else
      var f := p.receipts[role];
      var observed := ObservedAt(c, f);
      Present(f.signed, ClaimMatches(c, p, role, f.receipt), f.digest, observed,
              TimeBindingOf(c.expected, f.receipt, observed), Historical(c, role, f.receipt, observed, f.signed),
              Current(c, role, f.receipt, f.signed))
  }

  /** The role's receipt is historically authorised and inside window and cutoff. */
  predicate SeenAtCutoff(c: Context, p: Package, role: Role) {
    && role in p.receipts
    && Authorized(c, role, p.receipts[role])
    && AtCutoff(c.expected, p.receipts[role].receipt, ObservedAt(c, p.receipts[role]))
  }

  predicate AuthenticatedMismatch(c: Context, p: Package, role: Role) {
    SeenAtCutoff(c, p, role) && !ClaimMatches(c, p, role, p.receipts[role].receipt)
  }

  function VerdictOf(c: Context, p: Package, status: ProjectionStatus): Verdict {
    if !ArtifactMatch(c, p) || !ManifestMatch(c, p) || AuthenticatedMismatch(c, p, Sender)
       || AuthenticatedMismatch(c, p, Receiver) then ViolatedExpectedClaim
    else if status == Compared(Violated) then ViolatedSnapshotContract
    else if status == Compared(ConsistentInSnapshots) then Supported
    else InsufficientEvidence
  }

  predicate ValidPackage(p: Package) {
    && (forall role :: role in p.receipts ==> ValidReceipt(p.receipts[role].receipt))
    && (Sender in p.receipts && Receiver in p.receipts ==>
          p.receipts[Sender].receipt.stepId != p.receipts[Receiver].receipt.stepId)
  }

  /** The first error the verifier raises: the context, then each role's receipt, then a repeated step identifier. */
  function PackageError(c: Context, p: Package): Option<HandoffError> {
    if !ValidContext(c) then Some(ContextInvalid)
    else if Sender in p.receipts && !ValidReceipt(p.receipts[Sender].receipt) then Some(ReceiptInvalid(Sender))
    else if Receiver in p.receipts && !ValidReceipt(p.receipts[Receiver].receipt) then Some(ReceiptInvalid(Receiver))
    else if Sender in p.receipts && Receiver in p.receipts
         && p.receipts[Sender].receipt.stepId == p.receipts[Receiver].receipt.stepId then Some(DuplicateStepId)
    else None
  }

  /** `verify_artifact_handoff`, after decoding and transport checks. */
  method VerifyArtifactHandoff(c: Context, p: Package) returns (r: Result<HandoffReport, HandoffError>)
    ensures r.Ok? <==> ValidContext(c) && ValidPackage(p)
    ensures r.Err? ==> Some(r.error) == PackageError(c, p)
    ensures r.Ok? ==> Project(c, p).Ok?
                      && r.value == HandoffReport(ArtifactMatch(c, p), ManifestMatch(c, p),
                                      map[Sender := DetailOf(c, p, Sender), Receiver := DetailOf(c, p, Receiver)],
                                      Project(c, p).value, VerdictOf(c, p, Project(c, p).value.status))
  {
    hide ValidContext, ValidReceipt, Project, ClaimMatches, Historical, Current, VerdictOf;
    if !ValidContext(c) {
      return Err(ContextInvalid);
    }
    var artifactMatch, manifestMatch := ArtifactMatch(c, p), ManifestMatch(c, p);
    var details: map<Role, Detail> := map[];
    var seenIds: set<string> := {};
    var roles := [Sender, Receiver];
    for k := 0 to 2
      invariant (Sender in details <==> k > 0) && (Receiver in details <==> k > 1)
      invariant forall role :: role in details ==> details[role] == DetailOf(c, p, role)
      invariant forall id :: id in seenIds <==>
                  || (k > 0 && Sender in p.receipts && id == p.receipts[Sender].receipt.stepId)
                  || (k > 1 && Receiver in p.receipts && id == p.receipts[Receiver].receipt.stepId)
      invariant k > 0 && Sender in p.receipts ==> ValidReceipt(p.receipts[Sender].receipt)
      invariant k > 1 && Receiver in p.receipts ==> ValidReceipt(p.receipts[Receiver].receipt)
      invariant k > 1 && Sender in p.receipts && Receiver in p.receipts ==>
                  p.receipts[Sender].receipt.stepId != p.receipts[Receiver].receipt.stepId
    {
      var role := roles[k];
      if role !in p.receipts {
        details := details[role := Absent];
        continue;
      }
      var f := p.receipts[role];
      if !ValidReceipt(f.receipt) {
        return Err(ReceiptInvalid(role));
      }
      if f.receipt.stepId in seenIds {
        return Err(DuplicateStepId);
      }
      seenIds := seenIds + {f.receipt.stepId};
      var observed := ObservedAt(c, f);
      details := details[role := Present(f.signed, ClaimMatches(c, p, role, f.receipt), f.digest, observed,
                                         TimeBindingOf(c.expected, f.receipt, observed),
                                         Historical(c, role, f.receipt, observed, f.signed),
                                         Current(c, role, f.receipt, f.signed))];
    }
    forall role | role in p.receipts ensures ValidReceipt(p.receipts[role].receipt) {
      assert role.Sender? || role.Receiver?;
    }
    forall role | role in details ensures role == Sender || role == Receiver {
    }
    assert details.Keys == {Sender, Receiver};
    assert details == map[Sender := DetailOf(c, p, Sender), Receiver := DetailOf(c, p, Receiver)];
    ProjectionNeverRaises(c, p);
    var projection := Project(c, p);
    return Ok(HandoffReport(artifactMatch, manifestMatch, details, projection.value,
                            VerdictOf(c, p, projection.value.status)));
  }

  lemma IdentifierIsMeaningful(s: string)
    requires Identifier(s)
    ensures !Blank(s)
  {
    assert !IsSpace(s[0]);
  }

  lemma RequestIsValid(c: Context)
    requires ValidContext(c)
    ensures ValidSides(SidesFor(c.expected)) && Seconds(c.expected.windowStartMs) <= Seconds(c.expected.auditCutoffMs)
    ensures SidesFor(c.expected).Keys == {"sender", "receiver"}
  {
    hide Identifier, ValidRolePolicy, ValidKeyStatus, Blank;
    IdentifierIsMeaningful(c.expected.senderSource);
    IdentifierIsMeaningful(c.expected.receiverSource);
    NamesAreMeaningful();
    var sides := SidesFor(c.expected);
    assert sides.Keys == {"sender", "receiver"};
    assert |sides.Keys| == 2;
  }

  lemma NamesAreMeaningful()
    ensures !Blank("sender") && !Blank("receiver")
  {
    assert !IsSpace("sender"[0]) && !IsSpace("receiver"[0]);
  }

  /** The comparison request built from a valid context is always accepted. */
  lemma ProjectionNeverRaises(c: Context, p: Package)
    requires ValidContext(c)
    ensures Project(c, p).Ok?
  {
    hide ValidContext, Authorized, WrongCorrelationAtCutoff, ValidSides, TracedReport, EnvelopeErrors, ErrorsOf, Sorted;
    RequestIsValid(c);
  }

  // ---------------------------------------------------------------- what the verdict means

  predicate AllAuthorized(c: Context, p: Package) {
    forall role :: role in p.receipts ==> Authorized(c, role, p.receipts[role])
  }

  lemma AuthorizedFacts(c: Context, role: Role, f: ReceiptFile)
    requires Authorized(c, role, f)
    ensures ObservedAt(c, f).Some? && f.receipt.tsMs <= ObservedAt(c, f).value
    ensures f.receipt.sourceId == SourceOf(c.expected, role)
  {
    hide Within, EventAt, PolicyOfEpoch, Fresh;
  }

  lemma RoleRecordIsClean(c: Context, p: Package, role: Role)
    requires ValidContext(c) && ValidPackage(p) && role in p.receipts && Authorized(c, role, p.receipts[role])
    ensures var x := CrossRecordOf(c, role, p.receipts[role]);
            && WellFormed(x.line) && RecordFault(RulesFor(c.expected), x).None?
            && (InScope(RulesFor(c.expected), x) <==> SeenAtCutoff(c, p, role))
  {
    hide Identifier, Historical, Blank, ValidRolePolicy, ValidKeyStatus;
    var f := p.receipts[role];
    AuthorizedFacts(c, role, f);
    IdentifierIsMeaningful(f.receipt.stepId);
    IdentifierIsMeaningful(f.receipt.sourceId);
    IdentifierIsMeaningful(f.receipt.correlationId);
    NamesAreMeaningful();
    AtCutoffIsScopeFilter(c.expected, f.receipt, ObservedAt(c, f).value);
  }

  lemma SmallTraceIsClean(lines: seq<TraceLine>)
    requires |lines| <= 2 && forall i :: 0 <= i < |lines| ==> WellFormed(lines[i]) && lines[i].kind.value.Sense?
    requires |lines| == 2 ==> lines[0].Object? && lines[1].Object?
    requires |lines| == 2 ==> lines[0].id != lines[1].id && lines[0].threadId != lines[1].threadId
    ensures ErrorsOf(lines) == []
  {
    hide Blank, ErrorsOf;
    NoErrorsExactlyWhenClean(lines);
  }

  predicate RecordIsRoles(c: Context, p: Package, role: Role, x: CrossRecord) {
    role in p.receipts && x == CrossRecordOf(c, role, p.receipts[role])
  }

  lemma RecordsByRole(c: Context, p: Package)
    ensures var records := ProjectedRecords(c, p);
            && |records| <= 2
            && (forall i :: 0 <= i < |records| ==> EnvelopeFits(records[i]) && records[i].line.Object?)
            && (forall i :: 0 <= i < |records| ==> records[i].line.kind == Some(Sense))
            && (forall i :: 0 <= i < |records| ==>
                  RecordIsRoles(c, p, Sender, records[i]) || RecordIsRoles(c, p, Receiver, records[i]))
            && (|records| == 2 ==>
                  && Sender in p.receipts && records[0] == CrossRecordOf(c, Sender, p.receipts[Sender])
                  && Receiver in p.receipts && records[1] == CrossRecordOf(c, Receiver, p.receipts[Receiver]))
  {
    hide ObservedAt;
  }

  /** The projected records always form a clean trace without binding errors. */
  lemma ProjectedTraceIsClean(c: Context, p: Package)
    requires ValidContext(c) && ValidPackage(p) && AllAuthorized(c, p)
    ensures var records := ProjectedRecords(c, p);
            && Traced(records) && EnvelopeErrors(records) == [] && ErrorsOf(Lines(records)) == []
            && forall i :: 0 <= i < |records| ==> RecordFault(RulesFor(c.expected), records[i]).None?
  {
    hide RecordFault, Authorized, Blank, ErrorsOf, ValidContext, ValidReceipt, ProjectedRecords, WellFormed;
    var records := ProjectedRecords(c, p);
    RecordsByRole(c, p);
    forall i | 0 <= i < |records|
      ensures WellFormed(records[i].line) && RecordFault(RulesFor(c.expected), records[i]).None?
    {
      var role := if RecordIsRoles(c, p, Sender, records[i]) then Sender else Receiver;
      RoleRecordIsClean(c, p, role);
    }
    NoEnvelopeErrors(records);
    if |records| == 2 {
      AuthorizedFacts(c, Sender, p.receipts[Sender]);
      AuthorizedFacts(c, Receiver, p.receipts[Receiver]);
      SourcesDiffer(c);
    }
    SmallTraceIsClean(Lines(records));
  }

  lemma SourcesDiffer(c: Context)
    requires ValidContext(c)
    ensures SourceOf(c.expected, Sender) != SourceOf(c.expected, Receiver)
  {
  }

  lemma {:induction false} NoEnvelopeErrors(records: seq<CrossRecord>)
    requires forall i :: 0 <= i < |records| ==> EnvelopeFits(records[i])
    ensures EnvelopeErrors(records) == []
  {
    if records != [] {
      NoEnvelopeErrors(records[..|records| - 1]);
    }
  }

  /** A side is seen in scope exactly when its receipt is seen at the cutoff, with the receipt's own correlation and
      artifact digest. */
  lemma ObservedIsSeen(c: Context, p: Package, role: Role, id: string, digest: string)
    requires ValidContext(c) && ValidPackage(p) && AllAuthorized(c, p) && Traced(ProjectedRecords(c, p))
    ensures Observed(RulesFor(c.expected), ProjectedRecords(c, p), id, RoleName(role))
       <==> SeenAtCutoff(c, p, role) && p.receipts[role].receipt.correlationId == id
    ensures Observes(RulesFor(c.expected), ProjectedRecords(c, p), id, RoleName(role), digest)
       <==> SeenAtCutoff(c, p, role) && p.receipts[role].receipt.correlationId == id
            && "sha256:" + p.receipts[role].receipt.artifactHash == digest
  {
    hide RecordFault, ScopeFilter, Authorized, ValidContext, ValidPackage;
    var records, rules := ProjectedRecords(c, p), RulesFor(c.expected);
    assert |RoleName(Sender)| == 6 && |RoleName(Receiver)| == 8;
    if Sender in p.receipts {
      RoleRecordIsClean(c, p, Sender);
      assert records[0] == CrossRecordOf(c, Sender, p.receipts[Sender]);
    }
    if Receiver in p.receipts {
      RoleRecordIsClean(c, p, Receiver);
      assert records[|records| - 1] == CrossRecordOf(c, Receiver, p.receipts[Receiver]);
    }
    if SeenAtCutoff(c, p, role) {
      var i := if role.Sender? then 0 else |records| - 1;
      assert SitsAt(rules, records, i, p.receipts[role].receipt.correlationId, RoleName(role));
    }
  }

  // ---------------------------------------------------------------- the projection, exactly

  /** No receipt seen at the cutoff names another correlation. */
  predicate RightCorrelations(c: Context, p: Package) {
    !WrongCorrelationAtCutoff(c, p, Sender) && !WrongCorrelationAtCutoff(c, p, Receiver)
  }

  /** Both roles are seen at the cutoff, with different artifact digests. */
  predicate SeenApart(c: Context, p: Package) {
    && SeenAtCutoff(c, p, Sender) && SeenAtCutoff(c, p, Receiver)
    && p.receipts[Sender].receipt.artifactHash != p.receipts[Receiver].receipt.artifactHash
  }

  predicate PresentUnseen(c: Context, p: Package, role: Role) {
    role in p.receipts && !SeenAtCutoff(c, p, role)
  }

  /** "receiver" sorts before "sender". */
  function NamesInOrder(sender: bool, receiver: bool): seq<string> {
    (if receiver then ["receiver"] else []) + (if sender then ["sender"] else [])
  }

  function RoleNames(sender: bool, receiver: bool): set<string> {
    (if receiver then {"receiver"} else {}) + (if sender then {"sender"} else {})
  }

  /** The projection in terms of the receipts alone: which roles are seen at the cutoff, and whether their digests
      agree. */
  function ProjectionOf(c: Context, p: Package): Projection {
    if !AllAuthorized(c, p) then Projection(InsufficientAuthenticated, [], [], false, [])
    else if !RightCorrelations(c, p) then Projection(NotEvaluableClaimBinding, [], [], false, [])
    else
      var sender, receiver := SeenAtCutoff(c, p, Sender), SeenAtCutoff(c, p, Receiver);
      Projection(Compared(StatusOfSides(sender, receiver, SeenApart(c, p), c.expected.final)),
                 if sender && receiver && !SeenApart(c, p) then [c.expected.correlationId] else [],
                 NamesInOrder(receiver && !sender, sender && !receiver),
                 SeenApart(c, p),
                 NamesInOrder(PresentUnseen(c, p, Sender), PresentUnseen(c, p, Receiver)))
  }

  /** The comparison behind the projection, once every receipt is authorised. */
  function Comparison(c: Context, p: Package): Report
    requires ValidContext(c) && ValidPackage(p) && AllAuthorized(c, p)
  {
    ProjectedTraceIsClean(c, p);
    TracedReport(RulesFor(c.expected), c.expected.final, ProjectedRecords(c, p))
  }

  lemma ProjectionCompares(c: Context, p: Package)
    requires ValidContext(c) && ValidPackage(p)
    ensures AllAuthorized(c, p) && RightCorrelations(c, p) ==>
              var report := Comparison(c, p);
              Project(c, p) ==
              Ok(Projection(Compared(report.status), report.matched, Sorted(MissingSidesOf(report.missing)),
                                             report.conflicts != [], Sorted(ExcludedSidesOf(report.outOfScope))))
    ensures !AllAuthorized(c, p) || !RightCorrelations(c, p) ==> Project(c, p) == Ok(ProjectionOf(c, p))
  {
    hide Authorized, ValidContext, TracedReport, ProjectedRecords, EnvelopeErrors, ErrorsOf, Lines, ValidSides, Sorted,
      MissingSidesOf, ExcludedSidesOf, WrongCorrelationAtCutoff, ValidPackage;
    RequestIsValid(c);
    if AllAuthorized(c, p) {
      ProjectedTraceIsClean(c, p);
      RecordsByRole(c, p);
    }
  }

  /** A seen receipt sits in the group of the expected correlation, with its own digest, and nothing else does. */
  lemma GroupIsSeen(c: Context, p: Package, role: Role, id: string)
    requires ValidContext(c) && ValidPackage(p) && AllAuthorized(c, p) && RightCorrelations(c, p)
    requires Traced(ProjectedRecords(c, p))
    ensures var sideRecords := SidesOf(GroupsOf(RulesFor(c.expected), ProjectedRecords(c, p)), id);
            && (RoleName(role) in sideRecords <==> SeenAtCutoff(c, p, role) && id == c.expected.correlationId)
            && (RoleName(role) in sideRecords ==>
                  && role in p.receipts
                  && var digest := sideRecords[RoleName(role)].actionDigest;
                  digest == Some("sha256:" + p.receipts[role].receipt.artifactHash))
  {
    hide Authorized, ValidContext, ValidPackage, Observed, Observes, ProjectedRecords, AtCutoff, Traced, GroupsOf,
      SidesOf, NoRepeats;
    var digest := if role in p.receipts then "sha256:" + p.receipts[role].receipt.artifactHash else "";
    ProjectedSidesDiffer(c, p);
    GroupIsObserved(RulesFor(c.expected), ProjectedRecords(c, p), id, RoleName(role));
    ObservedIsSeen(c, p, role, id, digest);
    assert role.Sender? || role.Receiver?;
  }

  lemma OnlyExpectedGroup(c: Context, p: Package)
    requires ValidContext(c) && ValidPackage(p) && AllAuthorized(c, p) && RightCorrelations(c, p)
    requires Traced(ProjectedRecords(c, p))
    ensures GroupsOf(RulesFor(c.expected), ProjectedRecords(c, p)).Keys <= {c.expected.correlationId}
  {
    hide Authorized, ValidContext, ValidPackage, GroupsOf, SeenAtCutoff, RightCorrelations, ProjectedRecords, Traced;
    var rules, records := RulesFor(c.expected), ProjectedRecords(c, p);
    forall id | id in GroupsOf(rules, records) ensures id == c.expected.correlationId {
      SidesOfFacts(rules, records, id);
      var sideRecords := SidesOf(GroupsOf(rules, records), id);
      assert sideRecords.Keys != {};
      var side :| side in sideRecords;
      assert side == RoleName(Sender) || side == RoleName(Receiver);
      GroupIsSeen(c, p, Sender, id);
      GroupIsSeen(c, p, Receiver, id);
    }
  }

  lemma ProjectedSidesDiffer(c: Context, p: Package)
    requires Traced(ProjectedRecords(c, p))
    ensures NoRepeats(RulesFor(c.expected), ProjectedRecords(c, p))
  {
    hide InScope, Authorized, ProjectedRecords;
    RecordsByRole(c, p);
    assert |RoleName(Sender)| == 6 && |RoleName(Receiver)| == 8;
  }

  /** The report agrees with the projection in everything but the excluded sides. */
  predicate ReportFits(report: Report, spec: Projection) {
    && Compared(report.status) == spec.status
    && report.matched == spec.matched
    && (report.conflicts != []) == spec.conflicting
    && Sorted(MissingSidesOf(report.missing)) == spec.missingSides
  }

  lemma MissingNames(missing: seq<Missing>, sender: bool, receiver: bool)
    requires !(sender && receiver)
    requires if !sender && !receiver then missing == []
             else |missing| == 1 && missing[0].missingSides == [if sender then "sender" else "receiver"]
    ensures Sorted(MissingSidesOf(missing)) == NamesInOrder(sender, receiver)
  {
    hide Sorted;
    SortedRoles(sender, receiver);
    forall side ensures side in MissingSidesOf(missing) <==> side in RoleNames(sender, receiver) {
      if missing != [] {
        assert missing[0] in missing;
      }
    }
    assert MissingSidesOf(missing) == RoleNames(sender, receiver);
  }

  lemma ComparisonExact(c: Context, p: Package)
    requires ValidContext(c) && ValidPackage(p) && AllAuthorized(c, p) && RightCorrelations(c, p)
    ensures ReportFits(Comparison(c, p), ProjectionOf(c, p))
  {
    hide Authorized, ValidContext, ValidPackage, SeenAtCutoff, RightCorrelations, LineErrors, Excluded, TracedReport,
      GroupsOf, SidesOf, ProjectedRecords, Traced, NoRepeats, RecordFault, StatusOfSides, AllAuthorized, MissingSidesOf,
      Sorted, NamesInOrder;
    var rules, records, id := RulesFor(c.expected), ProjectedRecords(c, p), c.expected.correlationId;
    ProjectedTraceIsClean(c, p);
    ProjectedSidesDiffer(c, p);
    LineErrorsExact(rules, records);
    OnlyExpectedGroup(c, p);
    GroupIsSeen(c, p, Sender, id);
    GroupIsSeen(c, p, Receiver, id);
    assert |RoleName(Sender)| == 6 && |RoleName(Receiver)| == 8;
    OneCorrelation(rules, c.expected.final, records, RoleName(Sender), RoleName(Receiver), id);
    var sender, receiver := SeenAtCutoff(c, p, Sender), SeenAtCutoff(c, p, Receiver);
    MissingNames(Comparison(c, p).missing, receiver && !sender, sender && !receiver);
    if Sender in p.receipts && Receiver in p.receipts {
      PrefixedDigests(p.receipts[Sender].receipt.artifactHash, p.receipts[Receiver].receipt.artifactHash);
    }
  }

  lemma PrefixedDigests(x: string, y: string)
    ensures "sha256:" + x == "sha256:" + y <==> x == y
  {
    assert ("sha256:" + x)[7..] == x && ("sha256:" + y)[7..] == y;
  }

  lemma LeftOutIsUnseen(c: Context, p: Package, side: string)
    requires ValidContext(c) && ValidPackage(p) && AllAuthorized(c, p) && Traced(ProjectedRecords(c, p))
    ensures (exists i :: 0 <= i < |ProjectedRecords(c, p)| && LeftOut(RulesFor(c.expected), ProjectedRecords(c, p)[i])
                         && ProjectedRecords(c, p)[i].side.text == side)
       <==> side in RoleNames(PresentUnseen(c, p, Sender), PresentUnseen(c, p, Receiver))
  {
    hide Authorized, ValidContext, ValidPackage, RecordFault, ScopeFilter, InScope, SeenAtCutoff, WellFormed;
    var records := ProjectedRecords(c, p);
    if Sender in p.receipts {
      RoleRecordIsClean(c, p, Sender);
      assert records[0] == CrossRecordOf(c, Sender, p.receipts[Sender]);
    }
    if Receiver in p.receipts {
      RoleRecordIsClean(c, p, Receiver);
      assert records[|records| - 1] == CrossRecordOf(c, Receiver, p.receipts[Receiver]);
    }
  }

  lemma ExcludedAreUnseen(c: Context, p: Package)
    requires ValidContext(c) && ValidPackage(p) && AllAuthorized(c, p)
    ensures ExcludedSidesOf(Comparison(c, p).outOfScope)
         == RoleNames(PresentUnseen(c, p, Sender), PresentUnseen(c, p, Receiver))
  {
    hide Authorized, ValidContext, ValidPackage, LeftOut, Excluded, PresentUnseen, RoleNames, MatchedIds,
      MissingReports, ConflictReports, GroupsOf, CorrelationErrors, ProjectedRecords, AllAuthorized, Traced;
    var rules, records := RulesFor(c.expected), ProjectedRecords(c, p);
    ProjectedTraceIsClean(c, p);
    forall side ensures side in ExcludedSidesOf(Excluded(rules, records))
         <==> side in RoleNames(PresentUnseen(c, p, Sender), PresentUnseen(c, p, Receiver))
    {
      ExcludedExact(rules, records, side);
      LeftOutIsUnseen(c, p, side);
    }
  }

  lemma SortedRoles(sender: bool, receiver: bool)
    ensures Sorted(RoleNames(sender, receiver)) == NamesInOrder(sender, receiver)
  {
    hide Sorted;
    SortedBothRoles();
    SortedOne("sender");
    SortedOne("receiver");
    assert Sorted({}) == [] by {
      SortedNone();
    }
    assert RoleNames(true, true) == {"receiver", "sender"};
    assert RoleNames(true, false) == {"sender"} && RoleNames(false, true) == {"receiver"}
           && RoleNames(false, false) == {};
  }

  lemma SortedNone()
    ensures Sorted({}) == []
  {
  }

  lemma SortedBothRoles()
    ensures Sorted({"receiver", "sender"}) == ["receiver", "sender"]
  {
    hide Sorted;
    assert Less("receiver", "sender");
    LessTrichotomy("receiver", "sender");
    assert |"receiver"| == 8 && |"sender"| == 6;
    assert Elements(["receiver", "sender"]) == {"receiver", "sender"};
    OrderedListingUnique(["receiver", "sender"], Sorted({"receiver", "sender"}));
  }

  /** The projection, exactly, for every valid context and package: nothing is compared while a receipt is unauthorised
      or names another correlation by the cutoff; otherwise the expected correlation matches exactly when both roles are
      seen with one digest, the missing side is the one unseen role, and the excluded sides are the present roles not
      seen. */
  lemma ProjectionExact(c: Context, p: Package)
    requires ValidContext(c) && ValidPackage(p)
    ensures Project(c, p) == Ok(ProjectionOf(c, p))
  {
    hide Authorized, ValidContext, ValidPackage, Project, SeenAtCutoff, Comparison, MissingSidesOf, ExcludedSidesOf,
      Sorted, Excluded, RightCorrelations, SeenApart, StatusOfSides, AllAuthorized, NamesInOrder, RoleNames,
      PresentUnseen;
    ProjectionCompares(c, p);
    if AllAuthorized(c, p) && RightCorrelations(c, p) {
      ProjectedTraceIsClean(c, p);
      ComparisonExact(c, p);
      ExcludedAreUnseen(c, p);
      SortedRoles(PresentUnseen(c, p, Sender), PresentUnseen(c, p, Receiver));
    }
  }

  // ---------------------------------------------------------------- the verdict, exactly

  /** Whatever was seen at the cutoff says what the receiver expected. */
  predicate ClaimsHold(c: Context, p: Package) {
    && ArtifactMatch(c, p) && ManifestMatch(c, p)
    && !AuthenticatedMismatch(c, p, Sender) && !AuthenticatedMismatch(c, p, Receiver)
  }

  /** Claims that hold name the expected correlation and one digest. */
  lemma ClaimsAgree(c: Context, p: Package)
    requires AllAuthorized(c, p) && ClaimsHold(c, p)
    ensures RightCorrelations(c, p) && !SeenApart(c, p)
  {
    hide Authorized, AtCutoff;
  }

  /** The verdict, exactly. A broken expectation is a violation of the claim. Otherwise, when every supplied receipt is
      historically authorised, what counts is which roles were seen inside the window by the cutoff: both under final
      snapshots is support, exactly one under final snapshots violates the snapshot contract, and everything else,
      as any unauthorised receipt, is insufficient evidence. */
  lemma VerdictExact(c: Context, p: Package)
    requires ValidContext(c) && ValidPackage(p)
    ensures Project(c, p).Ok?
    ensures var sender, receiver := SeenAtCutoff(c, p, Sender), SeenAtCutoff(c, p, Receiver);
            VerdictOf(c, p, Project(c, p).value.status) ==
              if !ClaimsHold(c, p) then ViolatedExpectedClaim
              else if AllAuthorized(c, p) && c.expected.final && sender && receiver then Supported
              else if AllAuthorized(c, p) && c.expected.final && sender != receiver then ViolatedSnapshotContract
              else InsufficientEvidence
  {
    hide Authorized, ValidContext, ValidPackage, Project, SeenAtCutoff, AuthenticatedMismatch, ArtifactMatch,
      ManifestMatch, RightCorrelations, SeenApart, AllAuthorized;
    ProjectionExact(c, p);
    if ClaimsHold(c, p) && AllAuthorized(c, p) {
      ClaimsAgree(c, p);
    }
  }

  /** Support, spelled out: artifact and manifest match, the snapshots are final, and both roles are present,
      historically authorised, inside window and cutoff, and claim exactly the expected handoff. */
  lemma SupportedExact(c: Context, p: Package)
    requires ValidContext(c) && ValidPackage(p)
    ensures Project(c, p).Ok?
    ensures VerdictOf(c, p, Project(c, p).value.status) == Supported
       <==> ArtifactMatch(c, p) && ManifestMatch(c, p) && c.expected.final && SeenAtCutoff(c, p, Sender)
            && SeenAtCutoff(c, p, Receiver) && ClaimMatches(c, p, Sender, p.receipts[Sender].receipt)
            && ClaimMatches(c, p, Receiver, p.receipts[Receiver].receipt)
  {
    hide Authorized, ValidContext, ValidPackage, Project, VerdictOf, ArtifactMatch, ManifestMatch, ClaimMatches,
      AtCutoff;
    VerdictExact(c, p);
    if SeenAtCutoff(c, p, Sender) && SeenAtCutoff(c, p, Receiver) {
      forall role | role in p.receipts ensures Authorized(c, role, p.receipts[role]) {
        assert role.Sender? || role.Receiver?;
      }
    }
  }
}
