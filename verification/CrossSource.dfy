/** Pairwise reconciliation of two evidence sources: scope filter, grouping by correlation and side, classification. */
module CrossSource {
  import opened Prelude
  import opened SortedKeys
  import opened TraceValidation
  import opened WitnessSets

  datatype FieldShape = ExactFields | FieldsMissing | FieldsUnknown

  /** One trace record with its correlation fields. The two flags say that its type, if any, is a string, and that its
      time, if textual, carries a zone; a malformed observation time or digest is None. */
  datatype CrossRecord = CrossRecord(
    line: TraceLine, typeIsText: bool, zoned: bool, shape: FieldShape, observedAt: Option<real>, correlationId: Text,
    sourceId: Text, side: Text, actionDigest: Option<string>)

  /** Which source each of the two sides must come from, and the audited interval. */
  datatype Rules = Rules(sides: map<string, string>, windowStart: real, auditCutoff: real)

  datatype CorrelationFault =
    | CorrelationFieldsMissing
    | ProfileFieldsUnknown
    | ObservedAtInvalid
    | ObservedBeforeTs
    | CorrelationIdInvalid
    | SideInvalid
    | SideUndeclared
    | SourceIdInvalid
    | SourceMismatch
    | ActionDigestInvalid
    | DuplicateSide

  datatype CorrelationError = AtLine(line: nat, fault: CorrelationFault) | NoRecordsAvailable

  datatype ScopeReason = BeforeWindowStart | AfterAuditCutoff | ObservedAfterAuditCutoff

  datatype OutOfScope = OutOfScope(id: Text, correlationId: string, sourceId: string, side: string, reason: ScopeReason)

  datatype Missing = Missing(correlationId: string, pending: bool, observedSides: seq<string>,
                             missingSides: seq<string>)

  datatype Conflict = Conflict(correlationId: string, digests: map<string, string>)

  datatype PairwiseStatus = InvalidTrace | NotEvaluable | Violated | InsufficientFinality | ConsistentInSnapshots

  datatype Attribution = AttributionNotEvaluable | Undetermined | NotApplicable

  datatype EnvelopeFault = TypeNotText | EnvelopeTsInvalid

  datatype EnvelopeError = EnvelopeError(line: nat, fault: EnvelopeFault)

  datatype Report = Report(
    status: PairwiseStatus, matched: seq<string>, missing: seq<Missing>, conflicts: seq<Conflict>,
    outOfScope: seq<OutOfScope>, attribution: Attribution, traceErrors: seq<TraceError>,
    envelopeErrors: seq<EnvelopeError>, correlationErrors: seq<CorrelationError>, observedIds: seq<string>)

  datatype RequestError = RequiredSidesInvalid | TooManyRecords | WindowInvalid

  const MAX_RECORDS := 10_000

  // ---------------------------------------------------------------- one record

  /** Exactly two named sides bound to two different named sources. */
  predicate ValidSides(sides: map<string, string>) {
    && |sides| == 2
    && (forall side :: side in sides ==> !Blank(side) && !Blank(sides[side]))
    && (forall s, t :: s in sides && t in sides && s != t ==> sides[s] != sides[t])
  }

  /** A well-formed trace record with a finite time. */
  predicate Timed(r: CrossRecord) {
    WellFormed(r.line) && r.line.ts.value.time.Finite?
  }

  function RecordTs(r: CrossRecord): real
    requires Timed(r)
  {
    r.line.ts.value.time.seconds
  }

  function RecordFault(rules: Rules, r: CrossRecord): (fault: Option<CorrelationFault>)
    requires Timed(r)
    ensures fault.None? ==> r.correlationId.Words? && r.sourceId.Words? && r.side.Words? && r.observedAt.Some?
    ensures fault.None? ==> r.side.text in rules.sides && r.actionDigest.Some?
  {
    if r.shape.FieldsMissing? then Some(CorrelationFieldsMissing)
    else if r.shape.FieldsUnknown? then Some(ProfileFieldsUnknown)
    else if r.observedAt.None? then Some(ObservedAtInvalid)
    else if r.observedAt.value < RecordTs(r) then Some(ObservedBeforeTs)
    else if !Meaningful(r.correlationId) then Some(CorrelationIdInvalid)
    else if !Meaningful(r.side) then Some(SideInvalid)
    else if r.side.text !in rules.sides then Some(SideUndeclared)
    else if !Meaningful(r.sourceId) then Some(SourceIdInvalid)
    else if r.sourceId.text != rules.sides[r.side.text] then Some(SourceMismatch)
    else if r.actionDigest.None? then Some(ActionDigestInvalid)
    else None
  }

  function ScopeFilter(rules: Rules, ts: real, observedAt: real): Option<ScopeReason> {
    if ts < rules.windowStart then Some(BeforeWindowStart)
    else if ts > rules.auditCutoff then Some(AfterAuditCutoff)
    else if observedAt > rules.auditCutoff then Some(ObservedAfterAuditCutoff)
    else None
  }

  predicate InScope(rules: Rules, r: CrossRecord)
    requires Timed(r)
  {
    RecordFault(rules, r).None? && ScopeFilter(rules, RecordTs(r), r.observedAt.value).None?
  }

  predicate Traced(records: seq<CrossRecord>) {
    forall i :: 0 <= i < |records| ==> Timed(records[i])
  }

  // ---------------------------------------------------------------- the grouping pass

  type Groups = map<string, map<string, CrossRecord>>

  predicate Holds(groups: Groups, id: string, side: string) {
    id in groups && side in groups[id]
  }

  function SidesOf(groups: Groups, id: string): map<string, CrossRecord> {
    if id in groups then groups[id] else map[]
  }

  function GroupsOf(rules: Rules, records: seq<CrossRecord>): Groups
    requires Traced(records)
  {
    if records == [] then map[]
    else
      var before, r := GroupsOf(rules, records[..|records| - 1]), records[|records| - 1];
      if !InScope(rules, r) || Holds(before, r.correlationId.text, r.side.text) then before
      else before[r.correlationId.text := SidesOf(before, r.correlationId.text)[r.side.text := r]]
  }

  function LineErrors(rules: Rules, records: seq<CrossRecord>): seq<CorrelationError>
    requires Traced(records)
  {
    if records == [] then []
    else
      var init, r, n := records[..|records| - 1], records[|records| - 1], |records|;
      LineErrors(rules, init)
      + (if RecordFault(rules, r).Some? then [AtLine(n, RecordFault(rules, r).value)]
         else if InScope(rules, r) && Holds(GroupsOf(rules, init), r.correlationId.text, r.side.text) then
           [AtLine(n, DuplicateSide)]
         else [])
  }

  function Excluded(rules: Rules, records: seq<CrossRecord>): seq<OutOfScope>
    requires Traced(records)
  {
    if records == [] then []
    else
      var r := records[|records| - 1];
      Excluded(rules, records[..|records| - 1])
      + (if RecordFault(rules, r).Some? then []
         else
           var reason := ScopeFilter(rules, RecordTs(r), r.observedAt.value);
           if reason.None? then []
           else [OutOfScope(r.line.id.value, r.correlationId.text, r.sourceId.text, r.side.text, reason.value)])
  }

  function CorrelationErrors(rules: Rules, records: seq<CrossRecord>): seq<CorrelationError>
    requires Traced(records)
  {
    LineErrors(rules, records) + (if GroupsOf(rules, records) == map[] then [NoRecordsAvailable] else [])
  }

  method GroupRecords(rules: Rules, records: seq<CrossRecord>)
    returns (recordsByCorrelation: Groups, correlationErrors: seq<CorrelationError>, outOfScope: seq<OutOfScope>)
    requires Traced(records)
    ensures recordsByCorrelation == GroupsOf(rules, records)
    ensures correlationErrors == CorrelationErrors(rules, records)
    ensures outOfScope == Excluded(rules, records)
  {
    hide Blank;
    recordsByCorrelation, correlationErrors, outOfScope := map[], [], [];
    for index := 0 to |records|
      invariant recordsByCorrelation == GroupsOf(rules, records[..index])
      invariant correlationErrors == LineErrors(rules, records[..index])
      invariant outOfScope == Excluded(rules, records[..index])
    {
      var r := records[index];
      assert records[..index + 1][..index] == records[..index];
      var fault := RecordFault(rules, r);
      if fault.Some? {
        correlationErrors := correlationErrors + [AtLine(index + 1, fault.value)];
        continue;
      }
      var correlationId, side := r.correlationId.text, r.side.text;
      var recordTs, observedTs := RecordTs(r), r.observedAt.value;
      var reason := None;
      if recordTs < rules.windowStart {
        reason := Some(BeforeWindowStart);
      } else if recordTs > rules.auditCutoff {
        reason := Some(AfterAuditCutoff);
      } else if observedTs > rules.auditCutoff {
        reason := Some(ObservedAfterAuditCutoff);
      }
      if reason.Some? {
        outOfScope := outOfScope + [OutOfScope(r.line.id.value, correlationId, r.sourceId.text, side, reason.value)];
        continue;
      }
      if correlationId in recordsByCorrelation && side in recordsByCorrelation[correlationId] {
        correlationErrors := correlationErrors + [AtLine(index + 1, DuplicateSide)];
        continue;
      }
      var sideRecords := if correlationId in recordsByCorrelation then recordsByCorrelation[correlationId] else map[];
      recordsByCorrelation := recordsByCorrelation[correlationId := sideRecords[side := r]];
    }
    assert records[..|records|] == records;
    if recordsByCorrelation == map[] {
      correlationErrors := correlationErrors + [NoRecordsAvailable];
    }
  }

  // ---------------------------------------------------------------- what the groups hold

  predicate SitsAt(rules: Rules, records: seq<CrossRecord>, i: nat, id: string, side: string)
    requires Traced(records)
  {
    i < |records| && InScope(rules, records[i]) && records[i].correlationId.text == id && records[i].side.text == side
  }

  /** The record of a correlation and side is the first in-scope record that names them, and only such records count. */
  lemma {:induction false} GroupsExact(rules: Rules, records: seq<CrossRecord>, id: string, side: string)
    requires Traced(records)
    ensures Holds(GroupsOf(rules, records), id, side) <==> exists i: nat :: SitsAt(rules, records, i, id, side)
    ensures Holds(GroupsOf(rules, records), id, side) ==>
              exists i: nat :: SitsAt(rules, records, i, id, side) && GroupsOf(rules, records)[id][side] == records[i]
                               && forall j: nat :: j < i ==> !SitsAt(rules, records, j, id, side)
  {
    hide RecordFault, ScopeFilter, Blank;
    if records != [] {
      var last := |records| - 1;
      var init := records[..last];
      GroupsExact(rules, init, id, side);
      forall j: nat | j < last ensures SitsAt(rules, records, j, id, side) == SitsAt(rules, init, j, id, side) {
      }
      if Holds(GroupsOf(rules, init), id, side) {
        var i: nat :| SitsAt(rules, init, i, id, side) && GroupsOf(rules, init)[id][side] == init[i]
                      && forall j: nat :: j < i ==> !SitsAt(rules, init, j, id, side);
        assert SitsAt(rules, records, i, id, side) && GroupsOf(rules, records)[id][side] == records[i];
      } else if SitsAt(rules, records, last, id, side) {
        assert GroupsOf(rules, records)[id][side] == records[last];
      }
    }
  }

  /** No empty group is ever created. */
  lemma {:induction false} GroupsAreNonEmpty(rules: Rules, records: seq<CrossRecord>)
    requires Traced(records)
    ensures forall id :: id in GroupsOf(rules, records) ==> GroupsOf(rules, records)[id] != map[]
    ensures forall id, side :: Holds(GroupsOf(rules, records), id, side) ==> side in rules.sides
    ensures forall id, side :: Holds(GroupsOf(rules, records), id, side) ==>
              GroupsOf(rules, records)[id][side].actionDigest.Some?
  {
    hide RecordFault, ScopeFilter;
    if records != [] {
      var init, r := records[..|records| - 1], records[|records| - 1];
      GroupsAreNonEmpty(rules, init);
      var before, after := GroupsOf(rules, init), GroupsOf(rules, records);
      forall id, side | Holds(after, id, side) ensures side in rules.sides && after[id][side].actionDigest.Some? {
        if !(InScope(rules, r) && r.correlationId.text == id && r.side.text == side) {
          assert Holds(before, id, side) && before[id][side] == after[id][side];
        } else if Holds(before, id, side) {
          assert after == before;
        }
      }
    }
  }

  lemma {:induction false} LineErrorsExact(rules: Rules, records: seq<CrossRecord>)
    requires Traced(records)
    ensures LineErrors(rules, records) == []
       <==> (forall i :: 0 <= i < |records| ==> RecordFault(rules, records[i]).None?) && NoRepeats(rules, records)
  {
    hide RecordFault, ScopeFilter, Blank;
    if records != [] {
      var last := |records| - 1;
      var init, r := records[..last], records[last];
      LineErrorsExact(rules, init);
      NoRepeatsSnoc(rules, records);
      if InScope(rules, r) {
        GroupsExact(rules, init, r.correlationId.text, r.side.text);
      }
      assert forall i :: 0 <= i < last ==> init[i] == records[i];
    }
  }

  lemma GroupsMeanScope(rules: Rules, records: seq<CrossRecord>)
    requires Traced(records)
    ensures GroupsOf(rules, records) != map[] <==> exists i :: 0 <= i < |records| && InScope(rules, records[i])
  {
    hide RecordFault, ScopeFilter, GroupsOf;
    var groups := GroupsOf(rules, records);
    if groups != map[] {
      var id :| id in groups;
      GroupsAreNonEmpty(rules, records);
      assert groups[id].Keys != {};
      var side :| side in groups[id];
      assert Holds(groups, id, side);
      GroupsExact(rules, records, id, side);
    }
    if i :| 0 <= i < |records| && InScope(rules, records[i]) {
      InScopeIsGrouped(rules, records, i);
    }
  }

  lemma InScopeIsGrouped(rules: Rules, records: seq<CrossRecord>, i: nat)
    requires Traced(records) && i < |records| && InScope(rules, records[i])
    ensures GroupsOf(rules, records) != map[]
  {
    hide RecordFault, ScopeFilter, GroupsOf;
    var r := records[i];
    GroupsExact(rules, records, r.correlationId.text, r.side.text);
    assert SitsAt(rules, records, i, r.correlationId.text, r.side.text);
  }

  /** There are no correlation errors exactly when every record is well bound, no two in-scope records share a
      correlation and a side, and at least one record is in scope. */
  lemma ErrorsExact(rules: Rules, records: seq<CrossRecord>)
    requires Traced(records)
    ensures CorrelationErrors(rules, records) == []
       <==> (forall i :: 0 <= i < |records| ==> RecordFault(rules, records[i]).None?) && NoRepeats(rules, records)
            && exists i :: 0 <= i < |records| && InScope(rules, records[i])
  {
    hide RecordFault, InScope, LineErrors, NoRepeats, GroupsOf;
    LineErrorsExact(rules, records);
    GroupsMeanScope(rules, records);
  }

  predicate NoRepeats(rules: Rules, records: seq<CrossRecord>)
    requires Traced(records)
  {
    forall i: nat, j: nat :: i < j < |records| && InScope(rules, records[j]) ==>
      !SitsAt(rules, records, i, records[j].correlationId.text, records[j].side.text)
  }

  /** The last record is in scope and repeats the correlation and side of an earlier one. */
  ghost predicate RepeatsEarlier(rules: Rules, records: seq<CrossRecord>)
    requires Traced(records) && records != []
  {
    var init, r := records[..|records| - 1], records[|records| - 1];
    InScope(rules, r) && exists i: nat :: SitsAt(rules, init, i, r.correlationId.text, r.side.text)
  }

  lemma NoRepeatsSnoc(rules: Rules, records: seq<CrossRecord>)
    requires Traced(records) && records != []
    ensures NoRepeats(rules, records)
       <==> NoRepeats(rules, records[..|records| - 1]) && !RepeatsEarlier(rules, records)
  {
    hide RecordFault, ScopeFilter;
    var last := |records| - 1;
    var init := records[..last];
    forall i: nat, id, side | i < last ensures SitsAt(rules, records, i, id, side) == SitsAt(rules, init, i, id, side) {
    }
    if NoRepeats(rules, init) && !RepeatsEarlier(rules, records) {
      forall i: nat, j: nat | i < j < |records| && InScope(rules, records[j])
        ensures !SitsAt(rules, records, i, records[j].correlationId.text, records[j].side.text)
      {
        if j < last {
          assert init[j] == records[j];
        }
      }
    }
    if NoRepeats(rules, records) {
      forall i: nat, j: nat | i < j < last && InScope(rules, init[j])
        ensures !SitsAt(rules, init, i, init[j].correlationId.text, init[j].side.text)
      {
        assert init[j] == records[j];
      }
    }
  }

  // ---------------------------------------------------------------- classification

  datatype Outcome = Matching | Lacking | Conflicting

  function SideNames(rules: Rules): seq<string> {
    Sorted(rules.sides.Keys)
  }

  function MissingSides(names: seq<string>, sideRecords: map<string, CrossRecord>): seq<string> {
    if names == [] then []
    else (if names[0] in sideRecords then [] else [names[0]]) + MissingSides(names[1..], sideRecords)
  }

  function DigestOfSide(sideRecords: map<string, CrossRecord>, side: string): Option<string> {
    if side in sideRecords then sideRecords[side].actionDigest else None
  }

  function Digests(rules: Rules, sideRecords: map<string, CrossRecord>): map<string, string> {
    map side | side in rules.sides && DigestOfSide(sideRecords, side).Some? :: DigestOfSide(sideRecords, side).value
  }

  function OutcomeOf(rules: Rules, sideRecords: map<string, CrossRecord>): Outcome {
    if MissingSides(SideNames(rules), sideRecords) != [] then Lacking
    else if |Digests(rules, sideRecords).Values| != 1 then Conflicting
    else Matching
  }

  function MatchedIds(rules: Rules, groups: Groups, ids: seq<string>): seq<string> {
    if ids == [] then []
    else
      var id := ids[|ids| - 1];
      MatchedIds(rules, groups, ids[..|ids| - 1])
      + (if OutcomeOf(rules, SidesOf(groups, id)).Matching? then [id] else [])
  }

  function MissingReports(rules: Rules, final: bool, groups: Groups, ids: seq<string>): seq<Missing> {
    if ids == [] then []
    else
      var id := ids[|ids| - 1];
      var sideRecords := SidesOf(groups, id);
      MissingReports(rules, final, groups, ids[..|ids| - 1])
      + (if OutcomeOf(rules, sideRecords).Lacking? then
           [Missing(id, !final, Sorted(sideRecords.Keys), MissingSides(SideNames(rules), sideRecords))]
         else [])
  }

  function ConflictReports(rules: Rules, groups: Groups, ids: seq<string>): seq<Conflict> {
    if ids == [] then []
    else
      var id := ids[|ids| - 1];
      var sideRecords := SidesOf(groups, id);
      ConflictReports(rules, groups, ids[..|ids| - 1])
      + (if OutcomeOf(rules, sideRecords).Conflicting? then [Conflict(id, Digests(rules, sideRecords))] else [])
  }

  /** The time is finite and carries a zone. */
  predicate TimeFits(r: CrossRecord) {
    r.line.Object? && r.line.ts.Some? ==> r.zoned && r.line.ts.value.At? && r.line.ts.value.time.Finite?
  }

  predicate EnvelopeFits(r: CrossRecord) {
    (r.line.Object? ==> r.typeIsText) && TimeFits(r)
  }

  /** The type and the time of one line are reported separately. */
  function LineEnvelopeErrors(line: nat, r: CrossRecord): (errors: seq<EnvelopeError>)
    ensures errors == [] <==> EnvelopeFits(r)
  {
    (if r.line.Object? && !r.typeIsText then [EnvelopeError(line, TypeNotText)] else [])
    + (if TimeFits(r) then [] else [EnvelopeError(line, EnvelopeTsInvalid)])
  }

  function EnvelopeErrors(records: seq<CrossRecord>): seq<EnvelopeError> {
    if records == [] then []
    else EnvelopeErrors(records[..|records| - 1]) + LineEnvelopeErrors(|records|, records[|records| - 1])
  }

  function Lines(records: seq<CrossRecord>): (r: seq<TraceLine>)
    ensures |r| == |records|
    ensures forall i :: 0 <= i < |r| ==> r[i] == records[i].line
  {
    seq(|records|, i requires 0 <= i < |records| => records[i].line)
  }

  /** The report on a trace without errors. */
  function TracedReport(rules: Rules, final: bool, records: seq<CrossRecord>): Report
    requires Traced(records)
  {
    var groups, errors := GroupsOf(rules, records), CorrelationErrors(rules, records);
    var excluded := Excluded(rules, records);
    var ids := Sorted(groups.Keys);
    if errors != [] then Report(NotEvaluable, [], [], [], excluded, AttributionNotEvaluable, [], [], errors, ids)
    else
      var missing, conflicts := MissingReports(rules, final, groups, ids), ConflictReports(rules, groups, ids);
      var violated := conflicts != [] || (missing != [] && final);
      Report(if violated then Violated else if !final then InsufficientFinality else ConsistentInSnapshots,
             MatchedIds(rules, groups, ids), missing, conflicts, excluded,
             if violated || !final then Undetermined else NotApplicable, [], [], [], ids)
  }

  /** `assess_cross_source`: None stands for a time that is not a finite timestamp with a zone. */
  function Assessment(records: seq<CrossRecord>, sides: map<string, string>, windowStart: Option<real>,
                      auditCutoff: Option<real>, final: bool): Result<Report, RequestError>
  {
    if !ValidSides(sides) then Err(RequiredSidesInvalid)
    else if |records| > MAX_RECORDS then Err(TooManyRecords)
    else if windowStart.None? || auditCutoff.None? || windowStart.value > auditCutoff.value then Err(WindowInvalid)
    else if EnvelopeErrors(records) != [] then
      Ok(Report(InvalidTrace, [], [], [], [], AttributionNotEvaluable, [], EnvelopeErrors(records), [], []))
    else if ErrorsOf(Lines(records)) != [] then
      Ok(Report(InvalidTrace, [], [], [], [], AttributionNotEvaluable, ErrorsOf(Lines(records)), [], [], []))
    else
      CleanIsTraced(records);
      Ok(TracedReport(Rules(sides, windowStart.value, auditCutoff.value), final, records))
  }

  lemma CleanIsTraced(records: seq<CrossRecord>)
    requires EnvelopeErrors(records) == [] && ErrorsOf(Lines(records)) == []
    ensures Traced(records)
  {
    hide Blank, ErrorsOf, Admitted, InTime;
    NoErrorsExactlyWhenClean(Lines(records));
    forall i | 0 <= i < |records| ensures Timed(records[i]) {
      assert Fits(Lines(records), i);
      AdmittedIsWellFormed(Lines(records), i);
      EnvelopesFit(records, i);
    }
  }

  lemma {:induction false} EnvelopesFit(records: seq<CrossRecord>, i: nat)
    requires EnvelopeErrors(records) == [] && i < |records|
    ensures EnvelopeFits(records[i])
  {
    if i < |records| - 1 {
      EnvelopesFit(records[..|records| - 1], i);
    }
  }

  /** The second loop: every observed correlation lands in exactly one list. */
  method ClassifyGroups(rules: Rules, final: bool, groups: Groups, observedIds: seq<string>)
    returns (matched: seq<string>, missing: seq<Missing>, conflicts: seq<Conflict>)
    ensures matched == MatchedIds(rules, groups, observedIds)
    ensures missing == MissingReports(rules, final, groups, observedIds)
    ensures conflicts == ConflictReports(rules, groups, observedIds)
  {
    hide OutcomeOf, MissingSides, Digests;
    matched, missing, conflicts := [], [], [];
    for k := 0 to |observedIds|
      invariant matched == MatchedIds(rules, groups, observedIds[..k])
      invariant missing == MissingReports(rules, final, groups, observedIds[..k])
      invariant conflicts == ConflictReports(rules, groups, observedIds[..k])
    {
      var id := observedIds[k];
      assert observedIds[..k + 1][..k] == observedIds[..k];
      var sideRecords := SidesOf(groups, id);
      match OutcomeOf(rules, sideRecords) {
        case Lacking =>
          var missingSides := MissingSides(SideNames(rules), sideRecords);
          missing := missing + [Missing(id, !final, Sorted(sideRecords.Keys), missingSides)];
        case Conflicting =>
          conflicts := conflicts + [Conflict(id, Digests(rules, sideRecords))];
        case Matching =>
          matched := matched + [id];
      }
    }
    assert observedIds[..|observedIds|] == observedIds;
  }

  method AssessCrossSource(records: seq<CrossRecord>, sides: map<string, string>, windowStart: Option<real>,
                           auditCutoff: Option<real>, final: bool) returns (r: Result<Report, RequestError>)
    ensures r == Assessment(records, sides, windowStart, auditCutoff, final)
  {
    hide Blank, ErrorsOf, GroupsOf, LineErrors, Excluded, MatchedIds, MissingReports, ConflictReports;
    if !ValidSides(sides) {
      return Err(RequiredSidesInvalid);
    }
    if |records| > MAX_RECORDS {
      return Err(TooManyRecords);
    }
    if windowStart.None? || auditCutoff.None? || windowStart.value > auditCutoff.value {
      return Err(WindowInvalid);
    }
    var envelopeErrors: seq<EnvelopeError> := [];
    for index := 0 to |records|
      invariant envelopeErrors == EnvelopeErrors(records[..index])
    {
      assert records[..index + 1][..index] == records[..index];
      var record := records[index];
      if record.line.Object? {
        if !record.typeIsText {
          envelopeErrors := envelopeErrors + [EnvelopeError(index + 1, TypeNotText)];
        }
        if !TimeFits(record) {
          envelopeErrors := envelopeErrors + [EnvelopeError(index + 1, EnvelopeTsInvalid)];
        }
      }
    }
    assert records[..|records|] == records;
    if envelopeErrors != [] {
      return Ok(Report(InvalidTrace, [], [], [], [], AttributionNotEvaluable, [], envelopeErrors, [], []));
    }
    var traceErrors := ValidateRecords(Lines(records));
    if traceErrors != [] {
      return Ok(Report(InvalidTrace, [], [], [], [], AttributionNotEvaluable, traceErrors, [], [], []));
    }
    CleanIsTraced(records);
    var rules := Rules(sides, windowStart.value, auditCutoff.value);
    var groups, correlationErrors, outOfScope := GroupRecords(rules, records);
    var observedIds := Sorted(groups.Keys);
    if correlationErrors != [] {
      return Ok(Report(NotEvaluable, [], [], [], outOfScope, AttributionNotEvaluable, [], [], correlationErrors,
                       observedIds));
    }
    var matched, missing, conflicts := ClassifyGroups(rules, final, groups, observedIds);
    var violated := conflicts != [] || (missing != [] && final);
    var status := if violated then Violated else if !final then InsufficientFinality else ConsistentInSnapshots;
    var attribution := if violated || !final then Undetermined else NotApplicable;
    return Ok(Report(status, matched, missing, conflicts, outOfScope, attribution, [], [], [], observedIds));
  }

  // ---------------------------------------------------------------- what the classification means

  lemma {:induction false} MissingSidesExact(names: seq<string>, sideRecords: map<string, CrossRecord>)
    ensures MissingSides(names, sideRecords) == [] <==> forall i :: 0 <= i < |names| ==> names[i] in sideRecords
    ensures forall side :: side in MissingSides(names, sideRecords) <==> side in names && side !in sideRecords
  {
    if names != [] {
      MissingSidesExact(names[1..], sideRecords);
      assert names == [names[0]] + names[1..];
    }
  }

  /** With two declared sides s and t: lacking means one of them is absent, conflicting that their digests differ. */
  lemma OutcomeExact(rules: Rules, sideRecords: map<string, CrossRecord>, s: string, t: string)
    requires rules.sides.Keys == {s, t} && s != t
    requires forall side :: side in sideRecords ==> sideRecords[side].actionDigest.Some?
    ensures OutcomeOf(rules, sideRecords).Lacking? <==> s !in sideRecords || t !in sideRecords
    ensures s in sideRecords && t in sideRecords ==>
              (OutcomeOf(rules, sideRecords).Matching? <==> sideRecords[s].actionDigest == sideRecords[t].actionDigest)
  {
    hide MissingSides, Sorted;
    var names := SideNames(rules);
    MissingSidesExact(names, sideRecords);
    assert s in Elements(names) && t in Elements(names);
    forall i | 0 <= i < |names| ensures names[i] in {s, t} {
      assert names[i] in Elements(names);
    }
    if s in sideRecords && t in sideRecords {
      DigestsExact(rules, sideRecords, s, t);
    }
  }

  lemma DigestsExact(rules: Rules, sideRecords: map<string, CrossRecord>, s: string, t: string)
    requires rules.sides.Keys == {s, t} && s in sideRecords && t in sideRecords
    requires sideRecords[s].actionDigest.Some? && sideRecords[t].actionDigest.Some?
    ensures |Digests(rules, sideRecords).Values| == 1 <==> sideRecords[s].actionDigest == sideRecords[t].actionDigest
  {
    var digests := Digests(rules, sideRecords);
    assert digests.Keys == {s, t};
    var a, b := digests[s], digests[t];
    assert digests.Values == {a, b};
    if a == b {
      assert digests.Values == {a};
    }
  }

  ghost predicate ListsMissing(reports: seq<Missing>, id: string) {
    exists i :: 0 <= i < |reports| && reports[i].correlationId == id
  }

  ghost predicate ListsConflict(reports: seq<Conflict>, id: string) {
    exists i :: 0 <= i < |reports| && reports[i].correlationId == id
  }

  lemma ListsMissingSnoc(reports: seq<Missing>, last: Missing, id: string)
    ensures ListsMissing(reports + [last], id) <==> ListsMissing(reports, id) || last.correlationId == id
  {
    if ListsMissing(reports, id) {
      var i :| 0 <= i < |reports| && reports[i].correlationId == id;
      assert (reports + [last])[i] == reports[i];
    }
    assert (reports + [last])[|reports|] == last;
  }

  lemma ListsConflictSnoc(reports: seq<Conflict>, last: Conflict, id: string)
    ensures ListsConflict(reports + [last], id) <==> ListsConflict(reports, id) || last.correlationId == id
  {
    if ListsConflict(reports, id) {
      var i :| 0 <= i < |reports| && reports[i].correlationId == id;
      assert (reports + [last])[i] == reports[i];
    }
    assert (reports + [last])[|reports|] == last;
  }

  lemma {:induction false} ListsByOutcome(rules: Rules, final: bool, groups: Groups, ids: seq<string>, id: string)
    ensures id in MatchedIds(rules, groups, ids) <==> id in ids && OutcomeOf(rules, SidesOf(groups, id)).Matching?
    ensures ListsMissing(MissingReports(rules, final, groups, ids), id)
       <==> id in ids && OutcomeOf(rules, SidesOf(groups, id)).Lacking?
    ensures ListsConflict(ConflictReports(rules, groups, ids), id)
       <==> id in ids && OutcomeOf(rules, SidesOf(groups, id)).Conflicting?
    ensures |MatchedIds(rules, groups, ids)| + |MissingReports(rules, final, groups, ids)|
            + |ConflictReports(rules, groups, ids)| == |ids|
  {
    hide OutcomeOf, ListsMissing, ListsConflict, MissingReports, ConflictReports;
    if ids == [] {
      NoReports(rules, final, groups, id);
    } else {
      var init, last := ids[..|ids| - 1], ids[|ids| - 1];
      ListsByOutcome(rules, final, groups, init, id);
      assert ids == init + [last];
      ReportsSnoc(rules, final, groups, ids, id);
    }
  }

  lemma NoReports(rules: Rules, final: bool, groups: Groups, id: string)
    ensures MissingReports(rules, final, groups, []) == [] && ConflictReports(rules, groups, []) == []
    ensures !ListsMissing(MissingReports(rules, final, groups, []), id)
    ensures !ListsConflict(ConflictReports(rules, groups, []), id)
  {
  }

  lemma ReportsSnoc(rules: Rules, final: bool, groups: Groups, ids: seq<string>, id: string)
    requires ids != []
    ensures var init, last := ids[..|ids| - 1], ids[|ids| - 1];
            var outcome := OutcomeOf(rules, SidesOf(groups, last));
            var missing, conflicts := MissingReports(rules, final, groups, init), ConflictReports(rules, groups, init);
            && (ListsMissing(MissingReports(rules, final, groups, ids), id)
                <==> ListsMissing(missing, id) || (last == id && outcome.Lacking?))
            && (ListsConflict(ConflictReports(rules, groups, ids), id)
                <==> ListsConflict(conflicts, id) || (last == id && outcome.Conflicting?))
            && |MissingReports(rules, final, groups, ids)| == |missing| + (if outcome.Lacking? then 1 else 0)
            && |ConflictReports(rules, groups, ids)| == |conflicts| + (if outcome.Conflicting? then 1 else 0)
  {
    hide OutcomeOf, MissingSides, Digests, Sorted, ListsMissing, ListsConflict;
    var init, last := ids[..|ids| - 1], ids[|ids| - 1];
    var missing, conflicts := MissingReports(rules, final, groups, init), ConflictReports(rules, groups, init);
    var sideRecords := SidesOf(groups, last);
    var m := Missing(last, !final, Sorted(sideRecords.Keys), MissingSides(SideNames(rules), sideRecords));
    var c := Conflict(last, Digests(rules, SidesOf(groups, last)));
    var outcome := OutcomeOf(rules, SidesOf(groups, last));
    assert MissingReports(rules, final, groups, ids)
        == if outcome.Lacking? then missing + [m] else missing;
    assert ConflictReports(rules, groups, ids)
        == if outcome.Conflicting? then conflicts + [c] else conflicts;
    ListsMissingSnoc(missing, m, id);
    ListsConflictSnoc(conflicts, c, id);
  }

  /** Record i is the in-scope record of a correlation and side (the only one, when there are no errors). */
  ghost predicate Observes(rules: Rules, records: seq<CrossRecord>, id: string, side: string, digest: string)
    requires Traced(records)
  {
    exists i: nat :: SitsAt(rules, records, i, id, side) && records[i].actionDigest == Some(digest)
  }

  ghost predicate Observed(rules: Rules, records: seq<CrossRecord>, id: string, side: string)
    requires Traced(records)
  {
    exists i: nat :: SitsAt(rules, records, i, id, side)
  }

  lemma GroupIsObserved(rules: Rules, records: seq<CrossRecord>, id: string, side: string)
    requires Traced(records) && NoRepeats(rules, records)
    ensures side in SidesOf(GroupsOf(rules, records), id) <==> Observed(rules, records, id, side)
    ensures forall digest :: Observes(rules, records, id, side, digest)
                        <==> side in SidesOf(GroupsOf(rules, records), id)
                             && SidesOf(GroupsOf(rules, records), id)[side].actionDigest == Some(digest)
  {
    hide InScope, GroupsOf;
    GroupsExact(rules, records, id, side);
    assert Holds(GroupsOf(rules, records), id, side) <==> side in SidesOf(GroupsOf(rules, records), id);
    if Holds(GroupsOf(rules, records), id, side) {
      var i: nat :| SitsAt(rules, records, i, id, side) && GroupsOf(rules, records)[id][side] == records[i];
      forall j: nat | SitsAt(rules, records, j, id, side) ensures i == j {
        OnlyOneSits(rules, records, i, j, id, side);
      }
    }
  }

  lemma OnlyOneSits(rules: Rules, records: seq<CrossRecord>, i: nat, j: nat, id: string, side: string)
    requires Traced(records) && NoRepeats(rules, records)
    requires SitsAt(rules, records, i, id, side) && SitsAt(rules, records, j, id, side)
    ensures i == j
  {
    hide InScope;
  }

  /** The classification is exact and a partition: of the correlations seen in scope, those lacking a side are missing,
      those whose two sides carry different digests conflict, the others match, and each is reported once. */
  lemma ClassificationExact(rules: Rules, final: bool, records: seq<CrossRecord>, s: string, t: string, id: string)
    requires Traced(records) && rules.sides.Keys == {s, t} && s != t
    requires CorrelationErrors(rules, records) == []
    ensures var report := TracedReport(rules, final, records);
            var seenS, seenT := Observed(rules, records, id, s), Observed(rules, records, id, t);
            && (id in report.observedIds <==> seenS || seenT)
            && (id in report.matched
                <==> exists d :: Observes(rules, records, id, s, d) && Observes(rules, records, id, t, d))
            && (ListsMissing(report.missing, id) <==> seenS != seenT)
            && (ListsConflict(report.conflicts, id)
                <==> exists d, e :: d != e && Observes(rules, records, id, s, d) && Observes(rules, records, id, t, e))
            && |report.matched| + |report.missing| + |report.conflicts| == |report.observedIds|
  {
    hide GroupsOf, LineErrors, OutcomeOf, MissingReports, ConflictReports, MatchedIds, Observed, Observes, NoRepeats,
      SidesOf, Sorted, ListsMissing, ListsConflict;
    var groups := GroupsOf(rules, records);
    var sideRecords := SidesOf(groups, id);
    LineErrorsExact(rules, records);
    GroupIsObserved(rules, records, id, s);
    GroupIsObserved(rules, records, id, t);
    SidesOfFacts(rules, records, id);
    SomeOfTwo(sideRecords, s, t);
    assert id in Elements(Sorted(groups.Keys)) <==> id in groups;
    ListsByOutcome(rules, final, groups, Sorted(groups.Keys), id);
    OutcomeExact(rules, sideRecords, s, t);
    if s in sideRecords && t in sideRecords {
      var d, e := sideRecords[s].actionDigest.value, sideRecords[t].actionDigest.value;
      assert Observes(rules, records, id, s, d) && Observes(rules, records, id, t, e);
    }
  }

  lemma SomeOfTwo(sideRecords: map<string, CrossRecord>, s: string, t: string)
    requires forall side :: side in sideRecords ==> side in {s, t}
    ensures sideRecords != map[] <==> s in sideRecords || t in sideRecords
  {
    if sideRecords != map[] {
      assert sideRecords.Keys != {};
      var side :| side in sideRecords;
    }
  }

  lemma SidesOfFacts(rules: Rules, records: seq<CrossRecord>, id: string)
    requires Traced(records)
    ensures var sideRecords := SidesOf(GroupsOf(rules, records), id);
            && (id in GroupsOf(rules, records) <==> sideRecords != map[])
            && (forall side :: side in sideRecords ==> side in rules.sides && sideRecords[side].actionDigest.Some?)
  {
    hide GroupsOf;
    GroupsAreNonEmpty(rules, records);
    forall side | side in SidesOf(GroupsOf(rules, records), id)
      ensures side in rules.sides && SidesOf(GroupsOf(rules, records), id)[side].actionDigest.Some?
    {
      assert Holds(GroupsOf(rules, records), id, side);
    }
  }

  /** The verdict in terms of the records: "consistent" says the snapshots are final, every record is well bound and
      unique, and every correlation seen in scope was seen on both sides with one digest. */
  lemma ConsistentExact(rules: Rules, final: bool, records: seq<CrossRecord>, s: string, t: string)
    requires Traced(records) && rules.sides.Keys == {s, t} && s != t
    ensures TracedReport(rules, final, records).status == ConsistentInSnapshots
       <==> final && CorrelationErrors(rules, records) == []
            && forall id :: Observed(rules, records, id, s) || Observed(rules, records, id, t) ==>
                 exists d :: Observes(rules, records, id, s, d) && Observes(rules, records, id, t, d)
  {
    hide GroupsOf, LineErrors, Excluded, MissingReports, ConflictReports, MatchedIds, Observed, Observes;
    var report := TracedReport(rules, final, records);
    if CorrelationErrors(rules, records) == [] {
      forall id
        ensures Unsettled(report, id)
           <==> (Observed(rules, records, id, s) || Observed(rules, records, id, t))
                && !exists d :: Observes(rules, records, id, s, d) && Observes(rules, records, id, t, d)
      {
        ClassificationExact(rules, final, records, s, t, id);
        MatchedIsSettled(rules, final, records, id);
      }
      if report.missing != [] {
        assert ListsMissing(report.missing, report.missing[0].correlationId);
        assert Unsettled(report, report.missing[0].correlationId);
      }
      if report.conflicts != [] {
        assert ListsConflict(report.conflicts, report.conflicts[0].correlationId);
        assert Unsettled(report, report.conflicts[0].correlationId);
      }
    }
  }

  /** The report lists the correlation as missing a counterpart or as conflicting. */
  ghost predicate Unsettled(report: Report, id: string) {
    ListsMissing(report.missing, id) || ListsConflict(report.conflicts, id)
  }

  lemma MatchedIsSettled(rules: Rules, final: bool, records: seq<CrossRecord>, id: string)
    requires Traced(records) && CorrelationErrors(rules, records) == []
    ensures var report := TracedReport(rules, final, records);
            && (id in report.observedIds <==> id in report.matched || Unsettled(report, id))
            && (id in report.matched ==> !Unsettled(report, id))
  {
    hide GroupsOf, LineErrors, Excluded, MissingReports, ConflictReports, MatchedIds, OutcomeOf, Sorted;
    ListsByOutcome(rules, final, GroupsOf(rules, records), Sorted(GroupsOf(rules, records).Keys), id);
  }

  // ---------------------------------------------------------------- one correlation, and what is left out

  function StatusOfSides(seenS: bool, seenT: bool, differ: bool, final: bool): PairwiseStatus {
    if !seenS && !seenT then NotEvaluable
    else if differ || (final && seenS != seenT) then Violated
    else if !final then InsufficientFinality
    else ConsistentInSnapshots
  }

  /** When at most one correlation is in scope, the report is a function of its two sides. */
  lemma OneCorrelation(rules: Rules, final: bool, records: seq<CrossRecord>, s: string, t: string, id: string)
    requires Traced(records) && rules.sides.Keys == {s, t} && s != t
    requires LineErrors(rules, records) == [] && GroupsOf(rules, records).Keys <= {id}
    ensures var report, sideRecords := TracedReport(rules, final, records), SidesOf(GroupsOf(rules, records), id);
            var seenS, seenT := s in sideRecords, t in sideRecords;
            var differ := seenS && seenT && sideRecords[s].actionDigest != sideRecords[t].actionDigest;
            && report.status == StatusOfSides(seenS, seenT, differ, final)
            && report.matched == (if seenS && seenT && !differ then [id] else [])
            && (report.conflicts != [] <==> differ)
            && (seenS == seenT ==> report.missing == [])
            && (seenS != seenT ==> |report.missing| == 1
                                   && report.missing[0].missingSides == [if seenS then t else s])
            && report.outOfScope == Excluded(rules, records)
  {
    hide GroupsOf, LineErrors, Excluded, OutcomeOf, MissingSides, Digests, Sorted, SidesOf;
    var groups := GroupsOf(rules, records);
    var sideRecords := SidesOf(groups, id);
    SidesOfFacts(rules, records, id);
    SomeOfTwo(sideRecords, s, t);
    if id in groups {
      assert groups.Keys == {id};
      SortedOne(id);
      OutcomeExact(rules, sideRecords, s, t);
      UnseenSide(rules, sideRecords, s, t);
      ReportOfOne(rules, final, groups, id);
    } else {
      assert groups == map[];
    }
  }

  lemma ReportOfOne(rules: Rules, final: bool, groups: Groups, id: string)
    ensures var outcome := OutcomeOf(rules, SidesOf(groups, id));
            && MatchedIds(rules, groups, [id]) == (if outcome.Matching? then [id] else [])
            && (ConflictReports(rules, groups, [id]) != [] <==> outcome.Conflicting?)
            && MissingReports(rules, final, groups, [id])
               == if outcome.Lacking? then
                    [Missing(id, !final, Sorted(SidesOf(groups, id).Keys),
                             MissingSides(SideNames(rules), SidesOf(groups, id)))]
                  else []
  {
    hide OutcomeOf, SidesOf, MissingSides, Digests, Sorted;
    assert [id][..0] == [];
  }

  lemma UnseenSide(rules: Rules, sideRecords: map<string, CrossRecord>, s: string, t: string)
    requires rules.sides.Keys == {s, t} && s != t
    ensures (s in sideRecords) != (t in sideRecords) ==>
              MissingSides(SideNames(rules), sideRecords) == [if s in sideRecords then t else s]
  {
    hide Sorted, MissingSides;
    var names := SideNames(rules);
    assert Elements(names) == {s, t} && Distinct(names);
    assert |names| == 2 && names[0] in Elements(names) && names[1] in Elements(names);
    assert s in names && t in names;
    TwoMissingSides(names[0], names[1], sideRecords);
    assert names == [names[0], names[1]];
  }

  lemma TwoMissingSides(x: string, y: string, sideRecords: map<string, CrossRecord>)
    ensures MissingSides([x, y], sideRecords)
         == (if x in sideRecords then [] else [x]) + (if y in sideRecords then [] else [y])
  {
    assert [x, y][1..] == [y] && [y][1..] == [];
    assert MissingSides([y], sideRecords) == if y in sideRecords then [] else [y];
  }

  /** A well-bound record outside the window or past the cutoff. */
  predicate LeftOut(rules: Rules, r: CrossRecord)
    requires Timed(r)
  {
    RecordFault(rules, r).None? && !InScope(rules, r)
  }

  /** The excluded list names exactly the sides of the well-bound records outside the scope. */
  lemma {:induction false} ExcludedExact(rules: Rules, records: seq<CrossRecord>, side: string)
    requires Traced(records)
    ensures (exists x :: x in Excluded(rules, records) && x.side == side)
       <==> exists i :: 0 <= i < |records| && LeftOut(rules, records[i]) && records[i].side.text == side
  {
    hide RecordFault, ScopeFilter;
    if records != [] {
      var last := |records| - 1;
      var init, r := records[..last], records[last];
      ExcludedExact(rules, init, side);
      if x :| x in Excluded(rules, init) && x.side == side {
        assert x in Excluded(rules, records);
        var i :| 0 <= i < last && LeftOut(rules, init[i]) && init[i].side.text == side;
        assert records[i] == init[i];
      }
      if i :| 0 <= i < last && LeftOut(rules, records[i]) && records[i].side.text == side {
        assert records[i] == init[i];
        var x :| x in Excluded(rules, init) && x.side == side;
        assert x in Excluded(rules, records);
      }
      if LeftOut(rules, r) && r.side.text == side {
        var x := Excluded(rules, records)[|Excluded(rules, records)| - 1];
        assert x in Excluded(rules, records) && x.side == side;
      }
    }
  }
}
