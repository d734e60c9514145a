/** The one-pass trace validator: its mutable sets and maps against a declarative reading of the whole trace. */
module TraceValidation {
  import opened Prelude

  datatype Kind = Sense | Transition | Commit | OtherKind

  datatype Text = Words(text: string) | NotText

  /** What `parse_ts` returns: a float. The trace loader decodes `NaN` and the infinities. */
  datatype Time = NegativeInfinity | Finite(seconds: real) | PositiveInfinity | NaN

  /** Python's `<` on floats: no comparison with NaN holds. */
  predicate Earlier(a: Time, b: Time) {
    match (a, b)
    case (Finite(x), Finite(y)) => x < y
    case (NegativeInfinity, Finite(_)) => true
    case (NegativeInfinity, PositiveInfinity) => true
    case (Finite(_), PositiveInfinity) => true
    case _ => false
  }

  datatype Timestamp = At(time: Time) | Unparsable

  /** One decoded line; an absent field is None. */
  datatype TraceLine = NotAnObject
                     | Object(id: Option<Text>, kind: Option<Kind>, ts: Option<Timestamp>, threadId: Option<Text>)

  datatype TraceFault =
    | RecordNotObject
    | MissingFields
    | IdInvalid
    | DuplicateId
    | TypeNotAllowed
    | ThreadIdInvalid
    | TsInvalid
    | NonMonotonicTs
    | TransitionUngrounded
    | CommitUngrounded

  datatype TraceError = TraceError(line: nat, fault: TraceFault)

  predicate IsSpace(c: char) {
    || '\U{9}' <= c <= '\U{D}' || '\U{1C}' <= c <= '\U{20}' || c == '\U{85}' || c == '\U{A0}' || c == '\U{1680}'
    || '\U{2000}' <= c <= '\U{200A}' || c == '\U{2028}' || c == '\U{2029}' || c == '\U{202F}' || c == '\U{205F}'
    || c == '\U{3000}'
  }

  predicate Blank(text: string) {
    forall i :: 0 <= i < |text| ==> IsSpace(text[i])
  }

  /** `isinstance(value, str) and value.strip()`. */
  predicate Meaningful(t: Text) {
    t.Words? && !Blank(t.text)
  }

  predicate HasFields(r: TraceLine) {
    r.Object? && r.id.Some? && r.kind.Some? && r.ts.Some? && r.threadId.Some?
  }

  /** The record has an identifier the validator registers. */
  predicate HasId(r: TraceLine) {
    HasFields(r) && Meaningful(r.id.value)
  }

  predicate WellFormed(r: TraceLine) {
    HasId(r) && !r.kind.value.OtherKind? && Meaningful(r.threadId.value) && r.ts.value.At?
  }

  // ---------------------------------------------------------------- the declarative reading

  predicate Grounds(r: TraceLine, thread: Text, kinds: set<Kind>) {
    WellFormed(r) && r.threadId.value == thread && r.kind.value in kinds
  }

  predicate Grounded(records: seq<TraceLine>, thread: Text, kinds: set<Kind>) {
    exists i :: 0 <= i < |records| && Grounds(records[i], thread, kinds)
  }

  predicate OnThread(r: TraceLine, thread: Text) {
    WellFormed(r) && r.threadId.value == thread
  }

  /** Record i is the last one on its thread before position j. */
  predicate LastBefore(records: seq<TraceLine>, i: nat, j: nat, thread: Text): (last: bool)
    ensures last ==> i < j <= |records| && OnThread(records[i], thread)
  {
    && i < j <= |records| && OnThread(records[i], thread)
    && forall k :: i < k < j ==> !OnThread(records[k], thread)
  }

  /** Record j is well formed, has a new identifier, and has the causal predecessor its type demands. */
  predicate Admitted(records: seq<TraceLine>, j: nat)
    requires j < |records|
  {
    var r := records[j];
    && WellFormed(r)
    && (forall i :: 0 <= i < j && WellFormed(records[i]) ==> records[i].id != r.id)
    && (r.kind.value.Transition? ==> Grounded(records[..j], r.threadId.value, {Sense, Transition}))
    && (r.kind.value.Commit? ==> Grounded(records[..j], r.threadId.value, {Transition}))
  }

  /** Its time is not `<` that of the record just before it on its thread. */
  predicate InTime(records: seq<TraceLine>, j: nat)
    requires j < |records| && WellFormed(records[j])
  {
    forall i :: 0 <= i < j && LastBefore(records, i, j, records[j].threadId.value) ==>
      !Earlier(records[j].ts.value.time, records[i].ts.value.time)
  }

  predicate Fits(records: seq<TraceLine>, j: nat)
    requires j < |records|
  {
    Admitted(records, j) && InTime(records, j)
  }

  predicate CleanTrace(records: seq<TraceLine>) {
    forall j :: 0 <= j < |records| ==> Fits(records, j)
  }

  // ---------------------------------------------------------------- the validator's state

  datatype ValidatorState = ValidatorState(seenIds: set<Text>, lastTs: map<Text, Time>, senseOrTransition: set<Text>,
                                           transition: set<Text>)

  const START := ValidatorState({}, map[], {}, {})

  /** One loop iteration. A record that fails late has already updated the earlier parts of the state. */
  function Step(s: ValidatorState, r: TraceLine): (ValidatorState, Option<TraceFault>) {
    if !r.Object? then (s, Some(RecordNotObject))
    else if !HasFields(r) then (s, Some(MissingFields))
    else if !Meaningful(r.id.value) then (s, Some(IdInvalid))
    else if r.id.value in s.seenIds then (s, Some(DuplicateId))
    else
      var s1 := s.(seenIds := s.seenIds + {r.id.value});
      var kind, thread := r.kind.value, r.threadId.value;
      if kind.OtherKind? then (s1, Some(TypeNotAllowed))
      else if !Meaningful(thread) then (s1, Some(ThreadIdInvalid))
      else if r.ts.value.Unparsable? then (s1, Some(TsInvalid))
      else if thread in s1.lastTs && Earlier(r.ts.value.time, s1.lastTs[thread]) then (s1, Some(NonMonotonicTs))
      else
        var s2 := s1.(lastTs := s1.lastTs[thread := r.ts.value.time]);
        if kind.Transition? && thread !in s2.senseOrTransition then (s2, Some(TransitionUngrounded))
        else if kind.Commit? && thread !in s2.transition then (s2, Some(CommitUngrounded))
        else
          (s2.(senseOrTransition := if kind.Commit? then s2.senseOrTransition else s2.senseOrTransition + {thread},
               transition := if kind.Transition? then s2.transition + {thread} else s2.transition), None)
  }

  function StateAfter(records: seq<TraceLine>): ValidatorState {
    if records == [] then START else Step(StateAfter(records[..|records| - 1]), records[|records| - 1]).0
  }

  function ErrorsOf(records: seq<TraceLine>): seq<TraceError> {
    if records == [] then []
    else
      var before, n := records[..|records| - 1], |records|;
      var fault := Step(StateAfter(before), records[n - 1]).1;
      ErrorsOf(before) + (if fault.Some? then [TraceError(n, fault.value)] else [])
  }

  method ValidateRecords(records: seq<TraceLine>) returns (errors: seq<TraceError>)
    ensures errors == ErrorsOf(records)
    ensures errors == [] <==> CleanTrace(records)
  {
    errors := [];
    var seenIds: set<Text> := {};
    var lastTsByThread: map<Text, Time> := map[];
    var seenSenseOrTransition: set<Text> := {};
    var seenTransition: set<Text> := {};
    for idx := 0 to |records|
      invariant errors == ErrorsOf(records[..idx])
      invariant ValidatorState(seenIds, lastTsByThread, seenSenseOrTransition, seenTransition)
             == StateAfter(records[..idx])
    {
      var r := records[idx];
      assert records[..idx + 1][..idx] == records[..idx];
      if !r.Object? {
        errors := errors + [TraceError(idx + 1, RecordNotObject)];
        continue;
      }
      if r.id.None? || r.kind.None? || r.ts.None? || r.threadId.None? {
        errors := errors + [TraceError(idx + 1, MissingFields)];
        continue;
      }
      var id, kind, thread := r.id.value, r.kind.value, r.threadId.value;
      if !Meaningful(id) {
        errors := errors + [TraceError(idx + 1, IdInvalid)];
        continue;
      }
      if id in seenIds {
        errors := errors + [TraceError(idx + 1, DuplicateId)];
        continue;
      }
      seenIds := seenIds + {id};
      if kind.OtherKind? {
        errors := errors + [TraceError(idx + 1, TypeNotAllowed)];
        continue;
      }
      if !Meaningful(thread) {
        errors := errors + [TraceError(idx + 1, ThreadIdInvalid)];
        continue;
      }
      if r.ts.value.Unparsable? {
        errors := errors + [TraceError(idx + 1, TsInvalid)];
        continue;
      }
      var ts := r.ts.value.time;
      if thread in lastTsByThread && Earlier(ts, lastTsByThread[thread]) {
        errors := errors + [TraceError(idx + 1, NonMonotonicTs)];
        continue;
      }
      lastTsByThread := lastTsByThread[thread := ts];
      if kind.Transition? && thread !in seenSenseOrTransition {
        errors := errors + [TraceError(idx + 1, TransitionUngrounded)];
        continue;
      }
      if kind.Commit? && thread !in seenTransition {
        errors := errors + [TraceError(idx + 1, CommitUngrounded)];
        continue;
      }
      if kind.Sense? || kind.Transition? {
        seenSenseOrTransition := seenSenseOrTransition + {thread};
      }
      if kind.Transition? {
        seenTransition := seenTransition + {thread};
      }
    }
    assert records[..|records|] == records;
    NoErrorsExactlyWhenClean(records);
  }

  // ---------------------------------------------------------------- what an error-free pass means

  ghost predicate IdsAreSeen(s: ValidatorState, records: seq<TraceLine>) {
    && (forall i :: 0 <= i < |records| ==> WellFormed(records[i]) && records[i].id.value in s.seenIds)
    && (forall t :: t in s.seenIds ==>
          exists i :: 0 <= i < |records| && WellFormed(records[i]) && records[i].id.value == t)
  }

  /** The recorded time of a thread is that of its last record, and only threads with a record have one. */
  ghost predicate TimesAreLatest(s: ValidatorState, records: seq<TraceLine>) {
    && (forall i, t :: 0 <= i < |records| && LastBefore(records, i, |records|, t) ==>
          t in s.lastTs && s.lastTs[t] == records[i].ts.value.time)
    && (forall t :: t in s.lastTs ==> exists i :: 0 <= i < |records| && LastBefore(records, i, |records|, t))
  }

  ghost predicate FlagsAreGrounds(s: ValidatorState, records: seq<TraceLine>) {
    && (forall t :: t in s.senseOrTransition <==> Grounded(records, t, {Sense, Transition}))
    && (forall t :: t in s.transition <==> Grounded(records, t, {Transition}))
  }

  /** What the state holds after a clean prefix, in terms of the records alone. */
  ghost predicate Summarises(s: ValidatorState, records: seq<TraceLine>) {
    IdsAreSeen(s, records) && TimesAreLatest(s, records) && FlagsAreGrounds(s, records)
  }

  lemma StartSummarises()
    ensures Summarises(START, [])
  {
  }

  lemma GroundedSnoc(records: seq<TraceLine>, thread: Text, kinds: set<Kind>)
    requires |records| > 0
    ensures Grounded(records, thread, kinds)
       <==> Grounded(records[..|records| - 1], thread, kinds) || Grounds(records[|records| - 1], thread, kinds)
  {
    var before := records[..|records| - 1];
    if Grounded(before, thread, kinds) {
      var i :| 0 <= i < |before| && Grounds(before[i], thread, kinds);
      assert Grounds(records[i], thread, kinds);
    }
    if Grounded(records, thread, kinds) {
      var i :| 0 <= i < |records| && Grounds(records[i], thread, kinds);
      if i < |before| {
        assert Grounds(before[i], thread, kinds);
      }
    }
  }

  lemma NewIdExact(s: ValidatorState, before: seq<TraceLine>, r: TraceLine)
    requires IdsAreSeen(s, before) && WellFormed(r)
    ensures r.id.value !in s.seenIds <==> forall i :: 0 <= i < |before| && WellFormed(before[i]) ==>
              before[i].id != r.id
  {
    hide Meaningful;
  }

  lemma LastBeforePrefix(records: seq<TraceLine>, i: nat, j: nat, thread: Text)
    requires j <= |records|
    ensures LastBefore(records[..j], i, j, thread) <==> LastBefore(records, i, j, thread)
  {
    hide OnThread;
  }

  lemma MonotonicExact(s: ValidatorState, records: seq<TraceLine>, r: TraceLine)
    requires |records| > 0 && r == records[|records| - 1] && WellFormed(r)
    requires TimesAreLatest(s, records[..|records| - 1])
    ensures !(r.threadId.value in s.lastTs && Earlier(r.ts.value.time, s.lastTs[r.threadId.value]))
       <==> forall i :: 0 <= i < |records| - 1 && LastBefore(records, i, |records| - 1, r.threadId.value) ==>
              !Earlier(r.ts.value.time, records[i].ts.value.time)
  {
    hide Meaningful, LastBefore, Earlier;
    var last, t := |records| - 1, r.threadId.value;
    forall i: nat ensures LastBefore(records[..last], i, last, t) <==> LastBefore(records, i, last, t) {
      LastBeforePrefix(records, i, last, t);
    }
  }

  /** On a clean prefix, one step reports a fault exactly when the record does not fit. */
  lemma StepFits(s: ValidatorState, records: seq<TraceLine>)
    requires |records| > 0 && Summarises(s, records[..|records| - 1])
    ensures Step(s, records[|records| - 1]).1.None? <==> Fits(records, |records| - 1)
  {
    hide Meaningful, IdsAreSeen, TimesAreLatest, Grounded, LastBefore, Earlier;
    var before, r := records[..|records| - 1], records[|records| - 1];
    assert forall i :: 0 <= i < |before| ==> before[i] == records[i];
    if WellFormed(r) {
      NewIdExact(s, before, r);
      MonotonicExact(s, records, r);
    }
  }

  lemma StepSeesId(s: ValidatorState, records: seq<TraceLine>)
    requires |records| > 0 && IdsAreSeen(s, records[..|records| - 1])
    requires Step(s, records[|records| - 1]).1.None?
    ensures IdsAreSeen(Step(s, records[|records| - 1]).0, records)
  {
    hide Meaningful;
    var before, last := records[..|records| - 1], |records| - 1;
    assert WellFormed(records[last]);
    forall t | t in Step(s, records[last]).0.seenIds
      ensures exists i :: 0 <= i < |records| && WellFormed(records[i]) && records[i].id.value == t
    {
      if t in s.seenIds {
        var i :| 0 <= i < |before| && WellFormed(before[i]) && before[i].id.value == t;
        assert records[i] == before[i];
      } else {
        assert records[last].id.value == t;
      }
    }
  }

  lemma LastSnoc(records: seq<TraceLine>, i: nat, thread: Text)
    requires |records| > 0
    ensures LastBefore(records, i, |records|, thread)
       <==> if OnThread(records[|records| - 1], thread) then i == |records| - 1
            else LastBefore(records[..|records| - 1], i, |records| - 1, thread)
  {
    hide OnThread;
    var last := |records| - 1;
    if LastBefore(records, i, |records|, thread) && i < last {
      assert !OnThread(records[last], thread);
    }
  }

  lemma StepKeepsLatest(s: ValidatorState, records: seq<TraceLine>)
    requires |records| > 0 && TimesAreLatest(s, records[..|records| - 1])
    requires Step(s, records[|records| - 1]).1.None?
    ensures TimesAreLatest(Step(s, records[|records| - 1]).0, records)
  {
    hide Meaningful, LastBefore, Earlier;
    var init, last := records[..|records| - 1], |records| - 1;
    var next := Step(s, records[last]).0;
    assert WellFormed(records[last]);
    assert |init| == last;
    forall i, t | 0 <= i < |records| && LastBefore(records, i, |records|, t)
      ensures t in next.lastTs && next.lastTs[t] == records[i].ts.value.time
    {
      LastSnoc(records, i, t);
      if !OnThread(records[last], t) {
        assert LastBefore(init, i, |init|, t) && init[i] == records[i];
      }
    }
    forall t | t in next.lastTs ensures exists i :: 0 <= i < |records| && LastBefore(records, i, |records|, t) {
      if OnThread(records[last], t) {
        LastSnoc(records, last, t);
      } else {
        var i :| 0 <= i < |init| && LastBefore(init, i, |init|, t);
        LastSnoc(records, i, t);
      }
    }
  }

  lemma StepSetsFlags(s: ValidatorState, records: seq<TraceLine>)
    requires |records| > 0 && FlagsAreGrounds(s, records[..|records| - 1])
    requires Step(s, records[|records| - 1]).1.None?
    ensures FlagsAreGrounds(Step(s, records[|records| - 1]).0, records)
  {
    hide Meaningful, Grounded;
    var next := Step(s, records[|records| - 1]).0;
    forall t ensures t in next.senseOrTransition <==> Grounded(records, t, {Sense, Transition}) {
      GroundedSnoc(records, t, {Sense, Transition});
    }
    forall t ensures t in next.transition <==> Grounded(records, t, {Transition}) {
      GroundedSnoc(records, t, {Transition});
    }
  }

  lemma FitsInPrefix(records: seq<TraceLine>, k: nat, j: nat)
    requires j < k <= |records|
    ensures Fits(records[..k], j) <==> Fits(records, j)
  {
    hide Meaningful, Grounded, Earlier;
    assert records[..k][..j] == records[..j];
  }

  /** `validate_records` returns no errors exactly when identifiers are unique, every record has the causal
      predecessor it needs, and none is `<` the record just before it on its thread; the state then summarises the
      trace. */
  lemma {:induction false} NoErrorsExactlyWhenClean(records: seq<TraceLine>)
    ensures ErrorsOf(records) == [] <==> CleanTrace(records)
    ensures CleanTrace(records) ==> Summarises(StateAfter(records), records)
  {
    hide Fits, Step, IdsAreSeen, TimesAreLatest, FlagsAreGrounds;
    if records == [] {
      StartSummarises();
    } else {
      var last := |records| - 1;
      var before := records[..last];
      NoErrorsExactlyWhenClean(before);
      forall j | 0 <= j < last ensures Fits(before, j) <==> Fits(records, j) {
        FitsInPrefix(records, last, j);
      }
      assert CleanTrace(records) <==> CleanTrace(before) && Fits(records, last);
      if CleanTrace(before) {
        StepFits(StateAfter(before), records);
        if Fits(records, last) {
          StepSeesId(StateAfter(before), records);
          StepKeepsLatest(StateAfter(before), records);
          StepSetsFlags(StateAfter(before), records);
        }
      }
    }
  }

  // ---------------------------------------------------------------- the error list

  /** At most one error per record, in line order, and every line number is that of a record. */
  lemma {:induction false} OneErrorPerRecord(records: seq<TraceLine>)
    ensures forall k :: 0 <= k < |ErrorsOf(records)| ==> 1 <= ErrorsOf(records)[k].line <= |records|
    ensures forall k, l :: 0 <= k < l < |ErrorsOf(records)| ==> ErrorsOf(records)[k].line < ErrorsOf(records)[l].line
    ensures |ErrorsOf(records)| <= |records|
  {
    if records != [] {
      OneErrorPerRecord(records[..|records| - 1]);
    }
  }

  /** The first reported line is the first record that does not fit: everything before it is a clean trace. */
  lemma {:induction false} FirstErrorIsFirstMisfit(records: seq<TraceLine>)
    requires ErrorsOf(records) != []
    ensures var line := ErrorsOf(records)[0].line;
            1 <= line <= |records| && CleanTrace(records[..line - 1]) && !Fits(records, line - 1)
  {
    hide Fits, Step, Summarises;
    var last := |records| - 1;
    var before := records[..last];
    NoErrorsExactlyWhenClean(before);
    if ErrorsOf(before) != [] {
      FirstErrorIsFirstMisfit(before);
      var line := ErrorsOf(before)[0].line;
      FitsInPrefix(records, last, line - 1);
      assert before[..line - 1] == records[..line - 1];
    } else {
      StepFits(StateAfter(before), records);
    }
  }

  /** On any trace, clean or not, the registered identifiers are those of all earlier records with the required fields
      and a meaningful identifier, whatever else was wrong with them. */
  lemma {:induction false} RegisteredIds(records: seq<TraceLine>, id: Text)
    ensures id in StateAfter(records).seenIds
       <==> exists i :: 0 <= i < |records| && HasId(records[i]) && records[i].id.value == id
  {
    if records != [] {
      var last := |records| - 1;
      var before := records[..last];
      RegisteredIds(before, id);
      if i :| 0 <= i < |before| && HasId(before[i]) && before[i].id.value == id {
        assert HasId(records[i]) && records[i].id.value == id;
      }
      if i :| 0 <= i < |records| && HasId(records[i]) && records[i].id.value == id {
        if i < last {
          assert HasId(before[i]);
        }
      }
    }
  }

  /** So a duplicate is reported at a line exactly when an earlier record carries the same identifier. */
  lemma DuplicatesExact(records: seq<TraceLine>, j: nat)
    requires j < |records|
    ensures Step(StateAfter(records[..j]), records[j]).1 == Some(DuplicateId)
       <==> HasId(records[j]) && exists i :: 0 <= i < j && HasId(records[i]) && records[i].id == records[j].id
  {
    if HasId(records[j]) {
      RegisteredIds(records[..j], records[j].id.value);
      if i :| 0 <= i < j && HasId(records[i]) && records[i].id == records[j].id {
        assert HasId(records[..j][i]);
      }
    }
  }

  lemma {:induction false} ErrorAtLine(records: seq<TraceLine>, j: nat, fault: TraceFault)
    requires j < |records|
    ensures TraceError(j + 1, fault) in ErrorsOf(records)
       <==> Step(StateAfter(records[..j]), records[j]).1 == Some(fault)
  {
    hide Step;
    var last := |records| - 1;
    var before := records[..last];
    OneErrorPerRecord(before);
    if j < last {
      ErrorAtLine(before, j, fault);
      assert before[..j] == records[..j];
    }
  }

  // ---------------------------------------------------------------- monotone threads

  /** No record of the trace has a time `<` that of any earlier record of its thread. */
  predicate MonotoneThreads(records: seq<TraceLine>) {
    forall i, j :: 0 <= i < j < |records| && WellFormed(records[i]) && WellFormed(records[j])
                   && records[i].threadId == records[j].threadId ==>
      !Earlier(records[j].ts.value.time, records[i].ts.value.time)
  }

  predicate NaNFree(records: seq<TraceLine>) {
    forall i :: 0 <= i < |records| && WellFormed(records[i]) ==> !records[i].ts.value.time.NaN?
  }

  /** The position of the last record on the thread before j, searched downwards from k. */
  lemma {:induction false} FindLast(records: seq<TraceLine>, i: nat, k: nat, j: nat, thread: Text) returns (last: nat)
    requires i <= k < j <= |records| && OnThread(records[i], thread)
    requires forall l :: k < l < j ==> !OnThread(records[l], thread)
    ensures i <= last && LastBefore(records, last, j, thread)
    decreases k - i
  {
    hide OnThread;
    if OnThread(records[k], thread) {
      last := k;
    } else {
      last := FindLast(records, i, k - 1, j, thread);
    }
  }

  lemma NotEarlierTransitive(a: Time, b: Time, c: Time)
    requires !Earlier(b, a) && !Earlier(c, b) && !b.NaN?
    ensures !Earlier(c, a)
  {
  }

  lemma {:induction false} CleanIsMonotone(records: seq<TraceLine>, i: nat, j: nat, thread: Text)
    requires CleanTrace(records) && NaNFree(records) && i < j < |records|
    requires OnThread(records[i], thread) && OnThread(records[j], thread)
    ensures !Earlier(records[j].ts.value.time, records[i].ts.value.time)
    decreases j
  {
    hide Meaningful, Admitted, Earlier;
    assert Fits(records, j);
    var last := FindLast(records, i, j - 1, j, thread);
    if i < last {
      CleanIsMonotone(records, i, last, thread);
      NotEarlierTransitive(records[i].ts.value.time, records[last].ts.value.time, records[j].ts.value.time);
    }
  }

  /** Without NaN times, the neighbour test is the test over all pairs: a trace is clean exactly when every record is
      admitted and every thread is monotone. */
  lemma CleanWithoutNaN(records: seq<TraceLine>)
    requires NaNFree(records)
    ensures CleanTrace(records)
       <==> (forall j :: 0 <= j < |records| ==> Admitted(records, j)) && MonotoneThreads(records)
  {
    hide Meaningful, Earlier, Admitted;
    if CleanTrace(records) {
      forall i, j | 0 <= i < j < |records| && WellFormed(records[i]) && WellFormed(records[j])
                    && records[i].threadId == records[j].threadId
        ensures !Earlier(records[j].ts.value.time, records[i].ts.value.time)
      {
        CleanIsMonotone(records, i, j, records[j].threadId.value);
      }
      forall j | 0 <= j < |records| ensures Admitted(records, j) {
        assert Fits(records, j);
      }
    }
    if (forall j :: 0 <= j < |records| ==> Admitted(records, j)) && MonotoneThreads(records) {
      forall j | 0 <= j < |records| ensures Fits(records, j) {
        AdmittedIsWellFormed(records, j);
      }
    }
  }

  lemma AdmittedIsWellFormed(records: seq<TraceLine>, j: nat)
    requires j < |records| && Admitted(records, j)
    ensures WellFormed(records[j])
  {
  }

  /** A record of one thread "t" that needs no predecessor. */
  function Sensed(id: string, time: Time): TraceLine {
    Object(Some(Words(id)), Some(Sense), Some(At(time)), Some(Words("t")))
  }

  lemma SensedIsWellFormed(id: string, time: Time)
    requires id != "" && !IsSpace(id[0])
    ensures WellFormed(Sensed(id, time))
  {
    assert !IsSpace("t"[0]);
  }

  /** A NaN between them hides any step back in time from the validator. */
  lemma NaNHidesStepBack(later: Time, earlier: Time)
    ensures ErrorsOf([Sensed("a", later), Sensed("b", NaN), Sensed("c", earlier)]) == []
  {
    hide ErrorsOf, Meaningful, Fits;
    var records := [Sensed("a", later), Sensed("b", NaN), Sensed("c", earlier)];
    assert "a"[0] != "b"[0] && "a"[0] != "c"[0] && "b"[0] != "c"[0];
    forall j | 0 <= j < 3 ensures Fits(records, j) {
      SensedFits("a", later, "b", "c", earlier, j);
    }
    NoErrorsExactlyWhenClean(records);
  }

  lemma SensedFits(x: string, later: Time, y: string, z: string, earlier: Time, j: nat)
    requires x != y && x != z && y != z && j < 3
    requires x != "" && y != "" && z != "" && !IsSpace(x[0]) && !IsSpace(y[0]) && !IsSpace(z[0])
    ensures Fits([Sensed(x, later), Sensed(y, NaN), Sensed(z, earlier)], j)
  {
    hide Meaningful;
    SensedIsWellFormed(x, later);
    SensedIsWellFormed(y, NaN);
    SensedIsWellFormed(z, earlier);
    var records := [Sensed(x, later), Sensed(y, NaN), Sensed(z, earlier)];
    assert OnThread(records[0], Words("t")) && OnThread(records[1], Words("t")) && OnThread(records[2], Words("t"));
  }

  /** Times 5, NaN and 3 on one thread: no errors, although 3 is before 5. */
  lemma CleanButNotMonotone()
    ensures var records := [Sensed("a", Finite(5.0)), Sensed("b", NaN), Sensed("c", Finite(3.0))];
            ErrorsOf(records) == [] && !MonotoneThreads(records)
  {
    hide ErrorsOf;
    NaNHidesStepBack(Finite(5.0), Finite(3.0));
    NotMonotone(Finite(5.0), Finite(3.0));
  }

  lemma NotMonotone(later: Time, earlier: Time)
    requires Earlier(earlier, later)
    ensures !MonotoneThreads([Sensed("a", later), Sensed("b", NaN), Sensed("c", earlier)])
  {
    var records := [Sensed("a", later), Sensed("b", NaN), Sensed("c", earlier)];
    SensedIsWellFormed("a", later);
    SensedIsWellFormed("c", earlier);
    assert WellFormed(records[0]) && WellFormed(records[2]);
  }

  predicate TimesWithin(records: seq<TraceLine>, times: iset<Time>) {
    forall i :: 0 <= i < |records| && WellFormed(records[i]) ==> records[i].ts.value.time in times
  }

  /** The guard is exact: for any set of admitted times, an error-free pass guarantees monotone threads if and only if
      NaN is not admitted, or no two admitted times are comparable anyway. */
  lemma NaNGuardExact(times: iset<Time>)
    ensures (forall records :: TimesWithin(records, times) && ErrorsOf(records) == [] ==> MonotoneThreads(records))
       <==> NaN !in times || forall a, b :: a in times && b in times ==> !Earlier(a, b)
  {
    hide ErrorsOf, Earlier;
    if NaN !in times {
      forall records | TimesWithin(records, times) && ErrorsOf(records) == [] ensures MonotoneThreads(records) {
        NoErrorsExactlyWhenClean(records);
        CleanWithoutNaN(records);
      }
    } else if a, b :| a in times && b in times && Earlier(a, b) {
      var records := [Sensed("a", b), Sensed("b", NaN), Sensed("c", a)];
      NaNHidesStepBack(b, a);
      NotMonotone(b, a);
      assert TimesWithin(records, times);
    }
  }
}
