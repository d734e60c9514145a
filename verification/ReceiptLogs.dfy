/** Hash-linked receipt logs: the link scan, the step-id and sequence profiles, and the head assertion. */
module ReceiptLogs {
  import opened Prelude
  import opened ReceiptBytes

  newtype Byte = x: int | 0 <= x < 256

  type RawLine = seq<Byte>

  /** What `seq` holds: absent or null, a natural number, or anything else. */
  datatype SeqField = NoSeq | Natural(value: nat) | NotNatural

  /** One decoded line: fields of another JSON type than the one read are None. */
  datatype Parsed = Undecodable | Receipt(stepId: Option<string>, prevHash: Option<string>, sequence: SeqField)

  type Decoder = RawLine -> Parsed

  /** `hashlib.sha256(line).hexdigest()`. */
  type LineDigest = RawLine -> string

  ghost predicate CollisionFree(digest: LineDigest) {
    forall a, b :: digest(a) == digest(b) ==> a == b
  }

  /** r is the first marked position, counted from one, or None when nothing is marked. */
  predicate IsFirst(r: Option<nat>, marks: seq<bool>) {
    match r
    case None => true !in marks
    case Some(k) => 1 <= k <= |marks| && marks[k - 1] && true !in marks[..k - 1]
  }

  lemma NothingMarked()
    ensures IsFirst(None, [])
  {
  }

  lemma IsFirstSnoc(r: Option<nat>, marks: seq<bool>, last: bool)
    requires IsFirst(r, marks)
    ensures IsFirst(if r.None? && last then Some(|marks| + 1) else r, marks + [last])
  {
    if r.Some? {
      assert (marks + [last])[..r.value - 1] == marks[..r.value - 1];
    } else if last {
      assert (marks + [last])[..|marks|] == marks;
    }
  }

  // ---------------------------------------------------------------- the link scan

  /** Line i is a receipt that declares the digest of line i - 1, and the first one declares none. */
  predicate LinkHolds(decode: Decoder, digest: LineDigest, lines: seq<RawLine>, i: nat)
    requires i < |lines|
  {
    && decode(lines[i]).Receipt?
    && decode(lines[i]).prevHash == if i == 0 then None else Some(digest(lines[i - 1]))
  }

  predicate Unbroken(decode: Decoder, digest: LineDigest, lines: seq<RawLine>) {
    forall i :: 0 <= i < |lines| ==> LinkHolds(decode, digest, lines, i)
  }

  function BrokenLinks(decode: Decoder, digest: LineDigest, lines: seq<RawLine>): (r: seq<bool>)
    ensures |r| == |lines|
    ensures forall i :: 0 <= i < |r| ==> r[i] == !LinkHolds(decode, digest, lines, i)
  {
    seq(|lines|, i requires 0 <= i < |lines| => !LinkHolds(decode, digest, lines, i))
  }

  method FirstChainBreak(decode: Decoder, digest: LineDigest, lines: seq<RawLine>) returns (r: Option<nat>)
    ensures r.None? <==> Unbroken(decode, digest, lines)
    ensures IsFirst(r, BrokenLinks(decode, digest, lines))
  {
    ghost var broken := BrokenLinks(decode, digest, lines);
    var previousDigest: Option<string> := None;
    for index := 0 to |lines|
      invariant previousDigest == if index == 0 then None else Some(digest(lines[index - 1]))
      invariant forall i :: 0 <= i < index ==> LinkHolds(decode, digest, lines, i)
    {
      assert true !in broken[..index] && broken[index] == !LinkHolds(decode, digest, lines, index);
      var receipt := decode(lines[index]);
      if receipt.Undecodable? {
        return Some(index + 1);
      }
      if receipt.prevHash != previousDigest {
        return Some(index + 1);
      }
      previousDigest := Some(digest(lines[index]));
    }
    return None;
  }

  /** Two unbroken logs with the same last line are the same log: the last line fixes every line before it. */
  lemma {:induction false} LastLineFixesLog(decode: Decoder, digest: LineDigest, a: seq<RawLine>, b: seq<RawLine>)
    requires CollisionFree(digest) && Unbroken(decode, digest, a) && Unbroken(decode, digest, b)
    requires a != [] && b != [] && a[|a| - 1] == b[|b| - 1]
    ensures a == b
    decreases |a|
  {
    var m, n := |a| - 1, |b| - 1;
    assert LinkHolds(decode, digest, a, m) && LinkHolds(decode, digest, b, n);
    if m > 0 {
      forall i | 0 <= i < m ensures LinkHolds(decode, digest, a[..m], i) {
        assert LinkHolds(decode, digest, a, i);
      }
      forall i | 0 <= i < n ensures LinkHolds(decode, digest, b[..n], i) {
        assert LinkHolds(decode, digest, b, i);
      }
      LastLineFixesLog(decode, digest, a[..m], b[..n]);
    }
    assert a == a[..m] + [a[m]] && b == b[..n] + [b[n]];
  }

  /** Replacing any line but the last breaks the log at that line or at the next one, and nowhere earlier. */
  lemma ReplacementIsLocated(decode: Decoder, digest: LineDigest, lines: seq<RawLine>, i: nat, line: RawLine,
                             found: Option<nat>)
    requires CollisionFree(digest) && Unbroken(decode, digest, lines) && i + 1 < |lines| && line != lines[i]
    requires IsFirst(found, BrokenLinks(decode, digest, lines[i := line]))
    ensures found == Some(if LinkHolds(decode, digest, lines[i := line], i) then i + 2 else i + 1)
  {
    var changed := lines[i := line];
    forall k | 0 <= k < i ensures LinkHolds(decode, digest, changed, k) {
      assert LinkHolds(decode, digest, lines, k);
    }
    assert LinkHolds(decode, digest, lines, i + 1);
    assert !LinkHolds(decode, digest, changed, i + 1);
  }

  // ---------------------------------------------------------------- step ids and the sequence profile

  function DecodeAll(decode: Decoder, lines: seq<RawLine>): (r: seq<Parsed>)
    ensures |r| == |lines|
    ensures forall i :: 0 <= i < |r| ==> r[i] == decode(lines[i])
  {
    seq(|lines|, i requires 0 <= i < |lines| => decode(lines[i]))
  }

  predicate HasStepId(records: seq<Parsed>, i: nat, id: string) {
    i < |records| && records[i].Receipt? && records[i].stepId == Some(id)
  }

  /** Record i carries a step id that an earlier record carries too. */
  predicate StepIdRepeats(records: seq<Parsed>, i: nat) {
    && i < |records| && records[i].Receipt? && records[i].stepId.Some?
    && exists j :: 0 <= j < i && HasStepId(records, j, records[i].stepId.value)
  }

  predicate CarriesSeq(r: Parsed) {
    r.Receipt? && !r.sequence.NoSeq?
  }

  predicate Active(records: seq<Parsed>) {
    exists i :: 0 <= i < |records| && CarriesSeq(records[i])
  }

  predicate Numbered(records: seq<Parsed>, i: nat) {
    i < |records| && records[i].Receipt? && records[i].sequence.Natural?
  }

  function Number(records: seq<Parsed>, i: nat): nat
    requires Numbered(records, i)
  {
    records[i].sequence.value
  }

  /** A missing or malformed number, a first number other than zero, a number after an unnumbered record, or a jump. */
  predicate SeqGapAt(records: seq<Parsed>, i: nat) {
    i < |records|
    && (|| !Numbered(records, i)
        || (i == 0 && Number(records, i) != 0)
        || (i > 0 && !Numbered(records, i - 1))
        || (i > 0 && Number(records, i) > Number(records, i - 1) + 1))
  }

  /** A number not above the one just before it. */
  predicate SeqRepeatAt(records: seq<Parsed>, i: nat) {
    && 0 < i < |records| && Numbered(records, i) && Numbered(records, i - 1)
    && Number(records, i) <= Number(records, i - 1)
  }

  function StepIdMarks(records: seq<Parsed>): (r: seq<bool>)
    ensures |r| == |records|
    ensures forall i :: 0 <= i < |r| ==> r[i] == StepIdRepeats(records, i)
  {
    seq(|records|, i requires 0 <= i < |records| => StepIdRepeats(records, i))
  }

  function SeqGapMarks(records: seq<Parsed>): (r: seq<bool>)
    ensures |r| == |records|
    ensures forall i :: 0 <= i < |r| ==> r[i] == SeqGapAt(records, i)
  {
    seq(|records|, i requires 0 <= i < |records| => SeqGapAt(records, i))
  }

  function SeqRepeatMarks(records: seq<Parsed>): (r: seq<bool>)
    ensures |r| == |records|
    ensures forall i :: 0 <= i < |r| ==> r[i] == SeqRepeatAt(records, i)
  {
    seq(|records|, i requires 0 <= i < |records| => SeqRepeatAt(records, i))
  }

  /** The first of the two passes of `profile_violations`. */
  method FirstRepeatedStepId(decode: Decoder, lines: seq<RawLine>)
    returns (parsedRecords: seq<Parsed>, stepIdRepeat: Option<nat>)
    ensures parsedRecords == DecodeAll(decode, lines)
    ensures IsFirst(stepIdRepeat, StepIdMarks(parsedRecords))
  {
    ghost var all := DecodeAll(decode, lines);
    ghost var marks := StepIdMarks(all);
    parsedRecords := [];
    var seenStepIds: set<string> := {};
    stepIdRepeat := None;
    for index := 0 to |lines|
      invariant parsedRecords == all[..index]
      invariant forall id :: id in seenStepIds <==> exists j: nat :: j < index && HasStepId(all, j, id)
      invariant IsFirst(stepIdRepeat, marks[..index])
    {
      var parsed := decode(lines[index]);
      parsedRecords := parsedRecords + [parsed];
      IsFirstSnoc(stepIdRepeat, marks[..index], marks[index]);
      assert marks[..index + 1] == marks[..index] + [marks[index]];
      if parsed.Receipt? && parsed.stepId.Some? {
        var stepId := parsed.stepId.value;
        assert HasStepId(all, index, stepId);
        if stepId in seenStepIds && stepIdRepeat.None? {
          stepIdRepeat := Some(index + 1);
        }
        seenStepIds := seenStepIds + {stepId};
      }
    }
  }

  /** The second pass, once the sequence profile is active. */
  method FirstSequenceFaults(records: seq<Parsed>) returns (seqGap: Option<nat>, seqRepeat: Option<nat>)
    ensures IsFirst(seqGap, SeqGapMarks(records)) && IsFirst(seqRepeat, SeqRepeatMarks(records))
  {
    hide IsFirst;
    ghost var gaps, repeats := SeqGapMarks(records), SeqRepeatMarks(records);
    seqGap, seqRepeat := None, None;
    NothingMarked();
    var previous: Option<nat> := None;
    for index := 0 to |records|
      invariant index == 0 ==> previous == None
      invariant index > 0 ==>
                  previous == if Numbered(records, index - 1) then Some(Number(records, index - 1)) else None
      invariant IsFirst(seqGap, gaps[..index]) && IsFirst(seqRepeat, repeats[..index])
    {
      IsFirstSnoc(seqGap, gaps[..index], gaps[index]);
      IsFirstSnoc(seqRepeat, repeats[..index], repeats[index]);
      assert gaps[..index + 1] == gaps[..index] + [gaps[index]];
      assert repeats[..index + 1] == repeats[..index] + [repeats[index]];
      var record := records[index];
      if !(record.Receipt? && record.sequence.Natural?) {
        if seqGap.None? {
          seqGap := Some(index + 1);
        }
        previous := None;
        continue;
      }
      var value := record.sequence.value;
      if index == 0 {
        if value != 0 && seqGap.None? {
          seqGap := Some(1);
        }
      } else if previous.None? {
        if seqGap.None? {
          seqGap := Some(index + 1);
        }
      } else if value <= previous.value {
        if seqRepeat.None? {
          seqRepeat := Some(index + 1);
        }
      } else if value != previous.value + 1 {
        if seqGap.None? {
          seqGap := Some(index + 1);
        }
      }
      previous := Some(value);
    }
    assert gaps[..|records|] == gaps && repeats[..|records|] == repeats;
  }

  method ProfileViolations(decode: Decoder, lines: seq<RawLine>)
    returns (stepIdRepeat: Option<nat>, seqGap: Option<nat>, seqRepeat: Option<nat>)
    ensures var records := DecodeAll(decode, lines);
            && IsFirst(stepIdRepeat, StepIdMarks(records))
            && (!Active(records) ==> seqGap == None && seqRepeat == None)
            && (Active(records) ==>
                  IsFirst(seqGap, SeqGapMarks(records)) && IsFirst(seqRepeat, SeqRepeatMarks(records)))
  {
    var records;
    records, stepIdRepeat := FirstRepeatedStepId(decode, lines);
    if !Active(records) {
      return stepIdRepeat, None, None;
    }
    seqGap, seqRepeat := FirstSequenceFaults(records);
  }

  /** With the profile active, neither result is set exactly when record i carries number i (from zero). */
  lemma SeqProfileExact(records: seq<Parsed>)
    ensures IsFirst(None, SeqGapMarks(records)) && IsFirst(None, SeqRepeatMarks(records))
       <==> forall i :: 0 <= i < |records| ==> Numbered(records, i) && Number(records, i) == i
  {
    if IsFirst(None, SeqGapMarks(records)) && IsFirst(None, SeqRepeatMarks(records)) {
      forall k | 0 <= k < |records| ensures !SeqGapAt(records, k) && !SeqRepeatAt(records, k) {
        assert SeqGapMarks(records)[k] == SeqGapAt(records, k) && SeqRepeatMarks(records)[k] == SeqRepeatAt(records, k);
      }
      forall i | 0 <= i < |records| ensures Numbered(records, i) && Number(records, i) == i {
        NumbersCountUp(records, i);
      }
    }
  }

  lemma {:induction false} NumbersCountUp(records: seq<Parsed>, i: nat)
    requires i < |records| && forall k :: 0 <= k <= i ==> !SeqGapAt(records, k) && !SeqRepeatAt(records, k)
    ensures Numbered(records, i) && Number(records, i) == i
  {
    assert !SeqGapAt(records, i) && !SeqRepeatAt(records, i);
    if i > 0 {
      NumbersCountUp(records, i - 1);
    }
  }

  // ---------------------------------------------------------------- head assertions

  datatype HeadVerdict = Match | Mismatch | Invalid

  /** `verify_head_assertion` on a well-formed assertion: `signed` stands for its Ed25519 check. */
  function HeadCheck(digest: LineDigest, signed: bool, a: HeadAssertion, lines: seq<RawLine>): HeadVerdict {
    if !signed then Invalid
    else if lines == [] then Mismatch
    else if a.chainId == digest(lines[0]) && a.count == |lines| && a.headHash == digest(lines[|lines| - 1]) then Match
    else Mismatch
  }

  /** A matching head hash fixes the whole unbroken log: its lines, its count and its chain identifier. */
  lemma HeadFixesLog(decode: Decoder, digest: LineDigest, a: HeadAssertion, b: HeadAssertion, log: seq<RawLine>,
                     other: seq<RawLine>)
    requires CollisionFree(digest) && Unbroken(decode, digest, log) && Unbroken(decode, digest, other)
    requires HeadCheck(digest, true, a, log) == Match && HeadCheck(digest, true, b, other) == Match
    requires a.headHash == b.headHash
    ensures log == other && a.count == b.count && a.chainId == b.chainId
  {
    LastLineFixesLog(decode, digest, log, other);
  }
}
