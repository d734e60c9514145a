/** The byte sequences that receipts and head assertions sign, before their UTF-8 encoding. */
module ReceiptBytes {
  import opened Prelude
  import opened CanonicalJson

  datatype Actor = Actor(agent: string, user: string)

  /** The signed members of a receipt. */
  datatype Receipt = Receipt(stepId: string, actionId: string, params: Value, success: bool, tsMs: int,
                             sequence: Option<int>, actor: Option<Actor>, prevHash: Option<string>)

  const STEP_ID := "\"step_id\":"
  const ACTION_ID := "\"action_id\":"
  const PARAMS := "\"params\":"
  const SUCCESS := "\"success\":"
  const TS_MS := "\"ts_ms\":"
  const SEQ := "\"seq\":"
  const ACTOR := "\"actor\":{\"agent\":"
  const USER := ",\"user\":"
  const PREV_HASH := "\"prev_hash\":"

  // ---------------------------------------------------------------- receipts

  function ActorPart(a: Actor): string {
    ACTOR + Quote(a.agent) + USER + Quote(a.user) + "}"
  }

  function Fixed(r: Receipt): seq<string>
    requires FloatFree(r.params)
  {
    [STEP_ID + Quote(r.stepId), ACTION_ID + Quote(r.actionId), PARAMS + Encode(r.params),
     SUCCESS + (if r.success then "true" else "false"), TS_MS + IntText(r.tsMs)]
  }

  /** `parts`: five fixed members, then whichever optional ones are present. */
  function Parts(r: Receipt): seq<string>
    requires FloatFree(r.params)
  {
    Fixed(r)
    + (if r.sequence.Some? then [SEQ + IntText(r.sequence.value)] else [])
    + (if r.actor.Some? then [ActorPart(r.actor.value)] else [])
    + (if r.prevHash.Some? then [PREV_HASH + Quote(r.prevHash.value)] else [])
  }

  /** `signed_receipt_bytes`; a float in the parameters is an error. */
  function SignedReceipt(r: Receipt): Option<string> {
    if FloatFree(r.params) then Some("{" + Join(Parts(r)) + "}") else None
  }

  // ---------------------------------------------------------------- the same text, nested from the right

  /** Every part with the comma in front of it. */
  function Commas(parts: seq<string>): string {
    if parts == [] then "" else "," + parts[0] + Commas(parts[1..])
  }

  lemma {:induction false} CommasConcat(a: seq<string>, b: seq<string>)
    ensures Commas(a + b) == Commas(a) + Commas(b)
  {
    if a == [] {
      assert a + b == b;
    } else {
      assert (a + b)[1..] == a[1..] + b;
      CommasConcat(a[1..], b);
    }
  }

  lemma {:induction false} JoinCommas(parts: seq<string>)
    requires parts != []
    ensures Join(parts) == parts[0] + Commas(parts[1..])
  {
    if |parts| > 1 {
      JoinCommas(parts[1..]);
    }
  }

  function AfterActor(r: Receipt): string {
    (if r.prevHash.Some? then "," + (PREV_HASH + Quote(r.prevHash.value)) else "") + "}"
  }

  function AfterSeq(r: Receipt): string {
    (if r.actor.Some? then "," + ActorPart(r.actor.value) else "") + AfterActor(r)
  }

  function AfterTs(r: Receipt): string {
    (if r.sequence.Some? then "," + (SEQ + IntText(r.sequence.value)) else "") + AfterSeq(r)
  }

  lemma CommasOne(part: string)
    ensures Commas([part]) == "," + part
  {
    assert Commas([part][1..]) == "";
  }

  lemma OptionalText(r: Receipt)
    requires FloatFree(r.params)
    ensures Commas(Parts(r)[1..]) + "}" == Commas(Fixed(r)[1..]) + AfterTs(r)
  {
    hide Commas, Quote, IntText, Encode, ActorPart;
    var a := if r.sequence.Some? then [SEQ + IntText(r.sequence.value)] else [];
    var b := if r.actor.Some? then [ActorPart(r.actor.value)] else [];
    var c := if r.prevHash.Some? then [PREV_HASH + Quote(r.prevHash.value)] else [];
    assert Parts(r)[1..] == ((Fixed(r)[1..] + a) + b) + c;
    CommasConcat((Fixed(r)[1..] + a) + b, c);
    CommasConcat(Fixed(r)[1..] + a, b);
    CommasConcat(Fixed(r)[1..], a);
    CommasText(a);
    CommasText(b);
    CommasText(c);
    assert AfterTs(r) == Commas(a) + (Commas(b) + (Commas(c) + "}"));
    Reassociate(Commas(Fixed(r)[1..]), Commas(a), Commas(b), Commas(c));
  }

  lemma Reassociate(a: string, b: string, c: string, d: string)
    ensures a + b + c + d + "}" == a + (b + (c + (d + "}")))
  {
  }

  lemma CommasText(parts: seq<string>)
    requires |parts| <= 1
    ensures Commas(parts) == if parts == [] then "" else "," + parts[0]
  {
    if parts != [] {
      CommasOne(parts[0]);
    }
  }

  /** The signed text, one member at a time. */
  function Nested(r: Receipt): string
    requires FloatFree(r.params)
  {
    "{" + STEP_ID + (Quote(r.stepId) + ("," + ACTION_ID + (Quote(r.actionId) + ("," + PARAMS + (Encode(r.params)
    + ("," + SUCCESS + ((if r.success then "true" else "false") + ("," + TS_MS + (IntText(r.tsMs) + AfterTs(r))))))))))
  }

  lemma FixedText(r: Receipt, rest: string)
    requires FloatFree(r.params)
    ensures Commas(Fixed(r)[1..]) + rest
         == "," + ACTION_ID + (Quote(r.actionId) + ("," + PARAMS + (Encode(r.params)
            + ("," + SUCCESS + ((if r.success then "true" else "false") + ("," + TS_MS + (IntText(r.tsMs) + rest)))))))
  {
    hide Commas, Quote, IntText, Encode;
    var f := Fixed(r);
    assert f[1..] == [f[1]] + ([f[2]] + ([f[3]] + [f[4]]));
    CommasConcat([f[1]], [f[2]] + ([f[3]] + [f[4]]));
    CommasConcat([f[2]], [f[3]] + [f[4]]);
    CommasConcat([f[3]], [f[4]]);
    CommasOne(f[1]);
    CommasOne(f[2]);
    CommasOne(f[3]);
    CommasOne(f[4]);
    var success := if r.success then "true" else "false";
    Regroup(ACTION_ID, Quote(r.actionId), PARAMS, Encode(r.params), SUCCESS, success, TS_MS, IntText(r.tsMs), rest);
  }

  lemma Regroup(k1: string, v1: string, k2: string, v2: string, k3: string, v3: string, k4: string, v4: string,
                rest: string)
    ensures ("," + (k1 + v1)) + (("," + (k2 + v2)) + (("," + (k3 + v3)) + ("," + (k4 + v4)))) + rest
         == "," + k1 + (v1 + ("," + k2 + (v2 + ("," + k3 + (v3 + ("," + k4 + (v4 + rest)))))))
  {
  }

  lemma SignedIsNested(r: Receipt)
    requires FloatFree(r.params)
    ensures SignedReceipt(r) == Some(Nested(r))
  {
    hide Commas, Join, Quote, IntText, Encode, AfterTs;
    JoinCommas(Parts(r));
    OptionalText(r);
    FixedText(r, AfterTs(r));
    assert Parts(r)[0] == STEP_ID + Quote(r.stepId);
    var tail := Commas(Parts(r)[1..]);
    assert "{" + (Parts(r)[0] + tail) + "}" == "{" + STEP_ID + (Quote(r.stepId) + (tail + "}"));
  }

  // ---------------------------------------------------------------- injectivity

  lemma AfterActorUnique(r: Receipt, s: Receipt)
    requires AfterActor(r) == AfterActor(s)
    ensures r.prevHash == s.prevHash
  {
    hide Quote;
    assert AfterActor(r)[0] == (if r.prevHash.Some? then ',' else '}');
    assert AfterActor(s)[0] == (if s.prevHash.Some? then ',' else '}');
    if r.prevHash.Some? {
      assert AfterActor(r) == ("," + PREV_HASH) + (Quote(r.prevHash.value) + "}");
      assert AfterActor(s) == ("," + PREV_HASH) + (Quote(s.prevHash.value) + "}");
      WordUnique("," + PREV_HASH, Quote(r.prevHash.value) + "}", Quote(s.prevHash.value) + "}");
      QuoteUnique(r.prevHash.value, s.prevHash.value, "}", "}");
    }
  }

  /** Which optional member comes next, read off the text: a, p, s or the closing brace. */
  function Marker(text: string): char {
    if |text| > 2 && text[0] == ',' then text[2] else '}'
  }

  lemma AfterActorMarker(r: Receipt)
    ensures Marker(AfterActor(r)) in {'p', '}'}
    ensures Delimited(AfterActor(r))
  {
    if r.prevHash.Some? {
      assert AfterActor(r) == ("," + PREV_HASH) + (Quote(r.prevHash.value) + "}");
    }
  }

  lemma AfterSeqMarker(r: Receipt)
    ensures Marker(AfterSeq(r)) == 'a' <==> r.actor.Some?
    ensures Marker(AfterSeq(r)) in {'a', 'p', '}'}
    ensures Delimited(AfterSeq(r))
  {
    hide Quote, AfterActor;
    AfterActorMarker(r);
    if r.actor.Some? {
      ActorText(r);
    } else {
      assert AfterSeq(r) == AfterActor(r);
    }
  }

  lemma AfterSeqUnique(r: Receipt, s: Receipt)
    requires AfterSeq(r) == AfterSeq(s)
    ensures r.actor == s.actor && r.prevHash == s.prevHash
  {
    hide Quote, AfterActor;
    AfterSeqMarker(r);
    AfterSeqMarker(s);
    if r.actor.Some? {
      var a, b := r.actor.value, s.actor.value;
      ActorText(r);
      ActorText(s);
      WordUnique("," + ACTOR, Quote(a.agent) + (USER + (Quote(a.user) + ("}" + AfterActor(r)))),
                 Quote(b.agent) + (USER + (Quote(b.user) + ("}" + AfterActor(s)))));
      QuoteUnique(a.agent, b.agent, USER + (Quote(a.user) + ("}" + AfterActor(r))),
                  USER + (Quote(b.user) + ("}" + AfterActor(s))));
      WordUnique(USER, Quote(a.user) + ("}" + AfterActor(r)), Quote(b.user) + ("}" + AfterActor(s)));
      QuoteUnique(a.user, b.user, "}" + AfterActor(r), "}" + AfterActor(s));
      WordUnique("}", AfterActor(r), AfterActor(s));
    } else {
      assert AfterSeq(r) == AfterActor(r) && AfterSeq(s) == AfterActor(s);
    }
    AfterActorUnique(r, s);
  }

  lemma ActorText(r: Receipt)
    requires r.actor.Some?
    ensures AfterSeq(r) == ("," + ACTOR) + (Quote(r.actor.value.agent)
                           + (USER + (Quote(r.actor.value.user) + ("}" + AfterActor(r)))))
  {
    hide Quote, AfterActor;
  }

  lemma SeqMarker(r: Receipt)
    ensures Marker(AfterTs(r)) == 's' <==> r.sequence.Some?
    ensures Delimited(AfterTs(r))
    ensures r.sequence.Some? ==> AfterTs(r) == ("," + SEQ) + (IntText(r.sequence.value) + AfterSeq(r))
    ensures r.sequence.None? ==> AfterTs(r) == AfterSeq(r)
  {
    hide AfterSeq, IntText;
    AfterSeqMarker(r);
  }

  lemma AfterTsUnique(r: Receipt, s: Receipt)
    requires AfterTs(r) == AfterTs(s)
    ensures r.sequence == s.sequence && r.actor == s.actor && r.prevHash == s.prevHash
  {
    hide AfterTs, AfterSeq, IntText;
    SeqMarker(r);
    SeqMarker(s);
    if r.sequence.Some? {
      AfterSeqMarker(r);
      AfterSeqMarker(s);
      WordUnique("," + SEQ, IntText(r.sequence.value) + AfterSeq(r), IntText(s.sequence.value) + AfterSeq(s));
      IntTextUnique(r.sequence.value, s.sequence.value, AfterSeq(r), AfterSeq(s));
    }
    AfterSeqUnique(r, s);
  }

  lemma SuccessUnique(a: bool, b: bool, x: string, y: string)
    requires (if a then "true" else "false") + x == (if b then "true" else "false") + y
    ensures a == b && x == y
  {
    assert ((if a then "true" else "false") + x)[0] == (if a then 't' else 'f');
    assert ((if b then "true" else "false") + y)[0] == (if b then 't' else 'f');
    WordUnique(if a then "true" else "false", x, y);
  }

  function FromSuccess(r: Receipt): string {
    (if r.success then "true" else "false") + ("," + TS_MS + (IntText(r.tsMs) + AfterTs(r)))
  }

  function FromParams(r: Receipt): string
    requires FloatFree(r.params)
  {
    Encode(r.params) + ("," + SUCCESS + FromSuccess(r))
  }

  lemma FromSuccessUnique(r: Receipt, s: Receipt)
    requires FromSuccess(r) == FromSuccess(s)
    ensures r.success == s.success && r.tsMs == s.tsMs && AfterTs(r) == AfterTs(s)
  {
    hide AfterTs, IntText;
    var x, y := IntText(r.tsMs) + AfterTs(r), IntText(s.tsMs) + AfterTs(s);
    SuccessUnique(r.success, s.success, "," + TS_MS + x, "," + TS_MS + y);
    WordUnique("," + TS_MS, x, y);
    SeqMarker(r);
    SeqMarker(s);
    IntTextUnique(r.tsMs, s.tsMs, AfterTs(r), AfterTs(s));
  }

  lemma FromParamsUnique(r: Receipt, s: Receipt)
    requires FloatFree(r.params) && FloatFree(s.params) && FromParams(r) == FromParams(s)
    ensures r.params == s.params && FromSuccess(r) == FromSuccess(s)
  {
    hide Encode, FromSuccess;
    EncodeUnique(r.params, s.params, "," + SUCCESS + FromSuccess(r), "," + SUCCESS + FromSuccess(s));
    WordUnique("," + SUCCESS, FromSuccess(r), FromSuccess(s));
  }

  /** The signed text determines every signed member, including which optional members are present. */
  lemma SignedReceiptInjective(r: Receipt, s: Receipt)
    requires SignedReceipt(r).Some? && SignedReceipt(r) == SignedReceipt(s)
    ensures r == s
  {
    hide Quote, AfterTs, FromParams;
    SignedIsNested(r);
    SignedIsNested(s);
    NestedText(r);
    NestedText(s);
    var x, y := "," + PARAMS + FromParams(r), "," + PARAMS + FromParams(s);
    WordUnique("{" + STEP_ID, Quote(r.stepId) + ("," + ACTION_ID + (Quote(r.actionId) + x)),
               Quote(s.stepId) + ("," + ACTION_ID + (Quote(s.actionId) + y)));
    QuoteUnique(r.stepId, s.stepId, "," + ACTION_ID + (Quote(r.actionId) + x),
                "," + ACTION_ID + (Quote(s.actionId) + y));
    WordUnique("," + ACTION_ID, Quote(r.actionId) + x, Quote(s.actionId) + y);
    QuoteUnique(r.actionId, s.actionId, x, y);
    WordUnique("," + PARAMS, FromParams(r), FromParams(s));
    FromParamsUnique(r, s);
    FromSuccessUnique(r, s);
    AfterTsUnique(r, s);
  }

  lemma NestedText(r: Receipt)
    requires FloatFree(r.params)
    ensures Nested(r) == "{" + STEP_ID + (Quote(r.stepId) + ("," + ACTION_ID + (Quote(r.actionId)
                         + ("," + PARAMS + FromParams(r)))))
  {
    hide Quote, AfterTs, Encode, IntText;
  }

  // ---------------------------------------------------------------- head assertions

  datatype HeadAssertion = HeadAssertion(chainId: string, count: int, headHash: string, assertedTsMs: int)

  const HEAD_DOMAIN := "agent-receipt-head-v1:"
  const CHAIN_ID := "{\"chain_id\":"
  const COUNT := ",\"count\":"
  const HEAD_HASH := ",\"head_hash\":"
  const ASSERTED_TS_MS := ",\"asserted_ts_ms\":"

  /** `signed_head_bytes`. */
  function SignedHead(a: HeadAssertion): string {
    HEAD_DOMAIN + (CHAIN_ID + (Quote(a.chainId) + (COUNT + (IntText(a.count) + (HEAD_HASH + (Quote(a.headHash)
    + (ASSERTED_TS_MS + (IntText(a.assertedTsMs) + "}"))))))))
  }

  lemma SignedHeadInjective(a: HeadAssertion, b: HeadAssertion)
    requires SignedHead(a) == SignedHead(b)
    ensures a == b
  {
    hide Quote, IntText;
    var ta, tb := IntText(a.assertedTsMs) + "}", IntText(b.assertedTsMs) + "}";
    var ha, hb := Quote(a.headHash) + (ASSERTED_TS_MS + ta), Quote(b.headHash) + (ASSERTED_TS_MS + tb);
    var ca, cb := IntText(a.count) + (HEAD_HASH + ha), IntText(b.count) + (HEAD_HASH + hb);
    var ia, ib := Quote(a.chainId) + (COUNT + ca), Quote(b.chainId) + (COUNT + cb);
    WordUnique(HEAD_DOMAIN, CHAIN_ID + ia, CHAIN_ID + ib);
    WordUnique(CHAIN_ID, ia, ib);
    QuoteUnique(a.chainId, b.chainId, COUNT + ca, COUNT + cb);
    WordUnique(COUNT, ca, cb);
    IntTextUnique(a.count, b.count, HEAD_HASH + ha, HEAD_HASH + hb);
    WordUnique(HEAD_HASH, ha, hb);
    QuoteUnique(a.headHash, b.headHash, ASSERTED_TS_MS + ta, ASSERTED_TS_MS + tb);
    WordUnique(ASSERTED_TS_MS, ta, tb);
    IntTextUnique(a.assertedTsMs, b.assertedTsMs, "}", "}");
  }

  /** Domain separation: no text is signed both as a receipt and as a head assertion. */
  lemma ReceiptsAreNotHeads(r: Receipt, a: HeadAssertion)
    ensures SignedReceipt(r) != Some(SignedHead(a))
  {
    assert SignedHead(a)[0] == 'a';
    if SignedReceipt(r).Some? {
      assert SignedReceipt(r).value[0] == '{';
    }
  }
}
