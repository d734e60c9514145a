/** The effect gate: precommitment before effect, receipt after effect, and a runtime with a way around the gate. */
module EffectGate {
  import opened Prelude

  datatype Effect = Effect(effectId: string, action: string, target: string, payload: string)

  /** Collision-free digests: of an effect, of a precommitment's material, and of a receipt's material. */
  datatype Digest =
    | EffectDigest(effect: Effect)
    | TokenDigest(effectId: string, effectDigest: Digest)
    | ReceiptDigest(token: Digest, effectId: string, effectDigest: Digest)

  datatype Precommitment = Precommitment(token: Digest, effectId: string, effectDigest: Digest)

  datatype Receipt = Receipt(receiptId: Digest, effectId: string, effectDigest: Digest, token: Digest)

  datatype GateError = EffectBlocked | AlreadyApplied

  // ---------------------------------------------------------------- the state machine

  /** Everything the recorder and the store hold; `bypassed` lists the ids of effects applied around the gate. */
  datatype GateState = GateState(precommitments: map<Digest, Precommitment>, receipts: map<string, Receipt>,
                                 effects: map<string, Effect>, bypassed: set<string>)

  const EMPTY := GateState(map[], map[], map[], {})

  function PrecommitmentOf(e: Effect): Precommitment {
    Precommitment(TokenDigest(e.effectId, EffectDigest(e)), e.effectId, EffectDigest(e))
  }

  function ReceiptOf(e: Effect, p: Precommitment): Receipt {
    Receipt(ReceiptDigest(p.token, e.effectId, EffectDigest(e)), e.effectId, EffectDigest(e), p.token)
  }

  predicate IsBound(precommitments: map<Digest, Precommitment>, e: Effect, p: Option<Precommitment>) {
    && p.Some?
    && p.value.token in precommitments
    && precommitments[p.value.token] == p.value
    && p.value.effectId == e.effectId
    && p.value.effectDigest == EffectDigest(e)
  }

  function Precommitted(s: GateState, e: Effect): GateState {
    s.(precommitments := s.precommitments[PrecommitmentOf(e).token := PrecommitmentOf(e)])
  }

  /** What one call of the gate does. */
  function Gated(s: GateState, e: Effect, p: Option<Precommitment>): (GateState, Result<Receipt, GateError>) {
    if !IsBound(s.precommitments, e, p) then (s, Err(EffectBlocked))
    else if e.effectId in s.effects then (s, Err(AlreadyApplied))
    else
      (s.(effects := s.effects[e.effectId := e], receipts := s.receipts[e.effectId := ReceiptOf(e, p.value)]),
       Ok(ReceiptOf(e, p.value)))
  }

  function Bypassed(s: GateState, e: Effect): (GateState, Result<(), GateError>) {
    if e.effectId in s.effects then (s, Err(AlreadyApplied))
    else (s.(effects := s.effects[e.effectId := e], bypassed := s.bypassed + {e.effectId}), Ok(()))
  }

  /** What a direct call of the recorder's `finalize` does. */
  function Finalized(s: GateState, e: Effect, p: Precommitment): GateState {
    if !IsBound(s.precommitments, e, Some(p)) then s
    else s.(receipts := s.receipts[e.effectId := ReceiptOf(e, p)])
  }

  datatype Operation =
    | Precommit(effect: Effect)
    | Finalize(effect: Effect, bound: Precommitment)
    | Execute(effect: Effect, precommitment: Option<Precommitment>)
    | ExecuteViaGate(effect: Effect)
    | ExecuteBypass(effect: Effect)

  function Step(s: GateState, op: Operation): GateState {
    match op
    case Precommit(e) => Precommitted(s, e)
    case Finalize(e, p) => Finalized(s, e, p)
    case Execute(e, p) => Gated(s, e, p).0
    case ExecuteViaGate(e) => Gated(Precommitted(s, e), e, Some(PrecommitmentOf(e))).0
    case ExecuteBypass(e) => Bypassed(s, e).0
  }

  /** The state after any interleaving of operations, failed ones included. */
  function After(ops: seq<Operation>): GateState {
    if ops == [] then EMPTY else Step(After(ops[..|ops| - 1]), ops[|ops| - 1])
  }

  // ---------------------------------------------------------------- conservation

  /** Every stored precommitment is the one of some effect, under its own token. */
  ghost predicate WellKept(precommitments: map<Digest, Precommitment>) {
    forall token :: token in precommitments ==>
      exists e :: precommitments[token] == PrecommitmentOf(e) && PrecommitmentOf(e).token == token
  }

  lemma BoundIsOwn(precommitments: map<Digest, Precommitment>, e: Effect, p: Option<Precommitment>)
    requires WellKept(precommitments) && IsBound(precommitments, e, p)
    ensures p.value == PrecommitmentOf(e)
  {
    var x :| precommitments[p.value.token] == PrecommitmentOf(x);
  }

  /** Applied ids are the disjoint union of receipted and bypassed ids, every receipt attests the very effect that was
      applied, and its precommitment is on record. */
  ghost predicate Conserved(s: GateState) {
    && s.effects.Keys == s.receipts.Keys + s.bypassed
    && s.receipts.Keys !! s.bypassed
    && (forall id :: id in s.effects ==> s.effects[id].effectId == id)
    && (forall id :: id in s.receipts ==>
          && id in s.effects
          && s.receipts[id] == ReceiptOf(s.effects[id], PrecommitmentOf(s.effects[id]))
          && PrecommitmentOf(s.effects[id]).token in s.precommitments)
    && WellKept(s.precommitments)
  }

  lemma PrecommitConserves(s: GateState, e: Effect)
    requires Conserved(s)
    ensures Conserved(Precommitted(s, e))
  {
    var next := Precommitted(s, e);
    forall token | token in next.precommitments
      ensures exists x :: next.precommitments[token] == PrecommitmentOf(x) && PrecommitmentOf(x).token == token
    {
      if token == PrecommitmentOf(e).token {
        assert next.precommitments[token] == PrecommitmentOf(e);
      } else {
        assert next.precommitments[token] == s.precommitments[token];
      }
    }
  }

  lemma GateConserves(s: GateState, e: Effect, p: Option<Precommitment>)
    requires Conserved(s)
    ensures Conserved(Gated(s, e, p).0)
  {
    hide WellKept;
    if IsBound(s.precommitments, e, p) && e.effectId !in s.effects {
      BoundIsOwn(s.precommitments, e, p);
    }
  }

  lemma BypassConserves(s: GateState, e: Effect)
    requires Conserved(s)
    ensures Conserved(Bypassed(s, e).0)
  {
    hide WellKept;
  }

  /** What a caller of `finalize` can check first: the call will be refused, or exactly this effect has been applied,
      and not around the gate. */
  predicate MayFinalize(s: GateState, e: Effect, p: Precommitment) {
    || !IsBound(s.precommitments, e, Some(p))
    || (e.effectId in s.effects && s.effects[e.effectId] == e && e.effectId !in s.bypassed)
  }

  /** A direct `finalize` keeps conservation if and only if its caller respects that guard. */
  lemma FinalizeExact(s: GateState, e: Effect, p: Precommitment)
    requires Conserved(s)
    ensures Conserved(Finalized(s, e, p)) <==> MayFinalize(s, e, p)
  {
    hide WellKept;
    if IsBound(s.precommitments, e, Some(p)) {
      BoundIsOwn(s.precommitments, e, Some(p));
      var next := Finalized(s, e, p);
      assert e.effectId in next.receipts && next.receipts[e.effectId].effectDigest == EffectDigest(e);
      if MayFinalize(s, e, p) {
        assert next == s;
      }
    }
  }

  /** Every direct `finalize` of the run met the guard in the state it was called in. */
  ghost predicate Guarded(ops: seq<Operation>) {
    forall k :: 0 <= k < |ops| && ops[k].Finalize? ==> MayFinalize(After(ops[..k]), ops[k].effect, ops[k].bound)
  }

  lemma StepConserves(s: GateState, op: Operation)
    requires Conserved(s)
    ensures Conserved(Step(s, op)) <==> op.Finalize? ==> MayFinalize(s, op.effect, op.bound)
  {
    hide Conserved, MayFinalize;
    match op
    case Precommit(e) => PrecommitConserves(s, e);
    case Finalize(e, p) => FinalizeExact(s, e, p);
    case Execute(e, p) => GateConserves(s, e, p);
    case ExecuteViaGate(e) =>
      PrecommitConserves(s, e);
      GateConserves(Precommitted(s, e), e, Some(PrecommitmentOf(e)));
    case ExecuteBypass(e) => BypassConserves(s, e);
  }

  lemma AfterStep(ops: seq<Operation>, k: nat)
    requires k < |ops|
    ensures After(ops[..k + 1]) == Step(After(ops[..k]), ops[k])
  {
    assert ops[..k + 1][..k] == ops[..k];
  }

  /** Over every interleaving, from the empty state and including failed calls: if no direct `finalize` broke the guard,
      applied ids are exactly the receipted ones and the bypassed ones, never both. */
  lemma {:induction false} EveryRunConserves(ops: seq<Operation>, k: nat)
    requires Guarded(ops) && k <= |ops|
    ensures Conserved(After(ops[..k]))
  {
    hide Conserved, MayFinalize, Step;
    if k == 0 {
      EmptyConserves();
    } else {
      EveryRunConserves(ops, k - 1);
      AfterStep(ops, k - 1);
      StepConserves(After(ops[..k - 1]), ops[k - 1]);
    }
  }

  lemma EmptyConserves()
    ensures Conserved(EMPTY)
  {
  }

  /** Exactly when conservation holds at every step of a run: every direct `finalize` met the guard. */
  lemma ConservationExact(ops: seq<Operation>)
    ensures (forall k :: 0 <= k <= |ops| ==> Conserved(After(ops[..k]))) <==> Guarded(ops)
  {
    hide Conserved, MayFinalize, Step;
    if Guarded(ops) {
      forall k | 0 <= k <= |ops| ensures Conserved(After(ops[..k])) {
        EveryRunConserves(ops, k);
      }
    }
    if forall k :: 0 <= k <= |ops| ==> Conserved(After(ops[..k])) {
      forall k | 0 <= k < |ops| && ops[k].Finalize?
        ensures MayFinalize(After(ops[..k]), ops[k].effect, ops[k].bound)
      {
        AfterStep(ops, k);
        StepConserves(After(ops[..k]), ops[k]);
      }
    }
  }

  /** So the effects without a receipt are exactly the bypassed ones, and a runtime whose every effect is receipted was
      never bypassed. */
  lemma UnreceiptedMeansBypassed(ops: seq<Operation>)
    requires Guarded(ops)
    ensures After(ops).effects.Keys - After(ops).receipts.Keys == After(ops).bypassed
    ensures After(ops).effects.Keys == After(ops).receipts.Keys <==> After(ops).bypassed == {}
  {
    EveryRunConserves(ops, |ops|);
    assert ops[..|ops|] == ops;
  }

  predicate KeepsEffects(s: GateState, t: GateState) {
    forall id :: id in s.effects ==> id in t.effects && t.effects[id] == s.effects[id]
  }

  predicate KeepsReceipts(s: GateState, t: GateState) {
    forall id :: id in s.receipts ==> id in t.receipts && t.receipts[id] == s.receipts[id]
  }

  lemma StepKeepsEffects(s: GateState, op: Operation)
    ensures KeepsEffects(s, Step(s, op))
  {
    hide PrecommitmentOf, ReceiptOf;
  }

  lemma StepKeepsReceipts(s: GateState, op: Operation)
    requires Conserved(s) && (op.Finalize? ==> MayFinalize(s, op.effect, op.bound))
    ensures KeepsReceipts(s, Step(s, op))
  {
    if op.Finalize? {
      FinalizeExact(s, op.effect, op.bound);
      RepeatedReceipt(s, op.effect, op.bound);
    } else {
      GateKeepsReceipts(s, op);
    }
  }

  /** A guarded `finalize` that succeeds issues the receipt that is already there. */
  lemma RepeatedReceipt(s: GateState, e: Effect, p: Precommitment)
    requires Conserved(s) && MayFinalize(s, e, p)
    ensures Finalized(s, e, p).receipts == s.receipts
  {
    hide WellKept;
    if IsBound(s.precommitments, e, Some(p)) {
      BoundIsOwn(s.precommitments, e, Some(p));
    }
  }

  lemma GateKeepsReceipts(s: GateState, op: Operation)
    requires s.receipts.Keys <= s.effects.Keys && !op.Finalize?
    ensures KeepsReceipts(s, Step(s, op))
  {
    hide PrecommitmentOf, ReceiptOf;
  }

  /** No operation removes or changes an applied effect; no operation of a guarded run removes or changes a receipt. */
  lemma {:induction false} RunsOnlyGrow(ops: seq<Operation>, k: nat, l: nat)
    requires k <= l <= |ops|
    ensures KeepsEffects(After(ops[..k]), After(ops[..l]))
    ensures Guarded(ops) ==> KeepsReceipts(After(ops[..k]), After(ops[..l]))
  {
    hide Step, Conserved, MayFinalize;
    if k < l {
      RunsOnlyGrow(ops, k, l - 1);
      AfterStep(ops, l - 1);
      StepKeepsEffects(After(ops[..l - 1]), ops[l - 1]);
      if Guarded(ops) {
        EveryRunConserves(ops, l - 1);
        StepKeepsReceipts(After(ops[..l - 1]), ops[l - 1]);
      }
    }
  }

  // ---------------------------------------------------------------- the classes

  class Recorder {
    var precommitments: map<Digest, Precommitment>
    var receipts: map<string, Receipt>

    constructor ()
      ensures precommitments == map[] && receipts == map[]
    {
      precommitments, receipts := map[], map[];
    }

    method Precommit(e: Effect) returns (p: Precommitment)
      modifies this
      ensures p == PrecommitmentOf(e)
      ensures precommitments == old(precommitments)[p.token := p]
      ensures receipts == old(receipts)
    {
      var token := TokenDigest(e.effectId, EffectDigest(e));
      p := Precommitment(token, e.effectId, EffectDigest(e));
      precommitments := precommitments[token := p];
    }

    predicate IsValidPrecommitment(e: Effect, p: Option<Precommitment>)
      reads this
    {
      IsBound(precommitments, e, p)
    }

    method Finalize(e: Effect, p: Precommitment) returns (r: Result<Receipt, GateError>)
      modifies this
      ensures r == if old(IsValidPrecommitment(e, Some(p))) then Ok(ReceiptOf(e, p)) else Err(EffectBlocked)
      ensures precommitments == old(precommitments)
      ensures receipts == if r.Ok? then old(receipts)[e.effectId := r.value] else old(receipts)
    {
      if !IsValidPrecommitment(e, Some(p)) {
        return Err(EffectBlocked);
      }
      var receipt := Receipt(ReceiptDigest(p.token, e.effectId, EffectDigest(e)), e.effectId, EffectDigest(e), p.token);
      receipts := receipts[e.effectId := receipt];
      return Ok(receipt);
    }
  }

  class EffectStore {
    var effects: map<string, Effect>

    constructor ()
      ensures effects == map[]
    {
      effects := map[];
    }

    method Apply(e: Effect) returns (r: Result<(), GateError>)
      modifies this
      ensures r == if e.effectId in old(effects) then Err(AlreadyApplied) else Ok(())
      ensures effects == if r.Ok? then old(effects)[e.effectId := e] else old(effects)
    {
      if e.effectId in effects {
        return Err(AlreadyApplied);
      }
      effects := effects[e.effectId := e];
      return Ok(());
    }
  }

  class Gate {
    const store: EffectStore
    const recorder: Recorder

    constructor (store: EffectStore, recorder: Recorder)
      ensures this.store == store && this.recorder == recorder
    {
      this.store, this.recorder := store, recorder;
    }

    /** An effect is applied exactly when a receipt is returned; the check inside `Finalize` never fails here. */
    method Execute(e: Effect, p: Option<Precommitment>) returns (r: Result<Receipt, GateError>)
      modifies store, recorder
      ensures r == if !old(recorder.IsValidPrecommitment(e, p)) then Err(EffectBlocked)
                   else if e.effectId in old(store.effects) then Err(AlreadyApplied)
                   else Ok(ReceiptOf(e, p.value))
      ensures store.effects == if r.Ok? then old(store.effects)[e.effectId := e] else old(store.effects)
      ensures recorder.receipts
           == if r.Ok? then old(recorder.receipts)[e.effectId := r.value] else old(recorder.receipts)
      ensures recorder.precommitments == old(recorder.precommitments)
    {
      if !recorder.IsValidPrecommitment(e, p) {
        return Err(EffectBlocked);
      }
      var applied := store.Apply(e);
      if applied.Err? {
        return Err(applied.error);
      }
      r := recorder.Finalize(e, p.value);
    }
  }

  class BypassableRuntime {
    const store: EffectStore
    const recorder: Recorder
    const gate: Gate
    ghost var bypassed: set<string>

    ghost predicate Wired() {
      gate.store == store && gate.recorder == recorder
    }

    ghost function State(): GateState
      reads this, store, recorder
    {
      GateState(recorder.precommitments, recorder.receipts, store.effects, bypassed)
    }

    constructor (store: EffectStore, recorder: Recorder)
      ensures Wired() && this.store == store && this.recorder == recorder && fresh(gate)
      ensures State() == GateState(recorder.precommitments, recorder.receipts, store.effects, {})
    {
      var g := new Gate(store, recorder);
      this.store, this.recorder, gate, bypassed := store, recorder, g, {};
    }

    method ExecuteViaGate(e: Effect) returns (r: Result<Receipt, GateError>)
      requires Wired()
      modifies store, recorder
      ensures State() == Step(old(State()), Operation.ExecuteViaGate(e))
      ensures r == if e.effectId in old(store.effects) then Err(AlreadyApplied)
                   else Ok(ReceiptOf(e, PrecommitmentOf(e)))
    {
      var p := recorder.Precommit(e);
      r := gate.Execute(e, Some(p));
    }

    method ExecuteBypass(e: Effect) returns (r: Result<(), GateError>)
      requires Wired()
      modifies this, store
      ensures State() == Step(old(State()), Operation.ExecuteBypass(e))
      ensures r == if e.effectId in old(store.effects) then Err(AlreadyApplied) else Ok(())
    {
      r := store.Apply(e);
      if r.Ok? {
        bypassed := bypassed + {e.effectId};
      }
    }

    /** Any sequence of calls a client makes, with the recorder and gate calls it can also reach through the fields. */
    method Perform(ops: seq<Operation>)
      requires Wired() && State() == EMPTY
      modifies this, store, recorder
      ensures State() == After(ops)
      ensures Guarded(ops) ==>
                store.effects.Keys == recorder.receipts.Keys + bypassed && recorder.receipts.Keys !! bypassed
    {
      for i := 0 to |ops|
        invariant State() == After(ops[..i])
      {
        assert ops[..i + 1][..i] == ops[..i];
        match ops[i] {
          case Precommit(e) =>
            var _ := recorder.Precommit(e);
          case Finalize(e, p) =>
            var _ := recorder.Finalize(e, p);
          case Execute(e, p) =>
            var _ := gate.Execute(e, p);
          case ExecuteViaGate(e) =>
            var _ := ExecuteViaGate(e);
          case ExecuteBypass(e) =>
            var _ := ExecuteBypass(e);
        }
      }
      assert ops[..|ops|] == ops;
      if Guarded(ops) {
        EveryRunConserves(ops, |ops|);
      }
    }
  }

  /** An unguarded `finalize`: a receipt is issued for an effect that was never applied. */
  method FinalizeWithoutEffect(e: Effect) returns (store: EffectStore, recorder: Recorder)
    ensures fresh(store) && fresh(recorder)
    ensures e.effectId in recorder.receipts && e.effectId !in store.effects
  {
    store := new EffectStore();
    recorder := new Recorder();
    var p := recorder.Precommit(e);
    var _ := recorder.Finalize(e, p);
  }
}
