/** What every sequential history of the store says about codes and sessions. */
module Redemptions {
  import opened ByteStrings
  import opened AuthStore
  import opened StoreThreads

  /** The same session up to its two flags, which only ever rise. */
  predicate SameSession(before: AuthState, after: AuthState) {
    && after == before.(issued := after.issued, redeemed := after.redeemed)
    && (before.issued ==> after.issued)
    && (before.redeemed ==> after.redeemed)
  }

  predicate Grows(before: Store, after: Store) {
    && (forall id <- before.states :: id in after.states && SameSession(before.states[id], after.states[id]))
    && (forall code <- before.codes :: code in after.codes && after.codes[code] == before.codes[code])
  }

  lemma ApplyGrows(store: Store, op: Op)
    ensures Grows(store, Apply(store, op).0)
  {}

  lemma GrowsTrans(a: Store, b: Store, c: Store)
    requires Grows(a, b) && Grows(b, c)
    ensures Grows(a, c)
  {}

  function At(history: seq<Event>, k: nat): Store
    requires k <= |history|
  {
    Replay(history[..k])
  }

  lemma AtStep(history: seq<Event>, k: nat)
    requires k < |history|
    ensures At(history, k + 1) == Apply(At(history, k), history[k].op).0
  {
    hide Apply;
    assert history[..k + 1][..k] == history[..k];
  }

  /** The store only grows along a history. */
  lemma {:induction false} HistoryGrows(history: seq<Event>, j: nat, k: nat)
    requires j <= k <= |history|
    ensures Grows(At(history, j), At(history, k))
    decreases k
  {
    hide Apply, At, Grows;
    if j == k {
      GrowsSelf(At(history, j));
    } else {
      HistoryGrows(history, j, k - 1);
      AtStep(history, k - 1);
      ApplyGrows(At(history, k - 1), history[k - 1].op);
      GrowsTrans(At(history, j), At(history, k - 1), At(history, k));
    }
  }

  lemma GrowsSelf(store: Store)
    ensures Grows(store, store)
  {}

  lemma RedeemedMeans(store: Store, op: Op)
    requires Apply(store, op).1.Redeemed?
    ensures var r := Apply(store, op).1;
            && op.OpRedeem? && op.authcode in store.codes && store.codes[op.authcode] == r.sid
            && r.sid in store.states && store.states[r.sid].issued && !store.states[r.sid].redeemed
            && r.state == store.states[r.sid].(redeemed := true)
            && var after := Apply(store, op).0; r.sid in after.states && after.states[r.sid].redeemed
  {}

  /** A code and a session are redeemed at most once. */
  lemma RedeemedOnce(history: seq<Event>, j: nat, k: nat)
    requires Legal(history) && j < k < |history| && history[j].result.Redeemed? && history[k].result.Redeemed?
    ensures history[j].result.sid != history[k].result.sid
    ensures history[j].op.OpRedeem? && history[k].op.OpRedeem? && history[j].op.authcode != history[k].op.authcode
  {
    hide Apply, Replay;
    RedeemedMeans(At(history, j), history[j].op);
    RedeemedMeans(At(history, k), history[k].op);
    AtStep(history, j);
    HistoryGrows(history, j, k);
    HistoryGrows(history, j + 1, k);
  }

  lemma CreatedMeans(store: Store, op: Op)
    requires Apply(store, op).1.Created?
    ensures var id := Apply(store, op).1.id; id !in store.states && id in Apply(store, op).0.states
  {}

  /** A session is created at most once. */
  lemma CreatedOnce(history: seq<Event>, j: nat, k: nat)
    requires Legal(history) && j < k < |history| && history[j].result.Created? && history[k].result.Created?
    ensures history[j].result.id != history[k].result.id
  {
    hide Apply, Replay;
    CreatedMeans(At(history, j), history[j].op);
    CreatedMeans(At(history, k), history[k].op);
    AtStep(history, j);
    HistoryGrows(history, j + 1, k);
  }

  /** A place where a session was created, with the state it was given. */
  predicate CreatedAt(history: seq<Event>, i: nat, id: Bytes, state: AuthState) {
    && i < |history| && history[i].op.OpCreate? && history[i].op.id == id && history[i].result == Created(id)
    && SameSession(history[i].op.state, state)
  }

  lemma ApplySource(store: Store, op: Op, id: Bytes)
    requires id in Apply(store, op).0.states
    ensures if id in store.states then SameSession(store.states[id], Apply(store, op).0.states[id])
            else
              && op.OpCreate? && op.id == id
              && Apply(store, op) == (store.(states := store.states[id := op.state]), Created(id))
  {}

  /** Every session in the store was created earlier and differs from then by its flags only. */
  lemma {:induction false} Provenance(history: seq<Event>, k: nat, id: Bytes) returns (i: nat)
    requires Legal(history) && k <= |history| && id in At(history, k).states
    ensures i < k && CreatedAt(history, i, id, At(history, k).states[id])
    decreases k
  {
    hide Apply, Replay;
    AtStart(history);
    if k == 0 {
      assert false;
    }
    AtStep(history, k - 1);
    ApplySource(At(history, k - 1), history[k - 1].op, id);
    if id in At(history, k - 1).states {
      i := Provenance(history, k - 1, id);
    } else {
      i := k - 1;
    }
  }

  lemma AtStart(history: seq<Event>)
    ensures At(history, 0) == EMPTY_STORE
  {}

  predicate IssuedAt(history: seq<Event>, e: nat, id: Bytes, code: Bytes) {
    e < |history| && history[e].op == OpIssue(id, code) && history[e].result == Issued(code)
  }

  lemma ApplyCodeSource(store: Store, op: Op, code: Bytes)
    requires code in Apply(store, op).0.codes
    ensures var id := Apply(store, op).0.codes[code];
            if code in store.codes then store.codes[code] == id
            else op == OpIssue(id, code) && Apply(store, op).1 == Issued(code) && id in store.states
  {}

  /** Every code was issued earlier for the session it maps to, which existed then. */
  lemma {:induction false} CodeProvenance(history: seq<Event>, k: nat, code: Bytes) returns (e: nat)
    requires Legal(history) && k <= |history| && code in At(history, k).codes
    ensures e < k && IssuedAt(history, e, At(history, k).codes[code], code)
    ensures At(history, k).codes[code] in At(history, e).states
    decreases k
  {
    hide Apply, Replay;
    AtStart(history);
    if k == 0 {
      assert false;
    }
    AtStep(history, k - 1);
    ApplyCodeSource(At(history, k - 1), history[k - 1].op, code);
    if code in At(history, k - 1).codes {
      e := CodeProvenance(history, k - 1, code);
    } else {
      e := k - 1;
    }
  }

  /** What is redeemed is a session created earlier, under a code issued in between for that session. */
  lemma RedeemedProvenance(history: seq<Event>, k: nat) returns (i: nat, e: nat)
    requires Legal(history) && k < |history| && history[k].result.Redeemed?
    ensures i < e < k && CreatedAt(history, i, history[k].result.sid, history[k].result.state)
    ensures history[k].op.OpRedeem? && IssuedAt(history, e, history[k].result.sid, history[k].op.authcode)
  {
    hide Apply, Replay;
    RedeemedMeans(At(history, k), history[k].op);
    e := CodeProvenance(history, k, history[k].op.authcode);
    i := Provenance(history, e, history[k].result.sid);
    HistoryGrows(history, e, k);
  }
}
