/** The authentication state store, one call at a time (cosigner/mocks/authstatestore.go, cosigner/authstate.go). */
module AuthStore {
  import opened Common
  import opened ByteStrings
  import opened Jose
  import opened Oidc
  import opened PkTokens
  import opened AuthIds

  const AT: Byte := 64

  datatype AuthState = AuthState(
    pkt: Pkt, issuer: Bytes, aud: Bytes, sub: Bytes, username: Bytes, displayName: Bytes,
    redirectUri: Bytes, nonce: Bytes, issued: bool, redeemed: bool)

  /** The state of a new session: an error without usable claims, a panic on an audience item that is no string. */
  function NewAuthState(c: Codec, pkt: Pkt, ruri: Bytes, nonce: Bytes): Outcome<AuthState> {
    var claims := c.readSession(OrEmpty(pkt.payload));
    if claims.None? || claims.value.aud.Unusable? then Error
    else
      var aud := JoinAudience(claims.value.aud);
      if !aud.Ok? then Panic
      else Ok(AuthState(pkt, claims.value.iss, aud.value, claims.value.sub, claims.value.email,
                        Split(claims.value.email, AT)[0], ruri, nonce, false, false))
  }

  /** Each field of a new session comes from its own claim; the display name is the email up to its first at sign. */
  lemma NewStateFields(c: Codec, pkt: Pkt, ruri: Bytes, nonce: Bytes)
    ensures var r, claims := NewAuthState(c, pkt, ruri, nonce), c.readSession(OrEmpty(pkt.payload));
            r.Ok? ==>
              && claims.Some? && r.value.pkt == pkt && r.value.redirectUri == ruri && r.value.nonce == nonce
              && r.value.issuer == claims.value.iss && r.value.sub == claims.value.sub
              && Ok(r.value.aud) == JoinAudience(claims.value.aud) && !claims.value.aud.Unusable?
              && r.value.username == claims.value.email && !r.value.issued && !r.value.redeemed
              && AT !in r.value.displayName
              && (r.value.displayName == claims.value.email || r.value.displayName + [AT] <= claims.value.email)
  {
    hide JoinAudience;
    var claims := c.readSession(OrEmpty(pkt.payload));
    if claims.Some? {
      var parts := Split(claims.value.email, AT);
      assert parts[0] in parts;
    }
  }

  // ---------------------------------------------------------------------------
  // The store as a value
  // ---------------------------------------------------------------------------

  datatype Store = Store(states: map<Bytes, AuthState>, codes: map<Bytes, Bytes>)

  const EMPTY_STORE := Store(map[], map[])

  datatype Reason = DuplicateId | NoSuchId | AlreadyIssued | CodeCollision | InvalidCode | NotIssued | AlreadyRedeemed

  /** What a call returns; NilState is the dereference of a missing session. */
  datatype Result = Created(id: Bytes) | Issued(code: Bytes) | Redeemed(state: AuthState, sid: Bytes)
                  | Refused(reason: Reason) | NilState

  function Insert(store: Store, id: Bytes, state: AuthState): (Store, Result) {
    if id in store.states then (store, Refused(DuplicateId))
    else (store.(states := store.states[id := state]), Created(id))
  }

  function Issue(store: Store, id: Bytes, code: Bytes): (Store, Result) {
    if id !in store.states then (store, Refused(NoSuchId))
    else if store.states[id].issued then (store, Refused(AlreadyIssued))
    else if code in store.codes then (store, Refused(CodeCollision))
    else (Store(store.states[id := store.states[id].(issued := true)], store.codes[code := id]), Issued(code))
  }

  /** The part of a redemption under the state lock. */
  function RedeemSession(store: Store, id: Bytes): (Store, Result) {
    if id !in store.states then (store, NilState)
    else
      var state := store.states[id];
      if !state.issued then (store, Refused(NotIssued))
      else if state.redeemed then (store, Refused(AlreadyRedeemed))
      else
        var redeemed := state.(redeemed := true);
        (store.(states := store.states[id := redeemed]), Redeemed(redeemed, id))
  }

  function Redeem(store: Store, code: Bytes): (Store, Result) {
    if code !in store.codes then (store, Refused(InvalidCode)) else RedeemSession(store, store.codes[code])
  }

  /** When each call succeeds. */
  lemma Successes(store: Store, id: Bytes, code: Bytes, state: AuthState)
    ensures Insert(store, id, state).1.Created? <==> id !in store.states
    ensures Issue(store, id, code).1.Issued? <==>
              id in store.states && !store.states[id].issued && code !in store.codes
    ensures Redeem(store, code).1.Redeemed? <==>
              code in store.codes && store.codes[code] in store.states &&
              var s := store.states[store.codes[code]]; s.issued && !s.redeemed
  {}

  /** A call that does not succeed leaves the store as it is. */
  lemma RefusedUnchanged(store: Store, op: Op)
    ensures var (after, r) := Apply(store, op);
            r.Refused? || r.NilState? ==> after == store
  {}

  datatype Op = OpCreate(id: Bytes, state: AuthState) | OpIssue(sid: Bytes, code: Bytes) | OpRedeem(authcode: Bytes)

  function Apply(store: Store, op: Op): (Store, Result) {
    match op
    case OpCreate(id, state) => Insert(store, id, state)
    case OpIssue(id, code) => Issue(store, id, code)
    case OpRedeem(code) => Redeem(store, code)
  }

  // ---------------------------------------------------------------------------
  // What every call keeps
  // ---------------------------------------------------------------------------

  /** Redeemed implies issued; every code belongs to an issued session and every issued session has a code. */
  predicate FlagsAgree(store: Store) {
    && (forall id <- store.states :: store.states[id].redeemed ==> store.states[id].issued)
    && (forall code <- store.codes :: store.codes[code] in store.states && store.states[store.codes[code]].issued)
    && (forall id <- store.states :: store.states[id].issued ==> exists code <- store.codes :: store.codes[code] == id)
  }

  /** Distinct codes map to distinct sessions. */
  predicate CodesDistinct(store: Store) {
    forall code <- store.codes, other <- store.codes :: store.codes[code] == store.codes[other] ==> code == other
  }

  predicate Coherent(store: Store) {
    FlagsAgree(store) && CodesDistinct(store)
  }

  predicate NewSession(op: Op) {
    op.OpCreate? ==> !op.state.issued && !op.state.redeemed
  }

  lemma InsertKeeps(store: Store, id: Bytes, state: AuthState)
    requires Coherent(store) && !state.issued && !state.redeemed
    ensures Coherent(Insert(store, id, state).0)
  {}

  lemma IssueKeeps(store: Store, id: Bytes, code: Bytes)
    requires Coherent(store)
    ensures Coherent(Issue(store, id, code).0)
  {
    var after := Issue(store, id, code).0;
    if after != store {
      forall other <- after.states | after.states[other].issued
        ensures exists k <- after.codes :: after.codes[k] == other
      {
        if other == id {
          assert after.codes[code] == id;
        } else {
          var k :| k in store.codes && store.codes[k] == other;
          assert after.codes[k] == other;
        }
      }
    }
  }

  lemma RedeemKeeps(store: Store, code: Bytes)
    requires Coherent(store)
    ensures Coherent(Redeem(store, code).0)
    ensures !Redeem(store, code).1.NilState?
  {
    var after := Redeem(store, code).0;
    forall other <- after.states | after.states[other].issued
      ensures exists k <- after.codes :: after.codes[k] == other
    {
      assert store.states[other].issued;
      var k :| k in store.codes && store.codes[k] == other;
      assert after.codes[k] == other;
    }
  }

  /** Every call keeps the store coherent, and none dereferences a missing session. */
  lemma ApplyKeeps(store: Store, op: Op)
    requires Coherent(store) && NewSession(op)
    ensures Coherent(Apply(store, op).0)
    ensures !Apply(store, op).1.NilState?
  {
    hide Coherent;
    match op
    case OpCreate(id, state) => InsertKeeps(store, id, state);
    case OpIssue(id, code) => IssueKeeps(store, id, code);
    case OpRedeem(code) => RedeemKeeps(store, code);
  }

  // ---------------------------------------------------------------------------
  // The store as the source updates it
  // ---------------------------------------------------------------------------

  /** The locks are free between calls; a call that leaves one taken blocks every later call that needs it. */
  class AuthStateInMemoryStore {
    const authIdIssuer: AuthIdIssuer
    var authStateMap: map<Bytes, AuthState>
    var authCodeMap: map<Bytes, Bytes>
    var authStateMapLocked: bool
    var authcodeMapLocked: bool

    function Contents(): Store
      reads this
    {
      Store(authStateMap, authCodeMap)
    }

    predicate Unlocked()
      reads this
    {
      !authStateMapLocked && !authcodeMapLocked
    }

    constructor (mac: Mac)
      ensures Contents() == EMPTY_STORE && Unlocked()
      ensures fresh(authIdIssuer) && authIdIssuer.authIdIter == 0 && authIdIssuer.mac == mac
    {
      authIdIssuer := new AuthIdIssuer(mac);
      authStateMap, authCodeMap := map[], map[];
      authStateMapLocked, authcodeMapLocked := false, false;
    }

    /** The state lock stays taken exactly when the new ID is already in use. */
    method CreateNewAuthSession(c: Codec, pkt: Pkt, ruri: Bytes, nonce: Bytes, timeNow: Uint64)
      returns (r: Outcome<Result>)
      requires Unlocked()
      modifies this, authIdIssuer
      ensures var state := NewAuthState(c, pkt, ruri, nonce);
              if !state.Ok? then
                && r == (if state.Panic? then Panic else Error)
                && Contents() == old(Contents()) && Unlocked()
                && authIdIssuer.authIdIter == old(authIdIssuer.authIdIter)
              else
                var id := AuthId(authIdIssuer.mac, old(authIdIssuer.authIdIter), timeNow);
                && r.Ok? && (Contents(), r.value) == Insert(old(Contents()), id, state.value)
                && authIdIssuer.authIdIter == (old(authIdIssuer.authIdIter) + 1) % TWO_TO_THE_64
                && (authStateMapLocked <==> id in old(authStateMap)) && !authcodeMapLocked
    {
      var authState := NewAuthState(c, pkt, ruri, nonce);
      if authState.Panic? {
        return Panic;
      }
      if !authState.Ok? {
        return Error;
      }
      var authId := authIdIssuer.CreateAuthId(timeNow);
      authStateMapLocked := true;
      if authId in authStateMap {
        return Ok(Refused(DuplicateId));
      }
      authStateMap := authStateMap[authId := authState.value];
      authStateMapLocked := false;
      return Ok(Created(authId));
    }

    method CreateAuthcode(authId: Bytes, authcode: Bytes) returns (r: Result)
      requires Unlocked()
      modifies this
      ensures (Contents(), r) == Issue(old(Contents()), authId, authcode)
      ensures Unlocked()
    {
      authStateMapLocked := true;
      if authId !in authStateMap {
        authStateMapLocked := false;
        return Refused(NoSuchId);
      }
      var authState := authStateMap[authId];
      if authState.issued {
        authStateMapLocked := false;
        return Refused(AlreadyIssued);
      }
      authcodeMapLocked := true;
      if authcode in authCodeMap {
        authcodeMapLocked, authStateMapLocked := false, false;
        return Refused(CodeCollision);
      }
      authStateMap := authStateMap[authId := authState.(issued := true)];
      authCodeMap := authCodeMap[authcode := authId];
      authcodeMapLocked, authStateMapLocked := false, false;
      return Issued(authcode);
    }

    method RedeemAuthcode(authcode: Bytes) returns (r: Result)
      requires Unlocked()
      modifies this
      ensures (Contents(), r) == Redeem(old(Contents()), authcode)
      ensures Unlocked()
    {
      authcodeMapLocked := true;
      var authId := if authcode in authCodeMap then Some(authCodeMap[authcode]) else None;
      authcodeMapLocked := false;
      if authId.None? {
        return Refused(InvalidCode);
      }
      authStateMapLocked := true;
      if authId.value !in authStateMap {
        authStateMapLocked := false;
        return NilState;
      }
      var authState := authStateMap[authId.value];
      if !authState.issued {
        authStateMapLocked := false;
        return Refused(NotIssued);
      }
      if authState.redeemed {
        authStateMapLocked := false;
        return Refused(AlreadyRedeemed);
      }
      authStateMap := authStateMap[authId.value := authState.(redeemed := true)];
      authStateMapLocked := false;
      return Redeemed(authState.(redeemed := true), authId.value);
    }
  }
}
