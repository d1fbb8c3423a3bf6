/** The MFA cosigner and the client-side checks (cosigner/authcosigner.go, cosigner/cosigner.go, client/cos.go). */
module AuthCosigning {
  import opened Common
  import opened ByteStrings
  import opened Jose
  import opened PkTokens
  import opened PkInvariants
  import opened PkJson
  import opened Osm
  import opened AuthIds
  import opened AuthStore
  import opened StoreThreads
  import opened StoreRuns
  import opened Redemptions
  import Base64Url

  const SECOND := 1_000_000_000
  const TWO_MINUTES := 120 * SECOND
  const HOUR := 3600

  /** time.Now().Unix(), in seconds. */
  type Clock = x: int | -0x10_0000_0000_0000 < x < 0x10_0000_0000_0000

  datatype InitMfaAuth = InitMfaAuth(issuer: Bytes, redirectUri: Bytes, timeSigned: Int64, nonce: Bytes)

  datatype CosignerClaims = CosignerClaims(
    issuer: Bytes, keyId: Bytes, alg: string, authId: Bytes, authTime: Int64, issuedAt: Int64, expiration: Int64,
    redirectUri: Bytes, nonce: Bytes)

  /** JSON of the two messages; decoding null gives Some(None). */
  datatype Messages = Messages(
    encodeInit: InitMfaAuth -> Bytes,
    decodeInit: Bytes -> Option<Option<InitMfaAuth>>,
    encodeClaims: CosignerClaims -> Bytes,
    decodeClaims: Bytes -> Option<CosignerClaims>)

  datatype Env = Env(c: Codec, s: Scheme, j: Messages)

  /** Times that a JSON number read as a float64 keeps exactly. */
  predicate Exact(t: Int64) {
    -0x20_0000_0000_0000 < t < 0x20_0000_0000_0000
  }

  /** Claims of ASCII strings and exact times. */
  predicate Sendable(k: CosignerClaims) {
    && Ascii(k.issuer) && Ascii(k.keyId) && AsciiText(k.alg)
    && Ascii(k.authId) && Ascii(k.redirectUri) && Ascii(k.nonce)
    && Exact(k.authTime) && Exact(k.issuedAt) && Exact(k.expiration)
  }

  /** Messages of ASCII strings and exact times survive JSON. */
  ghost predicate SoundMessages(c: Codec, j: Messages) {
    && (forall m: InitMfaAuth :: Ascii(m.issuer) && Ascii(m.redirectUri) && Ascii(m.nonce) ==>
          j.decodeInit(j.encodeInit(m)) == Some(Some(m)))
    && (forall k: CosignerClaims :: Sendable(k) ==>
          && CarriesClaims(c.decodeObject(j.encodeClaims(k)), k)
          && c.decodeHeader(j.encodeClaims(k)).Some?
          && c.decodeHeader(j.encodeClaims(k)).value.typ == Some("COS")
          && j.decodeClaims(j.encodeClaims(k)) == Some(k))
  }

  predicate CarriesClaims(decoded: Option<map<string, Value>>, k: CosignerClaims) {
    && decoded.Some?
    && TextAt(decoded.value, "iss") == Some(k.issuer)
    && TextAt(decoded.value, "ruri") == Some(k.redirectUri)
    && TextAt(decoded.value, "nonce") == Some(k.nonce)
  }

  function TextAt(claims: map<string, Value>, name: string): Option<Bytes> {
    if name in claims && claims[name].Text? then Some(claims[name].text) else None
  }

  // ---------------------------------------------------------------------------
  // The cosigner
  // ---------------------------------------------------------------------------

  datatype Config = Config(issuer: Bytes, keyId: Bytes, alg: string, signer: Signer)

  predicate AsciiConfig(config: Config) {
    Ascii(config.issuer) && Ascii(config.keyId) && AsciiText(config.alg)
  }

  /** The clock, in nanoseconds, is within two minutes of the time signed, in seconds. */
  predicate Recent(timeSigned: Int64, now: int) {
    now - timeSigned * SECOND <= TWO_MINUTES && timeSigned * SECOND - now <= TWO_MINUTES
  }

  /** The checks of InitAuth before it touches the store: the message, verified under the PK Token. */
  function CheckedInit(env: Env, config: Config, pkt: Pkt, sig: Bytes, now: int): (r: Outcome<InitMfaAuth>)
    ensures r.Ok? ==> r.value.issuer == config.issuer && Recent(r.value.timeSigned, now)
  {
    var msg := VerifySignedMessage(env.c, env.s, pkt, sig);
    if !msg.Ok? then if msg.Panic? then Panic else Error
    else
      match env.j.decodeInit(msg.value)
      case None => Error
      case Some(None) => Panic
      case Some(Some(init)) =>
        if init.issuer != config.issuer then Error
        else if now - init.timeSigned * SECOND > TWO_MINUTES then Error
        else if init.timeSigned * SECOND - now > TWO_MINUTES then Error
        else Ok(init)
  }

  function ClaimsOf(config: Config, state: AuthState, authId: Bytes, now: Clock): CosignerClaims {
    CosignerClaims(config.issuer, config.keyId, config.alg, authId, now, now, now + HOUR,
                   state.redirectUri, state.nonce)
  }

  /** IssueSignature: the claims signed over the payload of the PK Token. */
  function Cosignature(env: Env, config: Config, state: AuthState, authId: Bytes, now: Clock): Bytes {
    var protected := Base64Url.Encode(env.j.encodeClaims(ClaimsOf(config, state, authId, now)));
    var payload := Base64Url.Encode(OrEmpty(state.pkt.payload));
    Jwt(protected, payload, Base64Url.Encode(env.s.sign(config.signer, SigningInput(protected, payload))))
  }

  /** What RedeemAuthcode returns once the store has answered. */
  function Answered(env: Env, config: Config, sig: Bytes, result: Result, now: Clock): Outcome<Bytes> {
    match result
    case Redeemed(state, authId) =>
      var verified := VerifySignedMessage(env.c, env.s, state.pkt, sig);
      if verified.Ok? then Ok(Cosignature(env, config, state, authId, now))
      else if verified.Panic? then Panic else Error
    case NilState => Panic
    case _ => Error
  }

  class AuthCosigner {
    const config: Config
    const authStateStore: AuthStateInMemoryStore

    constructor (config: Config, store: AuthStateInMemoryStore)
      ensures this.config == config && authStateStore == store
    {
      this.config, authStateStore := config, store;
    }

    method InitAuth(env: Env, pkt: Pkt, sig: Bytes, now: int, timeNow: Uint64) returns (r: Outcome<Bytes>)
      requires authStateStore.Unlocked()
      modifies authStateStore, authStateStore.authIdIssuer
      ensures var init := CheckedInit(env, config, pkt, sig, now);
              if !init.Ok? then
                !r.Ok? && authStateStore.Contents() == old(authStateStore.Contents()) && authStateStore.Unlocked()
              else
                var state := NewAuthState(env.c, pkt, init.value.redirectUri, init.value.nonce);
                if !state.Ok? then !r.Ok? && authStateStore.Contents() == old(authStateStore.Contents())
                else
                  var ids := authStateStore.authIdIssuer;
                  var id := AuthId(ids.mac, old(ids.authIdIter), timeNow);
                  && authStateStore.Contents() == Insert(old(authStateStore.Contents()), id, state.value).0
                  && (r == Ok(id) <==> id !in old(authStateStore.authStateMap))
                  && (authStateStore.Unlocked() <==> r.Ok?)
    {
      var msg := VerifySignedMessage(env.c, env.s, pkt, sig);
      if !msg.Ok? {
        return if msg.Panic? then Panic else Error;
      }
      var parsed := env.j.decodeInit(msg.value);
      if parsed.None? {
        return Error;
      }
      if parsed.value.None? {
        return Panic;
      }
      var init := parsed.value.value;
      if init.issuer != config.issuer {
        return Error;
      } else if now - init.timeSigned * SECOND > TWO_MINUTES {
        return Error;
      } else if init.timeSigned * SECOND - now > TWO_MINUTES {
        return Error;
      }
      var created := authStateStore.CreateNewAuthSession(env.c, pkt, init.redirectUri, init.nonce, timeNow);
      if created.Panic? {
        return Panic;
      }
      if !created.Ok? || !created.value.Created? {
        return Error;
      }
      return Ok(created.value.id);
    }

    method NewAuthcode(authId: Bytes, authcode: Bytes) returns (r: Outcome<Bytes>)
      requires authStateStore.Unlocked()
      modifies authStateStore
      ensures authStateStore.Contents() == Issue(old(authStateStore.Contents()), authId, authcode).0
      ensures r == Ok(authcode) <==> Issue(old(authStateStore.Contents()), authId, authcode).1.Issued?
      ensures authStateStore.Unlocked()
    {
      var issued := authStateStore.CreateAuthcode(authId, authcode);
      if issued.Issued? {
        return Ok(issued.code);
      }
      return Error;
    }

    /** The code is spent before the signature is checked. */
    method RedeemAuthcode(env: Env, sig: Bytes, now: Clock) returns (r: Outcome<Bytes>)
      requires authStateStore.Unlocked()
      modifies authStateStore
      ensures authStateStore.Unlocked()
      ensures var msg := Parse(env.c, sig);
              if msg.None? then r == Error && authStateStore.Contents() == old(authStateStore.Contents())
              else
                var (store, result) := Redeem(old(authStateStore.Contents()), msg.value.payload);
                authStateStore.Contents() == store && r == Answered(env, config, sig, result, now)
    {
      var msg := Parse(env.c, sig);
      if msg.None? {
        return Error;
      }
      var redeemed := authStateStore.RedeemAuthcode(msg.value.payload);
      if redeemed.NilState? {
        return Panic;
      }
      if !redeemed.Redeemed? {
        return Error;
      }
      var verified := VerifySignedMessage(env.c, env.s, redeemed.state.pkt, sig);
      if verified.Panic? {
        return Panic;
      }
      if !verified.Ok? {
        return Error;
      }
      return Ok(Cosignature(env, config, redeemed.state, redeemed.sid, now));
    }
  }

  // ---------------------------------------------------------------------------
  // Concurrent requests
  // ---------------------------------------------------------------------------

  datatype Request = InitAuth(pkt: Pkt, sig: Bytes, now: int, timeNow: Uint64)
                   | NewAuthcode(authId: Bytes, authcode: Bytes)
                   | RedeemAuthcode(sig2: Bytes, at: Clock)

  /** The store call a request makes, unless it fails before. */
  function CallOf(env: Env, config: Config, request: Request): Option<Call> {
    match request
    case InitAuth(pkt, sig, now, timeNow) =>
      var init := CheckedInit(env, config, pkt, sig, now);
      if !init.Ok? then None
      else
        var state := NewAuthState(env.c, pkt, init.value.redirectUri, init.value.nonce);
        if !state.Ok? then None else Some(CallCreate(state.value, timeNow))
    case NewAuthcode(authId, authcode) => Some(CallIssue(authId, authcode))
    case RedeemAuthcode(sig, _) =>
      var msg := Parse(env.c, sig);
      if msg.None? then None else Some(CallRedeem(msg.value.payload))
  }

  /** Every call in the store belongs to a request. */
  predicate Serves(env: Env, config: Config, m: Machine, requests: map<Tid, Request>) {
    forall u <- m.threads :: u in requests && CallOf(env, config, requests[u]) == Some(m.threads[u].call)
  }

  predicate RedeemedBy(m: Machine, u: Tid) {
    u in m.threads && m.threads[u].local.Done? && m.threads[u].local.result.Redeemed?
  }

  /** The response to a finished redemption. */
  function Response(env: Env, config: Config, m: Machine, requests: map<Tid, Request>, u: Tid): Outcome<Bytes>
    requires Serves(env, config, m, requests) && u in m.threads && m.threads[u].local.Done?
  {
    var request := requests[u];
    if !request.RedeemAuthcode? then Error
    else Answered(env, config, request.sig2, m.threads[u].local.result, request.at)
  }

  /** Over every run, two redemptions that get past the store name different codes and different sessions, whether or
      not the signature check after it succeeds; so a code and a session yield at most one cosignature. */
  lemma AtMostOneCosignature(env: Env, config: Config, mac: Mac, m: Machine, actions: seq<Action>,
                             requests: map<Tid, Request>, u: Tid, w: Tid)
    requires Reached(mac, m, actions) && Serves(env, config, m, requests)
    requires RedeemedBy(m, u) && RedeemedBy(m, w) && u != w
    ensures m.threads[u].local.result.sid != m.threads[w].local.result.sid
    ensures m.threads[u].call.CallRedeem? && m.threads[w].call.CallRedeem?
            && m.threads[u].call.authcode != m.threads[w].call.authcode
  {
    hide Reached, Legal, Replay, Serves;
    Linearizable(mac, m, actions, u);
    Linearizable(mac, m, actions, w);
    if m.point[u] < m.point[w] {
      RedeemedOnce(m.history, m.point[u], m.point[w]);
    } else {
      RedeemedOnce(m.history, m.point[w], m.point[u]);
    }
  }

  /** Only a redemption that got past the store and whose signature verified is answered with a cosignature. */
  lemma CosignedMeans(env: Env, config: Config, m: Machine, requests: map<Tid, Request>, u: Tid)
    requires Serves(env, config, m, requests) && u in m.threads && m.threads[u].local.Done?
    requires Response(env, config, m, requests, u).Ok?
    ensures RedeemedBy(m, u) && requests[u].RedeemAuthcode?
    ensures var result := m.threads[u].local.result;
            && Response(env, config, m, requests, u).value
               == Cosignature(env, config, result.state, result.sid, requests[u].at)
            && m.threads[u].call.CallRedeem?
            && SignedUnder(env.c, env.s, result.state.pkt, requests[u].sig2, m.threads[u].call.authcode)
  {
    hide VerifySignedMessage, Cosignature, SignedUnder, Parse;
    RedeemAnswered(env, config, requests[u], m.threads[u].local.result);
  }

  lemma RedeemAnswered(env: Env, config: Config, request: Request, result: Result)
    requires request.RedeemAuthcode? && CallOf(env, config, request).Some?
    requires Answered(env, config, request.sig2, result, request.at).Ok?
    ensures result.Redeemed?
    ensures var call := CallOf(env, config, request).value;
            call.CallRedeem? && SignedUnder(env.c, env.s, result.state.pkt, request.sig2, call.authcode)
  {
    hide Cosignature, SignedUnder, Parse, VerifySignedMessage;
    var content := VerifySignedMessage(env.c, env.s, result.state.pkt, request.sig2).value;
    SignedMessageExactly(env.c, env.s, result.state.pkt, request.sig2, content);
    SignedContent(env.c, env.s, result.state.pkt, request.sig2, content);
  }

  lemma SignedContent(c: Codec, s: Scheme, p: Pkt, osm: Bytes, content: Bytes)
    requires SignedUnder(c, s, p, osm, content)
    ensures Parse(c, osm).Some? && Parse(c, osm).value.payload == content
  {
    hide Parse, Marshalled;
  }

  /** The first message: signed under the PK Token it came with, for this cosigner and at about this time. */
  predicate FirstMessageIs(env: Env, config: Config, request: Request, content: Bytes, init: InitMfaAuth)
    requires request.InitAuth?
  {
    && SignedUnder(env.c, env.s, request.pkt, request.sig, content)
    && env.j.decodeInit(content) == Some(Some(init))
    && init.issuer == config.issuer
    && -120_000_000_000 <= request.now - init.timeSigned * 1_000_000_000 <= 120_000_000_000
  }

  /** The session as the message of its InitAuth request made it. */
  ghost predicate Initiates(env: Env, config: Config, request: Request, state: AuthState) {
    && request.InitAuth? && state.pkt == request.pkt
    && exists content, init :: FirstMessageIs(env, config, request, content, init)
                            && state.redirectUri == init.redirectUri && state.nonce == init.nonce
  }

  lemma CreateInitiates(env: Env, config: Config, request: Request, initial: AuthState, state: AuthState)
    requires CallOf(env, config, request).Some? && CallOf(env, config, request).value.CallCreate?
    requires CallOf(env, config, request).value.state == initial && SameSession(initial, state)
    ensures Initiates(env, config, request, state)
  {
    hide CheckedInit, FirstMessageIs;
    if request.InitAuth? {
      CheckedExactly(env, config, request, CheckedInit(env, config, request.pkt, request.sig, request.now).value);
    }
  }

  /** The first message is accepted, and read as init, exactly if it is that. */
  lemma CheckedExactly(env: Env, config: Config, request: Request, init: InitMfaAuth)
    requires request.InitAuth?
    ensures CheckedInit(env, config, request.pkt, request.sig, request.now) == Ok(init)
       <==> exists content :: FirstMessageIs(env, config, request, content, init)
  {
    hide VerifySignedMessage, SignedUnder;
    var msg := VerifySignedMessage(env.c, env.s, request.pkt, request.sig);
    if msg.Ok? {
      SignedMessageExactly(env.c, env.s, request.pkt, request.sig, msg.value);
      assert CheckedInit(env, config, request.pkt, request.sig, request.now) == Ok(init) ==>
          FirstMessageIs(env, config, request, msg.value, init);
    }
    forall content | FirstMessageIs(env, config, request, content, init)
      ensures msg == Ok(content)
    {
      SignedMessageExactly(env.c, env.s, request.pkt, request.sig, content);
    }
  }

  lemma InitiatesMeans(env: Env, config: Config, request: Request, state: AuthState)
    requires Initiates(env, config, request, state)
    ensures request.InitAuth? && state.pkt == request.pkt
    ensures var r := CheckedInit(env, config, request.pkt, request.sig, request.now);
            r.Ok? && state.redirectUri == r.value.redirectUri && state.nonce == r.value.nonce
  {
    hide CheckedInit, FirstMessageIs;
    var content, init :| FirstMessageIs(env, config, request, content, init)
                      && state.redirectUri == init.redirectUri && state.nonce == init.nonce;
    CheckedExactly(env, config, request, init);
  }

  /** Every redeemed session, hence every cosignature, carries the PK Token, redirect URI and nonce of the one InitAuth
      that created it, whose signed message named this cosigner and was recent when it came in. */
  lemma CosignatureProvenance(env: Env, config: Config, mac: Mac, m: Machine, actions: seq<Action>,
                              requests: map<Tid, Request>, u: Tid) returns (i: Tid)
    requires Reached(mac, m, actions) && Serves(env, config, m, requests) && RedeemedBy(m, u)
    ensures i in m.threads && i in requests && Initiates(env, config, requests[i], m.threads[u].local.result.state)
    ensures i in m.point && m.point[i] < |m.history|
            && m.history[m.point[i]].result == Created(m.threads[u].local.result.sid)
    ensures u in m.point && m.point[i] < m.point[u]
  {
    hide Reached, Legal, Replay, CallOf, Initiates, LocksOk, LocalsOk, IdsStored, SameSession;
    Linearizable(mac, m, actions, u);
    var at, issued := RedeemedProvenance(m.history, m.point[u]);
    i := m.history[at].tid;
    ReachedInv(mac, m, actions);
    assert EventOk(m, i);
    CreateInitiates(env, config, requests[i], m.history[at].op.state, m.threads[u].local.result.state);
  }

  /** The client of a session signed its first message and its code, both for the hash of the session's PK Token. */
  ghost predicate ClientTookPart(env: Env, config: Config, signed: (Signer, Bytes) -> bool, signer: Signer,
                                 state: AuthState, code: Bytes) {
    && Marshalled(state.pkt).Ok?
    && var hash := env.s.digest(Marshalled(state.pkt).value);
    && SignedFor(env.c, signed, signer, hash, code)
    && exists content :: SignedFor(env.c, signed, signer, hash, content)
                      && AsksFor(env.j.decodeInit(content), config, state)
  }

  /** A message that asks this cosigner for a session with this redirect URI and nonce. */
  predicate AsksFor(message: Option<Option<InitMfaAuth>>, config: Config, state: AuthState) {
    message.Some? && message.value.Some? &&
    var init := message.value.value;
    init.issuer == config.issuer && init.redirectUri == state.redirectUri && init.nonce == state.nonce
  }

  /** Over every run, where nothing verifies but what was signed, the holder of the client key signed both the message
      that opened a cosigned session, which named this cosigner, the redirect URI and the nonce, and the code that was
      redeemed for it. */
  lemma CosignedByClient(env: Env, config: Config, mac: Mac, m: Machine, actions: seq<Action>,
                         requests: map<Tid, Request>, u: Tid, signed: (Signer, Bytes) -> bool, signer: Signer)
    requires Reached(mac, m, actions) && Serves(env, config, m, requests)
    requires u in m.threads && m.threads[u].local.Done? && Response(env, config, m, requests, u).Ok?
    requires OnlySigned(env.s, signed)
    ensures RedeemedBy(m, u) && m.threads[u].call.CallRedeem?
    ensures var state := m.threads[u].local.result.state;
            && state.pkt.cic.Some?
            && (env.s.clientKey(state.pkt.cic.value.header) == Some(env.s.publicKey(signer)) ==>
                  ClientTookPart(env, config, signed, signer, state, m.threads[u].call.authcode))
  {
    hide Reached, Response, SignedUnder, OnlySigned, ClientTookPart, CallOf, Initiates;
    CosignedMeans(env, config, m, requests, u);
    var i := CosignatureProvenance(env, config, mac, m, actions, requests, u);
    BothSigned(env, config, requests[i], requests[u].sig2, m.threads[u].local.result.state,
               m.threads[u].call.authcode, signed, signer);
  }

  lemma BothSigned(env: Env, config: Config, request: Request, sig2: Bytes, state: AuthState, code: Bytes,
                   signed: (Signer, Bytes) -> bool, signer: Signer)
    requires Initiates(env, config, request, state) && SignedUnder(env.c, env.s, state.pkt, sig2, code)
    requires OnlySigned(env.s, signed)
    ensures state.pkt.cic.Some?
    ensures env.s.clientKey(state.pkt.cic.value.header) == Some(env.s.publicKey(signer)) ==>
              ClientTookPart(env, config, signed, signer, state, code)
  {
    hide SignedUnder, OnlySigned, SignedFor, Marshalled;
    UnderHasClient(env.c, env.s, state.pkt, sig2, code);
    if env.s.clientKey(state.pkt.cic.value.header) == Some(env.s.publicKey(signer)) {
      AcceptedWasSigned(env.c, env.s, signed, state.pkt, sig2, code, signer);
      var content, init :| FirstMessageIs(env, config, request, content, init)
                        && state.redirectUri == init.redirectUri && state.nonce == init.nonce;
      AcceptedWasSigned(env.c, env.s, signed, state.pkt, request.sig, content, signer);
    }
  }

  lemma UnderHasClient(c: Codec, s: Scheme, p: Pkt, osm: Bytes, content: Bytes)
    requires SignedUnder(c, s, p, osm, content)
    ensures p.cic.Some?
  {
    hide Parse, Marshalled, VerifiesToken;
  }

  lemma StoredIdAscii(mac: Mac, m: Machine, id: Bytes)
    requires IdsStored(mac, m) && id in m.store.states
    ensures Ascii(id)
  {
    hide Ascii, AuthId;
    var n :| 0 <= n < |m.times| && id == Id(mac, m.times, n);
    AuthIdAscii(mac, n, m.times[n]);
  }

  /** Session IDs are outputs of the keyed hash, hence text. */
  lemma SessionIdAscii(mac: Mac, m: Machine, actions: seq<Action>, u: Tid)
    requires Reached(mac, m, actions) && RedeemedBy(m, u)
    ensures Ascii(m.threads[u].local.result.sid)
  {
    hide Reached, Replay, Apply, LocksOk, LocalsOk, IdsStored, Ascii, HistoryOk;
    Linearizable(mac, m, actions, u);
    var k := m.point[u];
    RedeemedMeans(At(m.history, k), m.history[k].op);
    HistoryGrows(m.history, k, |m.history|);
    assert m.history[..|m.history|] == m.history;
    ReachedInv(mac, m, actions);
    StoredIdAscii(mac, m, m.threads[u].local.result.sid);
  }

  // ---------------------------------------------------------------------------
  // The client
  // ---------------------------------------------------------------------------

  predicate HasSuffix(s: Bytes, suffix: Bytes) {
    |suffix| <= |s| && s[|s| - |suffix|..] == suffix
  }

  /** CreateInitAuthSig: the message for a redirect URI that ends in the callback path. */
  function InitMessage(issuer: Bytes, callbackPath: Bytes, redirectUri: Bytes, nonce: Bytes, now: Int64)
    : Option<InitMfaAuth>
  {
    if !HasSuffix(redirectUri, callbackPath) then None
    else Some(InitMfaAuth(issuer, redirectUri, now, nonce))
  }

  /** The client sends its message exactly for a redirect URI that ends in its callback path. */
  lemma InitMessageExactly(issuer: Bytes, callbackPath: Bytes, redirectUri: Bytes, nonce: Bytes, now: Int64,
                           prefix: Bytes)
    ensures redirectUri == prefix + callbackPath ==>
              InitMessage(issuer, callbackPath, redirectUri, nonce, now)
              == Some(InitMfaAuth(issuer, redirectUri, now, nonce))
    ensures (forall start: Bytes :: redirectUri != start + callbackPath) ==>
              InitMessage(issuer, callbackPath, redirectUri, nonce, now) == None
  {
    if HasSuffix(redirectUri, callbackPath) {
      assert redirectUri == redirectUri[..|redirectUri| - |callbackPath|] + callbackPath;
    }
  }

  predicate ValidateCos(c: Codec, issuer: Bytes, cosSig: Bytes, expectedNonce: Bytes, expectedRedirectUri: Bytes) {
    Parse(c, cosSig).Some? &&
    var headerJson := c.jwxDecode(SplitCompact(cosSig).value.protected);
    headerJson.Some? &&
    var ph := c.decodeObject(headerJson.value);
    && ph.Some?
    && TextAt(ph.value, "nonce") == Some(expectedNonce)
    && TextAt(ph.value, "ruri") == Some(expectedRedirectUri)
    && TextAt(ph.value, "iss") == Some(issuer)
  }

  /** A client accepts exactly the tokens that parse and whose header object has the three texts it expects. */
  lemma ValidateCosExactly(c: Codec, issuer: Bytes, cosSig: Bytes, nonce: Bytes, redirectUri: Bytes)
    ensures ValidateCos(c, issuer, cosSig, nonce, redirectUri)
       <==> Parse(c, cosSig).Some? &&
            var json := c.jwxDecode(SplitCompact(cosSig).value.protected);
            json.Some? && ShowsTexts(c.decodeObject(json.value), issuer, nonce, redirectUri)
  {
    hide Parse, SplitCompact;
  }

  predicate ShowsTexts(claims: Option<map<string, Value>>, issuer: Bytes, nonce: Bytes, redirectUri: Bytes) {
    && claims.Some?
    && "iss" in claims.value && claims.value["iss"] == Text(issuer)
    && "nonce" in claims.value && claims.value["nonce"] == Text(nonce)
    && "ruri" in claims.value && claims.value["ruri"] == Text(redirectUri)
  }

  /** A cosignature parses back to its claims over the payload of its PK Token. */
  lemma CosignatureParses(env: Env, config: Config, state: AuthState, authId: Bytes, issuedAt: Clock)
    requires SoundBase64(env.c) && SoundMessages(env.c, env.j)
    requires AsciiConfig(config) && Ascii(authId) && Ascii(state.redirectUri) && Ascii(state.nonce)
    ensures var claims := ClaimsOf(config, state, authId, issuedAt);
            var token := Cosignature(env, config, state, authId, issuedAt);
            var m := Parse(env.c, token);
            && m.Some? && m.value.header.typ == Some("COS") && m.value.payload == OrEmpty(state.pkt.payload)
            && env.c.jwxDecode(SplitCompact(token).value.protected) == Some(env.j.encodeClaims(claims))
            && env.j.decodeClaims(env.j.encodeClaims(claims)) == Some(claims)
            && var segs := SplitCompact(token).value;
               m.value.signature == env.s.sign(config.signer, SigningInput(segs.protected, segs.payload))
  {
    hide Base64Url.Encode, SplitCompact, Jwt, Parse, SigningInput, Ascii, AsciiText, Base64Url.Decode;
    var claims := ClaimsOf(config, state, authId, issuedAt);
    var headerJson := env.j.encodeClaims(claims);
    assert Sendable(claims);
    var protected, payload := Base64Url.Encode(headerJson), Base64Url.Encode(OrEmpty(state.pkt.payload));
    var signature := env.s.sign(config.signer, SigningInput(protected, payload));
    ParseEncoded(env.c, headerJson, OrEmpty(state.pkt.payload), signature);
    Base64Url.DecodeEncode(headerJson);
  }

  /** The claims and the payload that a cosignature shows to whoever parses it. */
  predicate Shows(env: Env, token: Bytes, claims: CosignerClaims, payload: Bytes) {
    var m := Parse(env.c, token);
    && m.Some? && m.value.payload == payload
    && var headerJson := env.c.jwxDecode(SplitCompact(token).value.protected);
       headerJson.Some? && env.j.decodeClaims(headerJson.value) == Some(claims)
  }

  /** Over every run, each cosignature shows the session ID it was redeemed for, with the redirect URI, the nonce and
      the payload of the request that opened that session. */
  lemma CosignatureShowsSession(env: Env, config: Config, mac: Mac, m: Machine, actions: seq<Action>,
                                requests: map<Tid, Request>, u: Tid)
    returns (i: Tid, init: InitMfaAuth, claims: CosignerClaims)
    requires SoundBase64(env.c) && SoundMessages(env.c, env.j)
    requires Reached(mac, m, actions) && Serves(env, config, m, requests)
    requires u in m.threads && m.threads[u].local.Done? && Response(env, config, m, requests, u).Ok? && RedeemedBy(m, u)
    requires var state := m.threads[u].local.result.state;
             AsciiConfig(config) && Ascii(state.redirectUri) && Ascii(state.nonce)
    ensures i in m.threads && i in requests && requests[i].InitAuth?
    ensures CheckedInit(env, config, requests[i].pkt, requests[i].sig, requests[i].now) == Ok(init)
    ensures i in m.point && m.point[i] < |m.history|
            && m.history[m.point[i]].result == Created(m.threads[u].local.result.sid)
    ensures Shows(env, Response(env, config, m, requests, u).value, claims, OrEmpty(requests[i].pkt.payload))
    ensures claims.authId == m.threads[u].local.result.sid && claims.issuer == config.issuer
    ensures claims.redirectUri == init.redirectUri && claims.nonce == init.nonce
    ensures requests[u].RedeemAuthcode? && claims.expiration == requests[u].at + 3600
  {
    hide Reached, SoundBase64, SoundMessages, Ascii, CallOf, CheckedInit, Initiates, Response, Cosignature, Parse,
         SplitCompact, SignedUnder;
    CosignedMeans(env, config, m, requests, u);
    i := CosignatureProvenance(env, config, mac, m, actions, requests, u);
    InitiatesMeans(env, config, requests[i], m.threads[u].local.result.state);
    init := CheckedInit(env, config, requests[i].pkt, requests[i].sig, requests[i].now).value;
    var result := m.threads[u].local.result;
    claims := ClaimsOf(config, result.state, result.sid, requests[u].at);
    SessionIdAscii(mac, m, actions, u);
    CosignatureParses(env, config, result.state, result.sid, requests[u].at);
  }

  /** A client accepts a cosignature if and only if nonce, redirect URI and issuer are the expected ones. */
  lemma ValidateExact(env: Env, config: Config, state: AuthState, authId: Bytes, now: Clock,
                      issuer: Bytes, nonce: Bytes, redirectUri: Bytes)
    requires SoundBase64(env.c) && SoundMessages(env.c, env.j)
    requires AsciiConfig(config) && Ascii(authId) && Ascii(state.redirectUri) && Ascii(state.nonce)
    ensures ValidateCos(env.c, issuer, Cosignature(env, config, state, authId, now), nonce, redirectUri)
       <==> nonce == state.nonce && redirectUri == state.redirectUri && issuer == config.issuer
  {
    hide Base64Url.Encode, SplitCompact, Jwt, Parse, SigningInput, Ascii, AsciiText, Base64Url.Decode;
    var claims := ClaimsOf(config, state, authId, now);
    var headerJson := env.j.encodeClaims(claims);
    assert Sendable(claims);
    assert CarriesClaims(env.c.decodeObject(headerJson), claims) && env.c.decodeHeader(headerJson).Some?;
    var protected, payload := Base64Url.Encode(headerJson), Base64Url.Encode(OrEmpty(state.pkt.payload));
    var signature := env.s.sign(config.signer, SigningInput(protected, payload));
    ParseEncoded(env.c, headerJson, OrEmpty(state.pkt.payload), signature);
    Base64Url.DecodeEncode(headerJson);
  }

  /** A cosigner that received the client's JSON accepts the client's first message while it is recent. */
  lemma HonestInitAccepted(env: Env, config: Config, p: Pkt, signer: Signer, issuer: Bytes, callbackPath: Bytes,
                           redirectUri: Bytes, nonce: Bytes, signedAt: Int64, init: InitMfaAuth, now: int)
    requires SoundBase64(env.c) && SoundScheme(env.c, env.s) && SoundMessages(env.c, env.j)
    requires Complete(env.c, p) && Canonical(p) && JsonTyp(p.op.value.header)
    requires env.s.clientKey(p.cic.value.header) == Some(env.s.publicKey(signer))
    requires InitMessage(issuer, callbackPath, redirectUri, nonce, signedAt) == Some(init)
    requires Ascii(issuer) && Ascii(redirectUri) && Ascii(nonce)
    ensures NewSignedMessage(env.c, env.s, p, env.j.encodeInit(init), signer).Ok?
    ensures var sig := NewSignedMessage(env.c, env.s, p, env.j.encodeInit(init), signer).value;
            var accepted := issuer == config.issuer && Recent(signedAt, now);
            CheckedInit(env, config, Carried(p), sig, now) == if accepted then Ok(init) else Error
  {
    hide SoundBase64, SoundScheme, Consistent, Canonical, JsonTyp, NewSignedMessage, VerifySignedMessage, Ascii,
         Carried;
    ParsedTokenAccepts(env.c, env.s, p, env.j.encodeInit(init), signer);
    assert env.j.decodeInit(env.j.encodeInit(init)) == Some(Some(init));
  }

  /** A session has one opener. */
  lemma SameOpener(mac: Mac, m: Machine, actions: seq<Action>, i: Tid, opener: Tid)
    requires Reached(mac, m, actions)
    requires i in m.threads && m.threads[i].local.Done? && m.threads[i].local.result.Created?
    requires opener in m.threads && opener in m.point && m.point[opener] < |m.history|
    requires m.history[m.point[opener]].result == m.threads[i].local.result
    ensures opener == i
  {
    hide Reached, Legal, Replay, LocksOk, LocalsOk, IdsStored;
    Linearizable(mac, m, actions, i);
    ReachedInv(mac, m, actions);
    assert EventOk(m, opener);
    if m.point[i] < m.point[opener] {
      CreatedOnce(m.history, m.point[i], m.point[opener]);
    } else if m.point[opener] < m.point[i] {
      CreatedOnce(m.history, m.point[opener], m.point[i]);
    }
  }

  /** The redeemed session was opened by the request that created it. */
  lemma OpenedBy(env: Env, config: Config, mac: Mac, m: Machine, actions: seq<Action>,
                 requests: map<Tid, Request>, i: Tid, u: Tid)
    requires Reached(mac, m, actions) && Serves(env, config, m, requests) && RedeemedBy(m, u)
    requires i in m.threads && m.threads[i].local.Done?
    requires m.threads[i].local.result == Created(m.threads[u].local.result.sid)
    ensures Initiates(env, config, requests[i], m.threads[u].local.result.state)
  {
    hide Reached, CallOf, Initiates;
    var opener := CosignatureProvenance(env, config, mac, m, actions, requests, u);
    SameOpener(mac, m, actions, i, opener);
  }

  /** The cosignature over the session a client opened passes that client's checks, over every run. */
  lemma HonestClientAccepts(env: Env, config: Config, mac: Mac, m: Machine, actions: seq<Action>,
                            requests: map<Tid, Request>, i: Tid, u: Tid, init: InitMfaAuth)
    requires SoundBase64(env.c) && SoundMessages(env.c, env.j)
    requires Reached(mac, m, actions) && Serves(env, config, m, requests)
    requires i in m.threads && m.threads[i].local.Done?
    requires requests[i].InitAuth?
    requires CheckedInit(env, config, requests[i].pkt, requests[i].sig, requests[i].now) == Ok(init)
    requires u in m.threads && m.threads[u].local.Done? && Response(env, config, m, requests, u).Ok?
    requires RedeemedBy(m, u) && m.threads[i].local.result == Created(m.threads[u].local.result.sid)
    requires AsciiConfig(config) && Ascii(init.redirectUri) && Ascii(init.nonce)
    ensures ValidateCos(env.c, init.issuer, Response(env, config, m, requests, u).value, init.nonce, init.redirectUri)
  {
    hide Reached, SoundBase64, SoundMessages, Ascii, CallOf, CheckedInit, Initiates, Response, ValidateCos, Cosignature,
         SignedUnder;
    CosignedMeans(env, config, m, requests, u);
    OpenedBy(env, config, mac, m, actions, requests, i, u);
    InitiatesMeans(env, config, requests[i], m.threads[u].local.result.state);
    var result := m.threads[u].local.result;
    SessionIdAscii(mac, m, actions, u);
    ValidateExact(env, config, result.state, result.sid, requests[u].at, init.issuer, init.nonce, init.redirectUri);
  }
}
