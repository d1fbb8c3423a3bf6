/** The pieces put together: a client's session with the cosigner up to the verified PK Token, and GQ signing of the ID
    Token inside a PK Token. */
module EndToEnd {
  import opened Common
  import opened ByteStrings
  import opened Jose
  import opened PkTokens
  import opened PkInvariants
  import opened PkJson
  import opened Osm
  import opened AuthIds
  import opened AuthStore
  import opened StoreThreads
  import opened StoreRuns
  import opened AuthCosigning
  import opened Verification
  import Base64Url
  import Oidc
  import GqTokens
  import Providers
  import GqVerdicts

  // ---------------------------------------------------------------------------
  // A client's session with the cosigner
  // ---------------------------------------------------------------------------

  ghost predicate SoundWorld(env: Env) {
    SoundBase64(env.c) && SoundScheme(env.c, env.s) && SoundMessages(env.c, env.j)
  }

  /** What a client brings to a session: its token and key, and the fields of its first message. */
  datatype Client = Client(
    p: Pkt, signer: Signer, callbackPath: Bytes, redirectUri: Bytes, nonce: Bytes, signedAt: Int64)

  function FirstMessage(config: Config, k: Client): InitMfaAuth {
    InitMfaAuth(config.issuer, k.redirectUri, k.signedAt, k.nonce)
  }

  /** The message for this cosigner, signed under the client's own token. */
  function FirstSignature(env: Env, config: Config, k: Client): Outcome<Bytes> {
    NewSignedMessage(env.c, env.s, k.p, env.j.encodeInit(FirstMessage(config, k)), k.signer)
  }

  /** A complete canonical token with the key the client signs with, and text throughout. */
  predicate Honest(env: Env, config: Config, k: Client) {
    && Complete(env.c, k.p) && Canonical(k.p) && JsonTyp(k.p.op.value.header)
    && env.s.clientKey(k.p.cic.value.header) == Some(env.s.publicKey(k.signer))
    && HasSuffix(k.redirectUri, k.callbackPath)
    && AsciiConfig(config) && Ascii(k.redirectUri) && Ascii(k.nonce)
  }

  /** A verifier of the cosigner that knows its key. */
  predicate Knows(env: Env, v: CosignerVerifier, config: Config) {
    && v.issuer == config.issuer && v.keys(config.keyId) == Some(env.s.publicKey(config.signer))
    && env.s.publicKey(config.signer).alg == config.alg
  }

  /** Request i is the client's InitAuth, and u redeemed the session it opened and got a cosignature. */
  predicate Cosigns(env: Env, config: Config, k: Client, m: Machine, requests: map<Tid, Request>, i: Tid, u: Tid) {
    && Serves(env, config, m, requests)
    && i in m.threads && m.threads[i].local.Done?
    && requests[i].InitAuth? && requests[i].pkt == Carried(k.p) && FirstSignature(env, config, k) == Ok(requests[i].sig)
    && RedeemedBy(m, u) && m.threads[i].local.result == Created(m.threads[u].local.result.sid)
    && Response(env, config, m, requests, u).Ok?
  }

  /** The claims of the cosignature for a client's session. */
  function SessionClaimsOf(config: Config, k: Client, sid: Bytes, at: Clock): CosignerClaims {
    CosignerClaims(config.issuer, config.keyId, config.alg, sid, at, at, at + HOUR, k.redirectUri, k.nonce)
  }

  /** The first message was accepted as it was sent. */
  lemma FirstAccepted(env: Env, config: Config, k: Client, request: Request)
    requires SoundWorld(env) && Honest(env, config, k)
    requires request.InitAuth? && request.pkt == Carried(k.p) && FirstSignature(env, config, k) == Ok(request.sig)
    ensures CheckedInit(env, config, request.pkt, request.sig, request.now)
         == if Recent(k.signedAt, request.now) then Ok(FirstMessage(config, k)) else Error
  {
    hide SoundBase64, SoundScheme, SoundMessages, Complete, Canonical, JsonTyp, Ascii, AsciiText, CheckedInit, Recent,
         NewSignedMessage, Carried;
    HonestInitAccepted(env, config, k.p, k.signer, config.issuer, k.callbackPath, k.redirectUri, k.nonce, k.signedAt,
                       FirstMessage(config, k), request.now);
  }

  /** The state of the session is the client's. */
  lemma SessionIsClients(env: Env, config: Config, k: Client, mac: Mac, m: Machine, actions: seq<Action>,
                         requests: map<Tid, Request>, i: Tid, u: Tid)
    requires SoundWorld(env) && Honest(env, config, k)
    requires Reached(mac, m, actions) && Cosigns(env, config, k, m, requests, i, u)
    ensures CheckedInit(env, config, requests[i].pkt, requests[i].sig, requests[i].now) == Ok(FirstMessage(config, k))
    ensures var state := m.threads[u].local.result.state;
            state.pkt == Carried(k.p) && state.redirectUri == k.redirectUri && state.nonce == k.nonce
  {
    hide SoundWorld, Honest, Reached, CallOf, CheckedInit, Recent, Response, Carried, FirstSignature, Initiates;
    OpenedBy(env, config, mac, m, actions, requests, i, u);
    InitiatesMeans(env, config, requests[i], m.threads[u].local.result.state);
    FirstAccepted(env, config, k, requests[i]);
  }

  lemma WorldParts(env: Env, config: Config, k: Client)
    requires SoundWorld(env) && Honest(env, config, k)
    ensures SoundBase64(env.c) && SoundScheme(env.c, env.s) && SoundMessages(env.c, env.j)
    ensures AsciiConfig(config) && Ascii(k.redirectUri) && Ascii(k.nonce)
    ensures k.p.payload.Some? && Carried(k.p).payload == k.p.payload && Complete(env.c, k.p)
  {
    hide SoundBase64, SoundScheme, SoundMessages, Canonical, Ascii, AsciiText, JsonTyp;
    CompletePayload(env.c, k.p);
  }

  /** Over every run, the cosignature on the session a client opened passes the client's checks, can be added to the
      client's token, and verifies until one hour after its issue, provided none of its claims is empty or zero. */
  lemma CosignatureServesClient(env: Env, config: Config, k: Client, v: CosignerVerifier, mac: Mac, m: Machine,
                                actions: seq<Action>, requests: map<Tid, Request>, i: Tid, u: Tid, later: int)
    requires SoundWorld(env) && Honest(env, config, k) && Knows(env, v, config)
    requires Reached(mac, m, actions) && Cosigns(env, config, k, m, requests, i, u)
    ensures requests[u].RedeemAuthcode?
    ensures ValidateCos(env.c, config.issuer, Response(env, config, m, requests, u).value, k.nonce, k.redirectUri)
    ensures var (q, ok) := Added(env.c, k.p, Response(env, config, m, requests, u).value, "COS");
            var claims := SessionClaimsOf(config, k, m.threads[u].local.result.sid, requests[u].at);
            && ok && q == k.p.(cos := q.cos) && q.cos.Some?
            && ParseCosignerClaims(env.j, env.c, q.cos.value) == (if AllPresent(claims) then Some(claims) else None)
            && (VerifyCosigner(env, v, q, later) <==>
                  AllPresent(claims) && later <= (requests[u].at + HOUR) * SECOND)
  {
    hide SoundWorld, Honest, Reached, CallOf, CheckedInit, Response, Carried, FirstSignature, ValidateCos, Cosignature,
         SoundBase64, SoundScheme, SoundMessages, Ascii, AsciiConfig, Complete, VerifyCosigner, Added, AllPresent,
         ParseCosignerClaims, SignedUnder;
    WorldParts(env, config, k);
    CosignedMeans(env, config, m, requests, u);
    SessionIsClients(env, config, k, mac, m, actions, requests, i, u);
    HonestClientAccepts(env, config, mac, m, actions, requests, i, u, FirstMessage(config, k));
    SessionIdAscii(mac, m, actions, u);
    var result := m.threads[u].local.result;
    CosignatureVerifies(env, config, v, result.state, result.sid, requests[u].at, k.p, later);
  }

  /** The provider's part of the verification does not look at the cosignature. */
  lemma ProviderIgnoresCosignature(env: Env, s: Settings, p: Pkt, cos: Option<Slot>, now: int)
    ensures VerifiedByProvider(env, s, p.(cos := cos), now) == VerifiedByProvider(env, s, p, now)
  {
    hide JwsVerifies, VerdictOf;
  }

  /** A verifier configured with the cosigner, by whatever options, accepts the cosigned token until one hour after
      the issue exactly as far as the client's token and the checks allow and no other cosigner is strict. */
  lemma CosignedTokenVerified(env: Env, config: Config, k: Client, v: CosignerVerifier, mac: Mac, m: Machine,
                              actions: seq<Action>, requests: map<Tid, Request>, i: Tid, u: Tid,
                              provider: ProviderVerifier, options: seq<VerifierOption>, s: Settings,
                              checks: seq<Pkt -> Verdict>, later: int)
    requires SoundWorld(env) && Honest(env, config, k) && Knows(env, v, config)
    requires Reached(mac, m, actions) && Cosigns(env, config, k, m, requests, i, u)
    requires Configured(Initial(provider), options) == Some(s) && v in AllCosigners(options)
    ensures requests[u].RedeemAuthcode?
    ensures var (q, ok) := Added(env.c, k.p, Response(env, config, m, requests, u).value, "COS");
            var claims := SessionClaimsOf(config, k, m.threads[u].local.result.sid, requests[u].at);
            && ok
            && (Verified(env, s, q, checks, later) == Accept <==>
                  && VerifiedByProvider(env, s, k.p, later) == Accept && AllChecks(checks, q) == Accept
                  && AllPresent(claims) && later <= (requests[u].at + HOUR) * SECOND
                  && OnlyStrict(v, options))
  {
    hide SoundWorld, Honest, Reached, CallOf, Response, Added, Verified, VerifiedByProvider, VerifyCosigner, Carried,
         Configured, AllPresent, ParseCosignerClaims, ValidateCos, FirstSignature, SessionClaimsOf, AllChecks,
         AllCosigners, OnlyStrict;
    CosignatureServesClient(env, config, k, v, mac, m, actions, requests, i, u, later);
    var q := Added(env.c, k.p, Response(env, config, m, requests, u).value, "COS").0;
    var claims := SessionClaimsOf(config, k, m.threads[u].local.result.sid, requests[u].at);
    IssuerOfClaims(config, k, m.threads[u].local.result.sid, requests[u].at);
    DemandedCosigner(env, v, provider, options, s, k.p, q, claims, (requests[u].at + HOUR) * SECOND, checks, later);
  }

  /** No configured cosigner but this one is strict. */
  ghost predicate OnlyStrict(v: CosignerVerifier, options: seq<VerifierOption>) {
    forall w <- AllCosigners(options) :: w.strict ==> w == v
  }

  lemma IssuerOfClaims(config: Config, k: Client, sid: Bytes, at: Clock)
    ensures SessionClaimsOf(config, k, sid, at).issuer == config.issuer
  {}

  /** The verdict of a verifier configured with a cosigner on a token that shows claims of that cosigner. */
  lemma DemandedCosigner(env: Env, v: CosignerVerifier, provider: ProviderVerifier, options: seq<VerifierOption>,
                         s: Settings, p: Pkt, q: Pkt, claims: CosignerClaims, limit: int,
                         checks: seq<Pkt -> Verdict>, later: int)
    requires Configured(Initial(provider), options) == Some(s) && v in AllCosigners(options)
    requires q == p.(cos := q.cos) && q.cos.Some? && claims.issuer == v.issuer
    requires ParseCosignerClaims(env.j, env.c, q.cos.value) == if AllPresent(claims) then Some(claims) else None
    requires VerifyCosigner(env, v, q, later) <==> AllPresent(claims) && later <= limit
    ensures Verified(env, s, q, checks, later) == Accept
       <==> && VerifiedByProvider(env, s, p, later) == Accept && AllChecks(checks, q) == Accept
            && AllPresent(claims) && later <= limit && OnlyStrict(v, options)
  {
    hide Verified, VerifiedByProvider, VerifyCosigner, Configured, AllPresent, ParseCosignerClaims, AllCosigners,
         AllChecks, CosignedByOne, OnlyStrict;
    CosignedVerified(env, provider, options, s, q, checks, later);
    ProviderIgnoresCosignature(env, s, p, q.cos, later);
    CosignedByThis(env, v, provider, options, q, ParseCosignerClaims(env.j, env.c, q.cos.value), later);
  }

  lemma CosignedByThis(env: Env, v: CosignerVerifier, provider: ProviderVerifier, options: seq<VerifierOption>, q: Pkt,
                       claims: Option<CosignerClaims>, later: int)
    requires Configured(Initial(provider), options).Some? && v in AllCosigners(options)
    requires claims.Some? ==> claims.value.issuer == v.issuer
    ensures CosignedByOne(env, AllCosigners(options), q, claims, later)
       <==> claims.Some? && VerifyCosigner(env, v, q, later) && OnlyStrict(v, options)
  {
    hide VerifyCosigner, Configured, AllCosigners;
    ConfiguredAs(provider, options);
  }

  /** The three requests of a session. */
  function SessionRequests(env: Env, k: Client, sig1: Bytes, sig2: Bytes, id: Bytes, code: Bytes, now: int,
                           timeNow: Uint64, at: Clock): map<Tid, Request> {
    map[0 := InitAuth(Carried(k.p), sig1, now, timeNow), 1 := NewAuthcode(id, code), 2 := RedeemAuthcode(sig2, at)]
  }

  /** What verifies under a token also parses to its content. */
  lemma VerifiedContent(c: Codec, s: Scheme, p: Pkt, osm: Bytes, content: Bytes)
    requires VerifySignedMessage(c, s, p, osm) == Ok(content)
    ensures Parse(c, osm).Some? && Parse(c, osm).value.payload == content
  {
    hide Parse, Hash;
  }

  /** Every honest client whose first message is recent gets its cosignature: some run opens the session, issues a code
      and redeems it. */
  lemma SessionIsCosigned(env: Env, config: Config, k: Client, mac: Mac, code: Bytes, now: int, timeNow: Uint64,
                          at: Clock)
    returns (m: Machine, actions: seq<Action>, requests: map<Tid, Request>)
    requires SoundWorld(env) && Honest(env, config, k) && Recent(k.signedAt, now)
    requires NewAuthState(env.c, Carried(k.p), k.redirectUri, k.nonce).Ok?
    ensures Reached(mac, m, actions) && Cosigns(env, config, k, m, requests, 0, 2)
    ensures requests[2].RedeemAuthcode? && requests[2].at == at
  {
    hide SoundWorld, Honest, Reached, NewAuthState, NewSignedMessage, VerifySignedMessage, Parse, Carried, Recent, Run,
         SessionDone, Cosigns;
    ClientSignatures(env, config, k, code);
    var sig1 := FirstSignature(env, config, k).value;
    var sig2 := NewSignedMessage(env.c, env.s, k.p, code, k.signer).value;
    var state := NewAuthState(env.c, Carried(k.p), k.redirectUri, k.nonce).value;
    NewStateIs(env.c, Carried(k.p), k.redirectUri, k.nonce);
    var id;
    m, actions, id := SessionCompletes(mac, state, timeNow, code);
    requests := SessionRequests(env, k, sig1, sig2, id, code, now, timeNow, at);
    FirstAccepted(env, config, k, requests[0]);
    SessionAnswered(env, config, k, m, id, state, timeNow, code, sig1, sig2, now, at);
  }

  /** Both messages of the client can be signed, and the second verifies and parses to the code. */
  lemma ClientSignatures(env: Env, config: Config, k: Client, code: Bytes)
    requires SoundWorld(env) && Honest(env, config, k)
    ensures FirstSignature(env, config, k).Ok?
    ensures NewSignedMessage(env.c, env.s, k.p, code, k.signer).Ok?
    ensures var sig2 := NewSignedMessage(env.c, env.s, k.p, code, k.signer).value;
            && VerifySignedMessage(env.c, env.s, Carried(k.p), sig2) == Ok(code)
            && Parse(env.c, sig2).Some? && Parse(env.c, sig2).value.payload == code
  {
    hide SoundBase64, SoundScheme, SoundMessages, Complete, Canonical, JsonTyp, Ascii, AsciiConfig, NewSignedMessage,
         VerifySignedMessage, Parse, Carried, Marshalled, Unmarshalled;
    ParsedTokenAccepts(env.c, env.s, k.p, env.j.encodeInit(FirstMessage(config, k)), k.signer);
    ParsedTokenAccepts(env.c, env.s, k.p, code, k.signer);
    VerifiedContent(env.c, env.s, Carried(k.p), NewSignedMessage(env.c, env.s, k.p, code, k.signer).value, code);
  }

  /** A finished session whose requests are the client's is answered with a cosignature. */
  lemma SessionAnswered(env: Env, config: Config, k: Client, m: Machine, id: Bytes, state: AuthState, timeNow: Uint64,
                        code: Bytes, sig1: Bytes, sig2: Bytes, now: int, at: Clock)
    requires SessionDone(m, id, state, timeNow, code)
    requires NewAuthState(env.c, Carried(k.p), k.redirectUri, k.nonce) == Ok(state) && state.pkt == Carried(k.p)
    requires CheckedInit(env, config, Carried(k.p), sig1, now) == Ok(FirstMessage(config, k))
    requires FirstSignature(env, config, k) == Ok(sig1)
    requires VerifySignedMessage(env.c, env.s, Carried(k.p), sig2) == Ok(code)
    requires Parse(env.c, sig2).Some? && Parse(env.c, sig2).value.payload == code
    ensures Cosigns(env, config, k, m, SessionRequests(env, k, sig1, sig2, id, code, now, timeNow, at), 0, 2)
  {
    hide NewAuthState, CheckedInit, VerifySignedMessage, Parse, Carried, Cosignature, NewSignedMessage;
    ServesSession(env, config, m, SessionRequests(env, k, sig1, sig2, id, code, now, timeNow, at));
  }

  lemma NewStateIs(c: Codec, p: Pkt, ruri: Bytes, nonce: Bytes)
    ensures var state := NewAuthState(c, p, ruri, nonce);
            state.Ok? ==> state.value.pkt == p && !state.value.issued && !state.value.redeemed
  {
    hide Oidc.JoinAudience, Split;
  }

  lemma ServesSession(env: Env, config: Config, m: Machine, requests: map<Tid, Request>)
    requires m.threads.Keys == {0, 1, 2} && requests.Keys == {0, 1, 2}
    requires CallOf(env, config, requests[0]) == Some(m.threads[0].call)
    requires CallOf(env, config, requests[1]) == Some(m.threads[1].call)
    requires CallOf(env, config, requests[2]) == Some(m.threads[2].call)
    ensures Serves(env, config, m, requests)
  {
    hide CallOf;
  }

  // ---------------------------------------------------------------------------
  // GQ signing inside a PK Token
  // ---------------------------------------------------------------------------

  /** The settings with the restriction to GQ signatures lifted for one default verifier. */
  function Unrestricted(s: Settings, iss: Bytes): Settings
    requires iss in s.providers && s.providers[iss].Default?
  {
    var d := s.providers[iss];
    s.(providers := s.providers[iss := Default(d.e, d.v.(gqOnly := false))])
  }

  /** Nothing about the cosignature depends on the provider's slot. */
  lemma CosignersIgnoreProvider(env: Env, cosigners: Cosigners, p: Pkt, op: Option<Slot>, now: int)
    ensures CosignersAccept(env, cosigners, p.(op := op), now) <==> CosignersAccept(env, cosigners, p, now)
  {
    hide ParseCosignerClaims, JwsVerifies;
    forall v: CosignerVerifier
      ensures VerifyCosigner(env, v, p.(op := op), now) == VerifyCosigner(env, v, p, now)
    {
    }
  }

  /** The payload of a PK Token and its ID Token name the same issuer. */
  lemma IssuerAgrees(e: Providers.Env, p: Pkt)
    requires SoundBase64(e.c) && ClaimsAgree(e.c) && p.op.Some? && SlotHolds(e.c, p.op, p.payload)
    ensures var idt := Oidc.NewJwt(e.c, p.op.value.token);
            idt.Ok? && idt.value.claims.Some? ==>
              e.c.readIssuer(OrEmpty(p.payload)) == Some(GqVerdicts.Issuer(e, p.op.value.token))
  {
    hide SplitCompact, Base64Url.Decode, SoundBase64, Parse;
    var token := p.op.value.token;
    var idt := Oidc.NewJwt(e.c, token);
    if idt.Ok? && idt.value.claims.Some? {
      PayloadAgrees(e.c, token);
      ClaimsFrom(e.c, SplitCompact(token).value.payload);
    }
  }

  /** Strict base64url reads the payload that jwx reads. */
  lemma PayloadAgrees(c: Codec, token: Bytes)
    requires SoundBase64(c) && Parse(c, token).Some?
    requires Base64Url.Decode(SplitCompact(token).value.payload).Some?
    ensures Parse(c, token).value.payload == Base64Url.Decode(SplitCompact(token).value.payload).value
  {
    hide SplitCompact, Base64Url.Decode, Ascii;
  }

  lemma ClaimsFrom(c: Codec, segment: Bytes)
    requires ClaimsAgree(c)
    ensures var r := Oidc.ParsePayload(c, segment);
            r.Ok? && r.value.1.Some? ==>
              && Base64Url.Decode(segment) == Some(r.value.0)
              && c.readIssuer(r.value.0) == Some(r.value.1.value.iss)
  {
    hide Base64Url.Decode, Oidc.JoinAudience;
  }

  lemma AcceptedClaims(e: Providers.Env, v: Providers.Verifier, idToken: Bytes, cicHash: Option<Bytes>, now: int)
    requires Providers.VerifyIdToken(e, v, idToken, cicHash, now) == Accept
    ensures var idt := Oidc.NewJwt(e.c, idToken); idt.Ok? && idt.value.claims.Some?
  {
    hide Oidc.NewJwt, Providers.VerifyParsed, Providers.ClaimsAcceptable;
  }

  /** The client's token is signed by the key its header names. */
  predicate ClientSigned(env: Env, p: Pkt) {
    && p.cic.Some? && env.s.clientKey(p.cic.value.header).Some?
    && JwsVerifies(env, env.s.clientKey(p.cic.value.header).value, p.cic.value.token)
  }

  /** All the whole verification asks for beside the verdict of a default provider verifier. */
  predicate RestAccepts(env: Env, s: Settings, p: Pkt, now: int) {
    ClientSigned(env, p) && !s.requireRefreshed && CosignersAccept(env, s.cosigners, p, now)
  }

  function CicHash(env: Env, p: Pkt): Option<Bytes> {
    if p.cic.Some? then env.s.clientHash(p.cic.value.header) else None
  }

  /** What a PK Token with a default verifier for its issuer needs to be accepted. */
  lemma VerifiedMeans(env: Env, s: Settings, p: Pkt, iss: Bytes, now: int)
    requires env.c.readIssuer(OrEmpty(p.payload)) == Some(iss) && iss in s.providers && s.providers[iss].Default?
    ensures Verified(env, s, p, [], now) == Accept
       <==> && RestAccepts(env, s, p, now)
            && var d := s.providers[iss];
               Providers.VerifyIdToken(d.e, d.v, IdTokenOf(p), CicHash(env, p), now) == Accept
  {
    hide JwsVerifies, CosignersAccept, Providers.VerifyIdToken;
  }

  /** Extra checks come last. */
  lemma ChecksApart(env: Env, s: Settings, p: Pkt, checks: seq<Pkt -> Verdict>, now: int)
    ensures Verified(env, s, p, checks, now) == Accept
       <==> Verified(env, s, p, [], now) == Accept && AllChecks(checks, p) == Accept
    ensures Verified(env, s, p, [], now) == Accept ==> Verified(env, s, p, checks, now) == AllChecks(checks, p)
  {
    hide VerifiedByProvider, CosignersAccept;
  }

  /** A PK Token and the same with its ID Token replaced by the GQ token made of it, under a configured verifier. */
  predicate GqReplaced(p: Pkt, q: Pkt, t: GqVerdicts.Creation) {
    && p.op.Some? && p.op.value.token == t.idToken
    && q.op.Some? && q.op.value.token == t.gqToken && q == p.(op := q.op)
  }

  /** A GQ token made with proper draws from a token of the verifier's provider, whose commitment is a claim. */
  ghost predicate GqMadeFor(e: Providers.Env, v: Providers.Verifier, t: GqVerdicts.Creation) {
    && Providers.SoundEnv(e) && ClaimsAgree(e.c)
    && GqVerdicts.Created(e, t) && Ascii(t.cicHash) && GqVerdicts.DrawnBelow(t, GqVerdicts.Modulus(e, t))
    && GqVerdicts.ForProvider(v, t) && !v.gqCommitment
  }

  /** Replacing the ID Token inside a PK Token by its GQ token preserves the verdict of the whole verification, up to
      extra checks, which see the new token. */
  lemma GqPkTokenVerdict(env: Env, provider: ProviderVerifier, options: seq<VerifierOption>, s: Settings, p: Pkt,
                         q: Pkt, t: GqVerdicts.Creation, e: Providers.Env, v: Providers.Verifier, iss: Bytes,
                         checks: seq<Pkt -> Verdict>, now: int)
    requires Configured(Initial(provider), options) == Some(s)
    requires e.c == env.c && GqMadeFor(e, v, t)
    requires GqReplaced(p, q, t) && SlotHolds(e.c, p.op, p.payload)
    requires env.c.readIssuer(OrEmpty(p.payload)) == Some(iss)
    requires iss in s.providers && s.providers[iss] == Default(e, v)
    ensures Verified(env, s, q, checks, now) == Accept
       <==> && Verified(env, Unrestricted(s, iss), p, [], now) == Accept && AllChecks(checks, q) == Accept
            && iss != [] && 0 !in t.draws.rounds
  {
    hide Verified, Configured, RestAccepts, Providers.VerifyIdToken, GqMadeFor, SlotHolds, CicHash, Unrestricted,
         Initial, AllChecks;
    ChecksApart(env, s, q, checks, now);
    ConfiguredIssuer(provider, options, s, iss);
    ReplacedMeans(env, s, p, q, t, e, v, iss, now);
    OriginalMeans(env, s, p, t.idToken, e, v, iss, now);
    GqIdTokenVerdict(e, v, p, t, CicHash(env, p), iss, now);
  }

  lemma ReplacedMeans(env: Env, s: Settings, p: Pkt, q: Pkt, t: GqVerdicts.Creation, e: Providers.Env,
                      v: Providers.Verifier, iss: Bytes, now: int)
    requires GqReplaced(p, q, t) && env.c.readIssuer(OrEmpty(p.payload)) == Some(iss)
    requires iss in s.providers && s.providers[iss] == Default(e, v)
    ensures Verified(env, s, q, [], now) == Accept
       <==> RestAccepts(env, s, p, now) && Providers.VerifyIdToken(e, v, t.gqToken, CicHash(env, p), now) == Accept
  {
    hide Verified, RestAccepts, Providers.VerifyIdToken, CicHash, Unrestricted;
    VerifiedMeans(env, s, q, iss, now);
    RestUnchanged(env, s, p, q.op, now);
  }

  lemma OriginalMeans(env: Env, s: Settings, p: Pkt, idToken: Bytes, e: Providers.Env, v: Providers.Verifier,
                      iss: Bytes, now: int)
    requires p.op.Some? && p.op.value.token == idToken && env.c.readIssuer(OrEmpty(p.payload)) == Some(iss)
    requires iss in s.providers && s.providers[iss] == Default(e, v)
    ensures Verified(env, Unrestricted(s, iss), p, [], now) == Accept
       <==> && RestAccepts(env, s, p, now)
            && Providers.VerifyIdToken(e, v.(gqOnly := false), idToken, CicHash(env, p), now) == Accept
  {
    hide Verified, RestAccepts, Providers.VerifyIdToken, CicHash, Unrestricted;
    UnrestrictedAt(s, iss, e, v);
    VerifiedMeans(env, Unrestricted(s, iss), p, iss, now);
    RestUnrestricted(env, s, p, iss, now);
  }

  lemma UnrestrictedAt(s: Settings, iss: Bytes, e: Providers.Env, v: Providers.Verifier)
    requires iss in s.providers && s.providers[iss] == Default(e, v)
    ensures var s0 := Unrestricted(s, iss); iss in s0.providers && s0.providers[iss] == Default(e, v.(gqOnly := false))
  {}

  /** Nothing but the provider's verdict depends on the provider's slot or on its verifier. */
  lemma RestUnchanged(env: Env, s: Settings, p: Pkt, op: Option<Slot>, now: int)
    ensures RestAccepts(env, s, p.(op := op), now) <==> RestAccepts(env, s, p, now)
    ensures CicHash(env, p.(op := op)) == CicHash(env, p)
  {
    hide CosignersAccept, ClientSigned;
    CosignersIgnoreProvider(env, s.cosigners, p, op, now);
    SameClient(env, p, op);
  }

  lemma RestUnrestricted(env: Env, s: Settings, p: Pkt, iss: Bytes, now: int)
    requires iss in s.providers && s.providers[iss].Default?
    ensures RestAccepts(env, Unrestricted(s, iss), p, now) <==> RestAccepts(env, s, p, now)
  {
    hide CosignersAccept, ClientSigned;
  }

  lemma SameClient(env: Env, p: Pkt, op: Option<Slot>)
    ensures ClientSigned(env, p.(op := op)) <==> ClientSigned(env, p)
    ensures ClientSigned(env, p) ==> p.cic.Some?
  {
    hide JwsVerifies;
  }

  lemma ConfiguredIssuer(provider: ProviderVerifier, options: seq<VerifierOption>, s: Settings, iss: Bytes)
    requires Configured(Initial(provider), options) == Some(s) && iss in s.providers
    ensures ProviderIssuer(s.providers[iss]) == iss
  {
    hide Configured;
    ConfiguredProviders(Initial(provider), options);
  }

  lemma GqIdTokenVerdict(e: Providers.Env, v: Providers.Verifier, p: Pkt, t: GqVerdicts.Creation,
                         cicHash: Option<Bytes>, iss: Bytes, now: int)
    requires GqMadeFor(e, v, t)
    requires p.op.Some? && p.op.value.token == t.idToken && SlotHolds(e.c, p.op, p.payload)
    requires e.c.readIssuer(OrEmpty(p.payload)) == Some(iss) && v.issuer == iss
    ensures Providers.VerifyIdToken(e, v, t.gqToken, cicHash, now) == Accept
       <==> && Providers.VerifyIdToken(e, v.(gqOnly := false), t.idToken, cicHash, now) == Accept
            && iss != [] && 0 !in t.draws.rounds
  {
    hide Providers.VerifyIdToken, GqVerdicts.Created, Sound, GqVerdicts.Modulus, GqVerdicts.DrawnBelow, SlotHolds,
         Ascii, ClaimsAgree, GqVerdicts.Issuer, GqVerdicts.ForProvider;
    GqVerdicts.GqSigningPreservesVerdict(e, v, t, cicHash, now);
    var v0 := v.(gqOnly := false);
    if Providers.VerifyIdToken(e, v0, t.idToken, cicHash, now) == Accept {
      OwnIssuer(e, v0, p, cicHash, iss, now);
    }
  }

  /** An accepted PK Token over an RS256 ID Token is accepted, at the same time, after its ID Token has been turned into
      a GQ token with nonzero draws and put in the provider's slot, as far as extra checks accept the new token; the
      check GQOnly refuses the old one and accepts the new one. */
  lemma AcceptedPkTokenSurvives(env: Env, provider: ProviderVerifier, options: seq<VerifierOption>, s: Settings, p: Pkt,
                                e: Providers.Env, v: Providers.Verifier, iss: Bytes, draws: GqTokens.Draws,
                                checks: seq<Pkt -> Verdict>, now: int)
    returns (gqToken: Bytes)
    requires Configured(Initial(provider), options) == Some(s) && e.c == env.c
    requires Providers.SoundEnv(e) && ClaimsAgree(e.c) && p.op.Some? && SlotHolds(e.c, p.op, p.payload)
    requires env.c.readIssuer(OrEmpty(p.payload)) == Some(iss) && iss != []
    requires iss in s.providers && s.providers[iss] == Default(e, v) && !v.gqCommitment
    requires GqVerdicts.ConvertibleBy(e, v, p.op.value.token, draws)
    requires Verified(env, s, p, [], now) == Accept
    ensures |draws.rounds| == 16
    ensures Providers.CreateGqToken(e, v.keySets, v.issuer, p.op.value.token, [], false, draws) == Ok(gqToken)
    ensures var (q, ok) := Added(env.c, p, gqToken, "JWT");
            && ok && q == p.(op := q.op) && Verified(env, s, q, checks, now) == AllChecks(checks, q)
            && GqOnly(p) == Reject && GqOnly(q) == Accept
  {
    hide Verified, Configured, RestAccepts, Providers.VerifyIdToken, Providers.SoundEnv, ClaimsAgree, CicHash,
         SlotHolds, GqVerdicts.ConvertibleBy, Providers.CreateGqToken, Providers.ByToken, Added,
         GqVerdicts.Issuer, AllChecks, GqOnly;
    var idToken := p.op.value.token;
    ConvertibleParts(e, v, p, draws);
    ConfiguredIssuer(provider, options, s, iss);
    VerifiedMeans(env, s, p, iss, now);
    OwnIssuer(e, v, p, CicHash(env, p), iss, now);
    gqToken := GqVerdicts.AcceptedTokenSurvives(e, v, idToken, CicHash(env, p), draws, now);
    var t := GqVerdicts.Creation(v.keySets, v.issuer, idToken, [], draws, gqToken);
    GqTokenFits(e, p, t);
    var q := Added(env.c, p, gqToken, "JWT").0;
    ReplacedMeans(env, s, p, q, t, e, v, iss, now);
    ChecksApart(env, s, q, checks, now);
  }

  /** The slot of an RS256 token that can be converted does not pass for a GQ token. */
  lemma ConvertibleParts(e: Providers.Env, v: Providers.Verifier, p: Pkt, draws: GqTokens.Draws)
    requires Providers.SoundEnv(e) && p.op.Some? && SlotHolds(e.c, p.op, p.payload)
    requires GqVerdicts.ConvertibleBy(e, v, p.op.value.token, draws)
    ensures |draws.rounds| == 16 && GqOnly(p) == Reject
  {
    hide Sound, Parse, Oidc.NewJwt, GqVerdicts.Convertible, Providers.ByToken;
    SoundIsBase64(e.c);
    SameHeader(e.c, p.op.value.token);
  }

  lemma OwnIssuer(e: Providers.Env, v: Providers.Verifier, p: Pkt, cicHash: Option<Bytes>, iss: Bytes, now: int)
    requires Providers.SoundEnv(e) && ClaimsAgree(e.c) && p.op.Some? && SlotHolds(e.c, p.op, p.payload)
    requires e.c.readIssuer(OrEmpty(p.payload)) == Some(iss)
    requires Providers.VerifyIdToken(e, v, p.op.value.token, cicHash, now) == Accept
    ensures GqVerdicts.Issuer(e, p.op.value.token) == iss
  {
    hide Providers.VerifyIdToken, Sound, ClaimsAgree, SlotHolds, GqVerdicts.Issuer, Oidc.NewJwt;
    AcceptedClaims(e, v, p.op.value.token, cicHash, now);
    SoundIsBase64(e.c);
    IssuerAgrees(e, p);
  }

  /** A GQ token has the payload of its original, so it can take its place. */
  lemma GqTokenFits(e: Providers.Env, p: Pkt, t: GqVerdicts.Creation)
    requires Providers.SoundEnv(e) && GqVerdicts.Created(e, t) && t.cicHash == []
    requires p.op.Some? && p.op.value.token == t.idToken && SlotHolds(e.c, p.op, p.payload)
    ensures var (q, ok) := Added(e.c, p, t.gqToken, "JWT"); ok && GqReplaced(p, q, t) && GqOnly(q) == Accept
  {
    hide Providers.SoundEnv, GqVerdicts.Created, Parse, Added;
    GqVerdicts.CreatedPayload(e, t);
    AddedProvider(e.c, p, t.gqToken);
  }

  /** A token with the payload of a PK Token takes the slot of the provider. */
  lemma AddedProvider(c: Codec, p: Pkt, token: Bytes)
    requires Parse(c, token).Some? && p.payload == Some(Parse(c, token).value.payload)
    ensures Added(c, p, token, "JWT") == (p.(op := Some(Slot(Parse(c, token).value.header, token, None))), true)
  {
    hide Parse;
  }
}
