/** Verification of PK Tokens and of their cosignatures (verifier/verifier.go, cosigner/cosignerverifier.go). */
module Verification {
  import opened Common
  import opened ByteStrings
  import opened Jose
  import opened PkTokens
  import opened Osm
  import opened AuthStore
  import opened AuthCosigning
  import Providers
  import Base64Url

  // ---------------------------------------------------------------------------
  // One cosigner
  // ---------------------------------------------------------------------------

  /** keys looks up a key of the cosigner by its ID. */
  datatype CosignerVerifier = CosignerVerifier(issuer: Bytes, strict: bool, keys: Bytes -> Option<ClientKey>)

  /** ParseCosignerClaims: the claims of the cosigner's header, all of them present. */
  function ParseCosignerClaims(j: Messages, c: Codec, cos: Slot): Option<CosignerClaims> {
    var segs := SplitCompact(cos.token);
    if segs.None? || c.jwxDecode(segs.value.protected).None? then None
    else
      var claims := j.decodeClaims(c.jwxDecode(segs.value.protected).value);
      if claims.None? || !AllPresent(claims.value) then None else claims
  }

  predicate AllPresent(k: CosignerClaims) {
    && k.issuer != [] && k.keyId != [] && k.alg != "" && k.authId != [] && k.redirectUri != [] && k.nonce != []
    && k.authTime != 0 && k.issuedAt != 0 && k.expiration != 0
  }

  /** The clock is in nanoseconds. */
  function VerifyCosigner(env: Env, v: CosignerVerifier, p: Pkt, now: int): bool {
    if p.cos.None? then false
    else
      var header := ParseCosignerClaims(env.j, env.c, p.cos.value);
      if header.None? || v.issuer != header.value.issuer then false
      else
        var key := v.keys(header.value.keyId);
        if key.None? || now > header.value.expiration * SECOND || header.value.alg != key.value.alg then false
        else JwsVerifies(env, key.value, p.cos.value.token)
  }

  /** jws.Verify of a compact token. */
  predicate JwsVerifies(env: Env, key: ClientKey, token: Bytes) {
    var m, segs := Parse(env.c, token), SplitCompact(token);
    m.Some? && env.s.verifies(key, SigningInput(segs.value.protected, segs.value.payload), m.value.signature)
  }

  /** What a cosigner issues can be added to every PK Token with the payload of the one it was issued for, and then
      verifies until one hour after its issue, provided none of its claims is empty or zero. */
  lemma CosignatureVerifies(env: Env, config: Config, v: CosignerVerifier, state: AuthState, authId: Bytes,
                            issuedAt: Clock, q: Pkt, now: int)
    requires SoundBase64(env.c) && SoundScheme(env.c, env.s) && SoundMessages(env.c, env.j)
    requires AsciiConfig(config) && Ascii(authId) && Ascii(state.redirectUri) && Ascii(state.nonce)
    requires q.payload.Some? && q.payload == state.pkt.payload
    requires v.issuer == config.issuer && v.keys(config.keyId) == Some(env.s.publicKey(config.signer))
    requires env.s.publicKey(config.signer).alg == config.alg
    ensures var (p, ok) := Added(env.c, q, Cosignature(env, config, state, authId, issuedAt), "COS");
            && ok && p == q.(cos := p.cos) && p.cos.Some?
            && ParseCosignerClaims(env.j, env.c, p.cos.value)
               == (if AllPresent(ClaimsOf(config, state, authId, issuedAt))
                   then Some(ClaimsOf(config, state, authId, issuedAt)) else None)
            && (VerifyCosigner(env, v, p, now) <==>
                  AllPresent(ClaimsOf(config, state, authId, issuedAt)) && now <= (issuedAt + HOUR) * SECOND)
  {
    hide Base64Url.Encode, SplitCompact, Jwt, Parse, SigningInput, Ascii, AsciiText, Base64Url.Decode, Cosignature;
    var claims := ClaimsOf(config, state, authId, issuedAt);
    CosignatureParses(env, config, state, authId, issuedAt);
    var token := Cosignature(env, config, state, authId, issuedAt);
    var slot := Slot(Parse(env.c, token).value.header, token, None);
    assert ParseCosignerClaims(env.j, env.c, slot) == if AllPresent(claims) then Some(claims) else None;
    assert JwsVerifies(env, env.s.publicKey(config.signer), token);
  }

  // ---------------------------------------------------------------------------
  // A set of cosigners
  // ---------------------------------------------------------------------------

  type Cosigners = map<Bytes, CosignerVerifier>

  function CosignerIssuer(v: CosignerVerifier): Bytes { v.issuer }

  /** Each verifier is kept under its own issuer. */
  predicate Keyed<V>(verifiers: map<Bytes, V>, issuer: V -> Bytes) {
    forall k <- verifiers :: issuer(verifiers[k]) == k
  }

  /** The verifiers added in order up to the first whose issuer is taken, and whether none was. */
  function Registered<V>(known: map<Bytes, V>, verifiers: seq<V>, issuer: V -> Bytes): (map<Bytes, V>, bool)
    decreases |verifiers|
  {
    if verifiers == [] then (known, true)
    else if issuer(verifiers[0]) in known then (known, false)
    else Registered(known[issuer(verifiers[0]) := verifiers[0]], verifiers[1..], issuer)
  }

  /** No issuer twice, and none that is taken already. */
  predicate AllNew<V>(known: map<Bytes, V>, verifiers: seq<V>, issuer: V -> Bytes) {
    && (forall i :: 0 <= i < |verifiers| ==> issuer(verifiers[i]) !in known)
    && (forall i, j :: 0 <= i < j < |verifiers| ==> issuer(verifiers[i]) != issuer(verifiers[j]))
  }

  /** Registration succeeds exactly on new issuers. */
  lemma {:induction false} RegisteredNew<V>(known: map<Bytes, V>, verifiers: seq<V>, issuer: V -> Bytes)
    ensures Registered(known, verifiers, issuer).1 <==> AllNew(known, verifiers, issuer)
    decreases |verifiers|
  {
    if verifiers != [] && issuer(verifiers[0]) !in known {
      var rest := verifiers[1..];
      var next := known[issuer(verifiers[0]) := verifiers[0]];
      RegisteredNew(next, rest, issuer);
      assert forall i :: 1 <= i < |verifiers| ==> verifiers[i] == rest[i - 1];
    }
  }

  /** Registration keeps what is there and adds each verifier under its issuer. */
  lemma {:induction false} RegisteredEntries<V>(known: map<Bytes, V>, verifiers: seq<V>, issuer: V -> Bytes)
    ensures var (after, ok) := Registered(known, verifiers, issuer);
            && (Keyed(known, issuer) ==> Keyed(after, issuer))
            && (forall k <- known :: k in after && after[k] == known[k])
            && (forall k <- after :: k in known || after[k] in verifiers)
            && (ok ==> forall v <- verifiers :: issuer(v) in after && after[issuer(v)] == v)
    decreases |verifiers|
  {
    if verifiers != [] && issuer(verifiers[0]) !in known {
      var rest := verifiers[1..];
      RegisteredEntries(known[issuer(verifiers[0]) := verifiers[0]], rest, issuer);
      assert forall v <- verifiers :: v == verifiers[0] || v in rest;
      assert forall v <- rest :: v in verifiers;
    }
  }

  /** The cosigner part of VerifyPKToken. */
  predicate CosignersAccept(env: Env, cosigners: Cosigners, p: Pkt, now: int) {
    if |cosigners| == 0 then true
    else if p.cos.None? then forall issuer <- cosigners :: !cosigners[issuer].strict
    else
      var claims := ParseCosignerClaims(env.j, env.c, p.cos.value);
      && claims.Some? && claims.value.issuer in cosigners
      && VerifyCosigner(env, cosigners[claims.value.issuer], p, now)
      && forall issuer <- cosigners :: cosigners[issuer].strict ==> cosigners[issuer].issuer == claims.value.issuer
  }

  // ---------------------------------------------------------------------------
  // The whole verification
  // ---------------------------------------------------------------------------

  /** The verifier of providers/providerverifier.go, which does not take refreshed ID Tokens, or any other one. */
  datatype ProviderVerifier =
    | Default(e: Providers.Env, v: Providers.Verifier)
    | Custom(name: Bytes, verify: (Bytes, Header, int) -> Verdict, refreshed: Option<(Bytes, Bytes, int) -> Verdict>)

  function ProviderIssuer(v: ProviderVerifier): Bytes {
    if v.Default? then v.v.issuer else v.name
  }

  datatype Settings = Settings(providers: map<Bytes, ProviderVerifier>, cosigners: Cosigners, requireRefreshed: bool)

  function IdTokenOf(p: Pkt): Bytes {
    if p.op.Some? then p.op.value.token else []
  }

  /** A provider verifier's verdict on an ID Token under the claims of a client header. */
  function VerdictOf(env: Env, provider: ProviderVerifier, idToken: Bytes, cic: Header, now: int): Verdict {
    match provider
    case Default(e, v) => Providers.VerifyIdToken(e, v, idToken, env.s.clientHash(cic), now)
    case Custom(_, verify, _) => verify(idToken, cic, now)
  }

  function RefreshedVerdict(provider: ProviderVerifier, p: Pkt, now: int): Verdict {
    if provider.Default? || provider.refreshed.None? || p.freshIdToken.None? then Reject
    else provider.refreshed.value(IdTokenOf(p), p.freshIdToken.value, now)
  }

  /** The signature of the client, the issuer's verdict on the ID Token, and the refreshed ID Token where required. */
  function VerifiedByProvider(env: Env, v: Settings, p: Pkt, now: int): Verdict {
    if p.cic.None? then Panics
    else
      var key := env.s.clientKey(p.cic.value.header);
      var issuer := env.c.readIssuer(OrEmpty(p.payload));
      if key.None? || !JwsVerifies(env, key.value, p.cic.value.token) then Reject
      else if issuer.None? || issuer.value !in v.providers then Reject
      else
        var provider := v.providers[issuer.value];
        var verdict := VerdictOf(env, provider, IdTokenOf(p), p.cic.value.header, now);
        if verdict != Accept || !v.requireRefreshed then verdict else RefreshedVerdict(provider, p, now)
  }

  /** The first check that does not accept. */
  function AllChecks(checks: seq<Pkt -> Verdict>, p: Pkt): Verdict
    decreases |checks|
  {
    if checks == [] then Accept
    else if checks[0](p) != Accept then checks[0](p)
    else AllChecks(checks[1..], p)
  }

  /** The check GQOnly; a missing signature of the provider is dereferenced. */
  function GqOnly(p: Pkt): Verdict {
    if p.op.None? then Panics else if p.op.value.header.alg == "GQ256" then Accept else Reject
  }

  function Verified(env: Env, v: Settings, p: Pkt, checks: seq<Pkt -> Verdict>, now: int): Verdict {
    var verdict := VerifiedByProvider(env, v, p, now);
    if verdict != Accept then verdict
    else if !CosignersAccept(env, v.cosigners, p, now) then Reject
    else AllChecks(checks, p)
  }

  // ---------------------------------------------------------------------------
  // Options
  // ---------------------------------------------------------------------------

  datatype VerifierOption = RequireRefreshed
                          | WithCosigners(cosigners: seq<CosignerVerifier>)
                          | AddProviders(providers: seq<ProviderVerifier>)

  function Initial(verifier: ProviderVerifier): Settings {
    Settings(map[ProviderIssuer(verifier) := verifier], map[], false)
  }

  /** One option, and whether it succeeded. */
  function Applied(v: Settings, option: VerifierOption): (Settings, bool) {
    match option
    case RequireRefreshed => (v.(requireRefreshed := true), true)
    case WithCosigners(verifiers) =>
      var (cosigners, ok) := Registered(v.cosigners, verifiers, CosignerIssuer);
      (v.(cosigners := cosigners), ok)
    case AddProviders(verifiers) =>
      var (providers, ok) := Registered(v.providers, verifiers, ProviderIssuer);
      (v.(providers := providers), ok)
  }

  /** All options in order; None once one fails. */
  function Configured(v: Settings, options: seq<VerifierOption>): Option<Settings>
    decreases |options|
  {
    if options == [] then Some(v)
    else
      var (next, ok) := Applied(v, options[0]);
      if ok then Configured(next, options[1..]) else None
  }

  /** The cosigner verifiers of all options, in order. */
  function AllCosigners(options: seq<VerifierOption>): seq<CosignerVerifier>
    decreases |options|
  {
    if options == [] then []
    else (if options[0].WithCosigners? then options[0].cosigners else []) + AllCosigners(options[1..])
  }

  lemma {:induction false} RegisteredAppend<V>(known: map<Bytes, V>, first: seq<V>, more: seq<V>, issuer: V -> Bytes)
    requires Registered(known, first, issuer).1
    ensures Registered(known, first + more, issuer) == Registered(Registered(known, first, issuer).0, more, issuer)
    decreases |first|
  {
    if first == [] {
      assert first + more == more;
    } else {
      assert (first + more)[1..] == first[1..] + more;
      RegisteredAppend(known[issuer(first[0]) := first[0]], first[1..], more, issuer);
    }
  }

  /** Whatever the order of the options, the cosigners are those of all options together. */
  lemma {:induction false} ConfiguredCosigners(v: Settings, options: seq<VerifierOption>)
    requires Configured(v, options).Some?
    ensures Registered(v.cosigners, AllCosigners(options), CosignerIssuer)
         == (Configured(v, options).value.cosigners, true)
    decreases |options|
  {
    hide Registered;
    if options == [] {
      NoneRegistered(v.cosigners, CosignerIssuer);
    } else {
      var next := Applied(v, options[0]).0;
      ConfiguredCosigners(next, options[1..]);
      if options[0].WithCosigners? {
        RegisteredAppend(v.cosigners, options[0].cosigners, AllCosigners(options[1..]), CosignerIssuer);
      } else {
        assert [] + AllCosigners(options[1..]) == AllCosigners(options[1..]);
      }
    }
  }

  lemma NoneRegistered<V>(known: map<Bytes, V>, issuer: V -> Bytes)
    ensures Registered(known, [], issuer) == (known, true)
  {}

  /** Provider verifiers, too, stay under their issuers. */
  lemma {:induction false} ConfiguredProviders(v: Settings, options: seq<VerifierOption>)
    requires Configured(v, options).Some? && Keyed(v.providers, ProviderIssuer)
    ensures Keyed(Configured(v, options).value.providers, ProviderIssuer)
    decreases |options|
  {
    hide Registered, ProviderIssuer;
    if options != [] {
      if options[0].AddProviders? {
        RegisteredEntries(v.providers, options[0].providers, ProviderIssuer);
      }
      ConfiguredProviders(Applied(v, options[0]).0, options[1..]);
    }
  }

  class Verifier {
    var providers: map<Bytes, ProviderVerifier>
    var cosigners: Cosigners
    var requireRefreshedIdToken: bool

    function Contents(): Settings
      reads this
    {
      Settings(providers, cosigners, requireRefreshedIdToken)
    }

    constructor (verifier: ProviderVerifier)
      ensures Contents() == Initial(verifier)
    {
      providers := map[ProviderIssuer(verifier) := verifier];
      cosigners := map[];
      requireRefreshedIdToken := false;
    }

    method RequireRefreshedIdToken()
      modifies this`requireRefreshedIdToken
      ensures requireRefreshedIdToken
    {
      requireRefreshedIdToken := true;
    }

    method WithCosignerVerifiers(verifiers: seq<CosignerVerifier>) returns (ok: bool)
      modifies this`cosigners
      ensures (cosigners, ok) == Registered(old(cosigners), verifiers, CosignerIssuer)
    {
      for i := 0 to |verifiers|
        invariant Registered(old(cosigners), verifiers, CosignerIssuer)
               == Registered(cosigners, verifiers[i..], CosignerIssuer)
      {
        assert verifiers[i..][0] == verifiers[i] && verifiers[i..][1..] == verifiers[i + 1..];
        if verifiers[i].issuer in cosigners {
          return false;
        }
        cosigners := cosigners[verifiers[i].issuer := verifiers[i]];
      }
      return true;
    }

    method AddProviderVerifiers(verifiers: seq<ProviderVerifier>) returns (ok: bool)
      modifies this`providers
      ensures (providers, ok) == Registered(old(providers), verifiers, ProviderIssuer)
    {
      for i := 0 to |verifiers|
        invariant Registered(old(providers), verifiers, ProviderIssuer)
               == Registered(providers, verifiers[i..], ProviderIssuer)
      {
        assert verifiers[i..][0] == verifiers[i] && verifiers[i..][1..] == verifiers[i + 1..];
        if ProviderIssuer(verifiers[i]) in providers {
          return false;
        }
        providers := providers[ProviderIssuer(verifiers[i]) := verifiers[i]];
      }
      return true;
    }

    /** Some strict verifier other than the one excepted; the map is walked in any order. */
    method MissingStrict(excepted: Option<Bytes>) returns (missing: bool)
      ensures missing <==> exists k <- cosigners :: cosigners[k].strict && Some(cosigners[k].issuer) != excepted
    {
      var left := cosigners.Keys;
      while left != {}
        invariant left <= cosigners.Keys
        invariant forall k <- cosigners :: k !in left ==> !cosigners[k].strict || Some(cosigners[k].issuer) == excepted
        decreases |left|
      {
        var k :| k in left;
        if cosigners[k].strict && Some(cosigners[k].issuer) != excepted {
          return true;
        }
        left := left - {k};
      }
      return false;
    }

    /** Whatever order the loops over the cosigners take, the outcome is the same. */
    method VerifyPkToken(env: Env, p: Pkt, checks: seq<Pkt -> Verdict>, now: int) returns (r: Verdict)
      ensures r == Verified(env, Contents(), p, checks, now)
    {
      hide VerifyCosigner, ParseCosignerClaims, VerifiedByProvider;
      r := VerifiedByProvider(env, Contents(), p, now);
      if r != Accept {
        return;
      }
      if |cosigners| > 0 {
        if p.cos.None? {
          var missing := MissingStrict(None);
          if missing {
            return Reject;
          }
        } else {
          var claims := ParseCosignerClaims(env.j, env.c, p.cos.value);
          if claims.None? {
            return Reject;
          }
          if claims.value.issuer !in cosigners {
            return Reject;
          }
          if !VerifyCosigner(env, cosigners[claims.value.issuer], p, now) {
            return Reject;
          }
          var missing := MissingStrict(Some(claims.value.issuer));
          if missing {
            return Reject;
          }
        }
      }
      for i := 0 to |checks|
        invariant AllChecks(checks, p) == AllChecks(checks[i..], p)
      {
        hide CosignersAccept;
        assert checks[i..][0] == checks[i] && checks[i..][1..] == checks[i + 1..];
        var verdict := checks[i](p);
        if verdict != Accept {
          return verdict;
        }
      }
      return Accept;
    }
  }

  /** New: a verifier with all options applied, or an error if one of them fails. */
  method New(verifier: ProviderVerifier, options: seq<VerifierOption>) returns (r: Option<Verifier>)
    ensures r.Some? <==> Configured(Initial(verifier), options).Some?
    ensures r.Some? ==> r.value.Contents() == Configured(Initial(verifier), options).value
  {
    hide Registered;
    var v := new Verifier(verifier);
    for i := 0 to |options|
      invariant Configured(Initial(verifier), options) == Configured(v.Contents(), options[i..])
    {
      assert options[i..][0] == options[i] && options[i..][1..] == options[i + 1..];
      var ok := true;
      match options[i] {
        case RequireRefreshed => v.RequireRefreshedIdToken();
        case WithCosigners(verifiers) => ok := v.WithCosignerVerifiers(verifiers);
        case AddProviders(verifiers) => ok := v.AddProviderVerifiers(verifiers);
      }
      if !ok {
        return None;
      }
    }
    return Some(v);
  }

  // ---------------------------------------------------------------------------
  // What the configured cosigners demand
  // ---------------------------------------------------------------------------

  /** What the cosigners of a configured verifier are. */
  lemma ConfiguredAs(verifier: ProviderVerifier, options: seq<VerifierOption>)
    requires Configured(Initial(verifier), options).Some?
    ensures var cosigners, all := Configured(Initial(verifier), options).value.cosigners, AllCosigners(options);
            && Keyed(cosigners, CosignerIssuer)
            && (forall k <- cosigners :: cosigners[k] in all)
            && (forall v <- all :: v.issuer in cosigners && cosigners[v.issuer] == v)
  {
    hide Registered, Configured;
    ConfiguredCosigners(Initial(verifier), options);
    RegisteredEntries(map[], AllCosigners(options), CosignerIssuer);
  }

  /** A token without a cosignature is accepted exactly when all else accepts it and no configured cosigner is
      strict. */
  lemma UncosignedVerified(env: Env, verifier: ProviderVerifier, options: seq<VerifierOption>, v: Settings, p: Pkt,
                           checks: seq<Pkt -> Verdict>, now: int)
    requires Configured(Initial(verifier), options) == Some(v) && p.cos.None?
    ensures Verified(env, v, p, checks, now) == Accept
       <==> && VerifiedByProvider(env, v, p, now) == Accept && AllChecks(checks, p) == Accept
            && forall w <- AllCosigners(options) :: !w.strict
  {
    hide VerifiedByProvider, AllChecks, Configured, AllCosigners;
    ConfiguredAs(verifier, options);
    if |v.cosigners| == 0 {
      assert v.cosigners == map[];
    }
  }

  /** One of the verifiers verifies a cosignature with these claims, and no other is strict. */
  ghost predicate CosignedByOne(env: Env, all: seq<CosignerVerifier>, p: Pkt, claims: Option<CosignerClaims>,
                                now: int) {
    && claims.Some?
    && (exists w <- all :: w.issuer == claims.value.issuer && VerifyCosigner(env, w, p, now))
    && (forall w <- all :: w.strict ==> w.issuer == claims.value.issuer)
  }

  /** A cosigned token is accepted exactly when all else accepts it and, unless no cosigner is configured, its cosigner
      is, verifies it, and no other is strict. */
  lemma CosignedVerified(env: Env, verifier: ProviderVerifier, options: seq<VerifierOption>, v: Settings, p: Pkt,
                         checks: seq<Pkt -> Verdict>, now: int)
    requires Configured(Initial(verifier), options) == Some(v) && p.cos.Some?
    ensures Verified(env, v, p, checks, now) == Accept
       <==> && VerifiedByProvider(env, v, p, now) == Accept && AllChecks(checks, p) == Accept
            && (AllCosigners(options) == []
                || CosignedByOne(env, AllCosigners(options), p, ParseCosignerClaims(env.j, env.c, p.cos.value), now))
  {
    hide VerifiedByProvider, AllChecks, Configured, AllCosigners, VerifyCosigner, ParseCosignerClaims;
    ConfiguredAs(verifier, options);
    NoCosigners(v.cosigners, AllCosigners(options));
    var claims := ParseCosignerClaims(env.j, env.c, p.cos.value);
    if claims.Some? && claims.value.issuer in v.cosigners {
      assert v.cosigners[claims.value.issuer] in AllCosigners(options);
    }
  }

  lemma NoCosigners(cosigners: Cosigners, all: seq<CosignerVerifier>)
    requires forall k <- cosigners :: cosigners[k] in all
    requires forall v <- all :: v.issuer in cosigners
    ensures |cosigners| == 0 <==> all == []
  {
    if all == [] {
      assert cosigners.Keys == {};
    } else {
      assert all[0] in all;
      HasEntry(cosigners, all[0].issuer);
    }
  }

  lemma HasEntry<V>(m: map<Bytes, V>, k: Bytes)
    requires k in m
    ensures |m| > 0
  {
    assert k in m.Keys;
  }

  /** Once two strict cosigners are configured, by whatever options, nothing is accepted. */
  lemma StrictPairAcceptsNothing(env: Env, verifier: ProviderVerifier, options: seq<VerifierOption>, v: Settings,
                                 a: CosignerVerifier, b: CosignerVerifier, p: Pkt, checks: seq<Pkt -> Verdict>,
                                 now: int)
    requires Configured(Initial(verifier), options) == Some(v)
    requires a in AllCosigners(options) && b in AllCosigners(options) && a != b && a.strict && b.strict
    ensures Verified(env, v, p, checks, now) != Accept
  {
    hide VerifiedByProvider, AllChecks, Configured, AllCosigners, Verified;
    ConfiguredAs(verifier, options);
    if p.cos.None? {
      UncosignedVerified(env, verifier, options, v, p, checks, now);
    } else {
      CosignedVerified(env, verifier, options, v, p, checks, now);
    }
  }
}
