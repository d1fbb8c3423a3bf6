/** What an accepted PK Token is: whose signatures it carries, for every token and every configuration. */
module PkAcceptance {
  import opened Common
  import opened ByteStrings
  import opened Jose
  import opened PkTokens
  import opened PkInvariants
  import opened Osm
  import opened AuthCosigning
  import opened Verification
  import opened Acceptance
  import Base64Url
  import Providers

  lemma JwsExactly(env: Env, key: ClientKey, token: Bytes)
    ensures JwsVerifies(env, key, token) <==> VerifiesToken(env.c, env.s, key, token)
  {
    hide Parse, SplitCompact, SigningInput;
    if Parse(env.c, token).Some? {
      SigningInputIs(SplitCompact(token).value.protected, SplitCompact(token).value.payload);
    }
  }

  // ---------------------------------------------------------------------------
  // Cosigners
  // ---------------------------------------------------------------------------

  /** The header of the token shows these claims, none of them empty or zero. */
  predicate ShowsClaims(env: Env, token: Bytes, k: CosignerClaims) {
    var segs := SplitCompact(token);
    && k.issuer != [] && k.keyId != [] && k.alg != "" && k.authId != [] && k.redirectUri != [] && k.nonce != []
    && k.authTime != 0 && k.issuedAt != 0 && k.expiration != 0
    && segs.Some?
    && var json := env.c.jwxDecode(segs.value.protected);
       json.Some? && env.j.decodeClaims(json.value) == Some(k)
  }

  /** The token shows claims of the cosigner that have not expired, and the key under the key ID it shows, of the
      algorithm it shows, verifies it. */
  predicate CosignedBy(env: Env, v: CosignerVerifier, token: Bytes, k: CosignerClaims, now: int) {
    && ShowsClaims(env, token, k)
    && k.issuer == v.issuer && now <= k.expiration * SECOND
    && var key := v.keys(k.keyId);
       key.Some? && key.value.alg == k.alg && VerifiesToken(env.c, env.s, key.value, token)
  }

  lemma ClaimsExactly(env: Env, cos: Slot, k: CosignerClaims)
    ensures ParseCosignerClaims(env.j, env.c, cos) == Some(k) <==> ShowsClaims(env, cos.token, k)
  {
    hide SplitCompact;
  }

  /** A cosigner verifier accepts exactly the tokens with a cosignature of its cosigner. */
  lemma CosignerExactly(env: Env, v: CosignerVerifier, p: Pkt, now: int)
    ensures VerifyCosigner(env, v, p, now) <==> p.cos.Some? && exists k :: CosignedBy(env, v, p.cos.value.token, k, now)
  {
    hide ShowsClaims, VerifiesToken, JwsVerifies, ParseCosignerClaims;
    if p.cos.Some? {
      var claims := ParseCosignerClaims(env.j, env.c, p.cos.value);
      if claims.Some? {
        ClaimsExactly(env, p.cos.value, claims.value);
        if v.keys(claims.value.keyId).Some? {
          JwsExactly(env, v.keys(claims.value.keyId).value, p.cos.value.token);
        }
        if VerifyCosigner(env, v, p, now) {
          assert CosignedBy(env, v, p.cos.value.token, claims.value, now);
        }
      }
      forall k | CosignedBy(env, v, p.cos.value.token, k, now)
        ensures claims == Some(k)
      {
        ClaimsExactly(env, p.cos.value, k);
      }
    }
  }

  /** What a configured set of cosigners asks of a PK Token: none is strict, or one has cosigned and no other is
      strict. */
  ghost predicate CosignersContent(env: Env, all: seq<CosignerVerifier>, p: Pkt, now: int) {
    if p.cos.None? then forall w <- all :: !w.strict
    else all == [] || exists v, k :: v in all && CosignedBy(env, v, p.cos.value.token, k, now) && OthersLenient(all, v)
  }

  ghost predicate OthersLenient(all: seq<CosignerVerifier>, v: CosignerVerifier) {
    forall w <- all :: w.strict ==> w.issuer == v.issuer
  }

  lemma CosignedByOneExactly(env: Env, all: seq<CosignerVerifier>, p: Pkt, now: int)
    requires p.cos.Some?
    ensures CosignedByOne(env, all, p, ParseCosignerClaims(env.j, env.c, p.cos.value), now)
       <==> exists v, k :: v in all && CosignedBy(env, v, p.cos.value.token, k, now) && OthersLenient(all, v)
  {
    hide VerifyCosigner, ParseCosignerClaims, ShowsClaims, VerifiesToken;
    var claims := ParseCosignerClaims(env.j, env.c, p.cos.value);
    if CosignedByOne(env, all, p, claims, now) {
      var w :| w in all && w.issuer == claims.value.issuer && VerifyCosigner(env, w, p, now);
      CosignerExactly(env, w, p, now);
      var k :| CosignedBy(env, w, p.cos.value.token, k, now);
      assert OthersLenient(all, w);
    }
    if v, k :| v in all && CosignedBy(env, v, p.cos.value.token, k, now) && OthersLenient(all, v) {
      ClaimsExactly(env, p.cos.value, k);
      CosignerExactly(env, v, p, now);
    }
  }

  // ---------------------------------------------------------------------------
  // Provider and client
  // ---------------------------------------------------------------------------

  /** The key in the client's header verifies the client's token. */
  predicate SignedByClient(env: Env, p: Pkt) {
    p.cic.Some? &&
    var key := env.s.clientKey(p.cic.value.header);
    key.Some? && VerifiesToken(env.c, env.s, key.value, p.cic.value.token)
  }

  /** The provider's token, the empty string if there is none. */
  function ProviderToken(p: Pkt): Bytes {
    match p.op
    case Some(slot) => slot.token
    case None => []
  }

  /** The provider verifier accepts the ID Token for the client's claims. */
  ghost predicate ProviderContent(env: Env, provider: ProviderVerifier, p: Pkt, now: int)
    requires p.cic.Some?
  {
    match provider
    case Default(e, v) =>
      var h := env.s.clientHash(p.cic.value.header);
      h.Some? && Acceptable(e, v, ProviderToken(p), h.value, now)
    case Custom(_, verify, _) => verify(ProviderToken(p), p.cic.value.header, now) == Accept
  }

  /** A refreshed ID Token that a verifier which takes such tokens accepts. */
  predicate RefreshedContent(provider: ProviderVerifier, p: Pkt, now: int) {
    provider.Custom? && provider.refreshed.Some? && p.freshIdToken.Some? &&
    provider.refreshed.value(ProviderToken(p), p.freshIdToken.value, now) == Accept
  }

  ghost predicate SoundProvider(provider: ProviderVerifier) {
    provider.Default? ==> SoundBase64(provider.e.c)
  }

  /** The client and the provider of the issuer that the payload names have signed. */
  ghost predicate SignedByBoth(env: Env, s: Settings, p: Pkt, now: int) {
    var iss := env.c.readIssuer(OrEmpty(p.payload));
    && SignedByClient(env, p)
    && iss.Some? && iss.value in s.providers && ProviderContent(env, s.providers[iss.value], p, now)
    && (s.requireRefreshed ==> RefreshedContent(s.providers[iss.value], p, now))
  }

  lemma ProviderExactly(env: Env, provider: ProviderVerifier, p: Pkt, now: int)
    requires SoundProvider(provider) && p.cic.Some?
    ensures VerdictOf(env, provider, IdTokenOf(p), p.cic.value.header, now) == Accept
       <==> ProviderContent(env, provider, p, now)
  {
    hide SoundBase64, Acceptable, Providers.VerifyIdToken;
    if provider.Default? {
      IdTokenExactly(provider.e, provider.v, IdTokenOf(p), env.s.clientHash(p.cic.value.header), now);
    }
  }

  lemma BothExactly(env: Env, s: Settings, p: Pkt, now: int)
    requires forall iss <- s.providers :: SoundProvider(s.providers[iss])
    ensures VerifiedByProvider(env, s, p, now) == Accept <==> SignedByBoth(env, s, p, now)
  {
    hide SoundProvider, JwsVerifies, VerifiesToken, VerdictOf, ProviderContent;
    if p.cic.Some? {
      var key, iss := env.s.clientKey(p.cic.value.header), env.c.readIssuer(OrEmpty(p.payload));
      if key.Some? {
        JwsExactly(env, key.value, p.cic.value.token);
      }
      if iss.Some? && iss.value in s.providers {
        ProviderExactly(env, s.providers[iss.value], p, now);
      }
    }
  }

  // ---------------------------------------------------------------------------
  // The whole verification
  // ---------------------------------------------------------------------------

  /** Check i is the first that does not accept. */
  predicate FirstRefusal(checks: seq<Pkt -> Verdict>, p: Pkt, i: nat)
    requires i < |checks|
  {
    checks[i](p) != Accept && forall j :: 0 <= j < i ==> checks[j](p) == Accept
  }

  /** The extra checks accept exactly if each does, and else answer with the first that does not. */
  lemma {:induction false} ChecksExactly(checks: seq<Pkt -> Verdict>, p: Pkt)
    ensures AllChecks(checks, p) == Accept <==> forall i :: 0 <= i < |checks| ==> checks[i](p) == Accept
    ensures forall i :: 0 <= i < |checks| && FirstRefusal(checks, p, i) ==> AllChecks(checks, p) == checks[i](p)
    decreases |checks|
  {
    if checks != [] {
      var rest := checks[1..];
      ChecksExactly(rest, p);
      assert forall i :: 1 <= i < |checks| ==> checks[i] == rest[i - 1];
      assert forall i :: 0 <= i < |rest| ==> rest[i] == checks[i + 1];
      forall i | 0 < i < |checks| && FirstRefusal(checks, p, i)
        ensures FirstRefusal(rest, p, i - 1)
      {
      }
    }
  }

  /** A PK Token is accepted exactly if client and provider have signed it, the configured cosigners are content and
      every check accepts. */
  lemma PkTokenExactly(env: Env, verifier: ProviderVerifier, options: seq<VerifierOption>, s: Settings, p: Pkt,
                       checks: seq<Pkt -> Verdict>, now: int)
    requires Configured(Initial(verifier), options) == Some(s)
    requires forall iss <- s.providers :: SoundProvider(s.providers[iss])
    ensures Verified(env, s, p, checks, now) == Accept
       <==> && SignedByBoth(env, s, p, now) && CosignersContent(env, AllCosigners(options), p, now)
            && forall i :: 0 <= i < |checks| ==> checks[i](p) == Accept
  {
    hide Verified, VerifiedByProvider, SignedByBoth, Configured, AllCosigners, CosignedBy, OthersLenient, CosignedByOne,
         AllChecks, SoundProvider;
    BothExactly(env, s, p, now);
    ChecksExactly(checks, p);
    if p.cos.None? {
      UncosignedVerified(env, verifier, options, s, p, checks, now);
    } else {
      CosignedVerified(env, verifier, options, s, p, checks, now);
      CosignedByOneExactly(env, AllCosigners(options), p, now);
    }
  }

  /** With a strict cosigner configured, an accepted PK Token carries that cosigner's signature. */
  lemma StrictCosignerSigned(env: Env, verifier: ProviderVerifier, options: seq<VerifierOption>, s: Settings,
                             w: CosignerVerifier, p: Pkt, checks: seq<Pkt -> Verdict>, now: int)
    requires Configured(Initial(verifier), options) == Some(s) && w in AllCosigners(options) && w.strict
    requires Verified(env, s, p, checks, now) == Accept
    ensures p.cos.Some? && exists k :: CosignedBy(env, w, p.cos.value.token, k, now)
  {
    hide Verified, VerifiedByProvider, Configured, AllCosigners, CosignedBy, AllChecks, CosignedByOne;
    ConfiguredAs(verifier, options);
    if p.cos.None? {
      UncosignedVerified(env, verifier, options, s, p, checks, now);
    } else {
      CosignedVerified(env, verifier, options, s, p, checks, now);
      CosignedByOneExactly(env, AllCosigners(options), p, now);
      var v, k :| v in AllCosigners(options) && CosignedBy(env, v, p.cos.value.token, k, now)
               && OthersLenient(AllCosigners(options), v);
      assert w == v;
    }
  }

  /** Where nothing verifies but what was signed, the holder of a strict cosigner's only key signed the token. */
  lemma StrictCosignerTookPart(env: Env, verifier: ProviderVerifier, options: seq<VerifierOption>, s: Settings,
                               w: CosignerVerifier, p: Pkt, checks: seq<Pkt -> Verdict>, now: int,
                               signed: (Signer, Bytes) -> bool, signer: Signer)
    requires Configured(Initial(verifier), options) == Some(s) && w in AllCosigners(options) && w.strict
    requires Verified(env, s, p, checks, now) == Accept
    requires OnlySigned(env.s, signed)
    requires forall kid :: w.keys(kid).Some? ==> w.keys(kid).value == env.s.publicKey(signer)
    ensures p.cos.Some? && SplitCompact(p.cos.value.token).Some?
    ensures var segs := SplitCompact(p.cos.value.token).value;
            signed(signer, segs.protected + [DOT] + segs.payload)
  {
    hide Verified, Configured, AllCosigners, ShowsClaims, Parse, SplitCompact;
    StrictCosignerSigned(env, verifier, options, s, w, p, checks, now);
    var k :| CosignedBy(env, w, p.cos.value.token, k, now);
  }

  /** Two accepted PK Tokens over one ID Token have the same client hash, whatever the checks, the clock, the client key
      and the cosignature, if the issuer has a default verifier. */
  lemma OneClientHash(env: Env, s: Settings, p: Pkt, q: Pkt, checks: seq<Pkt -> Verdict>, checks': seq<Pkt -> Verdict>,
                      iss: Bytes, now: int, later: int)
    requires SlotHolds(env.c, p.op, p.payload) && SlotHolds(env.c, q.op, q.payload) && p.op.Some? && q.op.Some?
    requires p.op.value.token == q.op.value.token
    requires env.c.readIssuer(OrEmpty(p.payload)) == Some(iss) && iss in s.providers
    requires s.providers[iss].Default? && SoundBase64(s.providers[iss].e.c)
    requires Verified(env, s, p, checks, now) == Accept && Verified(env, s, q, checks', later) == Accept
    ensures p.cic.Some? && q.cic.Some?
    ensures var h := env.s.clientHash(p.cic.value.header); h.Some? && env.s.clientHash(q.cic.value.header) == h
  {
    hide SoundBase64, SlotHolds, Verified, Providers.VerifyIdToken;
    var d := s.providers[iss];
    SamePayload(env.c, p, q);
    AcceptedByDefault(env, s, p, checks, iss, now);
    AcceptedByDefault(env, s, q, checks', iss, later);
    OneClient(d.e, d.v, p.op.value.token, env.s.clientHash(p.cic.value.header), env.s.clientHash(q.cic.value.header),
              now, later);
  }

  lemma SamePayload(c: Codec, p: Pkt, q: Pkt)
    requires SlotHolds(c, p.op, p.payload) && SlotHolds(c, q.op, q.payload) && p.op.Some? && q.op.Some?
    requires p.op.value.token == q.op.value.token
    ensures p.payload == q.payload
  {
    hide Parse;
  }

  lemma AcceptedByDefault(env: Env, s: Settings, p: Pkt, checks: seq<Pkt -> Verdict>, iss: Bytes, now: int)
    requires env.c.readIssuer(OrEmpty(p.payload)) == Some(iss) && iss in s.providers && s.providers[iss].Default?
    requires Verified(env, s, p, checks, now) == Accept
    ensures p.cic.Some?
    ensures var d := s.providers[iss];
            Providers.VerifyIdToken(d.e, d.v, IdTokenOf(p), env.s.clientHash(p.cic.value.header), now) == Accept
  {
    hide JwsVerifies, Providers.VerifyIdToken, CosignersAccept, AllChecks;
  }
}
