/** GQ signing preserves the verdict of a provider verifier, in both directions. */
module GqVerdicts {
  import opened Common
  import opened ByteStrings
  import opened Pkcs1
  import opened Gq1
  import opened GqKeys
  import opened GqTokens
  import opened Jose
  import opened Oidc
  import opened Expiration
  import opened Providers
  import Base64Url

  /** A token made by CreateGQToken (empty cicHash) or CreateGQBoundToken out of idToken. */
  datatype Creation = Creation(keySets: KeySets, issuer: Bytes, idToken: Bytes, cicHash: Bytes, draws: Draws,
                               gqToken: Bytes)

  ghost predicate Created(e: Env, t: Creation) {
    && |t.draws.rounds| == 16
    && CreateGqToken(e, t.keySets, t.issuer, t.idToken, t.cicHash, t.cicHash != [], t.draws) == Ok(t.gqToken)
  }

  /** The pieces of a created token and of its original. */
  datatype View = View(id: Segments, gq: Segments, idJson: Bytes, gqJson: Bytes, orig: Header, alg: string,
                       key: RsaPublicKey)

  function Extra(e: Env, t: Creation, w: View): map<string, Bytes> {
    ExtraClaims(e.thumbprint(w.key), t.cicHash)
  }

  /** Both tokens split and their headers decode; the payload is shared; the original header is the GQ token's kid. */
  predicate Parts(e: Env, t: Creation, w: View) {
    && SplitCompact(t.idToken) == Some(w.id)
    && SplitCompact(t.gqToken) == Some(w.gq)
    && w.gq.payload == w.id.payload
    && Base64Url.Decode(w.id.protected) == Some(w.idJson) && !e.c.isNull(w.idJson)
    && e.c.decodeHeader(w.idJson) == Some(w.orig)
    && w.orig.alg == "RS256"
    && Base64Url.Decode(w.gq.protected) == Some(w.gqJson) && !e.c.isNull(w.gqJson)
    && e.c.decodeHeader(w.gqJson) == Some(GqHeader(w.id.protected, Extra(e, t, w)))
  }

  /** Both tokens lead to the key that verifies the original, and the GQ proof shows exactly the zero draws. */
  predicate Signatures(e: Env, t: Creation, w: View) {
    && OriginalHeaders(e.c, t.gqToken) == Some(w.id.protected)
    && ByToken(e.c, t.keySets, t.issuer, t.idToken) == Some(KeyRecord(Rsa(w.key), w.alg))
    && ByToken(e.c, t.keySets, t.issuer, t.gqToken) == Some(KeyRecord(Rsa(w.key), w.alg))
    && VerifyRs256(e.c, e.sha256, w.key, t.idToken)
    && ((forall i :: 0 <= i < |t.draws.rounds| ==> t.draws.rounds[i] < w.key.n) ==>
          Gq256Verify(e.c, e.shake, e.sha256, w.key, t.gqToken) == Ok(0 !in t.draws.rounds))
  }

  // ---------------------------------------------------------------------------
  // From a creation to its parts
  // ---------------------------------------------------------------------------

  lemma CreatedFrom(e: Env, t: Creation) returns (w: View)
    requires Created(e, t)
    ensures |t.draws.rounds| == 16
    ensures SplitCompact(t.idToken) == Some(w.id)
    ensures Base64Url.Decode(w.id.protected) == Some(w.idJson) && !e.c.isNull(w.idJson)
    ensures e.c.decodeHeader(w.idJson) == Some(w.orig) && w.orig.alg == "RS256"
    ensures ByToken(e.c, t.keySets, t.issuer, t.idToken) == Some(KeyRecord(Rsa(w.key), w.alg))
    ensures Gq256Signed(e.c, e.shake, e.sha256, w.key, t.idToken, Extra(e, t, w), t.draws) == Ok(t.gqToken)
  {
    hide SplitCompact, Base64Url.Decode, ByToken, Gq256Signed;
    var id := SplitCompact(t.idToken).value;
    var json := Base64Url.Decode(id.protected).value;
    var record := ByToken(e.c, t.keySets, t.issuer, t.idToken).value;
    w := View(id, id, json, json, e.c.decodeHeader(json).value, record.alg, record.key.key);
  }

  lemma SignedTo(e: Env, t: Creation, key: RsaPublicKey, extra: map<string, Bytes>) returns (gq: Segments)
    requires Sound(e.c) && PlainClaims(extra) && |t.draws.rounds| == 16
    requires Gq256Signed(e.c, e.shake, e.sha256, key, t.idToken, extra, t.draws) == Ok(t.gqToken)
    ensures VerifyRs256(e.c, e.sha256, key, t.idToken)
    ensures Parse(e.c, t.idToken).Some? && Parse(e.c, t.gqToken).Some?
    ensures SplitCompact(t.idToken).Some? && SplitCompact(t.gqToken) == Some(gq)
    ensures var id := SplitCompact(t.idToken).value;
            && gq.payload == id.payload
            && Parse(e.c, t.gqToken).value.header == GqHeader(id.protected, extra)
            && var json := e.c.encodeHeader(GqHeader(id.protected, extra));
            && Base64Url.Decode(gq.protected) == Some(json)
            && e.c.decodeHeader(json) == Some(GqHeader(id.protected, extra)) && !e.c.isNull(json)
  {
    hide SplitCompact, Base64Url.Decode, SignedJwt, NewSignerVerifier, VerifyRs256, Inverted, Signature, RsaSigned,
         PlainClaims, Parse;
    Rs256Signed(e.c, e.sha256, key, t.idToken);
    SignedJwtParses(e.c, e.shake, NewSignerVerifier(key, 256).value, t.idToken, extra, t.draws, t.gqToken);
    gq := SplitCompact(t.gqToken).value;
    SoundIsBase64(e.c);
    assert Ascii(SplitCompact(t.idToken).value.protected) by { ParsedAscii(e.c, t.idToken); }
    MadeHeaderSurvives(e.c, GqHeader(SplitCompact(t.idToken).value.protected, extra));
  }

  lemma ParsedAscii(c: Codec, token: Bytes)
    requires SoundBase64(c) && Parse(c, token).Some?
    ensures Ascii(SplitCompact(token).value.protected)
  {
    hide SplitCompact, Ascii;
  }

  /** jwx and the strict decoder read the same header. */
  lemma ParsedHeader(c: Codec, token: Bytes, id: Segments, idJson: Bytes, orig: Header)
    requires SoundBase64(c) && Parse(c, token).Some?
    requires SplitCompact(token) == Some(id) && Base64Url.Decode(id.protected) == Some(idJson)
    requires c.decodeHeader(idJson) == Some(orig)
    ensures Parse(c, token).value.header == orig
  {
    hide SplitCompact, Base64Url.Decode, Ascii;
  }

  /** The GQ token's kid leads to the key of the original token. */
  lemma SameKey(e: Env, t: Creation, id: Segments, idJson: Bytes, orig: Header, extra: map<string, Bytes>)
    requires SoundBase64(e.c)
    requires SplitCompact(t.idToken) == Some(id) && Base64Url.Decode(id.protected) == Some(idJson)
    requires e.c.decodeHeader(idJson) == Some(orig) && orig.alg == "RS256"
    requires Parse(e.c, t.idToken).Some? && Parse(e.c, t.gqToken).Some?
    requires Parse(e.c, t.gqToken).value.header == GqHeader(id.protected, extra)
    ensures OriginalHeaders(e.c, t.gqToken) == Some(id.protected)
    ensures ByToken(e.c, t.keySets, t.issuer, t.gqToken) == ByToken(e.c, t.keySets, t.issuer, t.idToken)
  {
    hide SplitCompact, Base64Url.Decode, ByToken, Parse, SoundBase64;
    ParsedHeader(e.c, t.idToken, id, idJson, orig);
    ByGqToken(e.c, t.keySets, t.issuer, t.gqToken, id.protected, idJson, orig);
    ByPlainToken(e.c, t.keySets, t.issuer, t.idToken);
  }

  /** The lookup for a GQ token goes by the kid of the original header. */
  lemma ByGqToken(c: Codec, keySets: KeySets, issuer: Bytes, token: Bytes, kid: Bytes, json: Bytes, orig: Header)
    requires Parse(c, token).Some? && Parse(c, token).value.header.alg == "GQ256"
    requires OrEmpty(Parse(c, token).value.header.kid) == kid
    requires Base64Url.Decode(kid) == Some(json) && c.decodeHeader(json) == Some(orig)
    ensures ByToken(c, keySets, issuer, token) == ByKeyId(keySets, issuer, OrEmpty(orig.kid))
  {
    hide Parse, Base64Url.Decode, ByKeyId;
  }

  lemma ByPlainToken(c: Codec, keySets: KeySets, issuer: Bytes, token: Bytes)
    requires Parse(c, token).Some? && Parse(c, token).value.header.alg != "GQ256"
    ensures ByToken(c, keySets, issuer, token)
         == ByKeyId(keySets, issuer, OrEmpty(Parse(c, token).value.header.kid))
  {
    hide Parse, ByKeyId;
  }

  lemma ExtraIsPlain(jkt: Bytes, cicHash: Bytes)
    requires Ascii(jkt) && Ascii(cicHash)
    ensures PlainClaims(ExtraClaims(jkt, cicHash))
  {}

  lemma ViewOf(e: Env, t: Creation) returns (w: View)
    requires SoundEnv(e) && Created(e, t) && Ascii(t.cicHash)
    ensures Parts(e, t, w) && Signatures(e, t, w)
  {
    hide SplitCompact, Base64Url.Decode, ByToken, Gq256Signed, Parse, OriginalHeaders, VerifyRs256, Created, SoundEnv,
         Parts, Signatures, Extra;
    var w0 := CreatedFrom(e, t);
    ExtraOfView(e, t, w0);
    var extra := Extra(e, t, w0);
    var gq := SignedTo(e, t, w0.key, extra);
    SameKey(e, t, w0.id, w0.idJson, w0.orig, extra);
    w := w0.(gq := gq, gqJson := e.c.encodeHeader(GqHeader(w0.id.protected, extra)));
    SameExtra(e, t, w0, w);
    PartsOf(e, t, w);
    SignaturesOf(e, t, w);
  }

  lemma ExtraOfView(e: Env, t: Creation, w: View)
    requires SoundEnv(e) && Ascii(t.cicHash)
    ensures PlainClaims(Extra(e, t, w)) && Sound(e.c) && SoundBase64(e.c)
  {
    hide Sound, PlainClaims, ExtraClaims, Ascii;
    ExtraIsPlain(e.thumbprint(w.key), t.cicHash);
    SoundIsBase64(e.c);
  }

  lemma SameExtra(e: Env, t: Creation, w: View, w': View)
    requires w.key == w'.key
    ensures Extra(e, t, w) == Extra(e, t, w')
  {}

  lemma PartsOf(e: Env, t: Creation, w: View)
    requires SplitCompact(t.idToken) == Some(w.id) && SplitCompact(t.gqToken) == Some(w.gq)
    requires w.gq.payload == w.id.payload
    requires Base64Url.Decode(w.id.protected) == Some(w.idJson) && !e.c.isNull(w.idJson)
    requires e.c.decodeHeader(w.idJson) == Some(w.orig) && w.orig.alg == "RS256"
    requires Base64Url.Decode(w.gq.protected) == Some(w.gqJson) && !e.c.isNull(w.gqJson)
    requires e.c.decodeHeader(w.gqJson) == Some(GqHeader(w.id.protected, Extra(e, t, w)))
    ensures Parts(e, t, w)
  {
    hide SplitCompact, Base64Url.Decode, Extra;
  }

  lemma SignaturesOf(e: Env, t: Creation, w: View)
    requires SoundEnv(e) && PlainClaims(Extra(e, t, w)) && |t.draws.rounds| == 16
    requires OriginalHeaders(e.c, t.gqToken) == Some(w.id.protected)
    requires ByToken(e.c, t.keySets, t.issuer, t.idToken) == Some(KeyRecord(Rsa(w.key), w.alg))
    requires ByToken(e.c, t.keySets, t.issuer, t.gqToken) == Some(KeyRecord(Rsa(w.key), w.alg))
    requires VerifyRs256(e.c, e.sha256, w.key, t.idToken)
    requires Gq256Signed(e.c, e.shake, e.sha256, w.key, t.idToken, Extra(e, t, w), t.draws) == Ok(t.gqToken)
    ensures Signatures(e, t, w)
  {
    hide ByToken, Gq256Signed, Gq256Verify, OriginalHeaders, VerifyRs256, Sound, PlainClaims, Extra;
    if forall i :: 0 <= i < |t.draws.rounds| ==> t.draws.rounds[i] < w.key.n {
      SignedJwtVerifies(e.c, e.shake, e.sha256, w.key, t.idToken, Extra(e, t, w), t.draws, t.gqToken);
    }
  }

  /** A created token parses to the payload of its original and is a GQ token. */
  lemma CreatedPayload(e: Env, t: Creation)
    requires SoundEnv(e) && Created(e, t) && Ascii(t.cicHash)
    ensures Parse(e.c, t.idToken).Some? && Parse(e.c, t.gqToken).Some?
    ensures Parse(e.c, t.gqToken).value.payload == Parse(e.c, t.idToken).value.payload
    ensures Parse(e.c, t.gqToken).value.header.alg == "GQ256"
  {
    hide SplitCompact, Base64Url.Decode, ByToken, Gq256Signed, VerifyRs256, Created, Sound, PlainClaims, ExtraClaims,
         Ascii;
    var w := CreatedFrom(e, t);
    ExtraIsPlain(e.thumbprint(w.key), t.cicHash);
    var gq := SignedTo(e, t, w.key, Extra(e, t, w));
  }

  /** A hash is bound only where the provider commits through GQ signatures. */
  lemma BindingNeedsCommitment(e: Env, keySets: KeySets, issuer: Bytes, idToken: Bytes, cicHash: Bytes, draws: Draws)
    requires |draws.rounds| == 16 && cicHash != []
    ensures CreateGqToken(e, keySets, issuer, idToken, cicHash, false, draws) == Error
  {
    hide SplitCompact, Base64Url.Decode, ByToken, Gq256Signed, ExtraClaims;
  }

  /** A GQ header with the original header segment, a thumbprint and, if there is one, a hash. */
  predicate HeaderShows(header: Header, protected: Bytes, jkt: Bytes, cicHash: Bytes) {
    && header.alg == "GQ256" && header.typ == Some("JWT") && header.kid == Some(protected)
    && "jkt" in header.others && header.others["jkt"] == jkt
    && ("cic" in header.others <==> cicHash != [])
    && ("cic" in header.others ==> header.others["cic"] == cicHash)
  }

  lemma GqHeaderShows(protected: Bytes, jkt: Bytes, cicHash: Bytes)
    ensures HeaderShows(GqHeader(protected, ExtraClaims(jkt, cicHash)), protected, jkt, cicHash)
  {}

  /** A created token shows the header of its original, the thumbprint of the published key and, if bound, the hash. */
  lemma CreatedShows(e: Env, t: Creation) returns (key: RsaPublicKey)
    requires SoundEnv(e) && Created(e, t) && Ascii(t.cicHash)
    ensures Parse(e.c, t.gqToken).Some? && SplitCompact(t.idToken).Some?
    ensures var record := ByToken(e.c, t.keySets, t.issuer, t.idToken); record.Some? && record.value.key == Rsa(key)
    ensures HeaderShows(Parse(e.c, t.gqToken).value.header, SplitCompact(t.idToken).value.protected, e.thumbprint(key),
                        t.cicHash)
  {
    hide SplitCompact, Base64Url.Decode, ByToken, Gq256Signed, VerifyRs256, Created, Sound, PlainClaims, Ascii, Parse,
         HeaderShows, GqHeader, ExtraClaims;
    var w := CreatedFrom(e, t);
    key := w.key;
    ExtraIsPlain(e.thumbprint(key), t.cicHash);
    var gq := SignedTo(e, t, key, Extra(e, t, w));
    GqHeaderShows(w.id.protected, e.thumbprint(key), t.cicHash);
  }

  // ---------------------------------------------------------------------------
  // The verdicts
  // ---------------------------------------------------------------------------

  /** A verifier for the provider that issued the original token. */
  ghost predicate ForProvider(v: Verifier, t: Creation) {
    v.issuer == t.issuer && v.keySets == t.keySets
  }

  /** The draws are what randomNumbers produces: numbers below the modulus. */
  predicate ProperDraws(t: Creation, w: View) {
    forall i :: 0 <= i < |t.draws.rounds| ==> t.draws.rounds[i] < w.key.n
  }

  /** On the original token the verifier finds the signature valid. */
  lemma OriginalSignatureHolds(e: Env, v: Verifier, t: Creation, w: View)
    requires Signatures(e, t, w) && ForProvider(v, t)
    ensures VerifyRsaSig(e, v, t.idToken) == Accept
  {}

  /** On the GQ token it also insists on its own issuer, and sees every draw of zero. */
  lemma GqSignatureHolds(e: Env, v: Verifier, t: Creation, w: View, header: Header, iss: Bytes)
    requires Parts(e, t, w) && Signatures(e, t, w) && ForProvider(v, t) && ProperDraws(t, w)
    requires header.alg == "GQ256"
    ensures VerifyGqSig(e, v, t.gqToken, header, iss)
         == if iss != [] && iss == v.issuer && 0 !in t.draws.rounds then Accept else Reject
  {
    hide SplitCompact, Base64Url.Decode, Gq256Verify, ByToken, OriginalHeaders, VerifyRs256, ExtraClaims, VerifyGqSig;
    GqSigIs(e, v, t.gqToken, header, iss, w.id.protected, w.idJson, w.orig, KeyRecord(Rsa(w.key), w.alg));
  }

  lemma GqSigIs(e: Env, v: Verifier, raw: Bytes, header: Header, iss: Bytes, origB64: Bytes, origJson: Bytes,
                orig: Header, record: KeyRecord)
    requires header.alg == "GQ256" && OriginalHeaders(e.c, raw) == Some(origB64)
    requires Base64Url.Decode(origB64) == Some(origJson) && !e.c.isNull(origJson)
    requires e.c.decodeHeader(origJson) == Some(orig) && orig.alg == "RS256"
    requires ByToken(e.c, v.keySets, v.issuer, raw) == Some(record) && record.key.Rsa?
    requires Gq256Verify(e.c, e.shake, e.sha256, record.key.key, raw).Ok?
    ensures var ok := Gq256Verify(e.c, e.shake, e.sha256, record.key.key, raw).value;
            VerifyGqSig(e, v, raw, header, iss) == if iss != [] && iss == v.issuer && ok then Accept else Reject
  {
    hide Base64Url.Decode, Gq256Verify, ByToken, OriginalHeaders;
  }

  function GqHeaderOf(e: Env, t: Creation, w: View): Header {
    GqHeader(w.id.protected, Extra(e, t, w))
  }

  lemma ParsesTo(c: Codec, token: Bytes, segs: Segments, json: Bytes, header: Header)
    requires SplitCompact(token) == Some(segs) && Base64Url.Decode(segs.protected) == Some(json) && !c.isNull(json)
    requires c.decodeHeader(json) == Some(header)
    ensures var payload := ParsePayload(c, segs.payload);
            if payload.Ok? then NewJwt(c, token) == Ok(IdToken(segs, Some(header), payload.value.1, payload.value.0))
            else !NewJwt(c, token).Ok?
  {
    hide SplitCompact, Base64Url.Decode, ParsePayload;
  }

  /** The two tokens parse alike but for their headers. */
  lemma BothParse(e: Env, t: Creation, w: View)
    requires Parts(e, t, w)
    ensures var payload := ParsePayload(e.c, w.id.payload);
            if payload.Ok? then
              && w.orig.alg == "RS256"
              && NewJwt(e.c, t.idToken) == Ok(IdToken(w.id, Some(w.orig), payload.value.1, payload.value.0))
              && NewJwt(e.c, t.gqToken)
              == Ok(IdToken(w.gq, Some(GqHeaderOf(e, t, w)), payload.value.1, payload.value.0))
            else !NewJwt(e.c, t.idToken).Ok? && !NewJwt(e.c, t.gqToken).Ok?
  {
    hide SplitCompact, Base64Url.Decode, ParsePayload, NewJwt, ExtraClaims;
    ParsesTo(e.c, t.idToken, w.id, w.idJson, w.orig);
    ParsesTo(e.c, t.gqToken, w.gq, w.gqJson, GqHeaderOf(e, t, w));
  }

  /** The issuer the payload names; empty when it does not parse or is null. */
  function Issuer(e: Env, idToken: Bytes): Bytes {
    var idt := NewJwt(e.c, idToken);
    if idt.Ok? && idt.value.claims.Some? then idt.value.claims.value.iss else []
  }

  /** The verdict on a token with a valid RS256 signature rests on its claims and its commitment. */
  lemma RsaVerdict(e: Env, v: Verifier, raw: Bytes, idt: IdToken, header: Header, claims: Claims,
                   cicHash: Option<Bytes>, now: int)
    requires NewJwt(e.c, raw) == Ok(idt) && idt.header == Some(header) && idt.claims == Some(claims)
    requires header.alg == "RS256" && !v.gqOnly && WellConfigured(v)
    requires VerifyRsaSig(e, v, raw) == Accept
    ensures VerifyIdToken(e, v, raw, cicHash, now)
         == if ClaimsAcceptable(v, claims, now) then VerifyCommitment(e.c, v, header, idt.payloadJson, cicHash)
            else Reject
  {
    hide VerifyRsaSig, ClaimsAcceptable, NewJwt, VerifyCommitment;
  }

  lemma GqVerdict(e: Env, v: Verifier, raw: Bytes, idt: IdToken, header: Header, claims: Claims,
                  cicHash: Option<Bytes>, now: int)
    requires NewJwt(e.c, raw) == Ok(idt) && idt.header == Some(header) && idt.claims == Some(claims)
    requires header.alg == "GQ256" && WellConfigured(v)
    ensures VerifyIdToken(e, v, raw, cicHash, now)
         == if !ClaimsAcceptable(v, claims, now) then Reject
            else if VerifyGqSig(e, v, raw, header, claims.iss) != Accept then VerifyGqSig(e, v, raw, header, claims.iss)
            else VerifyCommitment(e.c, v, header, idt.payloadJson, cicHash)
  {
    hide VerifyGqSig, ClaimsAcceptable, NewJwt, VerifyCommitment;
  }

  /** Null claims are never accepted. */
  lemma NullClaims(e: Env, v: Verifier, raw: Bytes, cicHash: Option<Bytes>, now: int)
    requires NewJwt(e.c, raw).Ok? ==> NewJwt(e.c, raw).value.claims.None?
    ensures VerifyIdToken(e, v, raw, cicHash, now) != Accept
  {
    hide NewJwt;
  }

  /** A commitment through a claim depends on the payload alone. */
  lemma CommitmentInPayload(c: Codec, v: Verifier, header: Header, other: Header, payloadJson: Bytes,
                            cicHash: Option<Bytes>)
    requires !v.gqCommitment
    ensures VerifyCommitment(c, v.(gqOnly := false), header, payloadJson, cicHash)
         == VerifyCommitment(c, v, other, payloadJson, cicHash)
  {}

  lemma ClaimVerdict(e: Env, v: Verifier, t: Creation, w: View, cicHash: Option<Bytes>, now: int)
    requires Parts(e, t, w) && Signatures(e, t, w) && ForProvider(v, t) && ProperDraws(t, w)
    requires !v.gqCommitment
    ensures VerifyIdToken(e, v, t.gqToken, cicHash, now) == Accept
       <==> && VerifyIdToken(e, v.(gqOnly := false), t.idToken, cicHash, now) == Accept
            && Issuer(e, t.idToken) != [] && Issuer(e, t.idToken) == v.issuer
            && 0 !in t.draws.rounds
  {
    hide ParsePayload, VerifyRsaSig, VerifyGqSig, CheckExpiration, AudienceHolds, NewJwt, Signatures, Parts, GqHeaderOf,
         VerifyCommitment, VerifyIdToken;
    BothParse(e, t, w);
    var payload := ParsePayload(e.c, w.id.payload);
    var v0 := v.(gqOnly := false);
    if payload.Ok? && payload.value.1.Some? {
      var idt, gqIdt, claims := NewJwt(e.c, t.idToken).value, NewJwt(e.c, t.gqToken).value, payload.value.1.value;
      OriginalSignatureHolds(e, v0, t, w);
      RsaVerdict(e, v0, t.idToken, idt, w.orig, claims, cicHash, now);
      assert GqHeaderOf(e, t, w).alg == "GQ256" by { GqAlg(e, t, w); }
      GqSignatureHolds(e, v, t, w, GqHeaderOf(e, t, w), claims.iss);
      GqVerdict(e, v, t.gqToken, gqIdt, GqHeaderOf(e, t, w), claims, cicHash, now);
      CommitmentInPayload(e.c, v, w.orig, GqHeaderOf(e, t, w), idt.payloadJson, cicHash);
    } else {
      NullClaims(e, v, t.gqToken, cicHash, now);
      NullClaims(e, v0, t.idToken, cicHash, now);
    }
  }

  lemma GqAlg(e: Env, t: Creation, w: View)
    ensures GqHeaderOf(e, t, w).alg == "GQ256"
    ensures GqHeaderOf(e, t, w).others == ExtraClaims(e.thumbprint(w.key), t.cicHash)
  {}

  /** When a token bound to cicHash by its GQ signature is accepted: the commitment is the signed cic header, the
      audience must announce it, and the client ID is not consulted. */
  predicate BoundAcceptable(e: Env, v: Verifier, t: Creation, cicHash: Bytes, now: int) {
    && v.gqOnly && v.claim == "" && v.skipClientIdCheck
    && NewJwt(e.c, t.idToken).Ok?
    && var idt := NewJwt(e.c, t.idToken).value;
    && idt.claims.Some?
    && CheckExpiration(v.policy, idt.claims.value.exp, idt.claims.value.iat, now)
    && idt.claims.value.iss != [] && idt.claims.value.iss == v.issuer
    && 0 !in t.draws.rounds
    && AnnouncesCommitment(e.c, idt.payloadJson)
    && t.cicHash != [] && t.cicHash == cicHash
  }

  lemma BoundVerdict(e: Env, v: Verifier, t: Creation, w: View, cicHash: Bytes, now: int)
    requires Parts(e, t, w) && Signatures(e, t, w) && ForProvider(v, t) && ProperDraws(t, w)
    requires v.gqCommitment
    ensures VerifyIdToken(e, v, t.gqToken, Some(cicHash), now) == Accept <==> BoundAcceptable(e, v, t, cicHash, now)
  {
    hide ParsePayload, VerifyGqSig, CheckExpiration, AudienceHolds, NewJwt, Signatures, Parts, VerifyCommitment,
         GqHeaderOf, AnnouncesCommitment;
    BothParse(e, t, w);
    var payload := ParsePayload(e.c, w.id.payload);
    if payload.Ok? && payload.value.1.Some? && WellConfigured(v) {
      hide VerifyIdToken;
      var gqIdt, claims := NewJwt(e.c, t.gqToken).value, payload.value.1.value;
      GqAlg(e, t, w);
      GqSignatureHolds(e, v, t, w, GqHeaderOf(e, t, w), claims.iss);
      GqVerdict(e, v, t.gqToken, gqIdt, GqHeaderOf(e, t, w), claims, Some(cicHash), now);
      CommitmentInHeader(e.c, v, GqHeaderOf(e, t, w), gqIdt.payloadJson, e.thumbprint(w.key), t.cicHash, cicHash);
    }
  }

  /** The aud claim is a string with the prefix that permits a GQ commitment. */
  predicate AnnouncesCommitment(c: Codec, payloadJson: Bytes) {
    var claims := c.decodeObject(payloadJson);
    && claims.Some?
    && "aud" in claims.value
    && claims.value["aud"].Text?
    && FromAscii(AUD_PREFIX) <= claims.value["aud"].text
  }

  lemma CommitmentInHeader(c: Codec, v: Verifier, header: Header, payloadJson: Bytes, jkt: Bytes, bound: Bytes,
                           cicHash: Bytes)
    requires v.gqCommitment && header.others == ExtraClaims(jkt, bound)
    ensures VerifyCommitment(c, v, header, payloadJson, Some(cicHash)) == Accept
       <==> AnnouncesCommitment(c, payloadJson) && bound != [] && bound == cicHash
  {}

  // ---------------------------------------------------------------------------
  // The theorems
  // ---------------------------------------------------------------------------

  /** The modulus of the key the provider publishes for a token; zero when there is none. */
  function Modulus(e: Env, t: Creation): nat {
    var record := ByToken(e.c, t.keySets, t.issuer, t.idToken);
    if record.Some? && record.value.key.Rsa? then record.value.key.key.n else 0
  }

  /** The draws are below the modulus, as randomNumbers makes them. */
  predicate DrawnBelow(t: Creation, modulus: nat) {
    forall i :: 0 <= i < |t.draws.rounds| ==> t.draws.rounds[i] < modulus
  }

  /** GQ signing preserves the verdict.  For every token CreateGQToken makes, and every verifier of the token's
      provider that commits through a claim: the GQ token is accepted if and only if the verifier, were it not
      restricted to GQ signatures, accepts the original token, the token names the verifier's issuer, and no draw
      was zero. */
  lemma GqSigningPreservesVerdict(e: Env, v: Verifier, t: Creation, cicHash: Option<Bytes>, now: int)
    requires SoundEnv(e) && Created(e, t) && Ascii(t.cicHash)
    requires DrawnBelow(t, Modulus(e, t)) && ForProvider(v, t) && !v.gqCommitment
    ensures VerifyIdToken(e, v, t.gqToken, cicHash, now) == Accept
       <==> && VerifyIdToken(e, v.(gqOnly := false), t.idToken, cicHash, now) == Accept
            && Issuer(e, t.idToken) != [] && Issuer(e, t.idToken) == v.issuer
            && 0 !in t.draws.rounds
  {
    hide VerifyIdToken, Issuer, Created, ByToken, Parts, VerifyRs256, Gq256Verify, OriginalHeaders;
    var w := ViewOf(e, t);
    ClaimVerdict(e, v, t, w, cicHash, now);
  }

  /** A token bound to cicHash by its GQ signature is accepted exactly when BoundAcceptable says so. */
  lemma BoundTokenVerdict(e: Env, v: Verifier, t: Creation, cicHash: Bytes, now: int)
    requires SoundEnv(e) && Created(e, t) && Ascii(t.cicHash)
    requires DrawnBelow(t, Modulus(e, t)) && ForProvider(v, t) && v.gqCommitment
    ensures VerifyIdToken(e, v, t.gqToken, Some(cicHash), now) == Accept <==> BoundAcceptable(e, v, t, cicHash, now)
  {
    hide VerifyIdToken, Created, ByToken, Parts, VerifyRs256, Gq256Verify, OriginalHeaders, BoundAcceptable;
    var w := ViewOf(e, t);
    BoundVerdict(e, v, t, w, cicHash, now);
  }

  /** The ID Token parses to an RS256 header. */
  predicate IsRs256(e: Env, idToken: Bytes) {
    var idt := NewJwt(e.c, idToken);
    idt.Ok? && idt.value.header.Some? && idt.value.header.value.alg == "RS256"
  }

  /** The key the provider publishes for a token can make a GQ token out of it. */
  predicate Convertible(e: Env, keySets: KeySets, issuer: Bytes, idToken: Bytes, draws: Draws) {
    var record := ByToken(e.c, keySets, issuer, idToken);
    && Parse(e.c, idToken).Some?
    && record.Some? && record.value.alg == "RS256" && record.value.key.Rsa?
    && Signable(e.c, record.value.key.key, idToken, draws.blind)
  }

  /** An RS256 token of the verifier's provider that can be converted, and draws that are not zero. */
  predicate ConvertibleBy(e: Env, v: Verifier, idToken: Bytes, draws: Draws) {
    && |draws.rounds| == 16 && IsRs256(e, idToken) && Convertible(e, v.keySets, v.issuer, idToken, draws)
    && var record := ByToken(e.c, v.keySets, v.issuer, idToken).value;
       forall i :: 0 <= i < 16 ==> 0 < draws.rounds[i] < record.key.key.n
  }

  lemma AcceptedSignature(e: Env, v: Verifier, idToken: Bytes, cicHash: Option<Bytes>, now: int)
    requires IsRs256(e, idToken)
    requires VerifyIdToken(e, v, idToken, cicHash, now) == Accept
    ensures VerifyRsaSig(e, v, idToken) == Accept
  {
    hide NewJwt, ClaimsAcceptable, VerifyRsaSig, VerifyGqSig, VerifyCommitment;
  }

  lemma VerifiedParses(c: Codec, sha256: Sha256, key: RsaPublicKey, token: Bytes)
    requires VerifyRs256(c, sha256, key, token)
    ensures Parse(c, token).Some?
  {
    hide Parse, Rs256;
  }

  lemma CreationIs(e: Env, keySets: KeySets, issuer: Bytes, idToken: Bytes, draws: Draws)
    requires |draws.rounds| == 16
    requires IsRs256(e, idToken)
    requires var record := ByToken(e.c, keySets, issuer, idToken); record.Some? && record.value.key.Rsa?
    ensures var record := ByToken(e.c, keySets, issuer, idToken).value;
            CreateGqToken(e, keySets, issuer, idToken, [], false, draws)
            == if record.alg != "RS256" then Error
               else Gq256Signed(e.c, e.shake, e.sha256, record.key.key, idToken,
                                map["jkt" := e.thumbprint(record.key.key)], draws)
  {
    hide SplitCompact, Base64Url.Decode, IsRs256, ByToken, Gq256Signed;
    Rs256Header(e, idToken);
  }

  lemma Rs256Header(e: Env, idToken: Bytes)
    requires IsRs256(e, idToken)
    ensures SplitCompact(idToken).Some?
    ensures var json := Base64Url.Decode(SplitCompact(idToken).value.protected);
            && json.Some? && !e.c.isNull(json.value) && e.c.decodeHeader(json.value).Some?
            && e.c.decodeHeader(json.value).value.alg == "RS256"
  {
    hide SplitCompact, Base64Url.Decode, ParsePayload;
  }

  /** From an RS256 token the verifier accepts, CreateGQToken makes a GQ token if and only if the published key and
      the draws allow it. */
  lemma CreationSucceeds(e: Env, v: Verifier, idToken: Bytes, cicHash: Option<Bytes>, draws: Draws, now: int)
    requires SoundBase64(e.c) && |draws.rounds| == 16
    requires IsRs256(e, idToken)
    requires VerifyIdToken(e, v, idToken, cicHash, now) == Accept
    ensures CreateGqToken(e, v.keySets, v.issuer, idToken, [], false, draws).Ok?
       <==> Convertible(e, v.keySets, v.issuer, idToken, draws)
  {
    hide VerifyIdToken, ByToken, Parse, NewJwt, VerifyRs256, Signable, Gq256Signed, SoundBase64, CreateGqToken;
    AcceptedSignature(e, v, idToken, cicHash, now);
    var key := ByToken(e.c, v.keySets, v.issuer, idToken).value.key.key;
    CreationIs(e, v.keySets, v.issuer, idToken, draws);
    VerifiedParses(e.c, e.sha256, key, idToken);
    SigningSucceeds(e.c, e.shake, e.sha256, key, idToken, map["jkt" := e.thumbprint(key)], draws);
  }

  /** An accepted RS256 token that names the verifier's issuer is still accepted, at the same time, after it has been
      turned into a GQ token with nonzero draws. */
  lemma AcceptedTokenSurvives(e: Env, v: Verifier, idToken: Bytes, cicHash: Option<Bytes>, draws: Draws, now: int)
    returns (gqToken: Bytes)
    requires SoundEnv(e) && !v.gqCommitment && ConvertibleBy(e, v, idToken, draws)
    requires VerifyIdToken(e, v, idToken, cicHash, now) == Accept
    requires Issuer(e, idToken) != [] && Issuer(e, idToken) == v.issuer
    ensures CreateGqToken(e, v.keySets, v.issuer, idToken, [], false, draws) == Ok(gqToken)
    ensures VerifyIdToken(e, v, gqToken, cicHash, now) == Accept
  {
    hide VerifyIdToken, ByToken, Parse, NewJwt, Signable, CreateGqToken, Sound, Issuer, IsRs256;
    SoundIsBase64(e.c);
    CreationSucceeds(e, v, idToken, cicHash, draws, now);
    gqToken := CreateGqToken(e, v.keySets, v.issuer, idToken, [], false, draws).value;
    var t := Creation(v.keySets, v.issuer, idToken, [], draws, gqToken);
    AcceptedUnrestricted(e, v, idToken, cicHash, now);
    GqSigningPreservesVerdict(e, v, t, cicHash, now);
  }

  /** Lifting the restriction to GQ signatures keeps acceptance. */
  lemma AcceptedUnrestricted(e: Env, v: Verifier, idToken: Bytes, cicHash: Option<Bytes>, now: int)
    requires !v.gqCommitment && VerifyIdToken(e, v, idToken, cicHash, now) == Accept
    ensures VerifyIdToken(e, v.(gqOnly := false), idToken, cicHash, now) == Accept
  {
    hide NewJwt, CheckExpiration, AudienceHolds, VerifyGqSig, VerifyRsaSig, VerifyCommitment;
    var idt := NewJwt(e.c, idToken);
    if idt.Ok? && idt.value.claims.Some? && idt.value.header.Some? {
      var header := idt.value.header.value;
      GqSigUnrestricted(e, v, idToken, header, idt.value.claims.value.iss);
      RsaSigUnrestricted(e, v, idToken);
      CommitmentInPayload(e.c, v, header, header, idt.value.payloadJson, cicHash);
    }
  }

  lemma GqSigUnrestricted(e: Env, v: Verifier, raw: Bytes, header: Header, iss: Bytes)
    ensures VerifyGqSig(e, v.(gqOnly := false), raw, header, iss) == VerifyGqSig(e, v, raw, header, iss)
  {
    hide ByToken, Gq256Verify, OriginalHeaders, Base64Url.Decode;
  }

  lemma RsaSigUnrestricted(e: Env, v: Verifier, raw: Bytes)
    ensures VerifyRsaSig(e, v.(gqOnly := false), raw) == VerifyRsaSig(e, v, raw)
  {
    hide ByToken, VerifyRs256;
  }
}
