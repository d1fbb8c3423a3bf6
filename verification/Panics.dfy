/** Exactly which inputs make the code panic: the parser of ID Tokens, the compact form, GQ verification and the
    provider verifier. */
module Panics {
  import opened Common
  import opened ByteStrings
  import opened Pkcs1
  import opened Gq1
  import opened GqKeys
  import opened GqTokens
  import opened Jose
  import opened Oidc
  import opened CompactForm
  import opened PkTokens
  import opened PkInvariants
  import opened Providers
  import Base64Url

  // ---------------------------------------------------------------------------
  // ID Tokens
  // ---------------------------------------------------------------------------

  /** An audience list with an item that is no string. */
  predicate MixedAudience(aud: Audience) {
    aud.Many? && exists i :: 0 <= i < |aud.items| && aud.items[i].None?
  }

  /** The protected segment is base64url of null or of a header. */
  predicate HeaderDecodes(c: Codec, protected: Bytes) {
    var json := Base64Url.Decode(protected);
    json.Some? && (c.isNull(json.value) || c.decodeHeader(json.value).Some?)
  }

  /** The payload segment is base64url of claims whose audience cannot be joined. */
  predicate MixedPayload(c: Codec, payload: Bytes) {
    var json := Base64Url.Decode(payload);
    && json.Some? && !c.isNull(json.value) && c.decodeClaims(json.value).Some?
    && MixedAudience(c.decodeClaims(json.value).value.aud)
  }

  predicate JwtPanics(c: Codec, token: Bytes) {
    var segs := SplitCompact(token);
    segs.Some? && HeaderDecodes(c, segs.value.protected) && MixedPayload(c, segs.value.payload)
  }

  lemma PayloadPanics(c: Codec, payload: Bytes)
    ensures ParsePayload(c, payload).Panic? <==> MixedPayload(c, payload)
  {
    hide Base64Url.Decode, Join;
  }

  lemma NewJwtPanics(c: Codec, token: Bytes)
    ensures NewJwt(c, token).Panic? <==> JwtPanics(c, token)
  {
    hide Base64Url.Decode, SplitCompact, ParsePayload, MixedPayload;
    if SplitCompact(token).Some? {
      PayloadPanics(c, SplitCompact(token).value.payload);
    }
  }

  // ---------------------------------------------------------------------------
  // The compact form
  // ---------------------------------------------------------------------------

  /** The protected segment is base64url of null. */
  predicate NullHeader(c: Codec, token: Bytes) {
    var segs := SplitCompact(token);
    segs.Some? &&
    var json := Base64Url.Decode(segs.value.protected);
    json.Some? && c.isNull(json.value)
  }

  /** A token that panics while parsed, or when its null header is asked for a typ. */
  predicate TokenPanics(c: Codec, token: Bytes) {
    JwtPanics(c, token) || (NullHeader(c, token) && NewJwt(c, token).Ok?)
  }

  lemma AddingPanics(c: Codec, p: Pkt, token: Bytes)
    ensures AddedByTyp(c, p, token).Panic? <==> TokenPanics(c, token)
  {
    hide Base64Url.Decode, SplitCompact, ParsePayload, JwtPanics, Added;
    NewJwtPanics(c, token);
  }

  /** Token k panics after all before it were added. */
  predicate PanicsAt(c: Codec, p: Pkt, tokens: seq<Bytes>, k: nat)
    requires k < |tokens|
  {
    AllAdded(c, p, tokens[..k]).Ok? && TokenPanics(c, tokens[k])
  }

  lemma PanicsFirst(c: Codec, p: Pkt, tokens: seq<Bytes>)
    requires tokens != []
    ensures PanicsAt(c, p, tokens, 0) <==> AddedByTyp(c, p, tokens[0]).Panic?
  {
    hide TokenPanics, AddedByTyp;
    AddingPanics(c, p, tokens[0]);
  }

  lemma PanicsLater(c: Codec, p: Pkt, tokens: seq<Bytes>, k: nat)
    requires 0 < k < |tokens|
    ensures PanicsAt(c, p, tokens, k) <==>
              var r := AddedByTyp(c, p, tokens[0]); r.Ok? && PanicsAt(c, r.value, tokens[1..], k - 1)
  {
    hide TokenPanics, AddedByTyp;
    assert tokens[..k] == [tokens[0]] + tokens[1..][..k - 1];
    AllAddedStep(c, p, tokens[0], tokens[1..][..k - 1]);
  }

  lemma {:induction false} AllAddedPanics(c: Codec, p: Pkt, tokens: seq<Bytes>)
    ensures AllAdded(c, p, tokens).Panic? <==> exists k :: 0 <= k < |tokens| && PanicsAt(c, p, tokens, k)
    decreases |tokens|
  {
    hide AddedByTyp, PanicsAt;
    if tokens != [] {
      PanicsFirst(c, p, tokens);
      forall k | 0 < k < |tokens|
        ensures PanicsAt(c, p, tokens, k) <==>
                  var r := AddedByTyp(c, p, tokens[0]); r.Ok? && PanicsAt(c, r.value, tokens[1..], k - 1)
      {
        PanicsLater(c, p, tokens, k);
      }
      var r := AddedByTyp(c, p, tokens[0]);
      if r.Ok? {
        AllAddedPanics(c, r.value, tokens[1..]);
        if AllAdded(c, p, tokens).Panic? {
          var k :| 0 <= k < |tokens[1..]| && PanicsAt(c, r.value, tokens[1..], k);
          assert PanicsAt(c, p, tokens, k + 1);
        }
      }
    }
  }

  lemma FromCompactPanics(c: Codec, pktCom: Bytes)
    ensures FromCompact(c, pktCom).Panic? <==>
              && SplitUp(pktCom).Some?
              && var tokens := SplitUp(pktCom).value.0;
                 exists k :: 0 <= k < |tokens| && PanicsAt(c, EMPTY, tokens, k)
  {
    hide SplitUp, AllAdded, PanicsAt;
    if SplitUp(pktCom).Some? {
      AllAddedPanics(c, EMPTY, SplitUp(pktCom).value.0);
    }
  }

  /** A token that both parsers read and whose typ names a slot. */
  predicate Taken(c: Codec, token: Bytes) {
    Reads(c, token) && Parse(c, token).Some? &&
    var header := Parse(c, token).value.header;
    OwnTyp(header) || header.typ == Some("CIC") || header.typ == Some("COS")
  }

  predicate AllTaken(c: Codec, tokens: seq<Bytes>) {
    forall i :: 0 <= i < |tokens| ==> Taken(c, tokens[i])
  }

  /** The tokens all have this payload segment. */
  predicate SharePayload(tokens: seq<Bytes>, payload: Bytes) {
    forall i :: 0 <= i < |tokens| ==>
      SplitCompact(tokens[i]).Some? && SplitCompact(tokens[i]).value.payload == payload
  }

  lemma TakenIsAdded(c: Codec, q: Pkt, token: Bytes, payload: Bytes)
    requires SoundBase64(c) && SplitCompact(token).Some? && SplitCompact(token).value.payload == payload
    requires q.payload.None? || q.payload == c.jwxDecode(payload)
    ensures var r := AddedByTyp(c, q, token);
            (r.Ok? <==> Taken(c, token)) && (r.Ok? ==> r.value.payload == c.jwxDecode(payload))
  {
    hide SplitCompact, NewJwt, SoundBase64;
    if Reads(c, token) && Parse(c, token).Some? {
      SameHeader(c, token);
    }
  }

  lemma {:induction false} AllTakenAreAdded(c: Codec, q: Pkt, tokens: seq<Bytes>, payload: Bytes)
    requires SoundBase64(c) && SharePayload(tokens, payload)
    requires q.payload.None? || q.payload == c.jwxDecode(payload)
    ensures AllAdded(c, q, tokens).Ok? <==> AllTaken(c, tokens)
    decreases |tokens|
  {
    hide SplitCompact, SoundBase64, AddedByTyp, Taken;
    if tokens != [] {
      TakenIsAdded(c, q, tokens[0], payload);
      assert AllTaken(c, tokens) <==> Taken(c, tokens[0]) && AllTaken(c, tokens[1..]) by {
        assert tokens == [tokens[0]] + tokens[1..];
      }
      var r := AddedByTyp(c, q, tokens[0]);
      if r.Ok? {
        AllTakenAreAdded(c, r.value, tokens[1..], payload);
      }
    }
  }

  lemma SplitSharesPayload(pktCom: Bytes)
    requires SplitUp(pktCom).Some?
    ensures exists payload :: SharePayload(SplitUp(pktCom).value.0, payload)
  {
    hide SplitUp, SplitCompact, Interleaved, ThreeSegments;
    var tokens := SplitUp(pktCom).value.0;
    SplitThenCompact(pktCom);
    var segs := AllSegments(tokens).value;
    forall i | 0 <= i < |tokens|
      ensures SplitCompact(tokens[i]).Some? && SplitCompact(tokens[i]).value.payload == segs[0].payload
    {
      SegmentAt(tokens, i);
    }
    assert SharePayload(tokens, segs[0].payload);
  }

  /** The compact form is read exactly when all its tokens can be, so the tokens before a panic are those that can. */
  lemma FromCompactSucceeds(c: Codec, pktCom: Bytes)
    requires SoundBase64(c)
    ensures FromCompact(c, pktCom).Ok? <==> SplitUp(pktCom).Some? && AllTaken(c, SplitUp(pktCom).value.0)
    ensures SplitUp(pktCom).Some? ==>
              var tokens := SplitUp(pktCom).value.0;
              forall k :: 0 <= k < |tokens| ==>
                (PanicsAt(c, EMPTY, tokens, k) <==> AllTaken(c, tokens[..k]) && TokenPanics(c, tokens[k]))
  {
    hide SplitUp, SoundBase64, AllAdded, AllTaken, TokenPanics, SplitCompact;
    if SplitUp(pktCom).Some? {
      var tokens := SplitUp(pktCom).value.0;
      SplitSharesPayload(pktCom);
      var payload :| SharePayload(tokens, payload);
      AllTakenAreAdded(c, EMPTY, tokens, payload);
      forall k | 0 <= k < |tokens|
        ensures AllAdded(c, EMPTY, tokens[..k]).Ok? <==> AllTaken(c, tokens[..k])
      {
        AllTakenAreAdded(c, EMPTY, tokens[..k], payload);
      }
    }
  }

  // ---------------------------------------------------------------------------
  // The provider verifier
  // ---------------------------------------------------------------------------

  /** A GQ token with a proof of the right size for a modulus too short for the padding. */
  predicate ProofTooShort(c: Codec, nBytes: nat, jwt: Bytes) {
    && OriginalHeaders(c, jwt).Some? && nBytes < T_LEN
    && var proof := Base64Url.Decode(SplitCompact(jwt).value.signature);
       proof.Some? && |proof.value| == 16 * (2 + nBytes)
  }

  /** The supported exponent with an even modulus or one too short for the padding. */
  predicate GqKeyPanics(c: Codec, key: RsaPublicKey, jwt: Bytes) {
    key.e == 65537 && (key.n % 2 == 0 || ProofTooShort(c, BytesForBits(BitLen(key.n)), jwt))
  }

  lemma ProofSize(p: Params, proof: Bytes)
    requires p.t == 16 && p.vBytes == 2
    ensures DecodeProof(p, proof).Some? <==>
              var bin := Base64Url.Decode(proof); bin.Some? && |bin.value| == 16 * (2 + p.nBytes)
  {
    hide Base64Url.Decode, Blocks;
    BlocksIsProduct(16, 2);
    BlocksIsProduct(16, p.nBytes);
  }

  lemma VerifyJwtPanics(c: Codec, shake: Shake256, sha256: Sha256, p: Params, jwt: Bytes)
    requires Valid(p)
    ensures VerifyJwt(c, shake, sha256, p, jwt).Panic? <==>
              && OriginalHeaders(c, jwt).Some? && p.nBytes < T_LEN
              && DecodeProof(p, SplitCompact(jwt).value.signature).Some?
  {
    hide OriginalHeaders, DecodeProof, SplitCompact, Accepts, SigningInput, Valid;
  }

  lemma Gq256VerifyPanics(c: Codec, shake: Shake256, sha256: Sha256, key: RsaPublicKey, jwt: Bytes)
    ensures Gq256Verify(c, shake, sha256, key, jwt).Panic? <==> GqKeyPanics(c, key, jwt)
  {
    hide Base64Url.Decode, SplitCompact, OriginalHeaders, BytesForBits, BitLen, NewSignerVerifier, VerifyJwt,
      DecodeProof, Valid, ProofTooShort;
    var r := NewSignerVerifier(key, 256);
    if r.Ok? {
      SupportedKeyPanics(c, shake, sha256, r.value, jwt);
    }
  }

  lemma SupportedKeyPanics(c: Codec, shake: Shake256, sha256: Sha256, p: Params, jwt: Bytes)
    requires Valid(p) && p.t == 16 && p.vBytes == 2
    ensures VerifyJwt(c, shake, sha256, p, jwt).Panic? <==> ProofTooShort(c, p.nBytes, jwt)
  {
    hide Base64Url.Decode, SplitCompact, Parse, VerifyJwt, DecodeProof, Valid;
    VerifyJwtPanics(c, shake, sha256, p, jwt);
    if OriginalHeaders(c, jwt).Some? {
      ProofSize(p, SplitCompact(jwt).value.signature);
    }
  }

  /** The original header of a GQ token is null, or everything up to the proof is in order and the key panics. */
  predicate GqSigPanics(e: Env, v: Verifier, raw: Bytes, header: Header, iss: Bytes) {
    && header.alg == "GQ256" && OriginalHeaders(e.c, raw).Some?
    && var json := Base64Url.Decode(OriginalHeaders(e.c, raw).value);
       json.Some? && (e.c.isNull(json.value) || ReachesPanic(e, v, raw, json.value, iss))
  }

  predicate ReachesPanic(e: Env, v: Verifier, raw: Bytes, origJson: Bytes, iss: Bytes) {
    && e.c.decodeHeader(origJson).Some? && e.c.decodeHeader(origJson).value.alg == "RS256"
    && iss != [] && iss == v.issuer && PublishedKeyPanics(e, v, raw)
  }

  predicate PublishedKeyPanics(e: Env, v: Verifier, raw: Bytes) {
    var record := ByToken(e.c, v.keySets, v.issuer, raw);
    record.Some? && record.value.key.Rsa? && GqKeyPanics(e.c, record.value.key.key, raw)
  }

  lemma VerifyGqSigPanics(e: Env, v: Verifier, raw: Bytes, header: Header, iss: Bytes)
    ensures VerifyGqSig(e, v, raw, header, iss) == Panics <==> GqSigPanics(e, v, raw, header, iss)
  {
    hide Base64Url.Decode, OriginalHeaders, ReachesPanic, ByToken, Gq256Verify;
    if header.alg == "GQ256" && OriginalHeaders(e.c, raw).Some? {
      var json := Base64Url.Decode(OriginalHeaders(e.c, raw).value);
      if json.Some? && !e.c.isNull(json.value) {
        ProofPanics(e, v, raw, header, iss, json.value);
      }
    }
  }

  lemma ProofPanics(e: Env, v: Verifier, raw: Bytes, header: Header, iss: Bytes, origJson: Bytes)
    requires header.alg == "GQ256" && OriginalHeaders(e.c, raw).Some? && !e.c.isNull(origJson)
    requires Base64Url.Decode(OriginalHeaders(e.c, raw).value) == Some(origJson)
    ensures VerifyGqSig(e, v, raw, header, iss) == Panics <==> ReachesPanic(e, v, raw, origJson, iss)
  {
    hide Base64Url.Decode, OriginalHeaders, ByToken, GqKeyPanics, Gq256Verify;
    var record := ByToken(e.c, v.keySets, v.issuer, raw);
    if record.Some? && record.value.key.Rsa? {
      Gq256VerifyPanics(e.c, e.shake, e.sha256, record.value.key.key, raw);
    }
  }

  /** A commitment in the GQ header of a token whose audience is present and no string. */
  predicate CommitmentPanics(c: Codec, v: Verifier, payloadJson: Bytes, cicHash: Option<Bytes>) {
    && v.gqCommitment && cicHash.Some?
    && var claims := c.decodeObject(payloadJson);
       claims.Some? && "aud" in claims.value && claims.value["aud"].Other?
  }

  lemma VerifyCommitmentPanics(c: Codec, v: Verifier, header: Header, payloadJson: Bytes, cicHash: Option<Bytes>)
    ensures VerifyCommitment(c, v, header, payloadJson, cicHash) == Panics <==>
              CommitmentPanics(c, v, payloadJson, cicHash)
  {
    hide FromAscii, Claim;
  }

  /** In the signature or, that accepted, in the commitment. */
  predicate HeaderPanics(e: Env, v: Verifier, raw: Bytes, header: Header, iss: Bytes, payloadJson: Bytes,
                         cicHash: Option<Bytes>) {
    || GqSigPanics(e, v, raw, header, iss)
    || (VerifyGqSig(e, v, raw, header, iss) == Accept && CommitmentPanics(e.c, v, payloadJson, cicHash))
  }

  /** From the header on only a GQ token panics. */
  lemma VerifyParsedPanics(e: Env, v: Verifier, raw: Bytes, header: Header, iss: Bytes, payloadJson: Bytes,
                           cicHash: Option<Bytes>)
    requires WellConfigured(v)
    ensures VerifyParsed(e, v, raw, header, iss, payloadJson, cicHash) == Panics <==>
              HeaderPanics(e, v, raw, header, iss, payloadJson, cicHash)
  {
    hide VerifyGqSig, GqSigPanics, VerifyCommitment, VerifyRsaSig, CommitmentPanics, WellConfigured;
    VerifyGqSigPanics(e, v, raw, header, iss);
    GqSigIsGq(e, v, raw, header, iss);
    RsaSigNeverPanics(e, v, raw);
    VerifyCommitmentPanics(e.c, v, header, payloadJson, cicHash);
    if CommitmentPanics(e.c, v, payloadJson, cicHash) {
      CommitmentIsGqOnly(e.c, v, payloadJson, cicHash);
    }
  }

  lemma CommitmentIsGqOnly(c: Codec, v: Verifier, payloadJson: Bytes, cicHash: Option<Bytes>)
    requires WellConfigured(v) && CommitmentPanics(c, v, payloadJson, cicHash)
    ensures v.gqOnly
  {
  }

  lemma RsaSigNeverPanics(e: Env, v: Verifier, raw: Bytes)
    ensures VerifyRsaSig(e, v, raw) != Panics
  {
    hide ByToken, VerifyRs256;
  }

  lemma GqSigIsGq(e: Env, v: Verifier, raw: Bytes, header: Header, iss: Bytes)
    ensures VerifyGqSig(e, v, raw, header, iss) != Reject ==> header.alg == "GQ256"
  {
    hide Base64Url.Decode, OriginalHeaders, ByToken, Gq256Verify;
  }

  /** Null claims; or acceptable claims and a null header, or a header that leads to a panic. */
  predicate ParsedPanics(e: Env, v: Verifier, idToken: Bytes, idt: IdToken, cicHash: Option<Bytes>, now: int) {
    || idt.claims.None?
    || (&& ClaimsAcceptable(v, idt.claims.value, now)
        && (|| idt.header.None?
            || HeaderPanics(e, v, idToken, idt.header.value, idt.claims.value.iss, idt.payloadJson, cicHash)))
  }

  lemma VerifyIdTokenPanics(e: Env, v: Verifier, idToken: Bytes, cicHash: Option<Bytes>, now: int)
    ensures VerifyIdToken(e, v, idToken, cicHash, now) == Panics <==>
              && WellConfigured(v)
              && (|| JwtPanics(e.c, idToken)
                  || (&& NewJwt(e.c, idToken).Ok?
                      && ParsedPanics(e, v, idToken, NewJwt(e.c, idToken).value, cicHash, now)))
  {
    hide NewJwt, JwtPanics, ClaimsAcceptable, WellConfigured, VerifyParsed, GqSigPanics, VerifyGqSig, CommitmentPanics;
    NewJwtPanics(e.c, idToken);
    if WellConfigured(v) && NewJwt(e.c, idToken).Ok? {
      var idt := NewJwt(e.c, idToken).value;
      if idt.claims.Some? && idt.header.Some? {
        VerifyParsedPanics(e, v, idToken, idt.header.value, idt.claims.value.iss, idt.payloadJson, cicHash);
      }
    }
  }

  // ---------------------------------------------------------------------------
  // Inputs that panic
  // ---------------------------------------------------------------------------

  /** The JSON text null. */
  const NULL: Bytes := [110, 117, 108, 108]

  /** Null as the header of the first token in a compact PK Token. */
  lemma NullHeaderPanics(c: Codec, payload: Bytes, signature: Bytes)
    requires c.isNull(NULL) && ParsePayload(c, payload).Ok? && DOT !in signature && COLON !in signature
    ensures FromCompact(c, Join([payload, Base64Url.Encode(NULL), signature], COLON)) == Panic
  {
    hide Base64Url.Decode, Base64Url.Encode, Join, SplitUp, SplitCompact, ParsePayload, Added;
    var protected := Base64Url.Encode(NULL);
    var token := Jwt(protected, payload, signature);
    NullDecodes();
    Decodable(protected);
    PayloadDecodes(c, payload);
    SplitCompactJwt(protected, payload, signature);
    OneCompacted(protected, payload, signature);
    ColonFreeJwt(protected, payload, signature);
    SplitOfCompacted([token], None);
    AllAddedStep(c, EMPTY, token, []);
  }

  lemma NullDecodes()
    ensures Base64Url.Decode(Base64Url.Encode(NULL)) == Some(NULL)
  {
    Base64Url.DecodeEncode(NULL);
  }

  lemma Decodable(s: Bytes)
    requires Base64Url.Decode(s).Some?
    ensures DOT !in s && COLON !in s
  {
    hide Base64Url.Decode;
    if DOT in s {
      Base64Url.DecodableCharacters(s, DOT);
    }
    if COLON in s {
      Base64Url.DecodableCharacters(s, COLON);
    }
  }

  lemma PayloadDecodes(c: Codec, payload: Bytes)
    requires ParsePayload(c, payload).Ok?
    ensures DOT !in payload && COLON !in payload
  {
    hide Base64Url.Decode;
    Decodable(payload);
  }

  lemma OneCompacted(protected: Bytes, payload: Bytes, signature: Bytes)
    requires DOT !in protected && DOT !in payload && DOT !in signature
    ensures Compacted([Jwt(protected, payload, signature)], None) == Some(Join([payload, protected, signature], COLON))
  {
    hide Join, SplitCompact, AllSegments, Interleaved;
    var token := Jwt(protected, payload, signature);
    var s := Segments(protected, payload, signature);
    SplitCompactJwt(protected, payload, signature);
    OneToken(token, s);
    assert [payload] + [protected, signature] == [payload, protected, signature];
  }

  lemma OneToken(token: Bytes, s: Segments)
    requires SplitCompact(token) == Some(s)
    ensures AllSegments([token]) == Some([s]) && Interleaved([s]) == [s.protected, s.signature]
  {
    hide SplitCompact;
    assert [token][..0] == [] && [s][..0] == [];
    AllSegmentsSnoc([], token);
    assert [] + [token] == [token] && [] + [s] == [s];
  }

  /** Null as the payload of an ID Token. */
  lemma NullClaimsPanic(e: Env, v: Verifier, protected: Bytes, signature: Bytes, cicHash: Option<Bytes>, now: int)
    requires e.c.isNull(NULL) && WellConfigured(v) && HeaderDecodes(e.c, protected) && DOT !in signature
    ensures VerifyIdToken(e, v, Jwt(protected, Base64Url.Encode(NULL), signature), cicHash, now) == Panics
  {
    hide NewJwt, ClaimsAcceptable, VerifyParsed, WellConfigured, HeaderDecodes, Jwt, Base64Url.Encode;
    NullClaims(e.c, protected, signature);
  }

  lemma NullClaims(c: Codec, protected: Bytes, signature: Bytes)
    requires c.isNull(NULL) && HeaderDecodes(c, protected) && DOT !in signature
    ensures var r := NewJwt(c, Jwt(protected, Base64Url.Encode(NULL), signature)); r.Ok? && r.value.claims.None?
  {
    hide Base64Url.Decode, Base64Url.Encode, SplitCompact, Jwt, Join;
    var payload := Base64Url.Encode(NULL);
    NullDecodes();
    Decodable(protected);
    Decodable(payload);
    SplitCompactJwt(protected, payload, signature);
  }
}
