/** Key discovery, GQ tokens for a provider, and the verdict of a provider verifier on an ID Token. */
module Providers {
  import opened Common
  import opened ByteStrings
  import opened Pkcs1
  import opened Gq1
  import opened GqKeys
  import opened GqTokens
  import opened Jose
  import opened Oidc
  import opened Expiration
  import Base64Url

  /** The hash functions and codecs everything below is computed with. */
  datatype Env = Env(c: Codec, shake: Shake256, sha256: Sha256, thumbprint: RsaPublicKey -> Bytes)

  /** Headers survive JSON, and thumbprints, which are base64url, are ASCII. */
  ghost predicate SoundEnv(e: Env) {
    Sound(e.c) && forall key :: Ascii(e.thumbprint(key))
  }

  // ---------------------------------------------------------------------------
  // Key discovery (discover/discover.go)
  // ---------------------------------------------------------------------------

  datatype PublicKey = Rsa(key: RsaPublicKey) | NotRsa

  /** An entry of a key set; a missing kid or alg reads as empty. */
  datatype Jwk = Jwk(kid: Bytes, alg: string, key: PublicKey)

  datatype KeyRecord = KeyRecord(key: PublicKey, alg: string)

  /** The key sets published by issuers; None when one cannot be fetched. */
  type KeySets = Bytes -> Option<seq<Jwk>>

  function LookupKeyId(keys: seq<Jwk>, kid: Bytes): Option<Jwk> {
    if keys == [] then None
    else if keys[0].kid == kid then Some(keys[0])
    else LookupKeyId(keys[1..], kid)
  }

  /** A key without alg is taken for RS256. */
  function NewKeyRecord(jwk: Jwk): Option<KeyRecord> {
    if jwk.alg == "RS256" || jwk.alg == "ES256" then Some(KeyRecord(jwk.key, jwk.alg))
    else if jwk.alg == "" then Some(KeyRecord(jwk.key, "RS256"))
    else None
  }

  function ByKeyId(keySets: KeySets, issuer: Bytes, kid: Bytes): Option<KeyRecord> {
    var keys := keySets(issuer);
    if keys.None? then None
    else
      var jwk := LookupKeyId(keys.value, kid);
      if jwk.None? then None else NewKeyRecord(jwk.value)
  }

  /** For a GQ token the headers are replaced by the original ones before the kid is looked up. */
  function ByToken(c: Codec, keySets: KeySets, issuer: Bytes, token: Bytes): Option<KeyRecord> {
    var m := Parse(c, token);
    if m.None? then None
    else if m.value.header.alg == "GQ256" then
      var json := Base64Url.Decode(OrEmpty(m.value.header.kid));
      if json.None? then None
      else
        var orig := c.decodeHeader(json.value);
        if orig.None? then None else ByKeyId(keySets, issuer, OrEmpty(orig.value.kid))
    else ByKeyId(keySets, issuer, OrEmpty(m.value.header.kid))
  }

  // ---------------------------------------------------------------------------
  // Creating GQ tokens (providers/gq.go)
  // ---------------------------------------------------------------------------

  function ExtraClaims(jkt: Bytes, cicHash: Bytes): map<string, Bytes> {
    if cicHash == [] then map["jkt" := jkt] else map["jkt" := jkt, "cic" := cicHash]
  }

  /** createGQTokenAllParams, for a provider with the given issuer and key sets. */
  ghost function CreateGqToken(e: Env, keySets: KeySets, issuer: Bytes, idToken: Bytes, cicHash: Bytes,
                               gqCommitment: bool, draws: Draws): Outcome<Bytes>
    requires |draws.rounds| == 16
  {
    var segs := SplitCompact(idToken);
    if cicHash != [] && !gqCommitment then Error
    else if segs.None? then Error
    else
      var headersJson := Base64Url.Decode(segs.value.protected);
      if headersJson.None? then Error
      else if e.c.isNull(headersJson.value) then Panic
      else
        var headers := e.c.decodeHeader(headersJson.value);
        if headers.None? || headers.value.alg != "RS256" then Error
        else
          var opKey := ByToken(e.c, keySets, issuer, idToken);
          if opKey.None? || opKey.value.alg != "RS256" || !opKey.value.key.Rsa? then Error
          else
            var key := opKey.value.key.key;
            Gq256Signed(e.c, e.shake, e.sha256, key, idToken, ExtraClaims(e.thumbprint(key), cicHash), draws)
  }

  // ---------------------------------------------------------------------------
  // The verifier (providers/providerverifier.go)
  // ---------------------------------------------------------------------------

  datatype Verifier = Verifier(
    issuer: Bytes, clientId: Bytes, claim: string, gqCommitment: bool, skipClientIdCheck: bool, gqOnly: bool,
    policy: Policy, keySets: KeySets)

  const AUD_PREFIX: string := "OPENPUBKEY-PKTOKEN:"

  function FromAscii(s: string): Bytes
    requires forall i :: 0 <= i < |s| ==> s[i] < 128 as char
  {
    seq(|s|, i requires 0 <= i < |s| => s[i] as int)
  }

  /** A GQ commitment needs GQ-only signatures, no commitment claim and no client ID check. */
  predicate WellConfigured(v: Verifier) {
    v.gqCommitment ==> v.gqOnly && v.claim == "" && v.skipClientIdCheck
  }

  /** The client ID is one of the comma-separated audiences. */
  predicate AudienceHolds(aud: Bytes, clientId: Bytes) {
    aud != [] && clientId in Split(aud, COMMA)
  }

  method VerifyAudience(aud: Bytes, clientId: Bytes) returns (ok: bool)
    ensures ok <==> AudienceHolds(aud, clientId)
  {
    if aud == [] {
      return false;
    }
    var audiences := Split(aud, COMMA);
    for i := 0 to |audiences|
      invariant clientId !in audiences[..i]
    {
      if audiences[i] == clientId {
        return true;
      }
    }
    assert audiences[..|audiences|] == audiences;
    return false;
  }

  /** Over the joined audience list the check finds exactly its members, as long as none holds a comma; a list of
      one empty audience joins to nothing and is refused. */
  lemma AudienceExact(audiences: seq<Bytes>, clientId: Bytes)
    requires Free(audiences, COMMA)
    ensures AudienceHolds(Join(audiences, COMMA), clientId) <==> clientId in audiences && audiences != [[]]
  {
    if audiences != [] && audiences != [[]] {
      SplitJoin(audiences, COMMA);
      JoinNonempty(audiences);
    }
  }

  lemma JoinNonempty(audiences: seq<Bytes>)
    requires audiences != [] && audiences != [[]]
    ensures Join(audiences, COMMA) != []
  {
    if |audiences| == 1 {
      assert audiences == [audiences[0]];
    }
  }

  function VerifyCommitment(c: Codec, v: Verifier, header: Header, payloadJson: Bytes, cicHash: Option<Bytes>)
    : Verdict
  {
    var claims := c.decodeObject(payloadJson);
    if claims.None? || cicHash.None? then Reject
    else if v.gqCommitment then
      if "aud" !in claims.value then Reject
      else if !claims.value["aud"].Text? then Panics
      else if !(FromAscii(AUD_PREFIX) <= claims.value["aud"].text) then Reject
      else
        var commitment := Claim(header, "cic");
        if commitment == [] || commitment != cicHash.value then Reject else Accept
    else if v.claim == "" || v.claim !in claims.value then Reject
    else if claims.value[v.claim] != Text(cicHash.value) then Reject
    else Accept
  }

  /** A null original header is dereferenced for its alg. */
  function VerifyGqSig(e: Env, v: Verifier, raw: Bytes, header: Header, iss: Bytes): Verdict {
    var origB64 := OriginalHeaders(e.c, raw);
    if header.alg != "GQ256" || origB64.None? then Reject
    else
      var origJson := Base64Url.Decode(origB64.value);
      if origJson.None? then Reject
      else if e.c.isNull(origJson.value) then Panics
      else if e.c.decodeHeader(origJson.value).None? then Reject
      else if e.c.decodeHeader(origJson.value).value.alg != "RS256" then Reject
      else if iss == [] || iss != v.issuer then Reject
      else
        var record := ByToken(e.c, v.keySets, v.issuer, raw);
        if record.None? || !record.value.key.Rsa? then Reject
        else
          match Gq256Verify(e.c, e.shake, e.sha256, record.value.key.key, raw)
          case Error => Reject
          case Panic => Panics
          case Drawing => Reject
          case Ok(ok) => if ok then Accept else Reject
  }

  function VerifyRsaSig(e: Env, v: Verifier, raw: Bytes): Verdict {
    var record := ByToken(e.c, v.keySets, v.issuer, raw);
    if record.None? || !record.value.key.Rsa? then Reject
    else if VerifyRs256(e.c, e.sha256, record.value.key.key, raw) then Accept else Reject
  }

  /** The checks of the claims, before any signature. */
  predicate ClaimsAcceptable(v: Verifier, claims: Claims, now: int) {
    && CheckExpiration(v.policy, claims.exp, claims.iat, now)
    && (v.skipClientIdCheck || AudienceHolds(claims.aud, v.clientId))
  }

  /** The checks from the header on: the algorithm, its signature, the commitment. */
  function VerifyParsed(e: Env, v: Verifier, raw: Bytes, header: Header, iss: Bytes, payloadJson: Bytes,
                        cicHash: Option<Bytes>): Verdict {
    if header.alg == "" then Reject
    else if header.alg != "GQ256" && v.gqOnly then Reject
    else
      var signature :=
        if header.alg == "GQ256" then VerifyGqSig(e, v, raw, header, iss)
        else if header.alg == "RS256" then VerifyRsaSig(e, v, raw)
        else Accept;
      if signature != Accept then signature
      else VerifyCommitment(e.c, v, header, payloadJson, cicHash)
  }

  /** VerifyIDToken at time now; cicHash is the hash of the client instance claims, None if it fails.  Null claims and
      a null header are dereferenced, the claims first. */
  function VerifyIdToken(e: Env, v: Verifier, idToken: Bytes, cicHash: Option<Bytes>, now: int): Verdict {
    if !WellConfigured(v) then Reject
    else
      match NewJwt(e.c, idToken)
      case Error => Reject
      case Panic => Panics
      case Ok(idt) =>
        if idt.claims.None? then Panics
        else if !ClaimsAcceptable(v, idt.claims.value, now) then Reject
        else if idt.header.None? then Panics
        else VerifyParsed(e, v, idToken, idt.header.value, idt.claims.value.iss, idt.payloadJson, cicHash)
  }
}
