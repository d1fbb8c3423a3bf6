/** What an accepted ID Token is, for every token and verifier: stated over the decoded claims, the published keys and
    the signature relations themselves. */
module Acceptance {
  import opened Common
  import opened ByteStrings
  import opened Pkcs1
  import opened Gq1
  import opened GqKeys
  import opened GqTokens
  import opened Jose
  import opened Oidc
  import opened Expiration
  import opened PkInvariants
  import opened Providers
  import Base64Url

  // ---------------------------------------------------------------------------
  // Key discovery
  // ---------------------------------------------------------------------------

  /** Entry i is the first with this kid. */
  predicate FirstWithKid(keys: seq<Jwk>, kid: Bytes, i: nat) {
    i < |keys| && keys[i].kid == kid && forall j :: 0 <= j < i ==> keys[j].kid != kid
  }

  lemma {:induction false} LookupExactly(keys: seq<Jwk>, kid: Bytes, i: nat)
    ensures FirstWithKid(keys, kid, i) ==> LookupKeyId(keys, kid) == Some(keys[i])
    ensures LookupKeyId(keys, kid).None? <==> forall j :: 0 <= j < |keys| ==> keys[j].kid != kid
  {
    if keys != [] {
      assert keys == [keys[0]] + keys[1..];
      LookupExactly(keys[1..], kid, if i > 0 then i - 1 else 0);
      if i > 0 && FirstWithKid(keys, kid, i) {
        assert FirstWithKid(keys[1..], kid, i - 1);
      }
    }
  }

  lemma {:induction false} FirstExists(keys: seq<Jwk>, kid: Bytes) returns (i: nat)
    requires LookupKeyId(keys, kid).Some?
    ensures FirstWithKid(keys, kid, i)
  {
    if keys[0].kid == kid {
      i := 0;
    } else {
      var k := FirstExists(keys[1..], kid);
      i := k + 1;
      forall j | 0 <= j < i
        ensures keys[j].kid != kid
      {
        assert j > 0 ==> keys[j] == keys[1..][j - 1];
      }
    }
  }

  /** The issuer's key set has this RSA key in its first entry with the kid, for a known algorithm or none. */
  ghost predicate Publishes(keySets: KeySets, issuer: Bytes, kid: Bytes, key: RsaPublicKey) {
    var keys := keySets(issuer);
    keys.Some? && exists i: nat :: FirstWithKid(keys.value, kid, i) && ServesAs(keys.value[i], key)
  }

  predicate ServesAs(jwk: Jwk, key: RsaPublicKey) {
    jwk.key == Rsa(key) && (jwk.alg == "" || jwk.alg == "RS256" || jwk.alg == "ES256")
  }

  lemma ByKeyIdExactly(keySets: KeySets, issuer: Bytes, kid: Bytes, key: RsaPublicKey)
    ensures var record := ByKeyId(keySets, issuer, kid);
            Publishes(keySets, issuer, kid, key) <==> record.Some? && record.value.key == Rsa(key)
  {
    hide LookupKeyId, FirstWithKid;
    var keys := keySets(issuer);
    if keys.Some? {
      if LookupKeyId(keys.value, kid).Some? {
        var i := FirstExists(keys.value, kid);
        LookupExactly(keys.value, kid, i);
      }
      forall i: nat | FirstWithKid(keys.value, kid, i)
        ensures i < |keys.value| && LookupKeyId(keys.value, kid) == Some(keys.value[i])
      {
        FirstInRange(keys.value, kid, i);
        LookupExactly(keys.value, kid, i);
      }
    }
  }

  lemma FirstInRange(keys: seq<Jwk>, kid: Bytes, i: nat)
    requires FirstWithKid(keys, kid, i)
    ensures i < |keys|
  {}

  /** A key without an algorithm is taken for RS256. */
  lemma RecordAlg(keySets: KeySets, issuer: Bytes, kid: Bytes, i: nat)
    requires keySets(issuer).Some? && FirstWithKid(keySets(issuer).value, kid, i)
    ensures var jwk, record := keySets(issuer).value[i], ByKeyId(keySets, issuer, kid);
            && (record.Some? <==> jwk.alg in ["", "RS256", "ES256"])
            && (record.Some? ==> record.value == KeyRecord(jwk.key, if jwk.alg == "" then "RS256" else jwk.alg))
  {
    hide LookupKeyId;
    LookupExactly(keySets(issuer).value, kid, i);
  }

  // ---------------------------------------------------------------------------
  // Claims
  // ---------------------------------------------------------------------------

  /** Every item of an audience list is a string. */
  predicate OnlyStrings(aud: Audience) {
    aud.Many? ==> forall i :: 0 <= i < |aud.items| ==> aud.items[i].Some?
  }

  /** The header, the claims and the payload of a token, none of them null. */
  function ReadToken(c: Codec, token: Bytes): Option<(Header, RawClaims, Bytes)> {
    var segs := SplitCompact(token);
    if segs.None? then None
    else
      var header := ReadHeader(c, Base64Url.Decode(segs.value.protected));
      var payload := ReadClaims(c, Base64Url.Decode(segs.value.payload));
      if header.None? || payload.None? then None else Some((header.value, payload.value.0, payload.value.1))
  }

  function ReadHeader(c: Codec, json: Option<Bytes>): Option<Header> {
    if json.None? || c.isNull(json.value) then None else c.decodeHeader(json.value)
  }

  function ReadClaims(c: Codec, json: Option<Bytes>): (r: Option<(RawClaims, Bytes)>)
    ensures r.Some? ==> OnlyStrings(r.value.0.aud)
  {
    if json.None? || c.isNull(json.value) then None
    else
      var claims := c.decodeClaims(json.value);
      if claims.None? || !OnlyStrings(claims.value.aud) then None else Some((claims.value, json.value))
  }

  /** The audience as one string. */
  function Joined(aud: Audience): Bytes
    requires OnlyStrings(aud)
  {
    match aud
    case One(v) => v
    case Many(items) => Join(seq(|items|, i requires 0 <= i < |items| => items[i].value), COMMA)
    case Unusable => []
  }

  /** The parser returns header and claims exactly if both are there, each claim where it belongs. */
  lemma ParsedExactly(c: Codec, token: Bytes)
    ensures var idt, read := NewJwt(c, token), ReadToken(c, token);
            && (read.Some? <==> idt.Ok? && idt.value.header.Some? && idt.value.claims.Some?)
            && (read.Some? ==>
                  var (header, raw, json) := read.value;
                  && OnlyStrings(raw.aud)
                  && idt.value.header == Some(header) && idt.value.payloadJson == json
                  && idt.value.claims == Some(Claims(raw.iss, Joined(raw.aud), raw.exp, raw.iat)))
  {
    hide SplitCompact, Base64Url.Decode, Join;
  }

  /** The policy of the verifier, over true integers. */
  predicate NotExpired(policy: Policy, exp: Int64, iat: Int64, now: int) {
    && (policy.checkExpClaim ==> 0 < exp && now < exp * SECOND)
    && (policy.checkMaxAge ==> && 0 < iat && 0 < policy.maxAge && iat + policy.maxAge < TWO_TO_THE_63
                               && now < (iat + policy.maxAge) * SECOND)
  }

  lemma NotExpiredExactly(policy: Policy, exp: Int64, iat: Int64, now: int)
    ensures CheckExpiration(policy, exp, iat, now) <==> NotExpired(policy, exp, iat, now)
  {
    MaxAgeExact(iat, policy.maxAge, now);
  }

  /** A list without commas names exactly its members, unless it is one empty string. */
  lemma AudienceListExact(items: seq<Option<Bytes>>, clientId: Bytes)
    requires forall i :: 0 <= i < |items| ==> items[i].Some? && COMMA !in items[i].value
    ensures var joined := JoinAudience(Many(items));
            joined.Ok? &&
            (AudienceHolds(joined.value, clientId) <==> Some(clientId) in items && items != [Some([])])
  {
    hide Join, AudienceHolds;
    var values := seq(|items|, i requires 0 <= i < |items| => items[i].value);
    assert Free(values, COMMA);
    AudienceExact(values, clientId);
    assert clientId in values <==> Some(clientId) in items by {
      if clientId in values {
        var i :| 0 <= i < |values| && values[i] == clientId;
        assert items[i] == Some(clientId);
      }
      if Some(clientId) in items {
        var i :| 0 <= i < |items| && items[i] == Some(clientId);
        assert values[i] == clientId;
      }
    }
    assert values == [[]] <==> items == [Some([])] by {
      if values == [[]] {
        assert items[0] == Some(values[0]);
      }
    }
  }

  // ---------------------------------------------------------------------------
  // Signatures
  // ---------------------------------------------------------------------------

  /** The key's RSA signature over the first two segments and the dot between them. */
  predicate RsaVerifies(e: Env, key: RsaPublicKey, token: Bytes) {
    var m, segs := Parse(e.c, token), SplitCompact(token);
    m.Some? && Rs256(e.sha256, key, segs.value.protected + [DOT] + segs.value.payload, m.value.signature)
  }

  /** A GQ proof of the key's signature over the original header segment and the payload. */
  predicate GqVerifies(e: Env, key: RsaPublicKey, origHeader: Bytes, token: Bytes) {
    var p, segs := NewSignerVerifier(key, 256), SplitCompact(token);
    p.Ok? && segs.Some? &&
    var input := origHeader + [DOT] + segs.value.payload;
    Checked(p.value, e.shake, e.sha256, segs.value.signature, input, input) == Ok(true)
  }

  /** The RSA signature verifies under the key published for the kid. */
  ghost predicate SignedByRsa(e: Env, v: Verifier, token: Bytes, header: Header) {
    exists key :: Publishes(v.keySets, v.issuer, OrEmpty(header.kid), key) && RsaVerifies(e, key, token)
  }

  /** The kid is an RS256 header, and the GQ proof verifies under the key published for the kid of that. */
  ghost predicate SignedByGq(e: Env, v: Verifier, token: Bytes, header: Header, iss: Bytes) {
    && iss == v.issuer && iss != [] && Parse(e.c, token).Some?
    && var orig := ReadHeader(e.c, Base64Url.Decode(OrEmpty(header.kid)));
       orig.Some? && orig.value.alg == "RS256" && ProvedUnder(e, v, token, OrEmpty(header.kid), OrEmpty(orig.value.kid))
  }

  ghost predicate ProvedUnder(e: Env, v: Verifier, token: Bytes, origHeader: Bytes, kid: Bytes) {
    exists key :: Publishes(v.keySets, v.issuer, kid, key) && GqVerifies(e, key, origHeader, token)
  }

  /** Two parsers, one header. */
  lemma HeaderRead(c: Codec, token: Bytes)
    requires SoundBase64(c) && ReadToken(c, token).Some? && Parse(c, token).Some?
    ensures Parse(c, token).value.header == ReadToken(c, token).value.0
  {
    hide NewJwt, Parse, ReadToken, SoundBase64;
    ParsedExactly(c, token);
    SameHeader(c, token);
  }

  lemma RsaExactly(e: Env, v: Verifier, token: Bytes, header: Header)
    requires Parse(e.c, token).Some? ==> Parse(e.c, token).value.header == header
    requires header.alg == "RS256"
    ensures VerifyRsaSig(e, v, token) == Accept <==> SignedByRsa(e, v, token, header)
  {
    hide Parse, ByKeyId, Publishes, VerifyRs256, RsaVerifies, SplitCompact;
    var record := ByKeyId(v.keySets, v.issuer, OrEmpty(header.kid));
    forall key
      ensures Publishes(v.keySets, v.issuer, OrEmpty(header.kid), key) <==>
                record.Some? && record.value.key == Rsa(key)
      ensures VerifyRs256(e.c, e.sha256, key, token) <==> RsaVerifies(e, key, token)
      ensures RsaVerifies(e, key, token) ==> Parse(e.c, token).Some?
    {
      ByKeyIdExactly(v.keySets, v.issuer, OrEmpty(header.kid), key);
      RsaVerifiesExactly(e, key, token);
    }
    if record.Some? && record.value.key.Rsa? {
      assert Publishes(v.keySets, v.issuer, OrEmpty(header.kid), record.value.key.key);
    }
  }

  lemma RsaVerifiesExactly(e: Env, key: RsaPublicKey, token: Bytes)
    ensures VerifyRs256(e.c, e.sha256, key, token) <==> RsaVerifies(e, key, token)
    ensures RsaVerifies(e, key, token) ==> Parse(e.c, token).Some?
  {
    hide Parse, Rs256, SplitCompact, SigningInput;
    if Parse(e.c, token).Some? {
      SigningInputIs(SplitCompact(token).value.protected, SplitCompact(token).value.payload);
    }
  }

  /** The key found for the token verifies it. */
  predicate FoundKeyVerifies(e: Env, token: Bytes, record: Option<KeyRecord>) {
    && record.Some? && record.value.key.Rsa?
    && Gq256Verify(e.c, e.shake, e.sha256, record.value.key.key, token) == Ok(true)
  }

  lemma GqExactly(e: Env, v: Verifier, token: Bytes, header: Header, iss: Bytes)
    requires Parse(e.c, token).Some? ==> Parse(e.c, token).value.header == header
    requires header.alg == "GQ256"
    ensures VerifyGqSig(e, v, token, header, iss) == Accept <==> SignedByGq(e, v, token, header, iss)
  {
    hide Parse, Base64Url.Decode, VerifyGqSig, ProvedUnder;
    var orig := ReadHeader(e.c, Base64Url.Decode(OrEmpty(header.kid)));
    if Parse(e.c, token).Some? && orig.Some? {
      GqFoundExactly(e, v, token, header, orig.value);
      KidIsOriginal(e.c, token, header);
      GqSigOnKey(e, v, token, header, iss, orig.value);
    } else {
      GqSigWithout(e, v, token, header, iss);
    }
  }

  lemma GqSigWithout(e: Env, v: Verifier, token: Bytes, header: Header, iss: Bytes)
    requires Parse(e.c, token).Some? ==> Parse(e.c, token).value.header == header
    requires Parse(e.c, token).None? || ReadHeader(e.c, Base64Url.Decode(OrEmpty(header.kid))).None?
    ensures VerifyGqSig(e, v, token, header, iss) != Accept
  {
    hide Parse, Base64Url.Decode, ByToken, Gq256Verify;
  }

  lemma GqSigOnKey(e: Env, v: Verifier, token: Bytes, header: Header, iss: Bytes, orig: Header)
    requires header.alg == "GQ256" && OriginalHeaders(e.c, token) == Some(OrEmpty(header.kid))
    requires ReadHeader(e.c, Base64Url.Decode(OrEmpty(header.kid))) == Some(orig)
    ensures VerifyGqSig(e, v, token, header, iss) == Accept
       <==> && orig.alg == "RS256" && iss != [] && iss == v.issuer
            && FoundKeyVerifies(e, token, ByToken(e.c, v.keySets, v.issuer, token))
  {
    hide OriginalHeaders, Base64Url.Decode, ByToken, Gq256Verify, OrEmpty;
  }

  lemma KidIsOriginal(c: Codec, token: Bytes, header: Header)
    requires Parse(c, token).Some? && Parse(c, token).value.header == header && header.alg == "GQ256"
    ensures OriginalHeaders(c, token) == Some(OrEmpty(header.kid))
  {
    hide Parse;
  }

  /** The published key under which the GQ proof verifies. */
  lemma GqFoundExactly(e: Env, v: Verifier, token: Bytes, header: Header, orig: Header)
    requires Parse(e.c, token).Some? && Parse(e.c, token).value.header == header && header.alg == "GQ256"
    requires ReadHeader(e.c, Base64Url.Decode(OrEmpty(header.kid))) == Some(orig)
    ensures FoundKeyVerifies(e, token, ByToken(e.c, v.keySets, v.issuer, token))
       <==> ProvedUnder(e, v, token, OrEmpty(header.kid), OrEmpty(orig.kid))
  {
    hide Parse, ByKeyId, Publishes, Gq256Verify, GqVerifies, Base64Url.Decode;
    var kid := OrEmpty(orig.kid);
    var record := ByKeyId(v.keySets, v.issuer, kid);
    assert ByToken(e.c, v.keySets, v.issuer, token) == record;
    if FoundKeyVerifies(e, token, record) {
      ByKeyIdExactly(v.keySets, v.issuer, kid, record.value.key.key);
      GqVerifiesExactly(e, record.value.key.key, token, header);
    }
    if ProvedUnder(e, v, token, OrEmpty(header.kid), kid) {
      var key :| Publishes(v.keySets, v.issuer, kid, key) && GqVerifies(e, key, OrEmpty(header.kid), token);
      ByKeyIdExactly(v.keySets, v.issuer, kid, key);
      GqVerifiesExactly(e, key, token, header);
    }
  }

  lemma GqVerifiesExactly(e: Env, key: RsaPublicKey, token: Bytes, header: Header)
    requires Parse(e.c, token).Some? && Parse(e.c, token).value.header == header && header.alg == "GQ256"
    ensures Gq256Verify(e.c, e.shake, e.sha256, key, token) == Ok(true) <==>
              GqVerifies(e, key, OrEmpty(header.kid), token)
  {
    hide Parse, SplitCompact, NewSignerVerifier, Checked, SigningInput;
    SigningInputIs(OrEmpty(header.kid), SplitCompact(token).value.payload);
  }

  // ---------------------------------------------------------------------------
  // The verdict
  // ---------------------------------------------------------------------------

  /** The token commits to h: through the cic claim of a GQ header under an audience that announces it, or through the
      claim of the payload that the verifier names. */
  predicate CommitsTo(c: Codec, v: Verifier, header: Header, json: Bytes, h: Bytes) {
    var claims := c.decodeObject(json);
    claims.Some? &&
    if v.gqCommitment then
      && "aud" in claims.value && claims.value["aud"].Text?
      && FromAscii("OPENPUBKEY-PKTOKEN:") <= claims.value["aud"].text
      && "cic" in header.others && header.others["cic"] == h && h != []
    else v.claim != "" && v.claim in claims.value && claims.value[v.claim] == Text(h)
  }

  lemma CommitmentExactly(c: Codec, v: Verifier, header: Header, json: Bytes, cicHash: Option<Bytes>)
    ensures VerifyCommitment(c, v, header, json, cicHash) == Accept
       <==> cicHash.Some? && CommitsTo(c, v, header, json, cicHash.value)
  {
    hide FromAscii;
  }

  predicate NamesClient(v: Verifier, aud: Audience)
    requires OnlyStrings(aud)
  {
    v.skipClientIdCheck || (Joined(aud) != [] && v.clientId in Split(Joined(aud), COMMA))
  }

  /** The algorithm is allowed, and RS256 and GQ256 come with their signature. */
  ghost predicate SignedByProvider(e: Env, v: Verifier, token: Bytes, header: Header, iss: Bytes) {
    && header.alg != "" && (v.gqOnly ==> header.alg == "GQ256")
    && (header.alg == "RS256" ==> SignedByRsa(e, v, token, header))
    && (header.alg == "GQ256" ==> SignedByGq(e, v, token, header, iss))
  }

  /** All that is asked of an ID Token for a client with hash h. */
  ghost predicate Acceptable(e: Env, v: Verifier, token: Bytes, h: Bytes, now: int) {
    && (v.gqCommitment ==> v.gqOnly && v.claim == "" && v.skipClientIdCheck)
    && ReadToken(e.c, token).Some?
    && var (header, raw, json) := ReadToken(e.c, token).value;
    && NotExpired(v.policy, raw.exp, raw.iat, now) && OnlyStrings(raw.aud) && NamesClient(v, raw.aud)
    && SignedByProvider(e, v, token, header, raw.iss)
    && CommitsTo(e.c, v, header, json, h)
  }

  lemma FromHeaderExactly(e: Env, v: Verifier, token: Bytes, header: Header, iss: Bytes, json: Bytes,
                          cicHash: Option<Bytes>)
    requires Parse(e.c, token).Some? ==> Parse(e.c, token).value.header == header
    ensures VerifyParsed(e, v, token, header, iss, json, cicHash) == Accept
       <==> && SignedByProvider(e, v, token, header, iss)
            && cicHash.Some? && CommitsTo(e.c, v, header, json, cicHash.value)
  {
    hide Parse, VerifyGqSig, VerifyRsaSig, VerifyCommitment, SignedByRsa, SignedByGq, CommitsTo;
    CommitmentExactly(e.c, v, header, json, cicHash);
    if header.alg == "RS256" {
      RsaExactly(e, v, token, header);
    } else if header.alg == "GQ256" {
      GqExactly(e, v, token, header, iss);
    }
  }

  /** An ID Token is accepted exactly if it is acceptable for the hash of the client's claims. */
  lemma IdTokenExactly(e: Env, v: Verifier, token: Bytes, cicHash: Option<Bytes>, now: int)
    requires SoundBase64(e.c)
    ensures VerifyIdToken(e, v, token, cicHash, now) == Accept
       <==> cicHash.Some? && Acceptable(e, v, token, cicHash.value, now)
  {
    hide SoundBase64, NewJwt, ReadToken, Parse, VerifyParsed, SignedByProvider, CommitsTo, CheckExpiration, NotExpired,
         Split, Joined;
    ParsedExactly(e.c, token);
    if ReadToken(e.c, token).Some? {
      var (header, raw, json) := ReadToken(e.c, token).value;
      if Parse(e.c, token).Some? {
        HeaderRead(e.c, token);
      }
      NotExpiredExactly(v.policy, raw.exp, raw.iat, now);
      FromHeaderExactly(e, v, token, header, raw.iss, json, cicHash);
    } else {
      NotReadNotAccepted(e, v, token, cicHash, now);
    }
  }

  lemma NotReadNotAccepted(e: Env, v: Verifier, token: Bytes, cicHash: Option<Bytes>, now: int)
    requires var idt := NewJwt(e.c, token); !(idt.Ok? && idt.value.header.Some? && idt.value.claims.Some?)
    ensures VerifyIdToken(e, v, token, cicHash, now) != Accept
  {
    hide NewJwt, VerifyParsed, ClaimsAcceptable;
  }

  /** A token commits to one hash. */
  lemma CommitsToOne(c: Codec, v: Verifier, header: Header, json: Bytes, h: Bytes, h': Bytes)
    requires CommitsTo(c, v, header, json, h) && CommitsTo(c, v, header, json, h')
    ensures h == h'
  {
    hide FromAscii;
  }

  /** Whatever the clock reads, an ID Token is accepted for the claims of one client only. */
  lemma OneClient(e: Env, v: Verifier, token: Bytes, cicHash: Option<Bytes>, other: Option<Bytes>, now: int, then': int)
    requires SoundBase64(e.c)
    requires VerifyIdToken(e, v, token, cicHash, now) == Accept
    requires VerifyIdToken(e, v, token, other, then') == Accept
    ensures cicHash.Some? && cicHash == other
  {
    hide SoundBase64, VerifyIdToken, ReadToken, SignedByProvider, CommitsTo, NotExpired, NamesClient;
    IdTokenExactly(e, v, token, cicHash, now);
    IdTokenExactly(e, v, token, other, then');
    var (header, raw, json) := ReadToken(e.c, token).value;
    CommitsToOne(e.c, v, header, json, cicHash.value, other.value);
  }
}
