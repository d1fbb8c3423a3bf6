/** A small world of codecs, hashes and signatures in which everything assumed of foreign code holds at once. */
module Assumptions {
  import opened Common
  import opened ByteStrings
  import opened Jose
  import opened PkTokens
  import opened PkInvariants
  import opened PkJson
  import opened Osm
  import opened AuthIds
  import opened AuthStore
  import opened StoreThreads
  import opened StoreRuns
  import opened AuthCosigning
  import opened Verification
  import opened EndToEnd
  import Base64Url
  import GqKeys
  import Providers

  const SEPARATOR: Byte := 255

  // ---------------------------------------------------------------------------
  // Texts and numbers
  // ---------------------------------------------------------------------------

  function FromText(s: string): (b: Bytes)
    requires AsciiText(s)
    ensures Ascii(b) && ToText(b) == s
  {
    seq(|s|, i requires 0 <= i < |s| => s[i] as int)
  }

  function ToText(b: Bytes): string {
    seq(|b|, i requires 0 <= i < |b| => b[i] as char)
  }

  /** Base 128, so that every digit is ASCII. */
  function Digits(n: nat): (b: Bytes)
    ensures Ascii(b) && Number(b) == n
  {
    if n == 0 then [] else [n % 128] + Digits(n / 128)
  }

  function Number(b: Bytes): nat {
    if b == [] then 0 else b[0] + 128 * Number(b[1..])
  }

  function FromTime(t: Int64): (b: Bytes)
    ensures Ascii(b) && ToTime(b) == Some(t)
  {
    Digits(t + TWO_TO_THE_63)
  }

  function ToTime(b: Bytes): Option<Int64> {
    var n := Number(b);
    if n < 2 * TWO_TO_THE_63 then Some(n - TWO_TO_THE_63) else None
  }

  ghost predicate AllAscii(parts: seq<Bytes>) {
    forall i :: 0 <= i < |parts| ==> Ascii(parts[i])
  }

  /** ASCII parts come back apart. */
  lemma PartsSurvive(parts: seq<Bytes>)
    requires AllAscii(parts) && parts != []
    ensures Split(Join(parts, SEPARATOR), SEPARATOR) == parts
  {
    forall i | 0 <= i < |parts|
      ensures SEPARATOR !in parts[i]
    {
      assert Ascii(parts[i]);
    }
    SplitJoin(parts, SEPARATOR);
  }

  // ---------------------------------------------------------------------------
  // Headers
  // ---------------------------------------------------------------------------

  predicate AsciiClaims(claims: map<string, Bytes>) {
    forall name <- claims :: AsciiText(name) && Ascii(claims[name])
  }

  /** Names and values one after the other. */
  ghost function Listing(claims: map<string, Bytes>): (parts: seq<Bytes>)
    requires AsciiClaims(claims)
    ensures AllAscii(parts)
    decreases |claims|
  {
    if claims == map[] then []
    else
      var name :| name in claims;
      Shrinks(claims, name);
      [FromText(name), claims[name]] + Listing(claims - {name})
  }

  lemma Shrinks(claims: map<string, Bytes>, name: string)
    requires name in claims
    ensures |claims - {name}| < |claims|
  {
    assert (claims - {name}).Keys == claims.Keys - {name};
    assert |(claims - {name}).Keys| == |claims - {name}| && |claims.Keys| == |claims|;
  }

  function Relisted(parts: seq<Bytes>): map<string, Bytes>
    decreases |parts|
  {
    if |parts| < 2 then map[] else Relisted(parts[2..])[ToText(parts[0]) := parts[1]]
  }

  lemma RelistStep(name: string, value: Bytes, rest: seq<Bytes>)
    requires AsciiText(name)
    ensures Relisted([FromText(name), value] + rest) == Relisted(rest)[name := value]
  {
    hide FromText, ToText;
    assert ([FromText(name), value] + rest)[2..] == rest;
  }

  lemma PutBack(claims: map<string, Bytes>, name: string)
    requires name in claims
    ensures (claims - {name})[name := claims[name]] == claims
  {}

  lemma {:induction false} ListingSurvives(claims: map<string, Bytes>)
    requires AsciiClaims(claims)
    ensures Relisted(Listing(claims)) == claims
    decreases |claims|
  {
    hide FromText, Relisted, Ascii, AsciiText;
    if claims == map[] {
      NoneListed();
    } else {
      var name :| name in claims && Listing(claims) == [FromText(name), claims[name]] + Listing(claims - {name});
      Shrinks(claims, name);
      ListingSurvives(claims - {name});
      RelistStep(name, claims[name], Listing(claims - {name}));
      PutBack(claims, name);
    }
  }

  lemma NoneListed()
    ensures Relisted([]) == map[]
  {}

  /** A header with a typ and a kid, of ASCII text throughout. */
  predicate AsciiHeader(h: Header) {
    && AsciiText(h.alg) && h.typ.Some? && AsciiText(h.typ.value) && h.kid.Some? && Ascii(h.kid.value)
    && AsciiClaims(h.others)
  }

  ghost function HeaderParts(h: Header): (parts: seq<Bytes>)
    requires AsciiHeader(h)
    ensures AllAscii(parts) && |parts| >= 4 && parts[0] == [0]
  {
    [[0], FromText(h.alg), FromText(h.typ.value), h.kid.value] + Listing(h.others)
  }

  ghost function EncodeHeader(h: Header): Bytes {
    if AsciiHeader(h) then Join(HeaderParts(h), SEPARATOR) else []
  }

  /** The header of a cosignature shows its typ. */
  function DecodeHeader(b: Bytes): Option<Header> {
    var parts := Split(b, SEPARATOR);
    if |parts| >= 4 && parts[0] == [0] then
      Some(Header(ToText(parts[1]), Some(ToText(parts[2])), Some(parts[3]), Relisted(parts[4..])))
    else if |parts| == 10 && parts[0] == [1] then Some(Header(ToText(parts[3]), Some("COS"), Some(parts[2]), map[]))
    else None
  }

  lemma HeaderSurvives(h: Header)
    requires AsciiHeader(h)
    ensures DecodeHeader(EncodeHeader(h)) == Some(h)
  {
    hide Listing, Relisted, Split, Join;
    PartsSurvive(HeaderParts(h));
    assert HeaderParts(h)[4..] == Listing(h.others);
    ListingSurvives(h.others);
  }

  // ---------------------------------------------------------------------------
  // Messages
  // ---------------------------------------------------------------------------

  function ClaimParts(k: CosignerClaims): (parts: seq<Bytes>)
    requires Sendable(k)
    ensures AllAscii(parts) && |parts| == 10
  {
    [[1], k.issuer, k.keyId, FromText(k.alg), k.authId,
     FromTime(k.authTime), FromTime(k.issuedAt), FromTime(k.expiration), k.redirectUri, k.nonce]
  }

  function EncodeClaims(k: CosignerClaims): Bytes {
    if Sendable(k) then Join(ClaimParts(k), SEPARATOR) else []
  }

  function DecodeClaims(b: Bytes): Option<CosignerClaims> {
    var p := Split(b, SEPARATOR);
    if |p| != 10 || ToTime(p[5]).None? || ToTime(p[6]).None? || ToTime(p[7]).None? then None
    else Some(CosignerClaims(p[1], p[2], ToText(p[3]), p[4], ToTime(p[5]).value, ToTime(p[6]).value, ToTime(p[7]).value,
                             p[8], p[9]))
  }

  function DecodeObject(b: Bytes): Option<map<string, Value>> {
    var p := Split(b, SEPARATOR);
    if |p| != 10 then None else Some(map["iss" := Text(p[1]), "ruri" := Text(p[8]), "nonce" := Text(p[9])])
  }

  lemma ClaimsSurvive(k: CosignerClaims)
    requires Sendable(k)
    ensures DecodeClaims(EncodeClaims(k)) == Some(k)
    ensures CarriesClaims(DecodeObject(EncodeClaims(k)), k)
    ensures DecodeHeader(EncodeClaims(k)).Some? && DecodeHeader(EncodeClaims(k)).value.typ == Some("COS")
  {
    hide Split, Join, ToTime, FromTime, Relisted, ToText, FromText, Ascii, AsciiText, Exact;
    PartsSurvive(ClaimParts(k));
  }

  predicate AsciiInit(m: InitMfaAuth) {
    Ascii(m.issuer) && Ascii(m.redirectUri) && Ascii(m.nonce)
  }

  function InitParts(m: InitMfaAuth): (parts: seq<Bytes>)
    requires AsciiInit(m)
    ensures AllAscii(parts) && |parts| == 5
  {
    [[2], m.issuer, m.redirectUri, FromTime(m.timeSigned), m.nonce]
  }

  function EncodeInit(m: InitMfaAuth): Bytes {
    if AsciiInit(m) then Join(InitParts(m), SEPARATOR) else []
  }

  function DecodeInit(b: Bytes): Option<Option<InitMfaAuth>> {
    var p := Split(b, SEPARATOR);
    if |p| != 5 || ToTime(p[3]).None? then None else Some(Some(InitMfaAuth(p[1], p[2], ToTime(p[3]).value, p[4])))
  }

  lemma InitSurvives(m: InitMfaAuth)
    requires AsciiInit(m)
    ensures DecodeInit(EncodeInit(m)) == Some(Some(m))
  {
    hide Split, Join, ToTime, FromTime;
    PartsSurvive(InitParts(m));
  }

  // ---------------------------------------------------------------------------
  // The world
  // ---------------------------------------------------------------------------

  ghost function SmallCodec(): Codec {
    Codec(EncodeHeader, DecodeHeader, (b: Bytes) => Some(RawClaims(b, One([]), 0, 0)), DecodeObject,
          (b: Bytes) => Some(b), (b: Bytes) => Some(SessionClaims(b, One([]), [], [])), (b: Bytes) => Some(b),
          (b: Bytes) => false, Base64Url.Decode)
  }

  /** A signature is the key followed by the input. */
  function SmallScheme(): Scheme {
    Scheme((h: Header) => Some(ClientKey(h.alg, Claim(h, "upk"))), (h: Header) => Some([]), (d: JwsDocument) => [],
           (s: Signer) => ClientKey("ES256", s), (s: Signer, input: Bytes) => s + input,
           (k: ClientKey, input: Bytes, sig: Bytes) => sig == k.key + input)
  }

  function SmallMessages(): Messages {
    Messages(EncodeInit, DecodeInit, EncodeClaims, DecodeClaims)
  }

  lemma DecodableText(s: Bytes)
    requires Base64Url.Decode(s).Some?
    ensures Ascii(s) && DOT !in s && COLON !in s
  {
    forall i | 0 <= i < |s|
      ensures s[i] < 128 && s[i] != DOT && s[i] != COLON
    {
      Base64Url.DecodableCharacters(s, s[i]);
    }
  }

  lemma SmallBase64()
    ensures SoundBase64(SmallCodec())
  {
    hide Base64Url.Decode, Ascii;
    forall s: Bytes | Base64Url.Decode(s).Some?
      ensures Ascii(s) && DOT !in s && COLON !in s
    {
      DecodableText(s);
    }
  }

  lemma MadeIsAscii(h: Header)
    requires GqMade(h)
    ensures AsciiHeader(h)
  {}

  lemma SmallSound()
    ensures Sound(SmallCodec()) && ClaimsAgree(SmallCodec())
  {
    hide SoundBase64, GqMade, AsciiHeader, EncodeHeader, DecodeHeader;
    SmallBase64();
    forall h: Header | GqMade(h)
      ensures DecodeHeader(EncodeHeader(h)) == Some(h)
    {
      MadeIsAscii(h);
      HeaderSurvives(h);
    }
  }

  lemma SmallSchemeSound()
    ensures SoundScheme(SmallCodec(), SmallScheme())
  {
    hide AsciiHeader, EncodeHeader, DecodeHeader;
    forall alg, kid | AsciiText(alg) && Ascii(kid)
      ensures DecodeHeader(EncodeHeader(OsmHeader(alg, kid))) == Some(OsmHeader(alg, kid))
    {
      OsmIsAscii(alg, kid);
      HeaderSurvives(OsmHeader(alg, kid));
    }
  }

  lemma OsmIsAscii(alg: string, kid: Bytes)
    requires AsciiText(alg) && Ascii(kid)
    ensures AsciiHeader(OsmHeader(alg, kid))
  {}

  lemma SmallMessagesSound()
    ensures SoundMessages(SmallCodec(), SmallMessages())
  {
    hide Sendable, CarriesClaims, EncodeClaims, DecodeClaims, DecodeObject, DecodeHeader, EncodeInit, DecodeInit, Ascii;
    forall m: InitMfaAuth | AsciiInit(m)
      ensures DecodeInit(EncodeInit(m)) == Some(Some(m))
    {
      InitSurvives(m);
    }
    forall k: CosignerClaims | Sendable(k)
      ensures CarriesClaims(DecodeObject(EncodeClaims(k)), k) && DecodeClaims(EncodeClaims(k)) == Some(k)
      ensures DecodeHeader(EncodeClaims(k)).Some? && DecodeHeader(EncodeClaims(k)).value.typ == Some("COS")
    {
      ClaimsSurvive(k);
    }
  }

  ghost function SmallEnv(): Env {
    Env(SmallCodec(), SmallScheme(), SmallMessages())
  }

  lemma SmallWorldSound()
    ensures SoundWorld(SmallEnv())
  {
    hide SoundBase64, SoundScheme, SoundMessages, SmallCodec, SmallScheme, SmallMessages;
    SmallBase64();
    SmallSchemeSound();
    SmallMessagesSound();
  }

  /** All assumptions about foreign code can be met together. */
  lemma AssumptionsMet() returns (env: Env, e: Providers.Env)
    ensures SoundWorld(env) && Providers.SoundEnv(e) && ClaimsAgree(e.c) && e.c == env.c
  {
    hide SoundWorld, Sound, ClaimsAgree, SmallCodec, SmallScheme, SmallMessages;
    SmallSound();
    SmallWorldSound();
    env := SmallEnv();
    e := Providers.Env(SmallCodec(), (k: nat, d: Bytes) => seq(k, i => 0), (d: Bytes) => seq(32, i => 0),
                       (key: GqKeys.RsaPublicKey) => []);
  }

  // ---------------------------------------------------------------------------
  // A client in the world
  // ---------------------------------------------------------------------------

  /** A token of the small world: its header, an empty payload and an empty signature. */
  ghost function SmallToken(h: Header): Bytes {
    Jwt(Base64Url.Encode(EncodeHeader(h)), Base64Url.Encode([]), Base64Url.Encode([]))
  }

  ghost function SmallSlot(h: Header): Option<Slot> {
    Some(Slot(h, SmallToken(h), None))
  }

  lemma SmallTokenHolds(h: Header)
    requires AsciiHeader(h)
    ensures SlotHolds(SmallCodec(), SmallSlot(h), Some([])) && CanonicalSegment(SmallToken(h))
  {
    hide Parse, SoundBase64, EncodeHeader, DecodeHeader, AsciiHeader, SplitCompact, Jwt, Base64Url.Encode,
         Base64Url.Decode;
    HeaderSurvives(h);
    SmallBase64();
    ParseEncoded(SmallCodec(), EncodeHeader(h), [], []);
    NothingEncoded();
  }

  lemma NothingEncoded()
    ensures Base64Url.Encode([]) == [] && Base64Url.Decode([]) == Some([])
  {
    Base64Url.DecodeEncode([]);
  }

  const PROVIDER_HEADER := Header("RS256", Some("JWT"), Some([]), map[])

  function ClientHeader(key: Bytes): Header {
    Header("ES256", Some("CIC"), Some([]), map["upk" := key])
  }

  ghost function SmallPkt(key: Bytes): Pkt {
    Pkt(Some([]), SmallSlot(PROVIDER_HEADER), SmallSlot(ClientHeader(key)), None, None)
  }

  function SmallClient(p: Pkt, key: Bytes, redirectUri: Bytes, nonce: Bytes, signedAt: Int64): Client {
    Client(p, key, redirectUri, redirectUri, nonce, signedAt)
  }

  function SmallConfig(issuer: Bytes, keyId: Bytes, signer: Signer): Config {
    Config(issuer, keyId, "ES256", signer)
  }

  lemma SmallPktIsClients(key: Bytes)
    requires Ascii(key)
    ensures Complete(SmallCodec(), SmallPkt(key)) && Canonical(SmallPkt(key)) && JsonTyp(PROVIDER_HEADER)
  {
    hide SlotHolds, CanonicalSegment, SmallToken, SmallCodec;
    assert AsciiHeader(PROVIDER_HEADER) && AsciiHeader(ClientHeader(key));
    SmallTokenHolds(PROVIDER_HEADER);
    SmallTokenHolds(ClientHeader(key));
    EmptySlotHolds(SmallCodec(), Some([]));
  }

  lemma EmptySlotHolds(c: Codec, payload: Option<Bytes>)
    ensures SlotHolds(c, None, payload)
  {}

  lemma SmallClientHonest(config: Config, key: Bytes, redirectUri: Bytes, nonce: Bytes, signedAt: Int64)
    requires Ascii(key) && Ascii(redirectUri) && Ascii(nonce) && AsciiConfig(config)
    ensures Honest(SmallEnv(), config, SmallClient(SmallPkt(key), key, redirectUri, nonce, signedAt))
  {
    hide Complete, Canonical, Ascii, AsciiText, SmallCodec, SmallMessages, SmallToken;
    SmallPktIsClients(key);
    assert Claim(ClientHeader(key), "upk") == key;
  }

  /** What the session theorems require of a client, a cosigner, its verifier and a run can be met together with the
      assumptions, for every ASCII key, nonce and redirect URI. */
  lemma SessionExists(mac: Mac, issuer: Bytes, keyId: Bytes, signer: Signer, key: Bytes, redirectUri: Bytes,
                      nonce: Bytes, code: Bytes, signedAt: Int64, timeNow: Uint64, at: Clock)
    returns (env: Env, config: Config, k: Client, v: CosignerVerifier, m: Machine, actions: seq<Action>,
             requests: map<Tid, Request>)
    requires Ascii(issuer) && Ascii(keyId) && Ascii(key) && Ascii(redirectUri) && Ascii(nonce)
    ensures SoundWorld(env) && Honest(env, config, k) && Knows(env, v, config)
    ensures Reached(mac, m, actions) && Cosigns(env, config, k, m, requests, 0, 2)
  {
    hide SoundWorld, Honest, Reached, Cosigns, SmallCodec, SmallPkt, Ascii, Carried, NewAuthState;
    config := SmallConfig(issuer, keyId, signer);
    k := SmallClient(SmallPkt(key), key, redirectUri, nonce, signedAt);
    env := SmallEnv();
    v := CosignerVerifier(issuer, true, (id: Bytes) => Some(SmallScheme().publicKey(signer)));
    SmallWorldSound();
    SmallClientHonest(config, key, redirectUri, nonce, signedAt);
    SmallState(Carried(k.p), redirectUri, nonce);
    m, actions, requests := SessionIsCosigned(env, config, k, mac, code, signedAt * SECOND, timeNow, at);
  }

  lemma SmallState(p: Pkt, redirectUri: Bytes, nonce: Bytes)
    ensures NewAuthState(SmallCodec(), p, redirectUri, nonce).Ok?
  {
    hide Split;
  }
}
