/** JSON Web Signatures in compact form, over JSON and jwx operations that are known only by what is assumed of them. */
module Jose {
  import opened Common
  import opened ByteStrings
  import Base64Url

  /** A protected header; others holds every other claim, one that is no string as its JSON text. */
  datatype Header = Header(alg: string, typ: Option<string>, kid: Option<Bytes>, others: map<string, Bytes>)

  /** The value of an audience claim: one string, a list (None for an item that is not a string), or neither. */
  datatype Audience = One(value: Bytes) | Many(items: seq<Option<Bytes>>) | Unusable

  /** The OIDC claims of a payload; a missing claim reads as empty or zero. */
  datatype RawClaims = RawClaims(iss: Bytes, aud: Audience, exp: Int64, iat: Int64)

  /** The claims a cosigner reads from a payload. */
  datatype SessionClaims = SessionClaims(iss: Bytes, aud: Audience, sub: Bytes, email: Bytes)

  /** A claim of a payload read as a generic JSON object. */
  datatype Value = Text(text: Bytes) | Other

  /** encoding/json and the base64 decoder inside jwx.  Each reader of a payload fails on the claims it reads only;
      isNull tells the text null, which decodes into a nil pointer. */
  datatype Codec = Codec(
    encodeHeader: Header -> Bytes,
    decodeHeader: Bytes -> Option<Header>,
    decodeClaims: Bytes -> Option<RawClaims>,
    decodeObject: Bytes -> Option<map<string, Value>>,
    readIssuer: Bytes -> Option<Bytes>,
    readSession: Bytes -> Option<SessionClaims>,
    readEmail: Bytes -> Option<Bytes>,
    isNull: Bytes -> bool,
    jwxDecode: Bytes -> Option<Bytes>)

  predicate Ascii(s: Bytes) {
    forall i :: 0 <= i < |s| ==> s[i] < 128
  }

  predicate AsciiText(s: string) {
    forall i :: 0 <= i < |s| ==> s[i] < 128 as char
  }

  /** jwx decodes what strict base64url decodes, and only ASCII without separators. */
  ghost predicate SoundBase64(c: Codec) {
    && (forall s: Bytes :: Base64Url.Decode(s).Some? ==> c.jwxDecode(s) == Base64Url.Decode(s))
    && (forall s: Bytes :: c.jwxDecode(s).Some? ==> Ascii(s) && DOT !in s && COLON !in s)
  }

  /** The header names that jwx gives a meaning of their own. */
  predicate RegisteredName(name: string) {
    name in {"alg", "b64", "crit", "cty", "jku", "jwk", "kid", "typ", "x5c", "x5t", "x5t#S256", "x5u"}
  }

  /** String claims of ASCII text under names without a meaning of their own. */
  predicate PlainClaims(claims: map<string, Bytes>) {
    forall name <- claims :: AsciiText(name) && !RegisteredName(name) && Ascii(claims[name])
  }

  /** A header as GQ signing makes it out of an ASCII header segment and plain claims. */
  predicate GqMade(h: Header) {
    h.alg == "GQ256" && h.typ == Some("JWT") && h.kid.Some? && Ascii(h.kid.value) && PlainClaims(h.others)
  }

  /** Beyond base64, the headers GQ signing makes survive JSON. */
  ghost predicate Sound(c: Codec) {
    && SoundBase64(c)
    && (forall h: Header :: GqMade(h) ==>
          c.decodeHeader(c.encodeHeader(h)) == Some(h) && !c.isNull(c.encodeHeader(h)))
  }

  /** The reader of the issuer alone finds the issuer that the reader of all OIDC claims finds. */
  ghost predicate ClaimsAgree(c: Codec) {
    forall b :: !c.isNull(b) && c.decodeClaims(b).Some? ==> c.readIssuer(b) == Some(c.decodeClaims(b).value.iss)
  }

  lemma SoundIsBase64(c: Codec)
    requires Sound(c)
    ensures SoundBase64(c)
  {
    hide SoundBase64;
  }

  lemma MadeHeaderSurvives(c: Codec, h: Header)
    requires Sound(c) && GqMade(h)
    ensures c.decodeHeader(c.encodeHeader(h)) == Some(h) && !c.isNull(c.encodeHeader(h))
  {
    hide SoundBase64, GqMade;
  }

  datatype Message = Message(header: Header, payload: Bytes, signature: Bytes)

  /** jws.Parse on a compact token. */
  function Parse(c: Codec, token: Bytes): (m: Option<Message>)
    ensures m.Some? ==> SplitCompact(token).Some?
  {
    var segs := SplitCompact(token);
    if segs.None? then None
    else
      var headerJson := c.jwxDecode(segs.value.protected);
      var payload := c.jwxDecode(segs.value.payload);
      var signature := c.jwxDecode(segs.value.signature);
      if headerJson.None? || payload.None? || signature.None? then None
      else
        var header := c.decodeHeader(headerJson.value);
        if header.None? then None else Some(Message(header.value, payload.value, signature.value))
  }

  /** The input to the signature: the two encoded segments. */
  function SigningInput(protected: Bytes, payload: Bytes): Bytes {
    Join([protected, payload], DOT)
  }

  lemma SigningInputIs(protected: Bytes, payload: Bytes)
    ensures SigningInput(protected, payload) == protected + [DOT] + payload
  {
    assert [protected, payload][1..] == [payload];
    assert Join([payload], DOT) == payload;
  }

  /** A header claim as a Go string: missing reads as empty. */
  function OrEmpty(v: Option<Bytes>): Bytes {
    if v.Some? then v.value else []
  }

  function Claim(h: Header, name: string): Bytes {
    if name in h.others then h.others[name] else []
  }
}
