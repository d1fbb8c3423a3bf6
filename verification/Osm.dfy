/** OpenPubkey signed messages: what a client signs under a PK Token and a cosigner checks (pktoken/osm.go). */
module Osm {
  import opened Common
  import opened ByteStrings
  import opened Jose
  import opened PkTokens
  import opened PkInvariants
  import opened PkJson
  import Base64Url

  datatype ClientKey = ClientKey(alg: string, key: Bytes)
  type Signer = Bytes

  /** The foreign parts: the client key in a header and the hash of that header's claims, the digest of a JSON
      document, and a signature scheme. */
  datatype Scheme = Scheme(
    clientKey: Header -> Option<ClientKey>,
    clientHash: Header -> Option<Bytes>,
    digest: JwsDocument -> Bytes,
    publicKey: Signer -> ClientKey,
    sign: (Signer, Bytes) -> Bytes,
    verifies: (ClientKey, Bytes, Bytes) -> bool)

  /** Signatures verify, digests and the names of algorithms are ASCII, and the header of a signed message survives
      JSON. */
  ghost predicate SoundScheme(c: Codec, s: Scheme) {
    && (forall signer, input :: s.verifies(s.publicKey(signer), input, s.sign(signer, input)))
    && (forall doc :: Ascii(s.digest(doc)))
    && (forall signer :: AsciiText(s.publicKey(signer).alg))
    && (forall alg, kid :: AsciiText(alg) && Ascii(kid) ==>
          c.decodeHeader(c.encodeHeader(OsmHeader(alg, kid))) == Some(OsmHeader(alg, kid)))
  }

  function OsmHeader(alg: string, kid: Bytes): Header {
    Header(alg, Some("osm"), Some(kid), map[])
  }

  /** Hash: the digest of the JSON form. */
  function Hash(s: Scheme, p: Pkt): Outcome<Bytes> {
    match Marshalled(p)
    case Ok(doc) => Ok(s.digest(doc))
    case Panic => Panic
    case _ => Error
  }

  function NewSignedMessage(c: Codec, s: Scheme, p: Pkt, content: Bytes, signer: Signer): Outcome<Bytes> {
    if p.cic.None? then Panic
    else
      var key := s.clientKey(p.cic.value.header);
      if key.None? then Error
      else
        var hash := Hash(s, p);
        if !hash.Ok? then hash
        else
          var protected := Base64Url.Encode(c.encodeHeader(OsmHeader(key.value.alg, hash.value)));
          var payload := Base64Url.Encode(content);
          Ok(Jwt(protected, payload, Base64Url.Encode(s.sign(signer, SigningInput(protected, payload)))))
  }

  function VerifySignedMessage(c: Codec, s: Scheme, p: Pkt, osm: Bytes): Outcome<Bytes> {
    if p.cic.None? then Panic
    else
      var key := s.clientKey(p.cic.value.header);
      var message := Parse(c, osm);
      if key.None? || message.None? then Error
      else
        var protected := message.value.header;
        if protected.typ.None? || protected.typ.value != "osm" then Error
        else if protected.alg != key.value.alg then Error
        else if protected.kid.None? then Error
        else
          var hash := Hash(s, p);
          if !hash.Ok? then hash
          else if protected.kid.value != hash.value then Error
          else
            var segs := SplitCompact(osm).value;
            if !s.verifies(key.value, SigningInput(segs.protected, segs.payload), message.value.signature) then Error
            else Ok(message.value.payload)
  }

  /** key verifies the last segment of the token over the first two and the dot between them. */
  predicate VerifiesToken(c: Codec, s: Scheme, key: ClientKey, token: Bytes) {
    var m, segs := Parse(c, token), SplitCompact(token);
    m.Some? && s.verifies(key, segs.value.protected + [DOT] + segs.value.payload, m.value.signature)
  }

  /** A message with this content, made for the digest of the PK Token's JSON form and signed with its client key. */
  predicate SignedUnder(c: Codec, s: Scheme, p: Pkt, osm: Bytes, content: Bytes) {
    p.cic.Some? &&
    var key, m, doc := s.clientKey(p.cic.value.header), Parse(c, osm), Marshalled(p);
    && key.Some? && m.Some? && doc.Ok?
    && m.value.payload == content && m.value.header.typ == Some("osm") && m.value.header.alg == key.value.alg
    && m.value.header.kid == Some(s.digest(doc.value))
    && VerifiesToken(c, s, key.value, osm)
  }

  /** What an accepted message is, for every message. */
  lemma SignedMessageExactly(c: Codec, s: Scheme, p: Pkt, osm: Bytes, content: Bytes)
    ensures VerifySignedMessage(c, s, p, osm) == Ok(content) <==> SignedUnder(c, s, p, osm, content)
  {
    hide Parse, Marshalled, SplitCompact, SigningInput;
    if Parse(c, osm).Some? {
      SigningInputIs(SplitCompact(osm).value.protected, SplitCompact(osm).value.payload);
    }
  }

  /** What a signer signed: nothing else verifies under the signer's key. */
  ghost predicate OnlySigned(s: Scheme, signed: (Signer, Bytes) -> bool) {
    forall signer, input, sig :: s.verifies(s.publicKey(signer), input, sig) ==> signed(signer, input)
  }

  /** The signer signed a message with this content for this hash. */
  ghost predicate SignedFor(c: Codec, signed: (Signer, Bytes) -> bool, signer: Signer, hash: Bytes, content: Bytes) {
    exists protected, payload :: IsMessageFor(c, protected, payload, hash, content)
                              && signed(signer, protected + [DOT] + payload)
  }

  /** The segments decode to a header with this hash and to this content. */
  predicate IsMessageFor(c: Codec, protected: Bytes, payload: Bytes, hash: Bytes, content: Bytes) {
    var json := c.jwxDecode(protected);
    && json.Some? && c.decodeHeader(json.value).Some? && c.jwxDecode(payload) == Some(content)
    && c.decodeHeader(json.value).value.typ == Some("osm") && c.decodeHeader(json.value).value.kid == Some(hash)
  }

  /** Where nothing verifies but what was signed, the owner of the client key signed an accepted message for the hash of
      the PK Token. */
  lemma AcceptedWasSigned(c: Codec, s: Scheme, signed: (Signer, Bytes) -> bool, p: Pkt, osm: Bytes, content: Bytes,
                          signer: Signer)
    requires OnlySigned(s, signed) && SignedUnder(c, s, p, osm, content)
    requires s.clientKey(p.cic.value.header) == Some(s.publicKey(signer))
    ensures Marshalled(p).Ok? && SignedFor(c, signed, signer, s.digest(Marshalled(p).value), content)
  {
    hide Marshalled, SplitCompact;
    var segs := SplitCompact(osm).value;
    assert IsMessageFor(c, segs.protected, segs.payload, s.digest(Marshalled(p).value), content);
    assert signed(signer, segs.protected + [DOT] + segs.payload);
  }

  /** A strictly encoded token parses to what was encoded. */
  lemma ParseEncoded(c: Codec, headerJson: Bytes, payload: Bytes, signature: Bytes)
    requires SoundBase64(c) && c.decodeHeader(headerJson).Some?
    ensures var p, m, s := Base64Url.Encode(headerJson), Base64Url.Encode(payload), Base64Url.Encode(signature);
            && SplitCompact(Jwt(p, m, s)) == Some(Segments(p, m, s))
            && Parse(c, Jwt(p, m, s)) == Some(Message(c.decodeHeader(headerJson).value, payload, signature))
  {
    hide Base64Url.Encode, Base64Url.Decode, SplitCompact, Jwt;
    Base64Url.DecodeEncode(headerJson);
    Base64Url.DecodeEncode(payload);
    Base64Url.DecodeEncode(signature);
    SplitCompactJwt(Base64Url.Encode(headerJson), Base64Url.Encode(payload), Base64Url.Encode(signature));
  }

  /** A signed message is accepted under another PK Token with the same client key if and only if both hash alike. */
  lemma SignedMessageAccepted(c: Codec, s: Scheme, p: Pkt, q: Pkt, content: Bytes, signer: Signer)
    requires SoundBase64(c) && SoundScheme(c, s)
    requires p.cic.Some? && s.clientKey(p.cic.value.header) == Some(s.publicKey(signer))
    requires q.cic.Some? && s.clientKey(q.cic.value.header) == Some(s.publicKey(signer))
    requires NewSignedMessage(c, s, p, content, signer).Ok?
    ensures VerifySignedMessage(c, s, q, NewSignedMessage(c, s, p, content, signer).value) == Ok(content)
       <==> Hash(s, q) == Hash(s, p)
  {
    hide Base64Url.Encode, SplitCompact, Jwt, Parse, Hash, SoundBase64, SigningInput, Ascii, AsciiText;
    var key := s.publicKey(signer);
    HashAscii(c, s, p);
    var header := OsmHeader(key.alg, Hash(s, p).value);
    var protected, payload := Base64Url.Encode(c.encodeHeader(header)), Base64Url.Encode(content);
    var input := SigningInput(protected, payload);
    assert c.decodeHeader(c.encodeHeader(header)) == Some(header);
    ParseEncoded(c, c.encodeHeader(header), content, s.sign(signer, input));
  }

  lemma HashAscii(c: Codec, s: Scheme, p: Pkt)
    requires SoundScheme(c, s)
    ensures Hash(s, p).Ok? ==> Ascii(Hash(s, p).value)
  {
    hide Marshalled, Ascii;
  }

  /** A cosigner that parsed the client's JSON accepts what the client signed. */
  lemma ParsedTokenAccepts(c: Codec, s: Scheme, p: Pkt, content: Bytes, signer: Signer)
    requires SoundBase64(c) && SoundScheme(c, s) && Complete(c, p) && Canonical(p) && JsonTyp(p.op.value.header)
    requires s.clientKey(p.cic.value.header) == Some(s.publicKey(signer))
    ensures Marshalled(p).Ok?
    ensures Unmarshalled(c, Marshalled(p).value) == Some(Carried(p)) && Marshalled(Carried(p)) == Marshalled(p)
    ensures NewSignedMessage(c, s, p, content, signer).Ok?
    ensures VerifySignedMessage(c, s, Carried(p), NewSignedMessage(c, s, p, content, signer).value) == Ok(content)
  {
    hide SoundBase64, SoundScheme, Consistent, Canonical, JsonTyp, Marshalled, Unmarshalled, VerifySignedMessage;
    MarshalSucceeds(c, p);
    JsonRoundTrip(c, p);
    MarshalledCarried(p);
    SignedMessageAccepted(c, s, p, Carried(p), content, signer);
  }
}
