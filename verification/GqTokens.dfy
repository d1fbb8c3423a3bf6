/** GQ signatures on JSON Web Tokens: SignJWT, VerifyJWT and their wrappers in gq/. */
module GqTokens {
  import opened Common
  import opened Arithmetic
  import opened ByteStrings
  import opened Pkcs1
  import opened Gq1
  import opened GqKeys
  import opened GqCompleteness
  import opened Jose
  import Base64Url

  /** The random numbers one signing consumes: those of the blinding loop and the t draws of Sign. */
  datatype Draws = Draws(blind: seq<nat>, rounds: seq<nat>)

  /** RS256 verification (section 8.2.2 of RFC 8017) of sig over message. */
  predicate Rs256(sha256: Sha256, key: RsaPublicKey, message: Bytes, sig: Bytes) {
    var k := BytesForBits(BitLen(key.n));
    && k >= T_LEN + 11
    && |sig| == k
    && ToNat(sig) < key.n
    && Pow(ToNat(sig), key.e) % key.n == ToNat(Padded(sha256, k, message))
  }

  /** Under one key a signature is good for messages of one digest only. */
  lemma SignatureOfOneDigest(sha256: Sha256, key: RsaPublicKey, message: Bytes, other: Bytes, sig: Bytes)
    requires Rs256(sha256, key, message, sig)
    ensures Rs256(sha256, key, other, sig) <==> sha256(message) == sha256(other)
  {
    hide Pow, ToNat, BitLen, BytesForBits, Padded;
    PaddedInjective(sha256, BytesForBits(BitLen(key.n)), message, other);
  }

  /** jws.Verify with an RSA key and RS256. */
  predicate VerifyRs256(c: Codec, sha256: Sha256, key: RsaPublicKey, token: Bytes) {
    var m := Parse(c, token);
    m.Some? &&
    var segs := SplitCompact(token).value;
    Rs256(sha256, key, SigningInput(segs.protected, segs.payload), m.value.signature)
  }

  // ---------------------------------------------------------------------------
  // Signing
  // ---------------------------------------------------------------------------

  function GqHeader(origHeaders: Bytes, extra: map<string, Bytes>): Header {
    Header("GQ256", Some("JWT"), Some(origHeaders), extra)
  }

  predicate UsesReserved(extra: map<string, Bytes>) {
    "alg" in extra || "typ" in extra || "kid" in extra
  }

  /** The token SignJWT returns. */
  ghost function SignedJwt(c: Codec, shake: Shake256, p: Params, jwt: Bytes, extra: map<string, Bytes>, draws: Draws)
    : Outcome<Bytes>
    requires Valid(p) && |draws.rounds| == p.t
  {
    var segs := SplitCompact(jwt);
    if UsesReserved(extra) || segs.None? then Error
    else
      var decodedSig := Base64Url.Decode(segs.value.signature);
      if decodedSig.None? then Error
      else
        match Inverted(p, decodedSig.value, draws.blind)
        case TooLarge => Error
        case StillDrawing => Drawing
        case Overflow => Panic
        case Inverse(private) =>
          var input := SigningInput(segs.value.protected, segs.value.payload);
          match Signature(p, shake, private, input, draws.rounds)
          case Error => Error
          case Panic => Panic
          case Drawing => Drawing
          case Ok(sig) =>
            var headersEnc := Base64Url.Encode(c.encodeHeader(GqHeader(segs.value.protected, extra)));
            Ok(Jwt(headersEnc, segs.value.payload, sig))
  }

  method SignJwt(c: Codec, shake: Shake256, p: Params, jwt: Bytes, extra: map<string, Bytes>, draws: Draws)
    returns (res: Outcome<Bytes>)
    requires Valid(p) && |draws.rounds| == p.t && Residues(p, draws.rounds)
    ensures res == SignedJwt(c, shake, p, jwt, extra, draws)
  {
    if UsesReserved(extra) {
      return Error;
    }
    var segs := SplitCompact(jwt);
    if segs.None? {
      return Error;
    }
    var signingPayload := SigningInput(segs.value.protected, segs.value.payload);
    var headersEnc := Base64Url.Encode(c.encodeHeader(GqHeader(segs.value.protected, extra)));
    var decodedSig := Base64Url.Decode(segs.value.signature);
    if decodedSig.None? {
      return Error;
    }
    var private := ModInverseBlinded(p, decodedSig.value, draws.blind);
    match private {
      case TooLarge => return Error;
      case StillDrawing => return Drawing;
      case Overflow => return Panic;
      case Inverse(q) =>
        var gqSig := Sign(p, shake, q, signingPayload, draws.rounds);
        if !gqSig.Ok? {
          return gqSig;
        }
        return Ok(Jwt(headersEnc, segs.value.payload, gqSig.value));
    }
  }

  /** GQ256SignJWT: sixteen rounds, after a check that key made the RSA signature. */
  ghost function Gq256Signed(c: Codec, shake: Shake256, sha256: Sha256, key: RsaPublicKey, jwt: Bytes,
                             extra: map<string, Bytes>, draws: Draws): Outcome<Bytes>
    requires |draws.rounds| == 16
  {
    if !VerifyRs256(c, sha256, key, jwt) then Error
    else
      match NewSignerVerifier(key, 256)
      case Error => Error
      case Panic => Panic
      case Drawing => Drawing
      case Ok(p) => SignedJwt(c, shake, p, jwt, extra, draws)
  }

  // ---------------------------------------------------------------------------
  // Verification
  // ---------------------------------------------------------------------------

  /** OriginalJWTHeaders: the encoded header the GQ header carries as its kid. */
  function OriginalHeaders(c: Codec, jwt: Bytes): Option<Bytes> {
    var m := Parse(c, jwt);
    if m.None? || m.value.header.alg != "GQ256" then None else Some(OrEmpty(m.value.header.kid))
  }

  /** VerifyJWT: identity and message are both the original signing input. */
  function VerifyJwt(c: Codec, shake: Shake256, sha256: Sha256, p: Params, jwt: Bytes): Outcome<bool>
    requires Valid(p)
  {
    var origHeaders := OriginalHeaders(c, jwt);
    if origHeaders.None? then Ok(false)
    else
      var segs := SplitCompact(jwt).value;
      var input := SigningInput(origHeaders.value, segs.payload);
      Checked(p, shake, sha256, segs.signature, input, input)
  }

  /** GQ256VerifyJWT. */
  function Gq256Verify(c: Codec, shake: Shake256, sha256: Sha256, key: RsaPublicKey, jwt: Bytes): Outcome<bool> {
    match NewSignerVerifier(key, 256)
    case Error => Error
    case Panic => Panic
    case Drawing => Drawing
    case Ok(p) => VerifyJwt(c, shake, sha256, p, jwt)
  }

  // ---------------------------------------------------------------------------
  // GQ signing an RS256 token yields a token that verifies
  // ---------------------------------------------------------------------------

  /** The inverse of an RSA signature on a message is a GQ1 private number for it. */
  lemma InverseOfSignature(p: Params, s: nat, q: nat, g: nat)
    requires p.n > 0 && IsInverse(s, q, p.n) && Pow(s, p.v) % p.n == g
    ensures KeyPair(p, q, g)
  {
    hide Pow;
    CongMod(Pow(s, p.v), p.n);
    CongMulLeft(Pow(q, p.v), g, Pow(s, p.v), p.n);
    InverseOfPow(s, q, p.v, p.n);
    assert Pow(s, p.v) * Pow(q, p.v) == Pow(q, p.v) * Pow(s, p.v);
  }

  /** An encoded header, an untouched payload and an encoded proof parse back into themselves. */
  lemma ParseGqToken(c: Codec, header: Header, payload: Bytes, proof: Bytes)
    requires Sound(c) && GqMade(header)
    requires c.jwxDecode(payload).Some?
    ensures var token := Jwt(Base64Url.Encode(c.encodeHeader(header)), payload, Base64Url.Encode(proof));
            && SplitCompact(token) == Some(Segments(Base64Url.Encode(c.encodeHeader(header)), payload,
                                                    Base64Url.Encode(proof)))
            && Parse(c, token) == Some(Message(header, c.jwxDecode(payload).value, proof))
  {
    hide Base64Url.Encode, Base64Url.DecodeStrict, Base64Url.StripNewlines, SplitCompact, Jwt;
    var json := c.encodeHeader(header);
    Base64Url.DecodeEncode(json);
    Base64Url.DecodeEncode(proof);
    SplitCompactJwt(Base64Url.Encode(json), payload, Base64Url.Encode(proof));
  }

  /** sig is an RSA signature on input under the parameters p. */
  predicate RsaSigned(p: Params, sha256: Sha256, input: Bytes, sig: Bytes)
    requires p.n > 0 && p.nBytes >= T_LEN
  {
    && |sig| == p.nBytes
    && ToNat(sig) < p.n
    && Pow(ToNat(sig), p.v) % p.n == ToNat(Padded(sha256, p.nBytes, input))
  }

  /** The GQ token's segments and header: a fresh header with the original one as kid, and the same payload. */
  lemma SignedJwtParses(c: Codec, shake: Shake256, p: Params, jwt: Bytes, extra: map<string, Bytes>, draws: Draws,
                        gqJwt: Bytes)
    requires Sound(c) && PlainClaims(extra) && Valid(p) && |draws.rounds| == p.t && Parse(c, jwt).Some?
    requires SignedJwt(c, shake, p, jwt, extra, draws) == Ok(gqJwt)
    ensures SplitCompact(jwt).Some? && SplitCompact(gqJwt).Some?
    ensures SplitCompact(gqJwt).value.payload == SplitCompact(jwt).value.payload
    ensures Parse(c, gqJwt).Some?
    ensures Parse(c, gqJwt).value.header == GqHeader(SplitCompact(jwt).value.protected, extra)
    ensures Base64Url.Decode(SplitCompact(gqJwt).value.protected)
         == Some(c.encodeHeader(GqHeader(SplitCompact(jwt).value.protected, extra)))
    ensures var segs := SplitCompact(jwt).value;
            && Base64Url.Decode(segs.signature) == Some(Parse(c, jwt).value.signature)
            && Inverted(p, Parse(c, jwt).value.signature, draws.blind).Inverse?
            && Signature(p, shake, Inverted(p, Parse(c, jwt).value.signature, draws.blind).bytes,
                         SigningInput(segs.protected, segs.payload), draws.rounds)
            == Ok(SplitCompact(gqJwt).value.signature)
  {
    hide Pow256, Inverted, Signature, SignedJwt, Base64Url.Encode, Base64Url.Decode, SplitCompact, Jwt;
    SignedJwtShape(c, shake, p, jwt, extra, draws);
    var segs := SplitCompact(jwt).value;
    var sig := Parse(c, jwt).value.signature;
    assert Base64Url.Decode(segs.signature) == Some(sig);
    var input := SigningInput(segs.protected, segs.payload);
    var private := Inverted(p, sig, draws.blind).bytes;
    SignatureIsEncoded(p, shake, private, input, draws.rounds);
    var (r, s) := SignatureNumbers(p, shake, ToNat(private), input, draws.rounds);
    assert Ascii(segs.protected) && c.jwxDecode(segs.payload).Some?;
    Base64Url.DecodeEncode(c.encodeHeader(GqHeader(segs.protected, extra)));
    ParseGqToken(c, GqHeader(segs.protected, extra), segs.payload, r + s);
  }

  /** At the level of the parameters: the GQ token verifies if and only if none of the draws was zero. */
  lemma SignedJwtAccepted(c: Codec, shake: Shake256, sha256: Sha256, p: Params, jwt: Bytes, extra: map<string, Bytes>,
                          draws: Draws, gqJwt: Bytes)
    requires Sound(c) && PlainClaims(extra) && Valid(p) && p.v > 0 && p.vBytes < p.nBytes && p.nBytes > T_LEN
    requires |draws.rounds| == p.t && Residues(p, draws.rounds)
    requires Parse(c, jwt).Some?
    requires var segs := SplitCompact(jwt).value;
             RsaSigned(p, sha256, SigningInput(segs.protected, segs.payload), Parse(c, jwt).value.signature)
    requires SignedJwt(c, shake, p, jwt, extra, draws) == Ok(gqJwt)
    ensures VerifyJwt(c, shake, sha256, p, gqJwt) == Ok(0 !in draws.rounds)
  {
    hide Pow256, Inverted, Signature, SignedJwt, Checked, SplitCompact, RsaSigned, Parse;
    SignedJwtParses(c, shake, p, jwt, extra, draws, gqJwt);
    var segs := SplitCompact(jwt).value;
    var input := SigningInput(segs.protected, segs.payload);
    SignedInputVerifies(p, shake, sha256, input, Parse(c, jwt).value.signature, draws.blind, draws.rounds);
  }

  /** What a verified RS256 token gives at the level of the parameters of its key. */
  lemma Rs256Signed(c: Codec, sha256: Sha256, key: RsaPublicKey, jwt: Bytes)
    requires VerifyRs256(c, sha256, key, jwt) && NewSignerVerifier(key, 256).Ok?
    ensures var p := NewSignerVerifier(key, 256).value;
            && Valid(p) && p.v == 65537 && p.vBytes == 2 && p.t == 16 && p.n == key.n && p.nBytes >= T_LEN + 11
            && Parse(c, jwt).Some?
            && var segs := SplitCompact(jwt).value;
               RsaSigned(p, sha256, SigningInput(segs.protected, segs.payload), Parse(c, jwt).value.signature)
  {
    hide Pow, Pow256, BitLen, BytesForBits, Padded, SplitCompact, NewSignerVerifier, Parse;
  }

  /** A GQ-signed token carries the original header as kid, so it is verified over the original signing input;
      it is accepted if and only if none of the sixteen draws was zero. */
  lemma SignedJwtVerifies(c: Codec, shake: Shake256, sha256: Sha256, key: RsaPublicKey, jwt: Bytes,
                          extra: map<string, Bytes>, draws: Draws, gqJwt: Bytes)
    requires Sound(c) && PlainClaims(extra)
    requires |draws.rounds| == 16 && forall i :: 0 <= i < 16 ==> draws.rounds[i] < key.n
    requires Gq256Signed(c, shake, sha256, key, jwt, extra, draws) == Ok(gqJwt)
    ensures Gq256Verify(c, shake, sha256, key, gqJwt) == Ok(0 !in draws.rounds)
  {
    hide Pow256, SignedJwt, VerifyJwt, SplitCompact, RsaSigned, Parse, NewSignerVerifier, VerifyRs256;
    Rs256Signed(c, sha256, key, jwt);
    SignedJwtAccepted(c, shake, sha256, NewSignerVerifier(key, 256).value, jwt, extra, draws, gqJwt);
  }

  lemma SignedJwtShape(c: Codec, shake: Shake256, p: Params, jwt: Bytes, extra: map<string, Bytes>, draws: Draws)
    requires Valid(p) && |draws.rounds| == p.t && SignedJwt(c, shake, p, jwt, extra, draws).Ok?
    ensures SplitCompact(jwt).Some?
    ensures var segs := SplitCompact(jwt).value;
            && Base64Url.Decode(segs.signature).Some?
            && Inverted(p, Base64Url.Decode(segs.signature).value, draws.blind).Inverse?
            && var private := Inverted(p, Base64Url.Decode(segs.signature).value, draws.blind).bytes;
               var sig := Signature(p, shake, private, SigningInput(segs.protected, segs.payload), draws.rounds);
            && sig.Ok?
            && SignedJwt(c, shake, p, jwt, extra, draws)
            == Ok(Jwt(Base64Url.Encode(c.encodeHeader(GqHeader(segs.protected, extra))), segs.payload, sig.value))
  {
    hide Inverted, Signature, Base64Url.Encode, Base64Url.Decode, SplitCompact, Jwt;
  }

  lemma SignatureIsEncoded(p: Params, shake: Shake256, private: Bytes, message: Bytes, rs: seq<nat>)
    requires Valid(p) && |rs| == p.t && Signature(p, shake, private, message, rs).Ok?
    ensures var (r, s) := SignatureNumbers(p, shake, ToNat(private), message, rs);
            Signature(p, shake, private, message, rs).value == Base64Url.Encode(r + s)
  {
    hide SignatureNumbers, Base64Url.Encode, Parsed;
  }

  lemma SignedInputVerifies(p: Params, shake: Shake256, sha256: Sha256, input: Bytes, sig: Bytes,
                            blind: seq<nat>, rs: seq<nat>)
    requires Valid(p) && p.v > 0 && p.vBytes < p.nBytes && p.nBytes > T_LEN
    requires |rs| == p.t && Residues(p, rs)
    requires RsaSigned(p, sha256, input, sig)
    requires Inverted(p, sig, blind).Inverse?
    ensures var private := Inverted(p, sig, blind).bytes;
            && Signature(p, shake, private, input, rs).Ok?
            && Checked(p, shake, sha256, Signature(p, shake, private, input, rs).value, input, input) == Ok(0 !in rs)
  {
    hide Pow, Signature, Accepts, Checked, Cong, Pow256, Padded;
    var private := Inverted(p, sig, blind).bytes;
    InverseOfSignature(p, ToNat(sig), ToNat(private), ToNat(Padded(sha256, p.nBytes, input)));
    Completeness(p, shake, sha256, private, input, input, rs);
    CheckedAccepts(p, shake, sha256, Signature(p, shake, private, input, rs).value, input, input);
  }

  /** The key is one GQ256 supports, the signature is strict base64url, and the blinding loop ends: the signature is
      a unit and so is some draw. */
  predicate Signable(c: Codec, key: RsaPublicKey, jwt: Bytes, blind: seq<nat>)
    requires Parse(c, jwt).Some?
  {
    && key.e == 65537 && key.n % 2 == 1
    && Base64Url.Decode(SplitCompact(jwt).value.signature).Some?
    && HasInverse(ToNat(Parse(c, jwt).value.signature), key.n)
    && exists i :: 0 <= i < |blind| && HasInverse(blind[i], key.n)
  }

  predicate HasInverse(x: nat, n: nat) {
    n > 0 && ModInverse(x, n).Some?
  }

  lemma InvertsWhen(p: Params, b: Bytes, blind: seq<nat>)
    requires Valid(p) && |b| == p.nBytes && ToNat(b) < p.n
    ensures Inverted(p, b, blind).Inverse? <==>
              HasInverse(ToNat(b), p.n) && exists i :: 0 <= i < |blind| && HasInverse(blind[i], p.n)
  {
    hide Pow256, ToNat, Cong;
    if exists i :: 0 <= i < |blind| && HasInverse(blind[i], p.n) {
      var i :| 0 <= i < |blind| && HasInverse(blind[i], p.n);
      assert IsUnit(blind[i], p.n);
    }
    if i :| 0 <= i < |blind| && IsUnit(blind[i], p.n) {
      assert HasInverse(blind[i], p.n);
    }
  }

  /** Signing a token that verifies under RS256 succeeds if and only if it is signable and no extra claim has a name
      of its own. */
  lemma SigningSucceeds(c: Codec, shake: Shake256, sha256: Sha256, key: RsaPublicKey, jwt: Bytes,
                        extra: map<string, Bytes>, draws: Draws)
    requires SoundBase64(c) && |draws.rounds| == 16 && VerifyRs256(c, sha256, key, jwt)
    ensures Gq256Signed(c, shake, sha256, key, jwt, extra, draws).Ok?
       <==> Signable(c, key, jwt, draws.blind) && "alg" !in extra && "typ" !in extra && "kid" !in extra
  {
    hide Pow256, ToNat, Parse, SplitCompact, VerifyRs256, RsaSigned, SignedJwt, NewSignerVerifier, Base64Url.Decode,
         HasInverse;
    Supported(key);
    if NewSignerVerifier(key, 256).Ok? {
      Rs256Signed(c, sha256, key, jwt);
      if UsesReserved(extra) {
        ReservedRefused(c, shake, NewSignerVerifier(key, 256).value, jwt, extra, draws);
        return;
      }
      SigningSucceedsWith(c, shake, sha256, NewSignerVerifier(key, 256).value, jwt, extra, draws);
    }
  }

  lemma ReservedRefused(c: Codec, shake: Shake256, p: Params, jwt: Bytes, extra: map<string, Bytes>, draws: Draws)
    requires Valid(p) && |draws.rounds| == p.t && UsesReserved(extra)
    ensures SignedJwt(c, shake, p, jwt, extra, draws) == Error
  {
    hide UsesReserved, SplitCompact, Base64Url.Decode, Inverted, Signature, Base64Url.Encode, Jwt, SigningInput;
  }

  /** What is no GQ token is refused under every supported key. */
  lemma NotGqRefused(c: Codec, shake: Shake256, sha256: Sha256, key: RsaPublicKey, jwt: Bytes)
    requires key.e == 65537 && key.n % 2 == 1
    requires Parse(c, jwt).None? || Parse(c, jwt).value.header.alg != "GQ256"
    ensures Gq256Verify(c, shake, sha256, key, jwt) == Ok(false)
  {
    hide Parse, Checked, NewSignerVerifier;
    Supported(key);
  }

  lemma Supported(key: RsaPublicKey)
    ensures NewSignerVerifier(key, 256).Ok? <==> key.e == 65537 && key.n % 2 == 1
  {}

  lemma SignedOk(c: Codec, shake: Shake256, p: Params, jwt: Bytes, segs: Segments, extra: map<string, Bytes>,
                 draws: Draws)
    requires Valid(p) && |draws.rounds| == p.t && !UsesReserved(extra) && SplitCompact(jwt) == Some(segs)
    ensures SignedJwt(c, shake, p, jwt, extra, draws).Ok? <==>
              && Base64Url.Decode(segs.signature).Some?
              && var inverted := Inverted(p, Base64Url.Decode(segs.signature).value, draws.blind);
              && inverted.Inverse?
              && Signature(p, shake, inverted.bytes, SigningInput(segs.protected, segs.payload), draws.rounds).Ok?
  {
    hide SplitCompact, Base64Url.Decode, Inverted, Signature, Base64Url.Encode, Jwt, SigningInput, UsesReserved;
  }

  lemma SigningSucceedsWith(c: Codec, shake: Shake256, sha256: Sha256, p: Params, jwt: Bytes,
                            extra: map<string, Bytes>, draws: Draws)
    requires SoundBase64(c) && Valid(p) && p.vBytes == 2 && p.nBytes >= T_LEN
    requires |draws.rounds| == p.t && !UsesReserved(extra)
    requires Parse(c, jwt).Some?
    requires var segs := SplitCompact(jwt).value;
             RsaSigned(p, sha256, SigningInput(segs.protected, segs.payload), Parse(c, jwt).value.signature)
    ensures SignedJwt(c, shake, p, jwt, extra, draws).Ok? <==>
              && Base64Url.Decode(SplitCompact(jwt).value.signature).Some?
              && HasInverse(ToNat(Parse(c, jwt).value.signature), p.n)
              && exists i :: 0 <= i < |draws.blind| && HasInverse(draws.blind[i], p.n)
  {
    hide Pow256, ToNat, SplitCompact, Base64Url.Decode, HasInverse, Inverted, Signature, SignedJwt, Pow, Padded,
         SigningInput, UsesReserved;
    var sig, segs := Parse(c, jwt).value.signature, SplitCompact(jwt).value;
    SignedOk(c, shake, p, jwt, segs, extra, draws);
    InvertsWhen(p, sig, draws.blind);
    if Inverted(p, sig, draws.blind).Inverse? {
      InverseSigns(p, shake, sig, draws.blind, SigningInput(segs.protected, segs.payload), draws.rounds);
    }
  }

  lemma InverseSigns(p: Params, shake: Shake256, sig: Bytes, blind: seq<nat>, message: Bytes, rs: seq<nat>)
    requires Valid(p) && p.vBytes == 2 && p.nBytes >= T_LEN && |rs| == p.t && |sig| == p.nBytes
    requires Inverted(p, sig, blind).Inverse?
    ensures Signature(p, shake, Inverted(p, sig, blind).bytes, message, rs).Ok?
  {
    hide Pow256, SignatureNumbers, Parsed, Residues;
    var private := Inverted(p, sig, blind).bytes;
    BlindingTransparent(p, sig, blind, ToNat(private));
    var (r, s) := SignatureNumbers(p, shake, ToNat(private), message, rs);
    QuestionsAreResidues(p, r);
  }
}
