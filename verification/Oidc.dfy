/** Parsing of ID Tokens (oidc/jwt.go, oidc/oidc.go). */
module Oidc {
  import opened Common
  import opened ByteStrings
  import opened Jose
  import Base64Url

  const COMMA: Byte := 44

  datatype Claims = Claims(iss: Bytes, aud: Bytes, exp: Int64, iat: Int64)
  /** A parsed ID Token; header or claims are None where the JSON was null and the pointer stays nil. */
  datatype IdToken = IdToken(segs: Segments, header: Option<Header>, claims: Option<Claims>, payloadJson: Bytes)

  /** The audience as one string: a list is joined with commas, and an item that is no string panics. */
  function JoinAudience(aud: Audience): (r: Outcome<Bytes>)
    ensures r.Ok? || r.Panic?
  {
    match aud
    case One(v) => Ok(v)
    case Many(items) =>
      if forall i :: 0 <= i < |items| ==> items[i].Some? then
        Ok(Join(seq(|items|, i requires 0 <= i < |items| => items[i].value), COMMA))
      else Panic
    case Unusable => Ok([])
  }

  function NewJwt(c: Codec, token: Bytes): (r: Outcome<IdToken>)
    ensures !r.Drawing?
  {
    var segs := SplitCompact(token);
    if segs.None? then Error
    else
      var headerJson := Base64Url.Decode(segs.value.protected);
      var header := if headerJson.None? then None else ParseHeader(c, headerJson.value);
      if header.None? then Error
      else
        match ParsePayload(c, segs.value.payload)
        case Error => Error
        case Panic => Panic
        case Ok((json, claims)) => Ok(IdToken(segs.value, header.value, claims, json))
  }

  function ParseHeader(c: Codec, json: Bytes): Option<Option<Header>> {
    if c.isNull(json) then Some(None)
    else if c.decodeHeader(json).None? then None
    else Some(c.decodeHeader(json))
  }

  function ParsePayload(c: Codec, payload: Bytes): (r: Outcome<(Bytes, Option<Claims>)>)
    ensures !r.Drawing?
  {
    var json := Base64Url.Decode(payload);
    if json.None? then Error
    else if c.isNull(json.value) then Ok((json.value, None))
    else if c.decodeClaims(json.value).None? then Error
    else
      var raw := c.decodeClaims(json.value).value;
      match JoinAudience(raw.aud)
      case Panic => Panic
      case Ok(aud) => Ok((json.value, Some(Claims(raw.iss, aud, raw.exp, raw.iat))))
  }
}
