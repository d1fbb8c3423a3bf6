/** PK Tokens: signatures over one payload in three slots, and their serialized forms (pktoken/pktoken.go). */
module PkTokens {
  import opened Common
  import opened ByteStrings
  import opened Jose
  import opened Oidc
  import opened CompactForm

  /** A signature together with the token it was taken from; public holds its unsigned header, if any. */
  datatype Slot = Slot(header: Header, token: Bytes, public: Option<map<string, Bytes>>)

  /** The contents of a PK Token. */
  datatype Pkt = Pkt(payload: Option<Bytes>, op: Option<Slot>, cic: Option<Slot>, cos: Option<Slot>,
                     freshIdToken: Option<Bytes>)

  const EMPTY := Pkt(None, None, None, None, None)

  // ---------------------------------------------------------------------------
  // Adding signatures
  // ---------------------------------------------------------------------------

  /** The signature types with a slot of their own typ. */
  predicate ChecksTyp(sigType: string) {
    sigType == "CIC" || sigType == "COS"
  }

  /** AddSignature: the contents afterwards and whether it succeeded.  A failing call may still set the payload. */
  function Added(c: Codec, p: Pkt, token: Bytes, sigType: string): (Pkt, bool) {
    var message := Parse(c, token);
    if message.None? then (p, false)
    else if p.payload.Some? && p.payload.value != message.value.payload then (p, false)
    else
      var q := p.(payload := Some(message.value.payload));
      var slot := Some(Slot(message.value.header, token, None));
      if ChecksTyp(sigType) && message.value.header.typ != Some(sigType) then (q, false)
      else if sigType == "JWT" then (q.(op := slot), true)
      else if sigType == "CIC" then (q.(cic := slot), true)
      else if sigType == "COS" then (q.(cos := slot), true)
      else (q, false)
  }

  /** New. */
  function NewPkt(c: Codec, idToken: Bytes, cicToken: Bytes): Option<Pkt> {
    var (p, ok) := Added(c, EMPTY, idToken, "JWT");
    if !ok then None
    else
      var (q, ok') := Added(c, p, cicToken, "CIC");
      if !ok' then None else Some(q)
  }

  class PkToken {
    var payload: Option<Bytes>
    var op: Option<Slot>
    var cic: Option<Slot>
    var cos: Option<Slot>
    var freshIdToken: Option<Bytes>

    function Contents(): Pkt
      reads this
    {
      Pkt(payload, op, cic, cos, freshIdToken)
    }

    constructor ()
      ensures Contents() == EMPTY
    {
      payload, op, cic, cos, freshIdToken := None, None, None, None, None;
    }

    method AddSignature(c: Codec, token: Bytes, sigType: string) returns (ok: bool)
      modifies this
      ensures (Contents(), ok) == Added(c, old(Contents()), token, sigType)
    {
      var message := Parse(c, token);
      if message.None? {
        return false;
      }
      if payload.None? {
        payload := Some(message.value.payload);
      } else if payload.value != message.value.payload {
        return false;
      }
      var signature := message.value.header;
      if ChecksTyp(sigType) {
        if signature.typ.None? {
          return false;
        } else if signature.typ.value != sigType {
          return false;
        }
      }
      var slot := Some(Slot(signature, token, None));
      if sigType == "JWT" {
        op := slot;
      } else if sigType == "CIC" {
        cic := slot;
      } else if sigType == "COS" {
        cos := slot;
      } else {
        return false;
      }
      return true;
    }
  }

  // ---------------------------------------------------------------------------
  // The compact form
  // ---------------------------------------------------------------------------

  function SlotToken(slot: Option<Slot>): seq<Bytes> {
    if slot.Some? then [slot.value.token] else []
  }

  function Tokens(p: Pkt): seq<Bytes> {
    SlotToken(p.op) + SlotToken(p.cic) + SlotToken(p.cos)
  }

  function Compact(p: Pkt): Option<Bytes> {
    Compacted(Tokens(p), p.freshIdToken)
  }

  /** The slot a token goes to by its typ; a missing or empty one marks the token of the provider. */
  function SlotType(header: Header): string {
    if header.typ.None? || header.typ.value == "" then "JWT" else header.typ.value
  }

  /** Parse a token and add it to the slot its typ names; a null header is dereferenced for its typ. */
  function AddedByTyp(c: Codec, p: Pkt, token: Bytes): Outcome<Pkt> {
    match NewJwt(c, token)
    case Error => Error
    case Panic => Panic
    case Ok(jwt) =>
      if jwt.header.None? then Panic
      else
        var (q, ok) := Added(c, p, token, SlotType(jwt.header.value));
        if ok then Ok(q) else Error
  }

  function AllAdded(c: Codec, p: Pkt, tokens: seq<Bytes>): Outcome<Pkt>
    decreases |tokens|
  {
    if tokens == [] then Ok(p)
    else
      var r := AddedByTyp(c, p, tokens[0]);
      if r.Ok? then AllAdded(c, r.value, tokens[1..]) else r
  }

  /** NewFromCompact. */
  function FromCompact(c: Codec, pktCom: Bytes): Outcome<Pkt> {
    var split := SplitUp(pktCom);
    if split.None? then Error
    else
      var r := AllAdded(c, EMPTY, split.value.0);
      if r.Ok? then Ok(r.value.(freshIdToken := split.value.1)) else r
  }

  method NewFromCompact(c: Codec, pktCom: Bytes) returns (res: Outcome<PkToken>)
    ensures res.Error? <==> FromCompact(c, pktCom).Error?
    ensures res.Panic? <==> FromCompact(c, pktCom).Panic?
    ensures res.Ok? <==> FromCompact(c, pktCom).Ok?
    ensures res.Ok? ==> res.value.Contents() == FromCompact(c, pktCom).value
  {
    var split := SplitCompactPkToken(pktCom);
    if split.None? {
      return Error;
    }
    var (tokens, freshIdToken) := split.value;
    var pkt := new PkToken();
    for i := 0 to |tokens|
      invariant AllAdded(c, EMPTY, tokens) == AllAdded(c, pkt.Contents(), tokens[i..])
    {
      hide NewJwt, Added, SplitUp;
      assert tokens[i..][0] == tokens[i] && tokens[i..][1..] == tokens[i + 1..];
      var parsedToken := NewJwt(c, tokens[i]);
      if parsedToken.Panic? {
        return Panic;
      }
      if !parsedToken.Ok? {
        return Error;
      }
      if parsedToken.value.header.None? {
        return Panic;
      }
      var typ := parsedToken.value.header.value.typ;
      var sigType := if typ.None? || typ.value == "" then "JWT" else typ.value;
      var ok := pkt.AddSignature(c, tokens[i], sigType);
      if !ok {
        return Error;
      }
    }
    pkt.freshIdToken := freshIdToken;
    return Ok(pkt);
  }
}
