/** The JSON form of a PK Token: one payload under several signatures (oidc/jws.go, pktoken/pktoken.go). */
module PkJson {
  import opened Common
  import opened ByteStrings
  import opened Jose
  import opened CompactForm
  import opened PkTokens
  import opened PkInvariants
  import Base64Url

  /** An empty public header is the same as none in JSON. */
  datatype JwsSignature = JwsSignature(protected: Bytes, public: map<string, Bytes>, signature: Bytes)
  datatype JwsDocument = JwsDocument(payload: Bytes, signatures: seq<JwsSignature>)

  // ---------------------------------------------------------------------------
  // Documents and their tokens
  // ---------------------------------------------------------------------------

  function TokenOf(payload: Bytes, s: JwsSignature): Bytes {
    Jwt(s.protected, payload, s.signature)
  }

  /** A token over the payload of a document. */
  predicate Fits(token: Bytes, payload: Bytes) {
    SplitCompact(token).Some? && SplitCompact(token).value.payload == payload
  }

  function SignatureOf(token: Bytes, public: map<string, Bytes>): JwsSignature
    requires SplitCompact(token).Some?
  {
    var segs := SplitCompact(token).value;
    JwsSignature(segs.protected, public, segs.signature)
  }

  /** A token that fits a document comes back out of it unchanged. */
  lemma TokenOfSignature(token: Bytes, payload: Bytes, public: map<string, Bytes>)
    requires Fits(token, payload)
    ensures TokenOf(payload, SignatureOf(token, public)) == token
  {
    hide SplitCompact;
  }

  /** The typ of a signature; a missing one reads as empty. */
  function TypOf(c: Codec, s: JwsSignature): Option<string> {
    var headerJson := Base64Url.Decode(s.protected);
    if headerJson.None? then None
    else if c.isNull(headerJson.value) then Some("")
    else if c.decodeHeader(headerJson.value).None? then None
    else
      var typ := c.decodeHeader(headerJson.value).value.typ;
      Some(if typ.Some? then typ.value else "")
  }

  class Jws {
    var payload: Bytes
    var signatures: seq<JwsSignature>

    function Document(): JwsDocument
      reads this
    {
      JwsDocument(payload, signatures)
    }

    constructor (payload: Bytes)
      ensures Document() == JwsDocument(payload, [])
    {
      this.payload, signatures := payload, [];
    }

    /** Appends exactly the tokens over the payload of the document. */
    method AddSignature(token: Bytes, public: map<string, Bytes>) returns (ok: bool)
      modifies this`signatures
      ensures ok <==> Fits(token, payload)
      ensures !ok ==> signatures == old(signatures)
      ensures ok ==> signatures == old(signatures) + [SignatureOf(token, public)]
      ensures ok ==> TokenOf(payload, signatures[|old(signatures)|]) == token
    {
      var segs := SplitCompact(token);
      if segs.None? {
        return false;
      }
      if payload != segs.value.payload {
        return false;
      }
      signatures := signatures + [JwsSignature(segs.value.protected, public, segs.value.signature)];
      TokenOfSignature(token, payload, public);
      return true;
    }

    method GetToken(i: int) returns (token: Option<Bytes>)
      ensures token.Some? <==> 0 <= i < |signatures|
      ensures token.Some? ==> token.value == TokenOf(payload, signatures[i])
    {
      if i < |signatures| && i >= 0 {
        return Some(TokenOf(payload, signatures[i]));
      }
      return None;
    }

    /** The only token of a typ: an error if some signature is unreadable or the typ occurs twice. */
    method GetTokenByTyp(c: Codec, typ: string) returns (token: Outcome<Option<Bytes>>)
      ensures token.Ok? || token.Error?
      ensures token.Ok? <==>
              && (forall i :: 0 <= i < |signatures| ==> TypOf(c, signatures[i]).Some?)
              && (forall i, j :: 0 <= i < j < |signatures| ==>
                    !(TypOf(c, signatures[i]) == TypOf(c, signatures[j]) == Some(typ)))
      ensures token == Ok(None) ==> forall i :: 0 <= i < |signatures| ==> TypOf(c, signatures[i]) != Some(typ)
      ensures forall t :: token == Ok(Some(t)) ==>
                (exists i :: 0 <= i < |signatures| && TypOf(c, signatures[i]) == Some(typ)
                             && t == TokenOf(payload, signatures[i]))
    {
      hide TypOf, TokenOf, Matching;
      var matching: seq<JwsSignature> := [];
      ghost var at: seq<nat> := [];
      NoneMatching(c, signatures, typ);
      for k := 0 to |signatures|
        invariant Matching(c, signatures, typ, k, at, matching)
      {
        MatchingStep(c, signatures, typ, k, at, matching);
        var found := TypOf(c, signatures[k]);
        if found.None? {
          return Error;
        }
        if found.value == typ {
          matching, at := matching + [signatures[k]], at + [k];
        }
      }
      MatchingEnd(c, signatures, typ, at, matching);
      if |matching| > 1 {
        return Error;
      } else if |matching| == 0 {
        return Ok(None);
      } else {
        return Ok(Some(TokenOf(payload, matching[0])));
      }
    }
  }

  /** The signatures of a typ among the first k, all of which are readable, with their places. */
  ghost predicate Matching(c: Codec, signatures: seq<JwsSignature>, typ: string, k: nat, at: seq<nat>,
                           matching: seq<JwsSignature>)
    requires k <= |signatures|
  {
    && |matching| == |at|
    && (forall i :: 0 <= i < k ==> TypOf(c, signatures[i]).Some?)
    && (forall m :: 0 <= m < |at| ==> at[m] < k && matching[m] == signatures[at[m]])
    && (forall m :: 0 <= m < |at| ==> TypOf(c, signatures[at[m]]) == Some(typ))
    && (forall m, n :: 0 <= m < n < |at| ==> at[m] < at[n])
    && (forall i :: 0 <= i < k && TypOf(c, signatures[i]) == Some(typ) ==> i in at)
  }

  lemma NoneMatching(c: Codec, signatures: seq<JwsSignature>, typ: string)
    ensures Matching(c, signatures, typ, 0, [], [])
  {}

  lemma MatchingStep(c: Codec, signatures: seq<JwsSignature>, typ: string, k: nat, at: seq<nat>,
                     matching: seq<JwsSignature>)
    requires k < |signatures| && Matching(c, signatures, typ, k, at, matching)
    ensures var found := TypOf(c, signatures[k]);
            && (found == Some(typ) ==> Matching(c, signatures, typ, k + 1, at + [k], matching + [signatures[k]]))
            && (found.Some? && found != Some(typ) ==> Matching(c, signatures, typ, k + 1, at, matching))
  {
    hide TypOf;
  }

  lemma MatchingEnd(c: Codec, signatures: seq<JwsSignature>, typ: string, at: seq<nat>, matching: seq<JwsSignature>)
    requires Matching(c, signatures, typ, |signatures|, at, matching)
    ensures forall i :: 0 <= i < |signatures| ==> TypOf(c, signatures[i]).Some?
    ensures |matching| == 0 ==> forall i :: 0 <= i < |signatures| ==> TypOf(c, signatures[i]) != Some(typ)
    ensures |matching| == 1 ==>
              && at != [] && at[0] < |signatures| && matching[0] == signatures[at[0]]
              && TypOf(c, signatures[at[0]]) == Some(typ)
              && forall i :: 0 <= i < |signatures| && TypOf(c, signatures[i]) == Some(typ) ==> i == at[0]
    ensures |matching| > 1 ==>
              exists i, j :: 0 <= i < j < |signatures| && TypOf(c, signatures[i]) == TypOf(c, signatures[j]) == Some(typ)
  {
    hide TypOf;
    if |matching| > 1 {
      assert at[0] < at[1];
    }
  }

  // ---------------------------------------------------------------------------
  // Marshalling
  // ---------------------------------------------------------------------------

  function PayloadOf(p: Pkt): Bytes {
    Base64Url.Encode(if p.payload.Some? then p.payload.value else [])
  }

  function PublicOf(slot: Slot): map<string, Bytes> {
    if slot.public.Some? then slot.public.value else map[]
  }

  predicate SlotFits(slot: Option<Slot>, payload: Bytes) {
    slot.Some? ==> Fits(slot.value.token, payload)
  }

  /** MarshalJSON: every token over the canonical encoding of the payload, in slot order. */
  function Marshalled(p: Pkt): Outcome<JwsDocument> {
    if p.op.None? then Panic
    else if p.cic.None? then Error
    else if !SlotFits(p.op, PayloadOf(p)) || !SlotFits(p.cic, PayloadOf(p)) || !SlotFits(p.cos, PayloadOf(p)) then Error
    else
      var cos := if p.cos.Some? then [SignatureOf(p.cos.value.token, map[])] else [];
      Ok(JwsDocument(PayloadOf(p), [SignatureOf(p.op.value.token, PublicOf(p.op.value)),
                                    SignatureOf(p.cic.value.token, map[])] + cos))
  }

  /** The document is the encoded payload with the other segments of every token in slot order. */
  lemma MarshalledLayout(p: Pkt)
    requires Marshalled(p).Ok?
    ensures var doc, tokens := Marshalled(p).value, Tokens(p);
            && doc.payload == Base64Url.Encode(OrEmpty(p.payload)) && |doc.signatures| == |tokens|
            && forall i :: 0 <= i < |tokens| ==>
                 tokens[i] == doc.signatures[i].protected + [DOT] + doc.payload + [DOT] + doc.signatures[i].signature
  {
    hide SplitCompact, Base64Url.Encode, Jwt;
    var doc, tokens := Marshalled(p).value, Tokens(p);
    forall i | 0 <= i < |tokens|
      ensures tokens[i] == doc.signatures[i].protected + [DOT] + doc.payload + [DOT] + doc.signatures[i].signature
    {
      JwtIs(doc.signatures[i].protected, doc.payload, doc.signatures[i].signature);
    }
  }

  method MarshalJson(p: PkToken) returns (r: Outcome<JwsDocument>)
    ensures r == Marshalled(p.Contents())
  {
    hide SplitCompact, Base64Url.Encode, TokenOf;
    var rawJws := new Jws(Base64Url.Encode(if p.payload.Some? then p.payload.value else []));
    if p.op.None? {
      return Panic;
    }
    var ok := rawJws.AddSignature(p.op.value.token, PublicOf(p.op.value));
    if !ok {
      return Error;
    }
    if p.cic.None? {
      return Error;
    }
    ok := rawJws.AddSignature(p.cic.value.token, map[]);
    if !ok {
      return Error;
    }
    ghost var both := [SignatureOf(p.op.value.token, PublicOf(p.op.value)), SignatureOf(p.cic.value.token, map[])];
    assert rawJws.signatures == both;
    if p.cos.Some? {
      ok := rawJws.AddSignature(p.cos.value.token, map[]);
      if !ok {
        return Error;
      }
    } else {
      assert both + [] == both;
    }
    return Ok(rawJws.Document());
  }

  // ---------------------------------------------------------------------------
  // Unmarshalling
  // ---------------------------------------------------------------------------

  function HeaderOf(c: Codec, s: JwsSignature): Option<Header> {
    var headerJson := c.jwxDecode(s.protected);
    if headerJson.None? || c.jwxDecode(s.signature).None? then None else c.decodeHeader(headerJson.value)
  }

  /** What jwx parses as a message. */
  predicate Readable(c: Codec, doc: JwsDocument) {
    && c.jwxDecode(doc.payload).Some?
    && forall i :: 0 <= i < |doc.signatures| ==> HeaderOf(c, doc.signatures[i]).Some?
  }

  /** The type of a signature; a missing typ marks the provider's. */
  function SignatureType(header: Header): string {
    if header.typ.Some? then header.typ.value else "JWT"
  }

  function Types(c: Codec, doc: JwsDocument): (types: seq<string>)
    requires Readable(c, doc)
    ensures |types| == |doc.signatures|
  {
    seq(|doc.signatures|, i requires 0 <= i < |doc.signatures| => SignatureType(HeaderOf(c, doc.signatures[i]).value))
  }

  predicate Known(typ: string) {
    typ == "JWT" || typ == "CIC" || typ == "COS"
  }

  function SlotAt(c: Codec, doc: JwsDocument, i: nat): Slot
    requires Readable(c, doc) && i < |doc.signatures|
  {
    var s := doc.signatures[i];
    Slot(HeaderOf(c, s).value, TokenOf(doc.payload, s), if s.public == map[] then None else Some(s.public))
  }

  function Placed(p: Pkt, typ: string, slot: Slot): Pkt {
    if typ == "JWT" then p.(op := Some(slot))
    else if typ == "CIC" then p.(cic := Some(slot))
    else if typ == "COS" then p.(cos := Some(slot))
    else p
  }

  /** The contents after the first k signatures. */
  function Filled(c: Codec, doc: JwsDocument, p: Pkt, k: nat): Pkt
    requires Readable(c, doc) && k <= |doc.signatures|
  {
    if k == 0 then p.(payload := c.jwxDecode(doc.payload))
    else Placed(Filled(c, doc, p, k - 1), Types(c, doc)[k - 1], SlotAt(c, doc, k - 1))
  }

  /** How many leading types are known. */
  function KnownPrefix(types: seq<string>): (k: nat)
    ensures k <= |types|
    ensures forall i :: 0 <= i < k ==> Known(types[i])
    ensures k < |types| ==> !Known(types[k])
  {
    if types == [] || !Known(types[0]) then 0 else 1 + KnownPrefix(types[1..])
  }

  /** One provider signature, one client signature, at most one cosigner signature and no other. */
  predicate Balanced(types: seq<string>) {
    && (forall i :: 0 <= i < |types| ==> Known(types[i]))
    && multiset(types)["JWT"] == 1 && multiset(types)["CIC"] == 1 && multiset(types)["COS"] <= 1
  }

  predicate Acceptable(c: Codec, doc: JwsDocument) {
    Readable(c, doc) && Balanced(Types(c, doc))
  }

  /** The counters after i signatures. */
  predicate Counts(types: seq<string>, i: nat, ops: nat, cics: nat, coss: nat)
    requires i <= |types|
  {
    && (forall j :: 0 <= j < i ==> Known(types[j]))
    && ops == multiset(types[..i])["JWT"]
    && cics == multiset(types[..i])["CIC"]
    && coss == multiset(types[..i])["COS"]
  }

  lemma CountsStep(types: seq<string>, i: nat, ops: nat, cics: nat, coss: nat)
    requires i < |types| && Counts(types, i, ops, cics, coss)
    ensures types[i] == "JWT" ==> Counts(types, i + 1, ops + 1, cics, coss)
    ensures types[i] == "CIC" ==> Counts(types, i + 1, ops, cics + 1, coss)
    ensures types[i] == "COS" ==> Counts(types, i + 1, ops, cics, coss + 1)
    ensures !Known(types[i]) ==> KnownPrefix(types) == i && !Balanced(types)
  {
    assert types[..i + 1] == types[..i] + [types[i]];
    assert Known(types[i]) ==> forall j :: 0 <= j < i + 1 ==> Known(types[j]);
  }

  lemma CountsEnd(types: seq<string>, ops: nat, cics: nat, coss: nat)
    requires Counts(types, |types|, ops, cics, coss)
    ensures KnownPrefix(types) == |types|
    ensures Balanced(types) <==> ops == 1 && cics == 1 && coss <= 1
  {
    assert types[..|types|] == types;
  }

  /** One round of the loop, in terms of the parsed signature. */
  lemma FilledStep(c: Codec, doc: JwsDocument, p: Pkt, i: nat)
    requires Readable(c, doc) && i < |doc.signatures|
    ensures var header := HeaderOf(c, doc.signatures[i]);
            header.Some? && Types(c, doc)[i] == SignatureType(header.value)
    ensures var s := doc.signatures[i];
            var public := if |s.public| == 0 then None else Some(s.public);
            Filled(c, doc, p, i + 1) ==
              Placed(Filled(c, doc, p, i), Types(c, doc)[i],
                     Slot(HeaderOf(c, s).value, TokenOf(doc.payload, s), public))
  {
    hide HeaderOf, TokenOf, Placed;
  }

  method UnmarshalJson(c: Codec, doc: JwsDocument, p: PkToken) returns (ok: bool)
    modifies p
    ensures ok <==> Acceptable(c, doc)
    ensures p.Contents() == if Readable(c, doc) then Filled(c, doc, old(p.Contents()), KnownPrefix(Types(c, doc)))
                            else old(p.Contents())
  {
    hide HeaderOf, TokenOf, KnownPrefix, Counts, Filled, Balanced, Readable, Types;
    if !Readable(c, doc) {
      return false;
    }
    ghost var types := Types(c, doc);
    p.payload := c.jwxDecode(doc.payload);
    var opCount, cicCount, cosCount := 0, 0, 0;
    Start(c, doc, old(p.Contents()));
    for i := 0 to |doc.signatures|
      invariant p.Contents() == Filled(c, doc, old(p.Contents()), i)
      invariant opCount >= 0 && cicCount >= 0 && cosCount >= 0
      invariant Counts(types, i, opCount, cicCount, cosCount)
    {
      CountsStep(types, i, opCount, cicCount, cosCount);
      FilledStep(c, doc, old(p.Contents()), i);
      var signature := doc.signatures[i];
      var header := HeaderOf(c, signature).value;
      var public := if |signature.public| == 0 then None else Some(signature.public);
      var slot := Some(Slot(header, TokenOf(doc.payload, signature), public));
      var sigType := if header.typ.Some? then header.typ.value else "JWT";
      if sigType == "JWT" {
        opCount := opCount + 1;
        p.op := slot;
      } else if sigType == "CIC" {
        cicCount := cicCount + 1;
        p.cic := slot;
      } else if sigType == "COS" {
        cosCount := cosCount + 1;
        p.cos := slot;
      } else {
        return false;
      }
    }
    CountsEnd(types, opCount, cicCount, cosCount);
    return opCount == 1 && cicCount == 1 && cosCount <= 1;
  }

  lemma Start(c: Codec, doc: JwsDocument, p: Pkt)
    requires Readable(c, doc)
    ensures Filled(c, doc, p, 0) == p.(payload := c.jwxDecode(doc.payload))
    ensures Counts(Types(c, doc), 0, 0, 0, 0)
  {}

  /** A slot holds the last signature of its type. */
  lemma {:induction false} FilledSlots(c: Codec, doc: JwsDocument, p: Pkt, k: nat, i: nat)
    requires Readable(c, doc) && i < k <= |doc.signatures|
    requires forall j :: i < j < k ==> Types(c, doc)[j] != Types(c, doc)[i]
    ensures var q := Filled(c, doc, p, k);
            && (Types(c, doc)[i] == "JWT" ==> q.op == Some(SlotAt(c, doc, i)))
            && (Types(c, doc)[i] == "CIC" ==> q.cic == Some(SlotAt(c, doc, i)))
            && (Types(c, doc)[i] == "COS" ==> q.cos == Some(SlotAt(c, doc, i)))
  {
    hide Types, SlotAt;
    if i < k - 1 {
      FilledSlots(c, doc, p, k - 1, i);
    }
  }

  /** Unmarshalling into a new PK Token. */
  function Unmarshalled(c: Codec, doc: JwsDocument): Option<Pkt> {
    if Acceptable(c, doc) then Some(Filled(c, doc, EMPTY, |doc.signatures|)) else None
  }

  /** One signature of the provider, one of the client, and nothing but at most one of a cosigner beside them. */
  predicate OneOfEach(types: seq<string>) {
    2 <= |types| <= 3 &&
    exists i, j :: 0 <= i < |types| && 0 <= j < |types| && types[i] == "JWT" && types[j] == "CIC"
                && forall k :: 0 <= k < |types| && k != i && k != j ==> types[k] == "COS"
  }

  lemma BalancedLength(types: seq<string>)
    requires Balanced(types)
    ensures |types| == 2 + multiset(types)["COS"]
  {
    var m, n := multiset(types), multiset(types)["COS"];
    forall x
      ensures m[x] == multiset{"JWT", "CIC"}["COS" := n][x]
    {
      if x in m {
        assert x in types;
      }
    }
    assert m == multiset{"JWT", "CIC"}["COS" := n];
  }

  lemma BalancedPair(types: seq<string>)
    requires |types| == 2
    ensures Balanced(types) <==> OneOfEach(types)
  {
    var a, b := types[0], types[1];
    assert types == [a, b];
    assert multiset(types) == multiset{a, b};
    if a == "JWT" && b == "CIC" {
      assert types[0] == "JWT" && types[1] == "CIC";
    } else if a == "CIC" && b == "JWT" {
      assert types[1] == "JWT" && types[0] == "CIC";
    }
  }

  lemma BalancedTriple(types: seq<string>)
    requires |types| == 3
    ensures Balanced(types) ==> OneOfEach(types)
  {
    if Balanced(types) {
      var i := OnlyOne(types, "JWT");
      var j := OnlyOne(types, "CIC");
      forall k | 0 <= k < 3 && k != i && k != j
        ensures types[k] == "COS"
      {
        assert Known(types[k]);
      }
      assert types[i] == "JWT" && types[j] == "CIC";
    }
  }

  /** The place of a type that occurs once in three. */
  lemma OnlyOne(types: seq<string>, typ: string) returns (i: nat)
    requires |types| == 3 && multiset(types)[typ] == 1
    ensures i < 3 && types[i] == typ && forall k :: 0 <= k < 3 && k != i ==> types[k] != typ
  {
    assert types == [types[0], types[1], types[2]];
    assert multiset(types) == multiset{types[0], types[1], types[2]};
    i := if types[0] == typ then 0 else if types[1] == typ then 1 else 2;
  }

  lemma TripleBalanced(types: seq<string>)
    requires |types| == 3 && OneOfEach(types)
    ensures Balanced(types)
  {
    var a, b, c := types[0], types[1], types[2];
    assert types == [a, b, c];
    assert multiset(types) == multiset{a, b, c};
  }

  /** The header under the protected segment of a signature. */
  function HeaderUnder(c: Codec, s: JwsSignature): Option<Header> {
    var json := c.jwxDecode(s.protected);
    if json.Some? then c.decodeHeader(json.value) else None
  }

  /** The payload, every signature and every header decode. */
  predicate Decodes(c: Codec, doc: JwsDocument) {
    && c.jwxDecode(doc.payload).Some?
    && (forall i :: 0 <= i < |doc.signatures| ==> c.jwxDecode(doc.signatures[i].signature).Some?)
    && (forall i :: 0 <= i < |doc.signatures| ==> HeaderUnder(c, doc.signatures[i]).Some?)
  }

  /** The types shown by the headers, JWT where there is none. */
  function ShownTypes(c: Codec, doc: JwsDocument): (types: seq<string>)
    requires Decodes(c, doc)
  {
    seq(|doc.signatures|, i requires 0 <= i < |doc.signatures| =>
      var typ := HeaderUnder(c, doc.signatures[i]).value.typ; if typ.None? then "JWT" else typ.value)
  }

  lemma ReadableExactly(c: Codec, doc: JwsDocument)
    ensures Readable(c, doc) <==> Decodes(c, doc)
    ensures Readable(c, doc) ==> Types(c, doc) == ShownTypes(c, doc)
  {}

  /** A document is accepted exactly if it decodes and has one signature of each type, that of a cosigner aside. */
  lemma AcceptableExactly(c: Codec, doc: JwsDocument)
    ensures Acceptable(c, doc) <==> Decodes(c, doc) && OneOfEach(ShownTypes(c, doc))
  {
    hide Readable, Decodes, ShownTypes, Types, Balanced, OneOfEach;
    ReadableExactly(c, doc);
    if Readable(c, doc) {
      var types := Types(c, doc);
      if Balanced(types) {
        BalancedCount(types);
        BalancedLength(types);
      }
      EachCount(types);
      if |types| == 2 {
        BalancedPair(types);
      } else if |types| == 3 {
        BalancedTriple(types);
        if OneOfEach(types) {
          TripleBalanced(types);
        }
      }
    }
  }

  lemma BalancedCount(types: seq<string>)
    requires Balanced(types)
    ensures multiset(types)["COS"] <= 1
  {}

  lemma EachCount(types: seq<string>)
    ensures OneOfEach(types) ==> 2 <= |types| <= 3
  {}

  // ---------------------------------------------------------------------------
  // Round trip
  // ---------------------------------------------------------------------------

  /** What the JSON form carries: everything but the refreshed ID Token, and unsigned headers of the provider only. */
  function Carried(p: Pkt): Pkt {
    p.(op := CarriedSlot(p.op, true), cic := CarriedSlot(p.cic, false), cos := CarriedSlot(p.cos, false),
       freshIdToken := None)
  }

  function CarriedSlot(slot: Option<Slot>, withPublic: bool): Option<Slot> {
    if slot.None? then None
    else Some(slot.value.(public := if withPublic && PublicOf(slot.value) != map[] then slot.value.public else None))
  }

  /** Marshalling reads only what the JSON form carries, so marshalling again gives the same document. */
  lemma MarshalledCarried(p: Pkt)
    ensures Marshalled(Carried(p)) == Marshalled(p)
  {
    hide Fits, SignatureOf, Base64Url.Encode;
  }

  /** A token over the payload, read back from its signature. */
  lemma ReadBack(c: Codec, token: Bytes, payload: Bytes, public: map<string, Bytes>)
    requires Parse(c, token).Some? && Fits(token, payload)
    ensures var s := SignatureOf(token, public);
            HeaderOf(c, s) == Some(Parse(c, token).value.header) && TokenOf(payload, s) == token
  {
    hide SplitCompact;
    TokenOfSignature(token, payload, public);
  }

  lemma SlotReadBack(c: Codec, p: Pkt, slot: Option<Slot>, withPublic: bool)
    requires slot.Some? && SlotHolds(c, slot, p.payload) && SlotFits(slot, PayloadOf(p))
    ensures var s := SignatureOf(slot.value.token, if withPublic then PublicOf(slot.value) else map[]);
            && HeaderOf(c, s) == Some(slot.value.header)
            && CarriedSlot(slot, withPublic)
               == Some(Slot(HeaderOf(c, s).value, TokenOf(PayloadOf(p), s),
                            if s.public == map[] then None else Some(s.public)))
  {
    hide Parse, HeaderOf, TokenOf, PayloadOf;
    var public := if withPublic then PublicOf(slot.value) else map[];
    ReadBack(c, slot.value.token, PayloadOf(p), public);
    assert SignatureOf(slot.value.token, public).public == public;
  }

  /** The payload survives base64url. */
  lemma PayloadReadBack(c: Codec, p: Pkt)
    requires SoundBase64(c) && p.payload.Some?
    ensures c.jwxDecode(PayloadOf(p)) == p.payload
  {
    hide Base64Url.Encode, Base64Url.Decode;
    Base64Url.DecodeEncode(p.payload.value);
  }

  lemma CompletePayload(c: Codec, p: Pkt)
    requires Complete(c, p)
    ensures p.payload.Some?
  {}

  /** The types of a marshalled token, in order. */
  function SlotTypes(p: Pkt): seq<string>
    requires p.op.Some?
  {
    [SignatureType(p.op.value.header), "CIC"] + if p.cos.Some? then ["COS"] else []
  }

  lemma MarshalledReadable(c: Codec, p: Pkt)
    requires SoundBase64(c) && Complete(c, p) && Marshalled(p).Ok?
    ensures var doc := Marshalled(p).value;
            && Readable(c, doc) && Types(c, doc) == SlotTypes(p) && c.jwxDecode(doc.payload) == p.payload
            && CarriedSlot(p.op, true) == Some(SlotAt(c, doc, 0))
            && CarriedSlot(p.cic, false) == Some(SlotAt(c, doc, 1))
            && (p.cos.Some? ==> CarriedSlot(p.cos, false) == Some(SlotAt(c, doc, 2)))
  {
    hide SlotHolds, HeaderOf, TokenOf, PayloadOf, CarriedSlot, SlotFits, SignatureOf, SoundBase64, PublicOf;
    CompletePayload(c, p);
    PayloadReadBack(c, p);
    SlotReadBack(c, p, p.op, true);
    SlotReadBack(c, p, p.cic, false);
    if p.cos.Some? {
      SlotReadBack(c, p, p.cos, false);
    }
  }

  /** The typ of the provider's token that the JSON form can tell. */
  predicate JsonTyp(header: Header) {
    header.typ.None? || header.typ == Some("JWT")
  }

  lemma SlotTypesBalanced(p: Pkt)
    requires p.op.Some?
    ensures Balanced(SlotTypes(p)) <==> JsonTyp(p.op.value.header)
  {
    var types := SlotTypes(p);
    var typ := SignatureType(p.op.value.header);
    assert typ != "JWT" ==> "JWT" !in types;
    assert multiset(types)["JWT"] == if typ == "JWT" then 1 else 0;
    if typ == "JWT" {
      assert forall i :: 0 <= i < |types| ==> Known(types[i]);
    }
  }

  /** The JSON form carries every signed byte if and only if the provider's token has no typ or the typ JWT; any
      other typ makes the document unacceptable. */
  lemma JsonRoundTrip(c: Codec, p: Pkt)
    requires SoundBase64(c) && Complete(c, p) && Marshalled(p).Ok?
    ensures Unmarshalled(c, Marshalled(p).value) ==
              if JsonTyp(p.op.value.header) then Some(Carried(p)) else None
  {
    hide Readable, Types, Balanced, SlotAt, CarriedSlot, SoundBase64, SlotHolds, Marshalled, Filled;
    var doc := Marshalled(p).value;
    MarshalledReadable(c, p);
    SlotTypesBalanced(p);
    if JsonTyp(p.op.value.header) {
      FilledThrice(c, doc, p);
    }
  }

  lemma FilledThrice(c: Codec, doc: JwsDocument, p: Pkt)
    requires Readable(c, doc) && p.op.Some? && p.cic.Some? && Types(c, doc) == SlotTypes(p)
    requires JsonTyp(p.op.value.header) && c.jwxDecode(doc.payload) == p.payload
    requires CarriedSlot(p.op, true) == Some(SlotAt(c, doc, 0)) && CarriedSlot(p.cic, false) == Some(SlotAt(c, doc, 1))
    requires p.cos.Some? ==> CarriedSlot(p.cos, false) == Some(SlotAt(c, doc, 2))
    ensures Filled(c, doc, EMPTY, |doc.signatures|) == Carried(p)
  {
    hide Readable, Types, SlotAt, HeaderOf;
    assert Filled(c, doc, EMPTY, 0) == EMPTY.(payload := p.payload);
    assert Filled(c, doc, EMPTY, 1) == EMPTY.(payload := p.payload, op := CarriedSlot(p.op, true));
    assert Filled(c, doc, EMPTY, 2)
        == EMPTY.(payload := p.payload, op := CarriedSlot(p.op, true), cic := CarriedSlot(p.cic, false));
  }

  /** DeepCopy. */
  function DeepCopy(c: Codec, p: Pkt): Outcome<Pkt> {
    var doc := Marshalled(p);
    if !doc.Ok? then if doc.Panic? then Panic else Error
    else
      var q := Unmarshalled(c, doc.value);
      if q.None? then Error else Ok(q.value.(freshIdToken := p.freshIdToken))
  }

  /** A copy equals the original, refreshed ID Token included, under the same condition. */
  lemma DeepCopyIsEqual(c: Codec, p: Pkt)
    requires SoundBase64(c) && Complete(c, p) && NoPublic(p) && Marshalled(p).Ok?
    ensures DeepCopy(c, p) == Ok(p) <==> JsonTyp(p.op.value.header)
  {
    hide SoundBase64, Consistent, Marshalled, Unmarshalled;
    JsonRoundTrip(c, p);
  }

  // ---------------------------------------------------------------------------
  // Canonical payload segments
  // ---------------------------------------------------------------------------

  /** The payload segment is strict base64url without line breaks. */
  predicate CanonicalSegment(token: Bytes) {
    var segs := SplitCompact(token);
    && segs.Some?
    && Base64Url.Decode(segs.value.payload).Some?
    && Base64Url.LF !in segs.value.payload && Base64Url.CR !in segs.value.payload
  }

  predicate Canonical(p: Pkt) {
    && (p.op.Some? ==> CanonicalSegment(p.op.value.token))
    && (p.cic.Some? ==> CanonicalSegment(p.cic.value.token))
    && (p.cos.Some? ==> CanonicalSegment(p.cos.value.token))
  }

  lemma CanonicalFits(c: Codec, slot: Option<Slot>, payload: Bytes)
    requires SoundBase64(c) && slot.Some? && SlotHolds(c, slot, Some(payload))
    ensures SlotFits(slot, Base64Url.Encode(payload)) <==> CanonicalSegment(slot.value.token)
  {
    hide SplitCompact, Base64Url.Decode, Base64Url.Encode;
    Base64Url.DecodeEncode(payload);
    var segment := SplitCompact(slot.value.token).value.payload;
    if Base64Url.Decode(segment).Some? {
      Base64Url.EncodeDecode(segment);
    }
  }

  /** Marshalling succeeds exactly on canonical payload segments. */
  lemma MarshalSucceeds(c: Codec, p: Pkt)
    requires SoundBase64(c) && Complete(c, p)
    ensures Marshalled(p).Ok? <==> Canonical(p)
  {
    hide SoundBase64, SlotHolds, Fits, CanonicalSegment, Base64Url.Encode, SignatureOf;
    CompletePayload(c, p);
    CanonicalFits(c, p.op, p.payload.value);
    CanonicalFits(c, p.cic, p.payload.value);
    if p.cos.Some? {
      CanonicalFits(c, p.cos, p.payload.value);
    }
  }

  lemma {:induction false} AllFit(tokens: seq<Bytes>, payload: Bytes)
    requires forall i :: 0 <= i < |tokens| ==> Fits(tokens[i], payload)
    ensures AllSegments(tokens).Some? && SamePayload(AllSegments(tokens).value, payload)
  {
    hide SplitCompact;
    if tokens != [] {
      AllFit(tokens[..|tokens| - 1], payload);
    }
  }

  /** A token with a JSON form has a compact form too, unless its refreshed ID Token is malformed. */
  lemma CompactSucceeds(c: Codec, p: Pkt)
    requires Complete(c, p) && Marshalled(p).Ok?
    ensures Compact(p).Some? <==> p.freshIdToken.None? || ThreeSegments(p.freshIdToken.value)
  {
    hide Fits, AllSegments, ThreeSegments, Consistent, SignatureOf, PayloadOf, Join, Interleaved;
    AllFit(Tokens(p), PayloadOf(p));
  }
}
