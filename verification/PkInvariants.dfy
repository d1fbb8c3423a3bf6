/** What every sequence of AddSignature calls keeps, and what the compact form restores. */
module PkInvariants {
  import opened Common
  import opened ByteStrings
  import opened Jose
  import opened Oidc
  import opened CompactForm
  import opened PkTokens
  import Base64Url

  // ---------------------------------------------------------------------------
  // Sequences of AddSignature calls
  // ---------------------------------------------------------------------------

  datatype Addition = Addition(token: Bytes, sigType: string)

  /** The contents after a sequence of calls, failing ones included. */
  function AfterAll(c: Codec, p: Pkt, calls: seq<Addition>): Pkt
    decreases |calls|
  {
    if calls == [] then p else AfterAll(c, Added(c, p, calls[0].token, calls[0].sigType).0, calls[1..])
  }

  /** A filled slot holds a token that parses to the slot's header and to the payload. */
  predicate SlotHolds(c: Codec, slot: Option<Slot>, payload: Option<Bytes>) {
    slot.Some? ==>
      var m := Parse(c, slot.value.token);
      && m.Some?
      && slot.value.header == m.value.header
      && payload == Some(m.value.payload)
  }

  predicate HasTyp(slot: Option<Slot>, typ: string) {
    slot.Some? ==> slot.value.header.typ == Some(typ)
  }

  predicate Consistent(c: Codec, p: Pkt) {
    && SlotHolds(c, p.op, p.payload) && SlotHolds(c, p.cic, p.payload) && SlotHolds(c, p.cos, p.payload)
    && HasTyp(p.cic, "CIC") && HasTyp(p.cos, "COS")
  }

  lemma SlotKept(c: Codec, slot: Option<Slot>, before: Option<Bytes>, after: Option<Bytes>)
    requires SlotHolds(c, slot, before) && (before.Some? ==> after == before)
    ensures SlotHolds(c, slot, after)
  {
    hide Parse;
  }

  lemma NewSlotHolds(c: Codec, token: Bytes)
    ensures var m := Parse(c, token);
            m.Some? ==> SlotHolds(c, Some(Slot(m.value.header, token, None)), Some(m.value.payload))
  {
    hide Parse;
  }

  lemma AddedKeeps(c: Codec, p: Pkt, token: Bytes, sigType: string)
    requires Consistent(c, p)
    ensures Consistent(c, Added(c, p, token, sigType).0)
    ensures p.payload.Some? ==> Added(c, p, token, sigType).0.payload == p.payload
  {
    hide Parse, SlotHolds;
    var after := Added(c, p, token, sigType).0.payload;
    NewSlotHolds(c, token);
    SlotKept(c, p.op, p.payload, after);
    SlotKept(c, p.cic, p.payload, after);
    SlotKept(c, p.cos, p.payload, after);
  }

  /** Over every sequence of calls, the payload never changes once set, every stored token has that payload, and
      the client and cosigner slots hold only tokens of their typ. */
  lemma {:induction false} AdditionsKeep(c: Codec, p: Pkt, calls: seq<Addition>)
    requires Consistent(c, p)
    ensures Consistent(c, AfterAll(c, p, calls))
    ensures p.payload.Some? ==> AfterAll(c, p, calls).payload == p.payload
    decreases |calls|
  {
    hide Added, Consistent;
    if calls != [] {
      AddedKeeps(c, p, calls[0].token, calls[0].sigType);
      AdditionsKeep(c, Added(c, p, calls[0].token, calls[0].sigType).0, calls[1..]);
    }
  }

  // ---------------------------------------------------------------------------
  // The compact form restores the token
  // ---------------------------------------------------------------------------

  /** A PK Token as New and a cosigner leave it: both required signatures, everything consistent. */
  predicate Complete(c: Codec, p: Pkt) {
    && p.op.Some? && p.cic.Some?
    && Consistent(c, p)
  }

  /** No slot carries an unsigned header, as after parsing compact tokens. */
  predicate NoPublic(p: Pkt) {
    && (p.op.Some? ==> p.op.value.public.None?)
    && (p.cic.Some? ==> p.cic.value.public.None?)
    && (p.cos.Some? ==> p.cos.value.public.None?)
  }

  lemma NewIsComplete(c: Codec, idToken: Bytes, cicToken: Bytes)
    requires NewPkt(c, idToken, cicToken).Some?
    ensures Complete(c, NewPkt(c, idToken, cicToken).value) && NoPublic(NewPkt(c, idToken, cicToken).value)
  {
    hide Parse, SlotHolds, Consistent;
    assert Consistent(c, EMPTY) by {
      EmptyIsConsistent(c);
    }
    AddedKeeps(c, EMPTY, idToken, "JWT");
    AddedKeeps(c, Added(c, EMPTY, idToken, "JWT").0, cicToken, "CIC");
  }

  /** New succeeds exactly on an ID Token and a client token of typ CIC over one payload, and holds both. */
  lemma NewExactly(c: Codec, idToken: Bytes, cicToken: Bytes)
    ensures var id, cic := Parse(c, idToken), Parse(c, cicToken);
            NewPkt(c, idToken, cicToken) ==
              if && id.Some? && cic.Some? && id.value.payload == cic.value.payload
                 && cic.value.header.typ == Some("CIC") then
                Some(Pkt(Some(id.value.payload), Some(Slot(id.value.header, idToken, None)),
                         Some(Slot(cic.value.header, cicToken, None)), None, None))
              else None
  {
    hide Parse;
  }

  lemma EmptyIsConsistent(c: Codec)
    ensures Consistent(c, EMPTY)
  {}

  /** Adding a cosigner signature to a complete token keeps it complete. */
  lemma CosignedIsComplete(c: Codec, p: Pkt, cosToken: Bytes)
    requires Complete(c, p) && NoPublic(p)
    ensures Complete(c, Added(c, p, cosToken, "COS").0) && NoPublic(Added(c, p, cosToken, "COS").0)
    ensures Added(c, p, cosToken, "COS").1 ==> Added(c, p, cosToken, "COS").0.cos.Some?
  {
    hide Parse, SlotHolds, Consistent;
    AddedKeeps(c, p, cosToken, "COS");
  }

  /** Parsed tokens hold no colon. */
  lemma ParsedColonFree(c: Codec, token: Bytes)
    requires SoundBase64(c) && Parse(c, token).Some?
    ensures COLON !in token
  {
    hide SplitCompact;
    var s := SplitCompact(token).value;
    ColonFreeJwt(s.protected, s.payload, s.signature);
  }

  lemma SlotColonFree(c: Codec, slot: Option<Slot>, payload: Option<Bytes>)
    requires SoundBase64(c) && SlotHolds(c, slot, payload)
    ensures ColonFree(SlotToken(slot))
  {
    hide Parse;
    if slot.Some? {
      ParsedColonFree(c, slot.value.token);
    }
  }

  lemma TokensColonFree(c: Codec, p: Pkt)
    requires SoundBase64(c) && Consistent(c, p)
    ensures ColonFree(Tokens(p))
  {
    hide SoundBase64, SlotHolds, SlotToken;
    SlotColonFree(c, p.op, p.payload);
    SlotColonFree(c, p.cic, p.payload);
    SlotColonFree(c, p.cos, p.payload);
  }

  /** The strict parser of oidc and the lenient one of jwx read the same header. */
  lemma SameHeader(c: Codec, token: Bytes)
    requires SoundBase64(c) && Parse(c, token).Some? && Reads(c, token)
    ensures NewJwt(c, token).value.header == Some(Parse(c, token).value.header)
  {
    hide SplitCompact, Base64Url.Decode, ParsePayload;
  }

  /** A token that parses as an ID Token does, with a header that is not null. */
  predicate Reads(c: Codec, token: Bytes) {
    NewJwt(c, token).Ok? && NewJwt(c, token).value.header.Some?
  }

  predicate AllParse(c: Codec, tokens: seq<Bytes>) {
    forall i :: 0 <= i < |tokens| ==> Reads(c, tokens[i])
  }

  /** The provider's token goes to its own slot by typ. */
  predicate ProviderTyp(p: Pkt)
    requires p.op.Some?
  {
    OwnTyp(p.op.value.header)
  }

  /** No typ, an empty one or JWT. */
  predicate OwnTyp(header: Header) {
    header.typ.None? || header.typ == Some("") || header.typ == Some("JWT")
  }

  /** A token out of a consistent slot, added by its typ to contents with no payload or the same one. */
  predicate Readded(c: Codec, q: Pkt, slot: Option<Slot>, payload: Option<Bytes>) {
    && slot.Some? && slot.value.public.None? && SlotHolds(c, slot, payload)
    && (q.payload.None? || q.payload == payload)
  }

  lemma ReaddedByTyp(c: Codec, q: Pkt, slot: Option<Slot>, payload: Option<Bytes>)
    requires SoundBase64(c) && Readded(c, q, slot, payload)
    ensures AddedByTyp(c, q, slot.value.token).Ok? ==> Reads(c, slot.value.token)
    ensures Reads(c, slot.value.token) ==>
              AddedByTyp(c, q, slot.value.token) ==
                var (r, ok) := Added(c, q, slot.value.token, SlotType(slot.value.header));
                if ok then Ok(r) else Error
  {
    hide Parse, NewJwt, Added, SlotType;
    if Reads(c, slot.value.token) {
      SameHeader(c, slot.value.token);
    }
  }

  /** A slot of a token put where its typ says. */
  function PlacedByTyp(q: Pkt, slot: Option<Slot>): Outcome<Pkt>
    requires slot.Some?
  {
    var header := slot.value.header;
    if OwnTyp(header) then Ok(q.(op := slot))
    else if header.typ == Some("CIC") then Ok(q.(cic := slot))
    else if header.typ == Some("COS") then Ok(q.(cos := slot))
    else Error
  }

  lemma ReaddedAnywhere(c: Codec, q: Pkt, slot: Option<Slot>, payload: Option<Bytes>)
    requires SoundBase64(c) && Readded(c, q, slot, payload)
    ensures var r := AddedByTyp(c, q, slot.value.token);
            if Reads(c, slot.value.token) then r == PlacedByTyp(q.(payload := payload), slot) else !r.Ok?
  {
    hide Parse, Reads, AddedByTyp, SoundBase64;
    ReaddedByTyp(c, q, slot, payload);
  }

  lemma ReaddedClient(c: Codec, q: Pkt, slot: Option<Slot>, payload: Option<Bytes>)
    requires SoundBase64(c) && Readded(c, q, slot, payload) && HasTyp(slot, "CIC")
    ensures var r := AddedByTyp(c, q, slot.value.token);
            && (r.Ok? <==> Reads(c, slot.value.token))
            && (r.Ok? ==> r == Ok(q.(payload := payload, cic := slot)))
  {
    hide Parse, Reads, AddedByTyp, SoundBase64;
    ReaddedByTyp(c, q, slot, payload);
  }

  lemma ReaddedCosigner(c: Codec, q: Pkt, slot: Option<Slot>, payload: Option<Bytes>)
    requires SoundBase64(c) && Readded(c, q, slot, payload) && HasTyp(slot, "COS")
    ensures var r := AddedByTyp(c, q, slot.value.token);
            && (r.Ok? <==> Reads(c, slot.value.token))
            && (r.Ok? ==> r == Ok(q.(payload := payload, cos := slot)))
  {
    hide Parse, Reads, AddedByTyp, SoundBase64;
    ReaddedByTyp(c, q, slot, payload);
  }

  lemma AllAddedStep(c: Codec, q: Pkt, token: Bytes, rest: seq<Bytes>)
    ensures AllAdded(c, q, [token] + rest) ==
              var r := AddedByTyp(c, q, token); if r.Ok? then AllAdded(c, r.value, rest) else r
  {
    hide AddedByTyp;
    assert ([token] + rest)[1..] == rest;
  }

  /** The client and cosigner tokens, added to contents that hold the payload. */
  lemma RestReadded(c: Codec, p: Pkt, q: Pkt)
    requires SoundBase64(c) && Complete(c, p) && NoPublic(p) && q.payload == p.payload
    ensures var rest := [p.cic.value.token] + SlotToken(p.cos);
            var r := AllAdded(c, q, rest);
            && (r.Ok? <==> AllParse(c, rest))
            && (r.Ok? ==> r == Ok(q.(cic := p.cic, cos := if p.cos.Some? then p.cos else q.cos)))
  {
    hide SoundBase64, SlotHolds, Reads, AddedByTyp, AllAdded, Parse, HasTyp;
    var rest := [p.cic.value.token] + SlotToken(p.cos);
    ReaddedClient(c, q, p.cic, p.payload);
    AllAddedStep(c, q, p.cic.value.token, SlotToken(p.cos));
    assert AllParse(c, rest) <==> Reads(c, p.cic.value.token) && AllParse(c, SlotToken(p.cos)) by {
      assert rest[0] == p.cic.value.token && rest[1..] == SlotToken(p.cos);
    }
    var r := AddedByTyp(c, q, p.cic.value.token);
    if r.Ok? {
      LastReadded(c, p, r.value);
    }
  }

  lemma LastReadded(c: Codec, p: Pkt, q: Pkt)
    requires SoundBase64(c) && Complete(c, p) && NoPublic(p) && q.payload == p.payload
    ensures var r := AllAdded(c, q, SlotToken(p.cos));
            && (r.Ok? <==> AllParse(c, SlotToken(p.cos)))
            && (r.Ok? ==> r == Ok(q.(cos := if p.cos.Some? then p.cos else q.cos)))
  {
    hide SoundBase64, SlotHolds, Reads, AddedByTyp, Parse, HasTyp;
    if p.cos.Some? {
      ReaddedCosigner(c, q, p.cos, p.payload);
      AllAddedStep(c, q, p.cos.value.token, []);
      assert [p.cos.value.token] + [] == SlotToken(p.cos);
      assert AllParse(c, SlotToken(p.cos)) <==> Reads(c, SlotToken(p.cos)[0]);
    }
  }

  /** What the compact form gives back: the token itself, or, if the provider's typ names the slot of another token,
      the token without the provider's, which is lost unless the slot of the cosigner was free; an error for any other
      typ. */
  function GivenBack(p: Pkt): Outcome<Pkt>
    requires p.op.Some?
  {
    var header := p.op.value.header;
    if OwnTyp(header) then Ok(p)
    else if header.typ == Some("CIC") then Ok(p.(op := None))
    else if header.typ == Some("COS") then Ok(p.(op := None, cos := if p.cos.Some? then p.cos else p.op))
    else Error
  }

  lemma AllReadded(c: Codec, p: Pkt)
    requires SoundBase64(c) && Complete(c, p) && NoPublic(p)
    ensures var r := AllAdded(c, EMPTY, Tokens(p));
            if AllParse(c, Tokens(p)) then r == GivenBack(p.(freshIdToken := None)) else !r.Ok?
  {
    hide SoundBase64, SlotHolds, Reads, AddedByTyp, AllAdded, Parse, HasTyp, OwnTyp;
    var first, rest := p.op.value.token, [p.cic.value.token] + SlotToken(p.cos);
    var tokens := Tokens(p);
    assert tokens == [first] + rest;
    assert AllParse(c, tokens) <==> Reads(c, first) && AllParse(c, rest) by {
      assert tokens[0] == first && tokens[1..] == rest;
    }
    ReaddedAnywhere(c, EMPTY, p.op, p.payload);
    AllAddedStep(c, EMPTY, first, rest);
    var r := AddedByTyp(c, EMPTY, first);
    if r.Ok? {
      RestReadded(c, p, r.value);
    }
  }

  /** The outcome of the compact form for every typ of the provider's token. */
  lemma CompactOutcome(c: Codec, p: Pkt)
    requires SoundBase64(c) && Complete(c, p) && NoPublic(p) && Compact(p).Some?
    ensures var r := FromCompact(c, Compact(p).value);
            if AllParse(c, Tokens(p)) then r == GivenBack(p) else !r.Ok?
  {
    hide Compacted, SplitUp, AllAdded, Reads, ColonFree, SoundBase64, SlotHolds, HasTyp, AllParse, Tokens, OwnTyp;
    TokensColonFree(c, p);
    CompactThenSplit(Tokens(p), p.freshIdToken);
    AllReadded(c, p);
  }

  /** The compact form restores all slots byte for byte if and only if every token parses as an ID Token does and
      the provider's token does not claim another slot. */
  lemma CompactRestores(c: Codec, p: Pkt)
    requires SoundBase64(c) && Complete(c, p) && NoPublic(p) && Compact(p).Some?
    ensures FromCompact(c, Compact(p).value) == Ok(p) <==> ProviderTyp(p) && AllParse(c, Tokens(p))
  {
    hide Consistent, FromCompact, Compact, AllParse, Tokens, OwnTyp;
    CompactOutcome(c, p);
  }
}
