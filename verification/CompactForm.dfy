/** The compact form of a PK Token: payload:protected1:signature1:...[.refreshed ID Token] (pktoken/compact.go). */
module CompactForm {
  import opened Common
  import opened ByteStrings

  // ---------------------------------------------------------------------------
  // What the two directions compute
  // ---------------------------------------------------------------------------

  /** The segments of every token. */
  function AllSegments(tokens: seq<Bytes>): (r: Option<seq<Segments>>)
    ensures r.Some? ==> |r.value| == |tokens|
  {
    if tokens == [] then Some([])
    else
      var init, last := AllSegments(tokens[..|tokens| - 1]), SplitCompact(tokens[|tokens| - 1]);
      if init.None? || last.None? then None else Some(init.value + [last.value])
  }

  predicate SamePayload(segs: seq<Segments>, payload: Bytes) {
    forall i :: 0 <= i < |segs| ==> segs[i].payload == payload
  }

  /** protected1, signature1, protected2, signature2, ... */
  function Interleaved(segs: seq<Segments>): (parts: seq<Bytes>)
    ensures |parts| == 2 * |segs|
  {
    if segs == [] then []
    else Interleaved(segs[..|segs| - 1]) + [segs[|segs| - 1].protected, segs[|segs| - 1].signature]
  }

  predicate ThreeSegments(token: Bytes) {
    |Split(token, DOT)| == 3
  }

  /** The common payload of the tokens and their other segments in order; None if the payloads differ. */
  function Gathered(tokens: seq<Bytes>): Option<(Bytes, seq<Bytes>)>
    requires tokens != []
  {
    var segs := AllSegments(tokens);
    if segs.None? || !SamePayload(segs.value, segs.value[0].payload) then None
    else Some((segs.value[0].payload, Interleaved(segs.value)))
  }

  function Compacted(tokens: seq<Bytes>, refreshed: Option<Bytes>): Option<Bytes> {
    if tokens == [] || Gathered(tokens).None? then None
    else
      var (payload, parts) := Gathered(tokens).value;
      var com := Join([payload] + parts, COLON);
      if refreshed.None? then Some(com)
      else if !ThreeSegments(refreshed.value) then None
      else Some(Join([com, refreshed.value], DOT))
  }

  /** Every protected and signature pair put back around the payload. */
  function Rejoined(payload: Bytes, parts: seq<Bytes>): (tokens: seq<Bytes>)
    requires |parts| % 2 == 0
    ensures |tokens| == |parts| / 2
  {
    if parts == [] then []
    else
      var n := |parts|;
      Rejoined(payload, parts[..n - 2]) + [Jwt(parts[n - 2], payload, parts[n - 1])]
  }

  function SplitUp(pktCom: Bytes): Option<(seq<Bytes>, Option<Bytes>)> {
    var (tokensBytes, refreshed) := Cut(pktCom, DOT);
    var parts := Split(tokensBytes, COLON);
    if refreshed.Some? && !ThreeSegments(refreshed.value) then None
    else if |parts| < 3 || |parts| % 2 != 1 then None
    else Some((Rejoined(parts[0], parts[1..]), refreshed))
  }

  // ---------------------------------------------------------------------------
  // The loops
  // ---------------------------------------------------------------------------

  lemma {:induction false} AllSegmentsPrefix(tokens: seq<Bytes>, i: nat)
    requires i <= |tokens|
    ensures AllSegments(tokens).Some? ==> AllSegments(tokens[..i]) == Some(AllSegments(tokens).value[..i])
    decreases |tokens|
  {
    hide SplitCompact;
    if i == |tokens| {
      assert tokens[..i] == tokens;
      if AllSegments(tokens).Some? {
        assert AllSegments(tokens).value[..i] == AllSegments(tokens).value;
      }
    } else {
      var init := tokens[..|tokens| - 1];
      AllSegmentsPrefix(init, i);
      assert init[..i] == tokens[..i];
      if AllSegments(tokens).Some? {
        assert AllSegments(tokens).value[..i] == AllSegments(init).value[..i];
      }
    }
  }

  lemma AllSegmentsSnoc(tokens: seq<Bytes>, token: Bytes)
    ensures AllSegments(tokens + [token])
         == if AllSegments(tokens).None? || SplitCompact(token).None? then None
            else Some(AllSegments(tokens).value + [SplitCompact(token).value])
  {
    hide SplitCompact;
    assert (tokens + [token])[..|tokens|] == tokens;
  }

  lemma SegmentsStep(tokens: seq<Bytes>, i: nat)
    requires i < |tokens| && AllSegments(tokens[..i]).Some?
    ensures SplitCompact(tokens[i]).None? ==> AllSegments(tokens).None?
    ensures SplitCompact(tokens[i]).Some? ==>
              AllSegments(tokens[..i + 1]) == Some(AllSegments(tokens[..i]).value + [SplitCompact(tokens[i]).value])
  {
    hide SplitCompact, AllSegments;
    AllSegmentsPrefix(tokens, i + 1);
    assert tokens[..i + 1] == tokens[..i] + [tokens[i]];
    AllSegmentsSnoc(tokens[..i], tokens[i]);
  }

  lemma SegmentAt(tokens: seq<Bytes>, i: nat)
    requires i < |tokens| && AllSegments(tokens).Some?
    ensures SplitCompact(tokens[i]) == Some(AllSegments(tokens).value[i])
  {
    hide SplitCompact, AllSegments;
    AllSegmentsPrefix(tokens, i);
    AllSegmentsPrefix(tokens, i + 1);
    SegmentsStep(tokens, i);
    assert AllSegments(tokens).value[..i + 1][i] == AllSegments(tokens).value[i];
  }

  lemma DifferentPayload(tokens: seq<Bytes>, i: nat)
    requires i < |tokens| && AllSegments(tokens[..i + 1]).Some?
    requires AllSegments(tokens[..i + 1]).value[i].payload != AllSegments(tokens[..i + 1]).value[0].payload
    ensures Gathered(tokens).None?
  {
    hide SplitCompact;
    AllSegmentsPrefix(tokens, i + 1);
    if AllSegments(tokens).Some? {
      assert AllSegments(tokens).value[i] == AllSegments(tokens[..i + 1]).value[i];
    }
  }

  /** What the loop has gathered from the first i tokens. */
  predicate GatheredSoFar(tokens: seq<Bytes>, i: nat, payload: Option<Bytes>, compact: seq<Bytes>)
    requires i <= |tokens|
  {
    var segs := AllSegments(tokens[..i]);
    && segs.Some? && compact == Interleaved(segs.value)
    && (i == 0 ==> payload.None?)
    && (i > 0 ==> payload == Some(segs.value[0].payload) && SamePayload(segs.value, segs.value[0].payload))
  }

  lemma SegmentsGrow(segs: seq<Segments>, s: Segments)
    ensures Interleaved(segs + [s]) == Interleaved(segs) + [s.protected, s.signature]
    ensures segs == [] || SamePayload(segs, s.payload) ==> SamePayload(segs + [s], s.payload)
    ensures (segs + [s])[0] == if segs == [] then s else segs[0]
  {
    assert (segs + [s])[..|segs|] == segs;
  }

  lemma GatheredStep(tokens: seq<Bytes>, i: nat, payload: Option<Bytes>, compact: seq<Bytes>)
    requires i < |tokens| && GatheredSoFar(tokens, i, payload, compact)
    ensures var segs := SplitCompact(tokens[i]);
            if segs.None? || (payload.Some? && payload.value != segs.value.payload) then Gathered(tokens).None?
            else GatheredSoFar(tokens, i + 1, Some(segs.value.payload),
                               compact + [segs.value.protected, segs.value.signature])
  {
    hide SplitCompact, AllSegments, Interleaved, SamePayload;
    SegmentsStep(tokens, i);
    var s := SplitCompact(tokens[i]);
    if s.Some? {
      var before := AllSegments(tokens[..i]).value;
      SegmentsGrow(before, s.value);
      if payload.Some? && payload.value != s.value.payload {
        DifferentPayload(tokens, i);
      }
    }
  }

  lemma GatheredEnd(tokens: seq<Bytes>, payload: Option<Bytes>, compact: seq<Bytes>)
    requires tokens != [] && GatheredSoFar(tokens, |tokens|, payload, compact)
    ensures payload.Some? && Gathered(tokens) == Some((payload.value, compact))
  {
    hide AllSegments, Interleaved, SamePayload;
    assert tokens[..|tokens|] == tokens;
  }

  lemma NothingGathered(tokens: seq<Bytes>)
    ensures GatheredSoFar(tokens, 0, None, [])
  {
    assert tokens[..0] == [];
  }

  /** The loop over the tokens; payload is set by the first of them. */
  method Gather(tokens: seq<Bytes>) returns (res: Option<(Bytes, seq<Bytes>)>)
    requires tokens != []
    ensures res == Gathered(tokens)
  {
    hide SplitCompact, GatheredSoFar, Gathered;
    var compact: seq<Bytes> := [];
    var payload: Option<Bytes> := None;
    NothingGathered(tokens);
    for i := 0 to |tokens|
      invariant GatheredSoFar(tokens, i, payload, compact)
    {
      GatheredStep(tokens, i, payload, compact);
      var segs := SplitCompact(tokens[i]);
      if segs.None? {
        return None;
      }
      if payload.Some? {
        if payload.value != segs.value.payload {
          return None;
        }
      } else {
        payload := Some(segs.value.payload);
      }
      compact := compact + [segs.value.protected, segs.value.signature];
    }
    GatheredEnd(tokens, payload, compact);
    return Some((payload.value, compact));
  }

  method CompactPkToken(tokens: seq<Bytes>, freshIdToken: Option<Bytes>) returns (res: Option<Bytes>)
    ensures res == Compacted(tokens, freshIdToken)
  {
    hide Gathered, Split, Join;
    if |tokens| == 0 {
      return None;
    }
    var gathered := Gather(tokens);
    if gathered.None? {
      return None;
    }
    var (payload, compact) := gathered.value;
    compact := [payload] + compact;
    var pktCom := Join(compact, COLON);
    if freshIdToken.Some? {
      if |Split(freshIdToken.value, DOT)| != 3 {
        return None;
      }
      pktCom := Join([pktCom, freshIdToken.value], DOT);
    }
    return Some(pktCom);
  }

  method SplitCompactPkToken(pktCom: Bytes) returns (res: Option<(seq<Bytes>, Option<Bytes>)>)
    ensures res == SplitUp(pktCom)
  {
    hide Split, Cut, Join;
    var (tokensBytes, freshIdToken) := Cut(pktCom, DOT);
    var tokensParts := Split(tokensBytes, COLON);
    if freshIdToken.Some? && |Split(freshIdToken.value, DOT)| != 3 {
      return None;
    }
    if |tokensParts| < 3 || |tokensParts| % 2 != 1 {
      return None;
    }
    var tokens: seq<Bytes> := [];
    var payload := tokensParts[0];
    ghost var pairs := tokensParts[1..];
    var i := 1;
    while i < |tokensParts|
      invariant 1 <= i <= |tokensParts| && i % 2 == 1
      invariant tokens == Rejoined(payload, pairs[..i - 1])
    {
      hide Jwt;
      assert pairs[..i + 1][..i - 1] == pairs[..i - 1];
      tokens := tokens + [Jwt(tokensParts[i], payload, tokensParts[i + 1])];
      i := i + 2;
    }
    assert pairs[..i - 1] == pairs;
    return Some((tokens, freshIdToken));
  }

  // ---------------------------------------------------------------------------
  // The two directions undo each other
  // ---------------------------------------------------------------------------

  /** The segments of rejoined parts are the parts. */
  lemma {:induction false} RejoinedSegments(payload: Bytes, parts: seq<Bytes>)
    requires |parts| % 2 == 0 && DOT !in payload && Free(parts, DOT)
    ensures var segs := AllSegments(Rejoined(payload, parts));
            segs.Some? && SamePayload(segs.value, payload) && Interleaved(segs.value) == parts
  {
    hide SplitCompact, Jwt;
    if parts != [] {
      var n := |parts|;
      var init := parts[..n - 2];
      RejoinedSegments(payload, init);
      SplitCompactJwt(parts[n - 2], payload, parts[n - 1]);
      RejoinedStep(payload, init, Rejoined(payload, init), parts[n - 2], parts[n - 1]);
      LastTwo(parts);
    }
  }

  lemma LastTwo(parts: seq<Bytes>)
    requires |parts| >= 2
    ensures parts == parts[..|parts| - 2] + [parts[|parts| - 2], parts[|parts| - 1]]
  {}

  lemma RejoinedStep(payload: Bytes, init: seq<Bytes>, tokens: seq<Bytes>, protected: Bytes, signature: Bytes)
    requires AllSegments(tokens).Some? && SamePayload(AllSegments(tokens).value, payload)
    requires Interleaved(AllSegments(tokens).value) == init
    requires SplitCompact(Jwt(protected, payload, signature)) == Some(Segments(protected, payload, signature))
    ensures var segs := AllSegments(tokens + [Jwt(protected, payload, signature)]);
            segs.Some? && SamePayload(segs.value, payload) && Interleaved(segs.value) == init + [protected, signature]
  {
    hide SplitCompact, Jwt, AllSegments;
    AllSegmentsSnoc(tokens, Jwt(protected, payload, signature));
    var before := AllSegments(tokens).value;
    assert (before + [Segments(protected, payload, signature)])[..|before|] == before;
  }

  /** Rejoining the parts of tokens gives back the tokens. */
  lemma {:induction false} RejoinedTokens(tokens: seq<Bytes>, payload: Bytes)
    requires AllSegments(tokens).Some? && SamePayload(AllSegments(tokens).value, payload)
    ensures Rejoined(payload, Interleaved(AllSegments(tokens).value)) == tokens
  {
    hide SplitCompact, Jwt, AllSegments, Rejoined, Interleaved;
    if tokens == [] {
      NothingRejoined(payload);
    } else {
      var init, last := tokens[..|tokens| - 1], tokens[|tokens| - 1];
      AllSegmentsInit(tokens);
      PayloadOfInit(AllSegments(init).value, SplitCompact(last).value, payload);
      RejoinedTokens(init, payload);
      TokenStep(init, AllSegments(init).value, SplitCompact(last).value, payload);
      assert tokens == init + [last];
    }
  }

  lemma NothingRejoined(payload: Bytes)
    ensures AllSegments([]) == Some([]) && Rejoined(payload, Interleaved([])) == []
  {}

  lemma AllSegmentsInit(tokens: seq<Bytes>)
    requires tokens != [] && AllSegments(tokens).Some?
    ensures AllSegments(tokens[..|tokens| - 1]).Some? && SplitCompact(tokens[|tokens| - 1]).Some?
    ensures AllSegments(tokens).value
         == AllSegments(tokens[..|tokens| - 1]).value + [SplitCompact(tokens[|tokens| - 1]).value]
  {
    hide SplitCompact;
  }

  lemma PayloadOfInit(segs: seq<Segments>, s: Segments, payload: Bytes)
    requires SamePayload(segs + [s], payload)
    ensures SamePayload(segs, payload) && s.payload == payload
  {
    assert (segs + [s])[|segs|] == s;
    assert forall i :: 0 <= i < |segs| ==> (segs + [s])[i] == segs[i];
  }

  lemma TokenStep(init: seq<Bytes>, segs: seq<Segments>, s: Segments, payload: Bytes)
    requires Rejoined(payload, Interleaved(segs)) == init
    ensures Rejoined(payload, Interleaved(segs + [s])) == init + [Jwt(s.protected, payload, s.signature)]
  {
    hide Jwt;
    assert (segs + [s])[..|segs|] == segs;
    var parts := Interleaved(segs + [s]);
    assert parts[..|parts| - 2] == Interleaved(segs);
  }

  lemma JoinPair(a: Bytes, b: Bytes, sep: Byte)
    ensures Join([a, b], sep) == a + [sep] + b
  {
    assert Join([a, b][1..], sep) == b;
  }

  /** Split then compact is the identity: whatever byte string splits, compacting the result gives it back. */
  lemma SplitThenCompact(pktCom: Bytes)
    requires SplitUp(pktCom).Some?
    ensures Compacted(SplitUp(pktCom).value.0, SplitUp(pktCom).value.1) == Some(pktCom)
  {
    hide Cut, Split, Join, AllSegments, Rejoined, Interleaved;
    var (tokensBytes, refreshed) := Cut(pktCom, DOT);
    var parts := Split(tokensBytes, COLON);
    DotFreeParts(tokensBytes);
    RejoinedSegments(parts[0], parts[1..]);
    assert [parts[0]] + parts[1..] == parts;
    if refreshed.Some? {
      JoinPair(tokensBytes, refreshed.value, DOT);
    }
  }

  /** Cutting at colons leaves parts as free of dots as the whole. */
  lemma DotFreeParts(s: Bytes)
    requires DOT !in s
    ensures Free(Split(s, COLON), DOT)
  {
    hide Split, Join;
    var parts := Split(s, COLON);
    JoinMembers(parts, COLON, DOT);
  }

  ghost predicate ColonFree(tokens: seq<Bytes>) {
    Free(tokens, COLON)
  }

  /** The segments of colon-free tokens are colon-free. */
  lemma {:induction false} ColonFreeParts(tokens: seq<Bytes>)
    requires AllSegments(tokens).Some? && ColonFree(tokens)
    ensures Free(Interleaved(AllSegments(tokens).value), COLON)
    ensures tokens != [] ==> COLON !in AllSegments(tokens).value[0].payload
  {
    hide SplitCompact, Jwt;
    if tokens != [] {
      var init, last := tokens[..|tokens| - 1], tokens[|tokens| - 1];
      var segs := AllSegments(tokens).value;
      assert segs[..|segs| - 1] == AllSegments(init).value;
      ColonFreeParts(init);
      ColonFreeSegments(last);
      if |tokens| > 1 {
        assert segs[0] == AllSegments(init).value[0];
      }
    }
  }

  lemma ColonFreeSegments(token: Bytes)
    requires SplitCompact(token).Some? && COLON !in token
    ensures var s := SplitCompact(token).value; COLON !in s.protected && COLON !in s.payload && COLON !in s.signature
  {
    hide SplitCompact, Join;
    var s := SplitCompact(token).value;
    var parts := [s.protected, s.payload, s.signature];
    JoinMembers(parts, DOT, COLON);
    assert parts[0] == s.protected && parts[1] == s.payload && parts[2] == s.signature;
  }

  lemma {:induction false} DotFreeInterleaved(tokens: seq<Bytes>)
    requires AllSegments(tokens).Some?
    ensures Free(Interleaved(AllSegments(tokens).value), DOT)
    ensures tokens != [] ==> DOT !in AllSegments(tokens).value[0].payload
  {
    hide SplitCompact;
    if tokens != [] {
      var init, last := tokens[..|tokens| - 1], tokens[|tokens| - 1];
      var segs := AllSegments(tokens).value;
      assert segs[..|segs| - 1] == AllSegments(init).value;
      DotFreeInterleaved(init);
      DotFreeSegments(last);
      if |tokens| > 1 {
        assert segs[0] == AllSegments(init).value[0];
      }
    }
  }

  lemma DotFreeSegments(token: Bytes)
    requires SplitCompact(token).Some?
    ensures var s := SplitCompact(token).value; DOT !in s.protected && DOT !in s.payload && DOT !in s.signature
  {
    hide SplitCompact;
    var s := SplitCompact(token).value;
    var parts := [s.protected, s.payload, s.signature];
    assert parts[0] == s.protected && parts[1] == s.payload && parts[2] == s.signature;
  }

  /** What splitting returns never holds a colon. */
  lemma {:induction false} RejoinedColonFree(payload: Bytes, parts: seq<Bytes>)
    requires |parts| % 2 == 0 && COLON !in payload && Free(parts, COLON)
    ensures ColonFree(Rejoined(payload, parts))
  {
    hide Jwt;
    if parts != [] {
      var n := |parts|;
      RejoinedColonFree(payload, parts[..n - 2]);
      ColonFreeJwt(parts[n - 2], payload, parts[n - 1]);
    }
  }

  lemma ColonFreeJwt(protected: Bytes, payload: Bytes, signature: Bytes)
    requires COLON !in protected && COLON !in payload && COLON !in signature
    ensures COLON !in Jwt(protected, payload, signature)
  {
    hide Join;
    JoinMembers([protected, payload, signature], DOT, COLON);
  }

  /** Compact then split is the identity exactly when no token holds a colon. */
  lemma CompactThenSplit(tokens: seq<Bytes>, refreshed: Option<Bytes>)
    requires Compacted(tokens, refreshed).Some?
    ensures SplitUp(Compacted(tokens, refreshed).value) == Some((tokens, refreshed)) <==> ColonFree(tokens)
  {
    hide SplitUp, Compacted, ColonFree;
    var pktCom := Compacted(tokens, refreshed).value;
    if ColonFree(tokens) {
      SplitOfCompacted(tokens, refreshed);
    }
    if SplitUp(pktCom).Some? {
      SplitColonFree(pktCom);
    }
  }

  lemma SplitColonFree(pktCom: Bytes)
    requires SplitUp(pktCom).Some?
    ensures ColonFree(SplitUp(pktCom).value.0)
  {
    hide Split, Cut, Rejoined;
    var parts := Split(Cut(pktCom, DOT).0, COLON);
    RejoinedColonFree(parts[0], parts[1..]);
  }

  lemma SplitOfCompacted(tokens: seq<Bytes>, refreshed: Option<Bytes>)
    requires Compacted(tokens, refreshed).Some? && ColonFree(tokens)
    ensures SplitUp(Compacted(tokens, refreshed).value) == Some((tokens, refreshed))
  {
    hide Split, Cut, Join, AllSegments, Interleaved, Rejoined;
    var segs := AllSegments(tokens).value;
    var payload := segs[0].payload;
    var parts := [payload] + Interleaved(segs);
    ColonFreeParts(tokens);
    DotFreeInterleaved(tokens);
    RejoinedTokens(tokens, payload);
    SplitJoin(parts, COLON);
    assert parts[1..] == Interleaved(segs);
    var com := Join(parts, COLON);
    JoinMembers(parts, COLON, DOT);
    if refreshed.Some? {
      JoinPair(com, refreshed.value, DOT);
      CutAt(com, DOT, refreshed.value);
    }
  }

  // ---------------------------------------------------------------------------
  // The layout
  // ---------------------------------------------------------------------------

  lemma {:induction false} InterleavedAt(segs: seq<Segments>, i: nat)
    requires i < |segs|
    ensures Interleaved(segs)[2 * i] == segs[i].protected && Interleaved(segs)[2 * i + 1] == segs[i].signature
    decreases |segs|
  {
    if i < |segs| - 1 {
      InterleavedAt(segs[..|segs| - 1], i);
    }
  }

  /** The parts after the payload are the other two segments of each token in turn. */
  ghost predicate LaidOut(tokens: seq<Bytes>, payload: Bytes, parts: seq<Bytes>) {
    |parts| == 2 * |tokens| &&
    forall i :: 0 <= i < |tokens| ==>
      tokens[i] == parts[2 * i] + [DOT] + payload + [DOT] + parts[2 * i + 1]
  }

  /** The compact form is the payload and the parts with colons between them, then a refreshed ID Token after a dot. */
  lemma CompactLayout(tokens: seq<Bytes>, refreshed: Option<Bytes>) returns (payload: Bytes, parts: seq<Bytes>)
    requires Compacted(tokens, refreshed).Some?
    ensures LaidOut(tokens, payload, parts)
    ensures Compacted(tokens, refreshed).value == Join([payload] + parts, COLON) +
                                                  (if refreshed.Some? then [DOT] + refreshed.value else [])
  {
    hide Join, AllSegments, Interleaved, SplitCompact, ThreeSegments, Jwt;
    var segs := AllSegments(tokens).value;
    payload, parts := Gathered(tokens).value.0, Gathered(tokens).value.1;
    forall i | 0 <= i < |tokens|
      ensures tokens[i] == parts[2 * i] + [DOT] + payload + [DOT] + parts[2 * i + 1]
    {
      SegmentAt(tokens, i);
      InterleavedAt(segs, i);
      JwtIs(segs[i].protected, segs[i].payload, segs[i].signature);
    }
    if refreshed.Some? {
      JoinPair(Join([payload] + parts, COLON), refreshed.value, DOT);
    }
  }
}
