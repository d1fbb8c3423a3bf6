/** GQ1 signatures (clause 7 of ISO/IEC 14888-2:2008) over an RSA modulus: gq/sign.go, gq/verify.go, gq/gq.go. */
module Gq1 {
  import opened Common
  import opened Arithmetic
  import opened ByteStrings
  import opened Pkcs1
  import Base64Url

  /** SHAKE256, known only by the length of its output. */
  type Shake256 = f: (nat, Bytes) -> Bytes | forall k: nat, d: Bytes :: |f(k, d)| == k
    witness ((k: nat, d: Bytes) => seq(k, i => 0))

  /** A signerVerifier: modulus, exponent, their byte lengths, and the number of rounds. */
  datatype Params = Params(n: nat, v: nat, nBytes: nat, vBytes: nat, t: nat)

  /** nBytes is the length of n. */
  predicate Valid(p: Params) {
    && p.n > 0
    && p.nBytes > 0
    && Pow256(p.nBytes - 1) <= p.n < Pow256(p.nBytes)
  }

  predicate Residues(p: Params, xs: seq<nat>) {
    forall i :: 0 <= i < |xs| ==> xs[i] < p.n
  }

  lemma ResiduesFit(p: Params, xs: seq<nat>)
    requires Valid(p) && Residues(p, xs)
    ensures Fit(xs, p.nBytes)
  {}

  lemma ConcatenatedStep(xs: seq<nat>, k: nat, i: nat)
    requires Fit(xs, k) && i < |xs|
    ensures Fit(xs[..i], k) && Fit(xs[..i + 1], k)
    ensures Concatenated(xs[..i + 1], k) == Concatenated(xs[..i], k) + ToBytes(xs[i], k)
  {
    assert xs[..i + 1][..i] == xs[..i];
  }

  // ---------------------------------------------------------------------------
  // The numbers of the scheme
  // ---------------------------------------------------------------------------

  /** W_i = r_i^v mod n. */
  function Commit(p: Params, r: nat): nat
    requires p.n > 0
  {
    Pow(r, p.v) % p.n
  }

  /** S_i = Q^R_i * r_i mod n. */
  function Answer(p: Params, q: nat, c: nat, r: nat): (x: nat)
    requires p.n > 0
    ensures x < p.n
  {
    Pow(q, c) % p.n * r % p.n
  }

  /** W*_i = S_i^v * G^R_i mod n. */
  function Recommit(p: Params, g: nat, c: nat, s: nat): (x: nat)
    requires p.n > 0
    ensures x < p.n
  {
    Pow(s, p.v) % p.n * (Pow(g, c) % p.n) % p.n
  }

  function Commits(p: Params, rs: seq<nat>): (ws: seq<nat>)
    requires p.n > 0
    ensures |ws| == |rs| && Residues(p, ws)
  {
    seq(|rs|, i requires 0 <= i < |rs| => Commit(p, rs[i]))
  }

  function Answers(p: Params, q: nat, cs: seq<nat>, rs: seq<nat>): (ss: seq<nat>)
    requires p.n > 0 && |cs| == |rs|
    ensures |ss| == |rs| && Residues(p, ss)
  {
    seq(|rs|, i requires 0 <= i < |rs| => Answer(p, q, cs[i], rs[i]))
  }

  function Recommits(p: Params, g: nat, cs: seq<nat>, ss: seq<nat>): (ws: seq<nat>)
    requires p.n > 0 && |cs| == |ss|
    ensures |ws| == |ss| && Residues(p, ws)
  {
    seq(|ss|, i requires 0 <= i < |ss| => Recommit(p, g, cs[i], ss[i]))
  }

  /** The test number: all W_i in fixed width, one after the other. */
  function TestNumber(p: Params, ws: seq<nat>): Bytes
    requires Valid(p) && Residues(p, ws)
  {
    ResiduesFit(p, ws);
    Concatenated(ws, p.nBytes)
  }

  /** The question number R: t * vBytes bytes of the hash of W and M. */
  function Question(p: Params, shake: Shake256, w: Bytes, message: Bytes): (r: Bytes)
    ensures |r| == Blocks(p.t, p.vBytes)
  {
    shake(Blocks(p.t, p.vBytes), w + message)
  }

  // ---------------------------------------------------------------------------
  // The proof codec
  // ---------------------------------------------------------------------------

  function EncodeProof(r: Bytes, s: Bytes): Bytes {
    Base64Url.Encode(r + s)
  }

  /** Rejects anything that is not exactly t questions followed by t answers. */
  function DecodeProof(p: Params, proof: Bytes): (rs: Option<(Bytes, Bytes)>)
    ensures rs.Some? ==> |rs.value.0| == Blocks(p.t, p.vBytes) && |rs.value.1| == Blocks(p.t, p.nBytes)
  {
    var bin := Base64Url.Decode(proof);
    var rSize, sSize := Blocks(p.t, p.vBytes), Blocks(p.t, p.nBytes);
    if bin.None? || |bin.value| != rSize + sSize then None
    else Some((bin.value[..rSize], bin.value[rSize..]))
  }

  lemma DecodeEncodeProof(p: Params, r: Bytes, s: Bytes)
    ensures |r| == Blocks(p.t, p.vBytes) && |s| == Blocks(p.t, p.nBytes) ==>
              DecodeProof(p, EncodeProof(r, s)) == Some((r, s))
    ensures |r + s| != Blocks(p.t, p.vBytes) + Blocks(p.t, p.nBytes) ==>
              DecodeProof(p, EncodeProof(r, s)) == None
  {
    Base64Url.DecodeEncode(r + s);
    assert (r + s)[..|r|] == r && (r + s)[|r|..] == s;
  }

  // ---------------------------------------------------------------------------
  // Signing
  // ---------------------------------------------------------------------------

  /** The signature over message with private number q and draws rs, before encoding. */
  function SignatureNumbers(p: Params, shake: Shake256, q: nat, message: Bytes, rs: seq<nat>): (b: (Bytes, Bytes))
    requires Valid(p) && |rs| == p.t
    ensures |b.0| == Blocks(p.t, p.vBytes) && |b.1| == Blocks(p.t, p.nBytes)
  {
    var r := Question(p, shake, TestNumber(p, Commits(p, rs)), message);
    var s := TestNumber(p, Answers(p, q, Parsed(r, p.t, p.vBytes), rs));
    (r, s)
  }

  /** Sign, as a function: an error when the private number or a question reaches the modulus. */
  function Signature(p: Params, shake: Shake256, private: Bytes, message: Bytes, rs: seq<nat>): Outcome<Bytes>
    requires Valid(p) && |rs| == p.t
  {
    var q := ToNat(private);
    var (r, s) := SignatureNumbers(p, shake, q, message, rs);
    if q >= p.n || !Residues(p, Parsed(r, p.t, p.vBytes)) then Error
    else Ok(EncodeProof(r, s))
  }

  /** Stage 2: the commitments to all draws. */
  method CommitAll(p: Params, r: seq<nat>) returns (W: Bytes)
    requires Valid(p)
    ensures W == TestNumber(p, Commits(p, r))
  {
    W := [];
    ghost var ws := Commits(p, r);
    ResiduesFit(p, ws);
    for i := 0 to |r|
      invariant Fit(ws[..i], p.nBytes) && W == Concatenated(ws[..i], p.nBytes)
    {
      ConcatenatedStep(ws, p.nBytes, i);
      W := W + ToBytes(Pow(r[i], p.v) % p.n, p.nBytes);
    }
    assert ws[..|r|] == ws;
  }

  /** Stage 3: the question cut into t numbers, each of which must be below the modulus. */
  method ParseQuestion(p: Params, R: Bytes) returns (Rs: Option<seq<nat>>)
    requires |R| == Blocks(p.t, p.vBytes)
    ensures Rs == if Residues(p, Parsed(R, p.t, p.vBytes)) then Some(Parsed(R, p.t, p.vBytes)) else None
  {
    ghost var cs := Parsed(R, p.t, p.vBytes);
    var numbers := [];
    for i := 0 to p.t
      invariant numbers == cs[..i] && Residues(p, numbers)
    {
      ParsedAt(R, p.t, p.vBytes, i);
      BlockIsSlice(R, i, p.vBytes);
      var c := ToNat(R[i * p.vBytes..(i + 1) * p.vBytes]);
      if c >= p.n {
        assert cs[i] == c;
        return None;
      }
      numbers := numbers + [c];
    }
    assert cs[..p.t] == cs;
    return Some(numbers);
  }

  /** Stage 4: the witnesses. */
  method AnswerAll(p: Params, Q: nat, Rs: seq<nat>, r: seq<nat>) returns (S: Bytes)
    requires Valid(p) && |Rs| == |r|
    ensures S == TestNumber(p, Answers(p, Q, Rs, r))
  {
    S := [];
    ghost var ss := Answers(p, Q, Rs, r);
    ResiduesFit(p, ss);
    for i := 0 to |r|
      invariant Fit(ss[..i], p.nBytes) && S == Concatenated(ss[..i], p.nBytes)
    {
      var s := Pow(Q, Rs[i]) % p.n;
      s := s * r[i] % p.n;
      ConcatenatedStep(ss, p.nBytes, i);
      S := S + ToBytes(s, p.nBytes);
    }
    assert ss[..|r|] == ss;
  }

  method Sign(p: Params, shake: Shake256, private: Bytes, message: Bytes, r: seq<nat>) returns (res: Outcome<Bytes>)
    requires Valid(p)
    requires |r| == p.t && Residues(p, r)
    ensures res == Signature(p, shake, private, message, r)
  {
    hide Parsed, Blocks, Residues, Commits, Answers, TestNumber, EncodeProof, Question, ToNat, Pow256;
    var Q := ToNat(private);
    if Q >= p.n {
      return Error;
    }
    var W := CommitAll(p, r);
    var R := Question(p, shake, W, message);
    var Rs := ParseQuestion(p, R);
    if Rs.None? {
      return Error;
    }
    var S := AnswerAll(p, Q, Rs.value, r);
    return Ok(EncodeProof(R, S));
  }

  // ---------------------------------------------------------------------------
  // Verification
  // ---------------------------------------------------------------------------

  /** G: the identity in PKCS#1 v1.5 padding, read as an integer. */
  function PublicNumber(p: Params, sha256: Sha256, identity: Bytes): nat
    requires p.nBytes >= T_LEN
  {
    ToNat(Padded(sha256, p.nBytes, identity))
  }

  /** No witness is 0 or reaches the modulus. */
  predicate InRange(p: Params, ss: seq<nat>) {
    forall i :: 0 <= i < |ss| ==> 0 < ss[i] < p.n
  }

  /** Verify, as a predicate: the numbers are in range and the question is the hash of the recomputed test number. */
  predicate Accepts(p: Params, shake: Shake256, sha256: Sha256, proof: Bytes, identity: Bytes, message: Bytes)
    requires Valid(p) && p.nBytes >= T_LEN
  {
    var rs := DecodeProof(p, proof);
    rs.Some? &&
    var (r, s) := rs.value;
    var cs, ss := Parsed(r, p.t, p.vBytes), Parsed(s, p.t, p.nBytes);
    && InRange(p, ss)
    && r == Question(p, shake, TestNumber(p, Recommits(p, PublicNumber(p, sha256, identity), cs, ss)), message)
  }

  /** Verify, as a function: a proof of the wrong size is refused before a modulus too short for the padding panics. */
  function Checked(p: Params, shake: Shake256, sha256: Sha256, proof: Bytes, identity: Bytes, message: Bytes)
    : Outcome<bool>
    requires Valid(p)
  {
    if DecodeProof(p, proof).None? then Ok(false)
    else if p.nBytes < T_LEN then Panic
    else Ok(Accepts(p, shake, sha256, proof, identity, message))
  }

  lemma CheckedAccepts(p: Params, shake: Shake256, sha256: Sha256, proof: Bytes, identity: Bytes, message: Bytes)
    requires Valid(p) && p.nBytes >= T_LEN
    ensures Checked(p, shake, sha256, proof, identity, message)
         == Ok(Accepts(p, shake, sha256, proof, identity, message))
  {
    hide DecodeProof, TestNumber, Question, Parsed, PublicNumber, Recommits, InRange, Pow256;
  }

  /** A modulus long enough for the padding has more than one residue. */
  lemma LargeModulus(p: Params)
    requires Valid(p) && p.nBytes >= T_LEN
    ensures p.n > 1
  {
    Pow256Monotone(1, p.nBytes - 1);
    assert Pow256(1) == 256;
  }

  /** Stage 2: the question cut into t numbers. */
  method SplitQuestion(p: Params, R: Bytes) returns (Rs: seq<nat>)
    requires |R| == Blocks(p.t, p.vBytes)
    ensures Rs == Parsed(R, p.t, p.vBytes)
  {
    Rs := [];
    for i := 0 to p.t
      invariant Rs == Parsed(R, p.t, p.vBytes)[..i]
    {
      ParsedAt(R, p.t, p.vBytes, i);
      BlockIsSlice(R, i, p.vBytes);
      Rs := Rs + [ToNat(R[i * p.vBytes..(i + 1) * p.vBytes])];
    }
  }

  /** Stage 2: the witnesses cut out of S, rejected when one is 0 or not below n. */
  method ParseWitnesses(p: Params, S: Bytes) returns (Ss: Option<seq<nat>>)
    requires |S| == Blocks(p.t, p.nBytes)
    ensures Ss == if InRange(p, Parsed(S, p.t, p.nBytes)) then Some(Parsed(S, p.t, p.nBytes)) else None
  {
    ghost var ss := Parsed(S, p.t, p.nBytes);
    var numbers := [];
    for i := 0 to p.t
      invariant numbers == ss[..i] && InRange(p, numbers)
    {
      ParsedAt(S, p.t, p.nBytes, i);
      BlockIsSlice(S, i, p.nBytes);
      var s := ToNat(S[i * p.nBytes..(i + 1) * p.nBytes]);
      if s == 0 || s >= p.n {
        assert ss[i] == s;
        return None;
      }
      numbers := numbers + [s];
    }
    assert ss[..p.t] == ss;
    return Some(numbers);
  }

  /** Stage 2: the test number recomputed from the witnesses and the public number. */
  method RecommitAll(p: Params, G: nat, Rs: seq<nat>, Ss: seq<nat>) returns (Wstar: Bytes)
    requires Valid(p) && |Rs| == |Ss|
    ensures Wstar == TestNumber(p, Recommits(p, G, Rs, Ss))
  {
    Wstar := [];
    ghost var ws := Recommits(p, G, Rs, Ss);
    ResiduesFit(p, ws);
    for i := 0 to |Ss|
      invariant Fit(ws[..i], p.nBytes) && Wstar == Concatenated(ws[..i], p.nBytes)
    {
      var l := Pow(Ss[i], p.v) % p.n;
      var r := Pow(G, Rs[i]) % p.n;
      ConcatenatedStep(ws, p.nBytes, i);
      Wstar := Wstar + ToBytes(l * r % p.n, p.nBytes);
    }
    assert ws[..|Ss|] == ws;
  }

  method Verify(p: Params, shake: Shake256, sha256: Sha256, proof: Bytes, identity: Bytes, message: Bytes)
    returns (res: Outcome<bool>)
    requires Valid(p)
    ensures res == Checked(p, shake, sha256, proof, identity, message)
  {
    var rs := DecodeProof(p, proof);
    if rs.None? {
      return Ok(false);
    }
    var (R, S) := rs.value;
    if p.nBytes < T_LEN {
      return Panic;
    }
    var paddedIdentity := EncodePkcs1v15(sha256, p.nBytes, identity);
    var G := ToNat(paddedIdentity[..]);

    var Rs := SplitQuestion(p, R);
    var Ss := ParseWitnesses(p, S);
    if Ss.None? {
      return Ok(false);
    }
    var Wstar := RecommitAll(p, G, Rs, Ss.value);
    return Ok(R == Question(p, shake, Wstar, message));
  }
}
