/** What acceptance of a GQ1 proof means: the hash comparison, its binding to the message, and extraction by forking. */
module GqForking {
  import opened Common
  import opened Arithmetic
  import opened ByteStrings
  import opened Pkcs1
  import opened Gq1
  import opened GqKeys
  import opened GqExtraction
  import Base64Url
  import GqTokens

  /** The decoded proof starts with the hash of the recomputed test number and the message. */
  predicate StartsWithHash(p: Params, shake: Shake256, sha256: Sha256, proof: Bytes, identity: Bytes, message: Bytes)
    requires Valid(p) && p.nBytes >= T_LEN && DecodeProof(p, proof).Some?
  {
    var bin, size := Base64Url.Decode(proof), p.t * p.vBytes;
    bin.Some? && size <= |bin.value| &&
    bin.value[..size] == shake(size, RecomputedTest(p, sha256, identity, proof) + message)
  }

  /** Every witness of the proof is positive and below the modulus. */
  predicate WitnessesInRange(p: Params, proof: Bytes)
    requires DecodeProof(p, proof).Some?
  {
    forall i :: 0 <= i < p.t ==> 0 < ProofNumbers(p, proof).1[i] < p.n
  }

  /** A proof is accepted exactly if it has the right size, its witnesses are in range and its question is the hash. */
  lemma AcceptedExactly(p: Params, shake: Shake256, sha256: Sha256, proof: Bytes, identity: Bytes, message: Bytes)
    requires Valid(p)
    ensures Checked(p, shake, sha256, proof, identity, message) == Ok(true)
       <==> && p.nBytes >= T_LEN && DecodeProof(p, proof).Some? && WitnessesInRange(p, proof)
            && StartsWithHash(p, shake, sha256, proof, identity, message)
  {
    hide Parsed, TestNumber, Recommits, PublicNumber, Base64Url.Decode, Blocks, Pow256;
    if p.nBytes >= T_LEN && DecodeProof(p, proof).Some? {
      BlocksIsProduct(p.t, p.vBytes);
    }
  }

  /** The question signing asks: the hash of all commitments in turn and the message. */
  function AskedOver(p: Params, shake: Shake256, message: Bytes, rs: seq<nat>): (r: Bytes)
    requires Valid(p)
    ensures |r| == p.t * p.vBytes
  {
    shake(p.t * p.vBytes, TestNumber(p, Commits(p, rs)) + message)
  }

  /** Block i of a question, as a number. */
  function AskedAt(p: Params, r: Bytes, i: nat): nat
    requires i < p.t && |r| == p.t * p.vBytes
  {
    BlocksIsProduct(p.t, p.vBytes);
    BlocksMonotone(i + 1, p.t, p.vBytes);
    BlockIsSlice(r, i, p.vBytes);
    ToNat(r[i * p.vBytes..(i + 1) * p.vBytes])
  }

  /** Signing fails exactly if the private number or a number of the question reaches the modulus, and its proof starts
      with the question. */
  lemma SigningExactly(p: Params, shake: Shake256, private: Bytes, message: Bytes, rs: seq<nat>)
    requires Valid(p) && |rs| == p.t
    ensures var r, sig := AskedOver(p, shake, message, rs), Signature(p, shake, private, message, rs);
            && (sig == Error <==> ToNat(private) >= p.n || exists i :: 0 <= i < p.t && AskedAt(p, r, i) >= p.n)
            && (sig != Error ==> sig.Ok? && Base64Url.Decode(sig.value).Some? && r <= Base64Url.Decode(sig.value).value)
  {
    hide TestNumber, Commits, Answers, Base64Url.Encode, Base64Url.Decode, Parsed, Pow256, ToNat;
    BlocksIsProduct(p.t, p.vBytes);
    var (r, s) := SignatureNumbers(p, shake, ToNat(private), message, rs);
    assert r == AskedOver(p, shake, message, rs);
    Base64Url.DecodeEncode(r + s);
    forall i | 0 <= i < p.t
      ensures Parsed(r, p.t, p.vBytes)[i] == AskedAt(p, r, i)
    {
      AskedIsParsed(p, r, i);
    }
  }

  lemma AskedIsParsed(p: Params, r: Bytes, i: nat)
    requires i < p.t && |r| == p.t * p.vBytes == Blocks(p.t, p.vBytes)
    ensures Parsed(r, p.t, p.vBytes)[i] == AskedAt(p, r, i)
  {
    hide ToNat, Parsed;
    BlocksMonotone(i + 1, p.t, p.vBytes);
    ParsedAt(r, p.t, p.vBytes, i);
    BlockIsSlice(r, i, p.vBytes);
  }

  /** Two messages have one hash after the test number recomputed from the proof. */
  predicate HashAlike(p: Params, shake: Shake256, sha256: Sha256, proof: Bytes, identity: Bytes, message: Bytes,
                      other: Bytes)
    requires Valid(p)
  {
    p.nBytes >= T_LEN && DecodeProof(p, proof).Some? &&
    !HashedApart(p, shake, shake, RecomputedTest(p, sha256, identity, proof), message, other)
  }

  /** A proof accepted for one message is accepted for another exactly if both hash alike. */
  lemma MessageBinding(p: Params, shake: Shake256, sha256: Sha256, proof: Bytes, identity: Bytes, message: Bytes,
                       other: Bytes)
    requires Valid(p) && Checked(p, shake, sha256, proof, identity, message) == Ok(true)
    ensures Checked(p, shake, sha256, proof, identity, other) == Ok(true)
       <==> HashAlike(p, shake, sha256, proof, identity, message, other)
  {
    hide Checked, RecomputedTest, DecodeProof, Base64Url.Decode, WitnessesInRange, Valid;
    AcceptedExactly(p, shake, sha256, proof, identity, message);
    AcceptedExactly(p, shake, sha256, proof, identity, other);
  }

  /** A test number hashed to different questions. */
  predicate HashedApart(p: Params, shake: Shake256, shake': Shake256, w: Bytes, message: Bytes, message': Bytes) {
    var size := p.t * p.vBytes;
    shake(size, w + message) != shake'(size, w + message')
  }

  // ---------------------------------------------------------------------------
  // Forking
  // ---------------------------------------------------------------------------

  predicate ProperFactor(d: nat, n: nat) {
    1 < d < n && n % d == 0
  }

  /** What is neither zero nor a unit shares a factor with the modulus. */
  lemma NonunitFactors(a: nat, n: nat) returns (d: nat)
    requires 0 < a < n && !IsUnit(a, n)
    ensures ProperFactor(d, n)
  {
    d := ExtendedGcd(a, n).g;
    var inverse := ModInverse(a, n);
    assert d != 1;
    var j :| IsMultiple(a, j, d);
    var k :| IsMultiple(n, k, d);
    MulAtLeast(j, d);
    MulAtLeast(k, d);
    DivModUnique(n, d, k, 0);
  }

  /** Both proofs decode, and the verifier recomputes the same test number from them. */
  predicate SameTest(p: Params, sha256: Sha256, identity: Bytes, proof: Bytes, proof': Bytes)
    requires Valid(p) && p.nBytes >= T_LEN
  {
    && DecodeProof(p, proof).Some? && DecodeProof(p, proof').Some?
    && RecomputedTest(p, sha256, identity, proof) == RecomputedTest(p, sha256, identity, proof')
  }

  /** Two accepted proofs for one identity whose test number is the same while its hash is not, because the hash
      function or the message differs, give an RS256 signature on the identity or a factor of the modulus. */
  lemma Forking(key: RsaPublicKey, securityParameter: nat, p: Params, shake: Shake256, shake': Shake256,
                sha256: Sha256, identity: Bytes, message: Bytes, message': Bytes, proof: Bytes, proof': Bytes)
    returns (sig: Bytes, d: nat)
    requires NewSignerVerifier(key, securityParameter) == Ok(p) && p.nBytes >= T_LEN + 11
    requires Checked(p, shake, sha256, proof, identity, message) == Ok(true)
    requires Checked(p, shake', sha256, proof', identity, message') == Ok(true)
    requires SameTest(p, sha256, identity, proof, proof')
    requires HashedApart(p, shake, shake', RecomputedTest(p, sha256, identity, proof), message, message')
    ensures GqTokens.Rs256(sha256, key, identity, sig) || ProperFactor(d, key.n)
  {
    hide Checked, RecomputedTest, DecodeProof, Base64Url.Decode, Valid, NewSignerVerifier, GqTokens.Rs256, IsUnit,
         WitnessesInRange, PublicNumber, ForkedAt, BytesForBits, BitLen;
    AcceptedExactly(p, shake, sha256, proof, identity, message);
    AcceptedExactly(p, shake', sha256, proof', identity, message');
    var i := QuestionsApart(p, proof, proof');
    sig, d := [], 0;
    var u := LargerWitness(p, proof, proof', i);
    LargerInRange(p, proof, proof', i);
    PublicInRange(p, sha256, identity);
    if !IsUnit(PublicNumber(p, sha256, identity), p.n) {
      d := NonunitFactors(PublicNumber(p, sha256, identity), p.n);
    } else if !IsUnit(u, p.n) {
      d := NonunitFactors(u, p.n);
    } else {
      ForkedHere(p, sha256, identity, proof, proof', i);
      sig := ExtractedSignature(key, securityParameter, p, sha256, identity, proof, proof', i);
    }
  }

  /** The witness to the larger question of a round. */
  function LargerWitness(p: Params, proof: Bytes, proof': Bytes, i: nat): nat
    requires DecodeProof(p, proof).Some? && DecodeProof(p, proof').Some? && i < p.t
  {
    var (cs, ss) := ProofNumbers(p, proof);
    var (cs', ss') := ProofNumbers(p, proof');
    if cs[i] > cs'[i] then ss[i] else ss'[i]
  }

  lemma LargerInRange(p: Params, proof: Bytes, proof': Bytes, i: nat)
    requires DecodeProof(p, proof).Some? && DecodeProof(p, proof').Some? && i < p.t
    requires WitnessesInRange(p, proof) && WitnessesInRange(p, proof')
    ensures 0 < LargerWitness(p, proof, proof', i) < p.n
  {
    hide DecodeProof, ProofNumbers;
  }

  lemma PublicInRange(p: Params, sha256: Sha256, identity: Bytes)
    requires Valid(p) && p.nBytes > T_LEN
    ensures 0 < PublicNumber(p, sha256, identity) < p.n
  {
    hide ToNat, Padded, Pow256;
    PaddedBelowModulus(sha256, p.nBytes, identity, p.n);
    PaddedNonzero(sha256, p.nBytes, identity);
  }

  lemma ForkedHere(p: Params, sha256: Sha256, identity: Bytes, proof: Bytes, proof': Bytes, i: nat)
    requires Valid(p) && p.nBytes >= T_LEN && i < p.t && SameTest(p, sha256, identity, proof, proof')
    requires ProofNumbers(p, proof).0[i] != ProofNumbers(p, proof').0[i]
    requires IsUnit(LargerWitness(p, proof, proof', i), p.n)
    ensures ForkedAt(p, sha256, identity, proof, proof', i)
  {
    hide RecomputedTest, DecodeProof, ProofNumbers, IsUnit, Valid;
  }

  /** Proofs that start with different hashes differ in the question of some round. */
  lemma QuestionsApart(p: Params, proof: Bytes, proof': Bytes) returns (i: nat)
    requires DecodeProof(p, proof).Some? && DecodeProof(p, proof').Some?
    requires var bin, bin' := Base64Url.Decode(proof), Base64Url.Decode(proof');
             var size := p.t * p.vBytes;
             && bin.Some? && bin'.Some? && size <= |bin.value| && size <= |bin'.value|
             && bin.value[..size] != bin'.value[..size]
    ensures i < p.t && ProofNumbers(p, proof).0[i] != ProofNumbers(p, proof').0[i]
  {
    hide Base64Url.Decode, Parsed, Blocks;
    BlocksIsProduct(p.t, p.vBytes);
    i := DifferentQuestion(p, DecodeProof(p, proof).value.0, DecodeProof(p, proof').value.0);
  }
}
