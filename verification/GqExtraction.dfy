/** Special soundness of GQ1: two answers to one commitment reveal an RSA signature. */
module GqExtraction {
  import opened Common
  import opened Arithmetic
  import opened ByteStrings
  import opened Pkcs1
  import opened Gq1
  import opened GqCompleteness
  import opened GqKeys
  import GqTokens

  // ---------------------------------------------------------------------------
  // The exponent 65537 is prime
  // ---------------------------------------------------------------------------

  /** None of lo, lo + 2, lo + 4, ... below hi divides m. */
  predicate Indivisible(m: nat, lo: nat, hi: nat)
    requires 0 < lo
    decreases hi - lo
  {
    if lo >= hi then true else m % lo != 0 && Indivisible(m, lo + 2, hi)
  }

  lemma {:induction false} IndivisibleBy(m: nat, lo: nat, hi: nat, j: nat)
    requires 0 < lo && lo + 2 * j < hi && Indivisible(m, lo, hi)
    ensures m % (lo + 2 * j) != 0
    decreases j
  {
    if j > 0 {
      IndivisibleBy(m, lo + 2, hi, j - 1);
    }
  }

  lemma TrialDivision(lo: nat, d: nat)
    requires 0 < lo <= d < lo + 16 && lo % 2 == d % 2 == 1 && Indivisible(65537, lo, lo + 16)
    ensures 65537 % d != 0
  {
    hide Indivisible;
    var j := (d - lo) / 2;
    assert d == lo + 2 * j;
    IndivisibleBy(65537, lo, lo + 16, j);
  }

  lemma NoOddDivisorFrom3(d: nat)
    requires 3 <= d < 67 && d % 2 == 1
    ensures 65537 % d != 0
  {
    if d < 19 {
      assert Indivisible(65537, 3, 19);
      TrialDivision(3, d);
    } else if d < 35 {
      assert Indivisible(65537, 19, 35);
      TrialDivision(19, d);
    } else if d < 51 {
      assert Indivisible(65537, 35, 51);
      TrialDivision(35, d);
    } else {
      assert Indivisible(65537, 51, 67);
      TrialDivision(51, d);
    }
  }

  lemma NoOddDivisorFrom67(d: nat)
    requires 67 <= d < 131 && d % 2 == 1
    ensures 65537 % d != 0
  {
    if d < 83 {
      assert Indivisible(65537, 67, 83);
      TrialDivision(67, d);
    } else if d < 99 {
      assert Indivisible(65537, 83, 99);
      TrialDivision(83, d);
    } else if d < 115 {
      assert Indivisible(65537, 99, 115);
      TrialDivision(99, d);
    } else {
      assert Indivisible(65537, 115, 131);
      TrialDivision(115, d);
    }
  }

  lemma NoOddDivisorFrom131(d: nat)
    requires 131 <= d < 195 && d % 2 == 1
    ensures 65537 % d != 0
  {
    if d < 147 {
      assert Indivisible(65537, 131, 147);
      TrialDivision(131, d);
    } else if d < 163 {
      assert Indivisible(65537, 147, 163);
      TrialDivision(147, d);
    } else if d < 179 {
      assert Indivisible(65537, 163, 179);
      TrialDivision(163, d);
    } else {
      assert Indivisible(65537, 179, 195);
      TrialDivision(179, d);
    }
  }

  lemma NoOddDivisorFrom195(d: nat)
    requires 195 <= d < 259 && d % 2 == 1
    ensures 65537 % d != 0
  {
    if d < 211 {
      assert Indivisible(65537, 195, 211);
      TrialDivision(195, d);
    } else if d < 227 {
      assert Indivisible(65537, 211, 227);
      TrialDivision(211, d);
    } else if d < 243 {
      assert Indivisible(65537, 227, 243);
      TrialDivision(227, d);
    } else {
      assert Indivisible(65537, 243, 259);
      TrialDivision(243, d);
    }
  }

  lemma NoOddDivisor(d: nat)
    requires 3 <= d < 259 && d % 2 == 1
    ensures 65537 % d != 0
  {
    if d < 67 {
      NoOddDivisorFrom3(d);
    } else if d < 131 {
      NoOddDivisorFrom67(d);
    } else if d < 195 {
      NoOddDivisorFrom131(d);
    } else {
      NoOddDivisorFrom195(d);
    }
  }

  lemma DoubledProduct(k: nat, h: nat)
    ensures k * (2 * h) == 2 * (k * h)
  {}

  lemma OddFactor(m: nat, k: nat, d: nat)
    requires m == k * d && m % 2 == 1
    ensures d % 2 == 1
  {
    DoubledProduct(k, d / 2);
  }

  lemma ProductBound(k: nat, d: nat)
    requires k > 256 && d > 256
    ensures k * d > 65537
  {
    assert k * d >= 257 * d >= 257 * 257;
  }

  lemma DivisorsOfExponent(d: nat, k: nat)
    requires 65537 == k * d
    ensures d == 1 || d == 65537
  {
    if d == 0 || k == 0 {
    } else if d <= 256 {
      DivModUnique(65537, d, k, 0);
      OddFactor(65537, k, d);
      if d > 1 {
        NoOddDivisor(d);
      }
    } else if k <= 256 {
      DivModUnique(65537, k, d, 0);
      OddFactor(65537, d, k);
      if k > 1 {
        NoOddDivisor(k);
      }
    } else {
      ProductBound(k, d);
    }
  }

  /** Every nonzero difference of two questions is coprime to the exponent. */
  lemma CoprimeToExponent(d: nat)
    requires 0 < d < 65537
    ensures ExtendedGcd(d, 65537).g == 1
  {
    var g := ExtendedGcd(d, 65537).g;
    var j :| IsMultiple(d, j, g);
    var k :| IsMultiple(65537, k, g);
    MulAtLeast(j, g);
    MulAtLeast(k, g);
    DivisorsOfExponent(g, k);
  }

  // ---------------------------------------------------------------------------
  // Extraction from two answers
  // ---------------------------------------------------------------------------

  /** s^v * g^(c+d) = s'^v * g^c gives g^d = z^v for z = s'/s. */
  lemma QuotientOfAnswers(g: nat, gi: nat, c: nat, d: nat, s: nat, si: nat, s': nat, v: nat, n: nat)
    requires n > 0 && IsInverse(g, gi, n) && IsInverse(s, si, n)
    requires Cong(Times(Pow(s, v), Pow(g, c + d)), Times(Pow(s', v), Pow(g, c)), n)
    ensures Cong(Pow(g, d), Pow(Times(si, s'), v), n)
  {
    hide Pow, Times, Cong, IsInverse;
    var x, y, z := Pow(g, c), Pow(g, d), Pow(s, v);
    assert Pow(g, c + d) == Times(x, y) by { PowAdd(g, c, d); UnfoldTimes(x, y); }
    assert Times(z, Times(x, y)) == Times(x, Times(z, y)) by { TimesSwap(z, x); Rotate(z, x, y); Rotate(x, z, y); }
    TimesSwap(Pow(s', v), x);
    InverseOfPow(g, gi, c, n);
    CancelTimes(x, Pow(gi, c), Times(z, y), Pow(s', v), n);
    InverseOfPow(s, si, v, n);
    MoveUnit(z, Pow(si, v), y, Pow(s', v), n);
    PowOfTimes(si, s', v);
  }

  lemma UnfoldTimes(a: nat, b: nat)
    ensures Times(a, b) == a * b
  {}

  /** g^d = z^v and a*d = b*v + 1 give g = (g^-b * z^a)^v. */
  lemma RootFromPowers(g: nat, gi: nat, z: nat, d: nat, v: nat, a: nat, b: nat, n: nat)
    requires n > 0 && IsInverse(g, gi, n) && a * d == b * v + 1
    requires Cong(Pow(g, d), Pow(z, v), n)
    ensures Cong(g, Pow(Times(Pow(gi, b), Pow(z, a)), v), n)
  {
    hide Pow, Times, Cong, IsInverse;
    var u, w := Pow(Pow(g, b), v), Pow(Pow(gi, b), v);
    CongPow(Pow(g, d), Pow(z, v), a, n);
    assert Pow(Pow(g, d), a) == Times(u, g) by { PowerOfBezout(g, d, v, a, b); }
    PowSwap(z, v, a);
    assert IsInverse(u, w, n) by {
      InverseOfPow(g, gi, b, n);
      InverseOfPow(Pow(g, b), Pow(gi, b), v, n);
    }
    MoveUnit(u, w, g, Pow(Pow(z, a), v), n);
    PowOfTimes(Pow(gi, b), Pow(z, a), v);
  }

  lemma PowerOfBezout(g: nat, d: nat, v: nat, a: nat, b: nat)
    requires a * d == b * v + 1
    ensures Pow(Pow(g, d), a) == Times(Pow(Pow(g, b), v), g)
  {
    PowOfPow(g, d, a);
    assert d * a == b * v + 1;
    PowAdd(g, b * v, 1);
    PowOfPow(g, b, v);
    assert Pow(g, 1) == g;
  }

  /** One round: two answers to the same test number under different questions give a v-th root of g. */
  lemma RoundExtracts(p: Params, g: nat, c: nat, d: nat, s: nat, s': nat) returns (x: nat)
    requires p.n > 1 && p.v > 1 && d > 0 && ExtendedGcd(d, p.v).g == 1
    requires IsUnit(g, p.n) && IsUnit(s, p.n)
    requires Recommit(p, g, c + d, s) == Recommit(p, g, c, s')
    ensures x < p.n && Cong(Pow(x, p.v), g, p.n)
  {
    hide Pow, Cong, Recommit, ExtendedGcd;
    var gi: nat :| IsInverse(g, gi, p.n);
    var si: nat :| IsInverse(s, si, p.n);
    RecommitCongTimes(p, g, c + d, s);
    RecommitCongTimes(p, g, c, s');
    var m := Recommit(p, g, c, s');
    var l, r := Times(Pow(s, p.v), Pow(g, c + d)), Times(Pow(s', p.v), Pow(g, c));
    CongTrans(l, m, r, p.n) by { CongSym(m, l, p.n); }
    QuotientOfAnswers(g, gi, c, d, s, si, s', p.v, p.n);
    var a, b := NaturalBezout(d, p.v);
    var z := Times(si, s');
    RootFromPowers(g, gi, z, d, p.v, a, b, p.n);
    var y := Times(Pow(gi, b), Pow(z, a));
    x := y % p.n;
    CongMod(y, p.n);
    CongPow(x, y, p.v, p.n);
    CongSym(g, Pow(y, p.v), p.n);
    CongTrans(Pow(x, p.v), Pow(y, p.v), g, p.n);
  }

  lemma CongSym(a: int, b: int, n: int)
    requires n > 0 && Cong(a, b, n)
    ensures Cong(b, a, n)
  {}

  lemma RecommitCongTimes(p: Params, g: nat, c: nat, s: nat)
    requires p.n > 0
    ensures Cong(Recommit(p, g, c, s), Times(Pow(s, p.v), Pow(g, c)), p.n)
  {
    hide Pow, Cong, Recommit;
    RecommitCong(p, g, c, s);
  }

  /** Equal test numbers come from equal rounds. */
  lemma TestNumberInjective(p: Params, ws: seq<nat>, ws': seq<nat>)
    requires Valid(p) && Residues(p, ws) && Residues(p, ws') && |ws| == |ws'|
    requires TestNumber(p, ws) == TestNumber(p, ws')
    ensures ws == ws'
  {
    ResiduesFit(p, ws);
    ResiduesFit(p, ws');
    ParsedConcatenated(ws, p.nBytes);
    ParsedConcatenated(ws', p.nBytes);
  }

  /** Different questions differ in some round. */
  lemma DifferentQuestion(p: Params, r: Bytes, r': Bytes) returns (i: nat)
    requires |r| == |r'| == Blocks(p.t, p.vBytes) && r != r'
    ensures i < p.t && Parsed(r, p.t, p.vBytes)[i] != Parsed(r', p.t, p.vBytes)[i]
  {
    var cs, cs' := Parsed(r, p.t, p.vBytes), Parsed(r', p.t, p.vBytes);
    if cs == cs' {
      ParsedInjective(r, r', p.t, p.vBytes);
      assert false;
    }
    i :| 0 <= i < p.t && cs[i] != cs'[i];
  }

  /** Two questions of two bytes differ by something coprime to 65537, so one round extracts. */
  lemma ExtractFromRound(p: Params, g: nat, c: nat, c': nat, s: nat, s': nat) returns (x: nat)
    requires p.n > 1 && p.v == 65537 && c < 65536 && c' < 65536 && c != c'
    requires IsUnit(g, p.n) && IsUnit(if c > c' then s else s', p.n)
    requires Recommit(p, g, c, s) == Recommit(p, g, c', s')
    ensures x < p.n && Cong(Pow(x, p.v), g, p.n)
  {
    hide Pow, Cong, Recommit, IsUnit, ExtendedGcd;
    if c > c' {
      CoprimeToExponent(c - c');
      x := RoundExtracts(p, g, c', c - c', s, s');
    } else {
      CoprimeToExponent(c' - c);
      x := RoundExtracts(p, g, c, c' - c, s', s);
    }
  }

  /** The questions and witnesses of a proof. */
  function ProofNumbers(p: Params, proof: Bytes): (rs: (seq<nat>, seq<nat>))
    requires DecodeProof(p, proof).Some?
    ensures |rs.0| == |rs.1| == p.t
  {
    var (r, s) := DecodeProof(p, proof).value;
    (Parsed(r, p.t, p.vBytes), Parsed(s, p.t, p.nBytes))
  }

  /** W* as the verifier recomputes it from a proof. */
  function RecomputedTest(p: Params, sha256: Sha256, identity: Bytes, proof: Bytes): Bytes
    requires Valid(p) && p.nBytes >= T_LEN && DecodeProof(p, proof).Some?
  {
    var (cs, ss) := ProofNumbers(p, proof);
    TestNumber(p, Recommits(p, PublicNumber(p, sha256, identity), cs, ss))
  }

  /** Two proofs with equal recomputed test numbers whose questions differ in round i, where the witness to the larger
      question is a unit. */
  ghost predicate ForkedAt(p: Params, sha256: Sha256, identity: Bytes, proof: Bytes, proof': Bytes, i: nat)
    requires Valid(p) && p.nBytes >= T_LEN && i < p.t
  {
    && DecodeProof(p, proof).Some? && DecodeProof(p, proof').Some?
    && RecomputedTest(p, sha256, identity, proof) == RecomputedTest(p, sha256, identity, proof')
    && var (cs, ss) := ProofNumbers(p, proof);
       var (cs', ss') := ProofNumbers(p, proof');
       cs[i] != cs'[i] && IsUnit(if cs[i] > cs'[i] then ss[i] else ss'[i], p.n)
  }

  /** Special soundness: two proofs with the same recomputed test number but different questions yield
      a number x with x^65537 mod n equal to the padded identity. */
  lemma Extraction(p: Params, sha256: Sha256, identity: Bytes, proof: Bytes, proof': Bytes, i: nat) returns (x: nat)
    requires Valid(p) && p.nBytes > T_LEN && p.v == 65537 && p.vBytes == 2 && i < p.t
    requires IsUnit(PublicNumber(p, sha256, identity), p.n) && ForkedAt(p, sha256, identity, proof, proof', i)
    ensures x < p.n && Pow(x, p.v) % p.n == PublicNumber(p, sha256, identity)
  {
    hide Pow, ToNat, Padded, Pow256, TestNumber, Recommits, DecodeProof, IsUnit, Cong, ProofNumbers;
    var g := PublicNumber(p, sha256, identity);
    var (cs, ss) := ProofNumbers(p, proof);
    var (cs', ss') := ProofNumbers(p, proof');
    LargeModulus(p);
    QuestionsFit(p, proof);
    QuestionsFit(p, proof');
    SameRound(p, g, cs, ss, cs', ss', i);
    x := ExtractFromRound(p, g, cs[i], cs'[i], ss[i], ss'[i]);
    PaddedBelowModulus(sha256, p.nBytes, identity, p.n);
    ResidueOf(Pow(x, p.v), g, p.n);
  }

  lemma ResidueOf(a: nat, g: nat, n: nat)
    requires g < n && Cong(a, g, n)
    ensures a % n == g
  {}

  lemma SameRound(p: Params, g: nat, cs: seq<nat>, ss: seq<nat>, cs': seq<nat>, ss': seq<nat>, i: nat)
    requires Valid(p) && |cs| == |ss| == |cs'| == |ss'| == p.t && i < p.t
    requires TestNumber(p, Recommits(p, g, cs, ss)) == TestNumber(p, Recommits(p, g, cs', ss'))
    ensures Recommit(p, g, cs[i], ss[i]) == Recommit(p, g, cs'[i], ss'[i])
  {
    hide Recommit, TestNumber, Pow256;
    var ws, ws' := Recommits(p, g, cs, ss), Recommits(p, g, cs', ss');
    TestNumberInjective(p, ws, ws');
    assert ws[i] == ws'[i];
  }

  lemma QuestionsFit(p: Params, proof: Bytes)
    requires DecodeProof(p, proof).Some? && p.vBytes == 2
    ensures forall i :: 0 <= i < p.t ==> ProofNumbers(p, proof).0[i] < 65536
  {
    hide DecodeProof, Parsed, Pow256;
    var (r, s) := DecodeProof(p, proof).value;
    ParsedFit(r, p.t, p.vBytes);
    TwoBytes();
  }

  lemma TwoBytes()
    ensures Pow256(2) == 65536
  {
    assert Pow256(1) == 256;
  }

  /** Under a supported key long enough for RS256 the number is an RS256 signature on the identity. */
  lemma ExtractedSignature(key: RsaPublicKey, securityParameter: nat, p: Params, sha256: Sha256, identity: Bytes,
                           proof: Bytes, proof': Bytes, i: nat) returns (sig: Bytes)
    requires NewSignerVerifier(key, securityParameter) == Ok(p) && p.nBytes >= T_LEN + 11 && i < p.t
    requires IsUnit(PublicNumber(p, sha256, identity), p.n) && ForkedAt(p, sha256, identity, proof, proof', i)
    ensures GqTokens.Rs256(sha256, key, identity, sig)
  {
    hide Pow, ToNat, Padded, Pow256, ForkedAt, IsUnit, NewSignerVerifier, BitLen, BytesForBits;
    var x := Extraction(p, sha256, identity, proof, proof', i);
    BelowPow256(p, x);
    sig := ToBytes(x, p.nBytes);
  }

  lemma BelowPow256(p: Params, x: nat)
    requires Valid(p) && x < p.n
    ensures x < Pow256(p.nBytes)
  {}
}
