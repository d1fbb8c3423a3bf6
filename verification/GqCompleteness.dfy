/** Honest GQ1 signatures verify, exactly when no draw was zero. */
module GqCompleteness {
  import opened Arithmetic
  import opened ByteStrings
  import opened Pkcs1
  import opened Gq1

  /** q is a GQ1 private number for the public number g: q^v * g = 1 mod n. */
  predicate KeyPair(p: Params, q: nat, g: nat)
    requires p.n > 0
  {
    Cong(Pow(q, p.v) * g, 1, p.n)
  }

  /** The private number is a unit. */
  lemma PrivateIsUnit(p: Params, q: nat, g: nat)
    requires p.n > 0 && p.v > 0 && KeyPair(p, q, g)
    ensures IsInverse(q, Pow(q, p.v - 1) * g, p.n)
  {
    Regrouped(q, Pow(q, p.v - 1), g);
  }

  lemma Regrouped(a: nat, b: nat, d: nat)
    ensures a * (b * d) == a * b * d
  {
  }

  lemma AnswerCong(p: Params, q: nat, c: nat, r: nat)
    requires p.n > 0
    ensures Cong(Answer(p, q, c, r), Pow(q, c) * r, p.n)
  {
    CongMod(Pow(q, c), p.n);
    CongMul(Pow(q, c) % p.n, Pow(q, c), r, r, p.n);
    CongMod(Pow(q, c) % p.n * r, p.n);
  }

  lemma RecommitCong(p: Params, g: nat, c: nat, s: nat)
    requires p.n > 0
    ensures Cong(Recommit(p, g, c, s), Pow(s, p.v) * Pow(g, c), p.n)
  {
    CongMod(Pow(s, p.v), p.n);
    CongMod(Pow(g, c), p.n);
    CongMul(Pow(s, p.v) % p.n, Pow(s, p.v), Pow(g, c) % p.n, Pow(g, c), p.n);
    CongMod(Pow(s, p.v) % p.n * (Pow(g, c) % p.n), p.n);
  }

  lemma RegroupTimes(q: nat, g: nat, r: nat, c: nat, v: nat)
    ensures Times(Pow(Times(Pow(q, c), r), v), Pow(g, c)) == Times(Pow(r, v), Pow(Times(Pow(q, v), g), c))
  {
    hide Times, Pow;
    PowOfTimes(Pow(q, c), r, v);
    PowSwap(q, c, v);
    Rotate(Pow(Pow(q, v), c), Pow(r, v), Pow(g, c));
    PowOfTimes(Pow(q, v), g, c);
  }

  /** (q^c * r)^v * g^c regroups to r^v * (q^v * g)^c. */
  lemma Regroup(q: nat, g: nat, r: nat, c: nat, v: nat)
    ensures Pow(Pow(q, c) * r, v) * Pow(g, c) == Pow(r, v) * Pow(Pow(q, v) * g, c)
  {
    hide Pow;
    RegroupTimes(q, g, r, c, v);
  }

  /** One round: the recomputed test number is the commitment, byte for byte. */
  lemma RoundCompletes(p: Params, q: nat, g: nat, c: nat, r: nat)
    requires p.n > 0 && KeyPair(p, q, g)
    ensures Recommit(p, g, c, Answer(p, q, c, r)) == Commit(p, r)
  {
    hide Pow, Cong, Answer, Recommit;
    var s, t := Answer(p, q, c, r), Pow(q, c) * r;
    var x, y, z := Pow(s, p.v) * Pow(g, c), Pow(t, p.v) * Pow(g, c), Pow(r, p.v);
    RecommitCong(p, g, c, s);
    assert Cong(x, y, p.n) by {
      AnswerCong(p, q, c, r);
      CongPow(s, t, p.v, p.n);
      CongMul(Pow(s, p.v), Pow(t, p.v), Pow(g, c), Pow(g, c), p.n);
    }
    assert Cong(y, z, p.n) by {
      Regroup(q, g, r, c, p.v);
      KeyPairPower(p, q, g, c);
      CongMulLeft(z, Pow(Pow(q, p.v) * g, c), 1, p.n);
    }
    CongTrans(Recommit(p, g, c, s), x, y, p.n);
    CongTrans(Recommit(p, g, c, s), y, z, p.n);
    CongMod(z, p.n);
    CongTrans(z % p.n, z, Recommit(p, g, c, s), p.n);
    CongResidues(Recommit(p, g, c, s), z % p.n, p.n);
  }

  lemma KeyPairPower(p: Params, q: nat, g: nat, c: nat)
    requires p.n > 0 && KeyPair(p, q, g)
    ensures Cong(Pow(Pow(q, p.v) * g, c), 1, p.n)
  {
    hide Pow, Cong;
    CongPow(Pow(q, p.v) * g, 1, c, p.n);
    PowOfOne(c);
  }

  /** A witness vanishes exactly when its draw does. */
  lemma AnswerZero(p: Params, q: nat, g: nat, c: nat, r: nat)
    requires p.n > 1 && p.v > 0 && KeyPair(p, q, g) && r < p.n
    ensures Answer(p, q, c, r) == 0 <==> r == 0
  {
    var u := Pow(q, p.v - 1) * g;
    assert IsInverse(Pow(q, c), Pow(u, c), p.n) by {
      PrivateIsUnit(p, q, g);
      InverseOfPow(q, u, c, p.n);
    }
    AnswerCong(p, q, c, r);
    ZeroFactor(Pow(q, c), Pow(u, c), r, Answer(p, q, c, r), p.n);
  }

  lemma ZeroFactor(k: nat, w: nat, r: nat, s: nat, n: nat)
    requires n > 1 && IsInverse(k, w, n) && r < n && s < n && Cong(s, k * r, n)
    ensures s == 0 <==> r == 0
  {
    UnitTimesNonzero(k, w, r, n);
  }

  lemma AllRoundsComplete(p: Params, q: nat, g: nat, cs: seq<nat>, rs: seq<nat>)
    requires p.n > 0 && KeyPair(p, q, g) && |cs| == |rs|
    ensures Recommits(p, g, cs, Answers(p, q, cs, rs)) == Commits(p, rs)
  {
    var ss := Answers(p, q, cs, rs);
    forall i | 0 <= i < |rs|
      ensures Recommits(p, g, cs, ss)[i] == Commits(p, rs)[i]
    {
      RoundCompletes(p, q, g, cs[i], rs[i]);
    }
  }

  lemma AnswersInRange(p: Params, q: nat, g: nat, cs: seq<nat>, rs: seq<nat>)
    requires p.n > 1 && p.v > 0 && KeyPair(p, q, g) && |cs| == |rs| && Residues(p, rs)
    ensures InRange(p, Answers(p, q, cs, rs)) <==> 0 !in rs
  {
    var ss := Answers(p, q, cs, rs);
    forall i | 0 <= i < |rs|
      ensures 0 < ss[i] < p.n <==> rs[i] != 0
    {
      AnswerZero(p, q, g, cs[i], rs[i]);
      assert ss[i] == Answer(p, q, cs[i], rs[i]);
    }
    if 0 in rs {
      var i :| 0 <= i < |rs| && rs[i] == 0;
      assert !(rs[i] != 0);
    }
  }

  /** Questions of vBytes bytes stay below a longer modulus, so signing succeeds. */
  lemma QuestionsAreResidues(p: Params, r: Bytes)
    requires Valid(p) && p.vBytes < p.nBytes && |r| == Blocks(p.t, p.vBytes)
    ensures Residues(p, Parsed(r, p.t, p.vBytes))
  {
    ParsedFit(r, p.t, p.vBytes);
    Pow256Monotone(p.vBytes, p.nBytes - 1);
  }

  /** The exact completeness of GQ1: for every key pair, message and draws below n, signing succeeds,
      and the signature verifies if and only if no draw is zero. */
  lemma Completeness(p: Params, shake: Shake256, sha256: Sha256, private: Bytes, identity: Bytes, message: Bytes,
                     rs: seq<nat>)
    requires Valid(p) && p.v > 0 && p.vBytes < p.nBytes && p.nBytes >= T_LEN
    requires |rs| == p.t && Residues(p, rs)
    requires ToNat(private) < p.n && KeyPair(p, ToNat(private), PublicNumber(p, sha256, identity))
    ensures Signature(p, shake, private, message, rs).Ok?
    ensures Accepts(p, shake, sha256, Signature(p, shake, private, message, rs).value, identity, message)
       <==> 0 !in rs
  {
    hide Pow256, ToNat, Pow, Cong, TestNumber, Question, Parsed, Blocks, Commits, Answers, Recommits, InRange, Residues,
         DecodeProof, EncodeProof, PublicNumber;
    var q, g := ToNat(private), PublicNumber(p, sha256, identity);
    LargeModulus(p);
    var (r, s) := SignatureNumbers(p, shake, q, message, rs);
    QuestionsAreResidues(p, r);
    DecodeEncodeProof(p, r, s);
    var cs := Parsed(r, p.t, p.vBytes);
    WitnessesParse(p, Answers(p, q, cs, rs));
    AllRoundsComplete(p, q, g, cs, rs);
    AnswersInRange(p, q, g, cs, rs);
  }

  /** The witnesses are read back as they were written. */
  lemma WitnessesParse(p: Params, ss: seq<nat>)
    requires Valid(p) && Residues(p, ss)
    ensures |TestNumber(p, ss)| == Blocks(|ss|, p.nBytes) && Parsed(TestNumber(p, ss), |ss|, p.nBytes) == ss
  {
    hide Pow256, Parsed, Blocks, Concatenated;
    ResiduesFit(p, ss);
    ParsedConcatenated(ss, p.nBytes);
  }
}
