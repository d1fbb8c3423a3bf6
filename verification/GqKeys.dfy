/** Construction of GQ1 parameters from an RSA public key, and the blinded inverse of an RSA signature. */
module GqKeys {
  import opened Common
  import opened Arithmetic
  import opened ByteStrings
  import opened Gq1

  datatype RsaPublicKey = RsaPublicKey(n: nat, e: nat)

  // ---------------------------------------------------------------------------
  // NewSignerVerifier
  // ---------------------------------------------------------------------------

  function BitLen(x: nat): nat {
    if x == 0 then 0 else 1 + BitLen(x / 2)
  }

  function BytesForBits(bits: nat): nat {
    (bits + 7) / 8
  }

  lemma BitLenByByte(x: nat)
    requires x >= 256
    ensures BitLen(x) == 8 + BitLen(x / 256)
  {
    var y := x / 2 / 2 / 2 / 2;
    assert BitLen(x) == 4 + BitLen(y) by {
      assert BitLen(x / 2 / 2) == 2 + BitLen(y);
    }
    assert BitLen(y) == 4 + BitLen(y / 2 / 2 / 2 / 2) by {
      assert BitLen(y / 2 / 2) == 2 + BitLen(y / 2 / 2 / 2 / 2);
    }
    assert y / 2 / 2 / 2 / 2 == x / 256;
  }

  lemma ShortBitLen(x: nat)
    requires 0 < x < 256
    ensures 1 <= BitLen(x) <= 8
  {
    ShortBitLenUpTo(x, 8, 256);
  }

  lemma {:induction false} ShortBitLenUpTo(x: nat, b: nat, limit: nat)
    requires 0 < x < limit && limit == Pow(2, b)
    ensures 1 <= BitLen(x) <= b
    decreases b
  {
    if x > 1 {
      ShortBitLenUpTo(x / 2, b - 1, limit / 2);
    }
  }

  /** The byte length computed from the bit length brackets the number. */
  lemma {:induction false} ByteLength(x: nat)
    requires x > 0
    ensures BytesForBits(BitLen(x)) > 0
    ensures Pow256(BytesForBits(BitLen(x)) - 1) <= x < Pow256(BytesForBits(BitLen(x)))
  {
    if x < 256 {
      ShortBitLen(x);
      assert Pow256(1) == 256;
    } else {
      BitLenByByte(x);
      ByteLength(x / 256);
    }
  }

  /** What parsePublicKey hands back: on an error every number is still zero. */
  datatype ParsedKey = ParsedKey(n: nat, v: nat, nBytes: nat, vBytes: nat, failed: bool)

  /** The modulus is refused when it is zero or even.  One bit of v goes unused by GQ1. */
  function ParsePublicKey(key: RsaPublicKey): ParsedKey {
    if key.n % 2 == 0 then ParsedKey(0, 0, 0, 0, true)
    else
      var vBits := if key.e == 0 then 0 else BitLen(key.e) - 1;
      ParsedKey(key.n, key.e, BytesForBits(BitLen(key.n)), BytesForBits(vBits), false)
  }

  lemma ExponentBits()
    ensures BitLen(65537) == 17
  {
    BitLenByByte(65537);
    BitLenByByte(256);
    assert BitLen(1) == 1;
  }

  /** The number of rounds is the security parameter over the bits of a question.  For a refused modulus
      vBytes is still zero, and that division panics before the error can be returned. */
  function NewSignerVerifier(key: RsaPublicKey, securityParameter: nat): (r: Outcome<Params>)
    ensures r.Error? <==> key.e != 65537
    ensures r.Panic? <==> key.e == 65537 && key.n % 2 == 0
    ensures r.Ok? ==> r.value.n == key.n && r.value.v == 65537 && r.value.vBytes == 2
    ensures r.Ok? ==> r.value.nBytes == BytesForBits(BitLen(key.n))
    ensures r.Ok? ==> r.value.t == securityParameter / 16
    ensures !r.Drawing?
    ensures r.Ok? ==> Valid(r.value)
  {
    if key.e != 65537 then Error
    else
      ExponentBits();
      var k := ParsePublicKey(key);
      if k.vBytes * 8 == 0 then Panic
      else
        ByteLength(key.n);
        Ok(Params(k.n, k.v, k.nBytes, k.vBytes, securityParameter / (k.vBytes * 8)))
  }

  // ---------------------------------------------------------------------------
  // modInverse
  // ---------------------------------------------------------------------------

  /** How the blinded inversion of a secret ends on a finite supply of draws. */
  datatype Inversion = Inverse(bytes: Bytes) | TooLarge | StillDrawing | Overflow

  /** What the inversion computes, without blinding: the inverse of b modulo n in as many bytes as b has,
      as soon as some draw is a unit; and no end to the drawing when b is not a unit. */
  ghost function Inverted(p: Params, b: Bytes, draws: seq<nat>): Inversion
    requires p.n > 0
  {
    var x := ToNat(b);
    if x >= p.n then TooLarge
    else
      var m := ModInverse(x, p.n);
      if m.None? || forall i :: 0 <= i < |draws| ==> !IsUnit(draws[i], p.n) then StillDrawing
      else if m.value >= Pow256(|b|) then Overflow
      else Inverse(ToBytes(m.value, |b|))
  }

  lemma UnitIfProductIs(a: nat, c: nat, n: nat)
    requires n > 0 && IsUnit(a * c, n)
    ensures IsUnit(a, n)
  {
    var w: nat :| IsInverse(a * c, w, n);
    assert a * (c * w) == a * c * w;
    assert IsInverse(a, c * w, n);
  }

  lemma UnitProduct(a: nat, c: nat, n: nat)
    requires n > 0
    ensures IsUnit(a * c, n) <==> IsUnit(a, n) && IsUnit(c, n)
  {
    if IsUnit(a * c, n) {
      UnitIfProductIs(a, c, n);
      assert a * c == c * a;
      UnitIfProductIs(c, a, n);
    }
    if IsUnit(a, n) && IsUnit(c, n) {
      var b: nat :| IsInverse(a, b, n);
      var d: nat :| IsInverse(c, d, n);
      InverseOfProduct(a, b, c, d, n);
      assert IsInverse(a * c, b * d, n);
    }
  }

  lemma UnitMod(a: nat, n: nat)
    requires n > 0
    ensures IsUnit(a % n, n) <==> IsUnit(a, n)
  {
    CongMod(a, n);
    forall b: nat
      ensures IsInverse(a % n, b, n) <==> IsInverse(a, b, n)
    {
      CongMul(a % n, a, b, b, n);
    }
  }

  /** Multiplying the inverse of x * r by r removes the blinding. */
  lemma Unblind(x: nat, r: nat, y: nat, n: nat)
    requires n > 0 && IsInverse(r * x % n, y, n)
    ensures IsInverse(x, y * r % n, n)
  {
    CongMod(r * x, n);
    CongMul(r * x % n, r * x, y, y, n);
    assert r * x * y == x * (y * r);
    CongMod(y * r, n);
    CongMulLeft(x, y * r % n, y * r, n);
  }

  /** The retry loop: draw until the blinded value is invertible, invert, unblind. */
  method ModInverseBlinded(p: Params, b: Bytes, draws: seq<nat>) returns (res: Inversion)
    requires p.n > 0
    ensures res == Inverted(p, b, draws)
  {
    var x := ToNat(b);
    if x >= p.n {
      return TooLarge;
    }
    var i := 0;
    while i < |draws|
      invariant 0 <= i <= |draws|
      invariant IsUnit(x, p.n) ==> forall j :: 0 <= j < i ==> !IsUnit(draws[j], p.n)
    {
      var r := draws[i];
      var xr := r * x % p.n;
      UnitMod(r * x, p.n);
      UnitProduct(r, x, p.n);
      var inverse := ModInverse(xr, p.n);
      if inverse.Some? {
        assert IsInverse(xr, inverse.value, p.n);
        var m := inverse.value * r % p.n;
        Unblind(x, r, inverse.value, p.n);
        var direct := ModInverse(x, p.n);
        InverseUnique(x, m, direct.value, p.n);
        CongResidues(m, direct.value, p.n);
        if m >= Pow256(|b|) {
          return Overflow;
        }
        return Inverse(ToBytes(m, |b|));
      }
      i := i + 1;
    }
    return StillDrawing;
  }

  /** Blinding is transparent: whatever draws the loop ended on, it found the one inverse below n,
      which fits the length of a full-width secret. */
  lemma BlindingTransparent(p: Params, b: Bytes, draws: seq<nat>, m: nat)
    requires Valid(p) && |b| == p.nBytes
    ensures !Inverted(p, b, draws).Overflow?
    ensures Inverted(p, b, draws).Inverse? ==>
              (m < p.n && IsInverse(ToNat(b), m, p.n) <==> m == ToNat(Inverted(p, b, draws).bytes))
  {
    hide Cong, IsInverse, IsUnit, ToNat, Pow256, ModInverse;
    var inv := ModInverse(ToNat(b), p.n);
    if inv.Some? && m < p.n && IsInverse(ToNat(b), m, p.n) {
      InverseUnique(ToNat(b), m, inv.value, p.n);
      CongResidues(m, inv.value, p.n);
    }
  }
}
