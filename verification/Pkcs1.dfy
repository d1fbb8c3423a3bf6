/** The EMSA-PKCS1-v1_5 padding that turns an identity into the public number G (gq/rsa.go). */
module Pkcs1 {
  import opened ByteStrings

  /** SHA-256, known only by the length of its digests. */
  type Sha256 = f: Bytes -> Bytes | forall d: Bytes :: |f(d)| == 32 witness ((d: Bytes) => seq(32, i => 0))

  /** The DER prefix announcing a SHA-256 digest. */
  const PREFIX: Bytes :=
    [0x30, 0x31, 0x30, 0x0d, 0x06, 0x09, 0x60, 0x86, 0x48, 0x01, 0x65, 0x03, 0x04, 0x02, 0x01, 0x05, 0x00, 0x04, 0x20]

  const T_LEN: nat := 51

  /** EM = 0x00 || 0x01 || PS || 0x00 || T, as section 9.2 of RFC 8017 lays it out for k bytes. */
  function Emsa(k: nat, t: Bytes): (em: Bytes)
    requires k >= |t| + 3
    ensures |em| == k
  {
    [0, 1] + seq(k - |t| - 3, i => 0xff) + [0] + t
  }

  /** The bytes before T: 0x00 || 0x01 || PS || 0x00, or as much of it as a short buffer holds. */
  function Lead(m: nat): (lead: Bytes)
    ensures |lead| == m
    ensures m > 0 ==> lead[0] == 0
  {
    if m >= 3 then [0, 1] + seq(m - 3, i => 0xff) + [0] else [0, 1][..m]
  }

  /** T: the DER-encoded digest. */
  function DigestInfo(sha256: Sha256, data: Bytes): (t: Bytes)
    ensures |t| == T_LEN
  {
    PREFIX + sha256(data)
  }

  /** A DER value with contents of less than 128 bytes (section 8.1 of X.690): tag, length, contents. */
  function Der(tag: Byte, contents: Bytes): (der: Bytes)
    requires |contents| < 128
    ensures |der| == |contents| + 2
  {
    [tag, |contents|] + contents
  }

  /** A number in base 128, most significant digit first, with the high bit on all digits but the last. */
  function Base128(n: nat): Bytes {
    Continued(n / 128) + [n % 128]
  }

  function Continued(n: nat): Bytes {
    if n == 0 then [] else Continued(n / 128) + [128 + n % 128]
  }

  /** An object identifier: its first two arcs in one number, then every other arc. */
  function ObjectId(first: nat, second: nat, arcs: seq<nat>): Bytes {
    Base128(40 * first + second) + Arcs(arcs)
  }

  function Arcs(arcs: seq<nat>): Bytes {
    if arcs == [] then [] else Base128(arcs[0]) + Arcs(arcs[1..])
  }

  /** The DigestInfo of section 9.2 of RFC 8017: the algorithm id-sha256, 2.16.840.1.101.3.4.2.1, with NULL parameters,
      and the digest as an octet string. */
  function DerDigestInfo(digest: Bytes): (t: Bytes)
    requires |digest| == 32
  {
    ArcBytes();
    Der(0x30, Der(0x30, Der(0x06, ObjectId(2, 16, [840, 1, 101, 3, 4, 2, 1])) + Der(0x05, [])) + Der(0x04, digest))
  }

  lemma ArcBytes()
    ensures ObjectId(2, 16, [840, 1, 101, 3, 4, 2, 1]) == [0x60, 0x86, 0x48, 0x01, 0x65, 0x03, 0x04, 0x02, 0x01]
  {
    hide Arcs, Continued;
    var arcs := [1, 101, 3, 4, 2, 1];
    ShortArc(96);
    LongArc();
    NextArc(840, arcs);
    assert [840] + arcs == [840, 1, 101, 3, 4, 2, 1];
    ShortArcs(arcs);
    assert Arcs(arcs) == [1, 101, 3, 4, 2, 1];
  }

  lemma ShortArc(n: nat)
    requires n < 128
    ensures Base128(n) == [n]
  {}

  lemma LongArc()
    ensures Base128(840) == [0x86, 0x48]
  {
    assert Continued(6) == [0x86];
  }

  lemma NextArc(n: nat, arcs: seq<nat>)
    ensures Arcs([n] + arcs) == Base128(n) + Arcs(arcs)
  {
    hide Base128;
    assert ([n] + arcs)[1..] == arcs;
  }

  lemma {:induction false} ShortArcs(arcs: seq<nat>)
    requires forall i :: 0 <= i < |arcs| ==> arcs[i] < 128
    ensures |Arcs(arcs)| == |arcs| && forall i :: 0 <= i < |arcs| ==> Arcs(arcs)[i] == arcs[i]
  {
    hide Base128;
    if arcs != [] {
      ShortArc(arcs[0]);
      ShortArcs(arcs[1..]);
    }
  }

  /** T is the DER of the SHA-256 digest of the data. */
  lemma DigestInfoIsDer(sha256: Sha256, data: Bytes)
    ensures DigestInfo(sha256, data) == DerDigestInfo(sha256(data))
  {
    hide ObjectId;
    ArcBytes();
  }

  /** What the padding of data leaves in a buffer of k bytes. */
  function Padded(sha256: Sha256, k: nat, data: Bytes): (em: Bytes)
    requires k >= T_LEN
    ensures |em| == k
  {
    Lead(k - T_LEN) + DigestInfo(sha256, data)
  }

  /** From 54 bytes on the padding is the standard's encoding of the digest of the data. */
  lemma PaddedIsEmsa(sha256: Sha256, k: nat, data: Bytes)
    requires k >= T_LEN + 3
    ensures |DerDigestInfo(sha256(data))| == T_LEN
    ensures Padded(sha256, k, data) == Emsa(k, DerDigestInfo(sha256(data)))
  {
    hide DigestInfo, DerDigestInfo;
    DigestInfoIsDer(sha256, data);
  }

  method EncodePkcs1v15(sha256: Sha256, k: nat, data: Bytes) returns (em: array<Byte>)
    requires k >= T_LEN
    ensures em[..] == Padded(sha256, k, data)
    ensures em.Length == k && em[k - 32..] == sha256(data) && em[k - T_LEN..] == DerDigestInfo(sha256(data))
    ensures k >= T_LEN + 3 ==> em[..] == Emsa(k, em[k - T_LEN..])
  {
    em := Pad(k, PREFIX, sha256(data));
    PaddedEnd(sha256, k, data);
    assert em[k - 32..] == em[..][k - 32..] && em[k - T_LEN..] == em[..][k - T_LEN..];
    if k >= T_LEN + 3 {
      PaddedIsEmsa(sha256, k, data);
    }
  }

  /** The padding ends in the digest of the data. */
  lemma PaddedEnd(sha256: Sha256, k: nat, data: Bytes)
    requires k >= T_LEN
    ensures Padded(sha256, k, data)[k - 32..] == sha256(data)
    ensures Padded(sha256, k, data)[k - T_LEN..] == DerDigestInfo(sha256(data))
  {
    hide Lead, DerDigestInfo;
    DigestInfoIsDer(sha256, data);
    assert Padded(sha256, k, data)[k - T_LEN..] == DigestInfo(sha256, data);
    assert DigestInfo(sha256, data)[T_LEN - 32..] == sha256(data);
  }

  /** Paddings of one length, and the numbers they stand for, are equal if and only if the digests are. */
  lemma PaddedInjective(sha256: Sha256, k: nat, data: Bytes, data': Bytes)
    requires k >= T_LEN
    ensures Padded(sha256, k, data) == Padded(sha256, k, data') <==> sha256(data) == sha256(data')
    ensures ToNat(Padded(sha256, k, data)) == ToNat(Padded(sha256, k, data')) <==> sha256(data) == sha256(data')
  {
    hide Lead, ToNat, ToBytes, DerDigestInfo;
    PaddedEnd(sha256, k, data);
    PaddedEnd(sha256, k, data');
    ToBytesToNat(Padded(sha256, k, data));
    ToBytesToNat(Padded(sha256, k, data'));
  }

  /** A padded identity is never zero. */
  lemma PaddedNonzero(sha256: Sha256, k: nat, data: Bytes)
    requires k >= T_LEN
    ensures ToNat(Padded(sha256, k, data)) > 0
  {
    hide Lead;
    var em := Padded(sha256, k, data);
    assert em[k - T_LEN] == 0x30;
    NonzeroByte(em, k - T_LEN);
  }

  /** The buffer manipulation, for any prefix and digest of the right lengths. */
  method Pad(k: nat, prefix: Bytes, hashed: Bytes) returns (em: array<Byte>)
    requires k >= |prefix| + |hashed| >= 2
    ensures em[..] == Lead(k - |prefix| - |hashed|) + (prefix + hashed)
  {
    hide Lead;
    var tLen := |prefix| + |hashed|;
    em := FillLead(k, tLen);
    ghost var filled := em[..];
    CopyInto(em, k - tLen, prefix);
    ghost var half := em[..];
    CopyInto(em, k - |hashed|, hashed);
    CopiedTwice(filled, half, em[..], k - tLen, prefix, hashed);
  }

  /** The loop that fills in 0xff between the leading bytes and the zero before T. */
  method FillLead(k: nat, tLen: nat) returns (em: array<Byte>)
    requires k >= tLen >= 2
    ensures fresh(em) && em.Length == k && em[..k - tLen] == Lead(k - tLen)
  {
    hide Lead;
    em := new Byte[k](i => 0);
    em[1] := 1;
    var i := 2;
    while i < k - tLen - 1
      invariant 2 <= i && (i == 2 || i <= k - tLen - 1)
      invariant em[0] == 0 && em[1] == 1
      invariant forall j :: 2 <= j < i ==> em[j] == 0xff
      invariant forall j :: i <= j < k ==> em[j] == 0
    {
      em[i] := 0xff;
      i := i + 1;
    }
    FilledIsLead(em[..], k - tLen);
    assert em[..][..k - tLen] == em[..k - tLen];
  }

  lemma CopiedTwice(filled: Bytes, half: Bytes, em: Bytes, at: nat, prefix: Bytes, hashed: Bytes)
    requires |filled| == at + |prefix| + |hashed|
    requires half == filled[..at] + prefix + filled[at + |prefix|..]
    requires em == half[..at + |prefix|] + hashed + half[at + |prefix| + |hashed|..]
    ensures em == filled[..at] + (prefix + hashed)
  {
    assert half[..at + |prefix|] == filled[..at] + prefix;
    assert half[at + |prefix| + |hashed|..] == [];
  }

  /** What the loop leaves before T. */
  lemma FilledIsLead(em: Bytes, m: nat)
    requires 2 <= |em| && m <= |em| && em[0] == 0 && em[1] == 1
    requires forall j :: 2 <= j < m - 1 ==> em[j] == 0xff
    requires m >= 3 ==> em[m - 1] == 0
    ensures em[..m] == Lead(m)
  {}

  /** copy(em[at:], src). */
  method CopyInto(em: array<Byte>, at: nat, src: Bytes)
    requires at + |src| <= em.Length
    modifies em
    ensures em[..] == old(em[..at]) + src + old(em[at + |src|..])
  {
    forall j | 0 <= j < |src| {
      em[at + j] := src[j];
    }
  }

  /** A padded identity read as an integer is below every modulus of k bytes. */
  lemma PaddedBelowModulus(sha256: Sha256, k: nat, data: Bytes, n: nat)
    requires k > T_LEN && Pow256(k - 1) <= n
    ensures ToNat(Padded(sha256, k, data)) < n
  {
    hide DigestInfo, Lead, ToNat, Pow256;
    var lead, t := Lead(k - T_LEN), DigestInfo(sha256, data);
    assert |lead| + |t| == k;
    LedByZero(lead, t, k);
  }

  lemma LedByZero(lead: Bytes, t: Bytes, k: nat)
    requires lead != [] && lead[0] == 0 && |lead| + |t| == k
    ensures ToNat(lead + t) < Pow256(k - 1)
  {
    hide ToNat, Pow256;
    LeadingZero(lead + t);
  }
}
