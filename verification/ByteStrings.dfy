/** Byte strings: fixed-width integer encodings, and splitting and joining at a separator. */
module ByteStrings {
  import opened Common

  type Byte = b: nat | b < 256
  type Bytes = seq<Byte>

  const DOT: Byte := 46
  const COLON: Byte := 58

  // ---------------------------------------------------------------------------
  // Big-endian integers (big.Int.SetBytes, big.Int.FillBytes, bigmod.Nat.Bytes)
  // ---------------------------------------------------------------------------

  function Pow256(k: nat): (p: nat)
    ensures p > 0
  {
    if k == 0 then 1 else 256 * Pow256(k - 1)
  }

  lemma {:induction false} Pow256Monotone(j: nat, k: nat)
    requires j <= k
    ensures Pow256(j) <= Pow256(k)
    decreases k
  {
    if j < k {
      Pow256Monotone(j, k - 1);
    }
  }

  /** The integer whose big-endian form is bs. */
  function ToNat(bs: Bytes): nat {
    if bs == [] then 0 else ToNat(bs[..|bs| - 1]) * 256 + bs[|bs| - 1]
  }

  /** The big-endian form of x in exactly k bytes. */
  function ToBytes(x: nat, k: nat): (bs: Bytes)
    requires x < Pow256(k)
    ensures |bs| == k && ToNat(bs) == x
  {
    if k == 0 then [] else ToBytes(x / 256, k - 1) + [x % 256]
  }

  lemma {:induction false} ToNatBound(bs: Bytes)
    ensures ToNat(bs) < Pow256(|bs|)
  {
    if bs != [] {
      ToNatBound(bs[..|bs| - 1]);
    }
  }

  lemma {:induction false} ToBytesToNat(bs: Bytes)
    ensures ToNat(bs) < Pow256(|bs|)
    ensures ToBytes(ToNat(bs), |bs|) == bs
  {
    ToNatBound(bs);
    if bs != [] {
      var init, last := bs[..|bs| - 1], bs[|bs| - 1];
      ToBytesToNat(init);
      LastByte(ToNat(init), last);
      assert bs == init + [last];
    }
  }

  lemma LastByte(x: nat, b: Byte)
    ensures (x * 256 + b) / 256 == x && (x * 256 + b) % 256 == b
  {}

  lemma {:induction false} NonzeroByte(bs: Bytes, i: nat)
    requires i < |bs| && bs[i] > 0
    ensures ToNat(bs) > 0
  {
    if i < |bs| - 1 {
      NonzeroByte(bs[..|bs| - 1], i);
    }
  }

  /** A leading zero byte leaves the value alone, so the value fits one byte less. */
  lemma {:induction false} LeadingZero(bs: Bytes)
    requires bs != [] && bs[0] == 0
    ensures ToNat(bs) == ToNat(bs[1..]) < Pow256(|bs| - 1)
  {
    ToNatBound(bs[1..]);
    if |bs| > 1 {
      assert bs[..|bs| - 1][1..] == bs[1..][..|bs| - 2];
      LeadingZero(bs[..|bs| - 1]);
    }
  }

  /** The big-endian value of bs after the digits of acc. */
  function NatFrom(acc: nat, bs: Bytes): nat
    decreases |bs|
  {
    if bs == [] then acc else NatFrom(acc * 256 + bs[0], bs[1..])
  }

  lemma NatFromStep(acc: nat, b: Byte, rest: Bytes)
    ensures NatFrom(acc, [b] + rest) == NatFrom(acc * 256 + b, rest)
  {
    assert ([b] + rest)[1..] == rest;
  }

  lemma {:induction false} NatFromSnoc(acc: nat, bs: Bytes, b: Byte)
    ensures NatFrom(acc, bs + [b]) == NatFrom(acc, bs) * 256 + b
    decreases |bs|
  {
    if bs == [] {
      assert (bs + [b])[1..] == [];
    } else {
      assert (bs + [b])[1..] == bs[1..] + [b];
      NatFromSnoc(acc * 256 + bs[0], bs[1..], b);
    }
  }

  /** Both ways of reading a number agree. */
  lemma {:induction false} NatFromIsToNat(bs: Bytes)
    ensures NatFrom(0, bs) == ToNat(bs)
  {
    if bs != [] {
      NatFromIsToNat(bs[..|bs| - 1]);
      NatFromSnoc(0, bs[..|bs| - 1], bs[|bs| - 1]);
      assert bs == bs[..|bs| - 1] + [bs[|bs| - 1]];
    }
  }

  /** The length of i blocks of k bytes. */
  function Blocks(i: nat, k: nat): nat {
    if i == 0 then 0 else Blocks(i - 1, k) + k
  }

  lemma {:induction false} BlocksIsProduct(i: nat, k: nat)
    ensures Blocks(i, k) == i * k
  {
    if i > 0 {
      BlocksIsProduct(i - 1, k);
    }
  }

  /** Every x is small enough for k bytes. */
  ghost predicate Fit(xs: seq<nat>, k: nat) {
    forall i :: 0 <= i < |xs| ==> xs[i] < Pow256(k)
  }

  /** Concatenation of the k-byte forms of xs. */
  function Concatenated(xs: seq<nat>, k: nat): (bs: Bytes)
    requires Fit(xs, k)
    ensures |bs| == Blocks(|xs|, k)
  {
    if xs == [] then [] else Concatenated(xs[..|xs| - 1], k) + ToBytes(xs[|xs| - 1], k)
  }

  /** The i-th k-byte block of bs. */
  function Block(bs: Bytes, i: nat, k: nat): (b: Bytes)
    requires Blocks(i + 1, k) <= |bs|
    ensures |b| == k
  {
    bs[Blocks(i, k)..Blocks(i + 1, k)]
  }

  /** Blocks are the slices at multiples of k. */
  lemma BlockIsSlice(bs: Bytes, i: nat, k: nat)
    requires Blocks(i + 1, k) <= |bs|
    ensures i * k <= (i + 1) * k <= |bs| && Block(bs, i, k) == bs[i * k..(i + 1) * k]
  {
    BlocksIsProduct(i, k);
    BlocksIsProduct(i + 1, k);
  }

  lemma {:induction false} BlocksMonotone(i: nat, j: nat, k: nat)
    requires i <= j
    ensures Blocks(i, k) <= Blocks(j, k)
    decreases j
  {
    if i < j {
      BlocksMonotone(i, j - 1, k);
    }
  }

  /** The t blocks of bs, read as integers. */
  function Parsed(bs: Bytes, t: nat, k: nat): (xs: seq<nat>)
    requires |bs| == Blocks(t, k)
    ensures |xs| == t
    decreases t
  {
    if t == 0 then [] else
      Parsed(bs[..Blocks(t - 1, k)], t - 1, k) + [ToNat(Block(bs, t - 1, k))]
  }

  lemma {:induction false} ParsedFit(bs: Bytes, t: nat, k: nat)
    requires |bs| == Blocks(t, k)
    ensures Fit(Parsed(bs, t, k), k)
    decreases t
  {
    if t > 0 {
      ParsedFit(bs[..Blocks(t - 1, k)], t - 1, k);
      ToNatBound(Block(bs, t - 1, k));
    }
  }

  lemma SliceOfPrefix(bs: Bytes, m: nat, lo: nat, hi: nat)
    requires lo <= hi <= m <= |bs|
    ensures bs[..m][lo..hi] == bs[lo..hi]
  {}

  lemma {:induction false} ParsedAt(bs: Bytes, t: nat, k: nat, i: nat)
    requires |bs| == Blocks(t, k) && i < t
    ensures Blocks(i + 1, k) <= |bs|
    ensures Parsed(bs, t, k)[i] == ToNat(Block(bs, i, k))
    decreases t
  {
    hide ToNat;
    BlocksMonotone(i + 1, t, k);
    if i < t - 1 {
      var init := bs[..Blocks(t - 1, k)];
      BlocksMonotone(i + 1, t - 1, k);
      ParsedAt(init, t - 1, k, i);
      SliceOfPrefix(bs, Blocks(t - 1, k), Blocks(i, k), Blocks(i + 1, k));
    }
  }

  lemma ParsedStep(body: Bytes, tail: Bytes, t: nat, k: nat)
    requires |body| == Blocks(t, k) && |tail| == k
    ensures Parsed(body + tail, t + 1, k) == Parsed(body, t, k) + [ToNat(tail)]
  {
    hide ToNat;
    assert (body + tail)[..|body|] == body;
    assert Block(body + tail, t, k) == tail;
  }

  /** Cutting a concatenation back into blocks recovers the integers. */
  lemma {:induction false} ParsedConcatenated(xs: seq<nat>, k: nat)
    requires Fit(xs, k)
    ensures Parsed(Concatenated(xs, k), |xs|, k) == xs
  {
    hide ToNat, ToBytes, Pow256;
    if xs != [] {
      var init, last := xs[..|xs| - 1], xs[|xs| - 1];
      ParsedConcatenated(init, k);
      ParsedStep(Concatenated(init, k), ToBytes(last, k), |init|, k);
      assert xs == init + [last];
    }
  }

  /** Byte strings of the same length with the same blocks are the same. */
  lemma {:induction false} ParsedInjective(bs: Bytes, cs: Bytes, t: nat, k: nat)
    requires |bs| == |cs| == Blocks(t, k) && Parsed(bs, t, k) == Parsed(cs, t, k)
    ensures bs == cs
    decreases t
  {
    hide ToNat, Pow256;
    if t > 0 {
      var m := Blocks(t - 1, k);
      assert Parsed(bs, t, k)[..t - 1] == Parsed(bs[..m], t - 1, k);
      assert Parsed(cs, t, k)[..t - 1] == Parsed(cs[..m], t - 1, k);
      ParsedInjective(bs[..m], cs[..m], t - 1, k);
      assert ToNat(Block(bs, t - 1, k)) == Parsed(bs, t, k)[t - 1] == ToNat(Block(cs, t - 1, k));
      ToBytesToNat(Block(bs, t - 1, k));
      ToBytesToNat(Block(cs, t - 1, k));
      assert bs == bs[..m] + Block(bs, t - 1, k);
      assert cs == cs[..m] + Block(cs, t - 1, k);
    }
  }

  // ---------------------------------------------------------------------------
  // bytes.Cut, bytes.Split and bytes.Join
  // ---------------------------------------------------------------------------

  /** The part before the first separator, and what follows it if there is one. */
  function Cut(s: Bytes, sep: Byte): (r: (Bytes, Option<Bytes>))
    ensures sep !in r.0
    ensures r.1.None? <==> sep !in s
    ensures r.1.None? ==> r.0 == s
    ensures r.1.Some? ==> s == r.0 + [sep] + r.1.value
    ensures |r.0| <= |s| && (r.1.Some? ==> |r.1.value| < |s|)
  {
    if s == [] then ([], None)
    else if s[0] == sep then ([], Some(s[1..]))
    else
      var r := Cut(s[1..], sep);
      assert s == [s[0]] + s[1..];
      ([s[0]] + r.0, r.1)
  }

  lemma {:induction false} CutAt(before: Bytes, sep: Byte, after: Bytes)
    requires sep !in before
    ensures Cut(before + [sep] + after, sep) == (before, Some(after))
  {
    var s := before + [sep] + after;
    if before == [] {
      assert s[1..] == after;
    } else {
      assert s[1..] == before[1..] + [sep] + after;
      CutAt(before[1..], sep, after);
      assert s[0] == before[0] && before == [before[0]] + before[1..];
    }
  }

  ghost predicate Free(parts: seq<Bytes>, sep: Byte) {
    forall i :: 0 <= i < |parts| ==> sep !in parts[i]
  }

  function Join(parts: seq<Bytes>, sep: Byte): Bytes {
    if |parts| == 0 then []
    else if |parts| == 1 then parts[0]
    else parts[0] + [sep] + Join(parts[1..], sep)
  }

  /** All the pieces between separators: at least one, none of which holds the separator. */
  function Split(s: Bytes, sep: Byte): (parts: seq<Bytes>)
    ensures |parts| >= 1 && Free(parts, sep)
    ensures Join(parts, sep) == s
    decreases |s|
  {
    var (before, after) := Cut(s, sep);
    if after.None? then [before]
    else
      var rest := Split(after.value, sep);
      assert ([before] + rest)[1..] == rest;
      [before] + rest
  }

  /** Splitting inverts joining exactly on separator-free parts. */
  lemma {:induction false} SplitJoin(parts: seq<Bytes>, sep: Byte)
    requires |parts| >= 1 && Free(parts, sep)
    ensures Split(Join(parts, sep), sep) == parts
  {
    if |parts| > 1 {
      CutAt(parts[0], sep, Join(parts[1..], sep));
      SplitJoin(parts[1..], sep);
    }
  }

  /** A byte other than the separator occurs in the join just when it occurs in a part. */
  lemma {:induction false} JoinMembers(parts: seq<Bytes>, sep: Byte, b: Byte)
    requires b != sep
    ensures b in Join(parts, sep) <==> exists i :: 0 <= i < |parts| && b in parts[i]
  {
    if |parts| > 1 {
      JoinMembers(parts[1..], sep, b);
      assert forall i :: 1 <= i < |parts| ==> parts[i] == parts[1..][i - 1];
      if b in Join(parts[1..], sep) {
        var i :| 0 <= i < |parts[1..]| && b in parts[1..][i];
        assert b in parts[i + 1];
      }
    }
  }

  /** The compact form of a JWS: three segments separated by dots. */
  function Jwt(protected: Bytes, payload: Bytes, signature: Bytes): Bytes {
    Join([protected, payload, signature], DOT)
  }

  lemma JwtIs(protected: Bytes, payload: Bytes, signature: Bytes)
    ensures Jwt(protected, payload, signature) == protected + [DOT] + payload + [DOT] + signature
  {
    assert [payload, signature][1..] == [signature];
    assert Join([payload, signature], DOT) == payload + [DOT] + Join([signature], DOT);
    assert [protected, payload, signature][1..] == [payload, signature];
    assert Join([protected, payload, signature], DOT) == protected + [DOT] + (payload + [DOT] + signature);
  }

  datatype Segments = Segments(protected: Bytes, payload: Bytes, signature: Bytes)

  /** oidc.SplitCompact and jws.SplitCompact. */
  function SplitCompact(src: Bytes): (r: Option<Segments>)
    ensures r.Some? ==> Jwt(r.value.protected, r.value.payload, r.value.signature) == src
    ensures r.Some? ==> Free([r.value.protected, r.value.payload, r.value.signature], DOT)
  {
    var parts := Split(src, DOT);
    if |parts| != 3 then None
    else
      assert parts == [parts[0], parts[1], parts[2]];
      Some(Segments(parts[0], parts[1], parts[2]))
  }

  lemma SplitCompactJwt(protected: Bytes, payload: Bytes, signature: Bytes)
    requires DOT !in protected && DOT !in payload && DOT !in signature
    ensures SplitCompact(Jwt(protected, payload, signature)) == Some(Segments(protected, payload, signature))
  {
    SplitJoin([protected, payload, signature], DOT);
  }
}
