/** Session IDs: a keyed hash of a counter and the clock (cosigner/authidissuer.go). */
module AuthIds {
  import opened ByteStrings
  import opened Jose

  const TWO_TO_THE_64: nat := 0x1_0000_0000_0000_0000

  type Uint64 = x: nat | x < 0x1_0000_0000_0000_0000

  /** The inputs the issuer hashes all have sixteen bytes. */
  const INPUT_LENGTH: nat := 16

  /** Free of collisions on inputs of sixteen bytes, with text as output. */
  ghost predicate MacLike(f: Bytes -> Bytes) {
    && (forall x, y :: |x| == |y| == INPUT_LENGTH && f(x) == f(y) ==> x == y)
    && (forall x :: Ascii(f(x)))
  }

  /** HMAC under the issuer's key, in hexadecimal. */
  type Mac = f: Bytes -> Bytes | MacLike(f) witness (HexIsMacLike(); Hex)

  function HexDigit(n: nat): Byte
    requires n < 16
  {
    if n < 10 then 48 + n else 87 + n
  }

  /** hex.EncodeToString. */
  function Hex(x: Bytes): (r: Bytes)
    ensures |r| == 2 * |x| && Ascii(r)
  {
    if x == [] then [] else [HexDigit(x[0] / 16), HexDigit(x[0] % 16)] + Hex(x[1..])
  }

  lemma DigitsInjective(a: Byte, b: Byte)
    requires HexDigit(a / 16) == HexDigit(b / 16) && HexDigit(a % 16) == HexDigit(b % 16)
    ensures a == b
  {}

  lemma HexSplit(x: Bytes)
    requires x != []
    ensures Hex(x)[0] == HexDigit(x[0] / 16) && Hex(x)[1] == HexDigit(x[0] % 16) && Hex(x)[2..] == Hex(x[1..])
  {
    hide HexDigit;
  }

  lemma {:induction false} HexInjective(x: Bytes, y: Bytes)
    requires Hex(x) == Hex(y)
    ensures x == y
    decreases |x|
  {
    hide HexDigit;
    assert |x| == |y|;
    if x != [] {
      HexSplit(x);
      HexSplit(y);
      DigitsInjective(x[0], y[0]);
      HexInjective(x[1..], y[1..]);
      assert x == [x[0]] + x[1..] && y == [y[0]] + y[1..];
    }
  }

  lemma HexIsMacLike()
    ensures MacLike(Hex)
  {
    forall x, y | Hex(x) == Hex(y)
      ensures x == y
    {
      HexInjective(x, y);
    }
  }

  function FromLittleEndian(bs: Bytes): nat {
    if bs == [] then 0 else bs[0] + 256 * FromLittleEndian(bs[1..])
  }

  function LittleEndian(v: nat, k: nat): (bs: Bytes)
    requires v < Pow256(k)
    ensures |bs| == k && FromLittleEndian(bs) == v
  {
    if k == 0 then [] else [v % 256] + LittleEndian(v / 256, k - 1)
  }

  lemma EightBytes()
    ensures Pow256(8) == TWO_TO_THE_64
  {
    assert Pow256(4) == 0x1_0000_0000;
    assert Pow256(8) == 256 * 256 * 256 * 256 * Pow256(4);
  }

  function IterAndTime(iter: Uint64, timeNow: Uint64): (bs: Bytes)
    ensures |bs| == 16
  {
    EightBytes();
    LittleEndian(iter, 8) + LittleEndian(timeNow, 8)
  }

  /** The counter before the n-th ID is n, the counter used for it the next one, both modulo 2^64. */
  function AuthId(mac: Mac, n: nat, timeNow: Uint64): Bytes {
    mac(IterAndTime((n + 1) % TWO_TO_THE_64, timeNow))
  }

  /** The hash is taken over the new count and the clock, each in eight bytes, least significant first. */
  lemma AuthIdInput(mac: Mac, n: nat, timeNow: Uint64) returns (input: Bytes)
    ensures AuthId(mac, n, timeNow) == mac(input) && |input| == 16
    ensures FromLittleEndian(input[..8]) == (n + 1) % TWO_TO_THE_64 && FromLittleEndian(input[8..]) == timeNow
  {
    hide LittleEndian, FromLittleEndian;
    EightBytes();
    var iter := (n + 1) % TWO_TO_THE_64;
    input := LittleEndian(iter, 8) + LittleEndian(timeNow, 8);
    assert input[..8] == LittleEndian(iter, 8) && input[8..] == LittleEndian(timeNow, 8);
  }

  lemma AuthIdAscii(mac: Mac, n: nat, timeNow: Uint64)
    ensures Ascii(AuthId(mac, n, timeNow))
  {
    hide IterAndTime, Ascii;
  }

  class AuthIdIssuer {
    var authIdIter: Uint64
    const mac: Mac

    constructor (mac: Mac)
      ensures authIdIter == 0 && this.mac == mac
    {
      authIdIter := 0;
      this.mac := mac;
    }

    method CreateAuthId(timeNow: Uint64) returns (authId: Bytes)
      modifies this
      ensures authIdIter == (old(authIdIter) + 1) % TWO_TO_THE_64
      ensures authId == AuthId(mac, old(authIdIter), timeNow)
    {
      hide LittleEndian, FromLittleEndian, Pow256;
      authIdIter := (authIdIter + 1) % TWO_TO_THE_64;
      EightBytes();
      var iterAndTime: Bytes := [];
      iterAndTime := iterAndTime + LittleEndian(authIdIter, 8);
      iterAndTime := iterAndTime + LittleEndian(timeNow, 8);
      assert iterAndTime == IterAndTime(authIdIter, timeNow);
      authId := mac(iterAndTime);
    }
  }

  lemma IterAndTimeInjective(i: Uint64, t: Uint64, j: Uint64, u: Uint64)
    requires IterAndTime(i, t) == IterAndTime(j, u)
    ensures i == j && t == u
  {
    EightBytes();
    assert IterAndTime(i, t)[..8] == LittleEndian(i, 8) && IterAndTime(i, t)[8..] == LittleEndian(t, 8);
    assert IterAndTime(j, u)[..8] == LittleEndian(j, 8) && IterAndTime(j, u)[8..] == LittleEndian(u, 8);
  }

  lemma NextCounter(n: nat)
    ensures (n + 1) % TWO_TO_THE_64 == if n % TWO_TO_THE_64 == TWO_TO_THE_64 - 1 then 0 else n % TWO_TO_THE_64 + 1
  {}

  lemma MacInjective(mac: Mac, x: Bytes, y: Bytes)
    requires |x| == |y| == INPUT_LENGTH && mac(x) == mac(y)
    ensures x == y
  {
    hide Ascii;
  }

  /** Two IDs are equal if and only if the clock read the same and 2^64 divides the distance of their numbers. */
  lemma AuthIdsCollide(mac: Mac, n: nat, t: Uint64, m: nat, u: Uint64)
    ensures AuthId(mac, n, t) == AuthId(mac, m, u) <==> t == u && n % TWO_TO_THE_64 == m % TWO_TO_THE_64
  {
    hide IterAndTime, Ascii;
    NextCounter(n);
    NextCounter(m);
    var i, j := (n + 1) % TWO_TO_THE_64, (m + 1) % TWO_TO_THE_64;
    if mac(IterAndTime(i, t)) == mac(IterAndTime(j, u)) {
      MacInjective(mac, IterAndTime(i, t), IterAndTime(j, u));
      IterAndTimeInjective(i, t, j, u);
    }
  }

  /** No two numbers that agree modulo 2^64 have the same clock reading. */
  predicate NoCollision(times: seq<Uint64>) {
    forall i, j :: 0 <= i < j < |times| && times[i] == times[j] ==> i % TWO_TO_THE_64 != j % TWO_TO_THE_64
  }

  lemma PrefixNoCollision(times: seq<Uint64>, longer: seq<Uint64>)
    requires times <= longer && NoCollision(longer)
    ensures NoCollision(times)
  {}

  /** Up to 2^64 clock readings never collide. */
  lemma FewNoCollision(times: seq<Uint64>)
    requires |times| <= TWO_TO_THE_64
    ensures NoCollision(times)
  {}

  /** Up to 2^64 IDs are distinct, whatever the clock reads. */
  lemma AuthIdsDistinct(mac: Mac, n: nat, t: Uint64, m: nat, u: Uint64)
    requires n < m < TWO_TO_THE_64
    ensures AuthId(mac, n, t) != AuthId(mac, m, u)
  {
    hide AuthId;
    AuthIdsCollide(mac, n, t, m, u);
  }
}
