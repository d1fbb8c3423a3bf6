/** Unpadded base64url with strict decoding (sections 3.5 and 5 of RFC 4648), as Go performs it. */
module Base64Url {
  import opened Common
  import opened ByteStrings

  const LF: Byte := 10
  const CR: Byte := 13

  type Sextet = v: nat | v < 64

  /** A-Z, a-z, 0-9, '-' and '_'. */
  function Symbol(v: Sextet): (c: Byte)
    ensures SextetOf(c) == Some(v)
    ensures c != LF && c != CR
  {
    if v < 26 then 65 + v
    else if v < 52 then 97 + (v - 26)
    else if v < 62 then 48 + (v - 52)
    else if v == 62 then 45
    else 95
  }

  function SextetOf(c: Byte): Option<Sextet> {
    if 65 <= c <= 90 then Some(c - 65)
    else if 97 <= c <= 122 then Some(c - 97 + 26)
    else if 48 <= c <= 57 then Some(c - 48 + 52)
    else if c == 45 then Some(62)
    else if c == 95 then Some(63)
    else None
  }

  lemma SymbolOfSextet(c: Byte)
    requires SextetOf(c).Some?
    ensures Symbol(SextetOf(c).value) == c
  {}

  /** The four sextets of a group of three bytes. */
  function First(a: Byte): Sextet { a / 4 }
  function Second(a: Byte, b: Byte): Sextet { a % 4 * 16 + b / 16 }
  function Third(b: Byte, c: Byte): Sextet { b % 16 * 4 + c / 64 }
  function Fourth(c: Byte): Sextet { c % 64 }

  /** The three bytes of a group of four sextets. */
  function High(v: Sextet, w: Sextet): Byte { v * 4 + w / 16 }
  function Middle(w: Sextet, x: Sextet): Byte { w % 16 * 16 + x / 4 }
  function Low(x: Sextet, y: Sextet): Byte { x % 4 * 64 + y }

  function Encode(bs: Bytes): Bytes {
    if |bs| == 0 then []
    else if |bs| == 1 then [Symbol(First(bs[0])), Symbol(Second(bs[0], 0))]
    else if |bs| == 2 then
      [Symbol(First(bs[0])), Symbol(Second(bs[0], bs[1])), Symbol(Third(bs[1], 0))]
    else
      EncodeGroup(bs[0], bs[1], bs[2]) + Encode(bs[3..])
  }

  function EncodeGroup(a: Byte, b: Byte, c: Byte): Bytes {
    [Symbol(First(a)), Symbol(Second(a, b)), Symbol(Third(b, c)), Symbol(Fourth(c))]
  }

  /** Go's decoders pass over line ends, even in strict mode. */
  function StripNewlines(s: Bytes): Bytes {
    if s == [] then []
    else if s[0] == LF || s[0] == CR then StripNewlines(s[1..])
    else [s[0]] + StripNewlines(s[1..])
  }

  function Decode(s: Bytes): Option<Bytes> {
    DecodeStrict(StripNewlines(s))
  }

  /** Decoding of whole groups of four, then a tail whose unused bits must be zero. */
  function DecodeStrict(s: Bytes): Option<Bytes> {
    if |s| == 0 then Some([])
    else if |s| == 1 then None
    else if |s| == 2 then
      var v, w := SextetOf(s[0]), SextetOf(s[1]);
      if v.None? || w.None? || w.value % 16 != 0 then None
      else Some([High(v.value, w.value)])
    else if |s| == 3 then
      var v, w, x := SextetOf(s[0]), SextetOf(s[1]), SextetOf(s[2]);
      if v.None? || w.None? || x.None? || x.value % 4 != 0 then None
      else Some([High(v.value, w.value), Middle(w.value, x.value)])
    else
      var v, w, x, y := SextetOf(s[0]), SextetOf(s[1]), SextetOf(s[2]), SextetOf(s[3]);
      var rest := DecodeStrict(s[4..]);
      if v.None? || w.None? || x.None? || y.None? || rest.None? then None
      else Some(DecodeGroup(v.value, w.value, x.value, y.value) + rest.value)
  }

  function DecodeGroup(v: Sextet, w: Sextet, x: Sextet, y: Sextet): Bytes {
    [High(v, w), Middle(w, x), Low(x, y)]
  }

  /** Only alphabet characters. */
  predicate Canonical(s: Bytes) {
    forall i :: 0 <= i < |s| ==> SextetOf(s[i]).Some?
  }

  lemma {:induction false} EncodeCanonical(bs: Bytes)
    ensures Canonical(Encode(bs))
  {
    if |bs| >= 3 {
      EncodeCanonical(bs[3..]);
    }
  }

  lemma {:induction false} StripCanonical(s: Bytes)
    requires LF !in s && CR !in s
    ensures StripNewlines(s) == s
  {
    if s != [] {
      StripCanonical(s[1..]);
      assert s == [s[0]] + s[1..];
    }
  }

  lemma {:induction false} StripMembers(s: Bytes, b: Byte)
    ensures b in StripNewlines(s) <==> b in s && b != LF && b != CR
  {
    if s != [] {
      StripMembers(s[1..], b);
      assert s == [s[0]] + s[1..];
    }
  }

  lemma BytesOfSextets(a: Byte, b: Byte, c: Byte)
    ensures High(First(a), Second(a, b)) == a
    ensures Middle(Second(a, b), Third(b, c)) == b
    ensures Low(Third(b, c), Fourth(c)) == c
  {}

  lemma SextetsOfBytes(v: Sextet, w: Sextet, x: Sextet, y: Sextet)
    ensures First(High(v, w)) == v
    ensures Second(High(v, w), Middle(w, x)) == w
    ensures w % 16 == 0 ==> Second(High(v, w), 0) == w
    ensures Third(Middle(w, x), Low(x, y)) == x
    ensures x % 4 == 0 ==> Third(Middle(w, x), 0) == x
    ensures Fourth(Low(x, y)) == y
  {}

  lemma {:induction false} DecodeStrictEncode(bs: Bytes)
    ensures DecodeStrict(Encode(bs)) == Some(bs)
  {
    if |bs| == 0 {
    } else if |bs| == 1 {
      DecodeEncodeOne(bs);
    } else if |bs| == 2 {
      DecodeEncodeTwo(bs);
    } else {
      DecodeStrictEncode(bs[3..]);
      DecodeEncodeGroup(bs);
    }
  }

  lemma DecodeEncodeOne(bs: Bytes)
    requires |bs| == 1
    ensures DecodeStrict(Encode(bs)) == Some(bs)
  {
    var v, w := First(bs[0]), Second(bs[0], 0);
    assert High(v, w) == bs[0] && w % 16 == 0;
    assert SextetOf(Symbol(v)) == Some(v) && SextetOf(Symbol(w)) == Some(w);
    assert bs == [bs[0]];
  }

  lemma DecodeEncodeTwo(bs: Bytes)
    requires |bs| == 2
    ensures DecodeStrict(Encode(bs)) == Some(bs)
  {
    var v, w, x := First(bs[0]), Second(bs[0], bs[1]), Third(bs[1], 0);
    assert High(v, w) == bs[0] && Middle(w, x) == bs[1] && x % 4 == 0;
    assert SextetOf(Symbol(v)) == Some(v) && SextetOf(Symbol(w)) == Some(w) && SextetOf(Symbol(x)) == Some(x);
    assert bs == [bs[0], bs[1]];
  }

  lemma GroupBack(a: Byte, b: Byte, c: Byte)
    ensures DecodeGroup(First(a), Second(a, b), Third(b, c), Fourth(c)) == [a, b, c]
  {
    BytesOfSextets(a, b, c);
  }

  lemma DecodeStep(v: Sextet, w: Sextet, x: Sextet, y: Sextet, tail: Bytes, rest: Bytes)
    requires DecodeStrict(tail) == Some(rest)
    ensures DecodeStrict([Symbol(v), Symbol(w), Symbol(x), Symbol(y)] + tail)
         == Some(DecodeGroup(v, w, x, y) + rest)
  {
    var s := [Symbol(v), Symbol(w), Symbol(x), Symbol(y)] + tail;
    assert s[4..] == tail;
  }

  lemma DecodeEncodeGroup(bs: Bytes)
    requires |bs| >= 3 && DecodeStrict(Encode(bs[3..])) == Some(bs[3..])
    ensures DecodeStrict(Encode(bs)) == Some(bs)
  {
    FirstThree(bs);
    var a, b, c := bs[0], bs[1], bs[2];
    DecodeStep(First(a), Second(a, b), Third(b, c), Fourth(c), Encode(bs[3..]), bs[3..]);
    GroupBack(a, b, c);
  }

  lemma FirstThree(bs: Bytes)
    requires |bs| >= 3
    ensures bs == [bs[0], bs[1], bs[2]] + bs[3..]
  {}

  lemma {:induction false} EncodeDecodeStrict(s: Bytes)
    requires DecodeStrict(s).Some?
    ensures Encode(DecodeStrict(s).value) == s
  {
    if |s| == 0 {
    } else if |s| == 2 {
      EncodeDecodePair(s);
    } else if |s| == 3 {
      EncodeDecodeTriple(s);
    } else {
      EncodeDecodeStrict(s[4..]);
      EncodeDecodeGroup(s);
    }
  }

  lemma EncodeDecodePair(s: Bytes)
    requires |s| == 2 && DecodeStrict(s).Some?
    ensures Encode(DecodeStrict(s).value) == s
  {
    SymbolOfSextet(s[0]);
    SymbolOfSextet(s[1]);
    var v, w := SextetOf(s[0]).value, SextetOf(s[1]).value;
    var a := High(v, w);
    assert First(a) == v && Second(a, 0) == w;
    assert DecodeStrict(s).value == [a];
    assert s == [s[0], s[1]];
  }

  lemma EncodeDecodeTriple(s: Bytes)
    requires |s| == 3 && DecodeStrict(s).Some?
    ensures Encode(DecodeStrict(s).value) == s
  {
    SymbolOfSextet(s[0]);
    SymbolOfSextet(s[1]);
    SymbolOfSextet(s[2]);
    SextetsOfBytes(SextetOf(s[0]).value, SextetOf(s[1]).value, SextetOf(s[2]).value, 0);
  }

  lemma EncodeDecodeGroup(s: Bytes)
    requires |s| >= 4 && DecodeStrict(s).Some?
    requires Encode(DecodeStrict(s[4..]).value) == s[4..]
    ensures Encode(DecodeStrict(s).value) == s
  {
    var v, w, x, y := SextetOf(s[0]).value, SextetOf(s[1]).value, SextetOf(s[2]).value, SextetOf(s[3]).value;
    SymbolOfSextet(s[0]);
    SymbolOfSextet(s[1]);
    SymbolOfSextet(s[2]);
    SymbolOfSextet(s[3]);
    SextetsOfBytes(v, w, x, y);
    var d, rest := DecodeStrict(s).value, DecodeStrict(s[4..]).value;
    assert d == [High(v, w), Middle(w, x), Low(x, y)] + rest;
    assert d[3..] == rest;
    assert EncodeGroup(d[0], d[1], d[2]) == [s[0], s[1], s[2], s[3]];
    assert s == [s[0], s[1], s[2], s[3]] + s[4..];
  }

  /** Decoding inverts encoding. */
  lemma DecodeEncode(bs: Bytes)
    ensures Decode(Encode(bs)) == Some(bs)
  {
    EncodeCanonical(bs);
    StripCanonical(Encode(bs));
    DecodeStrictEncode(bs);
  }

  /** What decodes is the encoding of its decoding, up to line ends: no two line-end-free texts decode alike. */
  lemma EncodeDecode(s: Bytes)
    requires Decode(s).Some?
    ensures Encode(Decode(s).value) == StripNewlines(s)
    ensures Encode(Decode(s).value) == s <==> LF !in s && CR !in s
  {
    EncodeDecodeStrict(StripNewlines(s));
    EncodeCanonical(Decode(s).value);
    if LF !in s && CR !in s {
      StripCanonical(s);
    } else {
      StripMembers(s, LF);
      StripMembers(s, CR);
    }
  }

  /** A decodable text holds nothing but alphabet characters and line ends. */
  lemma DecodableCharacters(s: Bytes, b: Byte)
    requires Decode(s).Some? && b in s
    ensures SextetOf(b).Some? || b == LF || b == CR
  {
    EncodeDecode(s);
    EncodeCanonical(Decode(s).value);
    StripMembers(s, b);
  }

  // ---------------------------------------------------------------------------
  // What a text stands for
  // ---------------------------------------------------------------------------

  /** The URL and filename safe alphabet, table 2 of RFC 4648. */
  function Alphabet(): (symbols: string)
    ensures |symbols| == 64
  {
    Run('A', 26) + Run('a', 26) + Run('0', 10) + "-_"
  }

  /** n characters in a row. */
  function Run(first: char, n: nat): (symbols: string)
    requires first as int + n < 128
    ensures |symbols| == n
  {
    seq(n, i requires 0 <= i < n => (first as int + i) as char)
  }

  /** Symbols and sextets are the table's, and nothing else is a symbol. */
  lemma AlphabetExactly(v: Sextet, c: Byte)
    ensures Symbol(v) == Alphabet()[v] as int
    ensures SextetOf(c) == Some(v) <==> Alphabet()[v] as int == c
  {}

  /** The value of a text in base 64 after the digits of acc. */
  function ValueFrom(acc: nat, s: Bytes): nat
    requires Canonical(s)
    decreases |s|
  {
    if s == [] then acc else ValueFrom(acc * 64 + SextetOf(s[0]).value, s[1..])
  }

  /** The zero bits at the end of the last symbol, as a factor. */
  function Slack(length: nat): nat {
    if length % 3 == 0 then 1 else if length % 3 == 1 then 16 else 4
  }

  /** The value after three more bytes. */
  function AfterThree(acc: nat, a: Byte, b: Byte, c: Byte): nat {
    ((acc * 256 + a) * 256 + b) * 256 + c
  }

  lemma {:induction false} EncodeFrom(acc: nat, bs: Bytes)
    ensures Canonical(Encode(bs))
    ensures ValueFrom(acc, Encode(bs)) == NatFrom(acc, bs) * Slack(|bs|)
    decreases |bs|
  {
    hide Encode, ValueFrom, NatFrom, AfterThree, Canonical;
    if |bs| == 0 {
      NothingFrom(acc);
    } else if |bs| == 1 {
      EncodeOne(acc, bs[0]);
      assert bs == [bs[0]];
    } else if |bs| == 2 {
      EncodeTwo(acc, bs[0], bs[1]);
      assert bs == [bs[0], bs[1]];
    } else {
      EncodeFrom(AfterThree(acc, bs[0], bs[1], bs[2]), bs[3..]);
      EncodeThree(acc, bs[0], bs[1], bs[2], bs[3..]);
      assert bs == [bs[0], bs[1], bs[2]] + bs[3..];
    }
  }

  lemma NothingFrom(acc: nat)
    ensures Encode([]) == [] && Canonical([]) && ValueFrom(acc, []) == NatFrom(acc, []) == acc
  {}

  lemma EncodeOne(acc: nat, a: Byte)
    ensures Canonical(Encode([a])) && ValueFrom(acc, Encode([a])) == NatFrom(acc, [a]) * 16
  {
    hide Symbol, SextetOf, ValueFrom, NatFrom, First, Second, Canonical;
    var v, w := First(a), Second(a, 0);
    NothingFrom((acc * 64 + v) * 64 + w);
    NothingFrom(acc * 256 + a);
    SymbolFrom(acc * 64 + v, w, []);
    SymbolFrom(acc, v, [Symbol(w)] + []);
    assert Encode([a]) == [Symbol(v)] + ([Symbol(w)] + []);
    NatFromStep(acc, a, []);
    assert [a] == [a] + [];
    TwoSextets(acc, a);
  }

  lemma TwoSextets(acc: nat, a: Byte)
    ensures (acc * 64 + First(a)) * 64 + Second(a, 0) == (acc * 256 + a) * 16
  {}

  lemma EncodeTwo(acc: nat, a: Byte, b: Byte)
    ensures Canonical(Encode([a, b])) && ValueFrom(acc, Encode([a, b])) == NatFrom(acc, [a, b]) * 4
  {
    hide Symbol, SextetOf, ValueFrom, NatFrom, First, Second, Third, Canonical;
    var v, w, x := First(a), Second(a, b), Third(b, 0);
    NothingFrom(((acc * 64 + v) * 64 + w) * 64 + x);
    NothingFrom((acc * 256 + a) * 256 + b);
    SymbolFrom((acc * 64 + v) * 64 + w, x, []);
    SymbolFrom(acc * 64 + v, w, [Symbol(x)] + []);
    SymbolFrom(acc, v, [Symbol(w)] + ([Symbol(x)] + []));
    assert Encode([a, b]) == [Symbol(v)] + ([Symbol(w)] + ([Symbol(x)] + []));
    NatFromStep(acc, a, [b] + []);
    NatFromStep(acc * 256 + a, b, []);
    assert [a, b] == [a] + ([b] + []);
    ThreeSextets(acc, a, b);
  }

  lemma ThreeSextets(acc: nat, a: Byte, b: Byte)
    ensures ((acc * 64 + First(a)) * 64 + Second(a, b)) * 64 + Third(b, 0) == ((acc * 256 + a) * 256 + b) * 4
  {}

  lemma EncodeThree(acc: nat, a: Byte, b: Byte, c: Byte, rest: Bytes)
    requires Canonical(Encode(rest))
    ensures Canonical(Encode([a, b, c] + rest))
    ensures ValueFrom(acc, Encode([a, b, c] + rest)) == ValueFrom(AfterThree(acc, a, b, c), Encode(rest))
    ensures NatFrom(acc, [a, b, c] + rest) == NatFrom(AfterThree(acc, a, b, c), rest)
  {
    hide Symbol, SextetOf, ValueFrom, NatFrom, AfterThree, EncodeGroup, Canonical;
    GroupFrom(acc, a, b, c, Encode(rest));
    ThreeFrom(acc, a, b, c, rest);
    assert ([a, b, c] + rest)[3..] == rest;
  }

  lemma GroupFrom(acc: nat, a: Byte, b: Byte, c: Byte, rest: Bytes)
    requires Canonical(rest)
    ensures Canonical(EncodeGroup(a, b, c) + rest)
    ensures ValueFrom(acc, EncodeGroup(a, b, c) + rest) == ValueFrom(AfterThree(acc, a, b, c), rest)
  {
    hide Symbol, SextetOf, ValueFrom, First, Second, Third, Fourth, Canonical, AfterThree;
    var v, w, x, y := First(a), Second(a, b), Third(b, c), Fourth(c);
    SymbolFrom(((acc * 64 + v) * 64 + w) * 64 + x, y, rest);
    SymbolFrom((acc * 64 + v) * 64 + w, x, [Symbol(y)] + rest);
    SymbolFrom(acc * 64 + v, w, [Symbol(x)] + ([Symbol(y)] + rest));
    SymbolFrom(acc, v, [Symbol(w)] + ([Symbol(x)] + ([Symbol(y)] + rest)));
    assert EncodeGroup(a, b, c) + rest == [Symbol(v)] + ([Symbol(w)] + ([Symbol(x)] + ([Symbol(y)] + rest)));
    FourSextets(acc, a, b, c);
  }

  lemma FourSextets(acc: nat, a: Byte, b: Byte, c: Byte)
    ensures (((acc * 64 + First(a)) * 64 + Second(a, b)) * 64 + Third(b, c)) * 64 + Fourth(c)
         == AfterThree(acc, a, b, c)
  {}

  lemma SymbolFrom(acc: nat, v: Sextet, rest: Bytes)
    requires Canonical(rest)
    ensures Canonical([Symbol(v)] + rest) && ValueFrom(acc, [Symbol(v)] + rest) == ValueFrom(acc * 64 + v, rest)
  {
    hide Symbol, SextetOf;
    assert ([Symbol(v)] + rest)[1..] == rest;
  }

  lemma ThreeFrom(acc: nat, a: Byte, b: Byte, c: Byte, rest: Bytes)
    ensures NatFrom(acc, [a, b, c] + rest) == NatFrom(AfterThree(acc, a, b, c), rest)
  {
    hide NatFrom;
    NatFromStep(acc, a, [b] + ([c] + rest));
    NatFromStep(acc * 256 + a, b, [c] + rest);
    NatFromStep((acc * 256 + a) * 256 + b, c, rest);
    assert [a, b, c] + rest == [a] + ([b] + ([c] + rest));
  }

  /** Read in base 64, the encoding is the bytes read in base 256, filled up with zero bits to a whole symbol. */
  lemma EncodeValue(bs: Bytes)
    ensures Canonical(Encode(bs)) && ValueFrom(0, Encode(bs)) == ToNat(bs) * Slack(|bs|)
    ensures |Encode(bs)| == (8 * |bs| + 5) / 6
  {
    EncodeFrom(0, bs);
    NatFromIsToNat(bs);
    EncodedLength(bs);
  }

  lemma {:induction false} EncodedLength(bs: Bytes)
    ensures |Encode(bs)| == (8 * |bs| + 5) / 6
  {
    hide Symbol;
    if |bs| >= 3 {
      EncodedLength(bs[3..]);
    }
  }
}
