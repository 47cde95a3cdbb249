/**
 * The standard base64 encoding (section 4 of RFC 4648, with '=' padding) that
 * the outbound PDF mail applies to its attachment and the body reader applies
 * to captured images. The decoder is not used by the program; it is the
 * partner that shows the encoding loses nothing.
 */
module Base64 {
  import opened Wrappers

  /** An octet, as held in a Go []byte. */
  type Byte = x: int | 0 <= x < 256

  /** A 6-bit group value. */
  type Sextet = x: int | 0 <= x < 64

  /** The 64-character alphabet of Table 1 of RFC 4648. */
  function Letter(v: Sextet): (c: char)
    ensures IsLetter(c)
  {
    if v < 26 then 'A' + v as char
    else if v < 52 then 'a' + (v - 26) as char
    else if v < 62 then '0' + (v - 52) as char
    else if v == 62 then '+'
    else '/'
  }

  predicate IsLetter(c: char) {
    ('A' <= c <= 'Z') || ('a' <= c <= 'z') || ('0' <= c <= '9') || c == '+' || c == '/'
  }

  /** Inverse of Letter on the alphabet. */
  function LetterValue(c: char): (v: Sextet)
    requires IsLetter(c)
    ensures Letter(v) == c
  {
    if 'A' <= c <= 'Z' then (c - 'A') as int
    else if 'a' <= c <= 'z' then (c - 'a') as int + 26
    else if '0' <= c <= '9' then (c - '0') as int + 52
    else if c == '+' then 62
    else 63
  }

  lemma LetterValueOfLetter(v: Sextet)
    ensures LetterValue(Letter(v)) == v
  {
  }

  /** Characters that may appear in an encoding: the alphabet and the pad. */
  predicate IsEncodingChar(c: char) {
    IsLetter(c) || c == '='
  }

  /** Three octets become four letters. */
  function EncodeTriple(b0: Byte, b1: Byte, b2: Byte): (t: seq<char>)
    ensures |t| == 4 && forall i :: 0 <= i < 4 ==> IsLetter(t[i])
  {
    [Letter(b0 / 4), Letter((b0 % 4) * 16 + b1 / 16), Letter((b1 % 16) * 4 + b2 / 64), Letter(b2 % 64)]
  }

  /**
   * Go's base64.StdEncoding.EncodeToString: full groups of three octets, then a
   * final group of one or two octets padded with '='.
   */
  function Encode(s: seq<Byte>): (r: seq<char>)
    ensures |r| == 4 * ((|s| + 2) / 3)
    ensures forall i :: 0 <= i < |r| ==> IsEncodingChar(r[i])
  {
    if |s| == 0 then []
    else if |s| == 1 then [Letter(s[0] / 4), Letter((s[0] % 4) * 16), '=', '=']
    else if |s| == 2 then [Letter(s[0] / 4), Letter((s[0] % 4) * 16 + s[1] / 16), Letter((s[1] % 16) * 4), '=']
    else
      GroupCount(|s|);
      EncodeTriple(s[0], s[1], s[2]) + Encode(s[3..])
  }

  /** One more full group of three octets adds one letter group. */
  lemma GroupCount(n: int)
    requires n >= 3
    ensures (n + 2) / 3 == (n - 3 + 2) / 3 + 1
  {
  }

  /** Decoding of one letter group; `n` is the number of octets it carries. */
  function DecodeGroup(c0: char, c1: char, c2: char, c3: char): seq<Byte>
    requires IsLetter(c0) && IsLetter(c1)
  {
    var v0 := LetterValue(c0);
    var v1 := LetterValue(c1);
    if c2 == '=' || !IsLetter(c2) then [v0 * 4 + v1 / 16]
    else
      var v2 := LetterValue(c2);
      if c3 == '=' || !IsLetter(c3) then [v0 * 4 + v1 / 16, (v1 % 16) * 16 + v2 / 4]
      else [v0 * 4 + v1 / 16, (v1 % 16) * 16 + v2 / 4, (v2 % 4) * 64 + LetterValue(c3)]
  }

  /** The reference decoder; None on text that is not a padded encoding. */
  function Decode(s: seq<char>): (r: Option<seq<Byte>>)
    decreases |s|
  {
    if |s| == 0 then Some([])
    else if |s| < 4 || !IsLetter(s[0]) || !IsLetter(s[1]) then None
    else if |s| > 4 && (s[2] == '=' || s[3] == '=') then None
    else
      var g := DecodeGroup(s[0], s[1], s[2], s[3]);
      match Decode(s[4..])
      case None => None
      case Some(rest) => Some(g + rest)
  }

  lemma Div16(q: int, r: int)
    requires 0 <= r < 16
    ensures (q * 16 + r) / 16 == q && (q * 16 + r) % 16 == r
  {
  }

  lemma Div4(q: int, r: int)
    requires 0 <= r < 4
    ensures (q * 4 + r) / 4 == q && (q * 4 + r) % 4 == r
  {
  }

  /** The first two letters give back the first octet and the top of the second. */
  lemma {:induction false} FirstOctet(b0: Byte, hi: int)
    requires 0 <= hi < 16
    ensures (b0 / 4) * 4 + ((b0 % 4) * 16 + hi) / 16 == b0
    ensures ((b0 % 4) * 16 + hi) % 16 == hi
  {
    Div16(b0 % 4, hi);
  }

  lemma {:induction false} SecondOctet(b1: Byte, lo: int)
    requires 0 <= lo < 4
    ensures ((b1 % 16) * 4 + lo) / 4 == b1 % 16 && ((b1 % 16) * 4 + lo) % 4 == lo
  {
    Div4(b1 % 16, lo);
  }

  lemma {:induction false} TripleRoundTrip(b0: Byte, b1: Byte, b2: Byte)
    ensures var t := EncodeTriple(b0, b1, b2); DecodeGroup(t[0], t[1], t[2], t[3]) == [b0, b1, b2]
  {
    var v0, v1, v2, v3 := b0 / 4, (b0 % 4) * 16 + b1 / 16, (b1 % 16) * 4 + b2 / 64, b2 % 64;
    LetterValueOfLetter(v0);
    LetterValueOfLetter(v1);
    LetterValueOfLetter(v2);
    LetterValueOfLetter(v3);
    FirstOctet(b0, b1 / 16);
    SecondOctet(b1, b2 / 64);
    assert (v1 % 16) * 16 + v2 / 4 == b1;
    assert (v2 % 4) * 64 + v3 == b2;
  }

  lemma {:induction false} PairRoundTrip(b0: Byte, b1: Byte)
    ensures DecodeGroup(Letter(b0 / 4), Letter((b0 % 4) * 16 + b1 / 16), Letter((b1 % 16) * 4), '=') == [b0, b1]
  {
    var v0, v1, v2 := b0 / 4, (b0 % 4) * 16 + b1 / 16, (b1 % 16) * 4;
    LetterValueOfLetter(v0);
    LetterValueOfLetter(v1);
    LetterValueOfLetter(v2);
    FirstOctet(b0, b1 / 16);
    SecondOctet(b1, 0);
    assert (v1 % 16) * 16 + v2 / 4 == b1;
  }

  lemma {:induction false} SingleRoundTrip(b0: Byte)
    ensures DecodeGroup(Letter(b0 / 4), Letter((b0 % 4) * 16), '=', '=') == [b0]
  {
    LetterValueOfLetter(b0 / 4);
    LetterValueOfLetter((b0 % 4) * 16);
    FirstOctet(b0, 0);
  }

  lemma DecodeOneGroup(e: seq<char>)
    requires |e| == 4 && IsLetter(e[0]) && IsLetter(e[1])
    ensures Decode(e) == Some(DecodeGroup(e[0], e[1], e[2], e[3]))
  {
    assert e[4..] == [];
    var g := DecodeGroup(e[0], e[1], e[2], e[3]);
    assert g + [] == g;
  }

  lemma DecodeCons(t: seq<char>, rest: seq<char>, r: seq<Byte>)
    requires |t| == 4 && forall i :: 0 <= i < 4 ==> IsLetter(t[i])
    requires Decode(rest) == Some(r)
    ensures Decode(t + rest) == Some(DecodeGroup(t[0], t[1], t[2], t[3]) + r)
  {
    var e := t + rest;
    assert e[4..] == rest;
    assert e[..4] == t;
  }

  lemma {:induction false} DecodeEncodeShort(s: seq<Byte>)
    requires 1 <= |s| <= 2
    ensures Decode(Encode(s)) == Some(s)
  {
    var e := Encode(s);
    if |s| == 1 {
      SingleRoundTrip(s[0]);
      DecodeOneGroup(e);
      assert s == [s[0]];
    } else {
      PairRoundTrip(s[0], s[1]);
      DecodeOneGroup(e);
      assert s == [s[0], s[1]];
    }
  }

  lemma {:induction false} DecodeEncodeStep(b0: Byte, b1: Byte, b2: Byte, tail: seq<Byte>)
    requires Decode(Encode(tail)) == Some(tail)
    ensures Decode(EncodeTriple(b0, b1, b2) + Encode(tail)) == Some([b0, b1, b2] + tail)
  {
    TripleRoundTrip(b0, b1, b2);
    DecodeCons(EncodeTriple(b0, b1, b2), Encode(tail), tail);
  }

  lemma FirstThree(s: seq<Byte>)
    requires |s| >= 3
    ensures [s[0], s[1], s[2]] + s[3..] == s
  {
    assert [s[0], s[1], s[2]] == s[..3];
  }

  /** Decoding an encoding gives back the octets: the encoding is lossless. */
  lemma {:induction false} DecodeEncode(s: seq<Byte>)
    ensures Decode(Encode(s)) == Some(s)
    decreases |s|
  {
    if 1 <= |s| <= 2 {
      DecodeEncodeShort(s);
    } else if |s| >= 3 {
      DecodeEncode(s[3..]);
      DecodeEncodeStep(s[0], s[1], s[2], s[3..]);
      assert Encode(s) == EncodeTriple(s[0], s[1], s[2]) + Encode(s[3..]);
      FirstThree(s);
    }
  }
}
