/**
 Base64 with the standard alphabet and '=' padding, as section 4 of RFC 4648
 defines it (Go's `base64.StdEncoding`). Characters are produced as their ASCII
 codes so that an encoded body is itself a byte string.

 `Decode` is the canonical (strict) inverse of section 3.5 of RFC 4648: it accepts
 exactly the strings `Encode` produces, which `DecodeIffEncode` proves.
 */
module Base64 {
  import opened Wrappers

  /** A 6-bit group value: an index into the alphabet. */
  type sextet = x: bv8 | x < 64

  /** The pad character '='. */
  const Pad: byte := 61

  /** Members of the alphabet of Table 1 of RFC 4648: 'A'-'Z', 'a'-'z', '0'-'9', '+', '/'. */
  predicate IsAlphabetChar(c: byte) {
    (65 <= c <= 90) || (97 <= c <= 122) || (48 <= c <= 57) || c == 43 || c == 47
  }

  /** Table 1 of RFC 4648: the character that encodes a sextet. */
  function Char(v: sextet): (c: byte)
    ensures IsAlphabetChar(c) && c != Pad
  {
    if v < 26 then 65 + v
    else if v < 52 then 97 + (v - 26)
    else if v < 62 then 48 + (v - 52)
    else if v == 62 then 43
    else 47
  }

  /** The inverse of Table 1: the sextet an alphabet character stands for. */
  function ValueOf(c: byte): (v: sextet)
    requires IsAlphabetChar(c)
  {
    if 65 <= c <= 90 then c - 65        // 'A'..'Z' are 0..25
    else if 97 <= c <= 122 then c - 71  // 'a'..'z' are 26..51
    else if 48 <= c <= 57 then c + 4    // '0'..'9' are 52..61
    else if c == 43 then 62
    else 63
  }

  /** Distinct sextets are written as distinct characters. */
  lemma ValueOfChar(v: sextet)
    ensures ValueOf(Char(v)) == v
  {
  }

  /** Every alphabet character is the encoding of some sextet. */
  lemma CharOfValue(c: byte)
    requires IsAlphabetChar(c)
    ensures Char(ValueOf(c)) == c
  {
  }

  /** Three octets as four characters: 24 bits cut into four sextets, most significant first. */
  function EncodeTriple(x: byte, y: byte, z: byte): seq<byte> {
    [Char(x >> 2), Char(((x & 3) << 4) | (y >> 4)), Char(((y & 15) << 2) | (z >> 6)), Char(z & 63)]
  }

  /** A final single octet: two sextets (the second padded with zero bits) and two pad characters. */
  function EncodeOne(x: byte): seq<byte> {
    [Char(x >> 2), Char((x & 3) << 4), Pad, Pad]
  }

  /** A final pair of octets: three sextets (the third padded with zero bits) and one pad character. */
  function EncodeTwo(x: byte, y: byte): seq<byte> {
    [Char(x >> 2), Char(((x & 3) << 4) | (y >> 4)), Char((y & 15) << 2), Pad]
  }

  /** The encoding of a byte string, three octets at a time. */
  function Encode(bs: seq<byte>): (s: seq<byte>)
    ensures |s| % 4 == 0
    ensures |s| == 0 <==> |bs| == 0
    decreases |bs|
  {
    if |bs| == 0 then []
    else if |bs| == 1 then EncodeOne(bs[0])
    else if |bs| == 2 then EncodeTwo(bs[0], bs[1])
    else EncodeTriple(bs[0], bs[1], bs[2]) + Encode(bs[3..])
  }

  /** The encoding has four characters for every started group of three octets. */
  lemma {:induction false} EncodeLength(bs: seq<byte>)
    ensures |Encode(bs)| == (|bs| + 2) / 3 * 4
    decreases |bs|
  {
    if |bs| > 2 {
      EncodeLength(bs[3..]);
      assert Encode(bs) == EncodeTriple(bs[0], bs[1], bs[2]) + Encode(bs[3..]);
    }
  }

  /** Alphabet characters, with pad characters allowed only in the last two positions. */
  predicate PaddedAlphabet(s: seq<byte>) {
    && (forall i :: 0 <= i < |s| ==> IsAlphabetChar(s[i]) || s[i] == Pad)
    && (forall i :: 0 <= i < |s| - 2 ==> IsAlphabetChar(s[i]))
  }

  /** The encoding is made of alphabet characters, except for at most two pad characters at its end. */
  lemma {:induction false} EncodeAlphabet(bs: seq<byte>)
    ensures PaddedAlphabet(Encode(bs))
    decreases |bs|
  {
    if |bs| > 2 {
      var g := EncodeTriple(bs[0], bs[1], bs[2]);
      var r := Encode(bs[3..]);
      EncodeAlphabet(bs[3..]);
      TripleAlphabet(bs[0], bs[1], bs[2]);
      GroupThenPadded(g, r);
      assert Encode(bs) == g + r;
    }
  }

  /** A full group is four alphabet characters. */
  lemma TripleAlphabet(x: byte, y: byte, z: byte)
    ensures |EncodeTriple(x, y, z)| == 4
    ensures forall i :: 0 <= i < 4 ==> IsAlphabetChar(EncodeTriple(x, y, z)[i])
  {
  }

  /** Four alphabet characters in front of a padded encoding leave it a padded encoding. */
  lemma GroupThenPadded(g: seq<byte>, r: seq<byte>)
    requires |g| == 4 && forall i :: 0 <= i < 4 ==> IsAlphabetChar(g[i])
    requires PaddedAlphabet(r)
    ensures PaddedAlphabet(g + r)
  {
    forall i | 0 <= i < |g + r|
      ensures IsAlphabetChar((g + r)[i]) || (g + r)[i] == Pad
      ensures i < |g + r| - 2 ==> IsAlphabetChar((g + r)[i])
    {
      if i < 4 {
        assert (g + r)[i] == g[i];
      } else {
        assert (g + r)[i] == r[i - 4];
      }
    }
  }

  /**
   The test vectors of section 10 of RFC 4648: "f", "fo", "foo", "foob", "fooba" and
   "foobar" encode as "Zg==", "Zm8=", "Zm9v", "Zm9vYg==", "Zm9vYmE=" and "Zm9vYmFy"
   (ASCII codes).
   */
  lemma Rfc4648Vectors()
    ensures Encode([102]) == [90, 103, 61, 61]
    ensures Encode([102, 111]) == [90, 109, 56, 61]
    ensures Encode([102, 111, 111]) == [90, 109, 57, 118]
    ensures Encode([102, 111, 111, 98]) == [90, 109, 57, 118, 89, 103, 61, 61]
    ensures Encode([102, 111, 111, 98, 97]) == [90, 109, 57, 118, 89, 109, 69, 61]
    ensures Encode([102, 111, 111, 98, 97, 114]) == [90, 109, 57, 118, 89, 109, 70, 121]
  {
    assert [102, 111, 111, 98][3..] == [98 as byte];
    assert [102, 111, 111, 98, 97][3..] == [98 as byte, 97];
    assert [102, 111, 111, 98, 97, 114][3..] == [98 as byte, 97, 114];
  }

  /** The last two characters of the alphabet: all-ones octets are "////", and 0xFB 0xEF 0xBE is "++++". */
  lemma AlphabetEnds()
    ensures Encode([255, 255, 255]) == [47, 47, 47, 47]
    ensures Encode([251, 239, 190]) == [43, 43, 43, 43]
    ensures Encode([0, 0, 0]) == [65, 65, 65, 65]
  {
    assert [255 as byte, 255, 255][3..] == [];
    assert [251 as byte, 239, 190][3..] == [];
    assert [0 as byte, 0, 0][3..] == [];
  }

  /** Four sextets back to the three octets they carry. */
  function DecodeTriple(a: sextet, b: sextet, c: sextet, d: sextet): seq<byte> {
    [(a << 2) | (b >> 4), ((b & 15) << 4) | (c >> 2), ((c & 3) << 6) | d]
  }

  /** A group of four alphabet characters. */
  function DecodeGroup(a: byte, b: byte, c: byte, d: byte): Option<seq<byte>> {
    if IsAlphabetChar(a) && IsAlphabetChar(b) && IsAlphabetChar(c) && IsAlphabetChar(d)
    then Some(DecodeTriple(ValueOf(a), ValueOf(b), ValueOf(c), ValueOf(d)))
    else None
  }

  /** A group ending in "==": one octet, whose padding bits must be zero. */
  function DecodeOne(a: byte, b: byte): Option<seq<byte>> {
    if IsAlphabetChar(a) && IsAlphabetChar(b) && ValueOf(b) & 15 == 0
    then Some([(ValueOf(a) << 2) | (ValueOf(b) >> 4)])
    else None
  }

  /** A group ending in a single "=": two octets, whose padding bits must be zero. */
  function DecodeTwo(a: byte, b: byte, c: byte): Option<seq<byte>> {
    if IsAlphabetChar(a) && IsAlphabetChar(b) && IsAlphabetChar(c) && ValueOf(c) & 3 == 0
    then Some([(ValueOf(a) << 2) | (ValueOf(b) >> 4), ((ValueOf(b) & 15) << 4) | (ValueOf(c) >> 2)])
    else None
  }

  /** The last group of four characters, which may end in one or two pad characters. */
  function DecodeFinal(a: byte, b: byte, c: byte, d: byte): Option<seq<byte>> {
    if d != Pad then DecodeGroup(a, b, c, d)
    else if c == Pad then DecodeOne(a, b)
    else DecodeTwo(a, b, c)
  }

  /**
   Canonical decoding: the length is a multiple of four, only the last group may
   carry padding, and the bits padding introduces must be zero.
   */
  function Decode(s: seq<byte>): (r: Option<seq<byte>>)
    decreases |s|
  {
    if |s| == 0 then Some([])
    else if |s| < 4 then None
    else if |s| == 4 then DecodeFinal(s[0], s[1], s[2], s[3])
    else
      match DecodeGroup(s[0], s[1], s[2], s[3])
      case None => None
      case Some(t) =>
        match Decode(s[4..])
        case None => None
        case Some(rest) => Some(t + rest)
  }

  /** Cutting three octets into sextets and joining them again gives the octets back. */
  lemma TripleRoundTrip(x: byte, y: byte, z: byte)
    ensures DecodeGroup(Char(x >> 2), Char(((x & 3) << 4) | (y >> 4)), Char(((y & 15) << 2) | (z >> 6)), Char(z & 63))
      == Some([x, y, z])
  {
    var a, b, c, d := (x >> 2), ((x & 3) << 4) | (y >> 4), ((y & 15) << 2) | (z >> 6), z & 63;
    ValueOfChar(a);
    ValueOfChar(b);
    ValueOfChar(c);
    ValueOfChar(d);
  }

  /** A final single octet decodes back to that octet. */
  lemma OneRoundTrip(x: byte)
    ensures DecodeOne(Char(x >> 2), Char((x & 3) << 4)) == Some([x])
  {
    ValueOfChar(x >> 2);
    ValueOfChar((x & 3) << 4);
  }

  /** A final pair of octets decodes back to those octets. */
  lemma TwoRoundTrip(x: byte, y: byte)
    ensures DecodeTwo(Char(x >> 2), Char(((x & 3) << 4) | (y >> 4)), Char((y & 15) << 2)) == Some([x, y])
  {
    ValueOfChar(x >> 2);
    ValueOfChar(((x & 3) << 4) | (y >> 4));
    ValueOfChar((y & 15) << 2);
  }

  /** A string of exactly four characters is decoded as a final group. */
  lemma DecodeFour(s: seq<byte>)
    requires |s| == 4
    ensures Decode(s) == DecodeFinal(s[0], s[1], s[2], s[3])
  {
  }

  /** A single octet is one group ending in "==" that decodes back to it. */
  lemma OneOctetInput(bs: seq<byte>)
    requires |bs| == 1
    ensures Decode(Encode(bs)) == Some(bs)
  {
    var s := Encode(bs);
    assert s == EncodeOne(bs[0]);
    DecodeFour(s);
    OneRoundTrip(bs[0]);
    assert bs == [bs[0]];
  }

  /** Two octets are one group ending in "=" that decodes back to them. */
  lemma TwoOctetInput(bs: seq<byte>)
    requires |bs| == 2
    ensures Decode(Encode(bs)) == Some(bs)
  {
    var s := Encode(bs);
    assert s == EncodeTwo(bs[0], bs[1]);
    DecodeFour(s);
    TwoRoundTrip(bs[0], bs[1]);
    assert bs == [bs[0], bs[1]];
  }

  /** Three octets are one unpadded group that decodes back to them. */
  lemma ThreeOctetInput(bs: seq<byte>)
    requires |bs| == 3
    ensures Decode(Encode(bs)) == Some(bs)
  {
    var s := Encode(bs);
    var t := EncodeTriple(bs[0], bs[1], bs[2]);
    assert bs[3..] == [];
    assert s == t + Encode(bs[3..]);
    assert s == t;
    DecodeFour(s);
    TripleRoundTrip(bs[0], bs[1], bs[2]);
    assert bs == [bs[0], bs[1], bs[2]];
  }

  /** Encoding a string of more than two octets writes its first three octets as one group. */
  lemma EncodeCons(x: byte, y: byte, z: byte, rest: seq<byte>)
    ensures Encode([x, y, z] + rest) == EncodeTriple(x, y, z) + Encode(rest)
  {
    assert ([x, y, z] + rest)[3..] == rest;
  }

  /** Decoding a full group in front of more decodable input decodes the group and then the rest. */
  lemma DecodeCons(t: seq<byte>, e: seq<byte>, g: seq<byte>, r: seq<byte>)
    requires |t| == 4 && |e| > 0
    requires DecodeGroup(t[0], t[1], t[2], t[3]) == Some(g)
    requires Decode(e) == Some(r)
    ensures Decode(t + e) == Some(g + r)
  {
    assert (t + e)[4..] == e;
  }

  /** Encoding a non-empty string gives a non-empty string. */
  lemma EncodeNonEmpty(bs: seq<byte>)
    requires |bs| > 0
    ensures |Encode(bs)| > 0
  {
  }

  /** A full group written in front of a decodable string decodes to its octets in front of the rest. */
  lemma GroupThenDecodable(x: byte, y: byte, z: byte, e: seq<byte>, r: seq<byte>)
    requires |e| > 0 && Decode(e) == Some(r)
    ensures Decode(EncodeTriple(x, y, z) + e) == Some([x, y, z] + r)
  {
    TripleRoundTrip(x, y, z);
    DecodeCons(EncodeTriple(x, y, z), e, [x, y, z], r);
  }

  /** Decoding undoes encoding: the body of a binary response gives back exactly the bytes written. */
  lemma {:induction false} DecodeEncode(bs: seq<byte>)
    ensures Decode(Encode(bs)) == Some(bs)
    decreases |bs|
  {
    if |bs| == 0 {
    } else if |bs| == 1 {
      OneOctetInput(bs);
    } else if |bs| == 2 {
      TwoOctetInput(bs);
    } else if |bs| == 3 {
      ThreeOctetInput(bs);
    } else {
      var rest := bs[3..];
      DecodeEncode(rest);
      EncodeCons(bs[0], bs[1], bs[2], rest);
      EncodeNonEmpty(rest);
      GroupThenDecodable(bs[0], bs[1], bs[2], Encode(rest), rest);
      assert bs == [bs[0], bs[1], bs[2]] + rest;
    }
  }

  /** Joining four sextets into octets and cutting them again gives the sextets back. */
  lemma QuadRoundTrip(a: sextet, b: sextet, c: sextet, d: sextet)
    ensures var t := DecodeTriple(a, b, c, d);
      EncodeTriple(t[0], t[1], t[2]) == [Char(a), Char(b), Char(c), Char(d)]
  {

  }

  /** A final group ending in "==" that the decoder accepts is the encoding of its octet. */
  lemma OnePadRoundTrip(a: byte, b: byte)
    requires DecodeOne(a, b).Some?
    ensures Encode(DecodeOne(a, b).value) == [a, b, Pad, Pad]
  {
    CharOfValue(a);
    CharOfValue(b);
    var x := (ValueOf(a) << 2) | (ValueOf(b) >> 4);
    assert Encode([x]) == EncodeOne(x);
  }

  /** A final group ending in "=" that the decoder accepts is the encoding of its two octets. */
  lemma TwoPadRoundTrip(a: byte, b: byte, c: byte)
    requires DecodeTwo(a, b, c).Some?
    ensures Encode(DecodeTwo(a, b, c).value) == [a, b, c, Pad]
  {
    CharOfValue(a);
    CharOfValue(b);
    CharOfValue(c);
    var x, y := (ValueOf(a) << 2) | (ValueOf(b) >> 4), ((ValueOf(b) & 15) << 4) | (ValueOf(c) >> 2);
    assert Encode([x, y]) == EncodeTwo(x, y);
  }

  /** A group of four alphabet characters is the encoding of the three octets it decodes to. */
  lemma GroupRoundTrip(a: byte, b: byte, c: byte, d: byte)
    requires DecodeGroup(a, b, c, d).Some?
    ensures var g := DecodeGroup(a, b, c, d).value; EncodeTriple(g[0], g[1], g[2]) == [a, b, c, d]
  {
    CharOfValue(a);
    CharOfValue(b);
    CharOfValue(c);
    CharOfValue(d);
    QuadRoundTrip(ValueOf(a), ValueOf(b), ValueOf(c), ValueOf(d));
  }

  /** A final group the decoder accepts is the encoding of what it decodes to. */
  lemma FinalRoundTrip(a: byte, b: byte, c: byte, d: byte)
    requires DecodeFinal(a, b, c, d).Some?
    ensures Encode(DecodeFinal(a, b, c, d).value) == [a, b, c, d]
  {
    if d != Pad {
      var g := DecodeGroup(a, b, c, d).value;
      GroupRoundTrip(a, b, c, d);
      assert g == [g[0], g[1], g[2]];
      assert Encode(g) == EncodeTriple(g[0], g[1], g[2]) by {
        EncodeCons(g[0], g[1], g[2], []);
        assert g + [] == g;
      }
    } else if c == Pad {
      OnePadRoundTrip(a, b);
    } else {
      TwoPadRoundTrip(a, b, c);
    }
  }

  /** A decodable string longer than one group starts with a full group and continues decodably. */
  lemma DecodeUncons(s: seq<byte>)
    requires |s| > 4 && Decode(s).Some?
    ensures DecodeGroup(s[0], s[1], s[2], s[3]).Some? && Decode(s[4..]).Some?
    ensures Decode(s).value == DecodeGroup(s[0], s[1], s[2], s[3]).value + Decode(s[4..]).value
  {
  }

  /** Three octets that encode to a group, followed by a string with a known encoding. */
  lemma EncodeAppend(g: seq<byte>, rest: seq<byte>, q: seq<byte>, e: seq<byte>)
    requires |g| == 3 && EncodeTriple(g[0], g[1], g[2]) == q
    requires Encode(rest) == e
    ensures Encode(g + rest) == q + e
  {
    EncodeCons(g[0], g[1], g[2], rest);
    assert g == [g[0], g[1], g[2]];
  }

  /** A string made of a decodable group and the encoding of `r` is the encoding of the group's octets then `r`. */
  lemma GroupThenEncoded(s: seq<byte>, g: seq<byte>, r: seq<byte>)
    requires |s| > 4 && DecodeGroup(s[0], s[1], s[2], s[3]) == Some(g)
    requires Encode(r) == s[4..]
    ensures Encode(g + r) == s
  {
    GroupRoundTrip(s[0], s[1], s[2], s[3]);
    EncodeAppend(g, r, s[..4], s[4..]);
    assert s == s[..4] + s[4..];
  }

  /** Every string the decoder accepts is the encoding of what it decodes to. */
  lemma {:induction false} EncodeDecode(s: seq<byte>)
    requires Decode(s).Some?
    ensures Encode(Decode(s).value) == s
    decreases |s|
  {
    if |s| == 0 {
    } else if |s| == 4 {
      FinalRoundTrip(s[0], s[1], s[2], s[3]);
    } else {
      DecodeUncons(s);
      EncodeDecode(s[4..]);
      GroupThenEncoded(s, DecodeGroup(s[0], s[1], s[2], s[3]).value, Decode(s[4..]).value);
    }
  }

  /** The decoder accepts exactly the encodings: a string decodes to `bs` iff it is the encoding of `bs`. */
  lemma DecodeIffEncode(s: seq<byte>, bs: seq<byte>)
    ensures Decode(s) == Some(bs) <==> s == Encode(bs)
  {
    if Decode(s) == Some(bs) {
      EncodeDecode(s);
    }
    if s == Encode(bs) {
      DecodeEncode(bs);
    }
  }
}
