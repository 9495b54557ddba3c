/**
 * Base64 as section 4 of RFC 4648 defines it (the alphabet of Table 1,
 * "=" padding, no line breaks): the encoding that the theme's image helper
 * applies to an image file's bytes. Decode is its inverse, used to state
 * that the encoding loses nothing.
 */
module Base64 {
  import opened Results

  type Byte = b: int | 0 <= b < 256
  type Sextet = i: int | 0 <= i < 64

  /** Table 1 of RFC 4648: A-Z, a-z, 0-9, '+', '/'. */
  function AlphabetChar(i: Sextet): char {
    if i < 26 then ('A' as int + i) as char
    else if i < 52 then ('a' as int + (i - 26)) as char
    else if i < 62 then ('0' as int + (i - 52)) as char
    else if i == 62 then '+'
    else '/'
  }

  function AlphabetIndex(c: char): Option<Sextet> {
    if 'A' <= c <= 'Z' then Some(c as int - 'A' as int)
    else if 'a' <= c <= 'z' then Some(c as int - 'a' as int + 26)
    else if '0' <= c <= '9' then Some(c as int - '0' as int + 52)
    else if c == '+' then Some(62)
    else if c == '/' then Some(63)
    else None
  }

  predicate IsAlphabetChar(c: char) {
    AlphabetIndex(c).Some?
  }

  lemma AlphabetRoundTrip(i: Sextet)
    ensures AlphabetIndex(AlphabetChar(i)) == Some(i)
  {
  }

  lemma AlphabetIndexInverse(c: char)
    requires IsAlphabetChar(c)
    ensures AlphabetChar(AlphabetIndex(c).value) == c
  {
  }

  /** Three bytes (24 bits) as four 6-bit groups, most significant first. */
  function Sextets(b0: Byte, b1: Byte, b2: Byte): seq<Sextet> {
    [b0 / 4, (b0 % 4) * 16 + b1 / 16, (b1 % 16) * 4 + b2 / 64, b2 % 64]
  }

  /** Four 6-bit groups back to the three bytes they hold. */
  function Octets(i0: Sextet, i1: Sextet, i2: Sextet, i3: Sextet): seq<Byte> {
    [i0 * 4 + i1 / 16, (i1 % 16) * 16 + i2 / 4, (i2 % 4) * 64 + i3]
  }

  function EncodeTriple(b0: Byte, b1: Byte, b2: Byte): string {
    var g := Sextets(b0, b1, b2);
    [AlphabetChar(g[0]), AlphabetChar(g[1]), AlphabetChar(g[2]), AlphabetChar(g[3])]
  }

  /** The final quantum: one byte gives two characters and "==", two bytes three and "=". */
  function EncodeTail(bs: seq<Byte>): string
    requires 0 < |bs| < 3
  {
    if |bs| == 1 then
      var g := Sextets(bs[0], 0, 0);
      [AlphabetChar(g[0]), AlphabetChar(g[1]), '=', '=']
    else
      var g := Sextets(bs[0], bs[1], 0);
      [AlphabetChar(g[0]), AlphabetChar(g[1]), AlphabetChar(g[2]), '=']
  }

  /** The Base64 text of a byte string: 4 * ceil(n / 3) characters. */
  function Encode(bs: seq<Byte>): (s: string)
    ensures |s| == 4 * ((|bs| + 2) / 3)
  {
    if |bs| == 0 then ""
    else if |bs| < 3 then EncodeTail(bs)
    else EncodeTriple(bs[0], bs[1], bs[2]) + Encode(bs[3..])
  }

  /** Four characters with no padding back to three bytes. */
  function DecodeQuad(q: string): Option<seq<Byte>>
    requires |q| == 4
  {
    if IsAlphabetChar(q[0]) && IsAlphabetChar(q[1]) && IsAlphabetChar(q[2]) && IsAlphabetChar(q[3]) then
      Some(Octets(AlphabetIndex(q[0]).value, AlphabetIndex(q[1]).value,
                  AlphabetIndex(q[2]).value, AlphabetIndex(q[3]).value))
    else None
  }

  /**
   * A final padded quantum back to one or two bytes; the bits the padding
   * leaves unused must be zero, so that each byte string has one text.
   */
  function DecodeLastQuad(q: string): Option<seq<Byte>>
    requires |q| == 4
  {
    if q[2] == '=' && q[3] == '=' then
      if IsAlphabetChar(q[0]) && IsAlphabetChar(q[1]) && AlphabetIndex(q[1]).value % 16 == 0 then
        Some(Octets(AlphabetIndex(q[0]).value, AlphabetIndex(q[1]).value, 0, 0)[..1])
      else None
    else if q[3] == '=' then
      if IsAlphabetChar(q[0]) && IsAlphabetChar(q[1]) && IsAlphabetChar(q[2])
         && AlphabetIndex(q[2]).value % 4 == 0 then
        Some(Octets(AlphabetIndex(q[0]).value, AlphabetIndex(q[1]).value, AlphabetIndex(q[2]).value, 0)[..2])
      else None
    else DecodeQuad(q)
  }

  /** The bytes a canonical Base64 text stands for; None for any other text. */
  function Decode(s: string): (r: Option<seq<Byte>>)
    ensures r.Some? ==> |s| % 4 == 0 && |r.value| <= |s| / 4 * 3
    decreases |s|
  {
    if |s| == 0 then Some([])
    else if |s| < 4 then None
    else if |s| == 4 then DecodeLastQuad(s)
    else match (DecodeQuad(s[..4]), Decode(s[4..]))
      case (Some(head), Some(rest)) => Some(head + rest)
      case _ => None
  }

  lemma SextetsOctets(b0: Byte, b1: Byte, b2: Byte)
    ensures var g := Sextets(b0, b1, b2); Octets(g[0], g[1], g[2], g[3]) == [b0, b1, b2]
  {
    var g := Sextets(b0, b1, b2);
    assert g[1] / 16 == b0 % 4 && g[1] % 16 == b1 / 16;
    assert g[2] / 4 == b1 % 16 && g[2] % 4 == b2 / 64;
  }

  lemma OctetsSextets(i0: Sextet, i1: Sextet, i2: Sextet, i3: Sextet)
    ensures var b := Octets(i0, i1, i2, i3); Sextets(b[0], b[1], b[2]) == [i0, i1, i2, i3]
  {
    var b := Octets(i0, i1, i2, i3);
    assert b[0] / 4 == i0 && b[0] % 4 == i1 / 16;
    assert b[1] / 16 == i1 % 16 && b[1] % 16 == i2 / 4;
    assert b[2] / 64 == i2 % 4 && b[2] % 64 == i3;
  }

  lemma TripleRoundTrip(b0: Byte, b1: Byte, b2: Byte)
    ensures DecodeQuad(EncodeTriple(b0, b1, b2)) == Some([b0, b1, b2])
  {
    var g := Sextets(b0, b1, b2);
    AlphabetRoundTrip(g[0]);
    AlphabetRoundTrip(g[1]);
    AlphabetRoundTrip(g[2]);
    AlphabetRoundTrip(g[3]);
    SextetsOctets(b0, b1, b2);
  }

  lemma NotPadding(i: Sextet)
    ensures AlphabetChar(i) != '=' && IsAlphabetChar(AlphabetChar(i))
  {
    AlphabetRoundTrip(i);
  }

  lemma OneByteRoundTrip(b0: Byte)
    ensures DecodeLastQuad(EncodeTail([b0])) == Some([b0])
  {
    var g := Sextets(b0, 0, 0);
    var q := EncodeTail([b0]);
    assert q == [AlphabetChar(g[0]), AlphabetChar(g[1]), '=', '='];
    AlphabetRoundTrip(g[0]);
    AlphabetRoundTrip(g[1]);
    assert g[1] % 16 == 0;
    SextetsOctets(b0, 0, 0);
    assert Octets(g[0], g[1], 0, 0)[..1] == [b0];
  }

  lemma TwoBytesRoundTrip(b0: Byte, b1: Byte)
    ensures DecodeLastQuad(EncodeTail([b0, b1])) == Some([b0, b1])
  {
    var g := Sextets(b0, b1, 0);
    var q := EncodeTail([b0, b1]);
    assert q == [AlphabetChar(g[0]), AlphabetChar(g[1]), AlphabetChar(g[2]), '='];
    AlphabetRoundTrip(g[0]);
    AlphabetRoundTrip(g[1]);
    AlphabetRoundTrip(g[2]);
    NotPadding(g[2]);
    assert g[2] % 4 == 0;
    SextetsOctets(b0, b1, 0);
    assert Octets(g[0], g[1], g[2], 0)[..2] == [b0, b1];
  }

  lemma TailRoundTrip(bs: seq<Byte>)
    requires 0 < |bs| < 3
    ensures DecodeLastQuad(EncodeTail(bs)) == Some(bs)
  {
    if |bs| == 1 {
      OneByteRoundTrip(bs[0]);
      assert bs == [bs[0]];
    } else {
      TwoBytesRoundTrip(bs[0], bs[1]);
      assert bs == [bs[0], bs[1]];
    }
  }

  lemma DecodeAppend(head: string, rest: string)
    requires |head| == 4 && |rest| > 0 && DecodeQuad(head).Some? && Decode(rest).Some?
    ensures Decode(head + rest) == Some(DecodeQuad(head).value + Decode(rest).value)
  {
    var s := head + rest;
    assert s[..4] == head && s[4..] == rest;
  }

  lemma OneTripleRoundTrip(b0: Byte, b1: Byte, b2: Byte)
    ensures Decode(Encode([b0, b1, b2])) == Some([b0, b1, b2])
  {
    var bs := [b0, b1, b2];
    var head := EncodeTriple(b0, b1, b2);
    assert bs[3..] == [];
    assert Encode(bs) == head;
    TripleRoundTrip(b0, b1, b2);
    NotPadding(Sextets(b0, b1, b2)[3]);
    assert DecodeLastQuad(head) == DecodeQuad(head);
  }

  lemma EncodeLong(bs: seq<Byte>)
    requires |bs| > 3
    ensures Encode(bs) == EncodeTriple(bs[0], bs[1], bs[2]) + Encode(bs[3..])
  {
  }

  lemma TripleThenRest(b0: Byte, b1: Byte, b2: Byte, rest: seq<Byte>)
    requires rest != [] && Decode(Encode(rest)) == Some(rest)
    ensures Decode(EncodeTriple(b0, b1, b2) + Encode(rest)) == Some([b0, b1, b2] + rest)
  {
    TripleRoundTrip(b0, b1, b2);
    DecodeAppend(EncodeTriple(b0, b1, b2), Encode(rest));
  }

  lemma SplitThree(bs: seq<Byte>)
    requires |bs| >= 3
    ensures bs == [bs[0], bs[1], bs[2]] + bs[3..]
  {
  }

  lemma ExactlyThree(bs: seq<Byte>)
    requires |bs| == 3
    ensures bs == [bs[0], bs[1], bs[2]]
  {
  }

  lemma ThreeBytesRoundTrip(bs: seq<Byte>)
    requires |bs| == 3
    ensures Decode(Encode(bs)) == Some(bs)
  {
    ExactlyThree(bs);
    OneTripleRoundTrip(bs[0], bs[1], bs[2]);
  }

  lemma LongRoundTrip(bs: seq<Byte>)
    requires |bs| > 3 && Decode(Encode(bs[3..])) == Some(bs[3..])
    ensures Decode(Encode(bs)) == Some(bs)
  {
    SplitThree(bs);
    EncodeLong(bs);
    TripleThenRest(bs[0], bs[1], bs[2], bs[3..]);
  }

  /** Decoding the encoding of any byte string gives the byte string back. */
  lemma {:induction false} DecodeEncode(bs: seq<Byte>)
    ensures Decode(Encode(bs)) == Some(bs)
    decreases |bs|
  {
    if |bs| == 0 {
    } else if |bs| < 3 {
      TailRoundTrip(bs);
    } else if |bs| == 3 {
      ThreeBytesRoundTrip(bs);
    } else {
      DecodeEncode(bs[3..]);
      LongRoundTrip(bs);
    }
  }

  lemma QuadRoundTrip(q: string)
    requires |q| == 4 && DecodeQuad(q).Some?
    ensures var bs := DecodeQuad(q).value; |bs| == 3 && EncodeTriple(bs[0], bs[1], bs[2]) == q
  {
    var i := [AlphabetIndex(q[0]).value, AlphabetIndex(q[1]).value,
              AlphabetIndex(q[2]).value, AlphabetIndex(q[3]).value];
    OctetsSextets(i[0], i[1], i[2], i[3]);
    AlphabetIndexInverse(q[0]);
    AlphabetIndexInverse(q[1]);
    AlphabetIndexInverse(q[2]);
    AlphabetIndexInverse(q[3]);
  }

  lemma LastQuadRoundTrip(q: string)
    requires |q| == 4 && DecodeLastQuad(q).Some?
    ensures Encode(DecodeLastQuad(q).value) == q
  {
    var bs := DecodeLastQuad(q).value;
    if q[2] == '=' && q[3] == '=' {
      var i0, i1 := AlphabetIndex(q[0]).value, AlphabetIndex(q[1]).value;
      OctetsSextets(i0, i1, 0, 0);
      AlphabetIndexInverse(q[0]);
      AlphabetIndexInverse(q[1]);
      assert Sextets(bs[0], 0, 0)[..2] == [i0, i1];
    } else if q[3] == '=' {
      var i0, i1, i2 := AlphabetIndex(q[0]).value, AlphabetIndex(q[1]).value, AlphabetIndex(q[2]).value;
      OctetsSextets(i0, i1, i2, 0);
      AlphabetIndexInverse(q[0]);
      AlphabetIndexInverse(q[1]);
      AlphabetIndexInverse(q[2]);
      assert Sextets(bs[0], bs[1], 0)[..3] == [i0, i1, i2];
    } else {
      QuadRoundTrip(q);
      assert Encode(bs) == EncodeTriple(bs[0], bs[1], bs[2]) + Encode(bs[3..]);
    }
  }

  /** Every text that decodes is the encoding of what it decodes to. */
  lemma {:induction false} EncodeDecode(s: string)
    requires Decode(s).Some?
    ensures Encode(Decode(s).value) == s
    decreases |s|
  {
    if |s| == 0 {
    } else if |s| == 4 {
      LastQuadRoundTrip(s);
    } else {
      var head := DecodeQuad(s[..4]).value;
      var rest := Decode(s[4..]).value;
      QuadRoundTrip(s[..4]);
      EncodeDecode(s[4..]);
      var bs := head + rest;
      assert bs[..3] == head && bs[3..] == rest;
      assert s == s[..4] + s[4..];
    }
  }

  /** Every character of an encoding is in the alphabet or is padding at the end. */
  lemma {:induction false} EncodeAlphabet(bs: seq<Byte>)
    ensures var s := Encode(bs);
      forall i :: 0 <= i < |s| ==> IsAlphabetChar(s[i]) || (s[i] == '=' && i >= |s| - 2)
    decreases |bs|
  {
    var s := Encode(bs);
    if |bs| == 0 {
    } else if |bs| < 3 {
      var g := Sextets(bs[0], if |bs| == 2 then bs[1] else 0, 0);
      AlphabetRoundTrip(g[0]);
      AlphabetRoundTrip(g[1]);
      AlphabetRoundTrip(g[2]);
    } else {
      EncodeAlphabet(bs[3..]);
      TripleRoundTrip(bs[0], bs[1], bs[2]);
      var head := EncodeTriple(bs[0], bs[1], bs[2]);
      assert forall i :: 0 <= i < 4 ==> IsAlphabetChar(head[i]);
      assert s == head + Encode(bs[3..]);
    }
  }
}
