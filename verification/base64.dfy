/**
 * Base 64 encoding with the standard alphabet and `=` padding, as in
 * section 4 of RFC 4648 (Python's `base64.b64encode`), and the strict
 * decoder that undoes it.
 *
 * Characters of the encoded text are given as their ASCII codes.
 */
module Base64 {
  import opened Wrappers
  import opened Bytes

  /** A six-bit group: one character of the encoding. */
  type Sextet = x: int | 0 <= x < 64

  /** The ASCII code of `=`. */
  const Pad: Byte := 61

  /** The character for a six-bit value: `A`-`Z`, `a`-`z`, `0`-`9`, `+`, `/`. */
  function Letter(v: Sextet): (c: Byte)
    ensures Index(c) == Some(v)
    ensures c != Pad && c < 128
  {
    if v < 26 then 65 + v
    else if v < 52 then 97 + (v - 26)
    else if v < 62 then 48 + (v - 52)
    else if v == 62 then 43
    else 47
  }

  /** The six-bit value of an alphabet character, or `None` for any other byte. */
  function Index(c: Byte): Option<Sextet>
  {
    if 65 <= c <= 90 then Some(c - 65)
    else if 97 <= c <= 122 then Some(c - 97 + 26)
    else if 48 <= c <= 57 then Some(c - 48 + 52)
    else if c == 43 then Some(62)
    else if c == 47 then Some(63)
    else None
  }

  predicate InAlphabet(c: Byte)
  {
    Index(c).Some?
  }

  /** Three bytes become four characters. */
  function EncodeGroup(b0: Byte, b1: Byte, b2: Byte): seq<Byte>
  {
    [Letter(b0 / 4), Letter((b0 % 4) * 16 + b1 / 16), Letter((b1 % 16) * 4 + b2 / 64), Letter(b2 % 64)]
  }

  /** `base64.b64encode`: whole groups, then a padded final group for one or two left-over bytes. */
  function Encode(b: seq<Byte>): (s: seq<Byte>)
    ensures |s| == 4 * ((|b| + 2) / 3)
    ensures forall i | 0 <= i < |s| :: InAlphabet(s[i]) || s[i] == Pad
    ensures b != [] <==> s != []
    decreases |b|
  {
    if |b| == 0 then []
    else if |b| == 1 then [Letter(b[0] / 4), Letter((b[0] % 4) * 16), Pad, Pad]
    else if |b| == 2 then [Letter(b[0] / 4), Letter((b[0] % 4) * 16 + b[1] / 16), Letter((b[1] % 16) * 4), Pad]
    else EncodeGroup(b[0], b[1], b[2]) + Encode(b[3..])
  }

  /** Four alphabet characters become three bytes. */
  function DecodeGroup(c0: Byte, c1: Byte, c2: Byte, c3: Byte): Option<seq<Byte>>
  {
    if InAlphabet(c0) && InAlphabet(c1) && InAlphabet(c2) && InAlphabet(c3) then
      var v0, v1, v2, v3 := Index(c0).value, Index(c1).value, Index(c2).value, Index(c3).value;
      Some([v0 * 4 + v1 / 16, (v1 % 16) * 16 + v2 / 4, (v2 % 4) * 64 + v3])
    else
      None
  }

  /** The last four characters, which may end in one or two `=`. */
  function DecodeFinal(c0: Byte, c1: Byte, c2: Byte, c3: Byte): Option<seq<Byte>>
  {
    if c2 == Pad && c3 == Pad then
      if InAlphabet(c0) && InAlphabet(c1) then
        Some([Index(c0).value * 4 + Index(c1).value / 16])
      else None
    else if c3 == Pad then
      if InAlphabet(c0) && InAlphabet(c1) && InAlphabet(c2) then
        var v0, v1, v2 := Index(c0).value, Index(c1).value, Index(c2).value;
        Some([v0 * 4 + v1 / 16, (v1 % 16) * 16 + v2 / 4])
      else None
    else
      DecodeGroup(c0, c1, c2, c3)
  }

  /** Strict decoding: a multiple of four characters, padding only in the last group. */
  function Decode(s: seq<Byte>): Option<seq<Byte>>
    decreases |s|
  {
    if |s| == 0 then Some([])
    else if |s| < 4 then None
    else if |s| == 4 then DecodeFinal(s[0], s[1], s[2], s[3])
    else
      match DecodeGroup(s[0], s[1], s[2], s[3])
      case None => None
      case Some(group) =>
        match Decode(s[4..])
        case None => None
        case Some(rest) => Some(group + rest)
  }

  lemma GroupRoundTrip(b0: Byte, b1: Byte, b2: Byte)
    ensures var e := EncodeGroup(b0, b1, b2);
      DecodeGroup(e[0], e[1], e[2], e[3]) == Some([b0, b1, b2])
  {
    var v1, v2 := (b0 % 4) * 16 + b1 / 16, (b1 % 16) * 4 + b2 / 64;
    assert v1 / 16 == b0 % 4 && v1 % 16 == b1 / 16;
    assert v2 / 4 == b1 % 16 && v2 % 4 == b2 / 64;
  }

  lemma OnePaddedRoundTrip(b0: Byte)
    ensures var e := Encode([b0]);
      DecodeFinal(e[0], e[1], e[2], e[3]) == Some([b0])
  {
  }

  lemma TwoPaddedRoundTrip(b0: Byte, b1: Byte)
    ensures var e := Encode([b0, b1]);
      DecodeFinal(e[0], e[1], e[2], e[3]) == Some([b0, b1])
  {
  }

  /** Decoding undoes encoding, for every byte string. */
  lemma {:induction false} DecodeEncode(b: seq<Byte>)
    ensures Decode(Encode(b)) == Some(b)
    decreases |b|
  {
    if |b| == 0 {
    } else if |b| == 1 {
      OnePaddedRoundTrip(b[0]);
      assert [b[0]] == b;
    } else if |b| == 2 {
      TwoPaddedRoundTrip(b[0], b[1]);
      assert [b[0], b[1]] == b;
    } else {
      var e := Encode(b);
      var g := EncodeGroup(b[0], b[1], b[2]);
      var rest := Encode(b[3..]);
      assert e == g + rest;
      GroupRoundTrip(b[0], b[1], b[2]);
      DecodeEncode(b[3..]);
      assert e[..4] == g && e[4..] == rest;
      assert [b[0], b[1], b[2]] + b[3..] == b;
      if |b| == 3 {
        assert rest == [] && e == g && b[3..] == [];
        assert DecodeFinal(g[0], g[1], g[2], g[3]) == DecodeGroup(g[0], g[1], g[2], g[3]);
        assert Decode(e) == DecodeFinal(g[0], g[1], g[2], g[3]);
        assert b == [b[0], b[1], b[2]];
      }
    }
  }

  /** The encoding is plain ASCII, so turning it into a Python `str` changes nothing. */
  lemma EncodeIsAscii(b: seq<Byte>)
    ensures IsAscii(Encode(b))
  {
  }
}
