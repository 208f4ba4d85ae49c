/**
 * Percent-encoding as in section 2.1 of RFC 3986, the way Python's
 * `urllib.parse.quote(s, safe='/')` applies it to the bytes of `s`:
 * letters, digits, `_ . - ~` and `/` stay, every other byte becomes `%`
 * followed by two upper-case hexadecimal digits. `Unquote` is the decoder
 * that undoes it.
 */
module PercentEncoding {
  import opened Wrappers
  import opened Bytes
  import opened HexDigits

  /** The bytes `quote` leaves alone: its always-safe set plus the extra safe `/`. */
  predicate IsSafe(b: Byte)
  {
    || 65 <= b <= 90 || 97 <= b <= 122 || 48 <= b <= 57
    || b == 95 || b == 46 || b == 45 || b == 126
    || b == 47
  }

  function QuoteByte(b: Byte): (s: string)
  {
    if IsSafe(b) then [b as char] else ['%', UpperDigit(b / 16), UpperDigit(b % 16)]
  }

  /** `quote_from_bytes(bs, safe='/')`. */
  function Quote(bs: seq<Byte>): (s: string)
    ensures |bs| <= |s| <= 3 * |bs|
    ensures forall i | 0 <= i < |s| :: s[i] == '%' || (s[i] as int < 128 && IsSafe(s[i] as int))
    decreases |bs|
  {
    if bs == [] then "" else QuoteByte(bs[0]) + Quote(bs[1..])
  }

  /** Percent-decoding: `%XY` is the byte `0xXY`, an ASCII character is its own code. */
  function Unquote(s: string): Option<seq<Byte>>
    decreases |s|
  {
    if s == [] then Some([])
    else if s[0] == '%' then
      if |s| >= 3 && HexValue(s[1]).Some? && HexValue(s[2]).Some? then
        match Unquote(s[3..])
        case None => None
        case Some(rest) => Some([HexValue(s[1]).value * 16 + HexValue(s[2]).value] + rest)
      else None
    else if s[0] as int < 128 then
      match Unquote(s[1..])
      case None => None
      case Some(rest) => Some([s[0] as int] + rest)
    else None
  }

  lemma UnquoteByte(b: Byte, rest: string, tail: seq<Byte>)
    requires Unquote(rest) == Some(tail)
    ensures Unquote(QuoteByte(b) + rest) == Some([b] + tail)
  {
  }

  /** Decoding undoes encoding, for every byte string. */
  lemma {:induction false} UnquoteQuote(bs: seq<Byte>)
    ensures Unquote(Quote(bs)) == Some(bs)
    decreases |bs|
  {
    if bs != [] {
      UnquoteQuote(bs[1..]);
      UnquoteByte(bs[0], Quote(bs[1..]), bs[1..]);
      assert [bs[0]] + bs[1..] == bs;
    }
  }

  /** Safe bytes come out as themselves, so the encoding of safe-only text is that text. */
  lemma {:induction false} QuoteSafe(bs: seq<Byte>)
    requires forall i | 0 <= i < |bs| :: IsSafe(bs[i])
    ensures |Quote(bs)| == |bs|
    ensures forall i | 0 <= i < |bs| :: Quote(bs)[i] == bs[i] as char
    decreases |bs|
  {
    if bs != [] {
      QuoteSafe(bs[1..]);
    }
  }
}
