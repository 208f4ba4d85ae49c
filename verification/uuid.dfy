/**
 * The post-id parse that `delete_post` performs with `uuid.UUID(post_id)`
 * followed by `str(...)`: a partial function from text to the canonical
 * lower-case 8-4-4-4-12 form that post ids are stored in.
 *
 * The string handling of the UUID constructor is modelled as it is written:
 * every `urn:` and then every `uuid:` is removed, braces are stripped from
 * both ends, every hyphen is removed, and what remains must be exactly 32
 * hexadecimal digits.
 */
module Uuid {
  import opened Wrappers
  import opened HexDigits
  import StringRepr

  predicate IsLowerHexDigit(c: char)
  {
    '0' <= c <= '9' || 'a' <= c <= 'f'
  }

  /** Positions of the four hyphens in `str(uuid)`. */
  predicate IsHyphenPosition(i: int)
  {
    i == 8 || i == 13 || i == 18 || i == 23
  }

  /** The form `str(uuid.uuid4())` produces, and the form post ids are stored in. */
  predicate IsCanonical(s: string)
  {
    |s| == 36 &&
    forall i | 0 <= i < 36 :: if IsHyphenPosition(i) then s[i] == '-' else IsLowerHexDigit(s[i])
  }

  function ToLower(c: char): (d: char)
    ensures IsHexDigit(c) ==> IsLowerHexDigit(d)
    ensures IsLowerHexDigit(c) ==> d == c
  {
    if 'A' <= c <= 'F' then (c as int + 32) as char else c
  }

  function LowerAll(s: string): string
  {
    seq(|s|, i requires 0 <= i < |s| => ToLower(s[i]))
  }

  /** Python's `s.replace(pat, '')`: removes the non-overlapping occurrences of `pat`, scanning left to right. */
  function RemoveAll(s: string, pat: string): (r: string)
    requires pat != []
    ensures |r| <= |s|
    decreases |s|
  {
    if |s| < |pat| then s
    else if s[..|pat|] == pat then RemoveAll(s[|pat|..], pat)
    else [s[0]] + RemoveAll(s[1..], pat)
  }

  predicate IsBrace(c: char)
  {
    c == '{' || c == '}'
  }

  function StripLeft(s: string): (r: string)
    ensures |r| <= |s|
  {
    if s != [] && IsBrace(s[0]) then StripLeft(s[1..]) else s
  }

  function StripRight(s: string): (r: string)
    ensures |r| <= |s|
  {
    if s != [] && IsBrace(s[|s| - 1]) then StripRight(s[..|s| - 1]) else s
  }

  /** Python's `s.strip('{}')`. */
  function StripBraces(s: string): string
  {
    StripRight(StripLeft(s))
  }

  /** `str(uuid)` of the 32 hexadecimal digits `h`. */
  function Format(h: string): (s: string)
    requires |h| == 32
  {
    h[..8] + "-" + h[8..12] + "-" + h[12..16] + "-" + h[16..20] + "-" + h[20..]
  }

  /** The hexadecimal digits the UUID constructor is left with. */
  function Digits(text: string): string
  {
    RemoveAll(StripBraces(RemoveAll(RemoveAll(text, "urn:"), "uuid:")), "-")
  }

  /** `str(uuid.UUID(text))`, or `None` where the constructor raises `ValueError`. */
  function Parse(text: string): (r: Option<string>)
    ensures r.Some? ==> IsCanonical(r.value)
  {
    var h := Digits(text);
    if |h| == 32 && forall i | 0 <= i < 32 :: IsHexDigit(h[i]) then
      FormatCanonical(LowerAll(h));
      Some(Format(LowerAll(h)))
    else
      None
  }

  /** The message of the `ValueError` the UUID constructor raises when the digits are not 32 long. */
  const BadLengthMessage := "badly formed hexadecimal UUID string"

  /** The start of the message of the `ValueError` that `int(digits, 16)` raises. */
  const IntLiteralPrefix := "invalid literal for int() with base 16: "

  /**
   * `str(e)` for the `ValueError` raised where `Parse` fails: the constructor's
   * own message when the digits are not 32 long, otherwise `int()`'s message
   * about the digits, which then hold a character that is not hexadecimal.
   */
  function ParseFailure(text: string): (m: string)
    requires Parse(text).None?
    ensures m == BadLengthMessage <==> |Digits(text)| != 32
    ensures |Digits(text)| == 32 ==>
              (exists i | 0 <= i < 32 :: !IsHexDigit(Digits(text)[i])) &&
              m == IntLiteralPrefix + StringRepr.Repr(Digits(text))
  {
    var h := Digits(text);
    if |h| != 32 then BadLengthMessage
    else
      var m := IntLiteralPrefix + StringRepr.Repr(h);
      assert m[0] != BadLengthMessage[0];
      m
  }

  /** Text shorter than 32 characters never has 32 digits left. */
  lemma ShortTextIsBadLength(text: string)
    requires |text| < 32
    ensures Parse(text).None? && ParseFailure(text) == BadLengthMessage
  {
  }

  /**
   * 32 characters with nothing for the constructor to remove, one of them not
   * hexadecimal (say 32 `g`), reach `int()`, whose message quotes them.
   */
  lemma NotHexMessage(text: string)
    requires |text| == 32
    requires forall i | 0 <= i < 32 ::
               text[i] != 'u' && !IsBrace(text[i]) && text[i] != '-' && StringRepr.IsPlain(text[i])
    requires exists i | 0 <= i < 32 :: !IsHexDigit(text[i])
    ensures Parse(text).None?
    ensures ParseFailure(text) == IntLiteralPrefix + "'" + text + "'"
  {
    assert 'u' !in text && '-' !in text by {
      forall i | 0 <= i < 32 ensures text[i] != 'u' && text[i] != '-' { }
    }
    RemoveAllAbsent(text, "urn:");
    RemoveAllAbsent(text, "uuid:");
    assert StripLeft(text) == text;
    assert StripRight(text) == text;
    RemoveAllAbsent(text, "-");
    assert Digits(text) == text;
    StringRepr.ReprPlain(text);
  }

  lemma FormatCanonical(h: string)
    requires |h| == 32
    requires forall i | 0 <= i < 32 :: IsLowerHexDigit(h[i])
    ensures IsCanonical(Format(h))
  {
  }

  lemma {:induction false} RemoveAllAbsent(s: string, pat: string)
    requires pat != [] && pat[0] !in s
    ensures RemoveAll(s, pat) == s
    decreases |s|
  {
    if |s| >= |pat| {
      assert s[..|pat|][0] == s[0];
      assert s[0] in s;
      assert forall c | c in s[1..] :: c in s;
      RemoveAllAbsent(s[1..], pat);
      assert [s[0]] + s[1..] == s;
    }
  }

  /** Removing a one-character pattern distributes over concatenation. */
  lemma {:induction false} RemoveAllAppend(a: string, b: string, pat: string)
    requires |pat| == 1
    ensures RemoveAll(a + b, pat) == RemoveAll(a, pat) + RemoveAll(b, pat)
    decreases |a|
  {
    if a == [] {
      assert a + b == b;
    } else {
      assert (a + b)[1..] == a[1..] + b;
      assert (a + b)[..1] == a[..1];
      RemoveAllAppend(a[1..], b, pat);
      if a[..1] == pat {
      } else {
        assert [a[0]] + RemoveAll(a[1..], pat) + RemoveAll(b, pat) == [a[0]] + (RemoveAll(a[1..], pat) + RemoveAll(b, pat));
      }
    }
  }

  lemma HyphenStep(a: string, rest: string)
    requires '-' !in a
    ensures RemoveAll(a + "-" + rest, "-") == a + RemoveAll(rest, "-")
  {
    assert a + "-" + rest == a + ("-" + rest);
    RemoveAllAppend(a, "-" + rest, "-");
    RemoveAllAbsent(a, "-");
    RemoveAllAppend("-", rest, "-");
    assert RemoveAll("-", "-") == "";
  }

  /** Between two hyphen positions a canonical id holds digits only. */
  lemma NoHyphenBetween(s: string, i: int, j: int)
    requires IsCanonical(s) && 0 <= i <= j <= 36
    requires forall k | i <= k < j :: !IsHyphenPosition(k)
    ensures '-' !in s[i..j]
  {
    forall k | 0 <= k < j - i ensures s[i..j][k] != '-' {
      assert s[i..j][k] == s[i + k];
    }
  }

  /** The hyphen-free digits of a canonical id, in order. */
  lemma CanonicalDigits(s: string)
    requires IsCanonical(s)
    ensures RemoveAll(s, "-") == s[..8] + s[9..13] + s[14..18] + s[19..23] + s[24..]
  {
    NoHyphenBetween(s, 0, 8);
    NoHyphenBetween(s, 9, 13);
    NoHyphenBetween(s, 14, 18);
    NoHyphenBetween(s, 19, 23);
    NoHyphenBetween(s, 24, 36);
    assert s == s[..8] + "-" + s[9..];
    HyphenStep(s[..8], s[9..]);
    assert s[9..] == s[9..13] + "-" + s[14..];
    HyphenStep(s[9..13], s[14..]);
    assert s[14..] == s[14..18] + "-" + s[19..];
    HyphenStep(s[14..18], s[19..]);
    assert s[19..] == s[19..23] + "-" + s[24..];
    HyphenStep(s[19..23], s[24..]);
    RemoveAllAbsent(s[24..], "-");
  }

  lemma CanonicalSurvivesStripping(s: string)
    requires IsCanonical(s)
    ensures StripBraces(RemoveAll(RemoveAll(s, "urn:"), "uuid:")) == s
  {
    assert forall k | 0 <= k < |s| :: s[k] != 'u';
    RemoveAllAbsent(s, "urn:");
    RemoveAllAbsent(s, "uuid:");
    assert StripLeft(s) == s;
    assert StripRight(s) == s;
  }

  /** A stored id parses to itself, so `delete_post` finds a post by the id the feed reports for it. */
  lemma CanonicalParsesToItself(s: string)
    requires IsCanonical(s)
    ensures Parse(s) == Some(s)
  {
    CanonicalSurvivesStripping(s);
    CanonicalDigits(s);
    var h := s[..8] + s[9..13] + s[14..18] + s[19..23] + s[24..];
    assert Digits(s) == h;
    assert |h| == 32;
    assert h[..8] == s[..8];
    assert h[8..12] == s[9..13];
    assert h[12..16] == s[14..18];
    assert h[16..20] == s[19..23];
    assert h[20..] == s[24..];
    forall k | 0 <= k < 32 ensures IsLowerHexDigit(h[k]) {
      if k < 8 { assert h[k] == h[..8][k]; }
      else if k < 12 { assert h[k] == h[8..12][k - 8]; }
      else if k < 16 { assert h[k] == h[12..16][k - 12]; }
      else if k < 20 { assert h[k] == h[16..20][k - 16]; }
      else { assert h[k] == h[20..][k - 20]; }
    }
    assert LowerAll(h) == h;
    assert s == s[..8] + "-" + s[9..13] + "-" + s[14..18] + "-" + s[19..23] + "-" + s[24..];
    assert Format(h) == s;
  }

  /** Parsing is idempotent: its result is a fixed point of the parse. */
  lemma ParseIdempotent(text: string)
    requires Parse(text).Some?
    ensures Parse(Parse(text).value) == Parse(text)
  {
    CanonicalParsesToItself(Parse(text).value);
  }
}
