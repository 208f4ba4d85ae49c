/**
 * Python's `repr` of a `str`, as it appears inside the message of the
 * `ValueError` that `int(text, 16)` raises: the text between quotes, with
 * the quote character, backslashes and non-printable characters escaped.
 *
 * Single quotes are used unless the text contains a single quote and no
 * double quote. Printability is modelled for the first 256 code points;
 * every character above them is treated as printable.
 */
module StringRepr {
  import opened Wrappers
  import opened HexDigits

  /** The quote character `repr` puts around `s`. */
  function QuoteFor(s: string): (q: char)
    ensures q == '"' <==> '\'' in s && '"' !in s
    ensures q == '\'' || q == '"'
  {
    if '\'' in s && '"' !in s then '"' else '\''
  }

  /** Code points up to 255 that `repr` writes as a `\x` escape. */
  predicate IsHiddenLatin1(c: char)
  {
    c as int < 32 || 127 <= c as int <= 160 || c as int == 173
  }

  /** A character `repr` copies unchanged into either kind of quotes. */
  predicate IsPlain(c: char)
  {
    32 <= c as int < 127 && c != '\'' && c != '"' && c != '\\'
  }

  /** How `repr` writes one character inside quotes `q`. */
  function Escape(c: char, q: char): (e: string)
    ensures 1 <= |e| <= 4
    ensures |e| == 1 <==> e == [c]
    ensures IsPlain(c) && c != q ==> e == [c]
  {
    if c == q || c == '\\' then ['\\', c]
    else if c == '\t' then "\\t"
    else if c == '\n' then "\\n"
    else if c == '\r' then "\\r"
    else if IsHiddenLatin1(c) then ['\\', 'x', LowerDigit(c as int / 16), LowerDigit(c as int % 16)]
    else [c]
  }

  function EscapeAll(s: string, q: char): (r: string)
    ensures |s| <= |r| <= 4 * |s|
    decreases |s|
  {
    if s == [] then "" else Escape(s[0], q) + EscapeAll(s[1..], q)
  }

  /** `repr(s)`. */
  function Repr(s: string): (r: string)
    ensures |s| + 2 <= |r| <= 4 * |s| + 2
    ensures r[0] == r[|r| - 1] == QuoteFor(s)
  {
    [QuoteFor(s)] + EscapeAll(s, QuoteFor(s)) + [QuoteFor(s)]
  }

  /**
   * Reading the inside of a Python string literal: `\\`, `\'` and `\"` stand
   * for the character after the backslash, `\t`, `\n` and `\r` for tab, line
   * feed and carriage return, `\xHH` for the code point `0xHH`; any other
   * character stands for itself.
   */
  function Unescape(e: string): Option<string>
    decreases |e|
  {
    if e == [] then Some("")
    else if e[0] != '\\' then Prepend(e[0], Unescape(e[1..]))
    else if |e| >= 2 && (e[1] == '\\' || e[1] == '\'' || e[1] == '"') then Prepend(e[1], Unescape(e[2..]))
    else if |e| >= 2 && e[1] == 't' then Prepend('\t', Unescape(e[2..]))
    else if |e| >= 2 && e[1] == 'n' then Prepend('\n', Unescape(e[2..]))
    else if |e| >= 2 && e[1] == 'r' then Prepend('\r', Unescape(e[2..]))
    else if |e| >= 4 && e[1] == 'x' && HexValue(e[2]).Some? && HexValue(e[3]).Some? then
      Prepend((HexValue(e[2]).value * 16 + HexValue(e[3]).value) as char, Unescape(e[4..]))
    else None
  }

  function Prepend(c: char, rest: Option<string>): Option<string>
  {
    match rest
    case None => None
    case Some(r) => Some([c] + r)
  }

  /** One escaped character reads back as that character. */
  lemma UnescapeOne(c: char, q: char, rest: string)
    requires q == '\'' || q == '"'
    ensures Unescape(Escape(c, q) + rest) == Prepend(c, Unescape(rest))
  {
    var e := Escape(c, q) + rest;
    if IsHiddenLatin1(c) && !(c == q || c == '\\' || c == '\t' || c == '\n' || c == '\r') {
      var n := c as int;
      assert e[2] == LowerDigit(n / 16) && e[3] == LowerDigit(n % 16);
      assert e[4..] == rest;
      assert (n / 16 * 16 + n % 16) as char == c;
    } else if c == q || c == '\\' || c == '\t' || c == '\n' || c == '\r' {
      assert e[2..] == rest;
    } else {
      assert e[1..] == rest;
    }
  }

  /** What `repr` writes between the quotes reads back as the text. */
  lemma {:induction false} UnescapeEscape(s: string, q: char)
    requires q == '\'' || q == '"'
    ensures Unescape(EscapeAll(s, q)) == Some(s)
    decreases |s|
  {
    if s != [] {
      UnescapeEscape(s[1..], q);
      UnescapeOne(s[0], q, EscapeAll(s[1..], q));
      assert [s[0]] + s[1..] == s;
    }
  }

  /** `repr(s)` is a literal of `s`: its inside, read back, is `s`. */
  lemma ReprReadsBack(s: string)
    ensures var r := Repr(s);
      Unescape(r[1..|r| - 1]) == Some(s)
  {
    var r := Repr(s);
    assert r[1..|r| - 1] == EscapeAll(s, QuoteFor(s));
    UnescapeEscape(s, QuoteFor(s));
  }

  /** Plain characters are copied as they are. */
  lemma {:induction false} EscapePlain(s: string, q: char)
    requires q == '\'' || q == '"'
    requires forall i | 0 <= i < |s| :: IsPlain(s[i])
    ensures EscapeAll(s, q) == s
    decreases |s|
  {
    if s != [] {
      EscapePlain(s[1..], q);
      assert [s[0]] + s[1..] == s;
    }
  }

  /** The `repr` of text made of plain characters is that text between single quotes. */
  lemma ReprPlain(s: string)
    requires forall i | 0 <= i < |s| :: IsPlain(s[i])
    ensures Repr(s) == "'" + s + "'"
  {
    assert '\'' !in s by {
      forall i | 0 <= i < |s| ensures s[i] != '\'' { }
    }
    EscapePlain(s, '\'');
  }
}
