/**
 * The frontend's pure helpers: the bearer header, the text-overlay
 * encoding of a caption, and the rewriting of a media URL so that it
 * carries an ImageKit transformation segment `tr:<params>` after its
 * fourth `/`.
 *
 * Python's truthiness is explicit: a token or a caption counts as given
 * only when it is present and non-empty. Text starts at its UTF-8 bytes.
 */
module Frontend {
  import opened Wrappers
  import opened Bytes
  import Base64
  import PercentEncoding

  /** `get_headers`, given the session's token. */
  function GetHeaders(token: Option<string>): (h: map<string, string>)
    ensures "Authorization" in h <==> token.Some? && token.value != ""
    ensures h.Keys <= {"Authorization"}
    ensures "Authorization" in h ==> h["Authorization"] == "Bearer " + token.value
  {
    if token.Some? && token.value != "" then map["Authorization" := "Bearer " + token.value] else map[]
  }

  /**
   * `encode_text_for_overlay`: base 64 of the text, then percent-encoded with
   * `/` kept. The base 64 text is ASCII, so passing it through a Python `str`
   * and back to UTF-8 bytes leaves it as it is.
   */
  function EncodeTextForOverlay(text: Option<seq<Byte>>): (r: string)
    ensures r == "" <==> text.None? || text.value == []
  {
    if text.None? || text.value == [] then ""
    else PercentEncoding.Quote(Base64.Encode(text.value))
  }

  /** Percent-decoding and then base 64 decoding the overlay text gives back the caption's bytes. */
  lemma OverlayRoundTrip(text: seq<Byte>)
    requires text != []
    ensures var r := EncodeTextForOverlay(Some(text));
      PercentEncoding.Unquote(r).Some? && Base64.Decode(PercentEncoding.Unquote(r).value) == Some(text)
  {
    PercentEncoding.UnquoteQuote(Base64.Encode(text));
    Base64.DecodeEncode(text);
  }

  /** Of the base 64 characters only `+` and `=` get escaped, as `%2B` and `%3D`. */
  lemma OverlayEscapes(c: Byte)
    requires Base64.InAlphabet(c) || c == Base64.Pad
    ensures c == 43 ==> PercentEncoding.QuoteByte(c) == "%2B"
    ensures c == 61 ==> PercentEncoding.QuoteByte(c) == "%3D"
    ensures c != 43 && c != 61 ==> PercentEncoding.QuoteByte(c) == [c as char]
  {
  }

  /** Python's `s.split("/")`: the pieces between slashes, empty ones included. */
  function Split(s: string): (parts: seq<string>)
    ensures |parts| >= 1
    ensures forall i | 0 <= i < |parts| :: '/' !in parts[i]
    decreases |s|
  {
    if s == [] then [""]
    else
      var rest := Split(s[1..]);
      if s[0] == '/' then [""] + rest
      else [[s[0]] + rest[0]] + rest[1..]
  }

  /** Python's `"/".join(parts)`. */
  function Join(parts: seq<string>): (s: string)
    ensures SlashCount(s) >= |parts| - 1
  {
    if parts == [] then ""
    else if |parts| == 1 then parts[0]
    else
      var rest := Join(parts[1..]);
      SlashCountAppend(parts[0] + "/", rest);
      SlashCountAppend(parts[0], "/");
      parts[0] + "/" + rest
  }

  function SlashCount(s: string): nat
  {
    if s == [] then 0 else (if s[0] == '/' then 1 else 0) + SlashCount(s[1..])
  }

  /** Joining the pieces of a split gives back the text. */
  lemma {:induction false} JoinSplit(s: string)
    ensures Join(Split(s)) == s
    decreases |s|
  {
    if s != [] {
      var rest := Split(s[1..]);
      JoinSplit(s[1..]);
      if s[0] == '/' {
        assert ([""] + rest)[1..] == rest;
      } else {
        var parts := [[s[0]] + rest[0]] + rest[1..];
        if |rest| == 1 {
          assert Join(rest) == rest[0];
        } else {
          assert parts[1..] == rest[1..];
          assert Join(rest) == rest[0] + "/" + Join(rest[1..]);
        }
      }
    }
  }

  /** Splitting the join of slash-free pieces gives back the pieces. */
  lemma {:induction false} SplitJoin(parts: seq<string>)
    requires |parts| >= 1
    requires forall i | 0 <= i < |parts| :: '/' !in parts[i]
    ensures Split(Join(parts)) == parts
    decreases |parts|, |parts[0]|
  {
    var p := parts[0];
    if p == [] {
      if |parts| > 1 {
        SplitJoin(parts[1..]);
        assert Join(parts) == "/" + Join(parts[1..]);
        assert ("/" + Join(parts[1..]))[1..] == Join(parts[1..]);
        assert [""] + parts[1..] == parts;
      }
    } else {
      var shorter := [p[1..]] + parts[1..];
      assert forall i | 1 <= i < |shorter| :: shorter[i] == parts[i];
      assert forall c | c in p[1..] :: c in p;
      SplitJoin(shorter);
      var j := Join(parts);
      if |parts| == 1 {
        assert j == p && Join(shorter) == p[1..];
      } else {
        assert shorter[1..] == parts[1..];
        assert j == p + "/" + Join(parts[1..]);
        assert Join(shorter) == p[1..] + "/" + Join(parts[1..]);
      }
      assert j[0] == p[0] && j[1..] == Join(shorter) && p[0] != '/';
      assert [p[0]] + p[1..] == p;
      assert [p] + parts[1..] == parts;
    }
  }

  lemma {:induction false} JoinAppend(a: seq<string>, b: seq<string>)
    requires |a| >= 1 && |b| >= 1
    ensures Join(a + b) == Join(a) + "/" + Join(b)
    decreases |a|
  {
    if |a| == 1 {
      assert (a + b)[1..] == b;
    } else {
      assert (a + b)[1..] == a[1..] + b;
      JoinAppend(a[1..], b);
    }
  }

  lemma {:induction false} SlashCountAppend(a: string, b: string)
    ensures SlashCount(a + b) == SlashCount(a) + SlashCount(b)
    decreases |a|
  {
    if a != [] {
      assert (a + b)[1..] == a[1..] + b;
      SlashCountAppend(a[1..], b);
    } else {
      assert a + b == b;
    }
  }

  lemma {:induction false} SlashFree(s: string)
    requires '/' !in s
    ensures SlashCount(s) == 0
    decreases |s|
  {
    if s != [] {
      assert forall c | c in s[1..] :: c in s;
      SlashFree(s[1..]);
    }
  }

  /** The join of `n` slash-free pieces has `n - 1` slashes. */
  lemma {:induction false} JoinSlashCount(parts: seq<string>)
    requires |parts| >= 1
    requires forall i | 0 <= i < |parts| :: '/' !in parts[i]
    ensures SlashCount(Join(parts)) == |parts| - 1
    decreases |parts|
  {
    SlashFree(parts[0]);
    if |parts| > 1 {
      JoinSlashCount(parts[1..]);
      SlashCountAppend(parts[0] + "/", Join(parts[1..]));
      SlashCountAppend(parts[0], "/");
    }
  }

  /** The transformation parameters in force: a caption's text overlay replaces whatever was passed. */
  function EffectiveParams(params: string, caption: Option<seq<Byte>>): (p: string)
    ensures caption.Some? && caption.value != [] ==> |p| > 10 && p[..10] == "l-text,ie-"
    ensures caption.None? || caption.value == [] ==> p == params
  {
    if caption.Some? && caption.value != [] then
      "l-text,ie-" + EncodeTextForOverlay(caption) + ",ly-N20,lx-20,fs-100,co-white,bg-000000A0,l-end"
    else params
  }

  /** The URL with the segment `tr:<p>` put after its first four `/`-pieces. */
  function InsertSegment(url: string, p: string): (r: string)
    ensures |url| + |p| + 4 <= |r| <= |url| + |p| + 5
  {
    var parts := Split(url);
    var cut := if |parts| < 4 then |parts| else 4;
    CutPoint(url);
    Join(parts[..cut]) + "/tr:" + p + "/" + Join(parts[cut..])
  }

  /** Where a URL is cut: a short URL is kept whole, a longer one splits at its fourth `/`. */
  lemma CutPoint(url: string)
    ensures var parts := Split(url);
      if |parts| <= 4 then Join(parts[..|parts|]) == url && Join(parts[|parts|..]) == ""
      else |Join(parts[..4])| + 1 + |Join(parts[4..])| == |url|
  {
    var parts := Split(url);
    JoinSplit(url);
    if |parts| <= 4 {
      assert parts[..|parts|] == parts;
      assert parts[|parts|..] == [];
    } else {
      FourthSlash(url);
    }
  }

  /** `create_transformed_url`. */
  function CreateTransformedUrl(originalUrl: string, params: string, caption: Option<seq<Byte>>): (r: string)
    ensures r == originalUrl <==> EffectiveParams(params, caption) == ""
    ensures EffectiveParams(params, caption) != "" ==>
              |r| >= |originalUrl| + |EffectiveParams(params, caption)| + 4
  {
    var p := EffectiveParams(params, caption);
    if p == "" then originalUrl else InsertSegment(originalUrl, p)
  }

  /** With no caption and no parameters the URL comes back untouched. */
  lemma NothingToApply(url: string, caption: Option<seq<Byte>>)
    requires caption.None? || caption.value == []
    ensures CreateTransformedUrl(url, "", caption) == url
  {
  }

  /** A caption discards the passed parameters in favour of its text overlay. */
  lemma CaptionOverridesParams(url: string, params: string, caption: seq<Byte>)
    requires caption != []
    ensures var enc := EncodeTextForOverlay(Some(caption));
      enc != "" &&
      EffectiveParams(params, Some(caption)) ==
        "l-text,ie-" + enc + ",ly-N20,lx-20,fs-100,co-white,bg-000000A0,l-end" &&
      CreateTransformedUrl(url, params, Some(caption)) ==
        CreateTransformedUrl(url, EffectiveParams("", Some(caption)), None)
  {
  }

  /** Cutting `ins` out of `head + ins + tail` at position `|head|` leaves `head + tail`. */
  lemma CutOut(head: string, ins: string, tail: string)
    ensures var r := head + ins + tail;
      |head| + |ins| <= |r| && r[|head|..|head| + |ins|] == ins &&
      r[..|head|] + r[|head| + |ins|..] == head + tail
  {
    var r := head + ins + tail;
    assert r[..|head|] == head;
    assert r[|head|..|head| + |ins|] == ins;
    assert r[|head| + |ins|..] == tail;
  }

  /** A URL of five or more pieces is its first four pieces, a `/`, and the rest; that `/` is its fourth. */
  lemma FourthSlash(url: string)
    requires |Split(url)| >= 5
    ensures var base := Join(Split(url)[..4]);
      url == base + "/" + Join(Split(url)[4..]) && SlashCount(base + "/") == 4
  {
    var parts := Split(url);
    JoinSplit(url);
    assert parts == parts[..4] + parts[4..];
    JoinAppend(parts[..4], parts[4..]);
    JoinSlashCount(parts[..4]);
    SlashCountAppend(Join(parts[..4]), "/");
  }

  /** The first four pieces and a `/` are a prefix of the URL ending in its fourth `/`. */
  lemma FourthSlashPrefix(url: string)
    requires |Split(url)| >= 5
    ensures var k := |Join(Split(url)[..4])| + 1;
      k <= |url| && url[..k] == Join(Split(url)[..4]) + "/" && SlashCount(url[..k]) == 4 && url[k - 1] == '/'
  {
    var head := Join(Split(url)[..4]) + "/";
    FourthSlash(url);
    assert url[..|head|] == head;
  }

  lemma InsertSegmentCutOut(url: string, p: string)
    requires |Split(url)| >= 5
    ensures var head := Join(Split(url)[..4]) + "/";
      var r := InsertSegment(url, p);
      var ins := "tr:" + p + "/";
      && url == head + Join(Split(url)[4..])
      && |head| + |ins| <= |r| && r[|head|..|head| + |ins|] == ins
      && r[..|head|] + r[|head| + |ins|..] == url
  {
    var parts := Split(url);
    var head, path := Join(parts[..4]) + "/", Join(parts[4..]);
    var ins := "tr:" + p + "/";
    FourthSlash(url);
    assert InsertSegment(url, p) == head + ins + path;
    CutOut(head, ins, path);
  }

  lemma SegmentAfterFourthSlash(url: string, p: string)
    requires |Split(url)| >= 5
    ensures var r := InsertSegment(url, p);
      var ins := "tr:" + p + "/";
      var k := |Join(Split(url)[..4])| + 1;
      && k <= |url| && SlashCount(url[..k]) == 4 && url[k - 1] == '/'
      && k + |ins| <= |r| && r[k..k + |ins|] == ins
      && r[..k] + r[k + |ins|..] == url
  {
    FourthSlashPrefix(url);
    InsertSegmentCutOut(url, p);
  }

  /**
   * For a URL with at least five `/`-pieces the segment `tr:<params>/` is
   * inserted right after the fourth `/`, and cutting it out again gives the
   * original URL.
   */
  lemma InsertionIsAfterFourthSlash(url: string, params: string, caption: Option<seq<Byte>>)
    requires |Split(url)| >= 5
    requires EffectiveParams(params, caption) != ""
    ensures var r := CreateTransformedUrl(url, params, caption);
      var ins := "tr:" + EffectiveParams(params, caption) + "/";
      var k := |Join(Split(url)[..4])| + 1;
      && k <= |url| && SlashCount(url[..k]) == 4 && url[k - 1] == '/'
      && k + |ins| <= |r| && r[k..k + |ins|] == ins
      && r[..k] + r[k + |ins|..] == url
  {
    var p := EffectiveParams(params, caption);
    assert CreateTransformedUrl(url, params, caption) == InsertSegment(url, p);
    SegmentAfterFourthSlash(url, p);
  }

  /** A URL with at most three slashes gets the segment appended, with a trailing `/`. */
  lemma ShortUrlGetsTrailingSegment(url: string, params: string, caption: Option<seq<Byte>>)
    requires |Split(url)| <= 4
    requires EffectiveParams(params, caption) != ""
    ensures CreateTransformedUrl(url, params, caption) ==
      url + "/tr:" + EffectiveParams(params, caption) + "/"
  {
    var parts := Split(url);
    JoinSplit(url);
    assert parts[..|parts|] == parts;
    assert parts[|parts|..] == [];
  }

  /** A URL has one more `/`-piece than it has slashes. */
  lemma PiecesAreSlashesPlusOne(s: string)
    ensures |Split(s)| == SlashCount(s) + 1
  {
    JoinSplit(s);
    JoinSlashCount(Split(s));
  }
}
