/** Escaping text for the PDF renderer's markup: four replacements, one after the other, and the
    anchor whose address they protect. */
module Markup {

  /** `text.replace(c, sub)` for a one-character pattern. */
  function Replace(s: string, c: char, sub: string): string {
    if s == "" then "" else (if s[0] == c then sub else [s[0]]) + Replace(s[1..], c, sub)
  }

  function Escape(text: string): string {
    Replace(Replace(Replace(Replace(text, '&', "&amp;"), '<', "&lt;"), '>', "&gt;"), '\n', "<br/>")
  }

  /** What one character becomes. */
  function EscapeChar(c: char): string {
    if c == '&' then "&amp;"
    else if c == '<' then "&lt;"
    else if c == '>' then "&gt;"
    else if c == '\n' then "<br/>"
    else [c]
  }

  function EscapeEach(text: string): string {
    if text == "" then "" else EscapeChar(text[0]) + EscapeEach(text[1..])
  }

  lemma {:induction false} ReplaceConcat(a: string, b: string, c: char, sub: string)
    ensures Replace(a + b, c, sub) == Replace(a, c, sub) + Replace(b, c, sub)
    decreases |a|
  {
    if a == "" {
      assert a + b == b;
    } else {
      assert (a + b)[1..] == a[1..] + b;
      ReplaceConcat(a[1..], b, c, sub);
    }
  }

  lemma {:induction false} ReplaceAbsent(s: string, c: char, sub: string)
    requires c !in s
    ensures Replace(s, c, sub) == s
    decreases |s|
  {
    if s != "" {
      assert s[0] in s;
      ReplaceAbsent(s[1..], c, sub);
      assert s == [s[0]] + s[1..];
    }
  }

  lemma {:induction false} ReplaceSingle(x: char, c: char, sub: string)
    ensures Replace([x], c, sub) == if x == c then sub else [x]
  {
    assert [x][1..] == "";
    assert Replace("", c, sub) == "";
    assert sub + "" == sub && [x] + "" == [x];
  }

  predicate Without(s: string, c: char) {
    c !in s
  }

  /** The later passes find nothing in what an earlier one wrote. */
  lemma {:induction false} LaterPassesIdle(s: string)
    requires Without(s, '>') && Without(s, '\n')
    ensures Replace(Replace(s, '>', "&gt;"), '\n', "<br/>") == s
    ensures Without(s, '<') ==> Replace(Replace(Replace(s, '<', "&lt;"), '>', "&gt;"), '\n', "<br/>") == s
  {
    ReplaceAbsent(s, '>', "&gt;");
    ReplaceAbsent(s, '\n', "<br/>");
    if Without(s, '<') {
      ReplaceAbsent(s, '<', "&lt;");
    }
  }

  /** Escaping one character by the four passes. */
  lemma {:induction false} EscapeOfChar(c: char)
    ensures Escape([c]) == EscapeChar(c)
  {
    ReplaceSingle(c, '&', "&amp;");
    if c == '&' {
      LaterPassesIdle("&amp;");
    } else {
      ReplaceSingle(c, '<', "&lt;");
      if c == '<' {
        LaterPassesIdle("&lt;");
      } else {
        ReplaceSingle(c, '>', "&gt;");
        if c == '>' {
          ReplaceAbsent("&gt;", '\n', "<br/>");
        } else {
          ReplaceSingle(c, '\n', "<br/>");
        }
      }
    }
  }

  lemma {:induction false} EscapeConcat(a: string, b: string)
    ensures Escape(a + b) == Escape(a) + Escape(b)
  {
    ReplaceConcat(a, b, '&', "&amp;");
    var a1, b1 := Replace(a, '&', "&amp;"), Replace(b, '&', "&amp;");
    ReplaceConcat(a1, b1, '<', "&lt;");
    var a2, b2 := Replace(a1, '<', "&lt;"), Replace(b1, '<', "&lt;");
    ReplaceConcat(a2, b2, '>', "&gt;");
    ReplaceConcat(Replace(a2, '>', "&gt;"), Replace(b2, '>', "&gt;"), '\n', "<br/>");
  }

  /** The four passes equal one character-by-character map: no pass rewrites another's output. */
  lemma {:induction false} FourPassesAreOneMap(text: string)
    ensures Escape(text) == EscapeEach(text)
    decreases |text|
  {
    if text != "" {
      assert text == [text[0]] + text[1..];
      EscapeConcat([text[0]], text[1..]);
      EscapeOfChar(text[0]);
      FourPassesAreOneMap(text[1..]);
    }
  }

  // ---------------------------------------------------------------------------------------
  // Decoding
  // ---------------------------------------------------------------------------------------

  predicate StartsWith(s: string, prefix: string) {
    |prefix| <= |s| && s[..|prefix|] == prefix
  }

  /** Reads the escapes back; also the quote escape of an attribute. */
  function Decode(s: string): string
    decreases |s|
  {
    if s == "" then ""
    else if StartsWith(s, "&amp;") then "&" + Decode(s[5..])
    else if StartsWith(s, "&lt;") then "<" + Decode(s[4..])
    else if StartsWith(s, "&gt;") then ">" + Decode(s[4..])
    else if StartsWith(s, "&quot;") then "\"" + Decode(s[6..])
    else if StartsWith(s, "<br/>") then "\n" + Decode(s[5..])
    else [s[0]] + Decode(s[1..])
  }

  /** The attribute escape of one character. */
  function HrefChar(c: char): string {
    if c == '"' then "&quot;" else EscapeChar(c)
  }

  lemma {:induction false} DecodePlain(c: char, rest: string)
    requires c != '&' && c != '<'
    ensures Decode([c] + rest) == [c] + Decode(rest)
  {
    var s := [c] + rest;
    assert s[0] == c && s[1..] == rest;
    assert !StartsWith(s, "&amp;") && !StartsWith(s, "&lt;") && !StartsWith(s, "&gt;") && !StartsWith(s, "&quot;");
    assert !StartsWith(s, "<br/>");
  }

  lemma {:induction false} DecodeAmp(rest: string)
    ensures Decode("&amp;" + rest) == "&" + Decode(rest)
  {
    var s := "&amp;" + rest;
    assert s[..5] == "&amp;" && s[5..] == rest;
  }

  lemma {:induction false} DecodeLt(rest: string)
    ensures Decode("&lt;" + rest) == "<" + Decode(rest)
  {
    var s := "&lt;" + rest;
    assert s[..4] == "&lt;" && s[4..] == rest && s[1] == 'l';
  }

  lemma {:induction false} DecodeGt(rest: string)
    ensures Decode("&gt;" + rest) == ">" + Decode(rest)
  {
    var s := "&gt;" + rest;
    assert s[..4] == "&gt;" && s[4..] == rest && s[1] == 'g';
  }

  lemma {:induction false} DecodeQuot(rest: string)
    ensures Decode("&quot;" + rest) == "\"" + Decode(rest)
  {
    var s := "&quot;" + rest;
    assert s[..6] == "&quot;" && s[6..] == rest && s[1] == 'q';
  }

  lemma {:induction false} DecodeBreak(rest: string)
    ensures Decode("<br/>" + rest) == "\n" + Decode(rest)
  {
    var s := "<br/>" + rest;
    assert s[..5] == "<br/>" && s[5..] == rest && s[0] == '<';
  }

  lemma {:induction false} DecodeChar(c: char, e: string, rest: string)
    requires e == EscapeChar(c) || e == HrefChar(c)
    ensures Decode(e + rest) == [c] + Decode(rest)
  {
    if |e| == 1 {
      DecodePlain(c, rest);
    } else {
      DecodeAmp(rest);
      DecodeLt(rest);
      DecodeGt(rest);
      DecodeQuot(rest);
      DecodeBreak(rest);
    }
  }

  /** Every original string is recovered: escaping is injective. */
  lemma {:induction false} DecodeEscape(text: string)
    ensures Decode(Escape(text)) == text
    decreases |text|
  {
    FourPassesAreOneMap(text);
    if text != "" {
      FourPassesAreOneMap(text[1..]);
      DecodeChar(text[0], EscapeChar(text[0]), EscapeEach(text[1..]));
      DecodeEscape(text[1..]);
      assert text == [text[0]] + text[1..];
    }
  }

  // ---------------------------------------------------------------------------------------
  // Angle brackets and quotes
  // ---------------------------------------------------------------------------------------

  /** Every angle bracket of `s` belongs to a `<br/>`. */
  predicate OnlyBreaks(s: string)
    decreases |s|
  {
    s == "" ||
    (if StartsWith(s, "<br/>") then OnlyBreaks(s[5..]) else s[0] != '<' && s[0] != '>' && OnlyBreaks(s[1..]))
  }

  function CountBreaks(s: string): nat
    decreases |s|
  {
    if s == "" then 0
    else if StartsWith(s, "<br/>") then 1 + CountBreaks(s[5..])
    else CountBreaks(s[1..])
  }

  function CountNewlines(s: string): nat {
    if s == "" then 0 else (if s[0] == '\n' then 1 else 0) + CountNewlines(s[1..])
  }

  lemma {:induction false} PlainPrefix(e: string, rest: string)
    requires forall c :: c in e ==> c != '<' && c != '>'
    ensures OnlyBreaks(e + rest) == OnlyBreaks(rest) && CountBreaks(e + rest) == CountBreaks(rest)
    decreases |e|
  {
    if e == "" {
      assert e + rest == rest;
    } else {
      var s := e + rest;
      assert e[0] in e && s[0] == e[0];
      assert !StartsWith(s, "<br/>");
      assert s[1..] == e[1..] + rest;
      assert forall c :: c in e[1..] ==> c in e;
      PlainPrefix(e[1..], rest);
    }
  }

  lemma {:induction false} BreakPrefix(rest: string)
    ensures OnlyBreaks("<br/>" + rest) == OnlyBreaks(rest) && CountBreaks("<br/>" + rest) == 1 + CountBreaks(rest)
  {
    assert ("<br/>" + rest)[..5] == "<br/>" && ("<br/>" + rest)[5..] == rest;
  }

  /** The only markup in escaped text is one line break per newline of the original. */
  lemma {:induction false} OnlyNewlinesBecomeMarkup(text: string)
    ensures OnlyBreaks(Escape(text)) && CountBreaks(Escape(text)) == CountNewlines(text)
    decreases |text|
  {
    FourPassesAreOneMap(text);
    if text != "" {
      var rest := EscapeEach(text[1..]);
      FourPassesAreOneMap(text[1..]);
      OnlyNewlinesBecomeMarkup(text[1..]);
      if text[0] == '\n' {
        BreakPrefix(rest);
      } else {
        PlainPrefix(EscapeChar(text[0]), rest);
      }
    }
  }

  function Href(url: string): string {
    Replace(Escape(url), '"', "&quot;")
  }

  const LINK_COLOR := "#1d4ed8"

  function Hyperlink(escapedLabel: string, url: string): string {
    "<a href=\"" + Href(url) + "\"><font color=\"" + LINK_COLOR + "\"><u>" + escapedLabel + "</u></font></a>"
  }

  function HrefEach(url: string): string {
    if url == "" then "" else HrefChar(url[0]) + HrefEach(url[1..])
  }

  lemma {:induction false} QuotedChar(c: char)
    ensures Replace(EscapeChar(c), '"', "&quot;") == HrefChar(c)
  {
    if c == '"' {
      ReplaceSingle(c, '"', "&quot;");
    } else {
      ReplaceAbsent(EscapeChar(c), '"', "&quot;");
    }
  }

  lemma {:induction false} HrefIsOneMap(url: string)
    ensures Href(url) == HrefEach(url)
    decreases |url|
  {
    FourPassesAreOneMap(url);
    if url != "" {
      FourPassesAreOneMap(url[1..]);
      HrefIsOneMap(url[1..]);
      ReplaceConcat(EscapeChar(url[0]), EscapeEach(url[1..]), '"', "&quot;");
      QuotedChar(url[0]);
    }
  }

  /** An opening bracket gets into the address only as a line break. */
  lemma {:induction false} HrefBrackets(url: string)
    ensures '<' in HrefEach(url) <==> '\n' in url
    decreases |url|
  {
    if url != "" {
      HrefBrackets(url[1..]);
      assert url == [url[0]] + url[1..];
      assert '<' in HrefChar(url[0]) <==> url[0] == '\n';
    }
  }

  lemma {:induction false} DecodeHref(url: string)
    ensures Decode(HrefEach(url)) == url
    decreases |url|
  {
    if url != "" {
      DecodeHref(url[1..]);
      DecodeChar(url[0], HrefChar(url[0]), HrefEach(url[1..]));
      assert url == [url[0]] + url[1..];
    }
  }

  lemma {:induction false} HrefHasNoQuote(url: string)
    ensures '"' !in HrefEach(url)
    decreases |url|
  {
    if url != "" {
      HrefHasNoQuote(url[1..]);
      assert '"' !in HrefChar(url[0]);
    }
  }

  lemma {:induction false} HrefHasOnlyBreaks(url: string)
    ensures OnlyBreaks(HrefEach(url))
    decreases |url|
  {
    if url != "" {
      HrefHasOnlyBreaks(url[1..]);
      if url[0] == '\n' {
        BreakPrefix(HrefEach(url[1..]));
      } else {
        PlainPrefix(HrefChar(url[0]), HrefEach(url[1..]));
      }
    }
  }

  /** The address contains no double quote, so it ends where the attribute does, and no bracket but
      those of line breaks, which are there iff the url has a newline; and decoding it gives the url
      back. */
  lemma {:induction false} HrefIsContained(url: string)
    ensures '"' !in Href(url) && OnlyBreaks(Href(url)) && Decode(Href(url)) == url
    ensures '<' in Href(url) <==> '\n' in url
  {
    HrefIsOneMap(url);
    DecodeHref(url);
    HrefHasNoQuote(url);
    HrefHasOnlyBreaks(url);
    HrefBrackets(url);
  }

  predicate EndsWith(s: string, suffix: string) {
    |suffix| <= |s| && s[|s| - |suffix|..] == suffix
  }

  lemma {:induction false} Pieces(a: string, b: string, c: string, d: string)
    requires c != ""
    ensures var s := a + b + c + d;
            && |s| > |a| + |b| && s[..|a|] == a && s[|a|..|a| + |b|] == b && s[|a| + |b|] == c[0] && EndsWith(s, d)
  {
  }

  lemma {:induction false} AnchorPieces(escapedLabel: string, url: string) returns (opening: string, closing: string)
    ensures Hyperlink(escapedLabel, url) == "<a href=\"" + Href(url) + opening + closing
    ensures opening != "" && opening[0] == '"' && closing == "\"><u>" + escapedLabel + "</u></font></a>"
  {
    opening, closing := "\"><font color=\"" + LINK_COLOR, "\"><u>" + escapedLabel + "</u></font></a>";
    Associate("<a href=\"" + Href(url), opening, "\"><u>", escapedLabel, "</u></font></a>");
    Associate("<a href=\"" + Href(url), "\"><font color=\"", LINK_COLOR, "", "");
    assert opening[0] == '"';
  }

  lemma {:induction false} Associate(a: string, b: string, c: string, d: string, e: string)
    ensures a + b + c + d + e == a + b + (c + d + e) && a + b + c == a + (b + c)
  {
  }

  /** The text between the anchor's first quote and the next one is exactly the escaped address, and the
      label stands between the innermost tags. */
  lemma {:induction false} AnchorTargetsItsUrl(escapedLabel: string, url: string)
    ensures var markup := Hyperlink(escapedLabel, url); var n := |Href(url)|;
            && |markup| > 9 + n && markup[..9] == "<a href=\"" && markup[9 + n] == '"'
            && '"' !in markup[9..9 + n] && Decode(markup[9..9 + n]) == url
            && EndsWith(markup, "\"><u>" + escapedLabel + "</u></font></a>")
  {
    HrefIsContained(url);
    var opening, closing := AnchorPieces(escapedLabel, url);
    Pieces("<a href=\"", Href(url), opening, closing);
  }
}
