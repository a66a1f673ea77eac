/** The post body renderer of get_post: HTML-escape the stored body, then
    turn the two inline-image markers back into markup. */
module Render {
  import opened Text

  const ImgOpenMarker: string := "{{img}}"
  const ImgCloseMarker: string := "{{/img}}"
  const ImgOpenTag: string := "<img src='"
  const ImgCloseTag: string := "'/>"

  /** html.escape(s, quote=True) as CPython writes it: five str.replace
      calls, '&' first so that the entities added later are not escaped
      again. */
  function HtmlEscape(s: string): (r: string)
    ensures |r| >= |s|
    ensures '&' !in s && AllInert(s) ==> r == s
  {
    var s1 := Replace(s, "&", "&amp;");
    var s2 := Replace(s1, "<", "&lt;");
    var s3 := Replace(s2, ">", "&gt;");
    var s4 := Replace(s3, "\"", "&quot;");
    ReplaceAbsent(s, "&", "&amp;");
    ReplaceAbsent(s1, "<", "&lt;");
    ReplaceAbsent(s2, ">", "&gt;");
    ReplaceAbsent(s3, "\"", "&quot;");
    ReplaceAbsent(s4, "'", "&#x27;");
    Replace(s4, "'", "&#x27;")
  }

  /** The entity html.escape substitutes for one character. */
  function EscapeChar(c: char): string
  {
    match c
    case '&' => "&amp;"
    case '<' => "&lt;"
    case '>' => "&gt;"
    case '"' => "&quot;"
    case '\'' => "&#x27;"
    case _ => [c]
  }

  /** A character that is not markup-significant in HTML text or in a
      quoted attribute value. */
  predicate Inert(c: char) {
    c != '<' && c != '>' && c != '"' && c != '\''
  }

  predicate AllInert(s: string) {
    forall i :: 0 <= i < |s| ==> Inert(s[i])
  }

  /** Escaping character by character: the reference definition of
      html.escape. Nothing markup-significant survives it. */
  function EscapeChars(s: string): (r: string)
    ensures AllInert(r)
    ensures '{' !in s ==> '{' !in r
  {
    if s == [] then []
    else
      var t := EscapeChars(s[1..]);
      assert AllInert(EscapeChar(s[0]));
      EscapeChar(s[0]) + t
  }

  /** Decodes the five entities EscapeChar introduces; the inverse of
      escaping. */
  function Unescape(s: string): string
    decreases |s|
  {
    if s == [] then []
    else if "&amp;" <= s then "&" + Unescape(s[5..])
    else if "&lt;" <= s then "<" + Unescape(s[4..])
    else if "&gt;" <= s then ">" + Unescape(s[4..])
    else if "&quot;" <= s then "\"" + Unescape(s[6..])
    else if "&#x27;" <= s then "'" + Unescape(s[6..])
    else [s[0]] + Unescape(s[1..])
  }

  lemma EscapeCharThenUnescape(c: char, rest: string)
    ensures Unescape(EscapeChar(c) + rest) == [c] + Unescape(rest)
  {
    var e := EscapeChar(c) + rest;
    if c == '&' {
      assert "&amp;" <= e && e[5..] == rest;
    } else if c == '<' {
      assert e[1] == 'l' && !("&amp;" <= e);
      assert "&lt;" <= e && e[4..] == rest;
    } else if c == '>' {
      assert e[1] == 'g' && !("&amp;" <= e) && !("&lt;" <= e);
      assert "&gt;" <= e && e[4..] == rest;
    } else if c == '"' {
      assert e[1] == 'q' && !("&amp;" <= e) && !("&lt;" <= e) && !("&gt;" <= e);
      assert "&quot;" <= e && e[6..] == rest;
    } else if c == '\'' {
      assert e[1] == '#' && !("&amp;" <= e) && !("&lt;" <= e) && !("&gt;" <= e) && !("&quot;" <= e);
      assert "&#x27;" <= e && e[6..] == rest;
    } else {
      assert e[0] == c && c != '&';
      assert e[1..] == rest;
    }
  }

  /** Escaping loses nothing: decoding the entities gives the body back. */
  lemma {:induction false} UnescapeEscape(s: string)
    ensures Unescape(EscapeChars(s)) == s
  {
    if s != [] {
      UnescapeEscape(s[1..]);
      EscapeCharThenUnescape(s[0], EscapeChars(s[1..]));
      assert [s[0]] + s[1..] == s;
    }
  }

  lemma ReplaceUnit(c: char, d: char, rep: string)
    ensures Replace([c], [d], rep) == if c == d then rep else [c]
  {
    assert [c][1..] == [];
    if c == d {
      assert [d] <= [c];
      assert [c][|[d]|..] == [];
      assert rep + [] == rep;
    } else {
      assert !([d] <= [c]) by { assert [c][0] != [d][0]; }
    }
  }

  /** The five replacements applied to a single character give its entity. */
  lemma HtmlEscapeChar(c: char)
    ensures HtmlEscape([c]) == EscapeChar(c)
  {
    ReplaceUnit(c, '&', "&amp;");
    if c == '&' {
      EscapedAmp();
    } else {
      ReplaceUnit(c, '<', "&lt;");
      if c == '<' {
        EscapedLt();
      } else {
        ReplaceUnit(c, '>', "&gt;");
        if c == '>' {
          EscapedGt();
        } else {
          ReplaceUnit(c, '"', "&quot;");
          ReplaceUnit(c, '\'', "&#x27;");
          if c == '"' {
            ReplaceAbsent("&quot;", "'", "&#x27;");
          }
        }
      }
    }
  }

  lemma EscapedAmp()
    ensures Replace(Replace(Replace(Replace("&amp;", "<", "&lt;"), ">", "&gt;"), "\"", "&quot;"), "'", "&#x27;")
      == "&amp;"
  {
    var s := "&amp;";
    ReplaceAbsent(s, "<", "&lt;");
    assert Replace(s, "<", "&lt;") == s;
    ReplaceAbsent(s, ">", "&gt;");
    assert Replace(s, ">", "&gt;") == s;
    ReplaceAbsent(s, "\"", "&quot;");
    assert Replace(s, "\"", "&quot;") == s;
    ReplaceAbsent(s, "'", "&#x27;");
  }

  lemma EscapedLt()
    ensures Replace(Replace(Replace("&lt;", ">", "&gt;"), "\"", "&quot;"), "'", "&#x27;") == "&lt;"
  {
    var s := "&lt;";
    ReplaceAbsent(s, ">", "&gt;");
    assert Replace(s, ">", "&gt;") == s;
    ReplaceAbsent(s, "\"", "&quot;");
    assert Replace(s, "\"", "&quot;") == s;
    ReplaceAbsent(s, "'", "&#x27;");
  }

  lemma EscapedGt()
    ensures Replace(Replace("&gt;", "\"", "&quot;"), "'", "&#x27;") == "&gt;"
  {
    var s := "&gt;";
    ReplaceAbsent(s, "\"", "&quot;");
    assert Replace(s, "\"", "&quot;") == s;
    ReplaceAbsent(s, "'", "&#x27;");
  }

  lemma HtmlEscapeConcat(x: string, y: string)
    ensures HtmlEscape(x + y) == HtmlEscape(x) + HtmlEscape(y)
  {
    ReplaceCharConcat(x, y, '&', "&amp;");
    var x1, y1 := Replace(x, "&", "&amp;"), Replace(y, "&", "&amp;");
    ReplaceCharConcat(x1, y1, '<', "&lt;");
    var x2, y2 := Replace(x1, "<", "&lt;"), Replace(y1, "<", "&lt;");
    ReplaceCharConcat(x2, y2, '>', "&gt;");
    var x3, y3 := Replace(x2, ">", "&gt;"), Replace(y2, ">", "&gt;");
    ReplaceCharConcat(x3, y3, '"', "&quot;");
    var x4, y4 := Replace(x3, "\"", "&quot;"), Replace(y3, "\"", "&quot;");
    ReplaceCharConcat(x4, y4, '\'', "&#x27;");
  }

  /** html.escape's chain of replacements is exactly per-character escaping. */
  lemma {:induction false} HtmlEscapeIsPerChar(s: string)
    ensures HtmlEscape(s) == EscapeChars(s)
  {
    if s == [] {
    } else {
      assert s == [s[0]] + s[1..];
      HtmlEscapeConcat([s[0]], s[1..]);
      HtmlEscapeChar(s[0]);
      HtmlEscapeIsPerChar(s[1..]);
    }
  }

  /** get_post's rendering of a stored body. The output is safe markup:
      only the image tag fragments carry markup, whatever the author wrote. */
  function RenderBody(body: string): (r: string)
    ensures SafeMarkup(r)
  {
    var escaped := HtmlEscape(body);
    HtmlEscapeIsPerChar(body);
    TaggingIsSafe(escaped);
    Replace(Replace(escaped, ImgOpenMarker, ImgOpenTag), ImgCloseMarker, ImgCloseTag)
  }

  /** Turning the markers of inert text into tag fragments gives safe
      markup. */
  lemma TaggingIsSafe(escaped: string)
    requires AllInert(escaped)
    ensures SafeMarkup(Replace(Replace(escaped, ImgOpenMarker, ImgOpenTag), ImgCloseMarker, ImgCloseTag))
  {
    InertIsSafe(escaped);
    MarkersAreInert();
    ReplaceKeepsSafe(escaped, ImgOpenMarker, ImgOpenTag);
    ReplaceKeepsSafe(Replace(escaped, ImgOpenMarker, ImgOpenTag), ImgCloseMarker, ImgCloseTag);
  }

  /** Rendered markup: a sequence of inert characters and the two image
      tag fragments, and nothing else. */
  predicate SafeMarkup(s: string)
    decreases |s|
  {
    if s == [] then true
    else if ImgOpenTag <= s then SafeMarkup(s[|ImgOpenTag|..])
    else if ImgCloseTag <= s then SafeMarkup(s[|ImgCloseTag|..])
    else Inert(s[0]) && SafeMarkup(s[1..])
  }

  lemma {:induction false} InertIsSafe(s: string)
    requires AllInert(s)
    ensures SafeMarkup(s)
  {
    if s != [] {
      assert !(ImgOpenTag <= s) by { assert ImgOpenTag[0] == '<'; }
      assert !(ImgCloseTag <= s) by { assert ImgCloseTag[0] == '\''; }
      InertIsSafe(s[1..]);
    }
  }

  lemma SafeAfterTag(tag: string, s: string)
    requires tag == ImgOpenTag || tag == ImgCloseTag
    requires SafeMarkup(s)
    ensures SafeMarkup(tag + s)
  {
    assert (tag + s)[|tag|..] == s;
    if tag == ImgCloseTag {
      assert !(ImgOpenTag <= tag + s) by { assert (tag + s)[0] == '\''; }
    }
  }

  lemma SafeAfterInert(c: char, s: string)
    requires Inert(c) && SafeMarkup(s)
    ensures SafeMarkup([c] + s)
  {
    assert ([c] + s)[1..] == s;
    assert !(ImgOpenTag <= [c] + s) by { assert ImgOpenTag[0] == '<'; }
    assert !(ImgCloseTag <= [c] + s) by { assert ImgCloseTag[0] == '\''; }
  }

  lemma {:induction false} SafeDropInert(s: string, k: nat)
    requires SafeMarkup(s)
    requires k <= |s| && AllInert(s[..k])
    ensures SafeMarkup(s[k..])
  {
    if k > 0 {
      assert s[0] == s[..k][0];
      assert !(ImgOpenTag <= s) by { assert ImgOpenTag[0] == '<'; }
      assert !(ImgCloseTag <= s) by { assert ImgCloseTag[0] == '\''; }
      assert s[1..][..k - 1] == s[..k][1..];
      SafeDropInert(s[1..], k - 1);
      assert s[1..][k - 1..] == s[k..];
    }
  }

  /** Substituting a tag fragment for an inert marker keeps markup safe. */
  lemma {:induction false} ReplaceKeepsSafe(s: string, pat: string, rep: string)
    requires pat != [] && AllInert(pat)
    requires pat[0] !in ImgOpenTag && pat[0] !in ImgCloseTag
    requires rep == ImgOpenTag || rep == ImgCloseTag
    requires SafeMarkup(s)
    ensures SafeMarkup(Replace(s, pat, rep))
    decreases |s|
  {
    if s == [] {
    } else if ImgOpenTag <= s {
      var rest := s[|ImgOpenTag|..];
      assert s == ImgOpenTag + rest;
      ReplaceSkips(ImgOpenTag, rest, pat, rep);
      ReplaceKeepsSafe(rest, pat, rep);
      SafeAfterTag(ImgOpenTag, Replace(rest, pat, rep));
    } else if ImgCloseTag <= s {
      var rest := s[|ImgCloseTag|..];
      assert s == ImgCloseTag + rest;
      ReplaceSkips(ImgCloseTag, rest, pat, rep);
      ReplaceKeepsSafe(rest, pat, rep);
      SafeAfterTag(ImgCloseTag, Replace(rest, pat, rep));
    } else if pat <= s {
      assert s[..|pat|] == pat;
      SafeDropInert(s, |pat|);
      ReplaceKeepsSafe(s[|pat|..], pat, rep);
      SafeAfterTag(rep, Replace(s[|pat|..], pat, rep));
    } else {
      ReplaceKeepsSafe(s[1..], pat, rep);
      SafeAfterInert(s[0], Replace(s[1..], pat, rep));
    }
  }

  /** Both markers are inert text that no tag fragment can start a match
      inside. */
  lemma MarkersAreInert()
    ensures AllInert(ImgOpenMarker) && AllInert(ImgCloseMarker)
    ensures ImgOpenMarker[0] == '{' && ImgCloseMarker[0] == '{'
    ensures '{' !in ImgOpenTag && '{' !in ImgCloseTag
  {
  }

  /** What safe markup means at one position: no double quote; a '<' opens
      an image tag, a '>' closes one, and a single quote belongs to one of
      the two fragments. */
  predicate WellFormedAt(s: string, i: nat)
    requires i < |s|
  {
    && s[i] != '"'
    && (s[i] == '<' ==> i + |ImgOpenTag| <= |s| && s[i..i + |ImgOpenTag|] == ImgOpenTag)
    && (s[i] == '>' ==> 2 <= i && s[i - 2..i + 1] == ImgCloseTag)
    && (s[i] == '\'' ==>
         (9 <= i && s[i - 9..i + 1] == ImgOpenTag) || (i + 3 <= |s| && s[i..i + 3] == ImgCloseTag))
  }

  lemma WellFormedShift(s: string, n: nat, i: nat)
    requires n <= i < |s| && WellFormedAt(s[n..], i - n)
    ensures WellFormedAt(s, i)
  {
    var t, j := s[n..], i - n;
    assert s[i] == t[j];
    if s[i] == '<' {
      SliceShift(s, n, j, j + |ImgOpenTag|);
    }
    if s[i] == '>' {
      SliceShift(s, n, j - 2, j + 1);
    }
    if s[i] == '\'' {
      if 9 <= j && t[j - 9..j + 1] == ImgOpenTag {
        SliceShift(s, n, j - 9, j + 1);
      } else {
        assert j + 3 <= |t| && t[j..j + 3] == ImgCloseTag;
        SliceShift(s, n, j, j + 3);
      }
    }
  }

  lemma SliceShift(s: string, n: nat, lo: nat, hi: nat)
    requires n <= |s| && lo <= hi <= |s| - n
    ensures s[n..][lo..hi] == s[n + lo..n + hi]
  {
  }

  lemma WellFormedInTag(s: string, tag: string, i: nat)
    requires tag == ImgOpenTag || tag == ImgCloseTag
    requires tag <= s && i < |tag|
    ensures WellFormedAt(s, i)
  {
    assert s[..|tag|] == tag;
    assert s[i] == tag[i];
    assert s[0..|tag|] == s[..|tag|];
  }

  /** Every position of safe markup is well formed. */
  lemma {:induction false} SafeMarkupAt(s: string, i: nat)
    requires SafeMarkup(s) && i < |s|
    ensures WellFormedAt(s, i)
    decreases |s|
  {
    if ImgOpenTag <= s {
      if i < |ImgOpenTag| {
        WellFormedInTag(s, ImgOpenTag, i);
      } else {
        SafeMarkupAt(s[|ImgOpenTag|..], i - |ImgOpenTag|);
        WellFormedShift(s, |ImgOpenTag|, i);
      }
    } else if ImgCloseTag <= s {
      if i < |ImgCloseTag| {
        WellFormedInTag(s, ImgCloseTag, i);
      } else {
        SafeMarkupAt(s[|ImgCloseTag|..], i - |ImgCloseTag|);
        WellFormedShift(s, |ImgCloseTag|, i);
      }
    } else if i > 0 {
      SafeMarkupAt(s[1..], i - 1);
      WellFormedShift(s, 1, i);
    }
  }

  /** Markup safety of a rendered body, stated position by position. */
  lemma RenderedMarkup(body: string)
    ensures var out := RenderBody(body);
      forall i :: 0 <= i < |out| ==> WellFormedAt(out, i)
  {
    var out := RenderBody(body);
    forall i | 0 <= i < |out|
      ensures WellFormedAt(out, i)
    {
      SafeMarkupAt(out, i);
    }
  }

  /** A body without any '{' cannot hold a marker: rendering only escapes,
      and the output holds no markup at all. */
  lemma RenderWithoutMarkers(body: string)
    requires '{' !in body
    ensures RenderBody(body) == EscapeChars(body)
    ensures AllInert(RenderBody(body))
  {
    HtmlEscapeIsPerChar(body);
    var escaped := HtmlEscape(body);
    ReplaceAbsent(escaped, ImgOpenMarker, ImgOpenTag);
    ReplaceAbsent(escaped, ImgCloseMarker, ImgCloseTag);
  }

  /** An image between the two markers becomes an img tag around the
      escaped URL, and the text around it is only escaped. */
  lemma RenderImage(a: string, url: string, b: string)
    requires '{' !in a && '{' !in url && '{' !in b
    ensures RenderBody(a + ImgOpenMarker + url + ImgCloseMarker + b) ==
      EscapeChars(a) + ImgOpenTag + EscapeChars(url) + ImgCloseTag + EscapeChars(b)
  {
    var ea, eu, eb := EscapeChars(a), EscapeChars(url), EscapeChars(b);
    var body := a + ImgOpenMarker + url + ImgCloseMarker + b;
    EscapeAroundMarkers(a, url, b);
    OpenMarkerReplaced(ea, eu, eb);
    MarkersAreInert();
    var x := ea + ImgOpenTag + eu;
    assert '{' !in x;
    CloseMarkerReplaced(x, eb);
    RenderBodySteps(body);
  }

  lemma RenderBodySteps(body: string)
    ensures RenderBody(body) == Replace(Replace(HtmlEscape(body), ImgOpenMarker, ImgOpenTag), ImgCloseMarker, ImgCloseTag)
  {
  }

  /** Escaping leaves the markers as they are. */
  lemma EscapeAroundMarkers(a: string, url: string, b: string)
    ensures HtmlEscape(a + ImgOpenMarker + url + ImgCloseMarker + b) ==
      EscapeChars(a) + ImgOpenMarker + EscapeChars(url) + ImgCloseMarker + EscapeChars(b)
  {
    MarkersAreInert();
    assert HtmlEscape(ImgOpenMarker) == ImgOpenMarker && HtmlEscape(ImgCloseMarker) == ImgCloseMarker;
    HtmlEscapeIsPerChar(a);
    HtmlEscapeIsPerChar(url);
    HtmlEscapeIsPerChar(b);
    HtmlEscapeConcat(a + ImgOpenMarker + url + ImgCloseMarker, b);
    HtmlEscapeConcat(a + ImgOpenMarker + url, ImgCloseMarker);
    HtmlEscapeConcat(a + ImgOpenMarker, url);
    HtmlEscapeConcat(a, ImgOpenMarker);
  }

  /** Replacing the opening marker touches nothing else. */
  lemma OpenMarkerReplaced(ea: string, eu: string, eb: string)
    requires '{' !in ea && '{' !in eu && '{' !in eb
    ensures Replace(ea + ImgOpenMarker + eu + ImgCloseMarker + eb, ImgOpenMarker, ImgOpenTag) ==
      ea + ImgOpenTag + eu + ImgCloseMarker + eb
  {
    var rest := eu + (ImgCloseMarker + eb);
    OpenMarkerSkipsRest(eu, eb);
    OpenMarkerAtHead(rest);
    ReplaceSkips(ea, ImgOpenMarker + rest, ImgOpenMarker, ImgOpenTag);
    Assoc5(ea, ImgOpenMarker, eu, ImgCloseMarker, eb);
    Assoc5(ea, ImgOpenTag, eu, ImgCloseMarker, eb);
  }

  lemma Assoc5(a: string, b: string, c: string, d: string, e: string)
    ensures a + b + c + d + e == a + (b + (c + (d + e)))
  {
  }

  lemma OpenMarkerSkipsRest(eu: string, eb: string)
    requires '{' !in eu && '{' !in eb
    ensures Replace(eu + (ImgCloseMarker + eb), ImgOpenMarker, ImgOpenTag) == eu + (ImgCloseMarker + eb)
  {
    ReplaceAbsent(eb, ImgOpenMarker, ImgOpenTag);
    CloseMarkerSkipped(eb);
    ReplaceSkips(eu, ImgCloseMarker + eb, ImgOpenMarker, ImgOpenTag);
  }

  lemma OpenMarkerAtHead(rest: string)
    ensures Replace(ImgOpenMarker + rest, ImgOpenMarker, ImgOpenTag) == ImgOpenTag + Replace(rest, ImgOpenMarker, ImgOpenTag)
  {
    var s := ImgOpenMarker + rest;
    assert ImgOpenMarker <= s;
    assert s[|ImgOpenMarker|..] == rest;
  }

  /** Replacing the closing marker after text without '{'. */
  lemma CloseMarkerReplaced(x: string, eb: string)
    requires '{' !in x && '{' !in eb
    ensures Replace(x + ImgCloseMarker + eb, ImgCloseMarker, ImgCloseTag) == x + ImgCloseTag + eb
  {
    assert x + ImgCloseMarker + eb == x + (ImgCloseMarker + eb);
    ReplaceSkips(x, ImgCloseMarker + eb, ImgCloseMarker, ImgCloseTag);
    assert (ImgCloseMarker + eb)[|ImgCloseMarker|..] == eb;
    ReplaceAbsent(eb, ImgCloseMarker, ImgCloseTag);
    assert x + ImgCloseTag + eb == x + (ImgCloseTag + eb);
  }

  /** The opening marker never matches at the start of the closing one. */
  lemma CloseMarkerSkipped(y: string)
    ensures Replace(ImgCloseMarker + y, ImgOpenMarker, ImgOpenTag) == ImgCloseMarker + Replace(y, ImgOpenMarker, ImgOpenTag)
  {
    var m := ImgOpenMarker;
    var s := ImgCloseMarker + y;
    var s1 := "{/img}}" + y;
    var s2 := "/img}}" + y;
    assert s[1..] == s1 && s1[1..] == s2;
    assert !(m <= s) by { assert s[2] != m[2]; }
    assert !(m <= s1) by { assert s1[1] != m[1]; }
    ReplaceNoMatchHead(s, m, ImgOpenTag);
    ReplaceNoMatchHead(s1, m, ImgOpenTag);
    ReplaceSkips("/img}}", y, m, ImgOpenTag);
  }
}
