/**
 * html_escape: four chained str.replace calls, `&` first. The chain is shown equal to a
 * single pass that escapes each character on its own, from which the safety properties follow:
 * no markup character survives, every `&` starts an entity, and the escaping can be undone.
 */
module Escape {
  import opened Text

  /** Python's s.replace(c, t) for a one-character pattern `c`. */
  function ReplaceChar(s: string, c: char, t: string): (r: string)
    ensures c !in s ==> r == s
    decreases |s|
  {
    if s == [] then [] else (if s[0] == c then t else [s[0]]) + ReplaceChar(s[1..], c, t)
  }

  lemma {:induction false} ReplaceCharAppend(a: string, b: string, c: char, t: string)
    ensures ReplaceChar(a + b, c, t) == ReplaceChar(a, c, t) + ReplaceChar(b, c, t)
    decreases |a|
  {
    if a == [] {
      assert a + b == b;
    } else {
      assert (a + b)[1..] == a[1..] + b;
      ReplaceCharAppend(a[1..], b, c, t);
    }
  }

  /** Replacing in a one-character text. */
  lemma ReplaceCharSingle(c: char, d: char, t: string)
    ensures ReplaceChar([c], d, t) == if c == d then t else [c]
  {
    assert [c][1..] == [];
  }

  /** html_escape as the source writes it: `&`, then `<`, then `>`, then `"`. */
  function HtmlEscape(text: string): string
  {
    ReplaceChar(ReplaceChar(ReplaceChar(ReplaceChar(text, '&', "&amp;"), '<', "&lt;"), '>', "&gt;"), '"', "&quot;")
  }

  predicate IsReserved(c: char)
  {
    c == '&' || c == '<' || c == '>' || c == '"'
  }

  /** Reference definition: the escape of one character. */
  function EscapeChar(c: char): string
  {
    if c == '&' then "&amp;"
    else if c == '<' then "&lt;"
    else if c == '>' then "&gt;"
    else if c == '"' then "&quot;"
    else [c]
  }

  /** Reference definition: every character escaped on its own, in order. */
  function EscapeEach(s: string): string
    decreases |s|
  {
    if s == [] then [] else EscapeChar(s[0]) + EscapeEach(s[1..])
  }

  /**
   * Escaping one character through the chain gives exactly its own escape: the `&` inserted by a
   * later replacement is never escaped again, because `&` is replaced first.
   */
  lemma HtmlEscapeChar(c: char)
    ensures HtmlEscape([c]) == EscapeChar(c)
  {
    ReplaceCharSingle(c, '&', "&amp;");
    if c == '&' {
      assert '<' !in "&amp;" && '>' !in "&amp;" && '"' !in "&amp;";
    } else {
      ReplaceCharSingle(c, '<', "&lt;");
      if c == '<' {
        assert '>' !in "&lt;" && '"' !in "&lt;";
      } else {
        ReplaceCharSingle(c, '>', "&gt;");
        if c == '>' {
          assert '"' !in "&gt;";
        } else {
          ReplaceCharSingle(c, '"', "&quot;");
        }
      }
    }
  }

  lemma HtmlEscapeAppend(a: string, b: string)
    ensures HtmlEscape(a + b) == HtmlEscape(a) + HtmlEscape(b)
  {
    var a1, b1 := ReplaceChar(a, '&', "&amp;"), ReplaceChar(b, '&', "&amp;");
    ReplaceCharAppend(a, b, '&', "&amp;");
    var a2, b2 := ReplaceChar(a1, '<', "&lt;"), ReplaceChar(b1, '<', "&lt;");
    ReplaceCharAppend(a1, b1, '<', "&lt;");
    var a3, b3 := ReplaceChar(a2, '>', "&gt;"), ReplaceChar(b2, '>', "&gt;");
    ReplaceCharAppend(a2, b2, '>', "&gt;");
    ReplaceCharAppend(a3, b3, '"', "&quot;");
  }

  /** The chained replacements equal the single-pass reference. */
  lemma {:induction false} HtmlEscapeIsEscapeEach(s: string)
    ensures HtmlEscape(s) == EscapeEach(s)
    decreases |s|
  {
    if s != [] {
      assert s == [s[0]] + s[1..];
      HtmlEscapeAppend([s[0]], s[1..]);
      HtmlEscapeChar(s[0]);
      HtmlEscapeIsEscapeEach(s[1..]);
    }
  }

  // ---------------------------------------------------------------------------
  // What the escaped text looks like
  // ---------------------------------------------------------------------------

  /** One of the four entities html_escape produces starts at index `i` of `r`. */
  predicate EntityAt(r: string, i: int)
  {
    OccursAt(r, "&amp;", i) || OccursAt(r, "&lt;", i) || OccursAt(r, "&gt;", i) || OccursAt(r, "&quot;", i)
  }

  predicate AmpersandsAreEntities(r: string)
  {
    forall i :: 0 <= i < |r| && r[i] == '&' ==> EntityAt(r, i)
  }

  predicate NoMarkup(r: string)
  {
    '<' !in r && '>' !in r && '"' !in r
  }

  lemma OccursAtAppend(a: string, b: string, e: string, i: int)
    ensures OccursAt(a, e, i) ==> OccursAt(a + b, e, i)
    ensures OccursAt(b, e, i) ==> OccursAt(a + b, e, |a| + i)
  {
  }

  lemma AmpersandsAreEntitiesAppend(a: string, b: string)
    requires AmpersandsAreEntities(a) && AmpersandsAreEntities(b)
    ensures AmpersandsAreEntities(a + b)
  {
    forall i | 0 <= i < |a + b| && (a + b)[i] == '&'
      ensures EntityAt(a + b, i)
    {
      if i < |a| {
        assert EntityAt(a, i);
        OccursAtAppend(a, b, "&amp;", i);
        OccursAtAppend(a, b, "&lt;", i);
        OccursAtAppend(a, b, "&gt;", i);
        OccursAtAppend(a, b, "&quot;", i);
      } else {
        assert b[i - |a|] == '&';
        assert EntityAt(b, i - |a|);
        OccursAtAppend(a, b, "&amp;", i - |a|);
        OccursAtAppend(a, b, "&lt;", i - |a|);
        OccursAtAppend(a, b, "&gt;", i - |a|);
        OccursAtAppend(a, b, "&quot;", i - |a|);
      }
    }
  }

  lemma EscapeCharShape(c: char)
    ensures NoMarkup(EscapeChar(c)) && AmpersandsAreEntities(EscapeChar(c))
  {
    var e := EscapeChar(c);
    if c == '&' || c == '<' || c == '>' || c == '"' {
      assert OccursAt(e, e, 0);
      forall i | 0 <= i < |e| && e[i] == '&' ensures EntityAt(e, i) {
        assert i == 0;
      }
    }
  }

  lemma {:induction false} EscapeEachShape(s: string)
    ensures NoMarkup(EscapeEach(s)) && AmpersandsAreEntities(EscapeEach(s))
    decreases |s|
  {
    if s != [] {
      EscapeCharShape(s[0]);
      EscapeEachShape(s[1..]);
      AmpersandsAreEntitiesAppend(EscapeChar(s[0]), EscapeEach(s[1..]));
    }
  }

  /** No `<`, `>` or `"` survives escaping, and every `&` in the output begins an entity. */
  lemma HtmlEscapeSafe(s: string)
    ensures NoMarkup(HtmlEscape(s))
    ensures AmpersandsAreEntities(HtmlEscape(s))
  {
    HtmlEscapeIsEscapeEach(s);
    EscapeEachShape(s);
  }

  /** Text free of the four reserved characters passes through unchanged. */
  lemma HtmlEscapePlainText(s: string)
    requires forall k :: 0 <= k < |s| ==> !IsReserved(s[k])
    ensures HtmlEscape(s) == s
  {
  }

  // ---------------------------------------------------------------------------
  // Escaping loses nothing
  // ---------------------------------------------------------------------------

  /** Decodes the four entities html_escape produces; any other character stands for itself. */
  function Unescape(r: string): string
    decreases |r|
  {
    if r == [] then []
    else if StartsWith(r, "&amp;") then "&" + Unescape(r[5..])
    else if StartsWith(r, "&lt;") then "<" + Unescape(r[4..])
    else if StartsWith(r, "&gt;") then ">" + Unescape(r[4..])
    else if StartsWith(r, "&quot;") then "\"" + Unescape(r[6..])
    else [r[0]] + Unescape(r[1..])
  }

  lemma UnescapeAmp(rest: string)
    ensures Unescape("&amp;" + rest) == "&" + Unescape(rest)
  {
  }

  lemma UnescapeLt(rest: string)
    ensures Unescape("&lt;" + rest) == "<" + Unescape(rest)
  {
    var r := "&lt;" + rest;
    assert r[1] == 'l';
    assert r[..4] == "&lt;";
    assert r[4..] == rest;
  }

  lemma UnescapeGt(rest: string)
    ensures Unescape("&gt;" + rest) == ">" + Unescape(rest)
  {
    var r := "&gt;" + rest;
    assert r[1] == 'g';
    assert r[..4] == "&gt;";
    assert r[4..] == rest;
  }

  lemma UnescapeQuot(rest: string)
    ensures Unescape("&quot;" + rest) == "\"" + Unescape(rest)
  {
    var r := "&quot;" + rest;
    assert r[1] == 'q';
    assert r[..6] == "&quot;";
    assert r[6..] == rest;
  }

  lemma UnescapePlain(c: char, rest: string)
    requires c != '&'
    ensures Unescape([c] + rest) == [c] + Unescape(rest)
  {
    var r := [c] + rest;
    assert r[0] == c;
    forall e | e in {"&amp;", "&lt;", "&gt;", "&quot;"}
      ensures !StartsWith(r, e)
    {
      assert e[0] == '&';
    }
    assert r[1..] == rest;
  }

  lemma UnescapeEscapeChar(c: char, rest: string)
    ensures Unescape(EscapeChar(c) + rest) == [c] + Unescape(rest)
  {
    if c == '&' {
      UnescapeAmp(rest);
    } else if c == '<' {
      UnescapeLt(rest);
    } else if c == '>' {
      UnescapeGt(rest);
    } else if c == '"' {
      UnescapeQuot(rest);
    } else {
      UnescapePlain(c, rest);
    }
  }

  /** Round trip: unescaping the escaped text gives back the original text. */
  lemma UnescapeHtmlEscape(s: string)
    ensures Unescape(HtmlEscape(s)) == s
  {
    HtmlEscapeIsEscapeEach(s);
    UnescapeEscapeEach(s);
  }

  lemma {:induction false} UnescapeEscapeEach(s: string)
    ensures Unescape(EscapeEach(s)) == s
    decreases |s|
  {
    if s != [] {
      UnescapeEscapeChar(s[0], EscapeEach(s[1..]));
      UnescapeEscapeEach(s[1..]);
    }
  }

  /** Escaping is one-to-one: two different texts never render the same. */
  lemma HtmlEscapeInjective(s: string, t: string)
    requires HtmlEscape(s) == HtmlEscape(t)
    ensures s == t
  {
    UnescapeHtmlEscape(s);
    UnescapeHtmlEscape(t);
  }

  lemma EscapeBetween(open: char, body: string, close: char)
    requires forall k :: 0 <= k < |body| ==> !IsReserved(body[k])
    ensures HtmlEscape([open] + body + [close]) == EscapeChar(open) + body + EscapeChar(close)
  {
    HtmlEscapeAppend([open] + body, [close]);
    HtmlEscapeAppend([open], body);
    HtmlEscapePlainText(body);
    HtmlEscapeChar(open);
    HtmlEscapeChar(close);
  }
}
