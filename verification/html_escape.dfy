/** `escapeHtml` of the report route: four global single-character replaces,
    `&` first, then `<`, `>` and `"`. */
module HtmlEscape {
  import opened Strings

  /** `s.replace(/c/g, with)`: every `c` replaced by `with`, all else kept in order. */
  function ReplaceAll(s: string, c: char, with: string): (r: string)
    ensures c !in s ==> r == s
    ensures forall d :: d in r ==> (d in s && d != c) || d in with
  {
    if s == [] then []
    else (if s[0] == c then with else [s[0]]) + ReplaceAll(s[1..], c, with)
  }

  lemma {:induction false} ReplaceAllAppend(a: string, b: string, c: char, with: string)
    ensures ReplaceAll(a + b, c, with) == ReplaceAll(a, c, with) + ReplaceAll(b, c, with)
    decreases |a|
  {
    if a == [] {
      assert a + b == b;
    } else {
      assert (a + b)[1..] == a[1..] + b;
      ReplaceAllAppend(a[1..], b, c, with);
    }
  }

  /** The replace chain of `escapeHtml`, in the source's order. */
  function EscapeHtml(text: string): string {
    var amp := ReplaceAll(text, '&', "&amp;");
    var lt := ReplaceAll(amp, '<', "&lt;");
    var gt := ReplaceAll(lt, '>', "&gt;");
    ReplaceAll(gt, '"', "&quot;")
  }

  /** The entity a single character stands for in escaped text. */
  function Entity(c: char): string {
    if c == '&' then "&amp;"
    else if c == '<' then "&lt;"
    else if c == '>' then "&gt;"
    else if c == '"' then "&quot;"
    else [c]
  }

  /** The reference escaping: every character replaced by its entity in a
      single left-to-right pass. */
  function EscapeEach(text: string): string {
    if text == [] then [] else Entity(text[0]) + EscapeEach(text[1..])
  }

  lemma EscapeHtmlAppend(a: string, b: string)
    ensures EscapeHtml(a + b) == EscapeHtml(a) + EscapeHtml(b)
  {
    var a1, b1 := ReplaceAll(a, '&', "&amp;"), ReplaceAll(b, '&', "&amp;");
    ReplaceAllAppend(a, b, '&', "&amp;");
    var a2, b2 := ReplaceAll(a1, '<', "&lt;"), ReplaceAll(b1, '<', "&lt;");
    ReplaceAllAppend(a1, b1, '<', "&lt;");
    var a3, b3 := ReplaceAll(a2, '>', "&gt;"), ReplaceAll(b2, '>', "&gt;");
    ReplaceAllAppend(a2, b2, '>', "&gt;");
    ReplaceAllAppend(a3, b3, '"', "&quot;");
  }

  lemma ReplaceAllChar(x: char, c: char, with: string)
    ensures ReplaceAll([x], c, with) == if x == c then with else [x]
  {
    assert [x][1..] == [];
  }

  /** One character goes through the chain to its entity: an entity a later
      stage introduces holds none of the characters replaced after it, and
      the `&` it starts with was already replaced. */
  lemma EscapeHtmlChar(c: char)
    ensures EscapeHtml([c]) == Entity(c)
  {
    ReplaceAllChar(c, '&', "&amp;");
    if c == '&' {
      assert '<' !in "&amp;" && '>' !in "&amp;" && '"' !in "&amp;";
    } else {
      ReplaceAllChar(c, '<', "&lt;");
      if c == '<' {
        assert '>' !in "&lt;" && '"' !in "&lt;";
      } else {
        ReplaceAllChar(c, '>', "&gt;");
        if c == '>' {
          assert '"' !in "&gt;";
        } else {
          ReplaceAllChar(c, '"', "&quot;");
        }
      }
    }
  }

  /** Because `&` is replaced first, the chain never re-escapes an entity it
      introduced: it is the single-pass character-by-character escaping. */
  lemma {:induction false} EscapeHtmlIsCharwise(text: string)
    ensures EscapeHtml(text) == EscapeEach(text)
    decreases |text|
  {
    if text == [] {
    } else {
      assert text == [text[0]] + text[1..];
      EscapeHtmlAppend([text[0]], text[1..]);
      EscapeHtmlChar(text[0]);
      EscapeHtmlIsCharwise(text[1..]);
    }
  }

  /** Escaped text holds no `<`, `>` or `"`: it cannot open or close a tag or
      end an attribute value. */
  lemma EscapedHasNoMarkup(text: string)
    ensures '<' !in EscapeHtml(text) && '>' !in EscapeHtml(text) && '"' !in EscapeHtml(text)
  {
    var amp := ReplaceAll(text, '&', "&amp;");
    var lt := ReplaceAll(amp, '<', "&lt;");
    assert '<' !in "&lt;";
    var gt := ReplaceAll(lt, '>', "&gt;");
    assert '<' !in "&gt;" && '>' !in "&gt;";
    assert '<' !in "&quot;" && '>' !in "&quot;" && '"' !in "&quot;";
  }

  /** Text without any of the four special characters is left as it is. */
  lemma EscapeHtmlIdentity(text: string)
    requires '&' !in text && '<' !in text && '>' !in text && '"' !in text
    ensures EscapeHtml(text) == text
  {
  }

  /** A special character is escaped once: `<` becomes exactly `&lt;`. */
  lemma EscapeLessThan()
    ensures EscapeHtml("<") == "&lt;"
  {
    EscapeHtmlChar('<');
  }

  /** An entity already present in the input is not kept as markup: its `&` is
      escaped and the rest (`lt;` of `&lt;`, say) is kept, so it reads back as
      the characters it was. */
  lemma EntityInInputEscapedAgain(rest: string)
    requires '&' !in rest && '<' !in rest && '>' !in rest && '"' !in rest
    ensures EscapeHtml("&" + rest) == "&amp;" + rest
  {
    EscapeHtmlIdentity(rest);
    EscapeHtmlChar('&');
    EscapeHtmlAppend("&", rest);
  }

  /** Decoding of the four entities, left to right; every other character is kept. */
  function Unescape(s: string): string
    decreases |s|
  {
    if s == [] then []
    else if StartsWith(s, "&amp;") then "&" + Unescape(s[5..])
    else if StartsWith(s, "&lt;") then "<" + Unescape(s[4..])
    else if StartsWith(s, "&gt;") then ">" + Unescape(s[4..])
    else if StartsWith(s, "&quot;") then "\"" + Unescape(s[6..])
    else [s[0]] + Unescape(s[1..])
  }

  lemma UnescapeAmp(rest: string)
    ensures Unescape("&amp;" + rest) == "&" + Unescape(rest)
  {
    var s := "&amp;" + rest;
    assert s[..5] == "&amp;" && s[5..] == rest;
  }

  lemma UnescapeLt(rest: string)
    ensures Unescape("&lt;" + rest) == "<" + Unescape(rest)
  {
    var s := "&lt;" + rest;
    assert s[..4] == "&lt;" && s[4..] == rest;
    assert s[1] == 'l' && !StartsWith(s, "&amp;");
  }

  lemma UnescapeGt(rest: string)
    ensures Unescape("&gt;" + rest) == ">" + Unescape(rest)
  {
    var s := "&gt;" + rest;
    assert s[..4] == "&gt;" && s[4..] == rest;
    assert s[1] == 'g' && !StartsWith(s, "&amp;") && !StartsWith(s, "&lt;");
  }

  lemma UnescapeQuot(rest: string)
    ensures Unescape("&quot;" + rest) == "\"" + Unescape(rest)
  {
    var s := "&quot;" + rest;
    assert s[..6] == "&quot;" && s[6..] == rest;
    assert s[1] == 'q' && !StartsWith(s, "&amp;") && !StartsWith(s, "&lt;") && !StartsWith(s, "&gt;");
  }

  lemma UnescapePlain(c: char, rest: string)
    requires c != '&'
    ensures Unescape([c] + rest) == [c] + Unescape(rest)
  {
    var s := [c] + rest;
    assert s[0] == c && s[1..] == rest;
  }

  lemma UnescapeEntity(c: char, rest: string)
    ensures Unescape(Entity(c) + rest) == [c] + Unescape(rest)
  {
    if c == '&' {
      UnescapeAmp(rest);
    } else if c == '<' {
      UnescapeLt(rest);
    } else if c == '>' {
      UnescapeGt(rest);
    } else if c == '"' {
      UnescapeQuot(rest);
    } else {
      UnescapePlain(c, rest);
    }
  }

  /** Escaping loses nothing: the entities decode back to the original text,
      so distinct texts escape to distinct texts. */
  lemma {:induction false} UnescapeEscapeHtml(text: string)
    ensures Unescape(EscapeHtml(text)) == text
    decreases |text|
  {
    EscapeHtmlIsCharwise(text);
    if text != [] {
      UnescapeEntity(text[0], EscapeEach(text[1..]));
      UnescapeEscapeHtml(text[1..]);
      EscapeHtmlIsCharwise(text[1..]);
    }
  }
}
