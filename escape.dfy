/**
 * `escapeHtml` (src/extension.ts:276-283): five global single-character
 * replacements applied in a fixed order, `&` first, so that the entities the
 * later steps insert are not escaped again.
 */
module Escape {

  /** `s.replace(/c/g, rep)` for a one-character pattern: every occurrence of `c`, left to right. */
  function ReplaceAll(s: string, c: char, rep: string): string
    decreases |s|
  {
    if s == [] then []
    else (if s[0] == c then rep else [s[0]]) + ReplaceAll(s[1..], c, rep)
  }

  /** The chain of replacements, as written in the webview script. */
  function EscapeHtml(s: string): string
  {
    ReplaceAll(ReplaceAll(ReplaceAll(ReplaceAll(ReplaceAll(s,
      '&', "&amp;"), '<', "&lt;"), '>', "&gt;"), '"', "&quot;"), '\'', "&#039;")
  }

  /** Reference definition: the entity each character stands for in escaped text. */
  function EscapeChar(c: char): string
  {
    match c
    case '&' => "&amp;"
    case '<' => "&lt;"
    case '>' => "&gt;"
    case '"' => "&quot;"
    case '\'' => "&#039;"
    case _ => [c]
  }

  /** Reference definition: escape character by character in one pass. */
  function EscapeEach(s: string): string
    decreases |s|
  {
    if s == [] then [] else EscapeChar(s[0]) + EscapeEach(s[1..])
  }

  /**
   * Entity decoding of escaped text: the five entities `escapeHtml` produces
   * are decoded and every other character is kept. The parser's input
   * preprocessing (CR and CRLF to LF, NUL) is not part of this function.
   */
  function Unescape(s: string): string
    decreases |s|
  {
    if s == [] then []
    else if "&amp;" <= s then ['&'] + Unescape(s[5..])
    else if "&lt;" <= s then ['<'] + Unescape(s[4..])
    else if "&gt;" <= s then ['>'] + Unescape(s[4..])
    else if "&quot;" <= s then ['"'] + Unescape(s[6..])
    else if "&#039;" <= s then ['\''] + Unescape(s[6..])
    else [s[0]] + Unescape(s[1..])
  }

  lemma {:induction false} ReplaceAllAppend(a: string, b: string, c: char, rep: string)
    ensures ReplaceAll(a + b, c, rep) == ReplaceAll(a, c, rep) + ReplaceAll(b, c, rep)
    decreases |a|
  {
    if a != [] {
      var head := if a[0] == c then rep else [a[0]];
      assert (a + b)[0] == a[0] && (a + b)[1..] == a[1..] + b;
      ReplaceAllAppend(a[1..], b, c, rep);
      calc {
        ReplaceAll(a + b, c, rep);
        head + ReplaceAll(a[1..] + b, c, rep);
        head + (ReplaceAll(a[1..], c, rep) + ReplaceAll(b, c, rep));
        (head + ReplaceAll(a[1..], c, rep)) + ReplaceAll(b, c, rep);
        ReplaceAll(a, c, rep) + ReplaceAll(b, c, rep);
      }
    } else {
      assert a + b == b;
    }
  }

  lemma {:induction false} ReplaceAllAbsent(s: string, c: char, rep: string)
    requires c !in s
    ensures ReplaceAll(s, c, rep) == s
    decreases |s|
  {
    if s != [] {
      ReplaceAllAbsent(s[1..], c, rep);
    }
  }

  lemma ReplaceAllSingle(x: char, c: char, rep: string)
    ensures ReplaceAll([x], c, rep) == if x == c then rep else [x]
  {
    assert [x][1..] == [];
  }

  /** Replacing a character that occurs nowhere in the entity leaves the entity intact. */
  lemma EntityTail(e: string)
    requires '<' !in e && '>' !in e && '"' !in e && '\'' !in e
    ensures Tail(e) == e
  {
    ReplaceAllAbsent(e, '<', "&lt;");
    ReplaceAllAbsent(e, '>', "&gt;");
    ReplaceAllAbsent(e, '"', "&quot;");
    ReplaceAllAbsent(e, '\'', "&#039;");
  }

  /** The chain is a homomorphism on concatenation. */
  lemma EscapeHtmlAppend(a: string, b: string)
    ensures EscapeHtml(a + b) == EscapeHtml(a) + EscapeHtml(b)
  {
    var a1, b1 := ReplaceAll(a, '&', "&amp;"), ReplaceAll(b, '&', "&amp;");
    ReplaceAllAppend(a, b, '&', "&amp;");
    var a2, b2 := ReplaceAll(a1, '<', "&lt;"), ReplaceAll(b1, '<', "&lt;");
    ReplaceAllAppend(a1, b1, '<', "&lt;");
    var a3, b3 := ReplaceAll(a2, '>', "&gt;"), ReplaceAll(b2, '>', "&gt;");
    ReplaceAllAppend(a2, b2, '>', "&gt;");
    var a4, b4 := ReplaceAll(a3, '"', "&quot;"), ReplaceAll(b3, '"', "&quot;");
    ReplaceAllAppend(a3, b3, '"', "&quot;");
    ReplaceAllAppend(a4, b4, '\'', "&#039;");
  }

  /*
   * The single-character facts below (`TailOrdinary` ... `TailApos`,
   * `EscapeHtmlOrdinary` ... `EscapeHtmlApos`) are one lemma per case only to
   * keep each proof small: unfolding the five passes on a literal string is
   * costly, and `EscapeHtmlChar` dispatches to them.
   */

  /** The four passes after the first, applied to a single character `x` that is not `&`. */
  function Tail(t: string): string
  {
    ReplaceAll(ReplaceAll(ReplaceAll(ReplaceAll(t, '<', "&lt;"), '>', "&gt;"), '"', "&quot;"), '\'', "&#039;")
  }

  lemma TailOrdinary(x: char)
    requires x != '<' && x != '>' && x != '"' && x != '\''
    ensures Tail([x]) == [x]
  {
    ReplaceAllAbsent([x], '<', "&lt;");
    ReplaceAllAbsent([x], '>', "&gt;");
    ReplaceAllAbsent([x], '"', "&quot;");
    ReplaceAllAbsent([x], '\'', "&#039;");
  }

  lemma TailLt()
    ensures Tail("<") == "&lt;"
  {
    ReplaceAllSingle('<', '<', "&lt;");
    EntityTail("&lt;");
  }

  lemma TailGt()
    ensures Tail(">") == "&gt;"
  {
    ReplaceAllAbsent(">", '<', "&lt;");
    ReplaceAllSingle('>', '>', "&gt;");
    ReplaceAllAbsent("&gt;", '"', "&quot;");
    ReplaceAllAbsent("&gt;", '\'', "&#039;");
  }

  lemma TailQuot()
    ensures Tail("\"") == "&quot;"
  {
    ReplaceAllAbsent("\"", '<', "&lt;");
    ReplaceAllAbsent("\"", '>', "&gt;");
    ReplaceAllSingle('"', '"', "&quot;");
    ReplaceAllAbsent("&quot;", '\'', "&#039;");
  }

  lemma TailApos()
    ensures Tail("'") == "&#039;"
  {
    ReplaceAllAbsent("'", '<', "&lt;");
    ReplaceAllAbsent("'", '>', "&gt;");
    ReplaceAllAbsent("'", '"', "&quot;");
    ReplaceAllSingle('\'', '\'', "&#039;");
  }

  lemma EscapeHtmlFirst(c: char)
    ensures EscapeHtml([c]) == Tail(if c == '&' then "&amp;" else [c])
  {
    ReplaceAllSingle(c, '&', "&amp;");
  }

  lemma EscapeHtmlOrdinary(c: char)
    requires c != '&' && c != '<' && c != '>' && c != '"' && c != '\''
    ensures EscapeHtml([c]) == EscapeChar(c)
  {
    EscapeHtmlFirst(c);
    TailOrdinary(c);
  }

  lemma EscapeHtmlAmp(c: char)
    requires c == '&'
    ensures EscapeHtml([c]) == EscapeChar(c)
  {
    EscapeHtmlFirst(c);
    EntityTail("&amp;");
  }

  lemma EscapeHtmlLt(c: char)
    requires c == '<'
    ensures EscapeHtml([c]) == EscapeChar(c)
  {
    EscapeHtmlFirst(c);
    TailLt();
  }

  lemma EscapeHtmlGt(c: char)
    requires c == '>'
    ensures EscapeHtml([c]) == EscapeChar(c)
  {
    EscapeHtmlFirst(c);
    TailGt();
  }

  lemma EscapeHtmlQuot(c: char)
    requires c == '"'
    ensures EscapeHtml([c]) == EscapeChar(c)
  {
    EscapeHtmlFirst(c);
    TailQuot();
  }

  lemma EscapeHtmlApos(c: char)
    requires c == '\''
    ensures EscapeHtml([c]) == EscapeChar(c)
  {
    EscapeHtmlFirst(c);
    TailApos();
  }

  /** On one character the chain yields that character's entity: no entity is escaped twice. */
  lemma EscapeHtmlChar(c: char)
    ensures EscapeHtml([c]) == EscapeChar(c)
  {
    if c == '&' {
      EscapeHtmlAmp(c);
    } else if c == '<' {
      EscapeHtmlLt(c);
    } else if c == '>' {
      EscapeHtmlGt(c);
    } else if c == '"' {
      EscapeHtmlQuot(c);
    } else if c == '\'' {
      EscapeHtmlApos(c);
    } else {
      EscapeHtmlOrdinary(c);
    }
  }

  /**
   * Replacing `&` first makes the five sequential passes equal to a single
   * character-by-character escape.
   */
  lemma {:induction false} EscapeHtmlIsPerCharacter(s: string)
    ensures EscapeHtml(s) == EscapeEach(s)
    decreases |s|
  {
    if s != [] {
      assert s == [s[0]] + s[1..];
      EscapeHtmlAppend([s[0]], s[1..]);
      EscapeHtmlChar(s[0]);
      EscapeHtmlIsPerCharacter(s[1..]);
    }
  }

  lemma UnescapeEscapeSpecial(c: char, t: string)
    requires c == '&' || c == '<' || c == '>'
    ensures Unescape(EscapeChar(c) + t) == [c] + Unescape(t)
  {
    var u := EscapeChar(c) + t;
    if c == '&' {
      assert "&amp;" <= u && u[5..] == t;
    } else if c == '<' {
      assert u[1] == 'l';
      assert "&lt;" <= u && u[4..] == t;
    } else {
      assert u[1] == 'g';
      assert "&gt;" <= u && u[4..] == t;
    }
  }

  lemma UnescapeEscapeQuote(c: char, t: string)
    requires c == '"' || c == '\''
    ensures Unescape(EscapeChar(c) + t) == [c] + Unescape(t)
  {
    var u := EscapeChar(c) + t;
    if c == '"' {
      assert u[1] == 'q';
      assert "&quot;" <= u && u[6..] == t;
    } else {
      assert u[1] == '#';
      assert "&#039;" <= u && u[6..] == t;
    }
  }

  lemma UnescapeEscapeChar(c: char, t: string)
    ensures Unescape(EscapeChar(c) + t) == [c] + Unescape(t)
  {
    if c == '&' || c == '<' || c == '>' {
      UnescapeEscapeSpecial(c, t);
    } else if c == '"' || c == '\'' {
      UnescapeEscapeQuote(c, t);
    } else {
      var u := EscapeChar(c) + t;
      assert u[0] == c && u[1..] == t;
    }
  }

  lemma {:induction false} UnescapeEscapeEach(s: string)
    ensures Unescape(EscapeEach(s)) == s
    decreases |s|
  {
    if s != [] {
      UnescapeEscapeChar(s[0], EscapeEach(s[1..]));
      UnescapeEscapeEach(s[1..]);
    }
  }

  /** Round trip: decoding the five entities of `escapeHtml(s)` gives back `s`. */
  lemma UnescapeEscapeHtml(s: string)
    ensures Unescape(EscapeHtml(s)) == s
  {
    EscapeHtmlIsPerCharacter(s);
    UnescapeEscapeEach(s);
  }

  lemma EscapeCharNoMarkup(c: char)
    ensures '<' !in EscapeChar(c) && '>' !in EscapeChar(c)
    ensures '"' !in EscapeChar(c) && '\'' !in EscapeChar(c)
  {
    if c == '&' || c == '<' || c == '>' || c == '"' || c == '\'' {
      var e := EscapeChar(c);
      assert forall i | 0 <= i < |e| :: e[i] in "&amp;lt;gt;quot;#039";
    }
  }

  lemma {:induction false} EscapeEachNoMarkup(s: string)
    ensures '<' !in EscapeEach(s) && '>' !in EscapeEach(s)
    ensures '"' !in EscapeEach(s) && '\'' !in EscapeEach(s)
    decreases |s|
  {
    if s != [] {
      EscapeCharNoMarkup(s[0]);
      EscapeEachNoMarkup(s[1..]);
    }
  }

  /**
   * Escaped text carries no character that could open a tag or end an
   * attribute value: `<`, `>`, `"` and `'` occur only inside entities.
   */
  lemma EscapeHtmlNoMarkup(s: string)
    ensures '<' !in EscapeHtml(s) && '>' !in EscapeHtml(s)
    ensures '"' !in EscapeHtml(s) && '\'' !in EscapeHtml(s)
  {
    EscapeHtmlIsPerCharacter(s);
    EscapeEachNoMarkup(s);
  }
}
