/**
 * How a question's explanation reaches `handleSubmit` and `showHint`
 * (src/extension.ts:458, 460). The renderer writes the explanation, passed
 * through `escapeHtml`, between single quotes in an inline `onclick`
 * handler, that is, as the body of a JavaScript string literal inside a
 * double-quoted HTML attribute. The browser first decodes the attribute's
 * character references and then compiles the handler.
 */
module InlineHandler {
  import opened Wrappers
  import opened Escape

  /** What the handler compiler makes of the text between the two single quotes. */
  datatype Literal =
    | Lit(value: string)
      // An unescaped quote or line break ends the literal before the intended
      // closing quote, or a trailing backslash escapes that quote.
    | EndsEarly
      // An escape sequence other than a single-character escape (not decoded here).
    | Unsupported

  /** The single-character escapes of a JavaScript string literal that this model decodes. */
  function SingleEscape(c: char): Option<char>
  {
    match c
    case '\'' => Some('\'')
    case '"' => Some('"')
    case '\\' => Some('\\')
    case 'n' => Some('\n')
    case 'r' => Some('\r')
    case 't' => Some('\t')
    case _ => None
  }

  function Prepend(c: char, l: Literal): Literal
  {
    if l.Lit? then Lit([c] + l.value) else l
  }

  /** The value of the literal `'t'`, read the way a JavaScript tokenizer reads it. */
  function LiteralBody(t: string): Literal
    decreases |t|
  {
    if t == [] then Lit([])
    else if t[0] == '\'' || t[0] == '\n' || t[0] == '\r' then EndsEarly
    else if t[0] == '\\' then
      if |t| == 1 then EndsEarly
      else match SingleEscape(t[1])
        case Some(x) => Prepend(x, LiteralBody(t[2..]))
        case None => Unsupported
    else Prepend(t[0], LiteralBody(t[1..]))
  }

  /** The handler argument as the webview builds it: HTML-escaped only. */
  function AsWrittenArgument(explanation: string): Literal
  {
    LiteralBody(Unescape(EscapeHtml(explanation)))
  }

  /** Characters that cannot stand unescaped in a single-quoted literal. */
  predicate Plain(c: char)
  {
    c != '\'' && c != '\\' && c != '\n' && c != '\r'
  }

  lemma {:induction false} LiteralBodyPlain(t: string)
    requires forall i | 0 <= i < |t| :: Plain(t[i])
    ensures LiteralBody(t) == Lit(t)
    decreases |t|
  {
    if t != [] {
      LiteralBodyPlain(t[1..]);
      assert [t[0]] + t[1..] == t;
    }
  }

  /**
   * The attribute decoding undoes `escapeHtml`, so the handler sees the raw
   * explanation: it arrives intact exactly when it needs no JavaScript escaping.
   */
  lemma AsWrittenPlainText(explanation: string)
    requires forall i | 0 <= i < |explanation| :: Plain(explanation[i])
    ensures AsWrittenArgument(explanation) == Lit(explanation)
  {
    UnescapeEscapeHtml(explanation);
    LiteralBodyPlain(explanation);
  }

  lemma {:induction false} LiteralBodyEndsEarly(t: string, i: nat)
    requires i < |t| && (t[i] == '\'' || t[i] == '\n' || t[i] == '\r')
    requires forall j | 0 <= j < i :: Plain(t[j])
    ensures LiteralBody(t) == EndsEarly
    decreases i
  {
    if i > 0 {
      LiteralBodyEndsEarly(t[1..], i - 1);
    }
  }

  /**
   * As written, an explanation whose first character needing JavaScript
   * escaping is an apostrophe or a line break ends the handler's string
   * literal early; `it's` is one.
   */
  lemma ApostropheEndsLiteral(explanation: string, i: nat)
    requires i < |explanation| && (explanation[i] == '\'' || explanation[i] == '\n' || explanation[i] == '\r')
    requires forall j | 0 <= j < i :: Plain(explanation[j])
    ensures AsWrittenArgument(explanation) == EndsEarly
  {
    UnescapeEscapeHtml(explanation);
    LiteralBodyEndsEarly(explanation, i);
  }

  /** JavaScript string escaping for a single-quoted literal. */
  function JsEscapeChar(c: char): string
  {
    match c
    case '\\' => "\\\\"
    case '\'' => "\\'"
    case '\n' => "\\n"
    case '\r' => "\\r"
    case _ => [c]
  }

  function JsEscape(s: string): string
    decreases |s|
  {
    if s == [] then [] else JsEscapeChar(s[0]) + JsEscape(s[1..])
  }

  /** The corrected handler argument: JavaScript-escaped first, then HTML-escaped. */
  function CorrectedArgument(explanation: string): Literal
  {
    LiteralBody(Unescape(EscapeHtml(JsEscape(explanation))))
  }

  lemma LiteralBodyJsEscapeChar(c: char, rest: string)
    ensures LiteralBody(JsEscapeChar(c) + rest) == Prepend(c, LiteralBody(rest))
  {
    var t := JsEscapeChar(c) + rest;
    if Plain(c) {
      assert t[0] == c && t[1..] == rest;
    } else {
      assert t[0] == '\\' && t[2..] == rest;
    }
  }

  lemma {:induction false} LiteralBodyJsEscape(s: string)
    ensures LiteralBody(JsEscape(s)) == Lit(s)
    decreases |s|
  {
    if s != [] {
      LiteralBodyJsEscapeChar(s[0], JsEscape(s[1..]));
      LiteralBodyJsEscape(s[1..]);
      assert [s[0]] + s[1..] == s;
    }
  }

  /** With the corrected escaping every explanation reaches the handler unchanged. */
  lemma CorrectedHandlerRoundTrip(explanation: string)
    ensures CorrectedArgument(explanation) == Lit(explanation)
  {
    UnescapeEscapeHtml(JsEscape(explanation));
    LiteralBodyJsEscape(explanation);
  }

  /**
   * The explanation `showHint` receives from the corrected handler. By
   * `CorrectedHandlerRoundTrip` this is the identity: the round trip is what
   * lets the rendered question store the explanation unchanged.
   */
  function DeliveredExplanation(explanation: string): (r: string)
    ensures r == explanation
  {
    CorrectedHandlerRoundTrip(explanation);
    CorrectedArgument(explanation).value
  }
}
