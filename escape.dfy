/**
 * The two escapers of garnet.js. Each is a chain of global single-character
 * `replace` calls; the model keeps the chain as written and proves it equal
 * to a one-pass, per-character reference, from which the safety and
 * round-trip properties follow.
 */
module Escape {
  import opened Wrappers

  /** `s.replace(/c/g, rep)` for a single character `c`. */
  function ReplaceChar(s: string, c: char, rep: string): (r: string)
    ensures c !in rep ==> c !in r
  {
    if s == [] then [] else (if s[0] == c then rep else [s[0]]) + ReplaceChar(s[1..], c, rep)
  }

  /** A character that is neither in the text nor in the replacement is not in the result. */
  lemma {:induction false} ReplaceCharKeepsOut(s: string, c: char, rep: string, d: char)
    requires d !in s && d !in rep
    ensures d !in ReplaceChar(s, c, rep)
  {
    if s != [] {
      ReplaceCharKeepsOut(s[1..], c, rep, d);
    }
  }

  lemma {:induction false} ReplaceCharAppend(a: string, b: string, c: char, rep: string)
    ensures ReplaceChar(a + b, c, rep) == ReplaceChar(a, c, rep) + ReplaceChar(b, c, rep)
  {
    if a == [] {
      assert a + b == b;
    } else {
      var x := if a[0] == c then rep else [a[0]];
      assert (a + b)[0] == a[0];
      assert (a + b)[1..] == a[1..] + b;
      ReplaceCharAppend(a[1..], b, c, rep);
      assert ReplaceChar(a + b, c, rep) == x + ReplaceChar(a[1..] + b, c, rep);
    }
  }

  lemma ReplaceCharSingle(d: char, c: char, rep: string)
    ensures ReplaceChar([d], c, rep) == if d == c then rep else [d]
  {
    assert [d][1..] == [];
  }

  lemma {:induction false} ReplaceCharAbsent(s: string, c: char, rep: string)
    requires c !in s
    ensures ReplaceChar(s, c, rep) == s
  {
    if s != [] {
      ReplaceCharAbsent(s[1..], c, rep);
    }
  }

  // ---------------------------------------------------------------------------
  // sanitizeForHTML

  /** sanitizeForHTML (garnet.js:44-52): `&` first, then `"`, `'`, `<`, `>`. */
  function SanitizeForHTML(s: string): (r: string)
    ensures '"' !in r && '\'' !in r && '<' !in r && '>' !in r
  {
    var s1 := ReplaceChar(s, '&', "&amp;");
    var s2 := ReplaceChar(s1, '"', "&quot;");
    var s3 := ReplaceChar(s2, '\'', "&#39;");
    var s4 := ReplaceChar(s3, '<', "&lt;");
    ReplaceCharKeepsOut(s2, '\'', "&#39;", '"');
    ReplaceCharKeepsOut(s3, '<', "&lt;", '"');
    ReplaceCharKeepsOut(s3, '<', "&lt;", '\'');
    ReplaceCharKeepsOut(s4, '>', "&gt;", '"');
    ReplaceCharKeepsOut(s4, '>', "&gt;", '\'');
    ReplaceCharKeepsOut(s4, '>', "&gt;", '<');
    ReplaceChar(s4, '>', "&gt;")
  }

  /** The entity that stands for one character, or the character itself. */
  function EscapeHTMLChar(c: char): string
  {
    match c
    case '&' => "&amp;"
    case '"' => "&quot;"
    case '\'' => "&#39;"
    case '<' => "&lt;"
    case '>' => "&gt;"
    case _ => [c]
  }

  /** Reference definition: every character escaped on its own, in one pass. */
  function EscapeHTML(s: string): string
  {
    if s == [] then [] else EscapeHTMLChar(s[0]) + EscapeHTML(s[1..])
  }

  lemma SanitizeForHTMLAppend(a: string, b: string)
    ensures SanitizeForHTML(a + b) == SanitizeForHTML(a) + SanitizeForHTML(b)
  {
    var s1a, s1b := ReplaceChar(a, '&', "&amp;"), ReplaceChar(b, '&', "&amp;");
    ReplaceCharAppend(a, b, '&', "&amp;");
    var s2a, s2b := ReplaceChar(s1a, '"', "&quot;"), ReplaceChar(s1b, '"', "&quot;");
    ReplaceCharAppend(s1a, s1b, '"', "&quot;");
    var s3a, s3b := ReplaceChar(s2a, '\'', "&#39;"), ReplaceChar(s2b, '\'', "&#39;");
    ReplaceCharAppend(s2a, s2b, '\'', "&#39;");
    var s4a, s4b := ReplaceChar(s3a, '<', "&lt;"), ReplaceChar(s3b, '<', "&lt;");
    ReplaceCharAppend(s3a, s3b, '<', "&lt;");
    ReplaceCharAppend(s4a, s4b, '>', "&gt;");
  }

  /** Once an entity is written, the later steps of the chain leave it alone. */
  lemma KeptFromQuot(e: string)
    requires '"' !in e && '\'' !in e && '<' !in e && '>' !in e
    ensures ReplaceChar(ReplaceChar(ReplaceChar(ReplaceChar(
              e, '"', "&quot;"), '\'', "&#39;"), '<', "&lt;"), '>', "&gt;") == e
  {
    ReplaceCharAbsent(e, '"', "&quot;");
    KeptFromApos(e);
  }

  lemma KeptFromApos(e: string)
    requires '\'' !in e && '<' !in e && '>' !in e
    ensures ReplaceChar(ReplaceChar(ReplaceChar(e, '\'', "&#39;"), '<', "&lt;"), '>', "&gt;") == e
  {
    ReplaceCharAbsent(e, '\'', "&#39;");
    KeptFromLt(e);
  }

  lemma KeptFromLt(e: string)
    requires '<' !in e && '>' !in e
    ensures ReplaceChar(ReplaceChar(e, '<', "&lt;"), '>', "&gt;") == e
  {
    ReplaceCharAbsent(e, '<', "&lt;");
    ReplaceCharAbsent(e, '>', "&gt;");
  }

  lemma SanitizeForHTMLChar(c: char)
    ensures SanitizeForHTML([c]) == EscapeHTMLChar(c)
  {
    if c == '&' {
      EscapedAmp(c);
    } else if c == '"' {
      EscapedQuot(c);
    } else if c == '\'' {
      EscapedApos(c);
    } else if c == '<' {
      EscapedLt(c);
    } else if c == '>' {
      EscapedGt(c);
    } else {
      ReplaceCharSingle(c, '&', "&amp;");
      ReplaceCharSingle(c, '"', "&quot;");
      ReplaceCharSingle(c, '\'', "&#39;");
      ReplaceCharSingle(c, '<', "&lt;");
      ReplaceCharSingle(c, '>', "&gt;");
    }
  }

  lemma EscapedAmp(c: char)
    requires c == '&'
    ensures SanitizeForHTML([c]) == "&amp;"
  {
    ReplaceCharSingle(c, '&', "&amp;");
    KeptFromQuot("&amp;");
  }

  lemma EscapedQuot(c: char)
    requires c == '"'
    ensures SanitizeForHTML([c]) == "&quot;"
  {
    ReplaceCharSingle(c, '&', "&amp;");
    ReplaceCharSingle(c, '"', "&quot;");
    KeptFromApos("&quot;");
  }

  lemma EscapedApos(c: char)
    requires c == '\''
    ensures SanitizeForHTML([c]) == "&#39;"
  {
    ReplaceCharSingle(c, '&', "&amp;");
    ReplaceCharSingle(c, '"', "&quot;");
    ReplaceCharSingle(c, '\'', "&#39;");
    KeptFromLt("&#39;");
  }

  lemma EscapedLt(c: char)
    requires c == '<'
    ensures SanitizeForHTML([c]) == "&lt;"
  {
    ReplaceCharSingle(c, '&', "&amp;");
    ReplaceCharSingle(c, '"', "&quot;");
    ReplaceCharSingle(c, '\'', "&#39;");
    ReplaceCharSingle(c, '<', "&lt;");
    ReplaceCharAbsent("&lt;", '>', "&gt;");
  }

  lemma EscapedGt(c: char)
    requires c == '>'
    ensures SanitizeForHTML([c]) == "&gt;"
  {
    ReplaceCharSingle(c, '&', "&amp;");
    ReplaceCharSingle(c, '"', "&quot;");
    ReplaceCharSingle(c, '\'', "&#39;");
    ReplaceCharSingle(c, '<', "&lt;");
    ReplaceCharSingle(c, '>', "&gt;");
  }

  /**
   * The chain of five global replacements equals escaping each character on
   * its own: because `&` goes first, no later step touches an entity that an
   * earlier step produced.
   */
  lemma {:induction false} SanitizeForHTMLIsOnePass(s: string)
    ensures SanitizeForHTML(s) == EscapeHTML(s)
  {
    if s != [] {
      assert s == [s[0]] + s[1..];
      SanitizeForHTMLAppend([s[0]], s[1..]);
      SanitizeForHTMLChar(s[0]);
      SanitizeForHTMLIsOnePass(s[1..]);
    }
  }

  /** `r[i..]` begins with one of the five entities the escaper writes. */
  predicate EntityAt(r: string, i: nat)
    requires i < |r|
  {
    "&amp;" <= r[i..] || "&quot;" <= r[i..] || "&#39;" <= r[i..]
    || "&lt;" <= r[i..] || "&gt;" <= r[i..]
  }

  predicate IsMarkup(c: char)
  {
    c == '<' || c == '>' || c == '"' || c == '\''
  }

  /**
   * Safe for HTML: no `<`, `>`, `"` or `'`, and every `&` begins one of the
   * five entities.
   */
  predicate HTMLSafe(r: string)
  {
    && (forall i :: 0 <= i < |r| ==> !IsMarkup(r[i]))
    && (forall i :: 0 <= i < |r| && r[i] == '&' ==> EntityAt(r, i))
  }

  lemma EscapeHTMLCharIsSafe(c: char)
    ensures HTMLSafe(EscapeHTMLChar(c))
  {
    var e := EscapeHTMLChar(c);
    if c == '&' || c == '"' || c == '\'' || c == '<' || c == '>' {
      assert forall i :: 1 <= i < |e| ==> e[i] !in "&<>\"'";
      assert e[0..] == e;
    }
  }

  lemma HTMLSafeAppend(a: string, b: string)
    requires HTMLSafe(a) && HTMLSafe(b)
    ensures HTMLSafe(a + b)
  {
    var r := a + b;
    forall i | 0 <= i < |r|
      ensures !IsMarkup(r[i]) && (r[i] == '&' ==> EntityAt(r, i))
    {
      if i < |a| {
        assert r[i] == a[i];
        if r[i] == '&' {
          assert EntityAt(a, i);
          assert r[i..] == a[i..] + b;
        }
      } else {
        assert r[i] == b[i - |a|];
        if r[i] == '&' {
          assert EntityAt(b, i - |a|);
          assert r[i..] == b[i - |a|..];
        }
      }
    }
  }

  lemma {:induction false} EscapeHTMLIsSafe(s: string)
    ensures HTMLSafe(EscapeHTML(s))
  {
    if s != [] {
      EscapeHTMLIsSafe(s[1..]);
      EscapeHTMLCharIsSafe(s[0]);
      HTMLSafeAppend(EscapeHTMLChar(s[0]), EscapeHTML(s[1..]));
    }
  }

  /**
   * What sanitizeForHTML returns holds no `<`, `>`, `"` or `'`, and every `&`
   * in it begins one of `&amp;`, `&quot;`, `&#39;`, `&lt;`, `&gt;`.
   */
  lemma SanitizeForHTMLIsSafe(s: string)
    ensures HTMLSafe(SanitizeForHTML(s))
  {
    SanitizeForHTMLIsOnePass(s);
    EscapeHTMLIsSafe(s);
  }

  /** An HTML reader that turns the five entities back into their characters. */
  function DecodeHTML(r: string): string
    decreases |r|
  {
    if r == [] then []
    else if "&amp;" <= r then "&" + DecodeHTML(r[5..])
    else if "&quot;" <= r then "\"" + DecodeHTML(r[6..])
    else if "&#39;" <= r then "'" + DecodeHTML(r[5..])
    else if "&lt;" <= r then "<" + DecodeHTML(r[4..])
    else if "&gt;" <= r then ">" + DecodeHTML(r[4..])
    else [r[0]] + DecodeHTML(r[1..])
  }

  /** Decoding the entities of sanitizeForHTML's output gives back its input. */
  lemma {:induction false} SanitizeForHTMLRoundTrip(s: string)
    ensures DecodeHTML(SanitizeForHTML(s)) == s
  {
    SanitizeForHTMLIsOnePass(s);
    EscapeHTMLRoundTrip(s);
  }

  /** One escaped character, entity or not, decodes back to itself. */
  lemma DecodeEscapedChar(c: char, t: string)
    ensures DecodeHTML(EscapeHTMLChar(c) + t) == [c] + DecodeHTML(t)
  {
    var e := EscapeHTMLChar(c);
    var r := e + t;
    assert r[..|e|] == e && r[|e|..] == t;
    if c == '"' || c == '\'' {
      assert r[1] == e[1];
    } else if c == '<' || c == '>' {
      assert r[1] == e[1];
    } else if c != '&' {
      assert r[0] == c;
    }
  }

  lemma {:induction false} EscapeHTMLRoundTrip(s: string)
    ensures DecodeHTML(EscapeHTML(s)) == s
  {
    if s != [] {
      EscapeHTMLRoundTrip(s[1..]);
      DecodeEscapedChar(s[0], EscapeHTML(s[1..]));
      assert s == [s[0]] + s[1..];
    }
  }

  // ---------------------------------------------------------------------------
  // sanitizeForString

  /**
   * sanitizeForString (garnet.js:35-42): `\` first, then `'`, `"` and newline.
   * The last step leaves no raw newline, whatever the text holds.
   */
  function SanitizeForString(s: string): (r: string)
    ensures '\n' !in r
  {
    ReplaceChar(ReplaceChar(ReplaceChar(ReplaceChar(
      s, '\\', "\\\\"), '\'', "\\'"), '"', "\\\""), '\n', "\\n")
  }

  /**
   * sanitizeForString with the one step it lacks: a carriage return, which a
   * JavaScript string literal may not hold raw, is written `\r` as well.
   */
  function SanitizeForStringFixed(s: string): string
  {
    ReplaceChar(SanitizeForString(s), '\r', "\\r")
  }

  /** The escape sequence sanitizeForString writes for one character. */
  function EscapeStringChar(c: char): string
  {
    match c
    case '\\' => "\\\\"
    case '\'' => "\\'"
    case '"' => "\\\""
    case '\n' => "\\n"
    case _ => [c]
  }

  function EscapeString(s: string): string
  {
    if s == [] then [] else EscapeStringChar(s[0]) + EscapeString(s[1..])
  }

  function EscapeStringCharFixed(c: char): string
  {
    if c == '\r' then "\\r" else EscapeStringChar(c)
  }

  function EscapeStringFixed(s: string): string
  {
    if s == [] then [] else EscapeStringCharFixed(s[0]) + EscapeStringFixed(s[1..])
  }

  lemma SanitizeForStringAppend(a: string, b: string)
    ensures SanitizeForString(a + b) == SanitizeForString(a) + SanitizeForString(b)
  {
    var s1a, s1b := ReplaceChar(a, '\\', "\\\\"), ReplaceChar(b, '\\', "\\\\");
    ReplaceCharAppend(a, b, '\\', "\\\\");
    var s2a, s2b := ReplaceChar(s1a, '\'', "\\'"), ReplaceChar(s1b, '\'', "\\'");
    ReplaceCharAppend(s1a, s1b, '\'', "\\'");
    var s3a, s3b := ReplaceChar(s2a, '"', "\\\""), ReplaceChar(s2b, '"', "\\\"");
    ReplaceCharAppend(s2a, s2b, '"', "\\\"");
    ReplaceCharAppend(s3a, s3b, '\n', "\\n");
  }

  lemma SanitizeForStringChar(c: char)
    ensures SanitizeForString([c]) == EscapeStringChar(c)
  {
    var s1 := ReplaceChar([c], '\\', "\\\\");
    ReplaceCharSingle(c, '\\', "\\\\");
    var s2 := ReplaceChar(s1, '\'', "\\'");
    if c == '\\' { ReplaceCharAbsent(s1, '\'', "\\'"); } else { ReplaceCharSingle(c, '\'', "\\'"); }
    var s3 := ReplaceChar(s2, '"', "\\\"");
    if c == '\\' || c == '\'' { ReplaceCharAbsent(s2, '"', "\\\""); } else { ReplaceCharSingle(c, '"', "\\\""); }
    if c == '\\' || c == '\'' || c == '"' { ReplaceCharAbsent(s3, '\n', "\\n"); } else { ReplaceCharSingle(c, '\n', "\\n"); }
  }

  /** The chain of four replacements equals escaping each character on its own. */
  lemma {:induction false} SanitizeForStringIsOnePass(s: string)
    ensures SanitizeForString(s) == EscapeString(s)
  {
    if s != [] {
      assert s == [s[0]] + s[1..];
      SanitizeForStringAppend([s[0]], s[1..]);
      SanitizeForStringChar(s[0]);
      SanitizeForStringIsOnePass(s[1..]);
    }
  }

  /**
   * A reader of the four escapes sanitizeForString writes: `\\`, `\'`, `\"`
   * and `\n`; every other character stands for itself.
   */
  function DecodeString(r: string): string
    decreases |r|
  {
    if r == [] then []
    else if |r| >= 2 && r[0] == '\\' && (r[1] == '\\' || r[1] == '\'' || r[1] == '"' || r[1] == 'n') then
      [if r[1] == 'n' then '\n' else r[1]] + DecodeString(r[2..])
    else [r[0]] + DecodeString(r[1..])
  }

  lemma DecodeEscapedStringChar(c: char, t: string)
    ensures DecodeString(EscapeStringChar(c) + t) == [c] + DecodeString(t)
  {
    var e := EscapeStringChar(c);
    var b := e + t;
    assert b[|e|..] == t;
    if |e| == 2 {
      assert b[0] == '\\' && b[1] == e[1];
    } else {
      assert b[0] == c;
    }
  }

  lemma {:induction false} EscapeStringDecodes(s: string)
    ensures DecodeString(EscapeString(s)) == s
  {
    if s != [] {
      EscapeStringDecodes(s[1..]);
      DecodeEscapedStringChar(s[0], EscapeString(s[1..]));
      assert s == [s[0]] + s[1..];
    }
  }

  /** Undoing the four escapes recovers every text exactly, carriage returns included. */
  lemma SanitizeForStringDecodes(s: string)
    ensures DecodeString(SanitizeForString(s)) == s
  {
    SanitizeForStringIsOnePass(s);
    EscapeStringDecodes(s);
  }

  lemma {:induction false} EscapeStringFixedIsReplace(s: string)
    ensures ReplaceChar(EscapeString(s), '\r', "\\r") == EscapeStringFixed(s)
  {
    if s != [] {
      var e := EscapeStringChar(s[0]);
      ReplaceCharAppend(e, EscapeString(s[1..]), '\r', "\\r");
      if s[0] != '\r' { ReplaceCharAbsent(e, '\r', "\\r"); }
      EscapeStringFixedIsReplace(s[1..]);
    }
  }

  /** The corrected chain also escapes each character on its own. */
  lemma SanitizeForStringFixedIsOnePass(s: string)
    ensures SanitizeForStringFixed(s) == EscapeStringFixed(s)
  {
    SanitizeForStringIsOnePass(s);
    EscapeStringFixedIsReplace(s);
  }

  /** Characters a JavaScript string literal may not hold unescaped. */
  predicate IsLineTerminator(c: char)
  {
    c == '\n' || c == '\r'
  }

  /**
   * The character an escape sequence `\c` stands for in a JavaScript string
   * literal, for the single-character escapes and the identity escapes; the
   * numeric, hexadecimal, Unicode and line-continuation forms are not modelled
   * and read as `None`.
   */
  function EscapeValue(c: char): Option<char>
  {
    match c
    case 'b' => Some('\U{8}')
    case 'f' => Some('\U{C}')
    case 'n' => Some('\n')
    case 'r' => Some('\r')
    case 't' => Some('\t')
    case 'v' => Some('\U{B}')
    case _ =>
      if IsLineTerminator(c) || c == 'x' || c == 'u' || ('0' <= c <= '9') then None
      else Some(c)
  }

  /** The lexed literal with `c` in front of the text it denotes. */
  function Prepend(c: char, lexed: Option<(string, string)>): Option<(string, string)>
  {
    match lexed
    case Some((t, rest)) => Some(([c] + t, rest))
    case None => None
  }

  /**
   * Lexes the rest of a `'…'` literal, its opening quote already read: the
   * text it denotes and what follows its closing quote, or `None` when the
   * literal is unterminated or holds a raw line terminator.
   */
  function LexLiteral(b: string): Option<(string, string)>
    decreases |b|
  {
    if b == [] then None
    else if b[0] == '\'' then Some(([], b[1..]))
    else if IsLineTerminator(b[0]) then None
    else if b[0] == '\\' then
      if |b| < 2 || EscapeValue(b[1]).None? then None
      else Prepend(EscapeValue(b[1]).value, LexLiteral(b[2..]))
    else Prepend(b[0], LexLiteral(b[1..]))
  }

  lemma LexEscapedChar(c: char, x: string)
    ensures LexLiteral(EscapeStringCharFixed(c) + x) == Prepend(c, LexLiteral(x))
  {
    var e := EscapeStringCharFixed(c);
    var b := e + x;
    assert b[|e|..] == x;
    if |e| == 2 {
      assert b[0] == '\\' && b[1] == e[1];
    } else {
      assert b[0] == c;
    }
  }

  lemma {:induction false} EscapeStringFixedLexes(s: string, rest: string)
    ensures LexLiteral(EscapeStringFixed(s) + "'" + rest) == Some((s, rest))
  {
    if s == [] {
      assert EscapeStringFixed(s) + "'" + rest == "'" + rest;
    } else {
      var e, t := EscapeStringCharFixed(s[0]), EscapeStringFixed(s[1..]);
      EscapeStringFixedLexes(s[1..], rest);
      assert e + t + "'" + rest == e + (t + "'" + rest);
      LexEscapedChar(s[0], t + "'" + rest);
      assert s == [s[0]] + s[1..];
    }
  }

  /**
   * Text escaped by the corrected sanitizeForString and placed between single
   * quotes is lexed back exactly: the literal ends at the quote the generator
   * writes and denotes the text, whatever the text holds.
   */
  lemma StringLiteralRoundTrip(s: string, rest: string)
    ensures LexLiteral(SanitizeForStringFixed(s) + "'" + rest) == Some((s, rest))
  {
    SanitizeForStringFixedIsOnePass(s);
    EscapeStringFixedLexes(s, rest);
  }

  /** The corrected escaper writes no raw line terminator. */
  lemma {:induction false} SanitizeForStringFixedHasNoLineTerminator(s: string)
    ensures forall i :: 0 <= i < |SanitizeForStringFixed(s)| ==> !IsLineTerminator(SanitizeForStringFixed(s)[i])
  {
    SanitizeForStringFixedIsOnePass(s);
    EscapeStringFixedNoLineTerminator(s);
  }

  lemma {:induction false} EscapeStringFixedNoLineTerminator(s: string)
    ensures forall i :: 0 <= i < |EscapeStringFixed(s)| ==> !IsLineTerminator(EscapeStringFixed(s)[i])
  {
    if s != [] {
      EscapeStringFixedNoLineTerminator(s[1..]);
      var e, t := EscapeStringCharFixed(s[0]), EscapeStringFixed(s[1..]);
      forall i | |e| <= i < |e + t| ensures (e + t)[i] == t[i - |e|] { }
    }
  }

  /**
   * As written, the escaper agrees with the corrected one on every text
   * without a carriage return, so there the literal lexes back exactly; and it
   * writes no raw newline for any text.
   */
  lemma SanitizeForStringRoundTrip(s: string, rest: string)
    requires '\r' !in s
    ensures LexLiteral(SanitizeForString(s) + "'" + rest) == Some((s, rest))
    ensures '\n' !in SanitizeForString(s)
  {
    SanitizeForStringIsOnePass(s);
    SanitizeForStringFixedIsOnePass(s);
    EscapeStringNoCarriageReturn(s);
    ReplaceCharAbsent(EscapeString(s), '\r', "\\r");
    StringLiteralRoundTrip(s, rest);
    SanitizeForStringFixedHasNoLineTerminator(s);
  }

  lemma {:induction false} EscapeStringNoCarriageReturn(s: string)
    requires '\r' !in s
    ensures '\r' !in EscapeString(s)
  {
    if s != [] {
      assert s == [s[0]] + s[1..];
      EscapeStringNoCarriageReturn(s[1..]);
    }
  }

  /**
   * As written, a carriage return reaches the generated literal raw, so the
   * literal of a template saved with CRLF line endings does not lex.
   */
  lemma CarriageReturnBreaksLiteral(s: string, rest: string)
    requires s == "a\r\nb"
    ensures SanitizeForString(s) == "a\r\\nb"
    ensures LexLiteral(SanitizeForString(s) + "'" + rest) == None
  {
    CarriageReturnKept(s);
    var b := SanitizeForString(s) + "'" + rest;
    assert b[0] == 'a' && b[1] == '\r';
    assert b[1..][0] == '\r';
  }

  /** Of `"a\r\nb"`, the `\n` is escaped and the `\r` is left as it is. */
  lemma CarriageReturnKept(s: string)
    requires s == "a\r\nb"
    ensures SanitizeForString(s) == "a\r\\nb"
  {
    SanitizeForStringIsOnePass(s);
    assert EscapeString("b") == "b" by { assert "b"[1..] == []; }
    assert EscapeString("\nb") == "\\n" + "b" by { assert "\nb"[1..] == "b"; }
    assert EscapeString("\r\nb") == "\r" + "\\nb" by { assert "\r\nb"[1..] == "\nb"; }
    assert EscapeString(s) == "a" + "\r\\nb" by { assert s[1..] == "\r\nb"; }
  }

}
