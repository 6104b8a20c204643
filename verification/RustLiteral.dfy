/** The Rust string-literal printer of `gen_diagnostic_catalog.py`, and the lexer that reads such a
    literal back (Rust Reference, Tokens chapter, "String literals"). */
module RustLiteral {
  import opened Wrappers
  import opened Strings

  /** Four replacements in sequence, the backslash first. */
  function Escaped(text: string): string {
    Replace(Replace(Replace(Replace(text, "\\", "\\\\"), "\"", "\\\""), "\r", "\\r"), "\n", "\\n")
  }

  function RustStringLiteral(text: string): string { "\"" + Escaped(text) + "\"" }

  // ----- One escape per character

  function EscapeChar(c: char): string {
    match c
    case '\\' => "\\\\"
    case '"' => "\\\""
    case '\r' => "\\r"
    case '\n' => "\\n"
    case _ => [c]
  }

  function MapChars(s: string, f: char -> string): string {
    if s == "" then "" else f(s[0]) + MapChars(s[1..], f)
  }

  function Substitute(c: char, written: string): char -> string { x => if x == c then written else [x] }

  lemma {:induction false} ReplaceOneChar(s: string, c: char, written: string)
    ensures Replace(s, [c], written) == MapChars(s, Substitute(c, written))
    decreases |s|
  {
    if s != "" {
      ReplaceOneChar(s[1..], c, written);
      assert [c] <= s <==> s[0] == c;
    }
  }

  lemma {:induction false} MapCharsConcat(s: string, t: string, f: char -> string)
    ensures MapChars(s + t, f) == MapChars(s, f) + MapChars(t, f)
    decreases |s|
  {
    if s == "" {
      assert s + t == t;
    } else {
      assert (s + t)[1..] == s[1..] + t;
      MapCharsConcat(s[1..], t, f);
    }
  }

  lemma {:induction false} SameMap(s: string, f: char -> string, g: char -> string)
    requires forall c :: f(c) == g(c)
    ensures MapChars(s, f) == MapChars(s, g)
    decreases |s|
  {
    if s != "" {
      SameMap(s[1..], f, g);
    }
  }

  /** Mapping twice is mapping once with the second map applied to what the first writes. */
  lemma {:induction false} MapCharsTwice(s: string, f: char -> string, g: char -> string, h: char -> string)
    requires forall c :: h(c) == MapChars(f(c), g)
    ensures MapChars(MapChars(s, f), g) == MapChars(s, h)
    decreases |s|
  {
    if s != "" {
      MapCharsConcat(f(s[0]), MapChars(s[1..], f), g);
      MapCharsTwice(s[1..], f, g, h);
    }
  }

  function AfterBackslash(c: char): string { if c == '\\' then "\\\\" else [c] }

  function AfterQuote(c: char): string { if c == '"' then "\\\"" else AfterBackslash(c) }

  function AfterReturn(c: char): string { if c == '\r' then "\\r" else AfterQuote(c) }

  lemma MapShort(a: char, b: char, f: char -> string)
    ensures MapChars([a], f) == f(a) && MapChars([a, b], f) == f(a) + f(b)
  {
    assert [a][1..] == "" && [a, b][1..] == [b] && [b][1..] == "";
  }

  lemma QuotePass(text: string)
    ensures Replace(MapChars(text, AfterBackslash), "\"", "\\\"") == MapChars(text, AfterQuote)
  {
    var quote := Substitute('"', "\\\"");
    ReplaceOneChar(MapChars(text, AfterBackslash), '"', "\\\"");
    forall c ensures AfterQuote(c) == MapChars(AfterBackslash(c), quote) {
      MapShort(c, c, quote);
    }
    MapCharsTwice(text, AfterBackslash, quote, AfterQuote);
  }

  lemma ReturnPass(text: string)
    ensures Replace(MapChars(text, AfterQuote), "\r", "\\r") == MapChars(text, AfterReturn)
  {
    var cr := Substitute('\r', "\\r");
    ReplaceOneChar(MapChars(text, AfterQuote), '\r', "\\r");
    forall c ensures AfterReturn(c) == MapChars(AfterQuote(c), cr) {
      MapShort(c, c, cr);
      MapShort('\\', '"', cr);
    }
    MapCharsTwice(text, AfterQuote, cr, AfterReturn);
  }

  lemma NewlinePass(text: string)
    ensures Replace(MapChars(text, AfterReturn), "\n", "\\n") == MapChars(text, EscapeChar)
  {
    var lf := Substitute('\n', "\\n");
    ReplaceOneChar(MapChars(text, AfterReturn), '\n', "\\n");
    forall c ensures EscapeChar(c) == MapChars(AfterReturn(c), lf) {
      MapShort(c, c, lf);
      MapShort('\\', '"', lf);
      MapShort('\\', 'r', lf);
    }
    MapCharsTwice(text, AfterReturn, lf, EscapeChar);
  }

  /** The later replacements never touch what an earlier one wrote, so the four passes are one
      simultaneous escape. */
  lemma EscapedIsOneEscape(text: string)
    ensures Escaped(text) == MapChars(text, EscapeChar)
  {
    ReplaceOneChar(text, '\\', "\\\\");
    SameMap(text, Substitute('\\', "\\\\"), AfterBackslash);
    QuotePass(text);
    ReturnPass(text);
    NewlinePass(text);
  }

  // ----- Reading the literal back

  function UnescapeChar(c: char): Option<char> {
    match c
    case 'n' => Some('\n')
    case 'r' => Some('\r')
    case 't' => Some('\t')
    case '0' => Some('\0')
    case '\\' => Some('\\')
    case '\'' => Some('\'')
    case '"' => Some('"')
    case _ => None
  }

  /** The content up to the closing quote and the input after it. A bare carriage return is no
      literal content; a line feed is. */
  function LexBody(input: string): Option<(string, string)> {
    if input == "" || input[0] == '\r' then None
    else if input[0] == '"' then Some(("", input[1..]))
    else if input[0] == '\\' then
      if |input| < 2 then None
      else match (UnescapeChar(input[1]), LexBody(input[2..]))
           case (Some(c), Some((content, rest))) => Some(([c] + content, rest))
           case _ => None
    else match LexBody(input[1..])
         case Some((content, rest)) => Some(([input[0]] + content, rest))
         case None => None
  }

  function LexStringLiteral(input: string): Option<(string, string)> {
    if input != "" && input[0] == '"' then LexBody(input[1..]) else None
  }

  lemma LexOneEscape(c: char, tail: string, content: string, rest: string)
    requires LexBody(tail) == Some((content, rest))
    ensures LexBody(EscapeChar(c) + tail) == Some(([c] + content, rest))
  {
    var input := EscapeChar(c) + tail;
    if |EscapeChar(c)| == 1 {
      assert input[1..] == tail;
    } else {
      assert input[2..] == tail;
    }
  }

  lemma {:induction false} LexEscaped(text: string, rest: string)
    ensures LexBody(MapChars(text, EscapeChar) + "\"" + rest) == Some((text, rest))
    decreases |text|
  {
    if text == "" {
      assert ("" + "\"" + rest)[1..] == rest;
    } else {
      var tail := MapChars(text[1..], EscapeChar) + "\"" + rest;
      LexEscaped(text[1..], rest);
      LexOneEscape(text[0], tail, text[1..], rest);
      assert MapChars(text, EscapeChar) + "\"" + rest == EscapeChar(text[0]) + tail;
      assert text == [text[0]] + text[1..];
    }
  }

  /** Reading a printed literal gives the text back and stops right after it, whatever follows. */
  lemma LiteralRoundTrip(text: string, rest: string)
    ensures LexStringLiteral(RustStringLiteral(text) + rest) == Some((text, rest))
  {
    EscapedIsOneEscape(text);
    var body := MapChars(text, EscapeChar) + "\"" + rest;
    assert RustStringLiteral(text) + rest == "\"" + body;
    assert ("\"" + body)[1..] == body;
    LexEscaped(text, rest);
  }

  /** The printed literal holds no raw line end, so it stays on one source line. */
  lemma LiteralIsOneLine(text: string)
    ensures '\n' !in RustStringLiteral(text) && '\r' !in RustStringLiteral(text)
  {
    EscapedIsOneEscape(text);
    EscapedChars(text);
  }

  lemma {:induction false} EscapedChars(text: string)
    ensures '\n' !in MapChars(text, EscapeChar) && '\r' !in MapChars(text, EscapeChar)
    decreases |text|
  {
    if text != "" {
      EscapedChars(text[1..]);
    }
  }
}
