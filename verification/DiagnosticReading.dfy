/** Reading the text of an error back: the row of its kind, the rows of its explanation, its place and
    its hint. The reader knows nothing of the writers. */
module DiagnosticReading {
  import opened Wrappers
  import opened Strings
  import opened Utf8
  import opened TextRows
  import opened Templates
  import opened SourcePositions
  import opened Sgr
  import opened Diagnostics
  import opened ColouredDiffs

  // ----- Reading numbers and places from the end

  function DigitValue(c: char): nat
    requires IsDigit(c)
  {
    c as int - '0' as int
  }

  /** How many digits end the text. */
  function DigitsAtEnd(s: string): (n: nat)
    ensures n <= |s| && AllDigits(s[|s| - n..])
  {
    if s == "" || !IsDigit(s[|s| - 1]) then 0
    else
      var n := DigitsAtEnd(s[..|s| - 1]);
      assert s[|s| - (n + 1)..] == s[..|s| - 1][|s| - 1 - n..] + [s[|s| - 1]];
      n + 1
  }

  function NumberValue(digits: string): nat
    requires AllDigits(digits)
  {
    if digits == "" then 0 else NumberValue(digits[..|digits| - 1]) * 10 + DigitValue(digits[|digits| - 1])
  }

  /** The number that ends the text, and what stands before it. */
  function ReadNumber(s: string): Option<(string, nat)> {
    var n := DigitsAtEnd(s);
    if n == 0 then None else Some((s[..|s| - n], NumberValue(s[|s| - n..])))
  }

  /** What stands before a last character `c`. */
  function ReadMark(s: string, c: char): Option<string> {
    if s != "" && s[|s| - 1] == c then Some(s[..|s| - 1]) else None
  }

  /** `line:col` at the end of the text. */
  function ReadPos(s: string): Option<(string, Pos)> {
    match ReadNumber(s)
    case None => None
    case Some((beforeCol, col)) =>
      match ReadMark(beforeCol, ':')
      case None => None
      case Some(rest) =>
        match ReadNumber(rest)
        case None => None
        case Some((before, line)) =>
          if line < U32_MODULUS && col < U32_MODULUS then Some((before, Pos(line, col))) else None
  }

  /** `file:line:col-line:col`, from the end, so that the file may hold any characters. */
  function ReadSpan(s: string): Option<Span> {
    match ReadPos(s)
    case None => None
    case Some((beforeLast, last)) =>
      match ReadMark(beforeLast, '-')
      case None => None
      case Some(rest) =>
        match ReadPos(rest)
        case None => None
        case Some((beforeFirst, first)) =>
          match ReadMark(beforeFirst, ':')
          case None => None
          case Some(file) => Some(Span(file, first, last))
  }

  /** The place an arrow row points at. */
  function ReadArrow(row: string): Option<Span> {
    if "    --> " <= row then ReadSpan(row[8..]) else None
  }

  // ----- The writers' numbers and places are read back

  lemma {:induction false} DecimalValue(n: nat)
    ensures AllDigits(Decimal(n)) && NumberValue(Decimal(n)) == n
    decreases n
  {
    DecimalDigits(n);
    if n >= 10 {
      DecimalValue(n / 10);
      var s := Decimal(n);
      assert s[..|s| - 1] == Decimal(n / 10);
    } else {
      assert NumberValue("") == 0 && Decimal(n)[..0] == "";
    }
  }

  lemma {:induction false} DigitsAfter(prefix: string, digits: string)
    requires AllDigits(digits) && (prefix != "" ==> !IsDigit(prefix[|prefix| - 1]))
    ensures DigitsAtEnd(prefix + digits) == |digits|
    decreases |digits|
  {
    if digits == "" {
      assert prefix + digits == prefix;
    } else {
      var n := |digits| - 1;
      assert (prefix + digits)[..|prefix| + n] == prefix + digits[..n];
      DigitsAfter(prefix, digits[..n]);
    }
  }

  lemma NumberReads(prefix: string, n: nat)
    requires prefix != "" ==> !IsDigit(prefix[|prefix| - 1])
    ensures ReadNumber(prefix + Decimal(n)) == Some((prefix, n))
  {
    var s := prefix + Decimal(n);
    DecimalDigits(n);
    DecimalValue(n);
    DigitsAfter(prefix, Decimal(n));
    assert s[..|s| - |Decimal(n)|] == prefix && s[|s| - |Decimal(n)|..] == Decimal(n);
  }

  lemma MarkReads(prefix: string, c: char)
    ensures ReadMark(prefix + [c], c) == Some(prefix)
  {
    assert (prefix + [c])[..|prefix|] == prefix;
  }

  lemma PosReads(prefix: string, pos: Pos)
    requires prefix != "" && !IsDigit(prefix[|prefix| - 1])
    ensures ReadPos(prefix + PosText(pos)) == Some((prefix, pos))
  {
    var withLine := prefix + Decimal(pos.line);
    assert prefix + PosText(pos) == (withLine + [':']) + Decimal(pos.col);
    NumberReads(withLine + [':'], pos.col);
    MarkReads(withLine, ':');
    NumberReads(prefix, pos.line);
  }

  /** The text of a span tells the file and both ends. */
  lemma SpanReads(span: Span)
    ensures ReadSpan(SpanText(span)) == Some(span)
  {
    var named := span.file + [':'];
    var started := named + PosText(span.first);
    assert SpanText(span) == (started + ['-']) + PosText(span.last);
    PosReads(started + ['-'], span.last);
    MarkReads(started, '-');
    PosReads(named, span.first);
    MarkReads(span.file, ':');
  }

  lemma ArrowReads(span: Span)
    ensures ReadArrow("    --> " + SpanText(span)) == Some(span)
  {
    var row := "    --> " + SpanText(span);
    assert row[8..] == SpanText(span);
    SpanReads(span);
  }

  // ----- The banner row

  /** The word after the opening dashes. */
  function ReadKind(row: string): Option<string> {
    if "-- " <= row then
      match Find(row, " ", 3)
      case None => None
      case Some(i) => Some(row[3..i])
    else None
  }

  lemma SpaceAt(s: string, i: nat)
    requires i < |s|
    ensures OccursAt(s, " ", i) <==> s[i] == ' '
  {
    assert s[i..i + 1] == [s[i]];
  }

  lemma KindReads(word: string, rest: string)
    requires ' ' !in word
    ensures ReadKind("-- " + word + " " + rest) == Some(word)
  {
    var row := "-- " + word + " " + rest;
    forall i | 3 <= i < 3 + |word| ensures !OccursAt(row, " ", i) {
      SpaceAt(row, i);
      assert row[i] == word[i - 3];
    }
    SpaceAt(row, 3 + |word|);
    FindFirst(row, " ", 3, 3 + |word|);
    assert row[3..3 + |word|] == word;
  }

  /** What follows the word: dashes and, if there is a file, its name. */
  ghost predicate IsBannerRow(row: string, word: string, file: string) {
    exists n :: 8 <= n && row == "-- " + word + " " + Dashes(n) + if file == "" then "" else " " + file
  }

  function DashRun(word: string, file: string): (n: nat)
    ensures 8 <= n
  {
    var used := |Encode("-- " + word + " ")| + if file == "" then 0 else |Encode(file)| + 1;
    Max(SaturatingSub(BANNER_TARGET_WIDTH, used), BANNER_MIN_DASH_RUN)
  }

  lemma FileLast(head: string, dashes: string, file: string)
    ensures head + dashes + " " + file == head + dashes + (" " + file)
  {
  }

  lemma BannerParts(word: string, file: string)
    ensures Banner(word, file)
         == "-- " + word + " " + Dashes(DashRun(word, file)) + if file == "" then "" else " " + file
  {
    var dashes := Dashes(DashRun(word, file));
    if file == "" {
      assert "-- " + word + " " + dashes + "" == "-- " + word + " " + dashes;
    } else {
      FileLast("-- " + word + " ", dashes, file);
    }
  }

  lemma BannerIsRow(word: string, file: string)
    ensures IsBannerRow(Banner(word, file), word, file)
  {
    BannerParts(word, file);
  }

  lemma {:induction false} DashesBytes(n: nat)
    ensures |Dashes(n)| == n && IsAscii(Dashes(n)) && '\n' !in Dashes(n) && ' ' !in Dashes(n)
    decreases n
  {
    if n > 0 {
      DashesBytes(n - 1);
    }
  }

  /** A banner is 62 bytes wide, or wider where that would leave fewer than eight dashes. */
  lemma BannerWidth(word: string, file: string)
    ensures |Encode(Banner(word, file))|
         == Max(62, |Encode("-- " + word + " ")| + 8 + if file == "" then 0 else 1 + |Encode(file)|)
  {
    var head := "-- " + word + " ";
    var used := |Encode(head)| + if file == "" then 0 else |Encode(file)| + 1;
    var n := Max(SaturatingSub(BANNER_TARGET_WIDTH, used), BANNER_MIN_DASH_RUN);
    DashesBytes(n);
    AsciiBytes(Dashes(n));
    EncodeConcat(head, Dashes(n));
    if file != "" {
      EncodeConcat(head + Dashes(n), " ");
      EncodeConcat(head + Dashes(n) + " ", file);
      AsciiBytes(" ");
    }
  }

  lemma BannerHasNoLineFeed(word: string, file: string)
    requires '\n' !in word && '\n' !in file
    ensures '\n' !in Banner(word, file)
  {
    BannerIsRow(word, file);
    var n :| 8 <= n && Banner(word, file) == "-- " + word + " " + Dashes(n) + if file == "" then "" else " " + file;
    DashesBytes(n);
  }

  lemma BannerKind(word: string, file: string)
    requires ' ' !in word
    ensures ReadKind(Banner(word, file)) == Some(word)
  {
    BannerIsRow(word, file);
    var n :| 8 <= n && Banner(word, file) == "-- " + word + " " + Dashes(n) + if file == "" then "" else " " + file;
    var rest := Dashes(n) + if file == "" then "" else " " + file;
    assert Banner(word, file) == "-- " + word + " " + rest;
    KindReads(word, rest);
  }

  /** Each kind of error has its own word, spans and plain errors share one. */
  lemma KindWords(e: CompileError)
    ensures ' ' !in CategoryOf(e) && '\n' !in CategoryOf(e)
    ensures e.Plain? || e.AtSpan? ==> CategoryOf(e) == "ERROR"
    ensures e.ParseError? ==> CategoryOf(e) == "PARSE"
    ensures e.TypeError? ==> CategoryOf(e) == "TYPE"
    ensures e.SqlError? ==> CategoryOf(e) == "SQL"
    ensures e.XmlError? ==> CategoryOf(e) == "XML"
    ensures e.WarningAt? ==> CategoryOf(e) == "WARNING"
    ensures e.Io? ==> CategoryOf(e) == "IO"
  {
  }

  // ----- The rows of an error

  lemma EndRow(a: string)
    ensures Rows(a + "\n") == Rows(a) + [""]
  {
    RowsJoined(a, "");
    assert a + "\n" + "" == a + "\n";
  }

  lemma {:induction false} JoinedRows(lines: seq<string>)
    requires lines != [] && forall i | 0 <= i < |lines| :: '\n' !in lines[i]
    ensures Rows(JoinLines(lines)) == lines
    decreases |lines|
  {
    OneRow(lines[0]);
    if |lines| > 1 {
      JoinedRows(lines[1..]);
      RowsJoined(lines[0], JoinLines(lines[1..]));
      assert [lines[0]] + lines[1..] == lines;
    }
  }

  /** The lines of the trimmed body, or one empty row. */
  function BodyRows(body: string): seq<string> {
    if Lines(Trim(body)) == [] then [""] else Lines(Trim(body))
  }

  lemma ExplanationRows(body: string)
    ensures Rows(Explanation(body)) == BodyRows(body)
  {
    LinesHaveNoLineFeed(Trim(body));
    if Lines(Trim(body)) != [] {
      JoinedRows(Lines(Trim(body)));
    }
  }

  lemma HeadRows(banner: string, body: string)
    requires '\n' !in banner
    ensures Rows("" + banner + "\n" + "\n" + Explanation(body)) == [banner, ""] + BodyRows(body)
  {
    assert "" + banner == banner;
    OneRow(banner);
    EndRow(banner);
    RowsJoined(banner + "\n", Explanation(body));
    ExplanationRows(body);
  }

  lemma ArrowRows(text: string, arrow: string)
    requires '\n' !in arrow
    ensures Rows(text + "\n" + "\n" + arrow + "\n") == Rows(text) + ["", arrow, ""]
  {
    OneRow(arrow);
    EndRow(text);
    RowsJoined(text + "\n", arrow);
    EndRow(text + "\n" + "\n" + arrow);
  }

  lemma HintRows(text: string, hint: string)
    ensures Rows(text + "\n" + "Hint:" + " " + hint + "\n") == Rows(text) + Rows("Hint: " + hint) + [""]
  {
    assert text + "\n" + "Hint:" + " " + hint == text + "\n" + ("Hint: " + hint);
    RowsJoined(text, "Hint: " + hint);
    EndRow(text + "\n" + ("Hint: " + hint));
  }

  lemma SpanHasNoLineFeed(span: Span)
    requires '\n' !in span.file
    ensures '\n' !in "    --> " + SpanText(span)
  {
    DecimalDigits(span.first.line);
    DecimalDigits(span.first.col);
    DecimalDigits(span.last.line);
    DecimalDigits(span.last.col);
  }

  lemma LocatedRows(word: string, span: Span, message: string)
    requires '\n' !in word && '\n' !in span.file
    ensures var (main, hint) := SplitMessageAndHint(message);
            Rows(LocatedText("", word, span, message))
            == [Banner(word, span.file), ""] + BodyRows(main) + ["", "    --> " + SpanText(span), ""]
               + match hint case None => [] case Some(h) => Rows("Hint: " + h) + [""]
  {
    var (main, hint) := SplitMessageAndHint(message);
    BannerHasNoLineFeed(word, span.file);
    SpanHasNoLineFeed(span);
    var head := "" + Banner(word, span.file) + "\n" + "\n" + Explanation(main);
    var arrow := "    --> " + SpanText(span);
    HeadRows(Banner(word, span.file), main);
    ArrowRows(head, arrow);
    if hint.Some? {
      HintRows(head + "\n" + "\n" + arrow + "\n", hint.value);
    }
  }

  /** A reader of the rows finds the kind, the body, the place and, if there is one, the hint. */
  ghost predicate TellsLocated(rows: seq<string>, word: string, span: Span, body: seq<string>, hint: Option<string>) {
    var n := |body|;
    && |rows| >= n + 5
    && ReadKind(rows[0]) == Some(word) && IsBannerRow(rows[0], word, span.file)
    && rows[1] == "" && rows[2..2 + n] == body && rows[2 + n] == ""
    && ReadArrow(rows[3 + n]) == Some(span) && rows[4 + n] == ""
    && rows[5 + n..] == match hint case None => [] case Some(h) => Rows("Hint: " + h) + [""]
  }

  lemma RowsSplit(rows: seq<string>, banner: string, body: seq<string>, arrow: string, tail: seq<string>)
    requires rows == [banner, ""] + body + ["", arrow, ""] + tail
    ensures var n := |body|;
            && |rows| >= n + 5 && rows[0] == banner && rows[1] == "" && rows[2..2 + n] == body
            && rows[2 + n] == "" && rows[3 + n] == arrow && rows[4 + n] == "" && rows[5 + n..] == tail
  {
  }

  lemma RowsTell(word: string, span: Span, body: seq<string>, hint: Option<string>, rows: seq<string>,
                 tail: seq<string>)
    requires ' ' !in word
    requires tail == match hint case None => [] case Some(h) => Rows("Hint: " + h) + [""]
    requires rows == [Banner(word, span.file), ""] + body + ["", "    --> " + SpanText(span), ""] + tail
    ensures TellsLocated(rows, word, span, body, hint)
  {
    BannerKind(word, span.file);
    BannerIsRow(word, span.file);
    ArrowReads(span);
    RowsSplit(rows, Banner(word, span.file), body, "    --> " + SpanText(span), tail);
  }

  /** The plain text of an error with a place, in a file whose name has no line feed, tells its kind, its
      body, its place and its hint. */
  lemma LocatedErrorReads(e: CompileError, catalog: Catalog)
    requires IsLocated(e) && '\n' !in e.span.file
    ensures var (main, hint) := SplitMessageAndHint(FormatPayload(e.payload, catalog));
            TellsLocated(Rows(UserText(e, catalog)), CategoryOf(e), e.span, BodyRows(main), hint)
  {
    var message := FormatPayload(e.payload, catalog);
    var (main, hint) := SplitMessageAndHint(message);
    var tail := match hint case None => [] case Some(h) => Rows("Hint: " + h) + [""];
    KindWords(e);
    LocatedTexts(e, catalog);
    LocatedRows(CategoryOf(e), e.span, message);
    RowsTell(CategoryOf(e), e.span, BodyRows(main), hint, Rows(UserText(e, catalog)), tail);
  }

  /** That of a plain error tells its kind and its body, hint trailer and all. */
  lemma PlainErrorReads(p: Payload, catalog: Catalog)
    ensures var rows := Rows(UserText(CompileError.Plain(p), catalog));
            && |rows| > 2 && ReadKind(rows[0]) == Some("ERROR") && IsBannerRow(rows[0], "ERROR", "") && rows[1] == ""
            && rows[2..] == BodyRows(FormatPayload(p, catalog))
  {
    BannerKind("ERROR", "");
    BannerIsRow("ERROR", "");
    BannerHasNoLineFeed("ERROR", "");
    HeadRows(Banner("ERROR", ""), FormatPayload(p, catalog));
  }

  lemma RegroupFive(a: seq<string>, b: seq<string>, c: seq<string>, d: seq<string>, e: seq<string>)
    ensures a + b + c + d + e == a + (b + c + d + e)
  {
  }

  lemma IoRows(banner: string, prelude: string, last: string)
    requires '\n' !in banner
    ensures Rows(banner + "\n" + "\n" + prelude + "\n" + "\n" + last + "\n")
         == [banner, ""] + (Rows(prelude) + [""] + Rows(last) + [""])
  {
    var head := banner + "\n" + "\n" + prelude;
    OneRow(banner);
    EndRow(banner);
    assert [banner] + [""] == [banner, ""];
    RowsJoined(banner + "\n", prelude);
    EndRow(head);
    RowsJoined(head + "\n", last);
    EndRow(head + "\n" + "\n" + last);
    RegroupFive([banner, ""], Rows(prelude), [""], Rows(last), [""]);
  }

  lemma IoText(message: string, catalog: Catalog)
    ensures UserText(Io(message), catalog)
         == Banner("IO", "") + "\n" + "\n" + IoPrelude(catalog) + "\n" + "\n" + ("    " + message) + "\n"
  {
    var banner, prelude := Banner("IO", ""), IoPrelude(catalog);
    assert UserText(Io(message), catalog) == "" + banner + IoTail(message, catalog);
    IoTextGrouped(banner, prelude, message);
  }

  lemma IoTextGrouped(banner: string, prelude: string, message: string)
    ensures "" + banner + ("\n" + "\n" + prelude + "\n" + "\n" + "    " + message + "\n")
         == banner + "\n" + "\n" + prelude + "\n" + "\n" + ("    " + message) + "\n"
  {
  }

  lemma TwoRowsFirst(rows: seq<string>, banner: string, rest: seq<string>)
    requires rows == [banner, ""] + rest
    ensures rows[0] == banner && rows[1] == "" && rows[2..] == rest
  {
  }

  /** That of an I/O error tells its kind, the prelude of the catalog and the system's message. */
  lemma IoErrorReads(message: string, catalog: Catalog)
    ensures var rows := Rows(UserText(Io(message), catalog));
            && |rows| > 2 && ReadKind(rows[0]) == Some("IO") && IsBannerRow(rows[0], "IO", "") && rows[1] == ""
            && rows[2..] == Rows(IoPrelude(catalog)) + [""] + Rows("    " + message) + [""]
  {
    var banner, rest := Banner("IO", ""), Rows(IoPrelude(catalog)) + [""] + Rows("    " + message) + [""];
    BannerKind("IO", "");
    BannerIsRow("IO", "");
    BannerHasNoLineFeed("IO", "");
    IoText(message, catalog);
    IoRows(banner, IoPrelude(catalog), "    " + message);
    TwoRowsFirst(Rows(UserText(Io(message), catalog)), banner, rest);
  }

  // ----- What body and hint come from

  /** A rendered payload gives its body back, and its hint if it has one that is not blank. */
  lemma PayloadReads(p: Payload, catalog: Catalog)
    requires !Contains(Render(p, catalog), HINT_TRAILER_PREFIX)
    ensures var text := match p.hint case None => "" case Some(h) => ApplyTemplate(catalog.template(h.id), h.args);
            && (text == "" ==> SplitMessageAndHint(FormatPayload(p, catalog)) == (Render(p, catalog), None))
            && (Trim(text) != "" ==>
                  SplitMessageAndHint(FormatPayload(p, catalog)) == (TrimEnd(Render(p, catalog)), Some(Trim(text))))
  {
    SplitWithoutTrailer(Render(p, catalog));
    if p.hint.Some? {
      SplitJoined(Render(p, catalog), ApplyTemplate(catalog.template(p.hint.value.id), p.hint.value.args));
    }
  }

  lemma {:induction false} RenderAllAt(ps: seq<Payload>, catalog: Catalog)
    ensures |RenderAll(ps, catalog)| == |ps|
    ensures forall i | 0 <= i < |ps| :: RenderAll(ps, catalog)[i] == Render(ps[i], catalog)
    decreases |ps|
  {
    if ps != [] {
      RenderAllAt(ps[1..], catalog);
    }
  }

  /** What a slot of the template shows: the argument of its number, or the suffix after those. */
  function Shown(p: Payload, catalog: Catalog, i: nat): string {
    if i < |p.args| then p.args[i]
    else if i < |p.args| + |p.suffixes| then Render(p.suffixes[i - |p.args|], catalog)
    else Placeholder(i)
  }

  lemma {:induction false} SubstitutedShows(pieces: seq<Piece>, args: seq<string>, shown: nat -> string)
    requires forall i | 0 <= i < |args| :: args[i] == shown(i)
    requires forall i: nat | |args| <= i :: shown(i) == Placeholder(i)
    ensures Substituted(pieces, args) == ShownText(pieces, shown)
    decreases |pieces|
  {
    if pieces != [] {
      SubstitutedShows(pieces[1..], args, shown);
    }
  }

  function ShownText(pieces: seq<Piece>, shown: nat -> string): string {
    if pieces == [] then ""
    else (match pieces[0] case Character(c) => [c] case Slot(i) => shown(i)) + ShownText(pieces[1..], shown)
  }

  /** A rendered body is its template with each slot showing its argument or suffix. */
  lemma RenderShows(p: Payload, catalog: Catalog, pieces: seq<Piece>)
    requires Text(pieces) == catalog.template(p.id) && SafePieces(pieces)
    requires AllSafe(p.args) && forall q | q in p.suffixes :: SafeBraces(Render(q, catalog))
    ensures Render(p, catalog) == ShownText(pieces, (i: nat) => Shown(p, catalog, i))
  {
    var args := p.args + RenderAll(p.suffixes, catalog);
    RenderAllAt(p.suffixes, catalog);
    SafeBracesFill(pieces, args);
    SubstitutedShows(pieces, args, (i: nat) => Shown(p, catalog, i));
  }

  // ----- Colours of the banner

  lemma LocatedBegins(word: string, span: Span, message: string, open: string)
    ensures open <= LocatedTextColoured("", word, span, message, open)
  {
  }

  lemma PlainBegins(message: string, open: string)
    ensures open <= PlainTextColoured(message, open)
  {
  }

  lemma IoBegins(message: string, catalog: Catalog)
    ensures BOLD_RED <= "" + (BOLD_RED + Banner("IO", "") + RESET) + IoTail(message, catalog)
  {
  }

  lemma TerminalBegins(e: CompileError, catalog: Catalog)
    ensures (if e.Io? then BOLD_RED else AnsiOpen(e.payload.severity)) <= TerminalText(e, true, catalog)
  {
    if e.Io? {
      IoBegins(e.message, catalog);
    } else if e.Plain? {
      PlainBegins(FormatPayloadColoured(e.payload, catalog), AnsiOpen(e.payload.severity));
    } else {
      LocatedTexts(e, catalog);
      LocatedBegins(CategoryOf(e), e.span, FormatPayloadColoured(e.payload, catalog), AnsiOpen(e.payload.severity));
    }
  }

  /** The banner of a terminal text is red, yellow, cyan, green or dim, by severity. */
  lemma BannerColours(e: CompileError, catalog: Catalog)
    ensures e.Io? || e.payload.severity == SeverityError ==> [ESC] + "[1;31m" <= TerminalText(e, true, catalog)
    ensures !e.Io? && e.payload.severity == SeverityWarning ==> [ESC] + "[1;33m" <= TerminalText(e, true, catalog)
    ensures !e.Io? && e.payload.severity == SeverityInfo ==> [ESC] + "[1;36m" <= TerminalText(e, true, catalog)
    ensures !e.Io? && e.payload.severity == SeverityHint ==> [ESC] + "[1;32m" <= TerminalText(e, true, catalog)
    ensures !e.Io? && e.payload.severity == SeverityDebug ==> [ESC] + "[2m" <= TerminalText(e, true, catalog)
  {
    TerminalBegins(e, catalog);
  }

  // ----- The rows of a coloured error

  function InColour(code: string, s: string): string { [ESC] + code + s + [ESC] + "[0m" }

  lemma InColourIs(open: string, code: string, s: string)
    requires open == [ESC] + code
    ensures open + s + RESET == InColour(code, s)
  {
  }

  lemma ColouredHasNoLineFeed(code: string, s: string)
    requires '\n' !in code && '\n' !in s
    ensures '\n' !in InColour(code, s)
  {
  }

  lemma ColouredHintRows(text: string, hint: string)
    ensures Rows(text + "\n" + (BOLD_GREEN + "Hint:" + RESET) + " " + (GREEN + hint + RESET) + "\n")
         == Rows(text) + Rows(InColour("[1;32m", "Hint:") + " " + InColour("[32m", hint)) + [""]
  {
    InColourIs(BOLD_GREEN, "[1;32m", "Hint:");
    InColourIs(GREEN, "[32m", hint);
    var row := InColour("[1;32m", "Hint:") + " " + InColour("[32m", hint);
    assert text + "\n" + InColour("[1;32m", "Hint:") + " " + InColour("[32m", hint) == text + "\n" + row;
    RowsJoined(text, row);
    EndRow(text + "\n" + row);
  }

  /** The coloured text has the same rows: the banner in the colour of its severity, the place in cyan,
      the hint in green after its bold word. */
  lemma ColouredRows(word: string, span: Span, message: string, open: string, code: string)
    requires '\n' !in word && '\n' !in span.file && open == [ESC] + code && '\n' !in code
    ensures var (main, hint) := SplitMessageAndHint(message);
            Rows(LocatedTextColoured("", word, span, message, open))
            == [InColour(code, Banner(word, span.file)), ""] + BodyRows(main)
               + ["", InColour("[1;36m", "    --> " + SpanText(span)), ""]
               + match hint
                 case None => []
                 case Some(h) => Rows(InColour("[1;32m", "Hint:") + " " + InColour("[32m", h)) + [""]
  {
    var (main, hint) := SplitMessageAndHint(message);
    var banner, arrow := Banner(word, span.file), "    --> " + SpanText(span);
    BannerHasNoLineFeed(word, span.file);
    SpanHasNoLineFeed(span);
    InColourIs(open, code, banner);
    InColourIs(BOLD_CYAN, "[1;36m", arrow);
    ColouredHasNoLineFeed(code, banner);
    ColouredHasNoLineFeed("[1;36m", arrow);
    var head := "" + InColour(code, banner) + "\n" + "\n" + Explanation(main);
    HeadRows(InColour(code, banner), main);
    ArrowRows(head, InColour("[1;36m", arrow));
    if hint.Some? {
      ColouredHintRows(head + "\n" + "\n" + InColour("[1;36m", arrow) + "\n", hint.value);
    }
  }
}
