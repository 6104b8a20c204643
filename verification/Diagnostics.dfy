/** Rendering of compile errors in `error_types.rs`: the plain form for editors and the coloured form
    for terminals, over catalog payloads as rendered by `diagnostics/render.rs`. */
module Diagnostics {
  import opened Wrappers
  import opened Strings
  import opened Templates
  import opened Utf8
  import opened Sgr
  import opened SourcePositions
  import TypeDiff

  // ----- Payloads

  datatype Severity = SeverityError | SeverityWarning | SeverityInfo | SeverityHint | SeverityDebug

  datatype Hint = Hint(id: nat, args: seq<string>)

  datatype Payload = Payload(id: nat, args: seq<string>, suffixes: seq<Payload>, hint: Option<Hint>,
                             severity: Severity, diffHints: seq<(nat, nat)>)

  /** Template texts of one language, and the id of the prelude of I/O errors. */
  datatype Catalog = Catalog(template: nat -> string, ioPrelude: nat)

  function Render(p: Payload, catalog: Catalog): string
    decreases p
  {
    ApplyTemplate(catalog.template(p.id), p.args + RenderAll(p.suffixes, catalog))
  }

  function RenderAll(ps: seq<Payload>, catalog: Catalog): seq<string>
    decreases ps
  {
    if ps == [] then [] else [Render(ps[0], catalog)] + RenderAll(ps[1..], catalog)
  }

  function ApplyDiffs(args: seq<string>, hints: seq<(nat, nat)>): seq<string>
    decreases |hints|
  {
    if hints == [] then args
    else
      var (i, j) := hints[0];
      if i < |args| && j < |args| then
        var (left, right) := TypeDiff.DiffTypeStrings(args[i], args[j]);
        ApplyDiffs(args[i := left][j := right], hints[1..])
      else ApplyDiffs(args, hints[1..])
  }

  function RenderColoured(p: Payload, catalog: Catalog): string
    decreases p
  {
    ApplyTemplate(catalog.template(p.id), ApplyDiffs(p.args, p.diffHints) + RenderAllColoured(p.suffixes, catalog))
  }

  function RenderAllColoured(ps: seq<Payload>, catalog: Catalog): seq<string>
    decreases ps
  {
    if ps == [] then [] else [RenderColoured(ps[0], catalog)] + RenderAllColoured(ps[1..], catalog)
  }

  const HINT_TRAILER_PREFIX: string := "\n  hint: "

  /** A body followed by its hint, if the hint renders to something. */
  function WithHint(body: string, hint: Option<Hint>, catalog: Catalog): string {
    match hint
    case None => body
    case Some(h) =>
      var text := ApplyTemplate(catalog.template(h.id), h.args);
      if text == "" then body else body + HINT_TRAILER_PREFIX + text
  }

  function FormatPayload(p: Payload, catalog: Catalog): string { WithHint(Render(p, catalog), p.hint, catalog) }

  function FormatPayloadColoured(p: Payload, catalog: Catalog): string {
    WithHint(RenderColoured(p, catalog), p.hint, catalog)
  }

  predicate NoDiffHints(p: Payload)
    decreases p
  {
    p.diffHints == [] && forall q | q in p.suffixes :: NoDiffHints(q)
  }

  /** Without diff hints anywhere in the payload the two renderers agree. */
  lemma {:induction false} SameWithoutDiffHints(p: Payload, catalog: Catalog)
    requires NoDiffHints(p)
    ensures RenderColoured(p, catalog) == Render(p, catalog)
    decreases p
  {
    SameAllWithoutDiffHints(p.suffixes, catalog);
  }

  lemma {:induction false} SameAllWithoutDiffHints(ps: seq<Payload>, catalog: Catalog)
    requires forall q | q in ps :: NoDiffHints(q)
    ensures RenderAllColoured(ps, catalog) == RenderAll(ps, catalog)
    decreases ps
  {
    if ps != [] {
      SameWithoutDiffHints(ps[0], catalog);
      SameAllWithoutDiffHints(ps[1..], catalog);
    }
  }

  // ----- Splitting off the hint

  function SplitMessageAndHint(message: string): (string, Option<string>) {
    match Find(message, HINT_TRAILER_PREFIX, 0)
    case None => (message, None)
    case Some(i) =>
      var hint := Trim(message[i + |HINT_TRAILER_PREFIX|..]);
      if hint == "" then (message, None) else (TrimEnd(message[..i]), Some(hint))
  }

  lemma NoEarlierTrailer(body: string, hint: string, i: nat)
    requires !Contains(body, HINT_TRAILER_PREFIX) && i < |body|
    ensures !OccursAt(body + HINT_TRAILER_PREFIX + hint, HINT_TRAILER_PREFIX, i)
  {
    var prefix, message := HINT_TRAILER_PREFIX, body + HINT_TRAILER_PREFIX + hint;
    if i + |prefix| <= |body| {
      assert message[i..i + |prefix|] == body[i..i + |prefix|];
      assert !OccursAt(body, prefix, i);
    } else {
      // The trailer would overlap itself, but only its first character is a line feed.
      assert message[i..i + |prefix|][|body| - i] == message[|body|] == '\n';
      assert prefix[|body| - i] != '\n';
    }
  }

  lemma {:induction false} FindFirst(s: string, pattern: string, from: nat, at: nat)
    requires from <= at && OccursAt(s, pattern, at)
    requires forall i | from <= i < at :: !OccursAt(s, pattern, i)
    ensures Find(s, pattern, from) == Some(at)
    decreases at - from
  {
    if from < at {
      FindFirst(s, pattern, from + 1, at);
    }
  }

  /** The split finds the trailer that was appended, and drops it with the hint unless the hint is blank. */
  lemma SplitJoined(body: string, hint: string)
    requires !Contains(body, HINT_TRAILER_PREFIX)
    ensures var message := body + HINT_TRAILER_PREFIX + hint;
            SplitMessageAndHint(message)
            == if Trim(hint) == "" then (message, None) else (TrimEnd(body), Some(Trim(hint)))
  {
    var prefix, message := HINT_TRAILER_PREFIX, body + HINT_TRAILER_PREFIX + hint;
    assert message[|body|..|body| + |prefix|] == prefix;
    forall i | 0 <= i < |body| ensures !OccursAt(message, prefix, i) {
      NoEarlierTrailer(body, hint, i);
    }
    FindFirst(message, prefix, 0, |body|);
    assert message[|body| + |prefix|..] == hint && message[..|body|] == body;
  }

  /** The split undoes the join: a body without the trailer prefix and a hint that is not blank come
      back, trimmed. */
  lemma SplitUndoesWithHint(body: string, hint: string)
    requires !Contains(body, HINT_TRAILER_PREFIX) && Trim(hint) != ""
    ensures SplitMessageAndHint(body + HINT_TRAILER_PREFIX + hint) == (TrimEnd(body), Some(Trim(hint)))
  {
    SplitJoined(body, hint);
  }

  lemma SplitWithoutTrailer(body: string)
    requires !Contains(body, HINT_TRAILER_PREFIX)
    ensures SplitMessageAndHint(body) == (body, None)
  {
  }

  // ----- Layout

  const BANNER_MIN_DASH_RUN: nat := 8
  const BANNER_TARGET_WIDTH: nat := 62

  function Dashes(n: nat): string { if n == 0 then "" else "-" + Dashes(n - 1) }

  function Banner(category: string, suffix: string): string {
    var head := "-- " + category + " ";
    if suffix == "" then
      head + Dashes(Max(SaturatingSub(BANNER_TARGET_WIDTH, |Encode(head)|), BANNER_MIN_DASH_RUN))
    else
      var used := |Encode(head)| + (|Encode(suffix)| + 1);
      head + Dashes(Max(SaturatingSub(BANNER_TARGET_WIDTH, used), BANNER_MIN_DASH_RUN))
        + " " + suffix
  }

  function JoinLines(lines: seq<string>): string {
    if lines == [] then ""
    else if |lines| == 1 then lines[0]
    else lines[0] + "\n" + JoinLines(lines[1..])
  }

  function Explanation(body: string): string { JoinLines(Lines(Trim(body))) }

  function PosText(pos: Pos): string { Decimal(pos.line) + ":" + Decimal(pos.col) }

  function SpanText(span: Span): string { span.file + ":" + PosText(span.first) + "-" + PosText(span.last) }

  // ----- Writers, appending to an output text

  const BOLD_RED := [ESC] + "[1;31m"
  const BOLD_YELLOW := [ESC] + "[1;33m"
  const BOLD_CYAN := [ESC] + "[1;36m"
  const GREEN := [ESC] + "[32m"
  const BOLD_GREEN := [ESC] + "[1;32m"
  const DIM := [ESC] + "[2m"

  function AnsiOpen(severity: Severity): string {
    match severity
    case SeverityError => BOLD_RED
    case SeverityWarning => BOLD_YELLOW
    case SeverityInfo => BOLD_CYAN
    case SeverityHint => BOLD_GREEN
    case SeverityDebug => DIM
  }

  /** What the writers append after a given text. */
  function LocatedText(start: string, category: string, span: Span, message: string): string {
    var (main, hint) := SplitMessageAndHint(message);
    var body := start + Banner(category, span.file) + "\n" + "\n" + Explanation(main) + "\n" + "\n"
                + ("    --> " + SpanText(span)) + "\n";
    match hint
    case None => body
    case Some(h) => body + "\n" + "Hint:" + " " + h + "\n"
  }

  function LocatedTextColoured(start: string, category: string, span: Span, message: string, open: string): string {
    var (main, hint) := SplitMessageAndHint(message);
    var body := start + (open + Banner(category, span.file) + RESET) + "\n" + "\n" + Explanation(main) + "\n" + "\n"
                + (BOLD_CYAN + ("    --> " + SpanText(span)) + RESET) + "\n";
    match hint
    case None => body
    case Some(h) => body + "\n" + (BOLD_GREEN + "Hint:" + RESET) + " " + (GREEN + h + RESET) + "\n"
  }

  class Output {
    var text: string

    constructor ()
      ensures text == ""
    {
      text := "";
    }

    method Write(s: string)
      modifies this
      ensures text == old(text) + s
    {
      text := text + s;
    }
  }

  method WriteLocatedDiagnostic(out: Output, category: string, span: Span, message: string)
    modifies out
    ensures out.text == LocatedText(old(out.text), category, span, message)
  {
    out.Write(Banner(category, span.file));
    out.Write("\n");
    out.Write("\n");
    var (main, hint) := SplitMessageAndHint(message);
    out.Write(Explanation(main));
    out.Write("\n");
    out.Write("\n");
    out.Write("    --> " + SpanText(span));
    out.Write("\n");
    if hint.Some? {
      out.Write("\n");
      out.Write("Hint:");
      out.Write(" ");
      out.Write(hint.value);
      out.Write("\n");
    }
  }

  method WriteLocatedDiagnosticColoured(out: Output, category: string, span: Span, message: string, open: string)
    modifies out
    ensures out.text == LocatedTextColoured(old(out.text), category, span, message, open)
  {
    out.Write(open + Banner(category, span.file) + RESET);
    out.Write("\n");
    out.Write("\n");
    var (main, hint) := SplitMessageAndHint(message);
    out.Write(Explanation(main));
    out.Write("\n");
    out.Write("\n");
    out.Write(BOLD_CYAN + ("    --> " + SpanText(span)) + RESET);
    out.Write("\n");
    if hint.Some? {
      out.Write("\n");
      out.Write(BOLD_GREEN + "Hint:" + RESET);
      out.Write(" ");
      out.Write(GREEN + hint.value + RESET);
      out.Write("\n");
    }
  }

  // ----- Whole errors

  datatype CompileError =
    | Plain(payload: Payload)
    | AtSpan(span: Span, payload: Payload)
    | ParseError(span: Span, payload: Payload)
    | TypeError(span: Span, payload: Payload)
    | SqlError(span: Span, payload: Payload)
    | XmlError(span: Span, payload: Payload)
    | WarningAt(span: Span, payload: Payload)
    | Io(message: string)

  function CategoryOf(e: CompileError): string {
    match e
    case Plain(_) => "ERROR"
    case AtSpan(_, _) => "ERROR"
    case ParseError(_, _) => "PARSE"
    case TypeError(_, _) => "TYPE"
    case SqlError(_, _) => "SQL"
    case XmlError(_, _) => "XML"
    case WarningAt(_, _) => "WARNING"
    case Io(_) => "IO"
  }

  function PlainText(message: string): string { "" + Banner("ERROR", "") + "\n" + "\n" + Explanation(message) }

  function PlainTextColoured(message: string, open: string): string {
    "" + (open + Banner("ERROR", "") + RESET) + "\n" + "\n" + Explanation(message)
  }

  function IoPrelude(catalog: Catalog): string {
    FormatPayload(Payload(catalog.ioPrelude, [], [], None, SeverityError, []), catalog)
  }

  function IoTail(message: string, catalog: Catalog): string {
    "\n" + "\n" + IoPrelude(catalog) + "\n" + "\n" + "    " + message + "\n"
  }

  /** `format_compile_error_for_user`. */
  function UserText(e: CompileError, catalog: Catalog): string {
    match e
    case Plain(p) => PlainText(FormatPayload(p, catalog))
    case Io(message) => "" + Banner("IO", "") + IoTail(message, catalog)
    case _ => LocatedText("", CategoryOf(e), e.span, FormatPayload(e.payload, catalog))
  }

  /** `format_compile_error_for_terminal`. */
  function TerminalText(e: CompileError, useColour: bool, catalog: Catalog): string {
    if !useColour then UserText(e, catalog)
    else match e
         case Plain(p) => PlainTextColoured(FormatPayloadColoured(p, catalog), AnsiOpen(p.severity))
         case Io(message) => "" + (BOLD_RED + Banner("IO", "") + RESET) + IoTail(message, catalog)
         case _ => LocatedTextColoured("", CategoryOf(e), e.span, FormatPayloadColoured(e.payload, catalog),
                                       AnsiOpen(e.payload.severity))
  }

  method WritePlainDiagnostic(out: Output, banner: string, message: string)
    modifies out
    ensures out.text == old(out.text) + banner + "\n" + "\n" + Explanation(message)
  {
    out.Write(banner);
    out.Write("\n");
    out.Write("\n");
    out.Write(Explanation(message));
  }

  method WriteIoError(out: Output, banner: string, message: string, catalog: Catalog)
    modifies out
    ensures out.text == old(out.text) + banner + IoTail(message, catalog)
  {
    out.Write(banner);
    out.Write(IoTail(message, catalog));
  }

  method FormatForUser(e: CompileError, catalog: Catalog) returns (r: string)
    ensures r == UserText(e, catalog)
  {
    var out := new Output();
    match e {
      case Plain(p) => WritePlainDiagnostic(out, Banner("ERROR", ""), FormatPayload(p, catalog));
      case Io(message) => WriteIoError(out, Banner("IO", ""), message, catalog);
      case _ => WriteLocatedDiagnostic(out, CategoryOf(e), e.span, FormatPayload(e.payload, catalog));
    }
    return out.text;
  }

  method FormatForTerminal(e: CompileError, useColour: bool, catalog: Catalog) returns (r: string)
    ensures r == TerminalText(e, useColour, catalog)
    ensures !useColour ==> r == UserText(e, catalog)
    ensures useColour && EscapeFreeCatalog(catalog) && EscapeFreeError(e) && HasNoDiffHints(e) ==>
              EraseSgr(r) == UserText(e, catalog)
  {
    if EscapeFreeCatalog(catalog) && EscapeFreeError(e) && HasNoDiffHints(e) {
      TerminalErasesToUser(e, catalog);
    }
    if !useColour {
      r := FormatForUser(e, catalog);
      return;
    }
    var out := new Output();
    match e {
      case Plain(p) =>
        WritePlainDiagnostic(out, AnsiOpen(p.severity) + Banner("ERROR", "") + RESET,
                             FormatPayloadColoured(p, catalog));
      case Io(message) => WriteIoError(out, BOLD_RED + Banner("IO", "") + RESET, message, catalog);
      case _ =>
        WriteLocatedDiagnosticColoured(out, CategoryOf(e), e.span, FormatPayloadColoured(e.payload, catalog),
                                       AnsiOpen(e.payload.severity));
    }
    return out.text;
  }

  // ----- Escape-free texts

  lemma {:induction false} ReplaceEscapeFree(s: string, pattern: string, replacement: string)
    requires pattern != "" && EscapeFree(s) && EscapeFree(replacement)
    ensures EscapeFree(Replace(s, pattern, replacement))
    decreases |s|
  {
    if s != "" {
      assert s[0] in s;
      ReplaceEscapeFree(if pattern <= s then s[|pattern|..] else s[1..], pattern, replacement);
    }
  }

  predicate AllEscapeFree(ss: seq<string>) { forall i | 0 <= i < |ss| :: EscapeFree(ss[i]) }

  lemma {:induction false} ApplyTemplateEscapeFree(template: string, args: seq<string>)
    requires EscapeFree(template) && AllEscapeFree(args)
    ensures EscapeFree(ApplyTemplate(template, args))
    decreases |args|
  {
    if args != [] {
      var n := |args| - 1;
      ApplyTemplateEscapeFree(template, args[..n]);
      ReplaceEscapeFree(ApplyTemplate(template, args[..n]), Placeholder(n), args[n]);
    }
  }

  ghost predicate EscapeFreeCatalog(catalog: Catalog) { forall id :: EscapeFree(catalog.template(id)) }

  predicate EscapeFreePayload(p: Payload)
    decreases p
  {
    && AllEscapeFree(p.args)
    && (p.hint.Some? ==> AllEscapeFree(p.hint.value.args))
    && forall q | q in p.suffixes :: EscapeFreePayload(q)
  }

  lemma {:induction false} RenderEscapeFree(p: Payload, catalog: Catalog)
    requires EscapeFreePayload(p) && EscapeFreeCatalog(catalog)
    ensures EscapeFree(Render(p, catalog))
    decreases p
  {
    RenderAllEscapeFree(p.suffixes, catalog);
    ApplyTemplateEscapeFree(catalog.template(p.id), p.args + RenderAll(p.suffixes, catalog));
  }

  lemma {:induction false} RenderAllEscapeFree(ps: seq<Payload>, catalog: Catalog)
    requires (forall q | q in ps :: EscapeFreePayload(q)) && EscapeFreeCatalog(catalog)
    ensures AllEscapeFree(RenderAll(ps, catalog))
    decreases ps
  {
    if ps != [] {
      RenderEscapeFree(ps[0], catalog);
      RenderAllEscapeFree(ps[1..], catalog);
    }
  }

  lemma FormatPayloadEscapeFree(p: Payload, catalog: Catalog)
    requires EscapeFreePayload(p) && EscapeFreeCatalog(catalog)
    ensures EscapeFree(FormatPayload(p, catalog))
  {
    RenderEscapeFree(p, catalog);
    if p.hint.Some? {
      ApplyTemplateEscapeFree(catalog.template(p.hint.value.id), p.hint.value.args);
    }
  }

  lemma {:induction false} TrimStartEscapeFree(s: string)
    requires EscapeFree(s)
    ensures EscapeFree(TrimStart(s))
    decreases |s|
  {
    if s != "" && IsWhitespace(s[0]) {
      TrimStartEscapeFree(s[1..]);
    }
  }

  lemma {:induction false} TrimEndEscapeFree(s: string)
    requires EscapeFree(s)
    ensures EscapeFree(TrimEnd(s))
    decreases |s|
  {
    if s != "" && IsWhitespace(s[|s| - 1]) {
      TrimEndEscapeFree(s[..|s| - 1]);
    }
  }

  lemma {:induction false} LinesEscapeFree(s: string)
    requires EscapeFree(s)
    ensures AllEscapeFree(Lines(s))
    decreases |s|
  {
    if s != "" {
      match Find(s, "\n", 0) {
        case None =>
        case Some(i) => LinesEscapeFree(s[i + 1..]);
      }
    }
  }

  lemma {:induction false} JoinLinesEscapeFree(lines: seq<string>)
    requires AllEscapeFree(lines)
    ensures EscapeFree(JoinLines(lines))
    decreases |lines|
  {
    if |lines| > 1 {
      JoinLinesEscapeFree(lines[1..]);
    }
  }

  lemma ExplanationEscapeFree(body: string)
    requires EscapeFree(body)
    ensures EscapeFree(Explanation(body))
  {
    TrimStartEscapeFree(body);
    TrimEndEscapeFree(TrimStart(body));
    LinesEscapeFree(Trim(body));
    JoinLinesEscapeFree(Lines(Trim(body)));
  }

  lemma {:induction false} DashesEscapeFree(n: nat)
    ensures EscapeFree(Dashes(n))
  {
    if n > 0 {
      DashesEscapeFree(n - 1);
    }
  }

  lemma BannerEscapeFree(category: string, suffix: string)
    requires EscapeFree(category) && EscapeFree(suffix)
    ensures EscapeFree(Banner(category, suffix))
  {
    var head := "-- " + category + " ";
    DashesEscapeFree(Max(SaturatingSub(BANNER_TARGET_WIDTH, |Encode(head)|), BANNER_MIN_DASH_RUN));
    var used := |Encode(head)| + (|Encode(suffix)| + 1);
    DashesEscapeFree(Max(SaturatingSub(BANNER_TARGET_WIDTH, used), BANNER_MIN_DASH_RUN));
  }

  lemma {:induction false} DecimalEscapeFree(n: nat)
    ensures EscapeFree(Decimal(n))
  {
    if n >= 10 {
      DecimalEscapeFree(n / 10);
    }
  }

  lemma SpanTextEscapeFree(span: Span)
    requires EscapeFree(span.file)
    ensures EscapeFree(SpanText(span))
  {
    DecimalEscapeFree(span.first.line);
    DecimalEscapeFree(span.first.col);
    DecimalEscapeFree(span.last.line);
    DecimalEscapeFree(span.last.col);
  }

  lemma SplitEscapeFree(message: string)
    requires EscapeFree(message)
    ensures EscapeFree(SplitMessageAndHint(message).0)
    ensures SplitMessageAndHint(message).1.Some? ==> EscapeFree(SplitMessageAndHint(message).1.value)
  {
    match Find(message, HINT_TRAILER_PREFIX, 0) {
      case None =>
      case Some(i) =>
        TrimEndEscapeFree(message[..i]);
        var tail := message[i + |HINT_TRAILER_PREFIX|..];
        TrimStartEscapeFree(tail);
        TrimEndEscapeFree(TrimStart(tail));
    }
  }

  // ----- Erasing the colours

  lemma ThenPlain(x: string, p: string, q: string)
    requires Erases(x, p) && EscapeFree(q)
    ensures Erases(x + q, p + q)
  {
    ErasesPlain(q);
    ErasesAppend(x, p, q, q);
  }

  lemma ThenColoured(x: string, p: string, open: string, q: string)
    requires Erases(x, p) && IsSgr(open) && EscapeFree(q)
    ensures Erases(x + (open + q + RESET), p + q)
  {
    ErasesWrapped(open, q);
    ErasesAppend(x, p, open + q + RESET, q);
  }

  lemma SgrOf(parameters: string)
    requires parameters != "" && forall i | 0 <= i < |parameters| :: IsParameter(parameters[i])
    ensures IsSgr([ESC] + ("[" + parameters + "m"))
  {
  }

  lemma ColoursAreSgr(severity: Severity)
    ensures IsSgr(AnsiOpen(severity)) && IsSgr(BOLD_RED) && IsSgr(BOLD_CYAN) && IsSgr(BOLD_GREEN) && IsSgr(GREEN)
  {
    SgrOf("1;31");
    SgrOf("1;33");
    SgrOf("1;36");
    SgrOf("1;32");
    SgrOf("32");
    SgrOf("2");
    assert "[" + "1;31" + "m" == "[1;31m" && "[" + "1;33" + "m" == "[1;33m" && "[" + "1;36" + "m" == "[1;36m";
    assert "[" + "1;32" + "m" == "[1;32m" && "[" + "32" + "m" == "[32m" && "[" + "2" + "m" == "[2m";
  }

  /** Banner, blank line and explanation, the part both layouts share. */
  lemma HeadErases(banner: string, coloured: string, plain: string, open: string)
    requires IsSgr(open) && EscapeFree(banner) && Erases(coloured, plain)
    ensures Erases("" + (open + banner + RESET) + "\n" + "\n" + coloured, "" + banner + "\n" + "\n" + plain)
  {
    ErasesPlain("");
    ThenColoured("", "", open, banner);
    var x, p := "" + (open + banner + RESET), "" + banner;
    ThenPlain(x, p, "\n");
    ThenPlain(x + "\n", p + "\n", "\n");
    ErasesAppend(x + "\n" + "\n", p + "\n" + "\n", coloured, plain);
  }

  lemma ArrowErases(x: string, p: string, arrow: string)
    requires Erases(x, p) && EscapeFree(arrow)
    ensures Erases(x + "\n" + "\n" + (BOLD_CYAN + arrow + RESET) + "\n", p + "\n" + "\n" + arrow + "\n")
  {
    ColoursAreSgr(SeverityError);
    ThenPlain(x, p, "\n");
    ThenPlain(x + "\n", p + "\n", "\n");
    ThenColoured(x + "\n" + "\n", p + "\n" + "\n", BOLD_CYAN, arrow);
    ThenPlain(x + "\n" + "\n" + (BOLD_CYAN + arrow + RESET), p + "\n" + "\n" + arrow, "\n");
  }

  lemma HintErases(x: string, p: string, hint: string)
    requires Erases(x, p) && EscapeFree(hint)
    ensures Erases(x + "\n" + (BOLD_GREEN + "Hint:" + RESET) + " " + (GREEN + hint + RESET) + "\n",
                   p + "\n" + "Hint:" + " " + hint + "\n")
  {
    ColoursAreSgr(SeverityError);
    ThenPlain(x, p, "\n");
    var x1, p1 := x + "\n", p + "\n";
    ThenColoured(x1, p1, BOLD_GREEN, "Hint:");
    var x2, p2 := x1 + (BOLD_GREEN + "Hint:" + RESET), p1 + "Hint:";
    ThenPlain(x2, p2, " ");
    ThenColoured(x2 + " ", p2 + " ", GREEN, hint);
    ThenPlain(x2 + " " + (GREEN + hint + RESET), p2 + " " + hint, "\n");
  }

  /** Two messages with one hint, and explanations of which one erases to the other. */
  ghost predicate MessageErases(coloured: string, plain: string) {
    var (x, hint) := SplitMessageAndHint(coloured);
    var (p, same) := SplitMessageAndHint(plain);
    && Erases(Explanation(x), Explanation(p))
    && hint == same && (hint.Some? ==> EscapeFree(hint.value))
  }

  lemma LocatedErases(category: string, span: Span, coloured: string, plain: string, open: string)
    requires IsSgr(open) && EscapeFree(category) && EscapeFree(span.file) && MessageErases(coloured, plain)
    ensures Erases(LocatedTextColoured("", category, span, coloured, open), LocatedText("", category, span, plain))
  {
    var (main, hint) := SplitMessageAndHint(coloured);
    var (same, _) := SplitMessageAndHint(plain);
    BannerEscapeFree(category, span.file);
    SpanTextEscapeFree(span);
    var banner, arrow := Banner(category, span.file), "    --> " + SpanText(span);
    HeadErases(banner, Explanation(main), Explanation(same), open);
    var x := "" + (open + banner + RESET) + "\n" + "\n" + Explanation(main);
    var p := "" + banner + "\n" + "\n" + Explanation(same);
    ArrowErases(x, p, arrow);
    if hint.Some? {
      HintErases(x + "\n" + "\n" + (BOLD_CYAN + arrow + RESET) + "\n", p + "\n" + "\n" + arrow + "\n", hint.value);
    }
  }

  lemma EscapeFreeMessageErases(message: string)
    requires EscapeFree(message)
    ensures MessageErases(message, message)
  {
    SplitEscapeFree(message);
    ExplanationEscapeFree(SplitMessageAndHint(message).0);
    ErasesPlain(Explanation(SplitMessageAndHint(message).0));
  }

  lemma PlainTextErases(coloured: string, plain: string, severity: Severity)
    requires Erases(Explanation(coloured), Explanation(plain))
    ensures Erases(PlainTextColoured(coloured, AnsiOpen(severity)), PlainText(plain))
  {
    ColoursAreSgr(severity);
    BannerEscapeFree("ERROR", "");
    HeadErases(Banner("ERROR", ""), Explanation(coloured), Explanation(plain), AnsiOpen(severity));
  }

  ghost predicate EscapeFreeError(e: CompileError) {
    match e
    case Plain(p) => EscapeFreePayload(p)
    case Io(message) => EscapeFree(message)
    case _ => EscapeFree(e.span.file) && EscapeFreePayload(e.payload)
  }

  predicate HasNoDiffHints(e: CompileError) { e.Io? || NoDiffHints(e.payload) }

  lemma PlainErases(p: Payload, catalog: Catalog)
    requires EscapeFreeCatalog(catalog) && EscapeFreePayload(p) && NoDiffHints(p)
    ensures Erases(PlainTextColoured(FormatPayloadColoured(p, catalog), AnsiOpen(p.severity)),
                   PlainText(FormatPayload(p, catalog)))
  {
    SameWithoutDiffHints(p, catalog);
    FormatPayloadEscapeFree(p, catalog);
    ExplanationEscapeFree(FormatPayload(p, catalog));
    ErasesPlain(Explanation(FormatPayload(p, catalog)));
    PlainTextErases(FormatPayload(p, catalog), FormatPayload(p, catalog), p.severity);
  }

  lemma IoTailEscapeFree(message: string, catalog: Catalog)
    requires EscapeFreeCatalog(catalog) && EscapeFree(message)
    ensures EscapeFree(IoTail(message, catalog))
  {
    FormatPayloadEscapeFree(Payload(catalog.ioPrelude, [], [], None, SeverityError, []), catalog);
  }

  lemma BannerThenTail(banner: string, tail: string)
    requires EscapeFree(banner) && EscapeFree(tail)
    ensures Erases("" + (BOLD_RED + banner + RESET) + tail, "" + banner + tail)
  {
    ColoursAreSgr(SeverityError);
    ErasesPlain("");
    ThenColoured("", "", BOLD_RED, banner);
    ThenPlain("" + (BOLD_RED + banner + RESET), "" + banner, tail);
  }

  lemma IoErases(message: string, catalog: Catalog)
    requires EscapeFreeCatalog(catalog) && EscapeFree(message)
    ensures Erases("" + (BOLD_RED + Banner("IO", "") + RESET) + IoTail(message, catalog),
                   "" + Banner("IO", "") + IoTail(message, catalog))
  {
    IoTailEscapeFree(message, catalog);
    BannerEscapeFree("IO", "");
    BannerThenTail(Banner("IO", ""), IoTail(message, catalog));
  }

  lemma LocatedErrorErases(category: string, span: Span, p: Payload, catalog: Catalog)
    requires EscapeFreeCatalog(catalog) && EscapeFreePayload(p) && NoDiffHints(p)
    requires EscapeFree(category) && EscapeFree(span.file)
    ensures Erases(LocatedTextColoured("", category, span, FormatPayloadColoured(p, catalog), AnsiOpen(p.severity)),
                   LocatedText("", category, span, FormatPayload(p, catalog)))
  {
    SameWithoutDiffHints(p, catalog);
    FormatPayloadEscapeFree(p, catalog);
    ColoursAreSgr(p.severity);
    EscapeFreeMessageErases(FormatPayload(p, catalog));
    LocatedErases(category, span, FormatPayload(p, catalog), FormatPayload(p, catalog), AnsiOpen(p.severity));
  }

  lemma CategoryEscapeFree(e: CompileError)
    ensures EscapeFree(CategoryOf(e))
  {
  }

  /** Erasing the SGR sequences of the coloured text gives the plain text, for every kind of error, as
      long as the texts themselves hold no escape and no diff was asked for. */
  lemma TerminalErasesToUser(e: CompileError, catalog: Catalog)
    requires EscapeFreeCatalog(catalog) && EscapeFreeError(e) && HasNoDiffHints(e)
    ensures EraseSgr(TerminalText(e, true, catalog)) == UserText(e, catalog)
  {
    match e {
      case Plain(p) => PlainErases(p, catalog);
      case Io(message) => IoErases(message, catalog);
      case _ =>
        CategoryEscapeFree(e);
        LocatedErrorErases(CategoryOf(e), e.span, e.payload, catalog);
    }
    ErasesWhole(TerminalText(e, true, catalog), UserText(e, catalog));
  }
}
