/** Errors with diff hints: what their coloured rendering in `error_types.rs` and `diagnostics/render.rs`
    says once the colours are erased. */
module ColouredDiffs {
  import opened Wrappers
  import opened Strings
  import opened SourcePositions
  import opened Sgr
  import opened Painted
  import opened Templates
  import opened TypeDiff
  import opened Diagnostics

  // ----- The diffed arguments without their colours

  function PlainDiffs(args: seq<string>, hints: seq<(nat, nat)>): seq<string>
    decreases |hints|
  {
    if hints == [] then args
    else
      var (i, j) := hints[0];
      if i < |args| && j < |args| then
        var (left, right) := PlainSides(args[i], args[j]);
        PlainDiffs(args[i := left][j := right], hints[1..])
      else PlainDiffs(args, hints[1..])
  }

  /** The payload with its diffed arguments white-space normalised and no diff asked for. */
  function Normalized(p: Payload): Payload
    decreases p
  {
    Payload(p.id, PlainDiffs(p.args, p.diffHints), NormalizedAll(p.suffixes), p.hint, p.severity, [])
  }

  function NormalizedAll(ps: seq<Payload>): seq<Payload>
    decreases ps
  {
    if ps == [] then [] else [Normalized(ps[0])] + NormalizedAll(ps[1..])
  }

  // ----- Tokens and their colours

  /** `x` is the word in any number of colours. */
  ghost predicate TokenOf(x: string, word: string) {
    IsWord(word) && exists codes :: AreCodes(codes) && x == InColours(codes, word)
  }

  ghost predicate TokensOf(xs: seq<string>, ps: seq<string>) {
    |xs| == |ps| && forall i | 0 <= i < |ps| :: TokenOf(xs[i], ps[i])
  }

  lemma TokenShape(x: string, word: string)
    requires TokenOf(x, word)
    ensures x != "" && NoWhite(x) && Paints(x, word)
  {
    var codes :| AreCodes(codes) && x == InColours(codes, word);
    InColoursShape(codes, word);
    PaintsInColours(codes, word);
  }

  lemma WordIsToken(word: string)
    requires IsWord(word)
    ensures TokenOf(word, word)
  {
    assert AreCodes([]) && InColours([], word) == word;
  }

  lemma OneColourMore(x: string, word: string, open: string)
    requires TokenOf(x, word) && IsSgr(open)
    ensures TokenOf(open + x + RESET, word)
  {
    var codes :| AreCodes(codes) && x == InColours(codes, word);
    assert ([open] + codes)[1..] == codes;
    assert AreCodes([open] + codes) && InColours([open] + codes, word) == open + x + RESET;
  }

  function Wrapped(tokens: seq<string>, plain: seq<bool>, open: string): seq<string>
    requires |plain| == |tokens|
  {
    seq(|tokens|, i requires 0 <= i < |tokens| => if plain[i] then tokens[i] else open + tokens[i] + RESET)
  }

  lemma WrappedAreTokens(xs: seq<string>, ps: seq<string>, plain: seq<bool>, open: string)
    requires TokensOf(xs, ps) && |plain| == |xs| && IsSgr(open)
    ensures TokensOf(Wrapped(xs, plain, open), ps)
  {
    forall i | 0 <= i < |ps| ensures TokenOf(Wrapped(xs, plain, open)[i], ps[i]) {
      OneColourMore(xs[i], ps[i], open);
    }
  }

  lemma {:induction false} ColouredIsJoined(tokens: seq<string>, plain: seq<bool>, open: string)
    requires |plain| == |tokens|
    ensures Coloured(tokens, plain, open) == Joined(Wrapped(tokens, plain, open))
    decreases |tokens|
  {
    if tokens != [] {
      var n := |tokens| - 1;
      ColouredIsJoined(tokens[..n], plain[..n], open);
      assert Wrapped(tokens, plain, open)[..n] == Wrapped(tokens[..n], plain[..n], open);
    }
  }

  lemma OneMoreTokenPaints(before: string, joined: string, space: string, x: string, word: string)
    requires Paints(before, joined) && EscapeFree(space) && Paints(x, word)
    ensures Paints(before + space + x, joined + space + word)
  {
    PaintsPlain(space);
    PaintsAppend(before, joined, space, space);
    PaintsAppend(before + space, joined + space, x, word);
  }

  lemma LastTokenPaints(xs: seq<string>, ps: seq<string>, n: nat)
    requires TokensOf(xs, ps) && |ps| == n + 1
    ensures TokensOf(xs[..n], ps[..n]) && Paints(xs[n], ps[n])
  {
    TokenShape(xs[n], ps[n]);
  }

  lemma {:induction false} JoinedPaints(xs: seq<string>, ps: seq<string>)
    requires TokensOf(xs, ps)
    ensures Paints(Joined(xs), Joined(ps))
    decreases |ps|
  {
    if ps == [] {
      PaintsPlain("");
    } else {
      var n := |ps| - 1;
      LastTokenPaints(xs, ps, n);
      JoinedPaints(xs[..n], ps[..n]);
      OneMoreTokenPaints(Joined(xs[..n]), Joined(ps[..n]), if n > 0 then " " else "", xs[n], ps[n]);
    }
  }

  // ----- Splitting joined tokens again

  lemma {:induction false} SplitNoWhite(s: string, word: string)
    requires NoWhite(s) && word + s != ""
    ensures SplitWhitespace(s, word) == [word + s]
    decreases |s|
  {
    if s == "" {
      assert word + s == word;
    } else {
      assert !IsWhitespace(s[0]) && word + s == (word + [s[0]]) + s[1..];
      SplitNoWhite(s[1..], word + [s[0]]);
    }
  }

  lemma {:induction false} SplitAtSpace(s: string, word: string, t: string)
    ensures SplitWhitespace(s + " " + t, word) == SplitWhitespace(s, word) + Tokens(t)
    decreases |s|
  {
    var whole := s + " " + t;
    if s == "" {
      assert whole[0] == ' ' && whole[1..] == t;
    } else {
      assert whole[0] == s[0] && whole[1..] == s[1..] + " " + t;
      SplitAtSpace(s[1..], if IsWhitespace(s[0]) then "" else word + [s[0]], t);
    }
  }

  lemma {:induction false} TokensOfJoined(ts: seq<string>)
    requires forall i | 0 <= i < |ts| :: ts[i] != "" && NoWhite(ts[i])
    ensures Tokens(Joined(ts)) == ts
    decreases |ts|
  {
    if ts != [] {
      var n := |ts| - 1;
      TokensOfJoined(ts[..n]);
      SplitNoWhite(ts[n], "");
      assert "" + ts[n] == ts[n];
      if n == 0 {
        assert Joined(ts) == ts[0];
      } else {
        SplitAtSpace(Joined(ts[..n]), "", ts[n]);
      }
      assert ts == ts[..n] + [ts[n]];
    }
  }

  lemma {:induction false} TokensAreWords(s: string, word: string)
    requires EscapeFree(s) && (word == "" || IsWord(word))
    ensures forall i | 0 <= i < |SplitWhitespace(s, word)| :: IsWord(SplitWhitespace(s, word)[i])
    decreases |s|
  {
    if s != "" {
      assert s[0] in s;
      TokensAreWords(s[1..], if IsWhitespace(s[0]) then "" else word + [s[0]]);
    }
  }

  lemma JoinedTokens(xs: seq<string>, ps: seq<string>)
    requires TokensOf(xs, ps)
    ensures Tokens(Joined(xs)) == xs && Tokens(Joined(ps)) == ps
  {
    forall i | 0 <= i < |ps| ensures xs[i] != "" && NoWhite(xs[i]) && ps[i] != "" && NoWhite(ps[i]) {
      TokenShape(xs[i], ps[i]);
    }
    TokensOfJoined(xs);
    TokensOfJoined(ps);
  }

  // ----- Safe tokens

  /** Safe in front of white space. */
  predicate SafeWord(t: string) { SafeBraces(t + " ") }

  ghost predicate SafeWords(ts: seq<string>) { forall i | 0 <= i < |ts| :: SafeWord(ts[i]) }

  lemma SafeIsSafeWord(s: string)
    requires SafeBraces(s)
    ensures SafeWord(s)
  {
    BraceFreeIsSafe(" ");
    SafeAppend(s, " ");
  }

  lemma SafeFront(a: string, b: string)
    requires SafeBraces(a + b)
    ensures SafeWord(a) && SafeBraces(b)
  {
    BraceFreeIsSafe(" ");
    SafeReplaced(a, b, " ");
  }

  lemma {:induction false} TokensSafe(s: string, word: string)
    requires SafeBraces(word + s)
    ensures SafeWords(SplitWhitespace(s, word))
    decreases |s|
  {
    SafeFront(word, s);
    if s != "" {
      assert word + s == (word + [s[0]]) + s[1..];
      if IsWhitespace(s[0]) {
        SafeFront(word + [s[0]], s[1..]);
        assert "" + s[1..] == s[1..];
        TokensSafe(s[1..], "");
      } else {
        TokensSafe(s[1..], word + [s[0]]);
      }
    }
  }

  lemma {:induction false} JoinedSpaceSafe(ts: seq<string>)
    requires SafeWords(ts)
    ensures SafeWord(Joined(ts))
    decreases |ts|
  {
    if ts == [] {
      BraceFreeIsSafe("" + " ");
    } else {
      var n := |ts| - 1;
      JoinedSpaceSafe(ts[..n]);
      if n == 0 {
        assert Joined(ts) == ts[0];
      } else {
        SafeAppend(Joined(ts[..n]) + " ", ts[n] + " ");
        assert Joined(ts) + " " == (Joined(ts[..n]) + " ") + (ts[n] + " ");
      }
    }
  }

  lemma SafeAfterSpace(before: string, last: string)
    requires SafeWord(before) && SafeBraces(last)
    ensures SafeBraces(before + " " + last)
  {
    SafeAppend(before + " ", last);
  }

  lemma JoinedSafe(ts: seq<string>)
    requires SafeWords(ts) && (ts != [] ==> SafeBraces(ts[|ts| - 1]))
    ensures SafeBraces(Joined(ts))
  {
    if ts != [] {
      var n := |ts| - 1;
      if n == 0 {
        assert Joined(ts) == ts[0];
      } else {
        JoinedSpaceSafe(ts[..n]);
        SafeAfterSpace(Joined(ts[..n]), ts[n]);
      }
    }
  }

  lemma SgrIsSafe(code: string)
    requires IsSgr(code)
    ensures SafeBraces(code)
  {
    BraceFreeIsSafe(code);
  }

  lemma WrappedIsSafe(open: string, t: string)
    requires IsSgr(open) && SafeWord(t)
    ensures SafeBraces(open + t + RESET) && SafeWord(open + t + RESET)
  {
    SgrIsSafe(open);
    ResetIsSgr();
    SgrIsSafe(RESET);
    SafeReplaced(t, " ", RESET);
    SafeAppend(open, t + RESET);
    assert open + t + RESET == open + (t + RESET);
    SafeIsSafeWord(open + t + RESET);
  }

  lemma WrappedAreSafe(tokens: seq<string>, plain: seq<bool>, open: string)
    requires |plain| == |tokens| && IsSgr(open) && SafeWords(tokens)
    ensures SafeWords(Wrapped(tokens, plain, open))
    ensures tokens != [] && SafeBraces(tokens[|tokens| - 1]) ==> SafeBraces(Wrapped(tokens, plain, open)[|tokens| - 1])
  {
    forall i | 0 <= i < |tokens| && !plain[i]
      ensures SafeWord(open + tokens[i] + RESET) && SafeBraces(open + tokens[i] + RESET)
    {
      WrappedIsSafe(open, tokens[i]);
    }
  }

  // ----- Arguments

  predicate Untouched(hints: seq<(nat, nat)>, i: nat) {
    forall k | 0 <= k < |hints| :: hints[k].0 != i && hints[k].1 != i
  }

  /** The last word leaves no brace open at its end. */
  predicate EndsSafe(s: string) { Tokens(s) != [] ==> SafeBraces(Tokens(s)[|Tokens(s)| - 1]) }

  predicate IsJoined(s: string) { s == Joined(Tokens(s)) }

  /** `x` is `p` untouched, or `p` is white-space normalised and `x` has the same words in colours. */
  ghost predicate IsArgument(x: string, p: string) {
    && SafeBraces(x) && SafeBraces(p)
    && ((x == p && EscapeFree(p)) || (IsJoined(x) && IsJoined(p) && TokensOf(Tokens(x), Tokens(p))))
  }

  ghost predicate CanBeDiffed(x: string, p: string) { IsArgument(x, p) && EndsSafe(x) && EndsSafe(p) }

  lemma ArgumentTokens(x: string, p: string)
    requires IsArgument(x, p)
    ensures TokensOf(Tokens(x), Tokens(p)) && SafeWords(Tokens(x)) && SafeWords(Tokens(p))
  {
    assert "" + x == x && "" + p == p;
    TokensSafe(x, "");
    TokensSafe(p, "");
    if x == p && EscapeFree(p) {
      TokensAreWords(p, "");
      forall i | 0 <= i < |Tokens(p)| ensures TokenOf(Tokens(p)[i], Tokens(p)[i]) {
        WordIsToken(Tokens(p)[i]);
      }
    }
  }

  lemma ArgumentIsPainted(x: string, p: string)
    requires IsArgument(x, p)
    ensures Paints(x, p)
  {
    if x == p && EscapeFree(p) {
      PaintsPlain(p);
    } else {
      JoinedPaints(Tokens(x), Tokens(p));
    }
  }

  lemma SidesAgree(x: string, p: string, y: string, q: string)
    requires IsArgument(x, p) && IsArgument(y, q)
    ensures x == y ==> p == q
    ensures x != y && p == q ==> IsJoined(p)
  {
    ArgumentIsPainted(x, p);
    ArgumentIsPainted(y, q);
    PaintsErases(x, p);
    PaintsErases(y, q);
    ErasesWhole(x, p);
    ErasesWhole(y, q);
  }

  /** A coloured side, and the other rendering's normalised one. */
  lemma ColouredIsArgument(x: string, p: string, plain: seq<bool>, open: string)
    requires CanBeDiffed(x, p) && |plain| == |Tokens(x)| && IsSgr(open)
    ensures CanBeDiffed(Coloured(Tokens(x), plain, open), Joined(Tokens(p)))
  {
    var xs, ps := Tokens(x), Tokens(p);
    var ws := Wrapped(xs, plain, open);
    ArgumentTokens(x, p);
    ColouredIsJoined(xs, plain, open);
    WrappedAreTokens(xs, ps, plain, open);
    JoinedTokens(ws, ps);
    WrappedAreSafe(xs, plain, open);
    JoinedSafe(ws);
    JoinedSafe(ps);
  }

  /** One diff, of arguments diffed before or not. */
  lemma DiffIsArgument(x: string, p: string, y: string, q: string)
    requires CanBeDiffed(x, p) && CanBeDiffed(y, q)
    ensures CanBeDiffed(DiffTypeStrings(x, y).0, PlainSides(p, q).0)
    ensures CanBeDiffed(DiffTypeStrings(x, y).1, PlainSides(p, q).1)
  {
    var a, b := Tokens(x), Tokens(y);
    ArgumentTokens(x, p);
    ArgumentTokens(y, q);
    SidesAgree(x, p, y, q);
    if a != [] && b != [] && x != y {
      BackgroundsAreSgr();
      ColouredIsArgument(x, p, Mask(|a|, Firsts(Matches(a, b))), RED_BACKGROUND);
      ColouredIsArgument(y, q, Mask(|b|, Seconds(Matches(a, b))), GREEN_BACKGROUND);
    }
  }

  ghost predicate AreArguments(xs: seq<string>, ps: seq<string>, hints: seq<(nat, nat)>) {
    && |xs| == |ps|
    && (forall i | 0 <= i < |ps| :: IsArgument(xs[i], ps[i]))
    && (forall i | 0 <= i < |ps| && !Untouched(hints, i) :: CanBeDiffed(xs[i], ps[i]))
  }

  lemma FewerHints(xs: seq<string>, ps: seq<string>, hints: seq<(nat, nat)>)
    requires AreArguments(xs, ps, hints) && hints != []
    ensures AreArguments(xs, ps, hints[1..])
    ensures hints[0].0 < |ps| ==> CanBeDiffed(xs[hints[0].0], ps[hints[0].0])
    ensures hints[0].1 < |ps| ==> CanBeDiffed(xs[hints[0].1], ps[hints[0].1])
  {
    forall i | 0 <= i < |ps| && !Untouched(hints[1..], i) ensures CanBeDiffed(xs[i], ps[i]) {
      var k :| 0 <= k < |hints[1..]| && (hints[1..][k].0 == i || hints[1..][k].1 == i);
      assert hints[k + 1] == hints[1..][k];
    }
  }

  lemma {:induction false} DiffsAreArguments(xs: seq<string>, ps: seq<string>, hints: seq<(nat, nat)>)
    requires AreArguments(xs, ps, hints)
    ensures AreArguments(ApplyDiffs(xs, hints), PlainDiffs(ps, hints), [])
    decreases |hints|
  {
    if hints != [] {
      var (i, j) := hints[0];
      FewerHints(xs, ps, hints);
      if i < |ps| && j < |ps| {
        var (left, right) := DiffTypeStrings(xs[i], xs[j]);
        var (l, r) := PlainSides(ps[i], ps[j]);
        DiffIsArgument(xs[i], ps[i], xs[j], ps[j]);
        DiffsAreArguments(xs[i := left][j := right], ps[i := l][j := r], hints[1..]);
      } else {
        DiffsAreArguments(xs, ps, hints[1..]);
      }
    }
  }

  /** `x` is `p` with some words coloured, and both can be filled into a template. */
  ghost predicate ArgumentPaints(x: string, p: string) { Paints(x, p) && SafeBraces(x) && SafeBraces(p) }

  ghost predicate ArgumentsPaint(xs: seq<string>, ps: seq<string>) {
    |xs| == |ps| && forall i | 0 <= i < |ps| :: ArgumentPaints(xs[i], ps[i])
  }

  lemma ArgumentsAppend(a: seq<string>, p: seq<string>, b: seq<string>, q: seq<string>)
    requires ArgumentsPaint(a, p) && ArgumentsPaint(b, q)
    ensures ArgumentsPaint(a + b, p + q)
  {
    forall i | 0 <= i < |p + q| ensures ArgumentPaints((a + b)[i], (p + q)[i]) {
      if i < |p| {
        assert (a + b)[i] == a[i] && (p + q)[i] == p[i];
      } else {
        assert (a + b)[i] == b[i - |p|] && (p + q)[i] == q[i - |p|];
      }
    }
  }

  // ----- Filled templates

  /** The braces of the template's own text are safe, and every slot has an argument. */
  ghost predicate IsCleanTemplate(template: string, count: nat) {
    exists pieces :: Text(pieces) == template && SafePieces(pieces) && SlotsBelow(pieces, count)
  }

  lemma PiecePaints(piece: Piece, coloured: seq<string>, plain: seq<string>)
    requires ArgumentsPaint(coloured, plain) && EscapeFree(PieceText(piece))
    ensures Paints(SubstitutedPiece(piece, coloured), SubstitutedPiece(piece, plain))
  {
    if piece.Character? || |plain| <= piece.i {
      PaintsPlain(PieceText(piece));
    }
  }

  lemma {:induction false} SubstitutedPaints(pieces: seq<Piece>, coloured: seq<string>, plain: seq<string>)
    requires ArgumentsPaint(coloured, plain) && EscapeFree(Text(pieces))
    ensures Paints(Substituted(pieces, coloured), Substituted(pieces, plain))
    decreases |pieces|
  {
    if pieces == [] {
      PaintsPlain("");
    } else {
      PiecePaints(pieces[0], coloured, plain);
      SubstitutedPaints(pieces[1..], coloured, plain);
      PaintsAppend(SubstitutedPiece(pieces[0], coloured), SubstitutedPiece(pieces[0], plain),
                   Substituted(pieces[1..], coloured), Substituted(pieces[1..], plain));
    }
  }

  lemma TemplatePaints(template: string, coloured: seq<string>, plain: seq<string>)
    requires ArgumentsPaint(coloured, plain) && IsCleanTemplate(template, |plain|) && EscapeFree(template)
    ensures ArgumentPaints(ApplyTemplate(template, coloured), ApplyTemplate(template, plain))
  {
    var pieces :| Text(pieces) == template && SafePieces(pieces) && SlotsBelow(pieces, |plain|);
    SafeBracesFill(pieces, coloured);
    SafeBracesFill(pieces, plain);
    SubstitutedPaints(pieces, coloured, plain);
    SubstitutedSafe(pieces, coloured);
    SubstitutedSafe(pieces, plain);
  }

  // ----- Payloads

  /** Safe braces in the template and the arguments; a diffed argument does not end with a brace open. */
  ghost predicate IsCleanPayload(p: Payload, catalog: Catalog)
    decreases p
  {
    && IsCleanTemplate(catalog.template(p.id), |p.args| + |p.suffixes|) && EscapeFree(catalog.template(p.id))
    && AreCleanArguments(p.args, p.diffHints)
    && forall q | q in p.suffixes :: IsCleanPayload(q, catalog)
  }

  ghost predicate AreCleanArguments(args: seq<string>, hints: seq<(nat, nat)>) {
    forall i | 0 <= i < |args| ::
      EscapeFree(args[i]) && SafeBraces(args[i]) && (Untouched(hints, i) || EndsSafe(args[i]))
  }

  lemma PayloadArgumentsPaint(args: seq<string>, hints: seq<(nat, nat)>)
    requires AreCleanArguments(args, hints)
    ensures ArgumentsPaint(ApplyDiffs(args, hints), PlainDiffs(args, hints))
  {
    DiffsAreArguments(args, args, hints);
    var xs, ps := ApplyDiffs(args, hints), PlainDiffs(args, hints);
    forall i | 0 <= i < |ps| ensures ArgumentPaints(xs[i], ps[i]) {
      ArgumentIsPainted(xs[i], ps[i]);
    }
  }

  lemma {:induction false} PlainDiffsCount(args: seq<string>, hints: seq<(nat, nat)>)
    ensures |PlainDiffs(args, hints)| == |args|
    decreases |hints|
  {
    if hints != [] {
      var (i, j) := hints[0];
      if i < |args| && j < |args| {
        var (l, r) := PlainSides(args[i], args[j]);
        PlainDiffsCount(args[i := l][j := r], hints[1..]);
      } else {
        PlainDiffsCount(args, hints[1..]);
      }
    }
  }

  /** Erasing the colours of a rendered payload gives the plain rendering of the payload with its diffed
      arguments white-space normalised. */
  lemma {:induction false} RenderedPaints(p: Payload, catalog: Catalog)
    requires IsCleanPayload(p, catalog)
    ensures ArgumentPaints(RenderColoured(p, catalog), Render(Normalized(p), catalog))
    decreases p
  {
    PayloadArgumentsPaint(p.args, p.diffHints);
    PlainDiffsCount(p.args, p.diffHints);
    RenderedAllPaint(p.suffixes, catalog);
    ArgumentsAppend(ApplyDiffs(p.args, p.diffHints), PlainDiffs(p.args, p.diffHints),
                    RenderAllColoured(p.suffixes, catalog), RenderAll(NormalizedAll(p.suffixes), catalog));
    TemplatePaints(catalog.template(p.id),
                   ApplyDiffs(p.args, p.diffHints) + RenderAllColoured(p.suffixes, catalog),
                   PlainDiffs(p.args, p.diffHints) + RenderAll(NormalizedAll(p.suffixes), catalog));
  }

  lemma {:induction false} RenderedAllPaint(ps: seq<Payload>, catalog: Catalog)
    requires forall q | q in ps :: IsCleanPayload(q, catalog)
    ensures ArgumentsPaint(RenderAllColoured(ps, catalog), RenderAll(NormalizedAll(ps), catalog))
    ensures |RenderAll(NormalizedAll(ps), catalog)| == |ps|
    decreases ps
  {
    if ps != [] {
      RenderedPaints(ps[0], catalog);
      RenderedAllPaint(ps[1..], catalog);
      ArgumentsAppend([RenderColoured(ps[0], catalog)], [Render(Normalized(ps[0]), catalog)],
                      RenderAllColoured(ps[1..], catalog), RenderAll(NormalizedAll(ps[1..]), catalog));
      assert NormalizedAll(ps)[1..] == NormalizedAll(ps[1..]);
    }
  }

  lemma RenderedErases(p: Payload, catalog: Catalog)
    requires IsCleanPayload(p, catalog)
    ensures EraseSgr(RenderColoured(p, catalog)) == Render(Normalized(p), catalog)
  {
    RenderedPaints(p, catalog);
    PaintsErases(RenderColoured(p, catalog), Render(Normalized(p), catalog));
    ErasesWhole(RenderColoured(p, catalog), Render(Normalized(p), catalog));
  }

  // ----- Messages

  lemma {:induction false} JoinPaints(xs: seq<string>, ps: seq<string>)
    requires PaintsAll(xs, ps)
    ensures Paints(JoinLines(xs), JoinLines(ps))
    decreases |ps|
  {
    if ps == [] {
      PaintsPlain("");
    } else if |ps| > 1 {
      JoinPaints(xs[1..], ps[1..]);
      PaintsPlain("\n");
      PaintsAppend(xs[0], ps[0], "\n", "\n");
      PaintsAppend(xs[0] + "\n", ps[0] + "\n", JoinLines(xs[1..]), JoinLines(ps[1..]));
    }
  }

  lemma ExplanationErases(x: string, p: string)
    requires Paints(x, p)
    ensures Erases(Explanation(x), Explanation(p))
  {
    PaintsTrim(x, p);
    PaintsLines(Trim(x), Trim(p));
    JoinPaints(Lines(Trim(x)), Lines(Trim(p)));
    PaintsErases(Explanation(x), Explanation(p));
  }

  ghost predicate HintEscapeFree(hint: Option<Hint>) { hint.Some? ==> AllEscapeFree(hint.value.args) }

  function HintText(hint: Option<Hint>, catalog: Catalog): string {
    match hint
    case None => ""
    case Some(h) => ApplyTemplate(catalog.template(h.id), h.args)
  }

  lemma HintTextEscapeFree(hint: Option<Hint>, catalog: Catalog)
    requires HintEscapeFree(hint) && EscapeFreeCatalog(catalog)
    ensures EscapeFree(HintText(hint, catalog))
    ensures forall body :: WithHint(body, hint, catalog)
                        == if HintText(hint, catalog) == "" then body
                           else body + HINT_TRAILER_PREFIX + HintText(hint, catalog)
  {
    if hint.Some? {
      ApplyTemplateEscapeFree(catalog.template(hint.value.id), hint.value.args);
    }
  }

  lemma WithHintPaints(x: string, p: string, hint: Option<Hint>, catalog: Catalog)
    requires Paints(x, p) && HintEscapeFree(hint) && EscapeFreeCatalog(catalog)
    ensures Paints(WithHint(x, hint, catalog), WithHint(p, hint, catalog))
  {
    var text := HintText(hint, catalog);
    HintTextEscapeFree(hint, catalog);
    PaintsPlain(HINT_TRAILER_PREFIX);
    PaintsPlain(text);
    PaintsAppend(x, p, HINT_TRAILER_PREFIX, HINT_TRAILER_PREFIX);
    PaintsAppend(x + HINT_TRAILER_PREFIX, p + HINT_TRAILER_PREFIX, text, text);
  }

  lemma NoTrailerUnderColours(x: string, p: string)
    requires Paints(x, p) && !Contains(p, HINT_TRAILER_PREFIX)
    ensures !Contains(x, HINT_TRAILER_PREFIX)
  {
    if Contains(x, HINT_TRAILER_PREFIX) {
      PaintsContains(x, p, HINT_TRAILER_PREFIX);
    }
  }

  lemma TrimEscapeFree(s: string)
    requires EscapeFree(s)
    ensures EscapeFree(Trim(s))
  {
    TrimStartEscapeFree(s);
    TrimEndEscapeFree(TrimStart(s));
  }

  /** A body without the trailer, coloured or not, and one hint. */
  lemma WithHintErases(x: string, p: string, hint: Option<Hint>, catalog: Catalog)
    requires Paints(x, p) && HintEscapeFree(hint) && EscapeFreeCatalog(catalog)
    requires !Contains(p, HINT_TRAILER_PREFIX)
    ensures MessageErases(WithHint(x, hint, catalog), WithHint(p, hint, catalog))
  {
    var text := HintText(hint, catalog);
    HintTextEscapeFree(hint, catalog);
    NoTrailerUnderColours(x, p);
    if text == "" {
      SplitWithoutTrailer(x);
      SplitWithoutTrailer(p);
      ExplanationErases(x, p);
    } else {
      SplitJoined(x, text);
      SplitJoined(p, text);
      TrimEscapeFree(text);
      if Trim(text) == "" {
        WithHintPaints(x, p, hint, catalog);
        ExplanationErases(WithHint(x, hint, catalog), WithHint(p, hint, catalog));
      } else {
        PaintsTrimEnd(x, p);
        ExplanationErases(TrimEnd(x), TrimEnd(p));
      }
    }
  }

  // ----- Errors

  function NormalizedError(e: CompileError): CompileError {
    match e
    case Io(_) => e
    case Plain(p) => CompileError.Plain(Normalized(p))
    case AtSpan(span, p) => AtSpan(span, Normalized(p))
    case ParseError(span, p) => ParseError(span, Normalized(p))
    case TypeError(span, p) => TypeError(span, Normalized(p))
    case SqlError(span, p) => SqlError(span, Normalized(p))
    case XmlError(span, p) => XmlError(span, Normalized(p))
    case WarningAt(span, p) => WarningAt(span, Normalized(p))
  }

  /** The texts hold no escape and the payload is clean; the body of a located error does not spell the
      trailer that sets off a hint. */
  ghost predicate IsCleanError(e: CompileError, catalog: Catalog) {
    match e
    case Io(message) => EscapeFree(message)
    case Plain(p) => IsCleanPayload(p, catalog) && HintEscapeFree(p.hint)
    case _ =>
      && EscapeFree(e.span.file) && IsCleanPayload(e.payload, catalog) && HintEscapeFree(e.payload.hint)
      && !Contains(Render(Normalized(e.payload), catalog), HINT_TRAILER_PREFIX)
  }

  lemma PlainWithDiffsErases(p: Payload, catalog: Catalog)
    requires EscapeFreeCatalog(catalog) && IsCleanPayload(p, catalog) && HintEscapeFree(p.hint)
    ensures Erases(PlainTextColoured(FormatPayloadColoured(p, catalog), AnsiOpen(p.severity)),
                   PlainText(FormatPayload(Normalized(p), catalog)))
  {
    RenderedPaints(p, catalog);
    WithHintPaints(RenderColoured(p, catalog), Render(Normalized(p), catalog), p.hint, catalog);
    ExplanationErases(FormatPayloadColoured(p, catalog), FormatPayload(Normalized(p), catalog));
    PlainTextErases(FormatPayloadColoured(p, catalog), FormatPayload(Normalized(p), catalog), p.severity);
  }

  lemma LocatedWithDiffsErases(category: string, span: Span, p: Payload, catalog: Catalog)
    requires EscapeFreeCatalog(catalog) && IsCleanPayload(p, catalog) && HintEscapeFree(p.hint)
    requires EscapeFree(category) && EscapeFree(span.file)
    requires !Contains(Render(Normalized(p), catalog), HINT_TRAILER_PREFIX)
    ensures Erases(LocatedTextColoured("", category, span, FormatPayloadColoured(p, catalog), AnsiOpen(p.severity)),
                   LocatedText("", category, span, FormatPayload(Normalized(p), catalog)))
  {
    RenderedPaints(p, catalog);
    WithHintErases(RenderColoured(p, catalog), Render(Normalized(p), catalog), p.hint, catalog);
    ColoursAreSgr(p.severity);
    LocatedErases(category, span, FormatPayloadColoured(p, catalog), FormatPayload(Normalized(p), catalog),
                  AnsiOpen(p.severity));
  }

  predicate IsLocated(e: CompileError) { !e.Plain? && !e.Io? }

  lemma NormalizedLocated(e: CompileError)
    requires IsLocated(e)
    ensures var n := NormalizedError(e);
            IsLocated(n) && n.span == e.span && n.payload == Normalized(e.payload) && CategoryOf(n) == CategoryOf(e)
  {
  }

  lemma LocatedTexts(e: CompileError, catalog: Catalog)
    requires IsLocated(e)
    ensures UserText(e, catalog) == LocatedText("", CategoryOf(e), e.span, FormatPayload(e.payload, catalog))
    ensures TerminalText(e, true, catalog)
         == LocatedTextColoured("", CategoryOf(e), e.span, FormatPayloadColoured(e.payload, catalog),
                                AnsiOpen(e.payload.severity))
  {
  }

  lemma LocatedErrorWithDiffsErases(e: CompileError, catalog: Catalog)
    requires IsLocated(e) && EscapeFreeCatalog(catalog) && IsCleanError(e, catalog)
    ensures Erases(TerminalText(e, true, catalog), UserText(NormalizedError(e), catalog))
  {
    NormalizedLocated(e);
    LocatedTexts(e, catalog);
    LocatedTexts(NormalizedError(e), catalog);
    CategoryEscapeFree(e);
    LocatedWithDiffsErases(CategoryOf(e), e.span, e.payload, catalog);
  }

  /** Erasing the SGR sequences of the coloured text gives the plain text of the error with its diffed
      arguments white-space normalised, for every kind of error. */
  lemma TerminalErasesToNormalized(e: CompileError, catalog: Catalog)
    requires EscapeFreeCatalog(catalog) && IsCleanError(e, catalog)
    ensures EraseSgr(TerminalText(e, true, catalog)) == UserText(NormalizedError(e), catalog)
  {
    if IsLocated(e) {
      LocatedErrorWithDiffsErases(e, catalog);
    } else if e.Io? {
      IoErases(e.message, catalog);
    } else {
      PlainWithDiffsErases(e.payload, catalog);
    }
    ErasesWhole(TerminalText(e, true, catalog), UserText(NormalizedError(e), catalog));
  }
}
