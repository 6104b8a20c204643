/** What a reader sees in the two texts of a type diff: which words carry no colour, and which colour
    the others carry. */
module DiffReading {
  import opened Strings
  import opened Sgr
  import opened Painted
  import opened TypeDiff
  import opened ColouredDiffs

  /** The words of a text that hold no escape. */
  function WordsOutsideColours(words: seq<string>): seq<string> {
    if words == [] then []
    else
      var n := |words| - 1;
      WordsOutsideColours(words[..n]) + if ESC in words[n] then [] else [words[n]]
  }

  ghost predicate IsCommonSubsequence(s: seq<string>, a: seq<string>, b: seq<string>) {
    exists ms: seq<(nat, nat)> :: IsMatching(ms, a, b) && |ms| == |s| && forall k | 0 <= k < |s| :: s[k] == a[ms[k].0]
  }

  lemma {:induction false} OutsideIsKept(tokens: seq<string>, plain: seq<bool>, open: string)
    requires |plain| == |tokens| && ESC in open && forall i | 0 <= i < |tokens| :: ESC !in tokens[i]
    ensures WordsOutsideColours(Wrapped(tokens, plain, open)) == Kept(tokens, plain)
    decreases |tokens|
  {
    if tokens != [] {
      var n := |tokens| - 1;
      OutsideIsKept(tokens[..n], plain[..n], open);
      assert Wrapped(tokens, plain, open)[..n] == Wrapped(tokens[..n], plain[..n], open);
    }
  }

  /** A side of a diff in words: the tokens, in order, each as it is or between the colour and a reset. */
  ghost predicate IsSide(text: string, tokens: seq<string>, code: string) {
    && |Tokens(text)| == |tokens|
    && forall i | 0 <= i < |tokens| ::
         Tokens(text)[i] == tokens[i] || Tokens(text)[i] == [ESC] + code + tokens[i] + [ESC] + "[0m"
  }

  lemma SideInWords(s: string, plain: seq<bool>, open: string)
    requires EscapeFree(s) && |plain| == |Tokens(s)| && IsSgr(open)
    ensures Tokens(Coloured(Tokens(s), plain, open)) == Wrapped(Tokens(s), plain, open)
    ensures WordsOutsideColours(Tokens(Coloured(Tokens(s), plain, open))) == Kept(Tokens(s), plain)
  {
    var tokens := Tokens(s);
    TokensAreWords(s, "");
    forall i | 0 <= i < |tokens| ensures TokenOf(tokens[i], tokens[i]) {
      WordIsToken(tokens[i]);
    }
    ColouredIsJoined(tokens, plain, open);
    WrappedAreTokens(tokens, tokens, plain, open);
    JoinedTokens(Wrapped(tokens, plain, open), tokens);
    assert open[0] in open;
    OutsideIsKept(tokens, plain, open);
  }

  lemma KeptIsCommon(a: seq<string>, b: seq<string>)
    ensures IsCommonSubsequence(Kept(a, Mask(|a|, Firsts(Matches(a, b)))), a, b)
  {
    var ms := Matches(a, b);
    MatchesMatch(a, b);
    KeptIsAt(a, Firsts(ms));
  }

  lemma CommonIsNoLonger(s: seq<string>, a: seq<string>, b: seq<string>)
    requires IsCommonSubsequence(s, a, b)
    ensures |s| <= Lcs(a, b)
  {
    var ms: seq<(nat, nat)> :| IsMatching(ms, a, b) && |ms| == |s| && forall k | 0 <= k < |s| :: s[k] == a[ms[k].0];
    LcsIsLongest(ms, a, b);
  }

  /** When two different types have words on both sides, the words outside colours are one list on both
      sides of the diff: a common subsequence of the tokens, and none is longer. */
  lemma DiffShowsLongestCommon(inferred: string, expected: string)
    requires EscapeFree(inferred) && EscapeFree(expected) && inferred != expected
    requires Tokens(inferred) != [] && Tokens(expected) != []
    ensures var (left, right) := DiffTypeStrings(inferred, expected);
            var common := WordsOutsideColours(Tokens(left));
            && WordsOutsideColours(Tokens(right)) == common
            && IsCommonSubsequence(common, Tokens(inferred), Tokens(expected))
            && forall s | IsCommonSubsequence(s, Tokens(inferred), Tokens(expected)) :: |s| <= |common|
  {
    var a, b := Tokens(inferred), Tokens(expected);
    BackgroundsAreSgr();
    SideInWords(inferred, Mask(|a|, Firsts(Matches(a, b))), RED_BACKGROUND);
    SideInWords(expected, Mask(|b|, Seconds(Matches(a, b))), GREEN_BACKGROUND);
    PlainTokensAgree(a, b);
    KeptIsCommon(a, b);
    forall s | IsCommonSubsequence(s, a, b) ensures |s| <= Lcs(a, b) {
      CommonIsNoLonger(s, a, b);
    }
  }

  /** The other words stand on red on the inferred side and on green on the expected side. */
  lemma DiffColours(inferred: string, expected: string)
    requires EscapeFree(inferred) && EscapeFree(expected) && inferred != expected
    requires Tokens(inferred) != [] && Tokens(expected) != []
    ensures IsSide(DiffTypeStrings(inferred, expected).0, Tokens(inferred), "[41m")
    ensures IsSide(DiffTypeStrings(inferred, expected).1, Tokens(expected), "[42m")
  {
    var a, b := Tokens(inferred), Tokens(expected);
    BackgroundsAreSgr();
    SideInWords(inferred, Mask(|a|, Firsts(Matches(a, b))), RED_BACKGROUND);
    SideInWords(expected, Mask(|b|, Seconds(Matches(a, b))), GREEN_BACKGROUND);
  }

  /** Equal types, and types one of which is blank, come back as they are. */
  lemma NoDiffWithoutDifference(inferred: string, expected: string)
    requires inferred == expected || Tokens(inferred) == [] || Tokens(expected) == []
    ensures DiffTypeStrings(inferred, expected) == (inferred, expected)
  {
  }
}
