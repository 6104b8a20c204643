/** `type_diff.rs`: two formatted types compared token by token; the tokens of a longest common
    subsequence stay plain and the others get a background colour. */
module TypeDiff {
  import opened Wrappers
  import opened Strings
  import opened Sgr

  // ----- Longest common subsequence

  /** The recurrence the table follows. */
  function Lcs<T(==)>(a: seq<T>, b: seq<T>): nat
    decreases |a| + |b|
  {
    if a == [] || b == [] then 0
    else
      var a', b' := a[..|a| - 1], b[..|b| - 1];
      if a[|a| - 1] == b[|b| - 1] then Lcs(a', b') + 1 else Max(Lcs(a', b), Lcs(a, b'))
  }

  /** A common subsequence, as matched index pairs that ascend on both sides. */
  ghost predicate IsMatching<T>(ms: seq<(nat, nat)>, a: seq<T>, b: seq<T>) {
    && (forall k | 0 <= k < |ms| :: ms[k].0 < |a| && ms[k].1 < |b| && a[ms[k].0] == b[ms[k].1])
    && (forall j, k | 0 <= j < k < |ms| :: ms[j].0 < ms[k].0 && ms[j].1 < ms[k].1)
  }

  lemma MatchingShrinks<T>(ms: seq<(nat, nat)>, a: seq<T>, b: seq<T>, m: nat, n: nat)
    requires IsMatching(ms, a, b) && m <= |a| && n <= |b|
    requires ms != [] ==> ms[|ms| - 1].0 < m && ms[|ms| - 1].1 < n
    ensures IsMatching(ms, a[..m], b[..n])
  {
    forall k | 0 <= k < |ms| ensures ms[k].0 < m && ms[k].1 < n {
      if k < |ms| - 1 {
        assert ms[k].0 < ms[|ms| - 1].0;
      }
    }
  }

  /** No common subsequence is longer than the recurrence says. */
  lemma {:induction false} LcsIsLongest<T>(ms: seq<(nat, nat)>, a: seq<T>, b: seq<T>)
    requires IsMatching(ms, a, b)
    ensures |ms| <= Lcs(a, b)
    decreases |a| + |b|
  {
    if ms != [] {
      var m, n, last := |a| - 1, |b| - 1, ms[|ms| - 1];
      var rest := ms[..|ms| - 1];
      if a[m] == b[n] {
        MatchingShrinks(rest, a, b, m, n);
        LcsIsLongest(rest, a[..m], b[..n]);
      } else if last.0 < m {
        MatchingShrinks(ms, a, b, m, |b|);
        assert b[..|b|] == b;
        LcsIsLongest(ms, a[..m], b);
      } else {
        assert last.1 < n;
        MatchingShrinks(ms, a, b, |a|, n);
        assert a[..|a|] == a;
        LcsIsLongest(ms, a, b[..n]);
      }
    }
  }

  /** The matching the backward walk collects. */
  function Matches<T(==)>(a: seq<T>, b: seq<T>): seq<(nat, nat)>
    decreases |a| + |b|
  {
    if a == [] || b == [] then []
    else
      var m, n := |a| - 1, |b| - 1;
      if a[m] == b[n] then Matches(a[..m], b[..n]) + [(m, n)]
      else if Lcs(a[..m], b) >= Lcs(a, b[..n]) then Matches(a[..m], b)
      else Matches(a, b[..n])
  }

  lemma MatchingGrows<T>(ms: seq<(nat, nat)>, a: seq<T>, b: seq<T>, m: nat, n: nat)
    requires m <= |a| && n <= |b| && IsMatching(ms, a[..m], b[..n])
    ensures IsMatching(ms, a, b)
  {
  }

  lemma {:induction false} MatchesMatch<T>(a: seq<T>, b: seq<T>)
    ensures IsMatching(Matches(a, b), a, b) && |Matches(a, b)| == Lcs(a, b)
    decreases |a| + |b|
  {
    if a != [] && b != [] {
      var m, n := |a| - 1, |b| - 1;
      assert a[..|a|] == a && b[..|b|] == b;
      if a[m] == b[n] {
        MatchesMatch(a[..m], b[..n]);
        MatchingGrows(Matches(a[..m], b[..n]), a, b, m, n);
      } else if Lcs(a[..m], b) >= Lcs(a, b[..n]) {
        MatchesMatch(a[..m], b);
        MatchingGrows(Matches(a[..m], b), a, b, m, |b|);
      } else {
        MatchesMatch(a, b[..n]);
        MatchingGrows(Matches(a, b[..n]), a, b, |a|, n);
      }
    }
  }

  /** It is a common subsequence, and no common subsequence is longer. */
  lemma MatchesAreLongest<T>(a: seq<T>, b: seq<T>)
    ensures IsMatching(Matches(a, b), a, b)
    ensures forall ms: seq<(nat, nat)> | IsMatching(ms, a, b) :: |ms| <= |Matches(a, b)|
  {
    MatchesMatch(a, b);
    forall ms: seq<(nat, nat)> | IsMatching(ms, a, b) ensures |ms| <= |Matches(a, b)| {
      LcsIsLongest(ms, a, b);
    }
  }

  ghost predicate IsTable<T>(dp: array2<nat>, a: seq<T>, b: seq<T>)
    reads dp
  {
    && dp.Length0 == |a| + 1 && dp.Length1 == |b| + 1
    && forall i, j | 0 <= i <= |a| && 0 <= j <= |b| :: dp[i, j] == Lcs(a[..i], b[..j])
  }

  lemma LcsStep<T>(a: seq<T>, b: seq<T>, i: nat, j: nat)
    requires 0 < i <= |a| && 0 < j <= |b|
    ensures Lcs(a[..i], b[..j])
         == if a[i - 1] == b[j - 1] then Lcs(a[..i - 1], b[..j - 1]) + 1
            else Max(Lcs(a[..i - 1], b[..j]), Lcs(a[..i], b[..j - 1]))
  {
    assert a[..i][..i - 1] == a[..i - 1] && b[..j][..j - 1] == b[..j - 1];
  }

  /** The dynamic-programming table, row by row. */
  method ComputeLcsTable<T(==)>(a: seq<T>, b: seq<T>) returns (dp: array2<nat>)
    ensures fresh(dp) && IsTable(dp, a, b)
  {
    var m, n := |a|, |b|;
    dp := new nat[m + 1, n + 1]((i, j) => 0);
    for row := 1 to m + 1
      invariant forall i, j | 0 <= i < row && 0 <= j <= n :: dp[i, j] == Lcs(a[..i], b[..j])
      invariant forall i | row <= i <= m :: dp[i, 0] == 0
    {
      for col := 1 to n + 1
        invariant forall i, j | 0 <= i < row && 0 <= j <= n :: dp[i, j] == Lcs(a[..i], b[..j])
        invariant forall j | 0 <= j < col :: dp[row, j] == Lcs(a[..row], b[..j])
        invariant forall i | row < i <= m :: dp[i, 0] == 0
      {
        LcsStep(a, b, row, col);
        if a[row - 1] == b[col - 1] {
          dp[row, col] := dp[row - 1, col - 1] + 1;
        } else {
          dp[row, col] := Max(dp[row - 1, col], dp[row, col - 1]);
        }
      }
    }
  }

  function Reversed(ms: seq<(nat, nat)>): seq<(nat, nat)> {
    if ms == [] then [] else [ms[|ms| - 1]] + Reversed(ms[..|ms| - 1])
  }

  lemma MatchesStep<T>(a: seq<T>, b: seq<T>, i: nat, j: nat)
    requires 0 < i <= |a| && 0 < j <= |b|
    ensures Matches(a[..i], b[..j])
         == if a[i - 1] == b[j - 1] then Matches(a[..i - 1], b[..j - 1]) + [(i - 1, j - 1)]
            else if Lcs(a[..i - 1], b[..j]) >= Lcs(a[..i], b[..j - 1]) then Matches(a[..i - 1], b[..j])
            else Matches(a[..i], b[..j - 1])
  {
    assert a[..i][..i - 1] == a[..i - 1] && b[..j][..j - 1] == b[..j - 1];
  }

  lemma PushReverses(front: seq<(nat, nat)>, pair: (nat, nat), matches: seq<(nat, nat)>)
    ensures (front + [pair]) + Reversed(matches) == front + Reversed(matches + [pair])
  {
    assert (matches + [pair])[..|matches|] == matches;
  }

  /** The walk back through the table pushes the matches last first, then reverses them. */
  method BacktrackLcs<T(==)>(dp: array2<nat>, a: seq<T>, b: seq<T>) returns (matches: seq<(nat, nat)>)
    requires IsTable(dp, a, b)
    ensures matches == Matches(a, b)
  {
    matches := [];
    var row: nat, col: nat := |a|, |b|;
    assert a[..row] == a && b[..col] == b;
    while row > 0 && col > 0
      invariant row <= |a| && col <= |b|
      invariant Matches(a[..row], b[..col]) + Reversed(matches) == Matches(a, b)
      decreases row + col
    {
      MatchesStep(a, b, row, col);
      if a[row - 1] == b[col - 1] {
        PushReverses(Matches(a[..row - 1], b[..col - 1]), (row - 1, col - 1), matches);
        matches := matches + [(row - 1, col - 1)];
        row, col := row - 1, col - 1;
      } else if dp[row - 1, col] >= dp[row, col - 1] {
        row := row - 1;
      } else {
        col := col - 1;
      }
    }
    assert Matches(a[..row], b[..col]) == [];
    matches := Reversed(matches);
  }

  // ----- Colouring

  const RED_BACKGROUND := [ESC] + "[41m"
  const GREEN_BACKGROUND := [ESC] + "[42m"

  /** `split_whitespace`, with the characters of the unfinished word so far. */
  function SplitWhitespace(s: string, word: string): seq<string>
    decreases |s|
  {
    if s == "" then (if word == "" then [] else [word])
    else if IsWhitespace(s[0]) then (if word == "" then [] else [word]) + SplitWhitespace(s[1..], "")
    else SplitWhitespace(s[1..], word + [s[0]])
  }

  function Tokens(s: string): seq<string> { SplitWhitespace(s, "") }

  /** Tokens joined by single spaces. */
  function Joined(tokens: seq<string>): string {
    if tokens == [] then ""
    else
      var n := |tokens| - 1;
      Joined(tokens[..n]) + (if n > 0 then " " else "") + tokens[n]
  }

  /** The same, each token outside the mask between `open` and a reset. */
  function Coloured(tokens: seq<string>, plain: seq<bool>, open: string): string
    requires |plain| == |tokens|
  {
    if tokens == [] then ""
    else
      var n := |tokens| - 1;
      Coloured(tokens[..n], plain[..n], open) + (if n > 0 then " " else "")
        + if plain[n] then tokens[n] else open + tokens[n] + RESET
  }

  function Firsts(ms: seq<(nat, nat)>): seq<nat> { seq(|ms|, k requires 0 <= k < |ms| => ms[k].0) }

  function Seconds(ms: seq<(nat, nat)>): seq<nat> { seq(|ms|, k requires 0 <= k < |ms| => ms[k].1) }

  /** Which of `n` positions are listed. */
  function Mask(n: nat, ks: seq<nat>): seq<bool> { seq(n, i => i in ks) }

  /** `diff_type_strings`. */
  function DiffTypeStrings(inferred: string, expected: string): (string, string) {
    var a, b := Tokens(inferred), Tokens(expected);
    if a == [] || b == [] || inferred == expected then (inferred, expected)
    else
      var ms := Matches(a, b);
      (Coloured(a, Mask(|a|, Firsts(ms)), RED_BACKGROUND), Coloured(b, Mask(|b|, Seconds(ms)), GREEN_BACKGROUND))
  }

  method MarkMatched(n: nat, ks: seq<nat>) returns (mask: array<bool>)
    requires forall k | 0 <= k < |ks| :: ks[k] < n
    ensures fresh(mask) && mask[..] == Mask(n, ks)
  {
    mask := new bool[n](i => false);
    for k := 0 to |ks|
      invariant forall i | 0 <= i < n :: mask[i] <==> i in ks[..k]
    {
      mask[ks[k]] := true;
      assert ks[..k + 1] == ks[..k] + [ks[k]];
    }
    assert ks[..|ks|] == ks;
  }

  method ColourTokens(tokens: seq<string>, mask: array<bool>, open: string) returns (s: string)
    requires mask.Length == |tokens|
    ensures s == Coloured(tokens, mask[..], open)
  {
    s := "";
    for i := 0 to |tokens|
      invariant s == Coloured(tokens[..i], mask[..i], open)
    {
      if i > 0 {
        s := s + " ";
      } else {
        s := s + "";
      }
      assert tokens[..i + 1][..i] == tokens[..i] && mask[..i + 1][..i] == mask[..i];
      if mask[i] {
        s := s + tokens[i];
      } else {
        s := s + (open + tokens[i] + RESET);
      }
    }
    assert tokens[..|tokens|] == tokens && mask[..|tokens|] == mask[..];
  }

  method ComputeDiff(inferred: string, expected: string) returns (left: string, right: string)
    ensures (left, right) == DiffTypeStrings(inferred, expected)
  {
    var a, b := Tokens(inferred), Tokens(expected);
    if a == [] || b == [] {
      return inferred, expected;
    }
    if inferred == expected {
      return inferred, expected;
    }
    var dp := ComputeLcsTable(a, b);
    var ms := BacktrackLcs(dp, a, b);
    MatchesMatch(a, b);
    var leftMask := MarkMatched(|a|, Firsts(ms));
    var rightMask := MarkMatched(|b|, Seconds(ms));
    left := ColourTokens(a, leftMask, RED_BACKGROUND);
    right := ColourTokens(b, rightMask, GREEN_BACKGROUND);
  }

  // ----- What the colours leave

  /** The tokens left plain. */
  function Kept<T>(tokens: seq<T>, mask: seq<bool>): seq<T>
    requires |mask| == |tokens|
  {
    if tokens == [] then []
    else
      var n := |tokens| - 1;
      Kept(tokens[..n], mask[..n]) + if mask[n] then [tokens[n]] else []
  }

  ghost predicate AscendingBelow(ks: seq<nat>, n: nat) {
    && (forall k | 0 <= k < |ks| :: ks[k] < n)
    && (forall j, k | 0 <= j < k < |ks| :: ks[j] < ks[k])
  }

  function At<T>(tokens: seq<T>, ks: seq<nat>): seq<T>
    requires forall k | 0 <= k < |ks| :: ks[k] < |tokens|
  {
    seq(|ks|, k requires 0 <= k < |ks| => tokens[ks[k]])
  }

  lemma MaskWithLast(n: nat, ks: seq<nat>)
    requires AscendingBelow(ks, n)
    ensures Mask(n + 1, ks + [n])[..n] == Mask(n, ks) && Mask(n + 1, ks + [n])[n]
    ensures Mask(n + 1, ks)[..n] == Mask(n, ks) && !Mask(n + 1, ks)[n]
  {
    assert forall k | 0 <= k < |ks| :: ks[k] != n;
    assert n !in ks;
  }

  lemma LastListed(ks: seq<nat>, n: nat)
    requires AscendingBelow(ks, n + 1)
    ensures n in ks ==> ks != [] && ks[|ks| - 1] == n && AscendingBelow(ks[..|ks| - 1], n) && ks == ks[..|ks| - 1] + [n]
    ensures n !in ks ==> AscendingBelow(ks, n)
  {
    if n in ks {
      var i :| 0 <= i < |ks| && ks[i] == n;
      var last := ks[|ks| - 1];
      assert ks[i] <= last < n + 1;
    } else {
      assert forall k | 0 <= k < |ks| :: ks[k] in ks;
    }
  }

  lemma {:induction false} KeptIsAt<T>(tokens: seq<T>, ks: seq<nat>)
    requires AscendingBelow(ks, |tokens|)
    ensures Kept(tokens, Mask(|tokens|, ks)) == At(tokens, ks)
    decreases |tokens|
  {
    if tokens != [] {
      var n := |tokens| - 1;
      LastListed(ks, n);
      if n in ks {
        var rest := ks[..|ks| - 1];
        MaskWithLast(n, rest);
        KeptIsAt(tokens[..n], rest);
        assert At(tokens, ks) == At(tokens[..n], rest) + [tokens[n]];
      } else {
        MaskWithLast(n, ks);
        KeptIsAt(tokens[..n], ks);
        assert At(tokens, ks) == At(tokens[..n], ks);
      }
    }
  }

  /** Both sides keep the same tokens plain: a common subsequence of maximal length. */
  lemma PlainTokensAgree(a: seq<string>, b: seq<string>)
    ensures Kept(a, Mask(|a|, Firsts(Matches(a, b)))) == Kept(b, Mask(|b|, Seconds(Matches(a, b))))
    ensures |Kept(a, Mask(|a|, Firsts(Matches(a, b))))| == Lcs(a, b)
  {
    var ms := Matches(a, b);
    MatchesMatch(a, b);
    KeptIsAt(a, Firsts(ms));
    KeptIsAt(b, Seconds(ms));
    assert At(a, Firsts(ms)) == At(b, Seconds(ms));
  }

  /** Erasing the colours gives the tokens back, joined by single spaces. */
  lemma {:induction false} ColouredErases(tokens: seq<string>, plain: seq<bool>, open: string)
    requires |plain| == |tokens| && IsSgr(open)
    requires forall i | 0 <= i < |tokens| :: EscapeFree(tokens[i])
    ensures Erases(Coloured(tokens, plain, open), Joined(tokens))
    decreases |tokens|
  {
    if tokens == [] {
      ErasesPlain("");
    } else {
      var n := |tokens| - 1;
      var space := if n > 0 then " " else "";
      ColouredErases(tokens[..n], plain[..n], open);
      ErasesPlain(space);
      ErasesAppend(Coloured(tokens[..n], plain[..n], open), Joined(tokens[..n]), space, space);
      ErasesPlain(tokens[n]);
      if !plain[n] {
        ErasesWrapped(open, tokens[n]);
      }
      ErasesAppend(Coloured(tokens[..n], plain[..n], open) + space, Joined(tokens[..n]) + space,
                   if plain[n] then tokens[n] else open + tokens[n] + RESET, tokens[n]);
    }
  }

  lemma {:induction false} TokensEscapeFree(s: string, word: string)
    requires EscapeFree(s) && EscapeFree(word)
    ensures forall i | 0 <= i < |SplitWhitespace(s, word)| :: EscapeFree(SplitWhitespace(s, word)[i])
    decreases |s|
  {
    if s != "" {
      assert s[0] in s;
      TokensEscapeFree(s[1..], if IsWhitespace(s[0]) then "" else word + [s[0]]);
    }
  }

  /** Both sides without colours: as they are, or white space normalised where they would be coloured. */
  function PlainSides(inferred: string, expected: string): (string, string) {
    var a, b := Tokens(inferred), Tokens(expected);
    if a == [] || b == [] || inferred == expected then (inferred, expected) else (Joined(a), Joined(b))
  }

  /** Erasing the colours of a diff gives each side back, white space normalised where it was coloured. */
  lemma DiffErases(inferred: string, expected: string)
    requires EscapeFree(inferred) && EscapeFree(expected)
    ensures Erases(DiffTypeStrings(inferred, expected).0, PlainSides(inferred, expected).0)
    ensures Erases(DiffTypeStrings(inferred, expected).1, PlainSides(inferred, expected).1)
  {
    var a, b := Tokens(inferred), Tokens(expected);
    TokensEscapeFree(inferred, "");
    TokensEscapeFree(expected, "");
    ErasesPlain(inferred);
    ErasesPlain(expected);
    BackgroundsAreSgr();
    ColouredErases(a, Mask(|a|, Firsts(Matches(a, b))), RED_BACKGROUND);
    ColouredErases(b, Mask(|b|, Seconds(Matches(a, b))), GREEN_BACKGROUND);
  }

  lemma BackgroundsAreSgr()
    ensures IsSgr(RED_BACKGROUND) && IsSgr(GREEN_BACKGROUND)
  {
    assert RED_BACKGROUND == [ESC, '['] + "41" + "m";
    assert GREEN_BACKGROUND == [ESC, '['] + "42" + "m";
  }
}
