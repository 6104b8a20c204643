/** Heuristic folding regions: one for each `fun` or `val` line and the lines up to the next such line. */
module Folding {
  import opened Strings
  import opened SourcePositions

  predicate StartsWith(s: string, prefix: string) { prefix <= s }

  predicate IsHeader(line: string) {
    StartsWith(TrimStart(line), "fun ") || StartsWith(TrimStart(line), "val ")
  }

  /** `fun ` or `val ` with nothing but white space before it. */
  ghost predicate StartsDeclarationAt(line: string, k: nat) {
    && k + 4 <= |line| && (forall i | 0 <= i < k :: IsWhitespace(line[i])) && line[k + 3] == ' '
    && ((line[k] == 'f' && line[k + 1] == 'u' && line[k + 2] == 'n')
        || (line[k] == 'v' && line[k + 1] == 'a' && line[k + 2] == 'l'))
  }

  lemma FourLetters(s: string, p: string)
    requires |p| == 4
    ensures p <= s <==> |s| >= 4 && s[0] == p[0] && s[1] == p[1] && s[2] == p[2] && s[3] == p[3]
  {
  }

  lemma {:induction false} HeaderExactly(line: string)
    ensures IsHeader(line) <==> exists k :: StartsDeclarationAt(line, k)
    decreases |line|
  {
    if line != "" && IsWhitespace(line[0]) {
      HeaderExactly(line[1..]);
      if k: nat :| StartsDeclarationAt(line[1..], k) {
        assert StartsDeclarationAt(line, k + 1);
      }
      if k: nat :| StartsDeclarationAt(line, k) {
        assert StartsDeclarationAt(line[1..], k - 1);
      }
    } else {
      FourLetters(line, "fun ");
      FourLetters(line, "val ");
      if IsHeader(line) {
        assert StartsDeclarationAt(line, 0);
      }
      if k: nat :| StartsDeclarationAt(line, k) {
        assert k == 0;
      }
    }
  }

  /** An indented `val` line is a header, an `and` line is not. */
  lemma ValIsHeader(line: string, other: string)
    requires line == [' ', 'v', 'a', 'l', ' ', 'x'] && other == ['a', 'n', 'd', ' ', 'x']
    ensures IsHeader(line) && !IsHeader(other)
  {
    HeaderExactly(line);
    HeaderExactly(other);
    assert StartsDeclarationAt(line, 1);
  }

  function HeaderTest(lines: seq<string>): nat -> bool { (k: nat) => k < |lines| && IsHeader(lines[k]) }

  /** The first header from `j` on, or the line count. */
  function NextHeader(header: nat -> bool, n: nat, j: nat): (k: nat)
    requires j <= n
    ensures j <= k <= n && (k < n ==> header(k))
    ensures forall m | j <= m < k :: !header(m)
    decreases n - j
  {
    if j == n || header(j) then j else NextHeader(header, n, j + 1)
  }

  /** A header with at least one line under it, up to the line before the next header or the last line. */
  ghost predicate IsFold(header: nat -> bool, n: nat, s: nat, e: nat) {
    && s < e < n && header(s)
    && (forall m | s < m <= e :: !header(m))
    && (e + 1 == n || header(e + 1))
  }

  function FoldAt(i: nat, j: nat): seq<(nat, nat)> { if i + 1 < j then [(i, j - 1)] else [] }

  function Folds(header: nat -> bool, n: nat, i: nat): seq<(nat, nat)>
    decreases n - i
  {
    if n <= i then []
    else if header(i) then
      var j := NextHeader(header, n, i + 1);
      FoldAt(i, j) + Folds(header, n, j)
    else Folds(header, n, i + 1)
  }

  ghost predicate InOrder(fs: seq<(nat, nat)>, i: nat) {
    && (forall k | 0 <= k < |fs| :: i <= fs[k].0 < fs[k].1)
    && (forall k, l | 0 <= k < l < |fs| :: fs[k].1 < fs[l].0)
  }

  lemma {:induction false} FoldsInOrder(header: nat -> bool, n: nat, i: nat)
    ensures InOrder(Folds(header, n, i), i)
    decreases n - i
  {
    if i < n {
      FoldsInOrder(header, n, if header(i) then NextHeader(header, n, i + 1) else i + 1);
    }
  }

  lemma {:induction false} FoldsMember(header: nat -> bool, n: nat, i: nat, s: nat, e: nat)
    ensures (s, e) in Folds(header, n, i) <==> i <= s && IsFold(header, n, s, e)
    decreases n - i
  {
    if i < n {
      if header(i) {
        var j := NextHeader(header, n, i + 1);
        FoldsMember(header, n, j, s, e);
        if s == i && IsFold(header, n, s, e) {
          assert !(e + 1 < j) && !(j <= e);
        }
      } else {
        FoldsMember(header, n, i + 1, s, e);
      }
    }
  }

  function LastHeader(header: nat -> bool, h: nat, k: nat): (s: nat)
    requires h < k && header(h) && !header(k)
    ensures h <= s < k && header(s) && forall m | s < m <= k :: !header(m)
    decreases k - h
  {
    if header(k - 1) then k - 1 else LastHeader(header, h, k - 1)
  }

  /** Every line under some header is in one fold; by their order no line is in two. */
  lemma BodyLineIsFolded(header: nat -> bool, n: nat, h: nat, k: nat) returns (s: nat, e: nat)
    requires h < k < n && header(h) && !header(k)
    ensures s < k <= e && (s, e) in Folds(header, n, 0)
  {
    s, e := LastHeader(header, h, k), NextHeader(header, n, k) - 1;
    FoldsMember(header, n, 0, s, e);
  }

  /** The scan for the line after a block; its bound only ends it at the end of the text. */
  method BlockEnd(lines: seq<string>, i: nat) returns (j: nat)
    requires i < |lines|
    ensures j == NextHeader(HeaderTest(lines), |lines|, i + 1)
  {
    ghost var header := HeaderTest(lines);
    j := i + 1;
    for round := 0 to |lines|
      invariant i + 1 + round == j <= |lines|
      invariant NextHeader(header, |lines|, j) == NextHeader(header, |lines|, i + 1)
    {
      if j >= |lines| || IsHeader(lines[j]) {
        break;
      }
      j := j + 1;
    }
  }

  // ----- With line numbers cast to `u32`

  /** The region pushed for the block from `i` up to `j`, if the cast line numbers are apart. */
  function CastFoldAt(i: nat, j: nat): seq<(nat, nat)> {
    if AsU32(i) < SaturatingSub(AsU32(j), 1) then [(AsU32(i) as nat, SaturatingSub(AsU32(j), 1))] else []
  }

  function CastFolds(header: nat -> bool, n: nat, i: nat): seq<(nat, nat)>
    decreases n - i
  {
    if n <= i then []
    else if header(i) then
      var j := NextHeader(header, n, i + 1);
      CastFoldAt(i, j) + CastFolds(header, n, j)
    else CastFolds(header, n, i + 1)
  }

  /** The last line number a fold keeps under the casts is below this one. */
  const LAST_LINE: nat := U32_MODULUS - 1

  ghost predicate EndBelow(folds: seq<(nat, nat)>, bound: nat) { forall k | 0 <= k < |folds| :: folds[k].1 < bound }

  lemma NextCast(i: nat)
    ensures AsU32(i + 1) == if AsU32(i) == U32_MODULUS - 1 then 0 else AsU32(i) + 1
    decreases i
  {
    if U32_MODULUS <= i {
      NextCast(i - U32_MODULUS);
    }
  }

  /** A block keeps its fold, or its lack of one, exactly when the fold ends below the last number. */
  lemma CastFoldIsExactIff(i: nat, j: nat)
    requires i < j
    ensures CastFoldAt(i, j) == FoldAt(i, j) <==> EndBelow(FoldAt(i, j), LAST_LINE)
    ensures EndBelow(CastFoldAt(i, j), LAST_LINE)
  {
    if i + 1 == j {
      NextCast(i);
    } else {
      assert FoldAt(i, j)[0] == (i, j - 1);
      assert CastFoldAt(i, j) != [] ==> CastFoldAt(i, j)[0].1 < LAST_LINE;
    }
  }

  lemma EndsBelowAppend(a: seq<(nat, nat)>, b: seq<(nat, nat)>, bound: nat)
    ensures EndBelow(a + b, bound) <==> EndBelow(a, bound) && EndBelow(b, bound)
  {
    if EndBelow(a + b, bound) {
      forall k | 0 <= k < |a| ensures a[k].1 < bound {
        assert (a + b)[k] == a[k];
      }
      forall k | 0 <= k < |b| ensures b[k].1 < bound {
        assert (a + b)[|a| + k] == b[k];
      }
    }
  }

  lemma {:induction false} CastFoldsEndBelow(header: nat -> bool, n: nat, i: nat)
    ensures EndBelow(CastFolds(header, n, i), LAST_LINE)
    decreases n - i
  {
    if i < n {
      if header(i) {
        var j := NextHeader(header, n, i + 1);
        CastFoldIsExactIff(i, j);
        CastFoldsEndBelow(header, n, j);
        EndsBelowAppend(CastFoldAt(i, j), CastFolds(header, n, j), LAST_LINE);
      } else {
        CastFoldsEndBelow(header, n, i + 1);
      }
    }
  }

  lemma {:induction false} FoldsBelowAreKept(header: nat -> bool, n: nat, i: nat)
    requires EndBelow(Folds(header, n, i), LAST_LINE)
    ensures CastFolds(header, n, i) == Folds(header, n, i)
    decreases n - i
  {
    if i < n {
      if header(i) {
        var j := NextHeader(header, n, i + 1);
        EndsBelowAppend(FoldAt(i, j), Folds(header, n, j), LAST_LINE);
        CastFoldIsExactIff(i, j);
        FoldsBelowAreKept(header, n, j);
      } else {
        FoldsBelowAreKept(header, n, i + 1);
      }
    }
  }

  /** The casts change nothing exactly when every fold ends before line 2^32 - 1, counted from zero. */
  lemma CastsAreExactIff(header: nat -> bool, n: nat)
    ensures CastFolds(header, n, 0) == Folds(header, n, 0) <==> EndBelow(Folds(header, n, 0), LAST_LINE)
  {
    CastFoldsEndBelow(header, n, 0);
    if EndBelow(Folds(header, n, 0), LAST_LINE) {
      FoldsBelowAreKept(header, n, 0);
    }
  }

  /** As they are whenever a `u32` can number the lines. */
  lemma FewLinesEndBelow(header: nat -> bool, n: nat)
    requires n < U32_MODULUS
    ensures EndBelow(Folds(header, n, 0), LAST_LINE)
  {
    var folds := Folds(header, n, 0);
    forall k | 0 <= k < |folds| ensures folds[k].1 < LAST_LINE {
      assert folds[k] in folds && folds[k] == (folds[k].0, folds[k].1);
      FoldsMember(header, n, 0, folds[k].0, folds[k].1);
    }
  }

  /** One line more, and the last line no longer folds. */
  lemma CastLosesFold()
    ensures var header: nat -> bool := k => k == 0;
            CastFolds(header, U32_MODULUS, 0) == [] && Folds(header, U32_MODULUS, 0) == [(0, U32_MODULUS - 1)]
  {
    var header: nat -> bool := k => k == 0;
    assert NextHeader(header, U32_MODULUS, 1) == U32_MODULUS;
    assert AsU32(U32_MODULUS) == 0;
    assert CastFolds(header, U32_MODULUS, U32_MODULUS) == [] && Folds(header, U32_MODULUS, U32_MODULUS) == [];
  }

  lemma CastFoldsStep(header: nat -> bool, n: nat, i: nat, done: seq<(nat, nat)>)
    requires i < n && done + CastFolds(header, n, i) == CastFolds(header, n, 0)
    ensures header(i) ==>
              var j := NextHeader(header, n, i + 1);
              (done + CastFoldAt(i, j)) + CastFolds(header, n, j) == CastFolds(header, n, 0)
    ensures !header(i) ==> done + CastFolds(header, n, i + 1) == CastFolds(header, n, 0)
  {
    if header(i) {
      var j := NextHeader(header, n, i + 1);
      Regroup(done, CastFoldAt(i, j), CastFolds(header, n, j));
    }
  }

  method PushFold(ranges: seq<(nat, nat)>, i: nat, j: nat) returns (r: seq<(nat, nat)>)
    ensures r == ranges + CastFoldAt(i, j)
  {
    var startLine: nat, endLine: nat := AsU32(i), SaturatingSub(AsU32(j), 1);
    if endLine > startLine {
      return ranges + [(startLine, endLine)];
    }
    assert ranges + [] == ranges;
    return ranges;
  }

  /** Exactly the folds of the text, in order, if and only if each ends before line 2^32 - 1; the bound of
      the loop never ends it. */
  method FoldingRanges(text: string) returns (ranges: seq<(nat, nat)>)
    ensures ranges == CastFolds(HeaderTest(Lines(text)), |Lines(text)|, 0)
    ensures var folds := Folds(HeaderTest(Lines(text)), |Lines(text)|, 0);
            && (ranges == folds <==> EndBelow(folds, LAST_LINE))
            && (|Lines(text)| < U32_MODULUS ==> ranges == folds)
  {
    var lines := Lines(text);
    ghost var header, n := HeaderTest(lines), |lines|;
    var i := 0;
    ranges := [];
    for round := 0 to |lines|
      invariant round <= i <= n
      invariant ranges + CastFolds(header, n, i) == CastFolds(header, n, 0)
    {
      if i >= |lines| {
        break;
      }
      CastFoldsStep(header, n, i, ranges);
      assert header(i) <==> IsHeader(lines[i]);
      if IsHeader(lines[i]) {
        var j := BlockEnd(lines, i);
        ranges := PushFold(ranges, i, j);
        i := j;
      } else {
        i := i + 1;
      }
    }
    assert CastFolds(header, n, n) == [];
    CastsAreExactIff(header, n);
    if n < U32_MODULUS {
      FewLinesEndBelow(header, n);
    }
  }
}
