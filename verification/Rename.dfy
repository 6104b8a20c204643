/** Renaming in `lsp_semantics.rs`: which range `prepare_rename` offers at a cursor, and when the
    highlights at that cursor include it. */
module Rename {
  import opened Wrappers
  import opened Strings
  import opened Utf8
  import opened SourcePositions
  import opened EditorText

  /** The character range a rename at `col` would replace, if any. */
  function RenameInLine(chars: string, col: nat): Option<(nat, nat)> {
    match WordInLine(chars, col)
    case None => None
    case Some(word) =>
      var start, end := RunStart(chars, col), RunEnd(chars, col);
      if chars[start..end] == LastSegment(word) then Some((start, end)) else None
  }

  function RenameAt(text: string, line: nat, col: nat): Option<(nat, nat)> {
    match LineAt(text, line)
    case None => None
    case Some(chars) => RenameInLine(chars, col)
  }

  /** The forward scan of `prepare_rename`; its bound only ends it at the end of the line. */
  method ScanForward(chars: string, col: nat) returns (end: nat)
    requires col <= |chars|
    ensures end == RunEnd(chars, col)
  {
    end := col;
    for round := 0 to |chars|
      invariant col + round == end <= |chars|
      invariant RunEnd(chars, end) == RunEnd(chars, col)
    {
      if end >= |chars| || !IsIdentChar(chars[end]) {
        break;
      }
      end := end + 1;
    }
  }

  function CastRange(line: nat, range: (nat, nat)): Range {
    Range(LspPosition(AsU32(line), AsU32(range.0)), LspPosition(AsU32(line), AsU32(range.1)))
  }

  method PrepareRename(text: string, line: nat, col: nat) returns (r: Option<Range>)
    ensures r.Some? <==> RenameAt(text, line, col).Some?
    ensures r.Some? ==> r.value == CastRange(line, RenameAt(text, line, col).value)
  {
    var found := WordAtCursor(text, line, col);
    if found.None? {
      return None;
    }
    var simple := LastSegment(found.value);
    var chars := Lines(text)[line];
    var start := ScanBack(chars, col);
    var end := ScanForward(chars, col);
    if chars[start..end] != simple {
      return None;
    }
    return Some(CastRange(line, (start, end)));
  }

  /** A renamed range is the maximal identifier run around the cursor and spells the last segment of
      the word there. */
  lemma RenameShape(chars: string, col: nat)
    requires RenameInLine(chars, col).Some?
    ensures var (start, end) := RenameInLine(chars, col).value;
            && start <= col <= end <= |chars| && start < end
            && AllIdent(chars[start..end])
            && (start > 0 ==> !IsIdentChar(chars[start - 1]))
            && (end < |chars| ==> !IsIdentChar(chars[end]))
            && WordInLine(chars, col).Some? && chars[start..end] == LastSegment(WordInLine(chars, col).value)
  {
    LastSegmentIsIdent(chars, col);
  }

  lemma {:induction false} RunThenWord(chars: string, col: nat)
    requires col <= |chars|
    ensures WordEnd(chars, col) == WordEnd(chars, RunEnd(chars, col))
    decreases |chars| - col
  {
    if col < |chars| && IsIdentChar(chars[col]) {
      RunThenWord(chars, col + 1);
    }
  }

  lemma {:induction false} NoDotOneSegment(word: string)
    requires '.' !in word
    ensures LastSegment(word) == word
    decreases |word|
  {
    if word != "" {
      assert word[|word| - 1] in word;
      NoDotOneSegment(word[..|word| - 1]);
    }
  }

  /** Where the run is not followed by a qualifying dot, it is the whole word and its one segment. */
  lemma RunIsWord(chars: string, col: nat)
    requires col <= |chars| && !IsQualifyingDot(chars, RunEnd(chars, col))
    ensures WordEnd(chars, col) == RunEnd(chars, col)
    ensures LastSegment(chars[RunStart(chars, col)..RunEnd(chars, col)])
         == chars[RunStart(chars, col)..RunEnd(chars, col)]
  {
    var start, end := RunStart(chars, col), RunEnd(chars, col);
    RunThenWord(chars, col);
    IdentRunHasNoDot(chars[start..col], chars[col..end]);
    assert chars[start..end] == chars[start..col] + chars[col..end];
    NoDotOneSegment(chars[start..end]);
  }

  lemma IdentRunHasNoDot(a: string, b: string)
    requires AllIdent(a) && AllIdent(b)
    ensures '.' !in a + b && AllIdent(a + b)
  {
  }

  /** `d` is the last dot of the characters from `from` to `end`. */
  ghost predicate IsLastDot(chars: string, from: nat, end: nat, d: nat) {
    from <= d < end <= |chars| && chars[d] == '.' && forall i | d < i < end :: chars[i] != '.'
  }

  /** The characters after the last of those dots spell `run`. */
  ghost predicate SpelledAfterLastDot(chars: string, from: nat, end: nat, run: string) {
    exists d :: IsLastDot(chars, from, end, d) && chars[d + 1..end] == run
  }

  lemma {:induction false} LastDotExists(chars: string, from: nat, end: nat)
    requires from < end <= |chars| && chars[from] == '.'
    ensures exists d :: IsLastDot(chars, from, end, d)
    decreases end - from
  {
    if i :| from < i < end && chars[i] == '.' {
      LastDotExists(chars, i, end);
      var d :| IsLastDot(chars, i, end, d);
      assert IsLastDot(chars, from, end, d);
    } else {
      assert IsLastDot(chars, from, end, from);
    }
  }

  /** The last segment is what follows the last dot. */
  lemma {:induction false} SegmentAfterDot(word: string, d: nat)
    requires IsLastDot(word, 0, |word|, d)
    ensures LastSegment(word) == word[d + 1..]
    decreases |word|
  {
    var n := |word| - 1;
    if d < n {
      SegmentAfterDot(word[..n], d);
      assert word[..n][d + 1..] + [word[n]] == word[d + 1..];
    }
  }

  lemma SegmentInLine(chars: string, start: nat, from: nat, end: nat, d: nat)
    requires start <= from && IsLastDot(chars, from, end, d)
    ensures LastSegment(chars[start..end]) == chars[d + 1..end]
  {
    var word := chars[start..end];
    assert word[d - start + 1..] == chars[d + 1..end];
    SegmentAfterDot(word, d - start);
  }

  lemma SpelledIsSegment(chars: string, start: nat, from: nat, end: nat, run: string)
    requires start <= from && SpelledAfterLastDot(chars, from, end, run)
    ensures end <= |chars| && LastSegment(chars[start..end]) == run
  {
    var d :| IsLastDot(chars, from, end, d) && chars[d + 1..end] == run;
    SegmentInLine(chars, start, from, end, d);
  }

  lemma SegmentIsSpelled(chars: string, start: nat, from: nat, end: nat)
    requires start <= from < end <= |chars| && chars[from] == '.'
    ensures SpelledAfterLastDot(chars, from, end, LastSegment(chars[start..end]))
  {
    LastDotExists(chars, from, end);
    var d :| IsLastDot(chars, from, end, d);
    SegmentInLine(chars, start, from, end, d);
  }

  lemma QualifierInWord(chars: string, col: nat)
    requires col <= |chars| && IsQualifyingDot(chars, RunEnd(chars, col))
    ensures RunStart(chars, col) <= RunEnd(chars, col) < WordEnd(chars, col) <= |chars|
    ensures chars[RunEnd(chars, col)] == '.'
  {
    RunThenWord(chars, col);
  }

  lemma OfferedIsSegment(chars: string, col: nat)
    requires col <= |chars|
    ensures var start, dot, end := RunStart(chars, col), RunEnd(chars, col), WordEnd(chars, col);
            RenameInLine(chars, col).Some? <==> start < end && LastSegment(chars[start..end]) == chars[start..dot]
  {
  }

  lemma QualifierOffered(chars: string, col: nat)
    requires col <= |chars| && IsQualifyingDot(chars, RunEnd(chars, col))
    ensures var start, dot, end := RunStart(chars, col), RunEnd(chars, col), WordEnd(chars, col);
            RenameInLine(chars, col).Some? <==> start < end && SpelledAfterLastDot(chars, dot, end, chars[start..dot])
  {
    var start, dot, end := RunStart(chars, col), RunEnd(chars, col), WordEnd(chars, col);
    QualifierInWord(chars, col);
    OfferedIsSegment(chars, col);
    SegmentIsSpelled(chars, start, dot, end);
    if SpelledAfterLastDot(chars, dot, end, chars[start..dot]) {
      SpelledIsSegment(chars, start, dot, end, chars[start..dot]);
    }
  }

  lemma LastRunOffered(chars: string, col: nat)
    requires col <= |chars| && !IsQualifyingDot(chars, RunEnd(chars, col))
    ensures RenameInLine(chars, col).Some? <==> RunStart(chars, col) < WordEnd(chars, col)
  {
    RunIsWord(chars, col);
    OfferedIsSegment(chars, col);
  }

  /** A rename is offered exactly when there is a word at the cursor and either no dot and identifier
      follow the identifier run there, or the characters after the word's last dot spell that run. */
  lemma RenameOfferedIff(chars: string, col: nat)
    requires col <= |chars|
    ensures var start, dot, end := RunStart(chars, col), RunEnd(chars, col), WordEnd(chars, col);
            RenameInLine(chars, col).Some? <==>
              start < end && (IsQualifyingDot(chars, dot) ==> SpelledAfterLastDot(chars, dot, end, chars[start..dot]))
  {
    if IsQualifyingDot(chars, RunEnd(chars, col)) {
      QualifierOffered(chars, col);
    } else {
      LastRunOffered(chars, col);
    }
  }

  lemma QualifiedLetter(chars: string)
    requires |chars| == 3 && IsIdentChar(chars[0]) && chars[1] == '.' && IsIdentChar(chars[2])
    ensures RunStart(chars, 0) == 0 && RunEnd(chars, 0) == 1 && WordEnd(chars, 0) == 3
    ensures LastSegment(chars[0..3]) == [chars[2]]
  {
    assert RunEnd(chars, 1) == 1 && WordEnd(chars, 3) == 3 && WordEnd(chars, 2) == 3 && WordEnd(chars, 1) == 3;
    assert chars[0..3] == chars;
    SegmentAfterDot(chars, 1);
  }

  lemma QualifierRename(chars: string)
    requires |chars| == 3 && IsIdentChar(chars[0]) && chars[1] == '.' && IsIdentChar(chars[2])
    ensures RenameInLine(chars, 0) == if chars[0] == chars[2] then Some((0, 1)) else None
  {
    QualifiedLetter(chars);
    assert chars[0..1] == [chars[0]];
  }

  /** A rename on the qualifier of "M.x" is refused, on that of "x.x" it is not. */
  lemma QualifierRefusedOrNot()
    ensures RenameInLine(['M', '.', 'x'], 0) == None
    ensures RenameInLine(['x', '.', 'x'], 0) == Some((0, 1))
  {
    QualifierRename(['M', '.', 'x']);
    QualifierRename(['x', '.', 'x']);
  }

  // ----- Renames and highlights

  /** A maximal identifier run between two texts is a whole word of the bytes. */
  lemma RunIsWholeWord(before: string, run: string, after: string)
    requires run != "" && AllIdent(run)
    requires before != "" ==> !IsIdentChar(before[|before| - 1])
    requires after != "" ==> !IsIdentChar(after[0])
    ensures IsWholeWord(Encode(before + run + after), Encode(run), |Encode(before)|)
  {
    var a, b, c := Encode(before), Encode(run), Encode(after);
    EncodeConcat(before + run, after);
    EncodeConcat(before, run);
    var bytes := a + b + c;
    assert bytes[|a|..|a| + |b|] == b;
    if before != "" {
      LastByte(before);
      assert bytes[|a| - 1] == a[|a| - 1];
    }
    if after != "" {
      FirstByte(after);
      assert bytes[|a| + |b|] == c[0];
    }
  }

  /** Byte and character columns agree exactly after ASCII text. */
  lemma {:induction false} AsciiOffset(s: string)
    ensures |Encode(s)| == |s| <==> IsAscii(s)
  {
    if s != "" {
      AsciiOffset(s[1..]);
      assert s == [s[0]] + s[1..];
      assert IsAscii(s) <==> (s[0] as int) < 0x80 && IsAscii(s[1..]);
    }
  }

  lemma {:induction false} HighlightsContain(lines: seq<string>, word: string, line: nat, at: nat)
    requires line < |lines| && IsWholeWord(Encode(lines[line]), Encode(word), at)
    ensures RangeAt(line, at, |word|) in HighlightsIn(lines, word)
    decreases |lines|
  {
    var n := |lines| - 1;
    if line == n {
      var ps := WholeWords(Encode(lines[n]), Encode(word), 0);
      WholeWordsExact(Encode(lines[n]), Encode(word), 0);
      var i :| 0 <= i < |ps| && ps[i] == at;
      assert RangesOf(n, ps, |word|)[i] == RangeAt(line, at, |word|);
    } else {
      HighlightsContain(lines[..n], word, line, at);
    }
  }

  lemma RenamedRunIsWholeWord(chars: string, start: nat, end: nat)
    requires start < end <= |chars| && AllIdent(chars[start..end])
    requires start > 0 ==> !IsIdentChar(chars[start - 1])
    requires end < |chars| ==> !IsIdentChar(chars[end])
    ensures IsWholeWord(Encode(chars), Encode(chars[start..end]), |Encode(chars[..start])|)
  {
    RunIsWholeWord(chars[..start], chars[start..end], chars[end..]);
    assert chars == chars[..start] + chars[start..end] + chars[end..];
  }

  /** Every maximal identifier run is highlighted by a search for its own text. */
  lemma MaximalRunIsHighlighted(lines: seq<string>, line: nat, start: nat, end: nat)
    requires line < |lines| && start < end <= |lines[line]| && AllIdent(lines[line][start..end])
    requires start > 0 ==> !IsIdentChar(lines[line][start - 1])
    requires end < |lines[line]| ==> !IsIdentChar(lines[line][end])
    ensures RangeAt(line, |Encode(lines[line][..start])|, end - start) in HighlightsIn(lines, lines[line][start..end])
  {
    RenamedRunIsWholeWord(lines[line], start, end);
    HighlightsContain(lines, lines[line][start..end], line, |Encode(lines[line][..start])|);
  }

  /** The renamed run is always highlighted, at its byte offset. */
  lemma RenamedRunIsHighlighted(lines: seq<string>, line: nat, col: nat, start: nat, end: nat)
    requires line < |lines| && RenameInLine(lines[line], col) == Some((start, end))
    ensures start < end <= |lines[line]| && WordInLine(lines[line], col).Some?
    ensures lines[line][start..end] == LastSegment(WordInLine(lines[line], col).value)
    ensures RangeAt(line, |Encode(lines[line][..start])|, end - start) in HighlightsIn(lines, lines[line][start..end])
  {
    RenameShape(lines[line], col);
    MaximalRunIsHighlighted(lines, line, start, end);
  }

  /** Ranges of one line: a range there stands for exactly one byte offset, as long as the casts keep it. */
  lemma RangesMember(line: nat, ps: seq<nat>, length: nat, other: nat, at: nat)
    requires line < U32_MODULUS && other < U32_MODULUS && at < U32_MODULUS
    requires forall i | 0 <= i < |ps| :: line == other ==> ps[i] < U32_MODULUS
    ensures RangeAt(other, at, length) in RangesOf(line, ps, length) <==> line == other && at in ps
  {
    if at in ps && line == other {
      var i :| 0 <= i < |ps| && ps[i] == at;
      assert RangesOf(line, ps, length)[i] == RangeAt(other, at, length);
    }
    if RangeAt(other, at, length) in RangesOf(line, ps, length) {
      var i :| 0 <= i < |ps| && RangesOf(line, ps, length)[i] == RangeAt(other, at, length);
      assert line == other && ps[i] == at;
    }
  }

  /** A range is highlighted exactly when a whole word of its line starts at that byte. */
  lemma {:induction false} HighlightedIff(lines: seq<string>, word: string, line: nat, at: nat)
    requires |lines| <= U32_MODULUS && line < U32_MODULUS && at < U32_MODULUS
    requires line < |lines| ==> |Encode(lines[line])| < U32_MODULUS
    ensures RangeAt(line, at, |word|) in HighlightsIn(lines, word)
       <==> line < |lines| && IsWholeWord(Encode(lines[line]), Encode(word), at)
    decreases |lines|
  {
    if lines != [] {
      var n := |lines| - 1;
      var ps := WholeWords(Encode(lines[n]), Encode(word), 0);
      WholeWordsExact(Encode(lines[n]), Encode(word), 0);
      HighlightedIff(lines[..n], word, line, at);
      forall i | 0 <= i < |ps| ensures line == n ==> ps[i] < U32_MODULUS {
        assert ps[i] in ps;
      }
      RangesMember(n, ps, |word|, line, at);
    }
  }

  lemma CastRangeAt(line: nat, start: nat, end: nat)
    requires start <= end
    ensures CastRange(line, (start, end)) == RangeAt(line, start, end - start)
  {
  }

  lemma CastRangeHighlightedIff(lines: seq<string>, word: string, line: nat, start: nat, end: nat)
    requires line < |lines| <= U32_MODULUS && |Encode(lines[line])| < U32_MODULUS
    requires end == start + |word| <= |lines[line]|
    ensures CastRange(line, (start, end)) in HighlightsIn(lines, word)
       <==> IsWholeWord(Encode(lines[line]), Encode(word), start)
  {
    CastRangeAt(line, start, end);
    HighlightedIff(lines, word, line, start);
  }

  lemma SliceHighlightedIff(lines: seq<string>, line: nat, start: nat, end: nat)
    requires line < |lines| <= U32_MODULUS && |Encode(lines[line])| < U32_MODULUS
    requires start <= end <= |lines[line]|
    ensures CastRange(line, (start, end)) in HighlightsIn(lines, lines[line][start..end])
       <==> IsWholeWord(Encode(lines[line]), Encode(lines[line][start..end]), start)
  {
    CastRangeHighlightedIff(lines, lines[line][start..end], line, start, end);
  }

  /** After ASCII text it always is. */
  lemma AsciiRangeIsHighlighted(lines: seq<string>, line: nat, col: nat, start: nat, end: nat)
    requires line < |lines| && RenameInLine(lines[line], col) == Some((start, end))
    requires start <= end <= |lines[line]| && IsAscii(lines[line][..start])
    ensures CastRange(line, (start, end)) in HighlightsIn(lines, lines[line][start..end])
  {
    RenamedRunIsHighlighted(lines, line, col, start, end);
    CastRangeAt(line, start, end);
    AsciiOffset(lines[line][..start]);
  }

  lemma RenameAtLine(text: string, line: nat, col: nat, start: nat, end: nat)
    requires RenameAt(text, line, col) == Some((start, end))
    ensures line < |Lines(text)| && RenameInLine(Lines(text)[line], col) == Some((start, end))
    ensures start < end <= |Lines(text)[line]|
    ensures WordAt(text, line, col).Some? && LastSegment(WordAt(text, line, col).value) == Lines(text)[line][start..end]
  {
    RenameShape(Lines(text)[line], col);
  }

  /** The ranges `document_highlights` answers at a cursor. */
  function HighlightsAt(text: string, line: nat, col: nat): seq<Range> {
    match WordAt(text, line, col)
    case None => []
    case Some(word) => HighlightsIn(Lines(text), LastSegment(word))
  }

  /** `prepare_rename` and `document_highlights` at one cursor: the range of the first is among those
      of the second exactly when the bytes of the line hold the run, whole, at its character column. */
  lemma RenameRangeHighlightedIff(text: string, line: nat, col: nat, start: nat, end: nat)
    requires RenameAt(text, line, col) == Some((start, end))
    requires |Lines(text)| <= U32_MODULUS && (line < |Lines(text)| ==> |Encode(Lines(text)[line])| < U32_MODULUS)
    ensures line < |Lines(text)| && start <= end <= |Lines(text)[line]|
    ensures CastRange(line, (start, end)) in HighlightsAt(text, line, col)
       <==> IsWholeWord(Encode(Lines(text)[line]), Encode(Lines(text)[line][start..end]), start)
  {
    RenameAtLine(text, line, col, start, end);
    SliceHighlightedIff(Lines(text), line, start, end);
  }

  /** On a line that is ASCII up to the run it always is, however long the text. */
  lemma AsciiRenameIsHighlighted(text: string, line: nat, col: nat, start: nat, end: nat)
    requires RenameAt(text, line, col) == Some((start, end))
    requires line < |Lines(text)| && start <= |Lines(text)[line]| && IsAscii(Lines(text)[line][..start])
    ensures CastRange(line, (start, end)) in HighlightsAt(text, line, col)
  {
    RenameAtLine(text, line, col, start, end);
    AsciiRangeIsHighlighted(Lines(text), line, col, start, end);
  }

  // ----- Lines on which renames and highlights disagree or agree by chance

  lemma OneLine(line: string)
    requires line != "" && '\n' !in line
    ensures Lines(line) == [line]
  {
    forall i | 0 <= i < |line| ensures !OccursAt(line, "\n", i) {
      assert line[i] in line;
    }
  }

  /** The one-letter word `x` stands at `col` of a one-line text. */
  ghost predicate XAt(text: string, col: nat) {
    && '\n' !in text && |text| < 100
    && col < |text| && text[col] == 'x'
    && (col > 0 ==> text[col - 1] == ' ') && (col + 1 < |text| ==> text[col + 1] == ' ')
  }

  lemma XLine(text: string, col: nat)
    requires XAt(text, col)
    ensures RunStart(text, col) == col && RunEnd(text, col) == col + 1 && WordEnd(text, col) == col + 1
  {
    assert RunEnd(text, col + 1) == col + 1 && WordEnd(text, col + 1) == col + 1;
  }

  lemma OneLetterWord(word: string)
    requires |word| == 1 && word[0] == 'x'
    ensures LastSegment(word) == word && Encode(word) == [0x78]
  {
    NoDotOneSegment(word);
    assert word[1..] == "";
  }

  lemma XRename(text: string, col: nat)
    requires XAt(text, col)
    ensures RenameInLine(text, col) == Some((col, col + 1))
    ensures LastSegment(text[col..col + 1]) == text[col..col + 1] && Encode(text[col..col + 1]) == [0x78]
  {
    XLine(text, col);
    OneLetterWord(text[col..col + 1]);
  }

  lemma XHighlightedInLine(lines: seq<string>, col: nat)
    requires |lines| == 1 && XAt(lines[0], col) && |Encode(lines[0])| < 100
    ensures CastRange(0, (col, col + 1)) in HighlightsIn(lines, lines[0][col..col + 1])
       <==> IsWholeWord(Encode(lines[0]), [0x78], col)
  {
    XRename(lines[0], col);
    CastRangeHighlightedIff(lines, lines[0][col..col + 1], 0, col, col + 1);
  }

  lemma XAtCursor(text: string, col: nat)
    requires XAt(text, col) && Lines(text) == [text]
    ensures RenameAt(text, 0, col) == Some((col, col + 1))
    ensures HighlightsAt(text, 0, col) == HighlightsIn([text], text[col..col + 1])
  {
    XRename(text, col);
    RenameAtLine(text, 0, col, col, col + 1);
  }

  lemma XHighlighted(text: string, col: nat)
    requires XAt(text, col) && |Encode(text)| < 100
    ensures RenameAt(text, 0, col) == Some((col, col + 1))
    ensures CastRange(0, (col, col + 1)) in HighlightsAt(text, 0, col) <==> IsWholeWord(Encode(text), [0x78], col)
  {
    OneLine(text);
    XAtCursor(text, col);
    XHighlightedInLine([text], col);
  }

  /** A sign of the given width and then ASCII text, in bytes. */
  lemma SignThenAscii(text: string, sign: char, rest: string)
    requires text == [sign] + rest && IsAscii(rest)
    ensures var width := |EncodeChar(sign)|;
            && |Encode(text)| == width + |rest|
            && (forall k | 0 <= k < |rest| :: Encode(text)[width + k] == rest[k] as int)
            && (sign as int >= 0x80 ==> Encode(text)[width - 1] >= 0x80)
  {
    assert text[1..] == rest;
    AsciiBytes(rest);
    if sign as int >= 0x80 {
      assert EncodeChar(sign)[|EncodeChar(sign)| - 1] in EncodeChar(sign);
    }
  }

  lemma WholeX(bytes: seq<byte>, at: nat)
    requires 0 < at < |bytes|
    ensures IsWholeWord(bytes, [0x78], at)
       <==> bytes[at] == 0x78 && !IsIdentByte(bytes[at - 1]) && (at + 1 < |bytes| ==> !IsIdentByte(bytes[at + 1]))
  {
    assert bytes[at..at + 1] == [bytes[at]];
  }

  lemma AccentIsNotWhole(text: string)
    requires text == ['\U{e9}', ' ', 'x']
    ensures XAt(text, 2) && |Encode(text)| < 100 && !IsWholeWord(Encode(text), [0x78], 2)
  {
    SignThenAscii(text, '\U{e9}', [' ', 'x']);
    WholeX(Encode(text), 2);
  }

  lemma EuroIsWhole(text: string)
    requires text == ['\U{20ac}', 'x', ' ', 'x']
    ensures XAt(text, 3) && |Encode(text)| < 100 && IsWholeWord(Encode(text), [0x78], 3)
  {
    SignThenAscii(text, '\U{20ac}', ['x', ' ', 'x']);
    WholeX(Encode(text), 3);
  }

  /** "é x" at column 2: the renamed range is 2 to 3, which is not highlighted. */
  lemma AccentShiftsHighlight(text: string)
    requires text == ['\U{e9}', ' ', 'x']
    ensures RenameAt(text, 0, 2) == Some((2, 3)) && CastRange(0, (2, 3)) !in HighlightsAt(text, 0, 2)
  {
    AccentIsNotWhole(text);
    XHighlighted(text, 2);
  }

  /** "€x x" at column 3: the renamed range 3 to 4 is highlighted, on account of the other "x". */
  lemma EuroAgreesByChance(text: string)
    requires text == ['\U{20ac}', 'x', ' ', 'x']
    ensures RenameAt(text, 0, 3) == Some((3, 4)) && CastRange(0, (3, 4)) in HighlightsAt(text, 0, 3)
  {
    EuroIsWhole(text);
    XHighlighted(text, 3);
  }
}
