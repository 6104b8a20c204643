/** Text queries of the language server: the word at the cursor and its whole-word occurrences. Cursor
    columns count characters; searches count UTF-8 bytes. */
module EditorText {
  import opened Wrappers
  import opened Strings
  import opened Utf8
  import opened SourcePositions

  predicate IsIdentByte(b: byte) {
    0x30 <= b <= 0x39 || 0x41 <= b <= 0x5A || 0x61 <= b <= 0x7A || b == 0x5F || b == 0x27
  }

  predicate IsIdentChar(c: char) { c as int < 0x80 && IsIdentByte(c as int) }

  predicate AllIdent(s: string) { forall i | 0 <= i < |s| :: IsIdentChar(s[i]) }

  /** ASCII letters and digits, the underscore and the prime. */
  lemma IdentCharsAre(c: char)
    ensures IsIdentChar(c) <==>
              'a' <= c <= 'z' || 'A' <= c <= 'Z' || '0' <= c <= '9' || c == '_' || c == '\''
  {
  }

  /** The search knows the same characters by their bytes. */
  lemma IdentBytesAre(c: char)
    requires (c as int) < 0x80
    ensures IsIdentByte(c as int) <==> IsIdentChar(c)
  {
  }

  // ----- Identifier characters in bytes

  lemma {:induction false} IdentBytes(s: string)
    requires AllIdent(s)
    ensures |Encode(s)| == |s|
    ensures forall i | 0 <= i < |s| :: IsIdentByte(Encode(s)[i])
  {
    if s != "" {
      IdentBytes(s[1..]);
    }
  }

  lemma IdentLastByte(s: string)
    requires s != "" && AllIdent(s)
    ensures Encode(s) != [] && Encode(s)[|Encode(s)| - 1] < 0x80
  {
    IdentBytes(s);
  }

  lemma FirstByte(s: string)
    requires s != ""
    ensures IsIdentByte(Encode(s)[0]) <==> IsIdentChar(s[0])
  {
  }

  lemma LastByte(s: string)
    requires s != ""
    ensures IsIdentByte(Encode(s)[|Encode(s)| - 1]) <==> IsIdentChar(s[|s| - 1])
  {
    var init, c := s[..|s| - 1], s[|s| - 1];
    var tail := EncodeChar(c);
    EncodeLast(s, init, c);
    assert tail[|tail| - 1] in tail;
  }

  /** `str::is_char_boundary`. */
  predicate IsCharBoundary(bytes: seq<byte>, i: nat) {
    i == 0 || i == |bytes| || (i < |bytes| && !IsContinuation(bytes[i]))
  }

  lemma {:induction false} BoundaryAfterAscii(s: string, q: nat)
    requires 0 < q <= |Encode(s)| && Encode(s)[q - 1] < 0x80
    ensures IsCharBoundary(Encode(s), q)
  {
    var head := EncodeChar(s[0]);
    if q - 1 < |head| {
      assert Encode(s)[q - 1] in head;
    } else {
      BoundaryAfterAscii(s[1..], q - |head|);
    }
  }

  // ----- Whole-word occurrences

  predicate IdentBefore(bytes: seq<byte>, at: nat) { 0 < at <= |bytes| && IsIdentByte(bytes[at - 1]) }

  predicate IdentAt(bytes: seq<byte>, at: nat) { at < |bytes| && IsIdentByte(bytes[at]) }

  /** An occurrence with no identifier byte on either side. */
  predicate IsWholeWord(bytes: seq<byte>, word: seq<byte>, at: nat) {
    OccursAt(bytes, word, at) && !IdentBefore(bytes, at) && !IdentAt(bytes, at + |word|)
  }

  function WholeWordAt(bytes: seq<byte>, word: seq<byte>): nat -> bool {
    (at: nat) => IsWholeWord(bytes, word, at)
  }

  // ----- Positions at which a test holds

  function Positions(test: nat -> bool, from: nat, limit: nat): seq<nat>
    decreases limit - from
  {
    if limit < from then []
    else if test(from) then [from] + Positions(test, from + 1, limit)
    else Positions(test, from + 1, limit)
  }

  ghost predicate NoneBetween(test: nat -> bool, a: nat, b: nat) {
    forall p: nat | a <= p < b :: !test(p)
  }

  ghost predicate NoneFrom(test: nat -> bool, a: nat) {
    forall p: nat | a <= p :: !test(p)
  }

  lemma {:induction false} PositionsMember(test: nat -> bool, from: nat, limit: nat, p: nat)
    ensures p in Positions(test, from, limit) <==> from <= p <= limit && test(p)
    decreases limit - from
  {
    if from <= limit {
      PositionsMember(test, from + 1, limit, p);
    }
  }

  lemma PositionsCons(from: nat, rest: seq<nat>)
    requires Ascending(rest) && (rest != [] ==> from < rest[0])
    ensures Ascending([from] + rest)
  {
    assert forall j | 0 <= j < |rest| :: rest[0] <= rest[j];
  }

  lemma {:induction false} PositionsSorted(test: nat -> bool, from: nat, limit: nat)
    ensures var ps := Positions(test, from, limit);
            Ascending(ps) && (ps != [] ==> from <= ps[0])
    decreases limit - from
  {
    if from <= limit {
      PositionsSorted(test, from + 1, limit);
      PositionsCons(from, Positions(test, from + 1, limit));
    }
  }

  /** Every whole-word occurrence from `from` on. */
  function WholeWords(bytes: seq<byte>, word: seq<byte>, from: nat): seq<nat> {
    Positions(WholeWordAt(bytes, word), from, |bytes|)
  }

  /** In increasing order, each one a whole word, none missed. */
  lemma WholeWordsExact(bytes: seq<byte>, word: seq<byte>, from: nat)
    ensures var ps := WholeWords(bytes, word, from);
            && Ascending(ps)
            && (forall p: nat :: p in ps <==> from <= p && IsWholeWord(bytes, word, p))
  {
    PositionsSorted(WholeWordAt(bytes, word), from, |bytes|);
    forall p: nat ensures p in WholeWords(bytes, word, from) <==> from <= p && IsWholeWord(bytes, word, p) {
      PositionsMember(WholeWordAt(bytes, word), from, |bytes|, p);
    }
  }

  lemma OccurrenceAt(bytes: seq<byte>, word: seq<byte>, at: nat, i: nat)
    requires OccursAt(bytes, word, at) && i < |word|
    ensures bytes[at + i] == word[i]
  {
    assert bytes[at..at + |word|][i] == bytes[at + i];
  }

  /** No whole word starts inside an occurrence of a word made of identifier characters. */
  lemma NoneInsideOccurrence(bytes: seq<byte>, word: seq<byte>, at: nat, p: nat)
    requires OccursAt(bytes, word, at) && at < p < at + |word|
    requires forall i | 0 <= i < |word| :: IsIdentByte(word[i])
    ensures !IsWholeWord(bytes, word, p)
  {
    OccurrenceAt(bytes, word, at, p - 1 - at);
  }

  /** Occurrences are disjoint. */
  lemma WholeWordsDisjoint(bytes: seq<byte>, word: seq<byte>, a: nat, b: nat)
    requires IsWholeWord(bytes, word, a) && IsWholeWord(bytes, word, b) && a < b
    requires forall i | 0 <= i < |word| :: IsIdentByte(word[i])
    ensures a + |word| <= b
  {
    if b < a + |word| {
      NoneInsideOccurrence(bytes, word, a, b);
    }
  }

  lemma LastByteOfOccurrence(bytes: seq<byte>, word: seq<byte>, at: nat)
    requires OccursAt(bytes, word, at) && word != [] && word[|word| - 1] < 0x80
    ensures at + |word| <= |bytes| && bytes[at + |word| - 1] < 0x80
  {
    OccurrenceAt(bytes, word, at, |word| - 1);
  }

  lemma BoundaryAfterOccurrence(hay: string, needle: string, at: nat)
    requires needle != "" && AllIdent(needle) && OccursAt(Encode(hay), Encode(needle), at)
    ensures IsCharBoundary(Encode(hay), at + |Encode(needle)|)
  {
    IdentLastByte(needle);
    LastByteOfOccurrence(Encode(hay), Encode(needle), at);
    BoundaryAfterAscii(hay, at + |Encode(needle)|);
  }

  /** Skipping a whole occurrence passes over no whole word, the occurrence itself aside. */
  lemma SkipIsSafe(bytes: seq<byte>, word: seq<byte>, at: nat)
    requires OccursAt(bytes, word, at) && forall i | 0 <= i < |word| :: IsIdentByte(word[i])
    ensures NoneBetween(WholeWordAt(bytes, word), at + 1, at + |word|)
  {
    forall p | at < p < at + |word| ensures !IsWholeWord(bytes, word, p) {
      NoneInsideOccurrence(bytes, word, at, p);
    }
  }

  /** A search the skips cannot lead astray: identifier needle, character boundary. */
  ghost predicate IsSoundSearch(hay: string, needle: string, start: nat) {
    needle != "" && AllIdent(needle) && IsCharBoundary(Encode(hay), start)
  }

  ghost function TestFor(hay: string, needle: string): nat -> bool { WholeWordAt(Encode(hay), Encode(needle)) }

  lemma NoneBetweenJoin(test: nat -> bool, a: nat, b: nat, c: nat)
    requires a <= b && NoneBetween(test, a, b)
    ensures NoneBetween(test, b, c) ==> NoneBetween(test, a, c)
    ensures NoneFrom(test, b) ==> NoneFrom(test, a)
  {
  }

  /** `hay.get(start..)?.find(needle)`, the index counted in `hay`. */
  method NextOccurrence(bytes: seq<byte>, word: seq<byte>, start: nat) returns (r: Option<nat>)
    ensures r.None? ==> NoneFrom(WholeWordAt(bytes, word), start)
    ensures r.Some? ==> start <= r.value && OccursAt(bytes, word, r.value)
    ensures r.Some? ==> forall i | start <= i < r.value :: !OccursAt(bytes, word, i)
    ensures r.None? ==> forall i | start <= i :: !OccursAt(bytes, word, i)
    ensures r.Some? ==> NoneBetween(WholeWordAt(bytes, word), start, r.value)
  {
    r := Find(bytes, word, start);
  }

  lemma RejectionIsSafe(hay: string, needle: string, start: nat, at: nat)
    requires IsSoundSearch(hay, needle, start) && start <= at && OccursAt(Encode(hay), Encode(needle), at)
    requires NoneBetween(TestFor(hay, needle), start, at)
    ensures IsSoundSearch(hay, needle, at + |Encode(needle)|)
    ensures NoneBetween(TestFor(hay, needle), at + 1, at + |Encode(needle)|)
    ensures !IsWholeWord(Encode(hay), Encode(needle), at) ==>
              NoneBetween(TestFor(hay, needle), start, at + |Encode(needle)|)
  {
    IdentBytes(needle);
    BoundaryAfterOccurrence(hay, needle, at);
    SkipIsSafe(Encode(hay), Encode(needle), at);
  }

  datatype SearchOutcome = NoneLeft | Rejected(next: nat) | Accepted(at: nat)

  /** What one round of `find_word` from `start` may answer. */
  ghost predicate IsRound(hay: string, needle: string, start: nat, r: SearchOutcome) {
    match r
    case NoneLeft => IsSoundSearch(hay, needle, start) ==> NoneFrom(TestFor(hay, needle), start)
    case Rejected(next) =>
      && start < next <= |Encode(hay)|
      && (IsSoundSearch(hay, needle, start) ==>
            IsSoundSearch(hay, needle, next) && NoneBetween(TestFor(hay, needle), start, next))
    case Accepted(at) =>
      && start <= at && IsWholeWord(Encode(hay), Encode(needle), at)
      && (IsSoundSearch(hay, needle, start) ==> NoneBetween(TestFor(hay, needle), start, at))
  }

  /** An occurrence with an identifier byte beside it is rejected and skipped whole; any other is
      accepted. */
  lemma JudgeOccurrence(hay: string, needle: string, start: nat, at: nat)
    requires needle != "" && start <= at && OccursAt(Encode(hay), Encode(needle), at)
    requires NoneBetween(TestFor(hay, needle), start, at)
    ensures if IsWholeWord(Encode(hay), Encode(needle), at) then IsRound(hay, needle, start, Accepted(at))
            else IsRound(hay, needle, start, Rejected(at + |Encode(needle)|))
  {
    if IsSoundSearch(hay, needle, start) {
      RejectionIsSafe(hay, needle, start, at);
    }
  }

  method SearchRound(hay: string, needle: string, start: nat) returns (r: SearchOutcome)
    requires needle != ""
    ensures start > |Encode(hay)| || !IsCharBoundary(Encode(hay), start) ==> r.NoneLeft?
    ensures IsRound(hay, needle, start, r)
  {
    var bytes, word := Encode(hay), Encode(needle);
    if start > |bytes| || !IsCharBoundary(bytes, start) {
      NothingPastEnd(bytes, word, start);
      return NoneLeft;
    }
    var found := NextOccurrence(bytes, word, start);
    if found.None? {
      return NoneLeft;
    }
    var at := found.value;
    var after := at + |word|;
    JudgeOccurrence(hay, needle, start, at);
    if IdentBefore(bytes, at) {
      return Rejected(after);
    }
    if IdentAt(bytes, after) {
      return Rejected(after);
    }
    return Accepted(at);
  }

  lemma NothingPastEnd(bytes: seq<byte>, word: seq<byte>, start: nat)
    requires word != []
    ensures start > |bytes| ==> NoneFrom(WholeWordAt(bytes, word), start)
  {
  }

  /** The least whole-word occurrence at or after `startByte`, or none, for a needle of identifier
      characters searched from a character boundary. The rounds never run out. */
  method FindWord(hay: string, needle: string, startByte: nat) returns (r: Option<nat>)
    ensures needle == "" || startByte > |Encode(hay)| || !IsCharBoundary(Encode(hay), startByte) ==> r.None?
    ensures r.Some? ==> startByte <= r.value && IsWholeWord(Encode(hay), Encode(needle), r.value)
    ensures r.Some? && IsSoundSearch(hay, needle, startByte) ==> NoneBetween(TestFor(hay, needle), startByte, r.value)
    ensures r.None? && IsSoundSearch(hay, needle, startByte) ==> NoneFrom(TestFor(hay, needle), startByte)
  {
    r := None;
    if needle == "" {
      return;
    }
    ghost var bytes, test, sound := Encode(hay), TestFor(hay, needle), IsSoundSearch(hay, needle, startByte);
    var start, rounds := startByte, |Encode(hay)| + 1;
    for round := 0 to rounds
      invariant r.None?
      invariant startByte + round <= start
      invariant if round == 0 then start == startByte else start <= |bytes| && IsCharBoundary(bytes, startByte)
      invariant sound ==> IsSoundSearch(hay, needle, start) && NoneBetween(test, startByte, start)
    {
      var outcome := SearchRound(hay, needle, start);
      match outcome {
        case NoneLeft =>
          if sound {
            NoneBetweenJoin(test, startByte, start, start);
          }
          return;
        case Rejected(next) =>
          if sound {
            NoneBetweenJoin(test, startByte, start, next);
          }
          start := next;
        case Accepted(at) =>
          if sound {
            NoneBetweenJoin(test, startByte, start, at);
          }
          return Some(at);
      }
    }
    assert false;
  }

  // ----- The word at the cursor

  /** Where the identifier run that ends at `col` starts. */
  function RunStart(chars: string, col: nat): (start: nat)
    requires col <= |chars|
    ensures start <= col && AllIdent(chars[start..col])
    ensures start > 0 ==> !IsIdentChar(chars[start - 1])
  {
    if col == 0 || !IsIdentChar(chars[col - 1]) then col
    else
      var start := RunStart(chars, col - 1);
      assert chars[start..col] == chars[start..col - 1] + [chars[col - 1]];
      start
  }

  /** Where the identifier run that starts at `col` ends. */
  function RunEnd(chars: string, col: nat): (end: nat)
    requires col <= |chars|
    ensures col <= end <= |chars| && AllIdent(chars[col..end])
    ensures end < |chars| ==> !IsIdentChar(chars[end])
    decreases |chars| - col
  {
    if col == |chars| || !IsIdentChar(chars[col]) then col
    else
      var end := RunEnd(chars, col + 1);
      assert chars[col..end] == [chars[col]] + chars[col + 1..end];
      end
  }

  predicate IsQualifyingDot(chars: string, i: nat) {
    i + 1 < |chars| && chars[i] == '.' && IsIdentChar(chars[i + 1])
  }

  /** A character the forward scan passes over: an identifier character, or a dot before one. */
  predicate IsWordChar(chars: string, i: nat) {
    i < |chars| && (IsIdentChar(chars[i]) || IsQualifyingDot(chars, i))
  }

  /** Where the qualified word through `col` ends. */
  function WordEnd(chars: string, col: nat): (end: nat)
    requires col <= |chars|
    ensures col <= end <= |chars|
    ensures forall i | col <= i < end :: IsWordChar(chars, i)
    ensures !IsWordChar(chars, end)
    decreases |chars| - col
  {
    if IsWordChar(chars, col) then WordEnd(chars, col + 1) else col
  }

  function LineAt(text: string, line: nat): Option<string> {
    if line < |Lines(text)| then Some(Lines(text)[line]) else None
  }

  function WordInLine(chars: string, col: nat): Option<string> {
    if |chars| < col then None
    else
      var start, end := RunStart(chars, col), WordEnd(chars, col);
      if start == end then None else Some(chars[start..end])
  }

  function WordAt(text: string, line: nat, col: nat): Option<string> {
    match LineAt(text, line)
    case None => None
    case Some(chars) => WordInLine(chars, col)
  }

  /** The backward scan of both cursor queries; its bound of `col` rounds only ends it at column 0. */
  method ScanBack(chars: string, col: nat) returns (start: nat)
    requires col <= |chars|
    ensures start == RunStart(chars, col)
  {
    start := col;
    for round := 0 to col
      invariant start == col - round
      invariant RunStart(chars, start) == RunStart(chars, col)
    {
      if start == 0 || !IsIdentChar(chars[start - 1]) {
        break;
      }
      start := start - 1;
    }
  }

  method WordAtCursor(text: string, line: nat, col: nat) returns (r: Option<string>)
    ensures r == WordAt(text, line, col)
  {
    var lines := Lines(text);
    if line >= |lines| {
      return None;
    }
    var chars := lines[line];
    if col > |chars| {
      return None;
    }
    var start := ScanBack(chars, col);
    var end := col;
    for round := 0 to |chars|
      invariant col + round == end <= |chars|
      invariant WordEnd(chars, end) == WordEnd(chars, col)
    {
      if end >= |chars| {
        break;
      }
      if IsIdentChar(chars[end]) {
        end := end + 1;
        continue;
      }
      if chars[end] == '.' && end + 1 < |chars| && (IsIdentChar(chars[end + 1]) || chars[end + 1] == '_') {
        end := end + 1;
        continue;
      }
      break;
    }
    if start == end {
      return None;
    }
    return Some(chars[start..end]);
  }

  /** `word.rsplit('.').next()`. */
  function LastSegment(word: string): (segment: string)
    ensures |segment| <= |word| && word[|word| - |segment|..] == segment
    ensures '.' !in segment
    ensures |segment| < |word| ==> word[|word| - |segment| - 1] == '.'
  {
    if word == "" || word[|word| - 1] == '.' then ""
    else LastSegment(word[..|word| - 1]) + [word[|word| - 1]]
  }

  /** The forward scan never stops right after a dot. */
  lemma {:induction false} WordEndsInIdent(chars: string, col: nat)
    requires col <= |chars|
    ensures WordEnd(chars, col) > col ==> IsIdentChar(chars[WordEnd(chars, col) - 1])
    decreases |chars| - col
  {
    if IsWordChar(chars, col) {
      WordEndsInIdent(chars, col + 1);
      if IsQualifyingDot(chars, col) {
        assert IsWordChar(chars, col + 1);
      }
    }
  }

  /** A word at the cursor consists of identifier characters and dots before identifier characters,
      cannot be extended on either side, and ends in an identifier character. */
  lemma WordShape(chars: string, col: nat)
    requires WordInLine(chars, col).Some?
    ensures var start, end := RunStart(chars, col), WordEnd(chars, col);
            && start < end && WordInLine(chars, col).value == chars[start..end]
            && (forall i | start <= i < end :: IsWordChar(chars, i))
            && (start > 0 ==> !IsIdentChar(chars[start - 1]))
            && !IsWordChar(chars, end)
            && IsIdentChar(chars[end - 1])
  {
    var start := RunStart(chars, col);
    WordEndsInIdent(chars, col);
    forall i | start <= i < col ensures IsIdentChar(chars[i]) {
      assert chars[start..col][i - start] == chars[i];
    }
  }

  predicate IdentsAndDots(s: string) { forall i | 0 <= i < |s| :: IsIdentChar(s[i]) || s[i] == '.' }

  lemma {:induction false} LastSegmentIdents(word: string)
    requires IdentsAndDots(word)
    ensures AllIdent(LastSegment(word))
    decreases |word|
  {
    if word != "" && word[|word| - 1] != '.' {
      LastSegmentIdents(word[..|word| - 1]);
    }
  }

  lemma WordCharsAreIdentsAndDots(chars: string, start: nat, end: nat)
    requires start <= end <= |chars|
    requires forall i | start <= i < end :: IsWordChar(chars, i)
    ensures IdentsAndDots(chars[start..end])
  {
    forall i | 0 <= i < end - start
      ensures IsIdentChar(chars[start..end][i]) || chars[start..end][i] == '.'
    {
      assert IsWordChar(chars, start + i);
    }
  }

  /** In "x1'" the word at either end of the line is the whole line. */
  lemma PrimedWord(chars: string)
    requires chars == ['x', '1', '\'']
    ensures WordInLine(chars, 0) == Some(chars) && WordInLine(chars, 3) == Some(chars)
  {
    IdentCharsAre('x');
    IdentCharsAre('1');
    IdentCharsAre('\'');
    assert RunStart(chars, 0) == 0 && RunStart(chars, 1) == 0 && RunStart(chars, 2) == 0 && RunStart(chars, 3) == 0;
    assert WordEnd(chars, 3) == 3 && WordEnd(chars, 2) == 3 && WordEnd(chars, 1) == 3 && WordEnd(chars, 0) == 3;
    assert chars[0..3] == chars;
  }

  lemma IdentLastSegment(word: string)
    requires word != "" && IsIdentChar(word[|word| - 1])
    ensures LastSegment(word) != ""
  {
  }

  /** So its last segment is a non-empty identifier. */
  lemma LastSegmentIsIdent(chars: string, col: nat)
    requires WordInLine(chars, col).Some?
    ensures var segment := LastSegment(WordInLine(chars, col).value);
            segment != "" && AllIdent(segment)
  {
    WordShape(chars, col);
    var start, end := RunStart(chars, col), WordEnd(chars, col);
    var word := chars[start..end];
    IdentLastSegment(word);
    WordCharsAreIdentsAndDots(chars, start, end);
    LastSegmentIdents(word);
  }

  // ----- Highlights

  datatype Range = Range(start: LspPosition, end: LspPosition)

  /** The ranges pushed for the occurrences on one line; positions are cast to `u32`. */
  function RangesOf(line: nat, positions: seq<nat>, length: nat): seq<Range> {
    seq(|positions|, i requires 0 <= i < |positions| => RangeAt(line, positions[i], length))
  }

  function RangeAt(line: nat, start: nat, length: nat): Range {
    Range(LspPosition(AsU32(line), AsU32(start)), LspPosition(AsU32(line), AsU32(start + length)))
  }

  /** One range for every whole-word occurrence of `word` on each line, lines and columns ascending. */
  function HighlightsIn(lines: seq<string>, word: string): seq<Range> {
    if lines == [] then []
    else
      var n := |lines| - 1;
      HighlightsIn(lines[..n], word) + RangesOf(n, WholeWords(Encode(lines[n]), Encode(word), 0), |word|)
  }

  lemma RangesOneMore(line: nat, seen: seq<nat>, at: nat, length: nat)
    ensures RangesOf(line, seen + [at], length) == RangesOf(line, seen, length) + [RangeAt(line, at, length)]
  {
  }

  /** `start` lies past the end of the first `k` of `all` and not past the next one. */
  ghost predicate BetweenWords(all: seq<nat>, k: nat, length: nat, start: nat) {
    && k <= |all|
    && (k > 0 ==> all[k - 1] + length <= start)
    && (k < |all| ==> start <= all[k])
  }

  /** `all` lists, in order, the positions that pass the test; they are at least `length` apart. */
  ghost predicate Lists(test: nat -> bool, all: seq<nat>, length: nat) {
    && (forall i, j | 0 <= i < j < |all| :: all[i] + length <= all[j])
    && (forall i | 0 <= i < |all| :: test(all[i]))
    && (forall p: nat | test(p) :: p in all)
  }

  /** A search from between two listed positions that finds the least one meets the next in the list. */
  lemma SearchMeetsList(test: nat -> bool, all: seq<nat>, k: nat, length: nat, start: nat, r: Option<nat>)
    requires length > 0 && Lists(test, all, length) && BetweenWords(all, k, length, start)
    requires r.Some? ==> start <= r.value && test(r.value) && NoneBetween(test, start, r.value)
    requires r.None? ==> NoneFrom(test, start)
    ensures if k < |all| then r == Some(all[k]) else r.None?
    ensures k < |all| ==> BetweenWords(all, k + 1, length, all[k] + length)
  {
    if r.Some? {
      assert r.value in all;
      var j :| 0 <= j < |all| && all[j] == r.value;
      assert k > 0 ==> all[k - 1] < all[j];
      assert k <= j;
    }
  }

  lemma WholeWordsListed(text: string, word: string)
    requires word != "" && AllIdent(word)
    ensures Lists(TestFor(text, word), WholeWords(Encode(text), Encode(word), 0), |word|)
  {
    var all := WholeWords(Encode(text), Encode(word), 0);
    IdentBytes(word);
    WholeWordsExact(Encode(text), Encode(word), 0);
    assert forall i | 0 <= i < |all| :: all[i] in all;
    forall i, j | 0 <= i < j < |all| ensures all[i] + |word| <= all[j] {
      WholeWordsDisjoint(Encode(text), Encode(word), all[i], all[j]);
    }
  }

  /** The search resumed after the first `k` whole words of a line. */
  method FindNext(text: string, word: string, start: nat, ghost all: seq<nat>, ghost k: nat) returns (r: Option<nat>)
    requires IsSoundSearch(text, word, start) && BetweenWords(all, k, |word|, start)
    requires all == WholeWords(Encode(text), Encode(word), 0)
    ensures if k < |all| then r == Some(all[k]) else r.None?
    ensures k < |all| ==> BetweenWords(all, k + 1, |word|, all[k] + |word|)
    ensures r.Some? ==> r.value + |word| <= |Encode(text)| && IsSoundSearch(text, word, r.value + |word|)
  {
    r := FindWord(text, word, start);
    WholeWordsListed(text, word);
    SearchMeetsList(TestFor(text, word), all, k, |word|, start, r);
    if r.Some? {
      RejectionIsSafe(text, word, start, r.value);
      IdentBytes(word);
    }
  }

  /** All whole words of one line, found by searching again from the end of each; the scan budget
      never ends the search. */
  method HighlightLine(line: nat, text: string, word: string) returns (ranges: seq<Range>)
    requires word != "" && AllIdent(word)
    ensures ranges == RangesOf(line, WholeWords(Encode(text), Encode(word), 0), |word|)
  {
    ranges := [];
    var start, budget := 0, |Encode(text)| + 1;
    ghost var all, k := WholeWords(Encode(text), Encode(word), 0), 0;
    for round := 0 to budget
      invariant round <= start <= |Encode(text)| && IsSoundSearch(text, word, start)
      invariant BetweenWords(all, k, |word|, start)
      invariant ranges == RangesOf(line, all[..k], |word|)
    {
      var found := FindNext(text, word, start, all, k);
      if found.None? {
        assert all[..k] == all;
        return;
      }
      var at := found.value;
      RangesOneMore(line, all[..k], at, |word|);
      assert all[..k + 1] == all[..k] + [at];
      ranges := ranges + [RangeAt(line, at, |word|)];
      k := k + 1;
      start := at + |word|;
    }
    assert false;
  }

  lemma HighlightsOneMore(lines: seq<string>, i: nat, word: string)
    requires i < |lines|
    ensures HighlightsIn(lines[..i + 1], word)
         == HighlightsIn(lines[..i], word) + RangesOf(i, WholeWords(Encode(lines[i]), Encode(word), 0), |word|)
  {
    assert lines[..i + 1][..i] == lines[..i];
  }

  method DocumentHighlights(text: string, line: nat, col: nat) returns (ranges: seq<Range>)
    ensures WordAt(text, line, col).None? ==> ranges == []
    ensures WordAt(text, line, col).Some? ==>
              ranges == HighlightsIn(Lines(text), LastSegment(WordAt(text, line, col).value))
  {
    var found := WordAtCursor(text, line, col);
    if found.None? {
      return [];
    }
    var word := LastSegment(found.value);
    LastSegmentIsIdent(Lines(text)[line], col);
    if word == "" {
      return [];
    }
    var lines := Lines(text);
    ranges := [];
    for i := 0 to |lines|
      invariant ranges == HighlightsIn(lines[..i], word)
    {
      var more := HighlightLine(i, lines[i], word);
      HighlightsOneMore(lines, i, word);
      ranges := ranges + more;
    }
    assert lines[..|lines|] == lines;
  }
}
