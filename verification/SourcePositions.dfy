/** Byte offsets to line and column positions: `Span` of `error_types.rs` and the position mapper
    of the language server. */
module SourcePositions {
  import opened Wrappers
  import opened Utf8

  const U32_MODULUS := 0x1_0000_0000

  type u32 = n: nat | n < 0x1_0000_0000

  /** A Rust `as u32` cast: the low thirty-two bits, by repeated subtraction of 2^32. */
  function AsU32(n: nat): u32 {
    if n < U32_MODULUS then n else AsU32(n - U32_MODULUS)
  }

  function SaturatingSub(a: nat, b: nat): nat { if a < b then 0 else a - b }

  datatype Pos = Pos(line: u32, col: u32)

  datatype Span = Span(file: string, first: Pos, last: Pos)

  // ----- The newline table

  predicate Ascending(table: seq<nat>) {
    forall i, j | 0 <= i < j < |table| :: table[i] < table[j]
  }

  predicate IsNewline(bytes: seq<byte>, offset: nat) {
    offset < |bytes| && bytes[offset] == NEWLINE
  }

  ghost predicate IsNewlineTable(bytes: seq<byte>, table: seq<nat>) {
    && Ascending(table)
    && forall p: nat :: p in table <==> IsNewline(bytes, p)
  }

  lemma NewlineInChar(c: char, p: nat)
    requires p < |EncodeChar(c)|
    ensures EncodeChar(c)[p] == NEWLINE <==> p == 0 && c == '\n'
  {
    if c as int >= 0x80 {
      assert EncodeChar(c)[p] in EncodeChar(c);
    }
  }

  lemma NewlineInConcat(head: seq<byte>, rest: seq<byte>, p: nat)
    ensures IsNewline(head + rest, p)
       <==> if p < |head| then IsNewline(head, p) else IsNewline(rest, p - |head|)
  {
  }

  lemma EncodeGrows(source: string, init: string, c: char)
    requires source == init + [c]
    ensures |Encode(init)| < |Encode(source)|
  {
    EncodeLast(source, init, c);
  }

  lemma AscendingSnoc(table: seq<nat>, at: nat)
    requires Ascending(table) && (table != [] ==> table[|table| - 1] < at)
    ensures Ascending(table + [at])
  {
  }

  /** Byte offsets of every line feed, in order; a character's offset is the length of what precedes it. */
  function NewlineByteIndices(source: string): (table: seq<nat>)
    ensures Ascending(table)
    ensures table != [] ==> table[|table| - 1] < |Encode(source)|
    decreases |source|
  {
    if source == "" then []
    else
      var init, c := source[..|source| - 1], source[|source| - 1];
      var table, at := NewlineByteIndices(init), |Encode(init)|;
      EncodeGrows(source, init, c);
      if c == '\n' then
        AscendingSnoc(table, at);
        table + [at]
      else table
  }

  lemma NewlineInLastChar(init: seq<byte>, c: char, p: nat)
    ensures IsNewline(init + EncodeChar(c), p) <==> IsNewline(init, p) || (p == |init| && c == '\n')
  {
    NewlineInConcat(init, EncodeChar(c), p);
    if |init| <= p < |init| + |EncodeChar(c)| {
      NewlineInChar(c, p - |init|);
    }
  }

  lemma {:induction false} NewlinesMember(source: string, p: nat)
    ensures p in NewlineByteIndices(source) <==> IsNewline(Encode(source), p)
    decreases |source|
  {
    if source != "" {
      var init, c := source[..|source| - 1], source[|source| - 1];
      NewlinesMember(init, p);
      EncodeLast(source, init, c);
      NewlineInLastChar(Encode(init), c, p);
    }
  }

  lemma NewlineTableExact(source: string)
    ensures IsNewlineTable(Encode(source), NewlineByteIndices(source))
  {
    forall p: nat ensures p in NewlineByteIndices(source) <==> IsNewline(Encode(source), p) {
      NewlinesMember(source, p);
    }
  }

  // ----- Searching the table

  datatype SearchResult = Found(index: nat) | Missing(index: nat)

  /** Number of entries, from `i` on, that are below the offset; the table ascends. */
  function InsertionIndex(table: seq<nat>, offset: nat, i: nat): (r: nat)
    requires Ascending(table) && i <= |table|
    requires forall k | 0 <= k < i :: table[k] < offset
    ensures r <= |table|
    ensures forall k | 0 <= k < r :: table[k] < offset
    ensures forall k | r <= k < |table| :: offset <= table[k]
    decreases |table| - i
  {
    if i < |table| && table[i] < offset then InsertionIndex(table, offset, i + 1) else i
  }

  /** What `binary_search` promises on a strictly ascending slice. */
  function BinarySearch(table: seq<nat>, offset: nat): SearchResult
    requires Ascending(table)
  {
    var i := InsertionIndex(table, offset, 0);
    if i < |table| && table[i] == offset then Found(i) else Missing(i)
  }

  // ----- The two mappers

  /** Start of the line that has `i` table entries before it. */
  function LineStartAt(table: seq<nat>, i: nat): nat
    requires i <= |table|
  {
    if i == 0 then 0 else table[i - 1] + 1
  }

  /** One end of `Span::from_offsets`. */
  function PositionOf(table: seq<nat>, offset: nat): Pos
    requires Ascending(table)
  {
    match BinarySearch(table, offset)
    case Found(i) => Pos(AsU32(i + 1), 0)
    case Missing(i) => Pos(AsU32(i + 1), AsU32(offset - LineStartAt(table, i)))
  }

  function FromOffsets(file: string, start: nat, end: nat, table: seq<nat>): Span
    requires Ascending(table)
  {
    Span(file, PositionOf(table, start), PositionOf(table, end))
  }

  /** A zero-based line and character of the Language Server Protocol. */
  datatype LspPosition = LspPosition(line: u32, character: u32)

  function PosToLsp(pos: Pos): LspPosition { LspPosition(SaturatingSub(pos.line, 1), pos.col) }

  function SpanToRange(span: Span): (LspPosition, LspPosition) { (PosToLsp(span.first), PosToLsp(span.last)) }

  /** The language server's own mapper; the increment of a found index wraps. */
  function ByteOffsetToLsp(table: seq<nat>, offset: nat): LspPosition
    requires Ascending(table)
  {
    match BinarySearch(table, offset)
    case Found(i) => LspPosition(AsU32(AsU32(i) + 1), 0)
    case Missing(i) => LspPosition(AsU32(i), AsU32(offset - LineStartAt(table, i)))
  }

  // ----- What a position means, read off the bytes themselves

  function NewlinesBefore(bytes: seq<byte>, offset: nat): (count: nat)
    ensures count <= offset
  {
    if offset == 0 then 0
    else NewlinesBefore(bytes, offset - 1) + if IsNewline(bytes, offset - 1) then 1 else 0
  }

  function LineStart(bytes: seq<byte>, offset: nat): (start: nat)
    ensures start <= offset
  {
    if offset == 0 || IsNewline(bytes, offset - 1) then offset else LineStart(bytes, offset - 1)
  }

  lemma {:induction false} LineStartIsLatest(bytes: seq<byte>, offset: nat)
    ensures var start := LineStart(bytes, offset);
            && (start == 0 || IsNewline(bytes, start - 1))
            && forall p | start <= p < offset :: !IsNewline(bytes, p)
    decreases offset
  {
    if offset != 0 && !IsNewline(bytes, offset - 1) {
      LineStartIsLatest(bytes, offset - 1);
    }
  }

  /** The insertion index of an offset counts the line feeds before it, and the entry below it
      ends the previous line. */
  lemma {:induction false} IndexCountsNewlines(bytes: seq<byte>, table: seq<nat>, offset: nat, i: nat)
    requires IsNewlineTable(bytes, table) && i <= |table|
    requires forall k | 0 <= k < i :: table[k] < offset
    requires forall k | i <= k < |table| :: offset <= table[k]
    ensures i == NewlinesBefore(bytes, offset)
    ensures LineStart(bytes, offset) == LineStartAt(table, i)
    decreases offset
  {
    if offset == 0 {
      assert i == 0;
    } else if IsNewline(bytes, offset - 1) {
      assert offset - 1 in table;
      var k :| 0 <= k < |table| && table[k] == offset - 1;
      assert k < i && (k + 1 < |table| ==> table[k] < table[k + 1]);
      assert k == i - 1;
      IndexCountsNewlines(bytes, table, offset - 1, i - 1);
    } else {
      assert i > 0 ==> table[i - 1] in table;
      forall k | 0 <= k < i ensures table[k] < offset - 1 {
        assert table[k] in table;
      }
      IndexCountsNewlines(bytes, table, offset - 1, i);
    }
  }

  lemma SearchMeaning(source: string, offset: nat)
    ensures var bytes, table := Encode(source), NewlineByteIndices(source);
            var r := BinarySearch(table, offset);
            && (r.Found? <==> IsNewline(bytes, offset))
            && r.index == NewlinesBefore(bytes, offset)
            && LineStart(bytes, offset) == LineStartAt(table, r.index)
  {
    var bytes, table := Encode(source), NewlineByteIndices(source);
    var r := BinarySearch(table, offset);
    NewlineTableExact(source);
    if r.Found? {
      assert table[r.index] in table;
      assert forall k | r.index <= k < |table| :: table[r.index] <= table[k];
    } else {
      assert offset !in table;
    }
    IndexCountsNewlines(bytes, table, offset, r.index);
  }

  /** The position `from_offsets` gives one end of a span in `source`. */
  function Locate(source: string, offset: nat): Pos { PositionOf(NewlineByteIndices(source), offset) }

  /** The position the language server gives the same offset. */
  function LocateForLsp(source: string, offset: nat): LspPosition {
    ByteOffsetToLsp(NewlineByteIndices(source), offset)
  }

  lemma PositionLine(source: string, offset: nat)
    ensures Locate(source, offset).line == AsU32(NewlinesBefore(Encode(source), offset) + 1)
  {
    SearchMeaning(source, offset);
  }

  lemma PositionColumn(source: string, offset: nat)
    ensures Locate(source, offset).col
         == if IsNewline(Encode(source), offset) then 0 else AsU32(offset - LineStart(Encode(source), offset))
  {
    SearchMeaning(source, offset);
  }

  /** `from_offsets`: the line is one more than the line feeds strictly before the offset, at every
      offset; the column is the distance to the line start, except 0 on a line feed. */
  lemma PositionMeaning(source: string, offset: nat)
    ensures Locate(source, offset)
         == Pos(AsU32(NewlinesBefore(Encode(source), offset) + 1),
                if IsNewline(Encode(source), offset) then 0 else AsU32(offset - LineStart(Encode(source), offset)))
  {
    PositionLine(source, offset);
    PositionColumn(source, offset);
  }

  lemma LspOnNewline(source: string, offset: nat)
    requires offset < U32_MODULUS - 1 && IsNewline(Encode(source), offset)
    ensures LocateForLsp(source, offset) == LspPosition(NewlinesBefore(Encode(source), offset) + 1, 0)
  {
    SearchMeaning(source, offset);
  }

  lemma LspOffNewline(source: string, offset: nat)
    requires offset < U32_MODULUS - 1 && !IsNewline(Encode(source), offset)
    ensures LocateForLsp(source, offset)
         == LspPosition(NewlinesBefore(Encode(source), offset), offset - LineStart(Encode(source), offset))
  {
    SearchMeaning(source, offset);
  }

  /** `byte_offset_to_lsp` on offsets a `u32` holds: exact off line feeds, the start of the next
      line on them. */
  lemma LspMeaning(source: string, offset: nat)
    requires offset < U32_MODULUS - 1
    ensures LocateForLsp(source, offset)
         == if IsNewline(Encode(source), offset) then LspPosition(NewlinesBefore(Encode(source), offset) + 1, 0)
            else LspPosition(NewlinesBefore(Encode(source), offset), offset - LineStart(Encode(source), offset))
  {
    if IsNewline(Encode(source), offset) {
      LspOnNewline(source, offset);
    } else {
      LspOffNewline(source, offset);
    }
  }

  /** The offset a one-based line and a byte column stand for. */
  function OffsetOf(table: seq<nat>, pos: Pos): nat
    requires 1 <= pos.line <= |table| + 1
  {
    LineStartAt(table, pos.line - 1) + pos.col
  }

  /** A position leads back to its offset exactly when the offset is not the line feed of a
      non-empty line. */
  lemma PositionRoundTrip(source: string, offset: nat)
    requires offset < U32_MODULUS - 1
    ensures var table, bytes, pos := NewlineByteIndices(source), Encode(source), Locate(source, offset);
            && 1 <= pos.line <= |table| + 1
            && (OffsetOf(table, pos) == offset <==> !IsNewline(bytes, offset) || offset == LineStart(bytes, offset))
  {
    SearchMeaning(source, offset);
    PositionMeaning(source, offset);
  }

  lemma PositionInjective(source: string, a: nat, b: nat)
    requires a < U32_MODULUS - 1 && b < U32_MODULUS - 1
    requires !IsNewline(Encode(source), a) && !IsNewline(Encode(source), b)
    ensures Locate(source, a) == Locate(source, b) <==> a == b
  {
    PositionRoundTrip(source, a);
    PositionRoundTrip(source, b);
  }

  lemma PosToLspAt(line: nat, col: u32)
    requires line < U32_MODULUS - 1
    ensures PosToLsp(Pos(AsU32(line + 1), col)) == LspPosition(line, col)
  {
  }

  lemma MappersOnNewline(source: string, offset: nat)
    requires offset < U32_MODULUS - 1 && IsNewline(Encode(source), offset)
    ensures PosToLsp(Locate(source, offset)) == LspPosition(NewlinesBefore(Encode(source), offset), 0)
    ensures LocateForLsp(source, offset) == LspPosition(NewlinesBefore(Encode(source), offset) + 1, 0)
  {
    PositionMeaning(source, offset);
    LspOnNewline(source, offset);
    PosToLspAt(NewlinesBefore(Encode(source), offset), 0);
  }

  lemma MappersOffNewline(source: string, offset: nat)
    requires offset < U32_MODULUS - 1 && !IsNewline(Encode(source), offset)
    ensures PosToLsp(Locate(source, offset)) == LocateForLsp(source, offset)
  {
    PositionMeaning(source, offset);
    LspOffNewline(source, offset);
    PosToLspAt(NewlinesBefore(Encode(source), offset), offset - LineStart(Encode(source), offset));
  }

  /** The two mappers agree on an offset exactly when it is not a line feed; on a line feed one
      answers the start of its line, the other the start of the next. */
  lemma MappersAgreeAt(source: string, offset: nat)
    requires offset < U32_MODULUS - 1
    ensures PosToLsp(Locate(source, offset)) == LocateForLsp(source, offset) <==> !IsNewline(Encode(source), offset)
    ensures IsNewline(Encode(source), offset) ==>
              && PosToLsp(Locate(source, offset)) == LspPosition(NewlinesBefore(Encode(source), offset), 0)
              && LocateForLsp(source, offset) == LspPosition(NewlinesBefore(Encode(source), offset) + 1, 0)
  {
    if IsNewline(Encode(source), offset) {
      MappersOnNewline(source, offset);
    } else {
      MappersOffNewline(source, offset);
    }
  }

  lemma MappersAgree(file: string, source: string, start: nat, end: nat)
    requires start < U32_MODULUS - 1 && end < U32_MODULUS - 1
    ensures SpanToRange(FromOffsets(file, start, end, NewlineByteIndices(source)))
         == (LocateForLsp(source, start), LocateForLsp(source, end))
       <==> !IsNewline(Encode(source), start) && !IsNewline(Encode(source), end)
  {
    MappersAgreeAt(source, start);
    MappersAgreeAt(source, end);
  }

  lemma LineFeedAfterLetter(bytes: seq<byte>)
    requires |bytes| == 2 && bytes[0] != NEWLINE && bytes[1] == NEWLINE
    ensures IsNewline(bytes, 1) && !IsNewline(bytes, 2)
    ensures NewlinesBefore(bytes, 1) == 0 && NewlinesBefore(bytes, 2) == 1
    ensures LineStart(bytes, 1) == 0 && LineStart(bytes, 2) == 2
  {
    assert NewlinesBefore(bytes, 0) == 0 && LineStart(bytes, 0) == 0;
  }

  lemma LetterLineFeedBytes(source: string)
    requires source == ['a', '\n']
    ensures |Encode(source)| == 2 && Encode(source)[0] != NEWLINE && Encode(source)[1] == NEWLINE
  {
    AsciiBytes(source);
  }

  /** In "a\n" the line feed at offset 1 gets the position of offset 0 from `from_offsets`, and that of
      offset 2 from `byte_offset_to_lsp`. */
  lemma LineFeedLosesPlace(source: string)
    requires source == ['a', '\n']
    ensures Locate(source, 1) == Pos(1, 0) == Locate(source, 0)
    ensures LocateForLsp(source, 1) == LspPosition(1, 0) == LocateForLsp(source, 2)
  {
    LetterLineFeedBytes(source);
    LineFeedAfterLetter(Encode(source));
    PositionMeaning(source, 0);
    PositionMeaning(source, 1);
    LspMeaning(source, 1);
    LspMeaning(source, 2);
  }

  // ----- Order

  ghost predicate LexLeq(p: LspPosition, q: LspPosition) {
    p.line < q.line || (p.line == q.line && p.character <= q.character)
  }

  lemma {:induction false} LinesGrow(bytes: seq<byte>, a: nat, b: nat)
    requires a <= b
    ensures NewlinesBefore(bytes, a) <= NewlinesBefore(bytes, b)
    ensures NewlinesBefore(bytes, a) == NewlinesBefore(bytes, b) ==> LineStart(bytes, a) == LineStart(bytes, b)
    ensures a < b && IsNewline(bytes, a) ==> NewlinesBefore(bytes, a) < NewlinesBefore(bytes, b)
    decreases b - a
  {
    if a < b {
      LinesGrow(bytes, a, b - 1);
    }
  }

  /** Later offsets never get an earlier position, line feeds included. */
  lemma LspMonotone(source: string, a: nat, b: nat)
    requires a <= b < U32_MODULUS - 1
    ensures LexLeq(LocateForLsp(source, a), LocateForLsp(source, b))
  {
    LspMeaning(source, a);
    LspMeaning(source, b);
    LinesGrow(Encode(source), a, b);
  }

  /** A line feed and the byte after it share a position, unless that byte is a line feed too. */
  lemma NewlineCollides(source: string, offset: nat)
    requires offset < U32_MODULUS - 2 && IsNewline(Encode(source), offset)
    ensures LocateForLsp(source, offset) == LocateForLsp(source, offset + 1) <==> !IsNewline(Encode(source), offset + 1)
  {
    LspMeaning(source, offset);
    LspMeaning(source, offset + 1);
  }

  // ----- Remapping parser placeholders in place

  function WithFileLabel(span: Span, fileLabel: string): Span {
    if span.file == "" then span.(file := fileLabel) else span
  }

  /** The span a remap leaves: positions on line 1 at both ends are byte offsets, clamped to the
      buffer; anything else only gets its file label. */
  function Remapped(span: Span, fileLabel: string, preprocessed: string, table: seq<nat>): Span
    requires Ascending(table)
  {
    var length := |Encode(preprocessed)|;
    if span.first.line == 1 && span.last.line == 1 && length > 0 && span.first.col <= span.last.col then
      var start := Min(span.first.col, length - 1);
      FromOffsets(fileLabel, start, Max(Min(span.last.col, length - 1), start), table)
    else
      WithFileLabel(span, fileLabel)
  }

  class SpanCell {
    var file: string
    var first: Pos
    var last: Pos

    function Value(): Span
      reads this
    {
      Span(file, first, last)
    }

    constructor (span: Span)
      ensures Value() == span
    {
      file, first, last := span.file, span.first, span.last;
    }

    method EnsureFileLabel(fileLabel: string)
      modifies this
      ensures Value() == WithFileLabel(old(Value()), fileLabel)
    {
      if file == "" {
        file := fileLabel;
      }
    }

    method RemapAfterLalrpopParse(fileLabel: string, preprocessed: string)
      modifies this
      ensures Ascending(NewlineByteIndices(preprocessed))
      ensures Value() == Remapped(old(Value()), fileLabel, preprocessed, NewlineByteIndices(preprocessed))
    {
      NewlineTableExact(preprocessed);
      RemapAfterLalrpopParseWithLineTable(fileLabel, preprocessed, NewlineByteIndices(preprocessed));
    }

    method RemapAfterLalrpopParseWithLineTable(fileLabel: string, preprocessed: string, table: seq<nat>)
      requires Ascending(table)
      modifies this
      ensures Value() == Remapped(old(Value()), fileLabel, preprocessed, table)
    {
      if first.line == 0 || last.line == 0 {
        EnsureFileLabel(fileLabel);
        return;
      }
      if first.line != 1 || last.line != 1 {
        EnsureFileLabel(fileLabel);
        return;
      }
      if preprocessed == "" {
        EnsureFileLabel(fileLabel);
        return;
      }
      var startByte: nat, endByte: nat := first.col, last.col;
      if startByte > endByte {
        EnsureFileLabel(fileLabel);
        return;
      }
      var lastByte := SaturatingSub(|Encode(preprocessed)|, 1);
      startByte := Min(startByte, lastByte);
      endByte := Max(Min(endByte, lastByte), startByte);
      var span := FromOffsets(fileLabel, startByte, endByte, table);
      file, first, last := span.file, span.first, span.last;
    }
  }

  lemma {:induction false} IndexWithinOffset(table: seq<nat>, i: nat)
    requires Ascending(table) && i < |table|
    ensures i <= table[i]
  {
    if i > 0 {
      IndexWithinOffset(table, i - 1);
    }
  }

  /** Only the first line has line number 1, and there the column is the offset, or 0 on the line
      feed that ends it. */
  lemma LineOnePosition(table: seq<nat>, offset: nat)
    requires Ascending(table) && offset < U32_MODULUS
    ensures PositionOf(table, offset).line == 1 <==> BinarySearch(table, offset).index == 0
    ensures PositionOf(table, offset).line == 1 ==>
              PositionOf(table, offset).col == if BinarySearch(table, offset).Found? then 0 else offset
  {
    var i := BinarySearch(table, offset).index;
    if i > 0 {
      IndexWithinOffset(table, i - 1);
      assert i <= offset;
    }
  }

  /** A second remap changes nothing, for every span, label, buffer and ascending table. */
  lemma RemapIdempotent(span: Span, fileLabel: string, preprocessed: string, table: seq<nat>)
    requires Ascending(table)
    ensures var once := Remapped(span, fileLabel, preprocessed, table);
            Remapped(once, fileLabel, preprocessed, table) == once
  {
    var once := Remapped(span, fileLabel, preprocessed, table);
    if once != WithFileLabel(span, fileLabel) && once.first.line == 1 && once.last.line == 1 {
      var length := |Encode(preprocessed)|;
      var start := Min(span.first.col, length - 1);
      var end := Max(Min(span.last.col, length - 1), start);
      LineOnePosition(table, 0);
      LineOnePosition(table, start);
      LineOnePosition(table, end);
    }
  }

  /** An offset of the buffer, or its last byte for an offset past the end. */
  function ByteOf(preprocessed: string, offset: nat): nat
    requires preprocessed != ""
  {
    if offset < |Encode(preprocessed)| then offset else |Encode(preprocessed)| - 1
  }

  /** The parser's placeholder for bytes `l` to `r` becomes the span of those bytes: each end that lies
      in the buffer gets its own position, each other end that of the last byte. */
  lemma RemapReadsPlaceholder(l: nat, r: nat, fileLabel: string, preprocessed: string, table: seq<nat>)
    requires Ascending(table) && l <= r < U32_MODULUS && preprocessed != ""
    ensures Remapped(FromOffsets("", l, r, []), fileLabel, preprocessed, table)
         == Span(fileLabel, PositionOf(table, ByteOf(preprocessed, l)), PositionOf(table, ByteOf(preprocessed, r)))
  {
    assert PositionOf([], l) == Pos(1, l) && PositionOf([], r) == Pos(1, r);
  }

  /** Anything that is no placeholder keeps its positions, and gets the label if it had none. */
  lemma RemapKeepsOthers(span: Span, fileLabel: string, preprocessed: string, table: seq<nat>)
    requires Ascending(table)
    requires span.first.line != 1 || span.last.line != 1 || span.last.col < span.first.col || preprocessed == ""
    ensures var kept := Remapped(span, fileLabel, preprocessed, table);
            && kept.first == span.first && kept.last == span.last
            && (span.file != "" ==> kept.file == span.file) && (span.file == "" ==> kept.file == fileLabel)
  {
  }

  lemma DeclarationBytes(source: string)
    requires source == ['v', 'a', 'l', ' ', 'x', ' ', '=', ' ', '1']
    ensures |Encode(source)| == 9 && forall p | 0 <= p < 9 :: Encode(source)[p] != NEWLINE
  {
    AsciiBytes(source);
  }

  /** "val x = 1" without a line feed: the exclusive end at 9 becomes the position of byte 8. */
  lemma LastDeclarationEnd(source: string, fileLabel: string)
    requires source == ['v', 'a', 'l', ' ', 'x', ' ', '=', ' ', '1']
    ensures Remapped(FromOffsets("", 0, 9, []), fileLabel, source, NewlineByteIndices(source))
         == Span(fileLabel, Pos(1, 0), Pos(1, 8))
  {
    DeclarationBytes(source);
    RemapReadsPlaceholder(0, 9, fileLabel, source, NewlineByteIndices(source));
    NewlineTableExact(source);
    var table := NewlineByteIndices(source);
    assert forall i | 0 <= i < |table| :: table[i] in table;
  }
}
