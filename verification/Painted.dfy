/** Coloured text as plain characters and coloured words, and what trimming and splitting it into lines
    does to both the colours and the text under them. */
module Painted {
  import opened Wrappers
  import opened Strings
  import opened Sgr

  /** A plain character, or a word in one or more colours, the outermost first. */
  datatype Block = Plain(c: char) | Word(codes: seq<string>, word: string)

  predicate NoWhite(s: string) { forall i | 0 <= i < |s| :: !IsWhitespace(s[i]) }

  predicate IsWord(s: string) { s != "" && NoWhite(s) && EscapeFree(s) }

  ghost predicate AreCodes(codes: seq<string>) { forall i | 0 <= i < |codes| :: IsSgr(codes[i]) }

  /** A coloured word has neither white space nor an escape in it. */
  ghost predicate IsBlock(b: Block) {
    match b
    case Plain(c) => c != ESC
    case Word(codes, word) => codes != [] && AreCodes(codes) && IsWord(word)
  }

  /** The word between its colours and as many resets. */
  function InColours(codes: seq<string>, word: string): string {
    if codes == [] then word else codes[0] + InColours(codes[1..], word) + RESET
  }

  function BlockText(b: Block): string {
    match b
    case Plain(c) => [c]
    case Word(codes, word) => InColours(codes, word)
  }

  function BlockPlain(b: Block): string {
    match b
    case Plain(c) => [c]
    case Word(_, word) => word
  }

  function TextOf(bs: seq<Block>): string { if bs == [] then "" else BlockText(bs[0]) + TextOf(bs[1..]) }

  function PlainOf(bs: seq<Block>): string { if bs == [] then "" else BlockPlain(bs[0]) + PlainOf(bs[1..]) }

  ghost predicate AreBlocks(bs: seq<Block>) { forall i | 0 <= i < |bs| :: IsBlock(bs[i]) }

  /** `x` is `p` with some of its words coloured. */
  ghost predicate Paints(x: string, p: string) {
    exists bs :: AreBlocks(bs) && TextOf(bs) == x && PlainOf(bs) == p
  }

  lemma {:induction false} TextConcat(a: seq<Block>, b: seq<Block>)
    ensures TextOf(a + b) == TextOf(a) + TextOf(b)
    decreases |a|
  {
    if a == [] {
      assert a + b == b;
    } else {
      assert (a + b)[1..] == a[1..] + b;
      TextConcat(a[1..], b);
    }
  }

  lemma {:induction false} PlainConcat(a: seq<Block>, b: seq<Block>)
    ensures PlainOf(a + b) == PlainOf(a) + PlainOf(b)
    decreases |a|
  {
    if a == [] {
      assert a + b == b;
    } else {
      assert (a + b)[1..] == a[1..] + b;
      PlainConcat(a[1..], b);
    }
  }

  lemma OneBlock(b: Block)
    ensures TextOf([b]) == BlockText(b) && PlainOf([b]) == BlockPlain(b)
  {
    assert [b][1..] == [];
  }

  lemma LastBlock(bs: seq<Block>, init: seq<Block>, b: Block)
    requires bs == init + [b]
    ensures TextOf(bs) == TextOf(init) + BlockText(b) && PlainOf(bs) == PlainOf(init) + BlockPlain(b)
  {
    TextConcat(init, [b]);
    PlainConcat(init, [b]);
    OneBlock(b);
  }

  lemma PaintsBlocks(bs: seq<Block>)
    requires AreBlocks(bs)
    ensures Paints(TextOf(bs), PlainOf(bs))
  {
  }

  lemma PaintsAppend(a: string, p: string, b: string, q: string)
    requires Paints(a, p) && Paints(b, q)
    ensures Paints(a + b, p + q)
  {
    var xs :| AreBlocks(xs) && TextOf(xs) == a && PlainOf(xs) == p;
    var ys :| AreBlocks(ys) && TextOf(ys) == b && PlainOf(ys) == q;
    TextConcat(xs, ys);
    PlainConcat(xs, ys);
    PaintsBlocks(xs + ys);
  }

  lemma {:induction false} PaintsPlain(s: string)
    requires EscapeFree(s)
    ensures Paints(s, s)
    decreases |s|
  {
    if s == "" {
      PaintsBlocks([]);
    } else {
      assert s[0] in s;
      PaintsPlain(s[1..]);
      OneBlock(Plain(s[0]));
      PaintsBlocks([Plain(s[0])]);
      PaintsAppend([s[0]], [s[0]], s[1..], s[1..]);
      assert [s[0]] + s[1..] == s;
    }
  }

  // ----- Words in colours

  lemma SgrHasNoWhite(code: string)
    requires IsSgr(code)
    ensures NoWhite(code)
  {
  }

  lemma NoWhiteAppend(a: string, b: string)
    requires NoWhite(a) && NoWhite(b)
    ensures NoWhite(a + b)
  {
  }

  lemma {:induction false} InColoursShape(codes: seq<string>, word: string)
    requires AreCodes(codes) && IsWord(word)
    ensures InColours(codes, word) != "" && NoWhite(InColours(codes, word))
    ensures codes != [] ==> InColours(codes, word)[0] == ESC
    decreases |codes|
  {
    if codes != [] {
      InColoursShape(codes[1..], word);
      SgrHasNoWhite(codes[0]);
      ResetIsSgr();
      SgrHasNoWhite(RESET);
      NoWhiteAppend(codes[0], InColours(codes[1..], word));
      NoWhiteAppend(codes[0] + InColours(codes[1..], word), RESET);
    }
  }

  lemma {:induction false} InColoursErases(codes: seq<string>, word: string)
    requires AreCodes(codes) && IsWord(word)
    ensures Erases(InColours(codes, word), word)
    decreases |codes|
  {
    if codes == [] {
      ErasesPlain(word);
    } else {
      InColoursErases(codes[1..], word);
      ErasesAround(codes[0], InColours(codes[1..], word), word);
    }
  }

  lemma PaintsInColours(codes: seq<string>, word: string)
    requires AreCodes(codes) && IsWord(word)
    ensures Paints(InColours(codes, word), word)
  {
    if codes == [] {
      PaintsPlain(word);
    } else {
      OneBlock(Word(codes, word));
      PaintsBlocks([Word(codes, word)]);
    }
  }

  // ----- Erasing

  lemma BlockErases(b: Block)
    requires IsBlock(b)
    ensures Erases(BlockText(b), BlockPlain(b))
  {
    match b {
      case Plain(c) => ErasesPlain([c]);
      case Word(codes, word) => InColoursErases(codes, word);
    }
  }

  lemma {:induction false} BlocksErase(bs: seq<Block>)
    requires AreBlocks(bs)
    ensures Erases(TextOf(bs), PlainOf(bs))
    decreases |bs|
  {
    if bs == [] {
      ErasesPlain("");
    } else {
      BlockErases(bs[0]);
      BlocksErase(bs[1..]);
      ErasesAppend(BlockText(bs[0]), BlockPlain(bs[0]), TextOf(bs[1..]), PlainOf(bs[1..]));
    }
  }

  lemma PaintsErases(x: string, p: string)
    requires Paints(x, p)
    ensures Erases(x, p)
  {
    var bs :| AreBlocks(bs) && TextOf(bs) == x && PlainOf(bs) == p;
    BlocksErase(bs);
  }

  // ----- Trimming

  predicate IsWhite(b: Block) { b.Plain? && IsWhitespace(b.c) }

  function WithoutWhiteStart(bs: seq<Block>): seq<Block> {
    if bs != [] && IsWhite(bs[0]) then WithoutWhiteStart(bs[1..]) else bs
  }

  function WithoutWhiteEnd(bs: seq<Block>): seq<Block> {
    if bs != [] && IsWhite(bs[|bs| - 1]) then WithoutWhiteEnd(bs[..|bs| - 1]) else bs
  }

  lemma BlockEnds(b: Block)
    requires IsBlock(b)
    ensures BlockText(b) != "" && BlockPlain(b) != ""
    ensures IsWhite(b) <==> IsWhitespace(BlockText(b)[0])
    ensures IsWhite(b) <==> IsWhitespace(BlockPlain(b)[0])
    ensures IsWhite(b) <==> IsWhitespace(BlockText(b)[|BlockText(b)| - 1])
    ensures IsWhite(b) <==> IsWhitespace(BlockPlain(b)[|BlockPlain(b)| - 1])
  {
    if b.Word? {
      InColoursShape(b.codes, b.word);
    }
  }

  lemma {:induction false} StartTrimmed(bs: seq<Block>)
    requires AreBlocks(bs)
    ensures AreBlocks(WithoutWhiteStart(bs))
    ensures TrimStart(TextOf(bs)) == TextOf(WithoutWhiteStart(bs))
    ensures TrimStart(PlainOf(bs)) == PlainOf(WithoutWhiteStart(bs))
    decreases |bs|
  {
    if bs != [] {
      BlockEnds(bs[0]);
      if IsWhite(bs[0]) {
        StartTrimmed(bs[1..]);
        assert TextOf(bs)[1..] == TextOf(bs[1..]) && PlainOf(bs)[1..] == PlainOf(bs[1..]);
      }
    }
  }

  lemma TrimEndStep(s: string, init: string, last: string)
    requires s == init + last && last != ""
    ensures !IsWhitespace(last[|last| - 1]) ==> TrimEnd(s) == s
    ensures |last| == 1 && IsWhitespace(last[0]) ==> TrimEnd(s) == TrimEnd(init)
  {
    assert |last| == 1 ==> s[..|s| - 1] == init;
  }

  lemma {:induction false} EndTrimmed(bs: seq<Block>)
    requires AreBlocks(bs)
    ensures AreBlocks(WithoutWhiteEnd(bs))
    ensures TrimEnd(TextOf(bs)) == TextOf(WithoutWhiteEnd(bs))
    ensures TrimEnd(PlainOf(bs)) == PlainOf(WithoutWhiteEnd(bs))
    decreases |bs|
  {
    if bs != [] {
      var init, b := bs[..|bs| - 1], bs[|bs| - 1];
      assert bs == init + [b];
      LastBlock(bs, init, b);
      BlockEnds(b);
      TrimEndStep(TextOf(bs), TextOf(init), BlockText(b));
      TrimEndStep(PlainOf(bs), PlainOf(init), BlockPlain(b));
      if IsWhite(b) {
        EndTrimmed(init);
      }
    }
  }

  lemma PaintsTrimEnd(x: string, p: string)
    requires Paints(x, p)
    ensures Paints(TrimEnd(x), TrimEnd(p))
  {
    var bs :| AreBlocks(bs) && TextOf(bs) == x && PlainOf(bs) == p;
    EndTrimmed(bs);
    PaintsBlocks(WithoutWhiteEnd(bs));
  }

  lemma PaintsTrim(x: string, p: string)
    requires Paints(x, p)
    ensures Paints(Trim(x), Trim(p))
  {
    var bs :| AreBlocks(bs) && TextOf(bs) == x && PlainOf(bs) == p;
    StartTrimmed(bs);
    PaintsBlocks(WithoutWhiteStart(bs));
    PaintsTrimEnd(TrimStart(x), TrimStart(p));
  }

  // ----- Lines

  predicate NoLineFeeds(bs: seq<Block>) { forall i | 0 <= i < |bs| :: bs[i] != Plain('\n') }

  lemma BlockHasNoLineFeed(b: Block)
    requires IsBlock(b) && b != Plain('\n')
    ensures '\n' !in BlockText(b) && '\n' !in BlockPlain(b)
  {
    assert IsWhitespace('\n');
    if b.Word? {
      InColoursShape(b.codes, b.word);
    }
  }

  lemma {:induction false} NoLineFeedInText(bs: seq<Block>)
    requires AreBlocks(bs) && NoLineFeeds(bs)
    ensures '\n' !in TextOf(bs) && '\n' !in PlainOf(bs)
    decreases |bs|
  {
    if bs != [] {
      BlockHasNoLineFeed(bs[0]);
      NoLineFeedInText(bs[1..]);
    }
  }

  lemma LineFeedAt(s: string, i: nat)
    ensures OccursAt(s, "\n", i) <==> i < |s| && s[i] == '\n'
  {
    if i < |s| {
      assert s[i..i + 1] == [s[i]];
    }
  }

  /** A text without line feeds is one line, unless it is empty. */
  lemma LastLine(s: string)
    requires '\n' !in s
    ensures Lines(s) == if s == "" then [] else [s]
  {
    forall i: nat ensures !OccursAt(s, "\n", i) {
      LineFeedAt(s, i);
    }
  }

  lemma FirstLine(s: string, head: string, tail: string)
    requires s == head + "\n" + tail && '\n' !in head
    ensures Lines(s) == [StripCarriageReturn(head)] + Lines(tail)
  {
    forall i | 0 <= i <= |head| ensures OccursAt(s, "\n", i) <==> i == |head| {
      LineFeedAt(s, i);
    }
    assert OccursAt(s, "\n", |head|);
    assert Find(s, "\n", 0) == Some(|head|);
    assert s[..|head|] == head && s[|head| + 1..] == tail;
  }

  lemma StripStep(s: string, init: string, last: string)
    requires s == init + last && last != ""
    ensures last[|last| - 1] != '\r' ==> StripCarriageReturn(s) == s
    ensures last == "\r" ==> StripCarriageReturn(s) == init
  {
    assert last == "\r" ==> s[..|s| - 1] == init;
  }

  lemma StrippedLast(bs: seq<Block>, init: seq<Block>, b: Block)
    requires AreBlocks(init) && IsBlock(b) && bs == init + [b]
    ensures Paints(StripCarriageReturn(TextOf(bs)), StripCarriageReturn(PlainOf(bs)))
  {
    LastBlock(bs, init, b);
    LastReturn(b);
    StripStep(TextOf(bs), TextOf(init), BlockText(b));
    StripStep(PlainOf(bs), PlainOf(init), BlockPlain(b));
    PaintsBlocks(if b == Plain('\r') then init else bs);
  }

  lemma Stripped(bs: seq<Block>)
    requires AreBlocks(bs)
    ensures Paints(StripCarriageReturn(TextOf(bs)), StripCarriageReturn(PlainOf(bs)))
  {
    if bs == [] {
      PaintsBlocks(bs);
    } else {
      var init, b := bs[..|bs| - 1], bs[|bs| - 1];
      assert bs == init + [b];
      StrippedLast(bs, init, b);
    }
  }

  lemma LastReturn(b: Block)
    requires IsBlock(b)
    ensures BlockText(b) != "" && BlockPlain(b) != ""
    ensures b == Plain('\r') ==> BlockText(b) == "\r" && BlockPlain(b) == "\r"
    ensures b != Plain('\r') ==> BlockText(b)[|BlockText(b)| - 1] != '\r' && BlockPlain(b)[|BlockPlain(b)| - 1] != '\r'
  {
    BlockEnds(b);
    assert IsWhitespace('\r');
  }

  /** `xs` are `ps` with some of their words coloured. */
  ghost predicate PaintsAll(xs: seq<string>, ps: seq<string>) {
    |xs| == |ps| && forall i | 0 <= i < |ps| :: Paints(xs[i], ps[i])
  }

  lemma PaintsAllAppend(xs: seq<string>, ps: seq<string>, ys: seq<string>, qs: seq<string>)
    requires PaintsAll(xs, ps) && PaintsAll(ys, qs)
    ensures PaintsAll(xs + ys, ps + qs)
  {
    forall i | 0 <= i < |ps + qs| ensures Paints((xs + ys)[i], (ps + qs)[i]) {
      if i < |ps| {
        assert (xs + ys)[i] == xs[i] && (ps + qs)[i] == ps[i];
      } else {
        assert (xs + ys)[i] == ys[i - |ps|] && (ps + qs)[i] == qs[i - |ps|];
      }
    }
  }

  lemma {:induction false} FirstLineFeed(bs: seq<Block>) returns (head: seq<Block>, tail: seq<Block>)
    requires !NoLineFeeds(bs)
    ensures bs == head + [Plain('\n')] + tail && NoLineFeeds(head)
    decreases |bs|
  {
    if bs[0] == Plain('\n') {
      head, tail := [], bs[1..];
    } else {
      var h;
      h, tail := FirstLineFeed(bs[1..]);
      head := [bs[0]] + h;
      assert bs == [bs[0]] + bs[1..];
    }
  }

  lemma AroundBlock(head: seq<Block>, b: Block, tail: seq<Block>)
    ensures TextOf(head + [b] + tail) == TextOf(head) + BlockText(b) + TextOf(tail)
    ensures PlainOf(head + [b] + tail) == PlainOf(head) + BlockPlain(b) + PlainOf(tail)
  {
    TextConcat(head + [b], tail);
    PlainConcat(head + [b], tail);
    LastBlock(head + [b], head, b);
  }

  ghost predicate LinesPainted(bs: seq<Block>) { PaintsAll(Lines(TextOf(bs)), Lines(PlainOf(bs))) }

  lemma OneLinePaints(bs: seq<Block>)
    requires AreBlocks(bs) && NoLineFeeds(bs)
    ensures LinesPainted(bs)
  {
    NoLineFeedInText(bs);
    LastLine(TextOf(bs));
    LastLine(PlainOf(bs));
    PaintsBlocks(bs);
    if bs != [] {
      BlockEnds(bs[0]);
    }
  }

  lemma FirstLinePaints(head: seq<Block>, tail: seq<Block>)
    requires AreBlocks(head) && NoLineFeeds(head)
    requires LinesPainted(tail)
    ensures LinesPainted(head + [Plain('\n')] + tail)
  {
    var bs := head + [Plain('\n')] + tail;
    AroundBlock(head, Plain('\n'), tail);
    NoLineFeedInText(head);
    FirstLine(TextOf(bs), TextOf(head), TextOf(tail));
    FirstLine(PlainOf(bs), PlainOf(head), PlainOf(tail));
    Stripped(head);
    PaintsAllAppend([StripCarriageReturn(TextOf(head))], [StripCarriageReturn(PlainOf(head))],
                    Lines(TextOf(tail)), Lines(PlainOf(tail)));
  }

  lemma {:induction false} LinesPaint(bs: seq<Block>)
    requires AreBlocks(bs)
    ensures LinesPainted(bs)
    decreases |bs|
  {
    if NoLineFeeds(bs) {
      OneLinePaints(bs);
    } else {
      var head, tail := FirstLineFeed(bs);
      assert forall i | 0 <= i < |head| :: head[i] == bs[i];
      assert forall i | 0 <= i < |tail| :: tail[i] == bs[|head| + 1 + i];
      LinesPaint(tail);
      FirstLinePaints(head, tail);
    }
  }

  lemma PaintsLines(x: string, p: string)
    requires Paints(x, p)
    ensures PaintsAll(Lines(x), Lines(p))
  {
    var bs :| AreBlocks(bs) && TextOf(bs) == x && PlainOf(bs) == p;
    LinesPaint(bs);
  }

  // ----- Searching for plain text

  /** Text without escapes that begins coloured text begins the text under the colours. */
  lemma {:induction false} PrefixUnderColours(bs: seq<Block>, t: string)
    requires AreBlocks(bs) && t <= TextOf(bs) && EscapeFree(t)
    ensures t <= PlainOf(bs)
    decreases |t|
  {
    if t != "" {
      assert t[0] in t && TextOf(bs)[0] == t[0];
      var rest := bs[1..];
      assert bs[0] == Plain(t[0]);
      assert TextOf(bs)[1..] == TextOf(rest) && PlainOf(bs) == [t[0]] + PlainOf(rest);
      assert t[1..] <= TextOf(rest) by {
        assert t == TextOf(bs)[..|t|];
      }
      PrefixUnderColours(rest, t[1..]);
      assert t == [t[0]] + t[1..];
    }
  }

  lemma OccursPastHead(head: string, rest: string, t: string, i: nat)
    requires OccursAt(head + rest, t, i) && t != ""
    requires i > 0 && (|head| == 1 || t[0] !in head)
    ensures |head| <= i && OccursAt(rest, t, i - |head|)
  {
    assert (head + rest)[i] == (head + rest)[i..i + |t|][0] == t[0];
    assert forall k | 0 <= k < |head| :: (head + rest)[k] in head;
    assert |head| <= i ==> (head + rest)[i..i + |t|] == rest[i - |head|..i - |head| + |t|];
  }

  lemma PrefixContained(s: string, t: string)
    requires t <= s
    ensures Contains(s, t)
  {
    assert s[0..0 + |t|] == s[..|t|] && OccursAt(s, t, 0);
  }

  lemma ContainsLater(head: string, rest: string, t: string)
    requires Contains(rest, t)
    ensures Contains(head + rest, t)
  {
    var j :| 0 <= j <= |rest| && OccursAt(rest, t, j);
    assert (head + rest)[|head| + j..|head| + j + |t|] == rest[j..j + |t|];
    assert OccursAt(head + rest, t, |head| + j);
  }

  lemma OccursPastBlock(b: Block, rest: string, t: string, i: nat)
    requires IsBlock(b) && OccursAt(BlockText(b) + rest, t, i) && i > 0 && t != "" && t[0] == '\n'
    ensures |BlockText(b)| <= i && OccursAt(rest, t, i - |BlockText(b)|)
  {
    if b.Word? {
      BlockHasNoLineFeed(b);
    }
    OccursPastHead(BlockText(b), rest, t, i);
  }

  /** Where a text that begins with a line feed occurs in coloured text, it occurs under the colours. */
  lemma {:induction false} OccursUnderColours(bs: seq<Block>, t: string, i: nat)
    requires AreBlocks(bs) && OccursAt(TextOf(bs), t, i) && t != "" && t[0] == '\n' && EscapeFree(t)
    ensures Contains(PlainOf(bs), t)
    decreases |bs|
  {
    if i == 0 {
      assert t <= TextOf(bs);
      PrefixUnderColours(bs, t);
      PrefixContained(PlainOf(bs), t);
    } else {
      OccursPastBlock(bs[0], TextOf(bs[1..]), t, i);
      OccursUnderColours(bs[1..], t, i - |BlockText(bs[0])|);
      ContainsLater(BlockPlain(bs[0]), PlainOf(bs[1..]), t);
    }
  }

  lemma PaintsContains(x: string, p: string, t: string)
    requires Paints(x, p) && Contains(x, t) && t != "" && t[0] == '\n' && EscapeFree(t)
    ensures Contains(p, t)
  {
    var bs :| AreBlocks(bs) && TextOf(bs) == x && PlainOf(bs) == p;
    var i :| 0 <= i <= |x| && OccursAt(x, t, i);
    OccursUnderColours(bs, t, i);
  }
}
