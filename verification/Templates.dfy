/** Filling the `{0}`, `{1}`, … of a message template in `diagnostics/render.rs`: one replacement after
    the other, against filling all of them at once. */
module Templates {
  import opened Strings

  function DigitChar(d: nat): char
    requires d < 10
  {
    (d + 0x30) as char
  }

  function Decimal(n: nat): string {
    if n < 10 then [DigitChar(n)] else Decimal(n / 10) + [DigitChar(n % 10)]
  }

  function Placeholder(i: nat): (p: string)
    ensures p != ""
  {
    "{" + Decimal(i) + "}"
  }

  /** `{0}`, `{1}`, … replaced one after the other. */
  function ApplyTemplate(template: string, args: seq<string>): string {
    if args == [] then template
    else
      var n := |args| - 1;
      Replace(ApplyTemplate(template, args[..n]), Placeholder(n), args[n])
  }

  // ----- Templates as characters and slots

  datatype Piece = Character(c: char) | Slot(i: nat)

  function PieceText(piece: Piece): (s: string)
    ensures s != ""
  {
    match piece
    case Character(c) => [c]
    case Slot(i) => Placeholder(i)
  }

  function Text(pieces: seq<Piece>): string {
    if pieces == [] then "" else PieceText(pieces[0]) + Text(pieces[1..])
  }

  function Characters(s: string): seq<Piece> {
    if s == "" then [] else [Character(s[0])] + Characters(s[1..])
  }

  function FillPiece(piece: Piece, k: nat, argument: string): seq<Piece> {
    if piece == Slot(k) then Characters(argument) else [piece]
  }

  /** One kind of slot filled. */
  function Fill(pieces: seq<Piece>, k: nat, argument: string): seq<Piece> {
    if pieces == [] then [] else FillPiece(pieces[0], k, argument) + Fill(pieces[1..], k, argument)
  }

  function SubstitutedPiece(piece: Piece, args: seq<string>): string {
    if piece.Slot? && piece.i < |args| then args[piece.i] else PieceText(piece)
  }

  /** All slots filled at once; a slot without an argument stays. */
  function Substituted(pieces: seq<Piece>, args: seq<string>): string {
    if pieces == [] then "" else SubstitutedPiece(pieces[0], args) + Substituted(pieces[1..], args)
  }

  function FilledPiece(piece: Piece, args: seq<string>): seq<Piece> {
    if piece.Slot? && piece.i < |args| then Characters(args[piece.i]) else [piece]
  }

  /** The same in pieces. */
  function Filled(pieces: seq<Piece>, args: seq<string>): seq<Piece> {
    if pieces == [] then [] else FilledPiece(pieces[0], args) + Filled(pieces[1..], args)
  }

  lemma {:induction false} TextConcat(a: seq<Piece>, b: seq<Piece>)
    ensures Text(a + b) == Text(a) + Text(b)
    decreases |a|
  {
    if a == [] {
      assert a + b == b;
    } else {
      assert (a + b)[1..] == a[1..] + b;
      TextConcat(a[1..], b);
    }
  }

  lemma {:induction false} CharactersText(s: string)
    ensures Text(Characters(s)) == s
    decreases |s|
  {
    if s != "" {
      CharactersText(s[1..]);
      assert s == [s[0]] + s[1..];
    }
  }

  lemma {:induction false} FillConcat(a: seq<Piece>, b: seq<Piece>, k: nat, argument: string)
    ensures Fill(a + b, k, argument) == Fill(a, k, argument) + Fill(b, k, argument)
    decreases |a|
  {
    if a == [] {
      assert a + b == b;
    } else {
      assert (a + b)[1..] == a[1..] + b;
      FillConcat(a[1..], b, k, argument);
    }
  }

  lemma {:induction false} FillCharacters(s: string, k: nat, argument: string)
    ensures Fill(Characters(s), k, argument) == Characters(s)
    decreases |s|
  {
    if s != "" {
      assert Characters(s)[1..] == Characters(s[1..]);
      FillCharacters(s[1..], k, argument);
    }
  }

  // ----- Placeholders

  predicate IsDigit(c: char) { '0' <= c <= '9' }

  predicate AllDigits(s: string) { forall i | 0 <= i < |s| :: IsDigit(s[i]) }

  lemma {:induction false} DecimalDigits(n: nat)
    ensures Decimal(n) != "" && AllDigits(Decimal(n))
    decreases n
  {
    if n >= 10 {
      DecimalDigits(n / 10);
    }
  }

  lemma {:induction false} DecimalInjective(m: nat, n: nat)
    requires Decimal(m) == Decimal(n)
    ensures m == n
    decreases m
  {
    DecimalDigits(m / 10);
    DecimalDigits(n / 10);
    var s := Decimal(m);
    assert m >= 10 ==> s[..|s| - 1] == Decimal(m / 10);
    assert n >= 10 ==> s[..|s| - 1] == Decimal(n / 10);
    assert s[|s| - 1] == DigitChar(m % 10) == DigitChar(n % 10);
    if m >= 10 && n >= 10 {
      DecimalInjective(m / 10, n / 10);
    }
  }

  /** Two placeholders begin the same text only if they are one. */
  lemma PlaceholderApart(i: nat, k: nat, rest: string)
    requires Placeholder(k) <= Placeholder(i) + rest
    ensures i == k
  {
    var a, b := Decimal(i), Decimal(k);
    DecimalDigits(i);
    DecimalDigits(k);
    var s := Placeholder(i) + rest;
    assert s[1 + |a|] == '}' && forall j | 0 <= j < |a| :: s[1 + j] == a[j];
    assert Placeholder(k)[1 + |b|] == '}' && forall j | 0 <= j < |b| :: Placeholder(k)[1 + j] == b[j];
    assert forall j | 0 <= j < |b| + 2 :: s[j] == Placeholder(k)[j];
    assert a == b;
    DecimalInjective(i, k);
  }

  /** Text without an opening brace is passed over. */
  lemma {:induction false} ReplaceSkips(s: string, rest: string, k: nat, argument: string)
    requires '{' !in s
    ensures Replace(s + rest, Placeholder(k), argument) == s + Replace(rest, Placeholder(k), argument)
    decreases |s|
  {
    if s == "" {
      assert s + rest == rest;
    } else {
      assert s[0] in s && s[0] != Placeholder(k)[0];
      assert (s + rest)[1..] == s[1..] + rest;
      ReplaceSkips(s[1..], rest, k, argument);
    }
  }

  lemma ReplaceSkipsPlaceholder(i: nat, rest: string, k: nat, argument: string)
    requires i != k
    ensures Replace(Placeholder(i) + rest, Placeholder(k), argument)
         == Placeholder(i) + Replace(rest, Placeholder(k), argument)
  {
    var tail := Decimal(i) + "}";
    DecimalDigits(i);
    if Placeholder(k) <= Placeholder(i) + rest {
      PlaceholderApart(i, k, rest);
    }
    assert Placeholder(i) == "{" + tail && (Placeholder(i) + rest)[1..] == tail + rest;
    ReplaceSkips(tail, rest, k, argument);
  }

  lemma ReplaceFront(k: nat, rest: string, argument: string)
    ensures Replace(Placeholder(k) + rest, Placeholder(k), argument)
         == argument + Replace(rest, Placeholder(k), argument)
  {
    assert (Placeholder(k) + rest)[|Placeholder(k)|..] == rest;
  }

  // ----- One replacement

  /** The text holds no placeholder `k` but the slots: none begins at a character. */
  ghost predicate OnlySlots(pieces: seq<Piece>, k: nat) {
    pieces == [] || ((pieces[0].Character? ==> !(Placeholder(k) <= Text(pieces))) && OnlySlots(pieces[1..], k))
  }

  function Replaced(pieces: seq<Piece>, k: nat, argument: string): string {
    Replace(Text(pieces), Placeholder(k), argument)
  }

  function FilledText(pieces: seq<Piece>, k: nat, argument: string): string { Text(Fill(pieces, k, argument)) }

  /** Where no stray placeholder begins, both go on in step. */
  lemma SameHead(pieces: seq<Piece>, k: nat, argument: string)
    requires pieces != [] && (pieces[0].Character? ==> !(Placeholder(k) <= Text(pieces)))
    ensures var head := if pieces[0] == Slot(k) then argument else PieceText(pieces[0]);
            && Replaced(pieces, k, argument) == head + Replaced(pieces[1..], k, argument)
            && FilledText(pieces, k, argument) == head + FilledText(pieces[1..], k, argument)
  {
    var rest := Text(pieces[1..]);
    match pieces[0] {
      case Character(c) =>
        assert ([c] + rest)[1..] == rest;
      case Slot(i) =>
        if i == k {
          ReplaceFront(k, rest, argument);
          CharactersText(argument);
        } else {
          ReplaceSkipsPlaceholder(i, rest, k, argument);
        }
    }
    TextConcat(FillPiece(pieces[0], k, argument), Fill(pieces[1..], k, argument));
    assert [pieces[0]][1..] == [];
  }

  lemma {:induction false} SpelledByCharacters(pieces: seq<Piece>, p: string)
    requires p <= Text(pieces) && '{' !in p
    ensures |p| <= |pieces| && pieces == Characters(p) + pieces[|p|..]
    decreases |p|
  {
    if p != "" {
      assert p[0] in p && Text(pieces)[0] == p[0];
      assert pieces[0] == Character(p[0]);
      assert Text(pieces)[1..] == Text(pieces[1..]);
      SpelledByCharacters(pieces[1..], p[1..]);
      assert pieces[1..][|p| - 1..] == pieces[|p|..];
      assert pieces == [pieces[0]] + pieces[1..];
    }
  }

  lemma TailIsPrefix(c: char, p: string, rest: string)
    requires p != "" && p <= [c] + rest
    ensures p == [c] + p[1..] && p[1..] <= rest
  {
    assert p == ([c] + rest)[..|p|];
  }

  lemma BracedSpelled(pieces: seq<Piece>, rest: seq<Piece>, c: char, p: string, tail: string)
    requires pieces == [Character(c)] + rest && p == [c] + tail
    requires tail <= Text(rest) && '{' !in tail
    ensures |p| <= |pieces| && pieces == Characters(p) + pieces[|p|..]
  {
    SpelledByCharacters(rest, tail);
    assert p[1..] == tail;
    assert pieces[|p|..] == rest[|tail|..];
  }

  lemma PlaceholderShape(k: nat)
    ensures Placeholder(k)[0] == '{' && Placeholder(k)[1..] == Decimal(k) + "}"
    ensures '{' !in Placeholder(k)[1..]
  {
    DecimalDigits(k);
  }

  lemma TextTail(pieces: seq<Piece>)
    requires pieces != [] && pieces[0].Character?
    ensures Text(pieces) != "" && Text(pieces)[0] == pieces[0].c && Text(pieces)[1..] == Text(pieces[1..])
  {
  }

  lemma BracePrefixSpelled(pieces: seq<Piece>, p: string)
    requires pieces != [] && pieces[0].Character? && p != "" && p <= Text(pieces) && '{' !in p[1..]
    ensures |p| <= |pieces| && pieces == Characters(p) + pieces[|p|..]
  {
    TextTail(pieces);
    PrefixTail(p, Text(pieces));
    assert pieces == [Character(p[0])] + pieces[1..];
    BracedSpelled(pieces, pieces[1..], p[0], p, p[1..]);
  }

  /** A stray placeholder is spelled by characters alone. */
  lemma StrayHead(pieces: seq<Piece>, k: nat)
    requires pieces != [] && pieces[0].Character? && Placeholder(k) <= Text(pieces)
    ensures |Placeholder(k)| <= |pieces| && pieces == Characters(Placeholder(k)) + pieces[|Placeholder(k)|..]
  {
    PlaceholderShape(k);
    BracePrefixSpelled(pieces, Placeholder(k));
  }

  /** Replacing also replaces it; filling leaves it. */
  lemma StrayStep(pieces: seq<Piece>, k: nat, argument: string)
    requires pieces != [] && pieces[0].Character? && Placeholder(k) <= Text(pieces)
    ensures |Placeholder(k)| <= |pieces|
    ensures var rest := pieces[|Placeholder(k)|..];
            && Replaced(pieces, k, argument) == argument + Replaced(rest, k, argument)
            && FilledText(pieces, k, argument) == Placeholder(k) + FilledText(rest, k, argument)
  {
    var p := Placeholder(k);
    StrayHead(pieces, k);
    var rest := pieces[|p|..];
    TextConcat(Characters(p), rest);
    CharactersText(p);
    ReplaceFront(k, Text(rest), argument);
    FillConcat(Characters(p), rest, k, argument);
    FillCharacters(p, k, argument);
    TextConcat(Characters(p), Fill(rest, k, argument));
  }

  lemma HeadsDiffer(a: string, b: string, x: string, y: string)
    requires |a| == |b| && a != b
    ensures a + x != b + y
  {
    assert (a + x)[..|a|] == a && (b + y)[..|b|] == b;
  }

  lemma TailsDiffer(a: string, x: string, y: string)
    ensures a + x == a + y <==> x == y
  {
    assert (a + x)[|a|..] == x && (a + y)[|a|..] == y;
  }

  /** Lengths show a difference where the argument is longer or shorter than the placeholder, the
      first stray placeholder where it is not. */
  lemma {:induction false} ReplacedAgainstFilled(pieces: seq<Piece>, k: nat, argument: string)
    ensures var r, f, width := Replaced(pieces, k, argument), FilledText(pieces, k, argument), |Placeholder(k)|;
            && (width < |argument| ==> |f| <= |r| && (!OnlySlots(pieces, k) ==> |f| < |r|))
            && (|argument| < width ==> |r| <= |f| && (!OnlySlots(pieces, k) ==> |r| < |f|))
            && (|argument| == width ==> |r| == |f|)
            && (r == f <==> OnlySlots(pieces, k) || argument == Placeholder(k))
    decreases |pieces|
  {
    if pieces != [] {
      if pieces[0].Character? && Placeholder(k) <= Text(pieces) {
        StrayStep(pieces, k, argument);
        var rest := pieces[|Placeholder(k)|..];
        ReplacedAgainstFilled(rest, k, argument);
        if argument == Placeholder(k) {
          TailsDiffer(argument, Replaced(rest, k, argument), FilledText(rest, k, argument));
        } else if |argument| == |Placeholder(k)| {
          HeadsDiffer(argument, Placeholder(k), Replaced(rest, k, argument), FilledText(rest, k, argument));
        }
      } else {
        SameHead(pieces, k, argument);
        ReplacedAgainstFilled(pieces[1..], k, argument);
        TailsDiffer(if pieces[0] == Slot(k) then argument else PieceText(pieces[0]),
                    Replaced(pieces[1..], k, argument), FilledText(pieces[1..], k, argument));
      }
    }
  }

  /** One replacement fills exactly the slots if and only if the text holds no stray placeholder of that
      number, or the argument is that placeholder. */
  lemma ReplaceFillsIff(pieces: seq<Piece>, k: nat, argument: string)
    ensures Replace(Text(pieces), Placeholder(k), argument) == Text(Fill(pieces, k, argument))
       <==> OnlySlots(pieces, k) || argument == Placeholder(k)
  {
    ReplacedAgainstFilled(pieces, k, argument);
  }

  // ----- All replacements

  lemma FilledPieceText(piece: Piece, args: seq<string>)
    ensures Text(FilledPiece(piece, args)) == SubstitutedPiece(piece, args)
  {
    if piece.Slot? && piece.i < |args| {
      CharactersText(args[piece.i]);
    } else {
      assert [piece][1..] == [];
    }
  }

  lemma {:induction false} FilledTextIs(pieces: seq<Piece>, args: seq<string>)
    ensures Text(Filled(pieces, args)) == Substituted(pieces, args)
    decreases |pieces|
  {
    if pieces != [] {
      FilledTextIs(pieces[1..], args);
      FilledPieceText(pieces[0], args);
      TextConcat(FilledPiece(pieces[0], args), Filled(pieces[1..], args));
    }
  }

  lemma FilledPieceStep(piece: Piece, args: seq<string>, last: string)
    ensures FilledPiece(piece, args + [last]) == Fill(FilledPiece(piece, args), |args|, last)
  {
    if piece.Slot? && piece.i < |args| {
      FillCharacters(args[piece.i], |args|, last);
    } else {
      assert [piece][1..] == [];
    }
  }

  lemma {:induction false} FilledStep(pieces: seq<Piece>, args: seq<string>, last: string)
    ensures Filled(pieces, args + [last]) == Fill(Filled(pieces, args), |args|, last)
    decreases |pieces|
  {
    if pieces != [] {
      FilledStep(pieces[1..], args, last);
      FilledPieceStep(pieces[0], args, last);
      FillConcat(FilledPiece(pieces[0], args), Filled(pieces[1..], args), |args|, last);
    }
  }

  /** After each argument, what has been replaced is what filling those slots at once gives. */
  ghost predicate FillsInStep(pieces: seq<Piece>, args: seq<string>) {
    && (args != [] ==> FillsInStep(pieces, args[..|args| - 1]))
    && ApplyTemplate(Text(pieces), args) == Substituted(pieces, args)
  }

  /** No argument, alone or with its surroundings, brings in the placeholder of a later one, unless that
      one stands for itself. */
  ghost predicate NoStrays(pieces: seq<Piece>, args: seq<string>) {
    args != [] ==>
      var n := |args| - 1;
      && NoStrays(pieces, args[..n])
      && (OnlySlots(Filled(pieces, args[..n]), n) || args[n] == Placeholder(n))
  }

  lemma ApplyOneMore(template: string, args: seq<string>, last: string)
    ensures ApplyTemplate(template, args + [last])
         == Replace(ApplyTemplate(template, args), Placeholder(|args|), last)
  {
    assert (args + [last])[..|args|] == args;
  }

  /** One argument more. */
  lemma OneMoreInStep(pieces: seq<Piece>, args: seq<string>, last: string)
    requires ApplyTemplate(Text(pieces), args) == Substituted(pieces, args)
    ensures ApplyTemplate(Text(pieces), args + [last]) == Substituted(pieces, args + [last])
       <==> OnlySlots(Filled(pieces, args), |args|) || last == Placeholder(|args|)
  {
    ApplyOneMore(Text(pieces), args, last);
    FilledTextIs(pieces, args);
    FilledTextIs(pieces, args + [last]);
    FilledStep(pieces, args, last);
    ReplaceFillsIff(Filled(pieces, args), |args|, last);
  }

  lemma {:induction false} EmptySubstitution(pieces: seq<Piece>)
    ensures Substituted(pieces, []) == Text(pieces)
    decreases |pieces|
  {
    if pieces != [] {
      EmptySubstitution(pieces[1..]);
    }
  }

  /** The replacements stay in step with one simultaneous substitution exactly when no stray placeholder
      ever turns up. */
  lemma {:induction false} InStepIff(pieces: seq<Piece>, args: seq<string>)
    ensures FillsInStep(pieces, args) <==> NoStrays(pieces, args)
    decreases |args|
  {
    if args == [] {
      EmptySubstitution(pieces);
    } else {
      var n := |args| - 1;
      InStepIff(pieces, args[..n]);
      assert args == args[..n] + [args[n]];
      if FillsInStep(pieces, args[..n]) {
        OneMoreInStep(pieces, args[..n], args[n]);
      }
    }
  }

  // ----- Safe braces

  /** What follows an opening brace: its digits, if any, end within the text and not as a placeholder
      does. */
  predicate NoPlaceholderEnd(s: string, digits: bool) {
    s != "" && if IsDigit(s[0]) then NoPlaceholderEnd(s[1..], true) else !(digits && s[0] == '}')
  }

  /** No opening brace of the text begins a placeholder, whatever the text is put next to. */
  predicate SafeBraces(s: string) {
    s == "" || ((s[0] == '{' ==> NoPlaceholderEnd(s[1..], false)) && SafeBraces(s[1..]))
  }

  lemma {:induction false} EndAppend(s: string, t: string, digits: bool)
    requires NoPlaceholderEnd(s, digits)
    ensures NoPlaceholderEnd(s + t, digits)
    decreases |s|
  {
    assert (s + t)[1..] == s[1..] + t;
    if IsDigit(s[0]) {
      EndAppend(s[1..], t, true);
    }
  }

  lemma {:induction false} SafeAppend(a: string, b: string)
    requires SafeBraces(a) && SafeBraces(b)
    ensures SafeBraces(a + b)
    decreases |a|
  {
    if a == "" {
      assert a + b == b;
    } else {
      assert (a + b)[1..] == a[1..] + b;
      SafeAppend(a[1..], b);
      if a[0] == '{' {
        EndAppend(a[1..], b, false);
      }
    }
  }

  /** The first part of a safe text is safe before anything that goes on like no placeholder. */
  lemma {:induction false} EndReplaced(a: string, b: string, c: string, digits: bool)
    requires NoPlaceholderEnd(a + b, digits) && c != "" && !IsDigit(c[0]) && c[0] != '}'
    ensures NoPlaceholderEnd(a + c, digits)
    decreases |a|
  {
    if a == "" {
      assert a + c == c;
    } else {
      assert (a + b)[1..] == a[1..] + b && (a + c)[1..] == a[1..] + c;
      if IsDigit(a[0]) {
        EndReplaced(a[1..], b, c, true);
      }
    }
  }

  lemma {:induction false} SafeReplaced(a: string, b: string, c: string)
    requires SafeBraces(a + b) && SafeBraces(c) && c != "" && !IsDigit(c[0]) && c[0] != '}'
    ensures SafeBraces(a + c) && SafeBraces(b)
    decreases |a|
  {
    if a == "" {
      assert a + c == c && a + b == b;
    } else {
      assert (a + b)[1..] == a[1..] + b && (a + c)[1..] == a[1..] + c;
      SafeReplaced(a[1..], b, c);
      if a[0] == '{' {
        EndReplaced(a[1..], b, c, false);
      }
    }
  }

  lemma {:induction false} BraceFreeIsSafe(s: string)
    requires '{' !in s
    ensures SafeBraces(s)
    decreases |s|
  {
    if s != "" {
      assert s[0] in s;
      BraceFreeIsSafe(s[1..]);
    }
  }

  /** The same of a template: the characters after an opening brace, up to a slot at most. */
  predicate PiecesEnd(pieces: seq<Piece>, digits: bool) {
    && pieces != [] && pieces[0].Character?
    && if IsDigit(pieces[0].c) then PiecesEnd(pieces[1..], true) else !(digits && pieces[0].c == '}')
  }

  predicate SafePieces(pieces: seq<Piece>) {
    pieces == [] || ((pieces[0] == Character('{') ==> PiecesEnd(pieces[1..], false)) && SafePieces(pieces[1..]))
  }

  lemma PrefixTail(s: string, t: string)
    requires s != "" && s <= t
    ensures t != "" && s[0] == t[0] && s[1..] <= t[1..]
  {
    assert s == t[..|s|];
  }

  lemma {:induction false} EndIsNoPlaceholder(pieces: seq<Piece>, number: string, digits: bool)
    requires PiecesEnd(pieces, digits) && AllDigits(number) && (digits || number != "")
    ensures !(number + "}" <= Text(pieces))
    decreases |number|
  {
    var c, s := pieces[0].c, number + "}";
    assert Text(pieces)[0] == c && Text(pieces)[1..] == Text(pieces[1..]);
    if number != "" && c == number[0] {
      EndIsNoPlaceholder(pieces[1..], number[1..], true);
      assert s[1..] == number[1..] + "}";
    }
    if s <= Text(pieces) {
      PrefixTail(s, Text(pieces));
    }
  }

  lemma {:induction false} SafeOnlySlots(pieces: seq<Piece>, k: nat)
    requires SafePieces(pieces)
    ensures OnlySlots(pieces, k)
    decreases |pieces|
  {
    if pieces != [] {
      SafeOnlySlots(pieces[1..], k);
      if pieces[0].Character? && Placeholder(k) <= Text(pieces) {
        var p := Placeholder(k);
        assert p[0] == '{' == Text(pieces)[0];
        DecimalDigits(k);
        TailIsPrefix('{', p, Text(pieces[1..]));
        assert p[1..] == Decimal(k) + "}";
        EndIsNoPlaceholder(pieces[1..], Decimal(k), false);
      }
    }
  }

  lemma {:induction false} CharactersEnd(s: string, rest: seq<Piece>, digits: bool)
    requires NoPlaceholderEnd(s, digits)
    ensures PiecesEnd(Characters(s) + rest, digits)
    decreases |s|
  {
    assert (Characters(s) + rest)[1..] == Characters(s[1..]) + rest;
    if IsDigit(s[0]) {
      CharactersEnd(s[1..], rest, true);
    }
  }

  lemma {:induction false} CharactersSafe(s: string, rest: seq<Piece>)
    requires SafeBraces(s) && SafePieces(rest)
    ensures SafePieces(Characters(s) + rest)
    decreases |s|
  {
    if s == "" {
      assert Characters(s) + rest == rest;
    } else {
      assert (Characters(s) + rest)[1..] == Characters(s[1..]) + rest;
      CharactersSafe(s[1..], rest);
      if s[0] == '{' {
        CharactersEnd(s[1..], rest, false);
      }
    }
  }

  lemma {:induction false} FilledEnd(pieces: seq<Piece>, args: seq<string>, digits: bool)
    requires PiecesEnd(pieces, digits)
    ensures PiecesEnd(Filled(pieces, args), digits)
    decreases |pieces|
  {
    assert Filled(pieces, args)[1..] == Filled(pieces[1..], args);
    if IsDigit(pieces[0].c) {
      FilledEnd(pieces[1..], args, true);
    }
  }

  ghost predicate AllSafe(args: seq<string>) { forall i | 0 <= i < |args| :: SafeBraces(args[i]) }

  lemma {:induction false} FilledSafe(pieces: seq<Piece>, args: seq<string>)
    requires SafePieces(pieces) && AllSafe(args)
    ensures SafePieces(Filled(pieces, args))
    decreases |pieces|
  {
    if pieces != [] {
      FilledSafe(pieces[1..], args);
      if pieces[0].Slot? && pieces[0].i < |args| {
        CharactersSafe(args[pieces[0].i], Filled(pieces[1..], args));
      } else {
        assert Filled(pieces, args)[1..] == Filled(pieces[1..], args);
        if pieces[0] == Character('{') {
          FilledEnd(pieces[1..], args, false);
        }
      }
    }
  }

  lemma {:induction false} SafeNoStrays(pieces: seq<Piece>, args: seq<string>)
    requires SafePieces(pieces) && (args != [] ==> AllSafe(args[..|args| - 1]))
    ensures NoStrays(pieces, args)
    decreases |args|
  {
    if args != [] {
      var n := |args| - 1;
      assert n > 0 ==> forall i | 0 <= i < n - 1 :: args[..n][..n - 1][i] == args[..n][i];
      SafeNoStrays(pieces, args[..n]);
      FilledSafe(pieces, args[..n]);
      SafeOnlySlots(Filled(pieces, args[..n]), n);
    }
  }

  /** With safe braces in the template's own text and in any argument but the last, replacing one after
      the other fills all slots as if at once. */
  lemma SafeBracesFill(pieces: seq<Piece>, args: seq<string>)
    requires SafePieces(pieces) && (args != [] ==> AllSafe(args[..|args| - 1]))
    ensures ApplyTemplate(Text(pieces), args) == Substituted(pieces, args)
  {
    SafeNoStrays(pieces, args);
    InStepIff(pieces, args);
  }

  ghost predicate SlotsBelow(pieces: seq<Piece>, count: nat) {
    forall i | 0 <= i < |pieces| :: pieces[i].Slot? ==> pieces[i].i < count
  }

  lemma {:induction false} SubstitutedEnd(pieces: seq<Piece>, args: seq<string>, digits: bool)
    requires PiecesEnd(pieces, digits)
    ensures NoPlaceholderEnd(Substituted(pieces, args), digits)
    decreases |pieces|
  {
    assert Substituted(pieces, args)[1..] == Substituted(pieces[1..], args);
    if IsDigit(pieces[0].c) {
      SubstitutedEnd(pieces[1..], args, true);
    }
  }

  /** A filled template is itself a safe argument. */
  lemma {:induction false} SubstitutedSafe(pieces: seq<Piece>, args: seq<string>)
    requires SafePieces(pieces) && AllSafe(args) && SlotsBelow(pieces, |args|)
    ensures SafeBraces(Substituted(pieces, args))
    decreases |pieces|
  {
    if pieces != [] {
      SubstitutedSafe(pieces[1..], args);
      if pieces[0].Slot? {
        SafeAppend(args[pieces[0].i], Substituted(pieces[1..], args));
      } else {
        assert Substituted(pieces, args)[1..] == Substituted(pieces[1..], args);
        if pieces[0] == Character('{') {
          SubstitutedEnd(pieces[1..], args, false);
        }
      }
    }
  }

  /** An argument that spells a later placeholder is filled again: of `{1}` and `last`, a template that
      asks for the first gives the second. */
  lemma ArgumentIsFilledAgain(last: string)
    ensures ApplyTemplate(Placeholder(0), [Placeholder(1), last]) == last
    ensures Substituted([Slot(0)], [Placeholder(1), last]) == Placeholder(1)
  {
    ApplyOneMore(Placeholder(0), [], Placeholder(1));
    ApplyOneMore(Placeholder(0), [Placeholder(1)], last);
    ReplaceFront(0, "", Placeholder(1));
    ReplaceFront(1, "", last);
    assert Placeholder(0) + "" == Placeholder(0) && Placeholder(1) + "" == Placeholder(1);
    assert [] + [Placeholder(1)] == [Placeholder(1)] && [Placeholder(1)] + [last] == [Placeholder(1), last];
    assert [Slot(0)][1..] == [];
  }

  lemma ReplaceWhole(k: nat, argument: string)
    ensures Replace(Placeholder(k), Placeholder(k), argument) == argument
  {
    ReplaceFront(k, "", argument);
    assert Placeholder(k) + "" == Placeholder(k);
  }

  /** Out of step and back again: `{0}` with `{1}`, `{2}` and `{1}` ends as the simultaneous substitution,
      by way of `{2}`. */
  lemma OutOfStepAndBack()
    ensures var pieces, args := [Slot(0)], [Placeholder(1), Placeholder(2), Placeholder(1)];
            && ApplyTemplate(Text(pieces), args) == Substituted(pieces, args)
            && !FillsInStep(pieces, args)
  {
    var one, two := Placeholder(1), Placeholder(2);
    var pieces, args := [Slot(0)], [one, two, one];
    assert pieces[1..] == [] && Text(pieces) == Placeholder(0);
    assert args == [one, two] + [one] && args[..2] == [one, two] == [one] + [two] && [one] == [] + [one];
    ApplyOneMore(Placeholder(0), [], one);
    ApplyOneMore(Placeholder(0), [one], two);
    ApplyOneMore(Placeholder(0), [one, two], one);
    ReplaceWhole(0, one);
    ReplaceWhole(1, two);
    ReplaceWhole(2, one);
    if one == two {
      PlaceholderApart(1, 2, "");
    }
    assert Substituted(pieces, [one, two]) == one;
  }
}
