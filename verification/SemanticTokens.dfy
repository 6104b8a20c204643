/** Delta encoding of semantic tokens, and the decoding the Language Server Protocol 3.17 prescribes
    ("Integer Encoding for Tokens", textDocument/semanticTokens). */
module SemanticTokens {
  import opened Wrappers
  import opened SourcePositions

  /** Token classes that the legend tells apart. */
  datatype TokenClass = Keyword | UpperName | Name | Text | Number | Other

  datatype Token = Token(lo: nat, kind: TokenClass, hi: nat)

  datatype SemanticToken = SemanticToken(deltaLine: u32, deltaStart: u32, length: u32, tokenType: u32, modifiers: u32)

  function TokenTypeIndex(kind: TokenClass): u32 {
    match kind
    case Keyword => 0
    case UpperName => 1
    case Name => 3
    case Text => 4
    case Number => 5
    case Other => 6
  }

  /** What a client computes for one token, from the place of the token before it. */
  function DecodeStep(previousLine: nat, previousStart: nat, token: SemanticToken): (nat, nat) {
    if token.deltaLine == 0 then (previousLine, previousStart + token.deltaStart)
    else (previousLine + token.deltaLine, token.deltaStart)
  }

  function Decode(data: seq<SemanticToken>, previousLine: nat, previousStart: nat): seq<(nat, nat)> {
    if data == [] then []
    else
      var place := DecodeStep(previousLine, previousStart, data[0]);
      [place] + Decode(data[1..], place.0, place.1)
  }

  /** The deltas the server writes for a token at `at` after one at `previous`. */
  ghost predicate EncodesStep(previous: LspPosition, at: LspPosition, token: SemanticToken) {
    && token.deltaLine == SaturatingSub(at.line, previous.line)
    && token.deltaStart
       == if at.line <= previous.line then SaturatingSub(at.character, previous.character) else at.character
  }

  ghost predicate EncodesAll(previous: LspPosition, places: seq<LspPosition>, data: seq<SemanticToken>)
    decreases |places|
  {
    && |data| == |places|
    && (places != [] ==> EncodesStep(previous, places[0], data[0]) && EncodesAll(places[0], places[1..], data[1..]))
  }

  ghost predicate SortedFrom(previous: LspPosition, places: seq<LspPosition>)
    decreases |places|
  {
    places != [] ==> LexLeq(previous, places[0]) && SortedFrom(places[0], places[1..])
  }

  function AsPairs(places: seq<LspPosition>): seq<(nat, nat)> {
    if places == [] then [] else [(places[0].line, places[0].character)] + AsPairs(places[1..])
  }

  lemma StepLosesNothingIff(previous: LspPosition, at: LspPosition, token: SemanticToken)
    requires EncodesStep(previous, at, token)
    ensures DecodeStep(previous.line, previous.character, token) == (at.line, at.character) <==> LexLeq(previous, at)
  {
  }

  /** The saturating subtractions lose nothing exactly when the places are in order. */
  lemma {:induction false} DecodeEncodeIff(previous: LspPosition, places: seq<LspPosition>, data: seq<SemanticToken>)
    requires EncodesAll(previous, places, data)
    ensures Decode(data, previous.line, previous.character) == AsPairs(places) <==> SortedFrom(previous, places)
    decreases |places|
  {
    if places != [] {
      var at, decoded, pairs := places[0], Decode(data, previous.line, previous.character), AsPairs(places);
      StepLosesNothingIff(previous, at, data[0]);
      DecodeEncodeIff(at, places[1..], data[1..]);
      assert decoded[0] == DecodeStep(previous.line, previous.character, data[0])
             && pairs[0] == (at.line, at.character);
      assert decoded[1..] == Decode(data[1..], decoded[0].0, decoded[0].1) && pairs[1..] == AsPairs(places[1..]);
    }
  }

  lemma {:induction false} EncodesOneMore(previous: LspPosition, places: seq<LspPosition>, data: seq<SemanticToken>,
                                          at: LspPosition, token: SemanticToken)
    requires EncodesAll(previous, places, data)
    requires EncodesStep(if places == [] then previous else places[|places| - 1], at, token)
    ensures EncodesAll(previous, places + [at], data + [token])
    decreases |places|
  {
    if places != [] {
      assert (places + [at])[1..] == places[1..] + [at] && (data + [token])[1..] == data[1..] + [token];
      EncodesOneMore(places[0], places[1..], data[1..], at, token);
    }
  }

  /** Where the server places each token. */
  function Places(source: string, tokens: seq<Token>): (places: seq<LspPosition>)
    ensures |places| == |tokens|
  {
    if tokens == [] then []
    else Places(source, tokens[..|tokens| - 1]) + [LocateForLsp(source, tokens[|tokens| - 1].lo)]
  }

  lemma PlacesOneMore(source: string, tokens: seq<Token>, k: nat)
    requires k < |tokens|
    ensures Places(source, tokens[..k + 1]) == Places(source, tokens[..k]) + [LocateForLsp(source, tokens[k].lo)]
  {
    assert tokens[..k + 1][..k] == tokens[..k];
  }

  ghost predicate TokensInOrder(tokens: seq<Token>) {
    forall i, j | 0 <= i < j < |tokens| :: tokens[i].lo <= tokens[j].lo
  }

  lemma {:induction false} SortedOneMore(previous: LspPosition, places: seq<LspPosition>, at: LspPosition)
    requires SortedFrom(previous, places)
    requires LexLeq(if places == [] then previous else places[|places| - 1], at)
    ensures SortedFrom(previous, places + [at])
    decreases |places|
  {
    if places != [] {
      assert (places + [at])[1..] == places[1..] + [at];
      SortedOneMore(places[0], places[1..], at);
    }
  }

  lemma {:induction false} PlacesSorted(source: string, tokens: seq<Token>)
    requires forall i | 0 <= i < |tokens| :: tokens[i].lo < U32_MODULUS - 1
    requires TokensInOrder(tokens)
    ensures SortedFrom(LspPosition(0, 0), Places(source, tokens))
    decreases |tokens|
  {
    if tokens != [] {
      var n := |tokens| - 1;
      PlacesSorted(source, tokens[..n]);
      if n > 0 {
        LspMonotone(source, tokens[n - 1].lo, tokens[n].lo);
        assert Places(source, tokens[..n])[n - 1] == LocateForLsp(source, tokens[n - 1].lo);
      }
      SortedOneMore(LspPosition(0, 0), Places(source, tokens[..n]), LocateForLsp(source, tokens[n].lo));
    }
  }

  /** Tokens in source order, in a text a `u32` can index, decode to exactly the places the server
      gave them, line feeds included. */
  lemma SortedTokensDecode(source: string, tokens: seq<Token>, data: seq<SemanticToken>)
    requires EncodesAll(LspPosition(0, 0), Places(source, tokens), data)
    requires forall i | 0 <= i < |tokens| :: tokens[i].lo < U32_MODULUS - 1
    requires TokensInOrder(tokens)
    ensures Decode(data, 0, 0) == AsPairs(Places(source, tokens))
  {
    PlacesSorted(source, tokens);
    DecodeEncodeIff(LspPosition(0, 0), Places(source, tokens), data);
  }

  function MakeToken(deltaLine: u32, deltaStart: u32, token: Token): SemanticToken
    requires token.lo <= token.hi
  {
    SemanticToken(deltaLine, deltaStart, AsU32(token.hi - token.lo), TokenTypeIndex(token.kind), 0)
  }

  /** Length and type are the token's own. */
  ghost predicate CarriesToken(token: Token, data: SemanticToken) {
    token.lo <= token.hi && data == MakeToken(data.deltaLine, data.deltaStart, token)
  }

  /** The names that go with the type numbers, in the legend's order. */
  const LEGEND: seq<string> := ["keyword", "namespace", "function", "variable", "string", "number", "operator"]

  function NameOf(kind: TokenClass): string {
    match kind
    case Keyword => "keyword"
    case UpperName => "namespace"
    case Name => "variable"
    case Text => "string"
    case Number => "number"
    case Other => "operator"
  }

  /** A client that looks the type up in the legend and adds the length to the token's start gets the
      name of its class and its end, as long as a `u32` holds the length. */
  lemma ClientSeesToken(token: Token, data: SemanticToken)
    requires CarriesToken(token, data) && token.hi - token.lo < U32_MODULUS
    ensures token.lo + data.length == token.hi
    ensures data.tokenType < |LEGEND| && LEGEND[data.tokenType] == NameOf(token.kind) && data.modifiers == 0
  {
  }

  /** `data` encodes the first `k` tokens. */
  ghost predicate EncodesFirst(source: string, tokens: seq<Token>, k: nat, data: seq<SemanticToken>)
    requires k <= |tokens|
  {
    && EncodesAll(LspPosition(0, 0), Places(source, tokens[..k]), data)
    && |data| == k
    && forall i | 0 <= i < k :: CarriesToken(tokens[i], data[i])
  }

  function PlaceBefore(source: string, tokens: seq<Token>, k: nat): LspPosition
    requires k <= |tokens|
  {
    if k == 0 then LspPosition(0, 0) else LocateForLsp(source, tokens[k - 1].lo)
  }

  lemma EncodesNext(source: string, tokens: seq<Token>, k: nat, data: seq<SemanticToken>, token: SemanticToken)
    requires k < |tokens| && EncodesFirst(source, tokens, k, data)
    requires EncodesStep(PlaceBefore(source, tokens, k), LocateForLsp(source, tokens[k].lo), token)
    requires CarriesToken(tokens[k], token)
    ensures EncodesFirst(source, tokens, k + 1, data + [token])
  {
    PlacesOneMore(source, tokens, k);
    if k > 0 {
      PlacesOneMore(source, tokens, k - 1);
    }
    EncodesOneMore(LspPosition(0, 0), Places(source, tokens[..k]), data, LocateForLsp(source, tokens[k].lo), token);
  }

  /** `None` stands for a lexer failure. */
  method EncodeTokens(source: string, lexed: Option<seq<Token>>) returns (data: seq<SemanticToken>)
    requires lexed.Some? ==> forall i | 0 <= i < |lexed.value| :: lexed.value[i].lo <= lexed.value[i].hi
    ensures lexed.None? ==> data == []
    ensures lexed.Some? ==> EncodesAll(LspPosition(0, 0), Places(source, lexed.value), data)
    ensures lexed.Some? ==> forall i | 0 <= i < |lexed.value| :: CarriesToken(lexed.value[i], data[i])
  {
    data := [];
    if lexed.None? {
      return;
    }
    var tokens := lexed.value;
    var table := NewlineByteIndices(source);
    var previousLine: u32, previousStart: u32 := 0, 0;
    for k := 0 to |tokens|
      invariant EncodesFirst(source, tokens, k, data)
      invariant LspPosition(previousLine, previousStart) == PlaceBefore(source, tokens, k)
    {
      var at := ByteOffsetToLsp(table, tokens[k].lo);
      var deltaLine := SaturatingSub(at.line, previousLine);
      var deltaStart := if deltaLine == 0 then SaturatingSub(at.character, previousStart) else at.character;
      var token := MakeToken(deltaLine, deltaStart, tokens[k]);
      EncodesNext(source, tokens, k, data, token);
      data := data + [token];
      previousLine, previousStart := at.line, at.character;
    }
    assert tokens[..|tokens|] == tokens;
  }
}
