/** Select Graphic Rendition sequences (section 8.3.117 of ECMA-48) and erasing them from a text. */
module Sgr {

  const ESC: char := '\U{1B}'

  const RESET := [ESC] + "[0m"

  predicate IsParameter(c: char) { '0' <= c <= '9' || c == ';' }

  /** First position from `i` on that holds no parameter character. */
  function ParameterEnd(s: string, i: nat): (end: nat)
    requires i <= |s|
    ensures i <= end <= |s|
    decreases |s| - i
  {
    if i < |s| && IsParameter(s[i]) then ParameterEnd(s, i + 1) else i
  }

  /** The text without its SGR sequences. */
  function EraseSgr(s: string): string
    decreases |s|
  {
    if s == "" then ""
    else if s[0] == ESC && |s| > 1 && s[1] == '[' then
      var end := ParameterEnd(s, 2);
      if end < |s| && s[end] == 'm' then EraseSgr(s[end + 1..]) else [s[0]] + EraseSgr(s[1..])
    else [s[0]] + EraseSgr(s[1..])
  }

  predicate EscapeFree(s: string) { ESC !in s }

  /** `x` is text that erases to `plain`, whatever follows it. */
  ghost predicate Erases(x: string, plain: string) {
    forall y :: EraseSgr(x + y) == plain + EraseSgr(y)
  }

  ghost predicate IsSgr(code: string) {
    && |code| > 2 && code[0] == ESC && code[1] == '[' && code[|code| - 1] == 'm'
    && forall i | 2 <= i < |code| - 1 :: IsParameter(code[i])
  }

  lemma {:induction false} ErasePlainPrefix(x: string, y: string)
    requires EscapeFree(x)
    ensures EraseSgr(x + y) == x + EraseSgr(y)
    decreases |x|
  {
    if x == "" {
      assert x + y == y;
    } else {
      assert x[0] in x && (x + y)[1..] == x[1..] + y;
      ErasePlainPrefix(x[1..], y);
    }
  }

  lemma ErasesPlain(x: string)
    requires EscapeFree(x)
    ensures Erases(x, x)
  {
    forall y ensures EraseSgr(x + y) == x + EraseSgr(y) {
      ErasePlainPrefix(x, y);
    }
  }

  lemma {:induction false} ParametersEnd(s: string, i: nat, end: nat)
    requires i <= end < |s| && !IsParameter(s[end])
    requires forall k | i <= k < end :: IsParameter(s[k])
    ensures ParameterEnd(s, i) == end
    decreases end - i
  {
    if i < end {
      ParametersEnd(s, i + 1, end);
    }
  }

  lemma EraseCode(code: string, y: string)
    requires IsSgr(code)
    ensures EraseSgr(code + y) == EraseSgr(y)
  {
    ParametersEnd(code + y, 2, |code| - 1);
    assert (code + y)[|code|..] == y;
  }

  lemma ErasesAppend(a: string, p: string, b: string, q: string)
    requires Erases(a, p) && Erases(b, q)
    ensures Erases(a + b, p + q)
  {
    forall y ensures EraseSgr((a + b) + y) == (p + q) + EraseSgr(y) {
      assert (a + b) + y == a + (b + y);
    }
  }

  lemma ResetIsSgr()
    ensures IsSgr(RESET)
  {
    assert RESET == [ESC, '['] + "0" + "m";
  }

  /** A colour before and a reset after add nothing to what a text erases to. */
  lemma ErasesAround(code: string, x: string, p: string)
    requires IsSgr(code) && Erases(x, p)
    ensures Erases(code + x + RESET, p)
  {
    forall y ensures EraseSgr((code + x + RESET) + y) == p + EraseSgr(y) {
      assert (code + x + RESET) + y == code + (x + (RESET + y));
      EraseCode(code, x + (RESET + y));
      ResetIsSgr();
      EraseCode(RESET, y);
    }
  }

  /** Text between a colour and a reset erases to the text. */
  lemma ErasesWrapped(code: string, x: string)
    requires IsSgr(code) && EscapeFree(x)
    ensures Erases(code + x + RESET, x)
  {
    ErasesPlain(x);
    ErasesAround(code, x, x);
  }

  lemma ErasesWhole(x: string, p: string)
    requires Erases(x, p)
    ensures EraseSgr(x) == p
  {
    assert x + "" == x;
    assert EraseSgr(x + "") == p + EraseSgr("");
  }
}
