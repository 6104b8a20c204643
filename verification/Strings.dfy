/** The Rust text operations the models use, over any element type: substring search,
    left-to-right non-overlapping replacement, and splitting into lines. */
module Strings {
  import opened Wrappers

  /** Concatenation associates; stated alone, to keep it out of larger proofs. */
  lemma Regroup<T>(a: seq<T>, b: seq<T>, c: seq<T>)
    ensures a + (b + c) == (a + b) + c
  {
  }

  predicate EndsWith(s: string, suffix: string) {
    |suffix| <= |s| && s[|s| - |suffix|..] == suffix
  }

  predicate OccursAt<T(==)>(s: seq<T>, pattern: seq<T>, i: nat) {
    i + |pattern| <= |s| && s[i..i + |pattern|] == pattern
  }

  predicate Contains<T(==)>(s: seq<T>, pattern: seq<T>) {
    exists i | 0 <= i <= |s| :: OccursAt(s, pattern, i)
  }

  /** `str::find` on the tail starting at `from`, with the index counted in `s`. */
  function Find<T(==)>(s: seq<T>, pattern: seq<T>, from: nat): (r: Option<nat>)
    ensures r.None? ==> forall i | from <= i :: !OccursAt(s, pattern, i)
    ensures r.Some? ==> from <= r.value && OccursAt(s, pattern, r.value)
    ensures r.Some? ==> forall i | from <= i < r.value :: !OccursAt(s, pattern, i)
    decreases |s| - from
  {
    if |s| < from + |pattern| then None
    else if OccursAt(s, pattern, from) then Some(from)
    else Find(s, pattern, from + 1)
  }

  /** `str::replace`: every leftmost non-overlapping occurrence of `pattern`. */
  function Replace<T(==)>(s: seq<T>, pattern: seq<T>, replacement: seq<T>): seq<T>
    requires pattern != []
    decreases |s|
  {
    if s == [] then []
    else if pattern <= s then replacement + Replace(s[|pattern|..], pattern, replacement)
    else [s[0]] + Replace(s[1..], pattern, replacement)
  }

  /** An occurrence is a prefix or lies in the tail. */
  lemma ContainsStep<T>(s: seq<T>, pattern: seq<T>)
    requires s != [] && pattern != []
    ensures Contains(s, pattern) <==> pattern <= s || Contains(s[1..], pattern)
  {
    if pattern <= s {
      assert OccursAt(s, pattern, 0);
    }
    if Contains(s[1..], pattern) {
      var i :| 0 <= i <= |s[1..]| && OccursAt(s[1..], pattern, i);
      assert s[1..][i..i + |pattern|] == s[i + 1..i + 1 + |pattern|];
      assert OccursAt(s, pattern, i + 1);
    }
    if Contains(s, pattern) && !(pattern <= s) {
      var i :| 0 <= i <= |s| && OccursAt(s, pattern, i);
      assert i > 0;
      assert s[1..][i - 1..i - 1 + |pattern|] == s[i..i + |pattern|];
      assert OccursAt(s[1..], pattern, i - 1);
    }
  }

  lemma {:induction false} ReplaceWithoutOccurrence<T>(s: seq<T>, pattern: seq<T>, replacement: seq<T>)
    requires pattern != [] && !Contains(s, pattern)
    ensures Replace(s, pattern, replacement) == s
    decreases |s|
  {
    if s != [] {
      ContainsStep(s, pattern);
      ReplaceWithoutOccurrence(s[1..], pattern, replacement);
    }
  }

  /** One trailing `\r`, when it stood before the line feed, is not part of the line. */
  function StripCarriageReturn(line: string): string {
    if line != "" && line[|line| - 1] == '\r' then line[..|line| - 1] else line
  }

  /** `str::lines`: no empty last line after a final line feed. */
  function Lines(text: string): seq<string>
    decreases |text|
  {
    if text == "" then []
    else match Find(text, "\n", 0)
         case None => [text]
         case Some(i) => [StripCarriageReturn(text[..i])] + Lines(text[i + 1..])
  }

  /** `char::is_whitespace`: the Unicode White_Space characters. */
  predicate IsWhitespace(c: char) {
    var n := c as int;
    || 0x09 <= n <= 0x0D || n == 0x20 || n == 0x85 || n == 0xA0 || n == 0x1680
    || 0x2000 <= n <= 0x200A || n == 0x2028 || n == 0x2029 || n == 0x202F || n == 0x205F || n == 0x3000
  }

  function TrimStart(s: string): string {
    if s != "" && IsWhitespace(s[0]) then TrimStart(s[1..]) else s
  }

  function TrimEnd(s: string): string {
    if s != "" && IsWhitespace(s[|s| - 1]) then TrimEnd(s[..|s| - 1]) else s
  }

  function Trim(s: string): string { TrimEnd(TrimStart(s)) }
}
