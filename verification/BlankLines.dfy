/** The two bounded passes of `build.rs` that collapse runs of blank lines: sixty-four rounds of
    a non-overlapping replacement first for CRLF line ends, then for LF line ends. */
module BlankLines {
  import opened Strings

  const ROUNDS: nat := 64

  /** The longest run of line ends that sixty-four rounds reduce to two. */
  const LONGEST_COLLAPSIBLE_RUN: nat := 301970036319

  predicate IsLineEnd(u: string) { u == "\n" || u == "\r\n" }

  function Repeat(u: string, n: nat): string {
    if n == 0 then "" else u + Repeat(u, n - 1)
  }

  function Double(u: string): string { u + u }

  function Triple(u: string): string { u + u + u }

  /** Length of the run of `u` that starts `s`, in units. */
  function RunLength(u: string, s: string): nat
    requires u != ""
    decreases |s|
  {
    if u <= s then 1 + RunLength(u, s[|u|..]) else 0
  }

  function AfterRun(u: string, s: string): (rest: string)
    requires u != ""
    ensures |rest| <= |s| && (u <= s ==> |rest| < |s|)
    ensures !(u <= rest)
    decreases |s|
  {
    if u <= s then AfterRun(u, s[|u|..]) else s
  }

  /** The text with every maximal run of `k` units made a run of `f(k)` units and every other
      character kept where it is. */
  function MapRuns(u: string, s: string, f: nat -> nat): string
    requires u != ""
    decreases |s|
  {
    if s == "" then ""
    else if u <= s then Repeat(u, f(RunLength(u, s))) + MapRuns(u, AfterRun(u, s), f)
    else [s[0]] + MapRuns(u, s[1..], f)
  }

  function AtMostTwo(): nat -> nat { k => if k < 2 then k else 2 }

  /** What `r` rounds make of a run of `k` units. */
  function Shrink(r: nat, k: nat): nat {
    if r == 0 then k else var m := Shrink(r - 1, k); m - m / 3
  }

  function Shrunk(r: nat): nat -> nat { k => Shrink(r, k) }

  /** The longest run that `r` rounds bring down to at most `target` units. */
  function Grow(r: nat, target: nat): nat {
    if r == 0 then target else Grow(r - 1, 3 * target / 2)
  }

  // ----- Arithmetic of one run

  lemma {:induction false} ShrinkBelowIff(r: nat, k: nat, target: nat)
    ensures Shrink(r, k) <= target <==> k <= Grow(r, target)
    decreases r
  {
    if r > 0 {
      var m := Shrink(r - 1, k);
      assert m - m / 3 <= target <==> m <= 3 * target / 2;
      ShrinkBelowIff(r - 1, k, 3 * target / 2);
    }
  }

  lemma {:induction false} ShrinkKeepsTwo(r: nat, k: nat)
    ensures k <= 2 ==> Shrink(r, k) == k
    ensures 2 <= k ==> 2 <= Shrink(r, k) <= k
    decreases r
  {
    if r > 0 {
      ShrinkKeepsTwo(r - 1, k);
    }
  }

  lemma GrowFour(r: nat, t: nat, a: nat, b: nat, c: nat, d: nat)
    requires 2 * a <= 3 * t <= 2 * a + 1 && 2 * b <= 3 * a <= 2 * b + 1
    requires 2 * c <= 3 * b <= 2 * c + 1 && 2 * d <= 3 * c <= 2 * d + 1
    ensures Grow(r + 4, t) == Grow(r, d)
  {
    assert Grow(r + 4, t) == Grow(r + 3, a) == Grow(r + 2, b) == Grow(r + 1, c) == Grow(r, d);
  }

  lemma GrowFirstHalf(r: nat)
    ensures Grow(r + 32, 2) == Grow(r, 699913)
  {
    GrowFour(r + 28, 2, 3, 4, 6, 9);
    GrowFour(r + 24, 9, 13, 19, 28, 42);
    GrowFour(r + 20, 42, 63, 94, 141, 211);
    GrowFour(r + 16, 211, 316, 474, 711, 1066);
    GrowFour(r + 12, 1066, 1599, 2398, 3597, 5395);
    GrowFour(r + 8, 5395, 8092, 12138, 18207, 27310);
    GrowFour(r + 4, 27310, 40965, 61447, 92170, 138255);
    GrowFour(r, 138255, 207382, 311073, 466609, 699913);
  }

  lemma GrowSecondHalf(r: nat)
    ensures Grow(r + 32, 699913) == Grow(r, 301970036319)
  {
    GrowFour(r + 28, 699913, 1049869, 1574803, 2362204, 3543306);
    GrowFour(r + 24, 3543306, 5314959, 7972438, 11958657, 17937985);
    GrowFour(r + 20, 17937985, 26906977, 40360465, 60540697, 90811045);
    GrowFour(r + 16, 90811045, 136216567, 204324850, 306487275, 459730912);
    GrowFour(r + 12, 459730912, 689596368, 1034394552, 1551591828, 2327387742);
    GrowFour(r + 8, 2327387742, 3491081613, 5236622419, 7854933628, 11782400442);
    GrowFour(r + 4, 11782400442, 17673600663, 26510400994, 39765601491, 59648402236);
    GrowFour(r, 59648402236, 89472603354, 134208905031, 201313357546, 301970036319);
  }

  lemma LimitOfSixtyFourRounds()
    ensures Grow(ROUNDS, 2) == LONGEST_COLLAPSIBLE_RUN
    ensures 0x20_0000_0000 <= LONGEST_COLLAPSIBLE_RUN
  {
    GrowFirstHalf(32);
    GrowSecondHalf(0);
  }

  /** A map on run lengths that never removes a run and keeps single line ends single. */
  ghost predicate KeepsShortRuns(f: nat -> nat) {
    forall k: nat :: (f(k) == 0 <==> k == 0) && (f(k) == 1 <==> k == 1)
  }

  lemma ShrunkKeepsShortRuns(r: nat)
    ensures KeepsShortRuns(Shrunk(r))
  {
    forall k: nat ensures (Shrunk(r)(k) == 0 <==> k == 0) && (Shrunk(r)(k) == 1 <==> k == 1) {
      ShrinkKeepsTwo(r, k);
    }
  }

  // ----- Runs inside a text

  lemma {:induction false} SplitRun(u: string, s: string)
    requires u != ""
    ensures s == Repeat(u, RunLength(u, s)) + AfterRun(u, s)
    decreases |s|
  {
    if u <= s {
      SplitRun(u, s[|u|..]);
      assert s == u + s[|u|..];
    }
  }

  lemma RepeatThen(u: string, n: nat, t: string)
    requires n > 0
    ensures Repeat(u, n) + t == u + (Repeat(u, n - 1) + t)
  {
  }

  lemma PrefixTransitive(a: string, b: string, c: string)
    requires a <= b
    ensures b <= c ==> a <= c
  {
    if b <= c {
      assert a == b[..|a|] == c[..|a|];
    }
  }

  /** A run followed by something else begins with exactly the shorter runs. */
  lemma {:induction false} RepeatIsPrefixIff(u: string, n: nat, k: nat, t: string)
    requires IsLineEnd(u) && !(u <= t)
    ensures Repeat(u, n) <= Repeat(u, k) + t <==> n <= k
  {
    if n > 0 {
      if k == 0 {
        assert Repeat(u, k) + t == t;
        PrefixTransitive(u, Repeat(u, n), t);
      } else {
        var rest := Repeat(u, k - 1) + t;
        RepeatThen(u, k, t);
        assert Repeat(u, n) == u + Repeat(u, n - 1);
        assert (u + rest)[|u|..] == rest;
        assert (u + Repeat(u, n - 1))[|u|..] == Repeat(u, n - 1);
        if Repeat(u, n) <= u + rest {
          assert Repeat(u, n - 1) == Repeat(u, n)[|u|..]
              == (u + rest)[|u|..|Repeat(u, n)|] == rest[..|Repeat(u, n - 1)|];
        }
        if Repeat(u, n - 1) <= rest {
          assert rest[..|Repeat(u, n - 1)|] == Repeat(u, n - 1);
          assert (u + rest)[..|Repeat(u, n)|] == u + rest[..|Repeat(u, n - 1)|];
        }
        RepeatIsPrefixIff(u, n - 1, k - 1, t);
      }
    }
  }

  /** A run of `k` units followed by something else contains `n` units in a row exactly when
      `n <= k` or what follows does. */
  lemma {:induction false} RunContains(u: string, k: nat, t: string, n: nat)
    requires IsLineEnd(u) && !(u <= t) && n > 0
    ensures Contains(Repeat(u, k) + t, Repeat(u, n)) <==> n <= k || Contains(t, Repeat(u, n))
    decreases k
  {
    var p := Repeat(u, n);
    assert p == u + Repeat(u, n - 1);
    if k == 0 {
      assert Repeat(u, k) + t == t;
    } else {
      var rest := Repeat(u, k - 1) + t;
      var s := u + rest;
      RepeatThen(u, k, t);
      RepeatIsPrefixIff(u, n, k, t);
      ContainsStep(s, p);
      if u == "\n" {
        assert s[1..] == rest;
      } else {
        assert s[1..] == "\n" + rest;
        ContainsStep(s[1..], p);
        assert s[1..][1..] == rest;
        assert p[0] == '\r';
      }
      RunContains(u, k - 1, t, n);
    }
  }

  /** A run ends where it must: mapping the runs keeps where each run starts. */
  lemma {:induction false} MapRunsHead(u: string, s: string, f: nat -> nat)
    requires IsLineEnd(u) && KeepsShortRuns(f)
    ensures MapRuns(u, s, f) == "" <==> s == ""
    ensures s != "" ==> MapRuns(u, s, f)[0] == s[0]
    ensures u <= MapRuns(u, s, f) <==> u <= s
    decreases |s|
  {
    if s != "" {
      if u <= s {
        assert f(RunLength(u, s)) > 0;
        RepeatThen(u, f(RunLength(u, s)), MapRuns(u, AfterRun(u, s), f));
      } else {
        MapRunsHead(u, s[1..], f);
      }
    }
  }

  // ----- One round is one replacement

  lemma TwoMore(u: string, k: nat)
    ensures Repeat(u, k + 2) == Double(u) + Repeat(u, k)
  {
    var rest := Repeat(u, k);
    assert Repeat(u, k + 2) == u + (u + rest);
  }

  lemma ThreeMore(u: string, k: nat)
    ensures Repeat(u, k + 3) == Triple(u) + Repeat(u, k)
  {
    TwoMore(u, k);
    assert Repeat(u, k + 3) == u + Repeat(u, k + 2);
  }

  lemma RepeatThreeIsTriple(u: string)
    ensures Repeat(u, 3) == Triple(u)
  {
    ThreeMore(u, 0);
  }

  lemma ReplaceAtFront(pattern: string, rest: string, replacement: string)
    requires pattern != ""
    ensures Replace(pattern + rest, pattern, replacement) == replacement + Replace(rest, pattern, replacement)
  {
    assert (pattern + rest)[|pattern|..] == rest;
  }

  lemma ReplaceUnit(u: string, t: string)
    requires IsLineEnd(u) && !(Triple(u) <= u + t)
    ensures Replace(u + t, Triple(u), Double(u)) == u + Replace(t, Triple(u), Double(u))
  {
    if u == "\n" {
      assert (u + t)[1..] == t;
    } else {
      assert (u + t)[1..] == "\n" + t;
      assert Triple(u)[0] == '\r' && ("\n" + t)[0] == '\n';
      assert ("\n" + t)[1..] == t;
      assert Replace("\n" + t, Triple(u), Double(u)) == "\n" + Replace(t, Triple(u), Double(u));
    }
  }

  lemma ReplaceThreeUnits(u: string, k: nat, t: string)
    requires IsLineEnd(u)
    ensures Replace(Repeat(u, k + 3) + t, Triple(u), Double(u))
         == Double(u) + Replace(Repeat(u, k) + t, Triple(u), Double(u))
  {
    ThreeMore(u, k);
    assert Repeat(u, k + 3) + t == Triple(u) + (Repeat(u, k) + t);
    ReplaceAtFront(Triple(u), Repeat(u, k) + t, Double(u));
  }

  /** One `replace` turns a run of `m` line ends before `t` into `n` of them. */
  ghost predicate TurnsRunInto(u: string, m: nat, n: nat, t: string)
    requires IsLineEnd(u)
  {
    Replace(Repeat(u, m) + t, Triple(u), Double(u)) == Repeat(u, n) + Replace(t, Triple(u), Double(u))
  }

  lemma ReplaceShortRun(u: string, m: nat, t: string)
    requires IsLineEnd(u) && !(u <= t) && 0 < m < 3
    requires TurnsRunInto(u, m - 1, m - 1, t)
    ensures TurnsRunInto(u, m, m, t)
  {
    RepeatThreeIsTriple(u);
    RepeatIsPrefixIff(u, 3, m, t);
    RepeatThen(u, m, t);
    ReplaceUnit(u, Repeat(u, m - 1) + t);
    Regroup(u, Repeat(u, m - 1), Replace(t, Triple(u), Double(u)));
  }

  lemma ReplaceNoRun(u: string, t: string)
    requires IsLineEnd(u)
    ensures TurnsRunInto(u, 0, 0, t)
  {
    assert Repeat(u, 0) + t == t;
  }

  lemma ReplaceLongRun(u: string, k: nat, j: nat, t: string)
    requires IsLineEnd(u)
    requires TurnsRunInto(u, k, j, t)
    ensures TurnsRunInto(u, k + 3, j + 2, t)
  {
    var rest := Replace(t, Triple(u), Double(u));
    calc {
      Replace(Repeat(u, k + 3) + t, Triple(u), Double(u));
      { ReplaceThreeUnits(u, k, t); }
      Double(u) + (Repeat(u, j) + rest);
      { Regroup(Double(u), Repeat(u, j), rest); }
      (Double(u) + Repeat(u, j)) + rest;
      { TwoMore(u, j); }
      Repeat(u, j + 2) + rest;
    }
  }

  lemma {:induction false} RunTurnedInto(u: string, m: nat, n: nat, t: string)
    requires IsLineEnd(u) && !(u <= t)
    requires n == m - m / 3
    ensures TurnsRunInto(u, m, n, t)
    decreases m
  {
    if m == 0 {
      ReplaceNoRun(u, t);
    } else if m < 3 {
      RunTurnedInto(u, m - 1, n - 1, t);
      ReplaceShortRun(u, m, t);
    } else {
      RunTurnedInto(u, m - 3, n - 2, t);
      ReplaceLongRun(u, m - 3, n - 2, t);
    }
  }

  /** One `replace` turns a run of `m` line ends into m - m/3 of them. */
  lemma ReplaceRun(u: string, m: nat, n: nat, t: string)
    requires IsLineEnd(u) && !(u <= t)
    requires n == m - m / 3
    ensures Replace(Repeat(u, m) + t, Triple(u), Double(u)) == Repeat(u, n) + Replace(t, Triple(u), Double(u))
  {
    RunTurnedInto(u, m, n, t);
  }

  lemma {:induction false} OneRound(u: string, s: string, f: nat -> nat, g: nat -> nat)
    requires IsLineEnd(u) && KeepsShortRuns(f)
    requires forall k: nat :: g(k) == f(k) - f(k) / 3
    ensures Replace(MapRuns(u, s, f), Triple(u), Double(u)) == MapRuns(u, s, g)
    decreases |s|
  {
    if s != "" {
      if u <= s {
        var rest := AfterRun(u, s);
        MapRunsHead(u, rest, f);
        ReplaceRun(u, f(RunLength(u, s)), g(RunLength(u, s)), MapRuns(u, rest, f));
        OneRound(u, rest, f, g);
      } else {
        var m := MapRuns(u, s, f);
        MapRunsHead(u, s, f);
        PrefixTransitive(u, Triple(u), m);
        assert m[1..] == MapRuns(u, s[1..], f);
        OneRound(u, s[1..], f, g);
      }
    }
  }

  // ----- What runs a mapped text contains

  /** Mapping runs turns the question "n in a row?" into "n' in a row?" of the original text. */
  lemma {:induction false} MappedContains(u: string, s: string, f: nat -> nat, n: nat, n': nat)
    requires IsLineEnd(u) && KeepsShortRuns(f) && n > 0 && n' > 0
    requires forall k: nat :: n <= f(k) <==> n' <= k
    ensures Contains(MapRuns(u, s, f), Repeat(u, n)) <==> Contains(s, Repeat(u, n'))
    decreases |s|
  {
    assert Repeat(u, n) == u + Repeat(u, n - 1) && Repeat(u, n') == u + Repeat(u, n' - 1);
    if s != "" {
      if u <= s {
        var rest, k := AfterRun(u, s), RunLength(u, s);
        SplitRun(u, s);
        MapRunsHead(u, rest, f);
        RunContains(u, k, rest, n');
        RunContains(u, f(k), MapRuns(u, rest, f), n);
        MappedContains(u, rest, f, n, n');
      } else {
        var m := MapRuns(u, s, f);
        MapRunsHead(u, s, f);
        PrefixTransitive(u, Repeat(u, n), m);
        PrefixTransitive(u, Repeat(u, n'), s);
        assert m[1..] == MapRuns(u, s[1..], f);
        ContainsStep(s, Repeat(u, n'));
        ContainsStep(m, Repeat(u, n));
        MappedContains(u, s[1..], f, n, n');
      }
    }
  }

  /** Two maps that agree on every run the text contains give the same text. */
  lemma {:induction false} MapRunsAgree(u: string, s: string, f: nat -> nat, g: nat -> nat, longest: nat)
    requires IsLineEnd(u) && !Contains(s, Repeat(u, longest + 1))
    requires forall k: nat | k <= longest :: f(k) == g(k)
    ensures MapRuns(u, s, f) == MapRuns(u, s, g)
    decreases |s|
  {
    var p := Repeat(u, longest + 1);
    assert p == u + Repeat(u, longest);
    if s != "" {
      if u <= s {
        SplitRun(u, s);
        RunContains(u, RunLength(u, s), AfterRun(u, s), longest + 1);
        MapRunsAgree(u, AfterRun(u, s), f, g, longest);
      } else {
        ContainsStep(s, p);
        MapRunsAgree(u, s[1..], f, g, longest);
      }
    }
  }

  // ----- The LF pass neither makes nor removes runs of CRLF, and the other way round

  lemma LfRunThenReturn(k: nat, t: string, c: string)
    requires k > 0 && (c == "" || c[0] == '\r')
    ensures "\n" + c <= Repeat("\n", k) + t <==> c == "" || (k == 1 && c <= t)
  {
    RepeatThen("\n", k, t);
    var rest := Repeat("\n", k - 1) + t;
    assert ("\n" + rest)[1..] == rest && ("\n" + c)[1..] == c;
    assert "\n" + c <= "\n" + rest <==> c <= rest by {
      if c <= rest {
        assert rest[..|c|] == c;
      }
      if "\n" + c <= "\n" + rest {
        assert c == ("\n" + c)[1..] == ("\n" + rest)[1..1 + |c|];
      }
    }
    if k > 1 {
      RepeatThen("\n", k - 1, t);
    } else {
      assert rest == t;
    }
  }

  lemma {:induction false} LfMapKeepsCrlfPrefix(s: string, f: nat -> nat, n: nat)
    requires KeepsShortRuns(f)
    ensures Repeat("\r\n", n) <= MapRuns("\n", s, f) <==> Repeat("\r\n", n) <= s
    decreases n
  {
    MapRunsHead("\n", s, f);
    if n > 0 && s != "" && s[0] == '\r' {
      var c, tail := Repeat("\r\n", n - 1), s[1..];
      assert Repeat("\r\n", n) == "\r" + ("\n" + c);
      AfterReturn(c, s);
      AfterReturn(c, MapRuns("\n", s, f));
      assert MapRuns("\n", s, f)[1..] == MapRuns("\n", tail, f);
      LfMapKeepsCrlfPrefix(AfterRun("\n", tail), f, n - 1);
      LfMapKeepsLfThen(tail, f, c);
    }
  }

  lemma LfMapKeepsLfThen(s: string, f: nat -> nat, c: string)
    requires KeepsShortRuns(f) && (c == "" || c[0] == '\r')
    requires c <= MapRuns("\n", AfterRun("\n", s), f) <==> c <= AfterRun("\n", s)
    ensures "\n" + c <= MapRuns("\n", s, f) <==> "\n" + c <= s
  {
    MapRunsHead("\n", s, f);
    SplitRun("\n", s);
    var k, t := RunLength("\n", s), AfterRun("\n", s);
    if k > 0 {
      LfRunThenReturn(k, t, c);
      LfRunThenReturn(f(k), MapRuns("\n", t, f), c);
    }
  }

  lemma AfterReturn(c: string, s: string)
    requires s != "" && s[0] == '\r'
    ensures "\r" + ("\n" + c) <= s <==> "\n" + c <= s[1..]
  {
    var p := "\r" + ("\n" + c);
    assert p[1..] == "\n" + c;
    if p <= s {
      assert p[1..] == s[1..|p|] == s[1..][..|p| - 1];
    }
    if "\n" + c <= s[1..] {
      assert s[..|p|] == [s[0]] + s[1..][..|p| - 1];
    }
  }

  lemma {:induction false} LfRunIsSkipped(k: nat, t: string, p: string)
    requires p != "" && p[0] == '\r'
    ensures Contains(Repeat("\n", k) + t, p) <==> Contains(t, p)
  {
    if k == 0 {
      assert Repeat("\n", k) + t == t;
    } else {
      RepeatThen("\n", k, t);
      ContainsStep(Repeat("\n", k) + t, p);
      assert ("\n" + (Repeat("\n", k - 1) + t))[1..] == Repeat("\n", k - 1) + t;
      LfRunIsSkipped(k - 1, t, p);
    }
  }

  lemma {:induction false} LfMapKeepsCrlf(s: string, f: nat -> nat, n: nat)
    requires KeepsShortRuns(f) && n > 0
    ensures Contains(MapRuns("\n", s, f), Repeat("\r\n", n)) <==> Contains(s, Repeat("\r\n", n))
    decreases |s|
  {
    var p, m := Repeat("\r\n", n), MapRuns("\n", s, f);
    assert p[0] == '\r';
    if s != "" {
      if "\n" <= s {
        var t := AfterRun("\n", s);
        SplitRun("\n", s);
        LfRunIsSkipped(RunLength("\n", s), t, p);
        LfRunIsSkipped(f(RunLength("\n", s)), MapRuns("\n", t, f), p);
        LfMapKeepsCrlf(t, f, n);
      } else {
        ContainsStep(s, p);
        ContainsStep(m, p);
        assert m[1..] == MapRuns("\n", s[1..], f);
        LfMapKeepsCrlfPrefix(s, f, n);
        LfMapKeepsCrlf(s[1..], f, n);
      }
    }
  }

  lemma LfPrefixStep(n: nat, s: string)
    requires n > 0
    ensures Repeat("\n", n) <= s <==> s != "" && s[0] == '\n' && Repeat("\n", n - 1) <= s[1..]
  {
    var p := Repeat("\n", n);
    assert p == "\n" + Repeat("\n", n - 1) && p[1..] == Repeat("\n", n - 1);
    if s != "" {
      assert p <= s ==> p[1..] == s[1..|p|] == s[1..][..|p| - 1];
      assert |p| <= |s| ==> s[..|p|] == [s[0]] + s[1..][..|p| - 1];
    }
  }

  lemma {:induction false} CrlfMapKeepsLfPrefix(s: string, f: nat -> nat, n: nat)
    requires KeepsShortRuns(f)
    ensures Repeat("\n", n) <= MapRuns("\r\n", s, f) <==> Repeat("\n", n) <= s
    decreases n
  {
    if n > 0 {
      MapRunsHead("\r\n", s, f);
      LfPrefixStep(n, s);
      LfPrefixStep(n, MapRuns("\r\n", s, f));
      if s != "" && s[0] == '\n' {
        CrlfMapKeepsLfPrefix(s[1..], f, n - 1);
      }
    }
  }

  lemma CrlfThenContainsLf(rest: string, n: nat)
    requires n > 0
    ensures Contains("\r\n" + rest, Repeat("\n", n)) <==> Repeat("\n", n - 1) <= rest || Contains(rest, Repeat("\n", n))
  {
    var p, s, lf := Repeat("\n", n), "\r\n" + rest, "\n" + rest;
    assert p[0] == '\n';
    assert s[1..] == lf && lf[1..] == rest;
    ContainsStep(s, p);
    ContainsStep(lf, p);
    LfPrefixStep(n, lf);
  }

  /** The last line feed of a CRLF run can open a run of line feeds; the others stand alone. */
  lemma {:induction false} CrlfRunContainsLf(k: nat, t: string, n: nat)
    requires k > 0 && n > 0
    ensures Contains(Repeat("\r\n", k) + t, Repeat("\n", n))
       <==> n == 1 || Repeat("\n", n - 1) <= t || Contains(t, Repeat("\n", n))
    decreases k
  {
    var rest := Repeat("\r\n", k - 1) + t;
    RepeatThen("\r\n", k, t);
    CrlfThenContainsLf(rest, n);
    if k == 1 {
      assert rest == t;
    } else {
      RepeatThen("\r\n", k - 1, t);
      if n > 1 {
        LfPrefixStep(n - 1, rest);
      }
      CrlfRunContainsLf(k - 1, t, n);
    }
  }

  lemma {:induction false} CrlfMapKeepsLf(s: string, f: nat -> nat, n: nat)
    requires KeepsShortRuns(f) && n > 0
    ensures Contains(MapRuns("\r\n", s, f), Repeat("\n", n)) <==> Contains(s, Repeat("\n", n))
    decreases |s|
  {
    var p, m := Repeat("\n", n), MapRuns("\r\n", s, f);
    assert p[0] == '\n';
    if s != "" {
      if "\r\n" <= s {
        var t, k := AfterRun("\r\n", s), RunLength("\r\n", s);
        SplitRun("\r\n", s);
        CrlfRunContainsLf(k, t, n);
        CrlfRunContainsLf(f(k), MapRuns("\r\n", t, f), n);
        CrlfMapKeepsLfPrefix(t, f, n - 1);
        CrlfMapKeepsLf(t, f, n);
      } else {
        ContainsStep(s, p);
        ContainsStep(m, p);
        assert m[1..] == MapRuns("\r\n", s[1..], f);
        CrlfMapKeepsLfPrefix(s, f, n);
        CrlfMapKeepsLf(s[1..], f, n);
      }
    }
  }

  // ----- The two passes

  /** The text after both sixty-four-round passes. */
  function Collapsed(s: string): string {
    MapRuns("\n", MapRuns("\r\n", s, Shrunk(ROUNDS)), Shrunk(ROUNDS))
  }

  ghost predicate WithinLimit(u: string, s: string) {
    !Contains(s, Repeat(u, LONGEST_COLLAPSIBLE_RUN + 1))
  }

  lemma ZeroRounds(u: string, s: string)
    requires IsLineEnd(u)
    ensures MapRuns(u, s, Shrunk(0)) == s
    decreases |s|
  {
    if s != "" {
      if u <= s {
        SplitRun(u, s);
        ZeroRounds(u, AfterRun(u, s));
      } else {
        ZeroRounds(u, s[1..]);
      }
    }
  }

  /** One more round of `Replace`, whether or not anything was left to replace. */
  lemma NextRound(u: string, s: string, r: nat)
    requires IsLineEnd(u)
    ensures Replace(MapRuns(u, s, Shrunk(r)), Triple(u), Double(u)) == MapRuns(u, s, Shrunk(r + 1))
  {
    ShrunkKeepsShortRuns(r);
    OneRound(u, s, Shrunk(r), Shrunk(r + 1));
  }

  /** Once no triple is left, the remaining rounds would change nothing. */
  lemma {:induction false} EarlyExit(u: string, s: string, r: nat, rounds: nat)
    requires IsLineEnd(u) && r <= rounds
    requires !Contains(MapRuns(u, s, Shrunk(r)), Triple(u))
    ensures MapRuns(u, s, Shrunk(rounds)) == MapRuns(u, s, Shrunk(r))
    decreases rounds - r
  {
    if r < rounds {
      NextRound(u, s, r);
      ReplaceWithoutOccurrence(MapRuns(u, s, Shrunk(r)), Triple(u), Double(u));
      EarlyExit(u, s, r + 1, rounds);
    }
  }

  /** One pass leaves no triple exactly when no run is longer than the limit, and then every run
      of `k` line ends has become a run of min(k, 2). */
  lemma PassOutcome(u: string, s: string)
    requires IsLineEnd(u)
    ensures !Contains(MapRuns(u, s, Shrunk(ROUNDS)), Triple(u)) <==> WithinLimit(u, s)
    ensures WithinLimit(u, s) ==> MapRuns(u, s, Shrunk(ROUNDS)) == MapRuns(u, s, AtMostTwo())
  {
    LimitOfSixtyFourRounds();
    ShrunkKeepsShortRuns(ROUNDS);
    forall k: nat ensures 3 <= Shrunk(ROUNDS)(k) <==> LONGEST_COLLAPSIBLE_RUN + 1 <= k {
      ShrinkBelowIff(ROUNDS, k, 2);
    }
    RepeatThreeIsTriple(u);
    MappedContains(u, s, Shrunk(ROUNDS), 3, LONGEST_COLLAPSIBLE_RUN + 1);
    if WithinLimit(u, s) {
      forall k: nat | k <= LONGEST_COLLAPSIBLE_RUN ensures Shrunk(ROUNDS)(k) == AtMostTwo()(k) {
        ShrinkBelowIff(ROUNDS, k, 2);
        ShrinkKeepsTwo(ROUNDS, k);
      }
      MapRunsAgree(u, s, Shrunk(ROUNDS), AtMostTwo(), LONGEST_COLLAPSIBLE_RUN);
    }
  }

  /** Neither triple is left exactly when the input's own runs were within the limit; then both
      passes together are "keep at most two of each run", CRLF first. */
  lemma CollapseOutcome(s: string)
    ensures !Contains(Collapsed(s), Triple("\r\n")) && !Contains(Collapsed(s), Triple("\n"))
       <==> WithinLimit("\r\n", s) && WithinLimit("\n", s)
    ensures WithinLimit("\r\n", s) && WithinLimit("\n", s) ==>
              Collapsed(s) == MapRuns("\n", MapRuns("\r\n", s, AtMostTwo()), AtMostTwo())
  {
    var f := Shrunk(ROUNDS);
    var first := MapRuns("\r\n", s, f);
    ShrunkKeepsShortRuns(ROUNDS);
    RepeatThreeIsTriple("\r\n");
    PassOutcome("\r\n", s);
    PassOutcome("\n", first);
    LfMapKeepsCrlf(first, f, 3);
    CrlfMapKeepsLf(s, f, LONGEST_COLLAPSIBLE_RUN + 1);
  }

  lemma LineFeedOutcome(s: string)
    ensures Contains(Collapsed(s), Triple("\n")) <==> !WithinLimit("\n", s)
  {
    var f := Shrunk(ROUNDS);
    ShrunkKeepsShortRuns(ROUNDS);
    PassOutcome("\n", MapRuns("\r\n", s, f));
    CrlfMapKeepsLf(s, f, LONGEST_COLLAPSIBLE_RUN + 1);
  }

  /** One line feed more than the limit is too many: a blank line is left. */
  lemma OverlongRunStays(s: string)
    requires s == Repeat("\n", LONGEST_COLLAPSIBLE_RUN + 1)
    ensures Contains(Collapsed(s), Triple("\n"))
  {
    LineFeedOutcome(s);
    assert s[0..0 + |s|] == s && OccursAt(s, s, 0);
  }

  /** The nested bounded loops: for each pattern, replace until none is left, at most 64 times. */
  method CollapseBlankLines(text: string) returns (s: string)
    ensures s == Collapsed(text)
    ensures WithinLimit("\r\n", text) && WithinLimit("\n", text) <==>
              !Contains(s, "\r\n\r\n\r\n") && !Contains(s, "\n\n\n")
  {
    s := text;
    var patterns := [("\r\n\r\n\r\n", "\r\n\r\n"), ("\n\n\n", "\n\n")];
    for i := 0 to |patterns|
      invariant i == 0 ==> s == text
      invariant i == 1 ==> s == MapRuns("\r\n", text, Shrunk(ROUNDS))
      invariant i == 2 ==> s == Collapsed(text)
    {
      var (pattern, replacement) := patterns[i];
      ghost var u := if i == 0 then "\r\n" else "\n";
      ghost var before := s;
      assert pattern == Triple(u) && replacement == Double(u);
      ZeroRounds(u, before);
      for round := 0 to ROUNDS
        invariant s == MapRuns(u, before, Shrunk(round))
      {
        if !Contains(s, pattern) {
          EarlyExit(u, before, round, ROUNDS);
          break;
        }
        NextRound(u, before, round);
        s := Replace(s, pattern, replacement);
      }
    }
    CollapseOutcome(text);
    assert Triple("\r\n") == "\r\n\r\n\r\n" && Triple("\n") == "\n\n\n";
  }
}
