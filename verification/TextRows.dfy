/** The rows of a text: what stands between its line feeds, empty rows included. */
module TextRows {
  import opened Wrappers
  import opened Strings

  /** Every text has a last row, which may be empty. */
  function Rows(s: string): (rows: seq<string>)
    ensures rows != []
  {
    if s == "" then [""]
    else if s[0] == '\n' then [""] + Rows(s[1..])
    else
      var rows := Rows(s[1..]);
      [[s[0]] + rows[0]] + rows[1..]
  }

  lemma {:induction false} OneRow(s: string)
    requires '\n' !in s
    ensures Rows(s) == [s]
    decreases |s|
  {
    if s != "" {
      assert s[0] in s;
      OneRow(s[1..]);
      assert [s[0]] + s[1..] == s;
    }
  }

  lemma {:induction false} RowsJoined(a: string, b: string)
    ensures Rows(a + "\n" + b) == Rows(a) + Rows(b)
    decreases |a|
  {
    var s := a + "\n" + b;
    if a == "" {
      assert s[0] == '\n' && s[1..] == b;
    } else {
      assert s[0] == a[0] && s[1..] == a[1..] + "\n" + b;
      RowsJoined(a[1..], b);
    }
  }

  lemma {:induction false} RowsHaveNoLineFeed(s: string)
    ensures forall i | 0 <= i < |Rows(s)| :: '\n' !in Rows(s)[i]
    decreases |s|
  {
    if s != "" {
      RowsHaveNoLineFeed(s[1..]);
    }
  }

  // ----- Lines against rows

  /** One trailing carriage return less in each row. */
  function WithoutReturns(rows: seq<string>): seq<string> {
    seq(|rows|, i requires 0 <= i < |rows| => StripCarriageReturn(rows[i]))
  }

  /** The lines of a text are its rows up to the last line feed, each without one trailing carriage
      return, and then the last row as it is, unless it is empty. */
  ghost predicate AreLinesOf(lines: seq<string>, s: string) {
    var n := |Rows(s)| - 1;
    lines == WithoutReturns(Rows(s)[..n]) + if Rows(s)[n] == "" then [] else [Rows(s)[n]]
  }

  lemma LineFeedAt(s: string, i: nat)
    requires i < |s|
    ensures OccursAt(s, "\n", i) <==> s[i] == '\n'
  {
    assert s[i..i + 1] == [s[i]];
  }

  lemma LineFeedFree(s: string, end: nat)
    requires end <= |s| && forall i | 0 <= i < end :: !OccursAt(s, "\n", i)
    ensures '\n' !in s[..end]
  {
    forall i | 0 <= i < end ensures s[i] != '\n' {
      LineFeedAt(s, i);
    }
  }

  lemma SplitAround(s: string, i: nat)
    requires i < |s|
    ensures s == s[..i] + [s[i]] + s[i + 1..]
  {
  }

  lemma FirstRow(s: string, i: nat)
    requires Find(s, "\n", 0) == Some(i)
    ensures i < |s| && '\n' !in s[..i] && s == s[..i] + "\n" + s[i + 1..]
  {
    LineFeedAt(s, i);
    LineFeedFree(s, i);
    SplitAround(s, i);
  }

  lemma FirstWithoutReturn(head: string, rows: seq<string>)
    ensures WithoutReturns([head] + rows) == [StripCarriageReturn(head)] + WithoutReturns(rows)
  {
  }

  lemma OneMoreLine(head: string, tail: string, lines: seq<string>)
    requires '\n' !in head && AreLinesOf(lines, tail)
    ensures AreLinesOf([StripCarriageReturn(head)] + lines, head + "\n" + tail)
  {
    OneRow(head);
    RowsJoined(head, tail);
    var rows, n := Rows(tail), |Rows(tail)| - 1;
    assert ([head] + rows)[..n + 1] == [head] + rows[..n];
    FirstWithoutReturn(head, rows[..n]);
    Regroup([StripCarriageReturn(head)], WithoutReturns(rows[..n]), if rows[n] == "" then [] else [rows[n]]);
  }

  lemma {:induction false} LinesAreRows(s: string)
    ensures AreLinesOf(Lines(s), s)
    decreases |s|
  {
    if s != "" {
      match Find(s, "\n", 0) {
        case None =>
          LineFeedFree(s, |s|);
          assert s[..|s|] == s;
          OneRow(s);
        case Some(i) =>
          FirstRow(s, i);
          LinesAreRows(s[i + 1..]);
          OneMoreLine(s[..i], s[i + 1..], Lines(s[i + 1..]));
      }
    }
  }

  lemma LinesHaveNoLineFeed(s: string)
    ensures forall i | 0 <= i < |Lines(s)| :: '\n' !in Lines(s)[i]
  {
    LinesAreRows(s);
    RowsHaveNoLineFeed(s);
  }

  // ----- Trimming

  predicate AllWhite(s: string) { forall i | 0 <= i < |s| :: IsWhitespace(s[i]) }

  lemma {:induction false} TrimStartCuts(s: string) returns (before: string)
    ensures s == before + TrimStart(s) && AllWhite(before)
    ensures TrimStart(s) != "" ==> !IsWhitespace(TrimStart(s)[0])
    decreases |s|
  {
    if s != "" && IsWhitespace(s[0]) {
      before := TrimStartCuts(s[1..]);
      before := [s[0]] + before;
      assert s == [s[0]] + s[1..];
    } else {
      before := "";
    }
  }

  lemma {:induction false} TrimEndCuts(s: string) returns (after: string)
    ensures s == TrimEnd(s) + after && AllWhite(after)
    ensures TrimEnd(s) != "" ==> !IsWhitespace(TrimEnd(s)[|TrimEnd(s)| - 1])
    decreases |s|
  {
    if s != "" && IsWhitespace(s[|s| - 1]) {
      after := TrimEndCuts(s[..|s| - 1]);
      after := after + [s[|s| - 1]];
      assert s == s[..|s| - 1] + [s[|s| - 1]];
    } else {
      after := "";
    }
  }

  /** Trimming cuts white space off both ends, and all of it. */
  lemma TrimExactly(s: string) returns (before: string, after: string)
    ensures s == before + Trim(s) + after && AllWhite(before) && AllWhite(after)
    ensures Trim(s) != "" ==> !IsWhitespace(Trim(s)[0]) && !IsWhitespace(Trim(s)[|Trim(s)| - 1])
  {
    before := TrimStartCuts(s);
    after := TrimEndCuts(TrimStart(s));
    assert Trim(s) != "" ==> Trim(s)[0] == TrimStart(s)[0];
  }
}
