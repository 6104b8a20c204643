/** `lsp_unused.rs`: which top-level values are unreachable from the root declarations. A set of used
    ids grows in place, round after round over the declarations, up to a fixed number of rounds. */
module UnusedValues {
  import opened Wrappers
  import opened Strings
  import opened Elaborated
  import opened SourcePositions

  // ----- One pass over bindings

  /** Visiting a binding marks what its body names, if the binding itself is marked. */
  function Visit(b: ValueBinding, used: set<nat>): set<nat> {
    if b.id in used then used + NamedIds(b.body) else used
  }

  function Pass(bs: seq<ValueBinding>, used: set<nat>): set<nat> {
    if bs == [] then used else Visit(bs[|bs| - 1], Pass(bs[..|bs| - 1], used))
  }

  function Rounds(bs: seq<ValueBinding>, roots: set<nat>, r: nat): set<nat> {
    if r == 0 then roots else Pass(bs, Rounds(bs, roots, r - 1))
  }

  lemma PassOneMore(bs: seq<ValueBinding>, b: ValueBinding, used: set<nat>)
    ensures Pass(bs + [b], used) == Visit(b, Pass(bs, used))
  {
    assert (bs + [b])[..|bs|] == bs;
  }

  lemma {:induction false} PassGrows(bs: seq<ValueBinding>, used: set<nat>, i: nat, j: nat)
    requires i <= j <= |bs|
    ensures used <= Pass(bs[..i], used) <= Pass(bs[..j], used)
    decreases j
  {
    if i < j {
      PassGrows(bs, used, i, j - 1);
      assert bs[..j][..j - 1] == bs[..j - 1];
    } else if j > 0 {
      PassGrows(bs, used, j - 1, j - 1);
      assert bs[..j][..j - 1] == bs[..j - 1];
    }
  }

  lemma {:induction false} RoundsGrow(bs: seq<ValueBinding>, roots: set<nat>, r: nat, s: nat)
    requires r <= s
    ensures Rounds(bs, roots, r) <= Rounds(bs, roots, s)
    decreases s
  {
    if r < s {
      RoundsGrow(bs, roots, r, s - 1);
      PassGrows(bs, Rounds(bs, roots, s - 1), |bs|, |bs|);
      assert bs[..|bs|] == bs;
    }
  }

  lemma {:induction false} RoundsStable(bs: seq<ValueBinding>, roots: set<nat>, r: nat, s: nat)
    requires r <= s
    requires Rounds(bs, roots, r + 1) == Rounds(bs, roots, r)
    ensures Rounds(bs, roots, s) == Rounds(bs, roots, r)
    decreases s
  {
    if r < s {
      RoundsStable(bs, roots, r, s - 1);
    }
  }

  // ----- Reachability, by walks over the bindings

  /** The walk `w`, a list of positions in `bs`, reaches an id: the last binding names it, and the
      rest of the walk reaches that binding's own id. The empty walk reaches the roots. */
  ghost predicate Reaches(bs: seq<ValueBinding>, roots: set<nat>, w: seq<nat>, id: nat) {
    if w == [] then id in roots
    else
      var j := w[|w| - 1];
      j < |bs| && id in NamedIds(bs[j].body) && Reaches(bs, roots, w[..|w| - 1], bs[j].id)
  }

  ghost predicate Reachable(bs: seq<ValueBinding>, roots: set<nat>, id: nat) {
    exists w :: Reaches(bs, roots, w, id)
  }

  /** Number of ascending runs of a walk: one more than its backward steps. */
  function AscendingRuns(w: seq<nat>): (runs: nat)
    ensures w != [] ==> 0 < runs
  {
    if w == [] then 0
    else if |w| == 1 then 1
    else AscendingRuns(w[..|w| - 1]) + if w[|w| - 2] < w[|w| - 1] then 0 else 1
  }

  /** Reachable by a walk of at most `r` ascending runs. */
  ghost predicate ReachableWithin(bs: seq<ValueBinding>, roots: set<nat>, id: nat, r: nat) {
    exists w :: Reaches(bs, roots, w, id) && AscendingRuns(w) <= r
  }

  lemma WalkOneMore(bs: seq<ValueBinding>, roots: set<nat>, w: seq<nat>, j: nat, id: nat)
    requires j < |bs| && Reaches(bs, roots, w, bs[j].id) && id in NamedIds(bs[j].body)
    ensures Reaches(bs, roots, w + [j], id)
    ensures AscendingRuns(w + [j]) == if w != [] && w[|w| - 1] < j then AscendingRuns(w) else AscendingRuns(w) + 1
  {
    assert (w + [j])[..|w|] == w;
  }

  /** What one pass has marked before position `j` is reached by a walk that still has its last run
      below `j`, or has a run to spare. */
  lemma {:induction false} PassIsReached(bs: seq<ValueBinding>, roots: set<nat>, r: nat, j: nat, id: nat)
      returns (w: seq<nat>)
    requires j <= |bs| && id in Pass(bs[..j], Rounds(bs, roots, r))
    ensures Reaches(bs, roots, w, id)
    ensures AscendingRuns(w) <= r || (AscendingRuns(w) == r + 1 && w[|w| - 1] < j)
    decreases r, j
  {
    if j == 0 {
      if r == 0 {
        w := [];
      } else {
        assert bs[..|bs|] == bs;
        w := PassIsReached(bs, roots, r - 1, |bs|, id);
      }
    } else {
      assert bs[..j][..j - 1] == bs[..j - 1];
      if id in Pass(bs[..j - 1], Rounds(bs, roots, r)) {
        w := PassIsReached(bs, roots, r, j - 1, id);
      } else {
        var w' := PassIsReached(bs, roots, r, j - 1, bs[j - 1].id);
        WalkOneMore(bs, roots, w', j - 1, id);
        w := w' + [j - 1];
      }
    }
  }

  /** An id at the end of a walk of at most `r` ascending runs is marked as soon as round `r` has
      visited the walk's last binding. */
  lemma {:induction false} WalkIsMarked(bs: seq<ValueBinding>, roots: set<nat>, w: seq<nat>, id: nat, r: nat)
    requires w != [] && Reaches(bs, roots, w, id) && AscendingRuns(w) <= r
    ensures r > 0 && id in Pass(bs[..w[|w| - 1] + 1], Rounds(bs, roots, r - 1))
    decreases |w|
  {
    var j, w' := w[|w| - 1], w[..|w| - 1];
    var start := Rounds(bs, roots, r - 1);
    assert bs[j].id in Pass(bs[..j], start) by {
      PassGrows(bs, start, 0, j);
      if w' == [] {
        RoundsGrow(bs, roots, 0, r - 1);
      } else {
        var i := w'[|w'| - 1];
        if i < j {
          WalkIsMarked(bs, roots, w', bs[j].id, r);
          PassGrows(bs, start, i + 1, j);
        } else {
          WalkIsMarked(bs, roots, w', bs[j].id, r - 1);
          PassGrows(bs, Rounds(bs, roots, r - 2), i + 1, |bs|);
          assert bs[..|bs|] == bs;
        }
      }
    }
    assert bs[..j + 1][..j] == bs[..j];
  }

  /** `r` rounds mark exactly the ids that a walk of at most `r` ascending runs reaches. */
  lemma RoundsMarkExactly(bs: seq<ValueBinding>, roots: set<nat>, r: nat, id: nat)
    ensures id in Rounds(bs, roots, r) <==> ReachableWithin(bs, roots, id, r)
  {
    if id in Rounds(bs, roots, r) {
      var w := PassIsReached(bs, roots, r, 0, id);
    }
    if ReachableWithin(bs, roots, id, r) {
      var w :| Reaches(bs, roots, w, id) && AscendingRuns(w) <= r;
      if w == [] {
        RoundsGrow(bs, roots, 0, r);
      } else {
        var j := w[|w| - 1];
        WalkIsMarked(bs, roots, w, id, r);
        PassGrows(bs, Rounds(bs, roots, r - 1), j + 1, |bs|);
        assert bs[..|bs|] == bs;
      }
    }
  }

  // ----- How many rounds can add something

  /** Positions whose binding is marked when a pass visits it. */
  function Live(bs: seq<ValueBinding>, used: set<nat>): set<nat> {
    set j | 0 <= j < |bs| && bs[j].id in Pass(bs[..j], used)
  }

  lemma {:induction false} PassMonotone(bs: seq<ValueBinding>, used: set<nat>, more: set<nat>)
    requires used <= more
    ensures Pass(bs, used) <= Pass(bs, more)
    decreases |bs|
  {
    if bs != [] {
      PassMonotone(bs[..|bs| - 1], used, more);
    }
  }

  lemma LiveBodiesMarked(bs: seq<ValueBinding>, used: set<nat>, j: nat)
    requires j in Live(bs, used)
    ensures NamedIds(bs[j].body) <= Pass(bs, used)
  {
    assert bs[..j + 1][..j] == bs[..j];
    PassGrows(bs, used, j + 1, |bs|);
    assert bs[..|bs|] == bs;
  }

  /** A pass adds nothing outside a set that holds the bodies of the live bindings. */
  lemma {:induction false} PassWithin(bs: seq<ValueBinding>, used: set<nat>, bound: set<nat>, k: nat)
    requires k <= |bs| && used <= bound
    requires forall j | j in Live(bs, used) :: NamedIds(bs[j].body) <= bound
    ensures Pass(bs[..k], used) <= bound
    decreases k
  {
    if k > 0 {
      PassWithin(bs, used, bound, k - 1);
      assert bs[..k][..k - 1] == bs[..k - 1];
      assert bs[k - 1].id in Pass(bs[..k - 1], used) ==> k - 1 in Live(bs, used);
    }
  }

  lemma SubsetSize(a: set<nat>, b: set<nat>)
    requires a <= b
    ensures |a| <= |b| && (|a| == |b| <==> a == b)
  {
    assert b == a + (b - a) && a !! (b - a);
  }

  lemma {:induction false} SizeBelow(a: set<nat>, n: nat)
    requires forall x | x in a :: x < n
    ensures |a| <= n
    decreases n
  {
    if n > 0 {
      SizeBelow(a - {n - 1}, n - 1);
    }
  }

  /** Round `r` + 1 either adds nothing or finds more than `r` bindings live: each expanding round
      strictly enlarges the set of live bindings. */
  lemma {:induction false} ExpandingRoundsEnlargeLive(bs: seq<ValueBinding>, roots: set<nat>, r: nat)
    ensures Rounds(bs, roots, r + 1) == Rounds(bs, roots, r) || r < |Live(bs, Rounds(bs, roots, r))|
    decreases r
  {
    var now := Rounds(bs, roots, r);
    var live := Live(bs, now);
    assert bs[..|bs|] == bs;
    PassGrows(bs, now, 0, |bs|);
    if live == {} {
      PassWithin(bs, now, now, |bs|);
    } else if r > 0 {
      var before := Rounds(bs, roots, r - 1);
      RoundsGrow(bs, roots, r - 1, r);
      forall j | j in Live(bs, before) ensures j in live {
        PassMonotone(bs[..j], before, now);
      }
      SubsetSize(Live(bs, before), live);
      ExpandingRoundsEnlargeLive(bs, roots, r - 1);
      if Live(bs, before) == live {
        forall j | j in live ensures NamedIds(bs[j].body) <= now {
          LiveBodiesMarked(bs, before, j);
        }
        PassWithin(bs, now, now, |bs|);
      }
    }
  }

  /** As many rounds as there are bindings always reach a set that further rounds leave alone. */
  lemma EnoughRounds(bs: seq<ValueBinding>, roots: set<nat>, r: nat)
    requires |bs| <= r
    ensures Rounds(bs, roots, r + 1) == Rounds(bs, roots, r)
  {
    ExpandingRoundsEnlargeLive(bs, roots, r);
    SizeBelow(Live(bs, Rounds(bs, roots, r)), |bs|);
  }

  // ----- The least closed set

  ghost predicate Closed(bs: seq<ValueBinding>, ids: set<nat>) {
    forall j | 0 <= j < |bs| && bs[j].id in ids :: NamedIds(bs[j].body) <= ids
  }

  lemma StableIsClosed(bs: seq<ValueBinding>, ids: set<nat>)
    requires Pass(bs, ids) == ids
    ensures Closed(bs, ids)
  {
    forall j | 0 <= j < |bs| && bs[j].id in ids ensures NamedIds(bs[j].body) <= ids {
      PassGrows(bs, ids, 0, j);
      LiveBodiesMarked(bs, ids, j);
    }
  }

  lemma {:induction false} RoundsWithinClosed(bs: seq<ValueBinding>, roots: set<nat>, r: nat, ids: set<nat>)
    requires roots <= ids && Closed(bs, ids)
    ensures Rounds(bs, roots, r) <= ids
    decreases r
  {
    if r > 0 {
      RoundsWithinClosed(bs, roots, r - 1, ids);
      PassMonotone(bs, Rounds(bs, roots, r - 1), ids);
      assert bs[..|bs|] == bs;
      PassStaysInClosed(bs, ids, |bs|);
    }
  }

  lemma {:induction false} PassStaysInClosed(bs: seq<ValueBinding>, ids: set<nat>, k: nat)
    requires k <= |bs| && Closed(bs, ids)
    ensures Pass(bs[..k], ids) == ids
    decreases k
  {
    if k > 0 {
      PassStaysInClosed(bs, ids, k - 1);
      assert bs[..k][..k - 1] == bs[..k - 1];
    }
  }

  /** As many rounds as bindings compute the least set that holds the roots and, with a binding, all
      that its body names. */
  lemma RoundsAreLeastClosed(bs: seq<ValueBinding>, roots: set<nat>, r: nat)
    requires |bs| <= r
    ensures roots <= Rounds(bs, roots, r) && Closed(bs, Rounds(bs, roots, r))
    ensures forall ids: set<nat> | roots <= ids && Closed(bs, ids) :: Rounds(bs, roots, r) <= ids
  {
    RoundsGrow(bs, roots, 0, r);
    EnoughRounds(bs, roots, r);
    StableIsClosed(bs, Rounds(bs, roots, r));
    forall ids: set<nat> | roots <= ids && Closed(bs, ids) ensures Rounds(bs, roots, r) <= ids {
      RoundsWithinClosed(bs, roots, r, ids);
    }
  }

  // ----- The capped computation

  const USIZE_MAX: nat := 0xFFFF_FFFF_FFFF_FFFF

  /** `max(64 * len, 512)`, the product saturating. */
  function FixpointRoundCap(declarations: nat): nat {
    Max(Min(declarations * 64, USIZE_MAX), 512)
  }

  /** The cap in figures, for any number of declarations that fits in memory. */
  lemma CapInFigures(declarations: nat)
    requires declarations <= 0x200_0000_0000_0000
    ensures declarations <= 8 ==> FixpointRoundCap(declarations) == 512
    ensures 8 <= declarations ==> FixpointRoundCap(declarations) == 64 * declarations
  {
  }

  /** The ids the analysis ends with. */
  function Used(file: File): set<nat> {
    Rounds(ValueBindings(file), RootIdsOfAll(file), FixpointRoundCap(|file|))
  }

  ghost predicate ReachableIn(file: File, id: nat) {
    Reachable(ValueBindings(file), RootIdsOfAll(file), id)
  }

  /** Whatever the cap, the roots are used and only reachable ids are; all reachable ids are used
      exactly when each has a walk of no more ascending runs than the cap allows rounds. */
  lemma UsedAgainstReachable(file: File)
    ensures RootIdsOfAll(file) <= Used(file)
    ensures forall id | id in Used(file) :: ReachableIn(file, id)
    ensures (forall id | ReachableIn(file, id) :: id in Used(file))
       <==> forall id | ReachableIn(file, id) ::
              ReachableWithin(ValueBindings(file), RootIdsOfAll(file), id, FixpointRoundCap(|file|))
  {
    var bs, roots, cap := ValueBindings(file), RootIdsOfAll(file), FixpointRoundCap(|file|);
    RoundsGrow(bs, roots, 0, cap);
    forall id: nat ensures id in Used(file) <==> ReachableWithin(bs, roots, id, cap) {
      RoundsMarkExactly(bs, roots, cap, id);
    }
  }

  /** A reachable id is in every closed set that holds the roots. */
  lemma {:induction false} ReachedInClosed(bs: seq<ValueBinding>, roots: set<nat>, w: seq<nat>, id: nat, ids: set<nat>)
    requires Reaches(bs, roots, w, id) && roots <= ids && Closed(bs, ids)
    ensures id in ids
    decreases |w|
  {
    if w != [] {
      ReachedInClosed(bs, roots, w[..|w| - 1], bs[w[|w| - 1]].id, ids);
    }
  }

  /** With no more bindings than rounds, used means reachable. */
  lemma FewBindingsSuffice(file: File)
    requires |ValueBindings(file)| <= FixpointRoundCap(|file|)
    ensures forall id :: id in Used(file) <==> ReachableIn(file, id)
  {
    var bs, roots := ValueBindings(file), RootIdsOfAll(file);
    UsedAgainstReachable(file);
    RoundsAreLeastClosed(bs, roots, FixpointRoundCap(|file|));
    forall id | ReachableIn(file, id) ensures id in Used(file) {
      var w :| Reaches(bs, roots, w, id);
      ReachedInClosed(bs, roots, w, id, Used(file));
    }
  }

  // ----- The cap can be too small

  /** A name of its own for each member. */
  function MemberName(j: nat): (name: string)
    ensures |name| == j + 1
  {
    if j == 0 then "v" else MemberName(j - 1) + "v"
  }

  /** `val rec v = first and vv = fn x => v x and vvv = fn x => vv x ...`, with consecutive ids. */
  function ChainGroup(base: nat, n: nat, first: Expression): seq<RecBinding> {
    seq(n, j requires 0 <= j < n =>
      RecBinding(MemberName(j), base + j, if j == 0 then first else Abs(App(Named(base + j - 1), Rel(0)))))
  }

  /** Such a group, a task that runs its last member, and whatever follows. */
  function ChainFile(base: nat, n: nat, first: Expression, span: Span, rest: File): File
    requires n > 0
  {
    [LocatedDeclaration(ValRec(ChainGroup(base, n, first)), span),
     LocatedDeclaration(Task(ModProj, Named(base + n - 1)), span)] + rest
  }

  predicate InGroup(base: nat, n: nat, id: nat) { base <= id < base + n }

  ghost predicate NamesNone(ids: set<nat>, base: nat, n: nat) { forall id: nat | InGroup(base, n, id) :: id !in ids }

  /** Of the group, the ids hold only the member before number `j`. */
  ghost predicate NamesBefore(ids: set<nat>, base: nat, n: nat, j: nat) {
    forall id: nat | InGroup(base, n, id) :: id in ids <==> id + 1 == base + j
  }

  /** Nothing in the bindings names or redefines a member. */
  ghost predicate AvoidsGroup(bs: seq<ValueBinding>, base: nat, n: nat) {
    forall k | 0 <= k < |bs| :: !InGroup(base, n, bs[k].id) && NamesNone(NamedIds(bs[k].body), base, n)
  }

  /** Nothing in the file does. */
  ghost predicate FileAvoidsGroup(file: File, base: nat, n: nat) {
    NamesNone(RootIdsOfAll(file), base, n) && AvoidsGroup(ValueBindings(file), base, n)
  }

  /** Members with consecutive ids, each naming none of the group but the one before. */
  ghost predicate IsChain(bs: seq<ValueBinding>, base: nat, n: nat) {
    |bs| == n && forall j | 0 <= j < n :: bs[j].id == base + j && NamesBefore(NamedIds(bs[j].body), base, n, j)
  }

  /** The bindings begin with the group; of the group only the last member is a root. */
  ghost predicate IsReverseChain(bs: seq<ValueBinding>, roots: set<nat>, base: nat, n: nat) {
    && 0 < n <= |bs|
    && IsChain(bs[..n], base, n) && AvoidsGroup(bs[n..], base, n)
    && NamesBefore(roots, base, n, n)
  }

  lemma {:induction false} BindingsConcat(a: File, b: File)
    ensures ValueBindings(a + b) == ValueBindings(a) + ValueBindings(b)
    decreases |b|
  {
    if b == [] {
      assert a + b == a;
    } else {
      var init, last := b[..|b| - 1], b[|b| - 1];
      BindingsConcat(a, init);
      assert (a + b)[..|a + b| - 1] == a + init;
      Regroup(ValueBindings(a), ValueBindings(init), BindingsOf(last));
    }
  }

  lemma {:induction false} RootIdsConcat(a: File, b: File)
    ensures RootIdsOfAll(a + b) == RootIdsOfAll(a) + RootIdsOfAll(b)
    decreases |b|
  {
    if b == [] {
      assert a + b == a;
    } else {
      RootIdsConcat(a, b[..|b| - 1]);
      assert (a + b)[..|a + b| - 1] == a + b[..|b| - 1];
    }
  }

  lemma TwoDeclarations(a: LocatedDeclaration, b: LocatedDeclaration)
    ensures ValueBindings([a, b]) == BindingsOf(a) + BindingsOf(b)
    ensures RootIdsOfAll([a, b]) == RootIdsOfLocated(a) + RootIdsOfLocated(b)
  {
    var file := [a, b];
    assert file[..1] == [a] && [a][..0] == [];
    assert ValueBindings([a]) == [] + BindingsOf(a) && RootIdsOfAll([a]) == {} + RootIdsOfLocated(a);
  }

  lemma ChainBody(base: nat, n: nat, first: Expression, j: nat)
    requires j < n && NamesNone(NamedIds(first), base, n)
    ensures NamesBefore(NamedIds(ChainGroup(base, n, first)[j].body), base, n, j)
  {
    if j > 0 {
      var call := App(Named(base + j - 1), Rel(0));
      assert NamedIds(call) == {base + j - 1} + {};
      assert NamedIds(Abs(call)) == NamedIds(call);
    }
  }

  lemma ChainGroupIsChain(base: nat, n: nat, first: Expression, span: Span)
    requires NamesNone(NamedIds(first), base, n)
    ensures IsChain(RecBindings(LocatedDeclaration(ValRec(ChainGroup(base, n, first)), span), n), base, n)
  {
    forall j | 0 <= j < n ensures NamesBefore(NamedIds(ChainGroup(base, n, first)[j].body), base, n, j) {
      ChainBody(base, n, first, j);
    }
  }

  lemma GroupBindings(group: LocatedDeclaration, task: LocatedDeclaration)
    requires group.node.ValRec? && task.node.Task?
    ensures ValueBindings([group, task]) == RecBindings(group, |group.node.bindings|)
  {
    TwoDeclarations(group, task);
  }

  lemma ChainBindings(base: nat, n: nat, first: Expression, span: Span, rest: File)
    requires n > 0
    ensures ValueBindings(ChainFile(base, n, first, span, rest))
         == RecBindings(LocatedDeclaration(ValRec(ChainGroup(base, n, first)), span), n) + ValueBindings(rest)
  {
    var group := LocatedDeclaration(ValRec(ChainGroup(base, n, first)), span);
    var task := LocatedDeclaration(Task(ModProj, Named(base + n - 1)), span);
    GroupBindings(group, task);
    BindingsConcat([group, task], rest);
  }

  lemma TaskRoots(base: nat, n: nat, group: LocatedDeclaration, span: Span)
    requires n > 0 && group.node.ValRec?
    ensures RootIdsOfAll([group, LocatedDeclaration(Task(ModProj, Named(base + n - 1)), span)]) == {base + n - 1}
  {
    var task := Task(ModProj, Named(base + n - 1));
    TwoDeclarations(group, LocatedDeclaration(task, span));
    assert NamedIds(ModProj) == {} && RootIds(group.node) == {};
    assert RootIds(task) == {} + {base + n - 1};
  }

  lemma ChainRoots(base: nat, n: nat, first: Expression, span: Span, rest: File)
    requires n > 0
    ensures RootIdsOfAll(ChainFile(base, n, first, span, rest)) == {base + n - 1} + RootIdsOfAll(rest)
  {
    var group := LocatedDeclaration(ValRec(ChainGroup(base, n, first)), span);
    TaskRoots(base, n, group, span);
    RootIdsConcat([group, LocatedDeclaration(Task(ModProj, Named(base + n - 1)), span)], rest);
  }

  lemma ChainFileIsChain(base: nat, n: nat, first: Expression, span: Span, rest: File)
    requires n > 0 && NamesNone(NamedIds(first), base, n) && FileAvoidsGroup(rest, base, n)
    ensures var file := ChainFile(base, n, first, span, rest);
            && IsReverseChain(ValueBindings(file), RootIdsOfAll(file), base, n)
            && ValueBindings(file)[0].span == span && ValueBindings(file)[0].id == base
  {
    var bs := ValueBindings(ChainFile(base, n, first, span, rest));
    var own := RecBindings(LocatedDeclaration(ValRec(ChainGroup(base, n, first)), span), n);
    ChainGroupIsChain(base, n, first, span);
    ChainBindings(base, n, first, span, rest);
    ChainRoots(base, n, first, span, rest);
    assert bs[..n] == own && bs[n..] == ValueBindings(rest);
    assert bs[0] == own[0];
  }

  /** Who names a member of the group, and who is one. */
  lemma ChainLink(bs: seq<ValueBinding>, roots: set<nat>, base: nat, n: nat, j: nat, id: nat)
    requires IsReverseChain(bs, roots, base, n) && InGroup(base, n, id) && j < |bs|
    ensures id in NamedIds(bs[j].body) <==> j < n && id + 1 == base + j
    ensures j < n ==> bs[j].id == base + j
  {
    if j < n {
      assert bs[..n][j] == bs[j];
    } else {
      assert bs[n..][j - n] == bs[j];
    }
  }

  /** A walk to a member starts at the last one and steps back all the way, one run a step. */
  lemma {:induction false} ChainWalkRuns(bs: seq<ValueBinding>, roots: set<nat>, base: nat, n: nat, w: seq<nat>,
                                          id: nat)
    requires IsReverseChain(bs, roots, base, n) && InGroup(base, n, id) && Reaches(bs, roots, w, id)
    ensures AscendingRuns(w) == base + n - 1 - id
    ensures w != [] ==> w[|w| - 1] == id + 1 - base
    decreases |w|
  {
    if w != [] {
      ChainLink(bs, roots, base, n, w[|w| - 1], id);
      ChainWalkRuns(bs, roots, base, n, w[..|w| - 1], id + 1);
    }
  }

  lemma {:induction false} ChainWalk(bs: seq<ValueBinding>, roots: set<nat>, base: nat, n: nat, id: nat)
      returns (w: seq<nat>)
    requires IsReverseChain(bs, roots, base, n) && InGroup(base, n, id)
    ensures Reaches(bs, roots, w, id)
    decreases base + n - id
  {
    if id == base + n - 1 {
      w := [];
    } else {
      var j := id + 1 - base;
      var w' := ChainWalk(bs, roots, base, n, id + 1);
      ChainLink(bs, roots, base, n, j, id);
      w := w' + [j];
      assert w[..|w'|] == w';
    }
  }

  /** So each round marks one more member, from the last to the first. */
  lemma ChainRounds(bs: seq<ValueBinding>, roots: set<nat>, base: nat, n: nat, r: nat, id: nat)
    requires IsReverseChain(bs, roots, base, n) && InGroup(base, n, id)
    ensures Reachable(bs, roots, id)
    ensures id in Rounds(bs, roots, r) <==> base + n - 1 - id <= r
  {
    var w := ChainWalk(bs, roots, base, n, id);
    ChainWalkRuns(bs, roots, base, n, w, id);
    RoundsMarkExactly(bs, roots, r, id);
    if v :| Reaches(bs, roots, v, id) && AscendingRuns(v) <= r {
      ChainWalkRuns(bs, roots, base, n, v, id);
    }
  }

  /** In a file that begins with such a group the first member is reachable, and found exactly when the
      group has no more than one member more than the cap allows rounds. */
  lemma CapCanBeTooSmall(base: nat, n: nat, first: Expression, span: Span, rest: File)
    requires n > 0 && NamesNone(NamedIds(first), base, n) && FileAvoidsGroup(rest, base, n)
    ensures var file := ChainFile(base, n, first, span, rest);
            ReachableIn(file, base) && (base in Used(file) <==> n <= FixpointRoundCap(2 + |rest|) + 1)
  {
    var file := ChainFile(base, n, first, span, rest);
    ChainFileIsChain(base, n, first, span, rest);
    ChainRounds(ValueBindings(file), RootIdsOfAll(file), base, n, FixpointRoundCap(|file|), base);
  }

  /** Alone in its file, a chain of 513 functions is found to the end and one of 514 is not. */
  lemma ShortFileChain(base: nat, n: nat, first: Expression, span: Span)
    requires n > 0 && NamesNone(NamedIds(first), base, n)
    ensures base in Used(ChainFile(base, n, first, span, [])) <==> n <= 513
  {
    CapCanBeTooSmall(base, n, first, span, []);
    CapInFigures(2);
  }

  /** Each declaration's bindings come after those of the declarations before it. */
  lemma BindingsInOrder(before: File, d: LocatedDeclaration, after: File)
    ensures ValueBindings(before + [d] + after) == ValueBindings(before) + BindingsOf(d) + ValueBindings(after)
  {
    BindingsConcat(before + [d], after);
    assert (before + [d])[..|before|] == before;
  }

  // ----- The set that grows in place

  class IdSet {
    var ids: set<nat>

    constructor ()
      ensures ids == {}
    {
      ids := {};
    }

    method Insert(id: nat)
      modifies this
      ensures ids == old(ids) + {id}
    {
      ids := ids + {id};
    }
  }

  method CollectNamedIdsExpr(e: Expression, s: IdSet)
    modifies s
    ensures s.ids == old(s.ids) + NamedIds(e)
    decreases e
  {
    match e {
      case Named(id) => s.Insert(id);
      case Rel(_) | Prim | ModProj | Error | Hole =>
      case App(f, a) =>
        CollectNamedIdsExpr(f, s);
        CollectNamedIdsExpr(a, s);
      case Abs(b) => CollectNamedIdsExpr(b, s);
      case CApp(b) => CollectNamedIdsExpr(b, s);
      case CAbs(b) => CollectNamedIdsExpr(b, s);
      case KAbs(b) => CollectNamedIdsExpr(b, s);
      case KApp(b) => CollectNamedIdsExpr(b, s);
      case Record(fields) => CollectNamedIdsOfAll(fields, s);
      case Field(b) => CollectNamedIdsExpr(b, s);
      case Concat(l, r) =>
        CollectNamedIdsExpr(l, s);
        CollectNamedIdsExpr(r, s);
      case Cut(b) => CollectNamedIdsExpr(b, s);
      case CutMulti(b) => CollectNamedIdsExpr(b, s);
      case Case(d, arms) =>
        CollectNamedIdsExpr(d, s);
        CollectNamedIdsOfAll(arms, s);
      case Unif(solution) =>
        if solution.Some? {
          CollectNamedIdsExpr(solution.value, s);
        }
      case Let(bindings, b) =>
        for i := 0 to |bindings|
          invariant s.ids == old(s.ids) + NamedIdsOfBindings(bindings[..i])
        {
          match bindings[i] {
            case LetVal(value) => CollectNamedIdsExpr(value, s);
            case LetValRec(values) => CollectNamedIdsOfAll(values, s);
          }
          assert bindings[..i + 1][..i] == bindings[..i];
        }
        assert bindings[..|bindings|] == bindings;
        CollectNamedIdsExpr(b, s);
    }
  }

  method CollectNamedIdsOfAll(es: seq<Expression>, s: IdSet)
    modifies s
    ensures s.ids == old(s.ids) + NamedIdsOfAll(es)
    decreases es
  {
    for i := 0 to |es|
      invariant s.ids == old(s.ids) + NamedIdsOfAll(es[..i])
    {
      CollectNamedIdsExpr(es[i], s);
      assert es[..i + 1][..i] == es[..i];
    }
    assert es[..|es|] == es;
  }

  /** The walk over a signature meets no expression, so it marks nothing. */
  method CollectNamedFromSignatureRoots(signature: Signature, s: IdSet)
    modifies s
    ensures s.ids == old(s.ids)
    decreases signature
  {
    match signature {
      case SignatureConst(items) =>
        for i := 0 to |items|
          invariant s.ids == old(s.ids)
        {
          CollectNamedFromSignatureItemRoots(items[i], s);
        }
      case SignatureFun(result) => CollectNamedFromSignatureRoots(result, s);
      case SignatureWhere(inner) => CollectNamedFromSignatureRoots(inner, s);
      case SignatureVar | SignatureProj | SignatureError =>
    }
  }

  method CollectNamedFromSignatureItemRoots(item: SignatureItem, s: IdSet)
    modifies s
    ensures s.ids == old(s.ids)
    decreases item
  {
    match item {
      case StructureItem(inner) => CollectNamedFromSignatureRoots(inner, s);
      case NamedSignatureItem(inner) => CollectNamedFromSignatureRoots(inner, s);
      case OtherItem =>
    }
  }

  method CollectNamedFromStructureRoots(structure: Structure, s: IdSet)
    modifies s
    ensures s.ids == old(s.ids) + RootIdsOfStructure(structure)
    decreases structure
  {
    match structure {
      case StructureConst(declarations) =>
        for i := 0 to |declarations|
          invariant s.ids == old(s.ids) + RootIdsOfAll(declarations[..i])
        {
          CollectNamedFromLocatedRoots(declarations[i], s);
          assert declarations[..i + 1][..i] == declarations[..i];
        }
        assert declarations[..|declarations|] == declarations;
      case StructureProj(inner) => CollectNamedFromStructureRoots(inner, s);
      case StructureFun(result) => CollectNamedFromStructureRoots(result, s);
      case StructureApp(l, r) =>
        CollectNamedFromStructureRoots(l, s);
        CollectNamedFromStructureRoots(r, s);
      case StructureVar | StructureError =>
    }
  }

  method CollectNamedFromLocatedRoots(d: LocatedDeclaration, s: IdSet)
    modifies s
    ensures s.ids == old(s.ids) + RootIdsOfLocated(d)
    decreases d
  {
    CollectNamedFromDeclarationRoots(d.node, s);
  }

  method CollectNamedFromDeclarationRoots(d: Declaration, s: IdSet)
    modifies s
    ensures s.ids == old(s.ids) + RootIds(d)
    decreases d
  {
    match d {
      case Val(_, _, _) | ValRec(_) | Other =>
      case SignatureDeclaration(signature) => CollectNamedFromSignatureRoots(signature, s);
      case StructureDeclaration(structure) => CollectNamedFromStructureRoots(structure, s);
      case FfiStructure(signature) => CollectNamedFromSignatureRoots(signature, s);
      case Export(structure) => CollectNamedFromStructureRoots(structure, s);
      case Table(e, primaryKey) =>
        CollectNamedIdsExpr(e, s);
        CollectNamedIdsExpr(primaryKey, s);
      case View(e) => CollectNamedIdsExpr(e, s);
      case Index(l, r) =>
        CollectNamedIdsExpr(l, s);
        CollectNamedIdsExpr(r, s);
      case Task(l, r) =>
        CollectNamedIdsExpr(l, s);
        CollectNamedIdsExpr(r, s);
      case Policy(e) => CollectNamedIdsExpr(e, s);
    }
  }

  // ----- The capped rounds

  /** Visiting one binding: the set grew exactly when its size did. */
  method VisitBinding(b: ValueBinding, roots: IdSet) returns (expanded: bool)
    modifies roots
    ensures roots.ids == Visit(b, old(roots.ids))
    ensures expanded <==> roots.ids != old(roots.ids)
  {
    expanded := false;
    if b.id in roots.ids {
      var before := |roots.ids|;
      CollectNamedIdsExpr(b.body, roots);
      SubsetSize(old(roots.ids), roots.ids);
      expanded := |roots.ids| > before;
    }
  }

  lemma BindingsOneMore(elab: File, i: nat)
    requires i < |elab|
    ensures ValueBindings(elab[..i + 1]) == ValueBindings(elab[..i]) + BindingsOf(elab[i])
  {
    assert elab[..i + 1][..i] == elab[..i];
  }

  lemma {:induction false} PassConcat(a: seq<ValueBinding>, b: seq<ValueBinding>, used: set<nat>)
    ensures Pass(a + b, used) == Pass(b, Pass(a, used))
    decreases |b|
  {
    if b == [] {
      assert a + b == a;
    } else {
      var n := |b| - 1;
      PassConcat(a, b[..n], used);
      assert a + b == (a + b[..n]) + [b[n]];
      PassOneMore(a + b[..n], b[n], used);
    }
  }

  lemma RecBindingsOneMore(d: LocatedDeclaration, k: nat)
    requires d.node.ValRec? && k < |d.node.bindings|
    ensures RecBindings(d, k + 1) == RecBindings(d, k) + [RecBindings(d, k + 1)[k]]
  {
  }

  method ExpandDeclaration(d: LocatedDeclaration, roots: IdSet) returns (expanded: bool)
    modifies roots
    ensures roots.ids == Pass(BindingsOf(d), old(roots.ids))
    ensures old(roots.ids) <= roots.ids
    ensures expanded <==> roots.ids != old(roots.ids)
  {
    expanded := false;
    match d.node {
      case Val(name, id, body) =>
        var b := ValueBinding(name, id, body, d.span, false);
        PassOneMore([], b, roots.ids);
        assert BindingsOf(d) == [] + [b];
        expanded := VisitBinding(b, roots);
      case ValRec(bindings) =>
        for k := 0 to |bindings|
          invariant roots.ids == Pass(RecBindings(d, k), old(roots.ids))
          invariant old(roots.ids) <= roots.ids
          invariant expanded <==> roots.ids != old(roots.ids)
        {
          var b := ValueBinding(bindings[k].name, bindings[k].id, bindings[k].body, d.span, true);
          RecBindingsOneMore(d, k);
          PassOneMore(RecBindings(d, k), b, old(roots.ids));
          var grew := VisitBinding(b, roots);
          expanded := expanded || grew;
        }
      case _ =>
    }
  }

  /** One round over the declarations of the file. */
  method ExpandOnce(elab: File, roots: IdSet) returns (expanded: bool)
    modifies roots
    ensures roots.ids == Pass(ValueBindings(elab), old(roots.ids))
    ensures expanded <==> roots.ids != old(roots.ids)
  {
    expanded := false;
    for i := 0 to |elab|
      invariant roots.ids == Pass(ValueBindings(elab[..i]), old(roots.ids))
      invariant old(roots.ids) <= roots.ids
      invariant expanded <==> roots.ids != old(roots.ids)
    {
      BindingsOneMore(elab, i);
      PassConcat(ValueBindings(elab[..i]), BindingsOf(elab[i]), old(roots.ids));
      var grew := ExpandDeclaration(elab[i], roots);
      expanded := expanded || grew;
    }
    assert elab[..|elab|] == elab;
  }

  method ExpandUsedFromRoots(elab: File, roots: IdSet)
    modifies roots
    ensures roots.ids == Rounds(ValueBindings(elab), old(roots.ids), FixpointRoundCap(|elab|))
  {
    var cap := FixpointRoundCap(|elab|);
    ghost var bs := ValueBindings(elab);
    for round := 0 to cap
      invariant roots.ids == Rounds(bs, old(roots.ids), round)
    {
      var expanded := ExpandOnce(elab, roots);
      if !expanded {
        RoundsStable(bs, old(roots.ids), round, cap);
        break;
      }
    }
  }

  // ----- The report

  function SlashNormalized(path: string): string {
    seq(|path|, i requires 0 <= i < |path| => if path[i] == '\\' then '/' else path[i])
  }

  /** Both keys slash-normalized: equal, or the open key is a suffix of the declaration's after a
      slash, or the declaration's is any suffix of the open key. */
  predicate PathsMatch(open: string, decl: string) {
    || decl == open
    || (open != "" && |decl| > |open| && decl[|decl| - |open| - 1] == '/' && EndsWith(decl, open))
    || (open == "" && EndsWith(decl, "/"))
    || EndsWith(open, decl)
  }

  /** Two paths match when they are equal, or one ends with the other: the declaration's with the open
      one after a slash, the open one with the declaration's anywhere. */
  lemma PathsMatchExactly(open: string, decl: string)
    ensures PathsMatch(open, decl) <==>
              decl == open || (exists p: string :: decl == p + "/" + open) || (exists p: string :: open == p + decl)
  {
    if PathsMatch(open, decl) && decl != open {
      if EndsWith(open, decl) {
        assert open == open[..|open| - |decl|] + decl;
      } else {
        assert decl == decl[..|decl| - |open| - 1] + "/" + open;
      }
    }
    if p: string :| decl == p + "/" + open {
      assert decl[|p|] == '/' && decl[|p| + 1..] == open;
      assert open == "" ==> decl[|p|..] == "/";
    }
    if p: string :| open == p + decl {
      assert open[|p|..] == decl;
    }
  }

  /** Backslashes count as slashes. */
  lemma BackslashPathMatches(open: string, decl: string)
    requires open == ['b', '.', 'u', 'r'] && decl == ['a', '\\', 'b', '.', 'u', 'r']
    ensures PathsMatch(SlashNormalized(open), SlashNormalized(decl)) && !PathsMatch(open, decl)
  {
    assert SlashNormalized(open) == open;
    assert SlashNormalized(decl) == "a" + "/" + open;
    PathsMatchExactly(SlashNormalized(open), SlashNormalized(decl));
  }

  datatype Warning = UnusedValue(span: Span, name: string) | UnusedRecursiveValue(span: Span, name: string)

  class ErrorReporter {
    var errors: seq<Warning>

    method ReportWarning(w: Warning)
      modifies this
      ensures errors == old(errors) + [w]
    {
      errors := errors + [w];
    }
  }

  /** A binding of the open file that is not used. */
  function WarnedBy(open: string, used: set<nat>): ValueBinding -> bool {
    (b: ValueBinding) => PathsMatch(open, SlashNormalized(b.span.file)) && b.id !in used
  }

  function WarningFor(b: ValueBinding): Warning {
    if b.recursive then UnusedRecursiveValue(b.span, b.name) else UnusedValue(b.span, b.name)
  }

  /** Positions of the warned bindings, in source order. */
  function WarnedPositions(bs: seq<ValueBinding>, warned: ValueBinding -> bool): (ks: seq<nat>)
    ensures forall i | 0 <= i < |ks| :: ks[i] < |bs| && warned(bs[ks[i]])
    ensures forall i, j | 0 <= i < j < |ks| :: ks[i] < ks[j]
    ensures forall k | 0 <= k < |bs| && warned(bs[k]) :: k in ks
  {
    if bs == [] then []
    else
      var n := |bs| - 1;
      var ks := WarnedPositions(bs[..n], warned);
      assert forall k | 0 <= k < n && warned(bs[k]) :: warned(bs[..n][k]);
      if warned(bs[n]) then ks + [n] else ks
  }

  /** `ws` is exactly one warning for each of those bindings, in that order. */
  ghost predicate ReportsExactly(ws: seq<Warning>, bs: seq<ValueBinding>, warned: ValueBinding -> bool) {
    var ks := WarnedPositions(bs, warned);
    && |ws| == |ks|
    && forall i | 0 <= i < |ks| :: IsWarningFor(ws[i], bs[ks[i]])
  }

  /** The warning names the binding, at its place, and says whether it is a member of a group. */
  ghost predicate IsWarningFor(w: Warning, b: ValueBinding) {
    w.name == b.name && w.span == b.span && (w.UnusedRecursiveValue? <==> b.recursive)
  }

  function Warnings(bs: seq<ValueBinding>, warned: ValueBinding -> bool): seq<Warning> {
    if bs == [] then []
    else
      var b := bs[|bs| - 1];
      Warnings(bs[..|bs| - 1], warned) + if warned(b) then [WarningFor(b)] else []
  }

  lemma {:induction false} WarningsConcat(a: seq<ValueBinding>, b: seq<ValueBinding>, warned: ValueBinding -> bool)
    ensures Warnings(a + b, warned) == Warnings(a, warned) + Warnings(b, warned)
    decreases |b|
  {
    if b == [] {
      assert a + b == a;
    } else {
      var n := |b| - 1;
      WarningsConcat(a, b[..n], warned);
      assert (a + b)[..|a + b| - 1] == a + b[..n];
    }
  }

  lemma {:induction false} WarningsReportExactly(bs: seq<ValueBinding>, warned: ValueBinding -> bool)
    ensures ReportsExactly(Warnings(bs, warned), bs, warned)
    decreases |bs|
  {
    if bs != [] {
      var n := |bs| - 1;
      WarningsReportExactly(bs[..n], warned);
      var ks, ws := WarnedPositions(bs[..n], warned), Warnings(bs[..n], warned);
      forall i | 0 <= i < |ks| ensures IsWarningFor(ws[i], bs[ks[i]]) {
        assert bs[..n][ks[i]] == bs[ks[i]];
      }
    }
  }

  method ReportBinding(b: ValueBinding, open: string, used: IdSet, errors: ErrorReporter)
    modifies errors
    ensures errors.errors == old(errors.errors) + if WarnedBy(open, used.ids)(b) then [WarningFor(b)] else []
  {
    if PathsMatch(open, SlashNormalized(b.span.file)) && b.id !in used.ids {
      errors.ReportWarning(WarningFor(b));
    }
  }

  method ReportDeclaration(d: LocatedDeclaration, open: string, used: IdSet, errors: ErrorReporter)
    modifies errors
    ensures errors.errors == old(errors.errors) + Warnings(BindingsOf(d), WarnedBy(open, used.ids))
  {
    match d.node {
      case Val(name, id, body) =>
        var b := ValueBinding(name, id, body, d.span, false);
        assert BindingsOf(d) == [b] && [b][..0] == [];
        ReportBinding(b, open, used, errors);
      case ValRec(bindings) =>
        for k := 0 to |bindings|
          invariant errors.errors == old(errors.errors) + Warnings(RecBindings(d, k), WarnedBy(open, used.ids))
        {
          var b := ValueBinding(bindings[k].name, bindings[k].id, bindings[k].body, d.span, true);
          RecBindingsOneMore(d, k);
          assert RecBindings(d, k + 1)[..k] == RecBindings(d, k);
          ReportBinding(b, open, used, errors);
        }
      case _ =>
    }
  }

  method ComputeUsed(elab: File) returns (used: IdSet)
    ensures fresh(used) && used.ids == Used(elab)
  {
    used := new IdSet();
    for i := 0 to |elab|
      invariant fresh(used) && used.ids == RootIdsOfAll(elab[..i])
    {
      CollectNamedFromLocatedRoots(elab[i], used);
      assert elab[..i + 1][..i] == elab[..i];
    }
    assert elab[..|elab|] == elab;
    ExpandUsedFromRoots(elab, used);
  }

  /** What the analysis of `elab` warns about for the given open file. */
  function Unused(elab: File, openFileKey: string): ValueBinding -> bool {
    WarnedBy(SlashNormalized(openFileKey), Used(elab))
  }

  lemma WarningsUpTo(elab: File, i: nat, warned: ValueBinding -> bool)
    requires i < |elab|
    ensures Warnings(ValueBindings(elab[..i + 1]), warned)
         == Warnings(ValueBindings(elab[..i]), warned) + Warnings(BindingsOf(elab[i]), warned)
  {
    BindingsOneMore(elab, i);
    WarningsConcat(ValueBindings(elab[..i]), BindingsOf(elab[i]), warned);
  }

  method ReportAll(elab: File, open: string, used: IdSet, errors: ErrorReporter)
    modifies errors
    ensures errors.errors == old(errors.errors) + Warnings(ValueBindings(elab), WarnedBy(open, used.ids))
  {
    ghost var warned, start := WarnedBy(open, used.ids), errors.errors;
    ghost var reported: seq<Warning> := [];
    assert start + reported == start;
    for i := 0 to |elab|
      invariant reported == Warnings(ValueBindings(elab[..i]), warned)
      invariant errors.errors == start + reported
    {
      ghost var more := Warnings(BindingsOf(elab[i]), warned);
      ReportDeclaration(elab[i], open, used, errors);
      Regroup(start, reported, more);
      WarningsUpTo(elab, i, warned);
      reported := reported + more;
    }
    assert elab[..|elab|] == elab;
  }

  method ReportUnusedTopLevelValues(elab: File, openFileKey: string, errors: ErrorReporter)
    modifies errors
    ensures errors.errors == old(errors.errors) + Warnings(ValueBindings(elab), Unused(elab, openFileKey))
  {
    var used := ComputeUsed(elab);
    ReportAll(elab, SlashNormalized(openFileKey), used, errors);
  }

  predicate InOpenFile(openFileKey: string, b: ValueBinding) {
    PathsMatch(SlashNormalized(openFileKey), SlashNormalized(b.span.file))
  }

  /** Reached by a walk that the round cap of the file allows. */
  ghost predicate ReachableInTime(elab: File, id: nat) {
    ReachableWithin(ValueBindings(elab), RootIdsOfAll(elab), id, FixpointRoundCap(|elab|))
  }

  /** For every file: one warning, in source order, for each binding of the open file that no walk
      within the cap reaches, and nothing else. */
  lemma ReportForEveryCap(elab: File, openFileKey: string)
    ensures ReportsExactly(Warnings(ValueBindings(elab), Unused(elab, openFileKey)),
                           ValueBindings(elab), Unused(elab, openFileKey))
    ensures forall b :: Unused(elab, openFileKey)(b) <==> InOpenFile(openFileKey, b) && !ReachableInTime(elab, b.id)
  {
    WarningsReportExactly(ValueBindings(elab), Unused(elab, openFileKey));
    forall id: nat ensures id in Used(elab) <==> ReachableInTime(elab, id) {
      RoundsMarkExactly(ValueBindings(elab), RootIdsOfAll(elab), FixpointRoundCap(|elab|), id);
    }
  }

  /** The report of an open file is right: its unreachable bindings are warned about, and no others. */
  ghost predicate ReportIsRight(elab: File, openFileKey: string) {
    forall k | 0 <= k < |ValueBindings(elab)| ::
      k in WarnedPositions(ValueBindings(elab), Unused(elab, openFileKey)) <==>
      InOpenFile(openFileKey, ValueBindings(elab)[k]) && !ReachableIn(elab, ValueBindings(elab)[k].id)
  }

  /** It is right exactly when the cap allows a walk to each reachable binding of the open file. */
  lemma ReportIsRightIff(elab: File, openFileKey: string)
    ensures ReportIsRight(elab, openFileKey) <==>
              forall b | b in ValueBindings(elab) && InOpenFile(openFileKey, b) && ReachableIn(elab, b.id) ::
                ReachableInTime(elab, b.id)
  {
    var bs, warned := ValueBindings(elab), Unused(elab, openFileKey);
    ReportForEveryCap(elab, openFileKey);
    if ReportIsRight(elab, openFileKey) {
      forall b | b in bs && InOpenFile(openFileKey, b) && ReachableIn(elab, b.id) ensures ReachableInTime(elab, b.id) {
        var k :| 0 <= k < |bs| && bs[k] == b;
        assert k !in WarnedPositions(bs, warned);
      }
    }
  }

  /** No more bindings than rounds are enough for that. */
  lemma FewBindingsReportRight(elab: File, openFileKey: string)
    requires |ValueBindings(elab)| <= FixpointRoundCap(|elab|)
    ensures ReportIsRight(elab, openFileKey)
  {
    FewBindingsSuffice(elab);
  }

  /** In the file of `CapCanBeTooSmall`, opened in the editor, the first member is used and is warned
      about as soon as the group outgrows the cap. */
  lemma ReachableIsReported(base: nat, n: nat, first: Expression, span: Span, rest: File)
    requires FixpointRoundCap(2 + |rest|) + 1 < n
    requires NamesNone(NamedIds(first), base, n) && FileAvoidsGroup(rest, base, n)
    ensures var file := ChainFile(base, n, first, span, rest);
            && ValueBindings(file) != [] && ReachableIn(file, ValueBindings(file)[0].id)
            && 0 in WarnedPositions(ValueBindings(file), Unused(file, span.file))
  {
    ChainFileIsChain(base, n, first, span, rest);
    CapCanBeTooSmall(base, n, first, span, rest);
  }

  /** Whatever the cap, no unreachable binding of the open file goes unreported. */
  lemma UnreachableIsReported(elab: File, openFileKey: string, k: nat)
    requires k < |ValueBindings(elab)| && !ReachableIn(elab, ValueBindings(elab)[k].id)
    requires InOpenFile(openFileKey, ValueBindings(elab)[k])
    ensures k in WarnedPositions(ValueBindings(elab), Unused(elab, openFileKey))
  {
    UsedAgainstReachable(elab);
  }
}
