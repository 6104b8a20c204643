/** The demo combiner of `demo.rs`: prose lines split into an introduction and one section for each
    `.urp` line, and the sub-project jobs merged into one. File contents are collected as pages in
    the order they are written. */
module Demo {
  import opened Wrappers
  import opened Strings

  // ----- Jobs

  datatype Job = Job(database: Option<string>, sources: seq<string>, rewrites: seq<string>, filterUrl: seq<string>,
                     filterMime: seq<string>, safeGets: seq<string>, timeout: nat)

  datatype Failure =
    | NoDemoApplications
    | DifferentDatabases(existing: string, other: string)
    | CannotParse(urp: string, reason: string)

  /** Every element at its first occurrence. */
  function FirstOccurrences<T(==)>(s: seq<T>): seq<T> {
    if s == [] then []
    else
      var init, x := s[..|s| - 1], s[|s| - 1];
      if x in init then FirstOccurrences(init) else FirstOccurrences(init) + [x]
  }

  /** The kept elements stand at ascending positions of `s`, each the first of its kind, and every
      element of `s` is kept. */
  lemma {:induction false} FirstOccurrencesMeaning<T>(s: seq<T>) returns (ps: seq<nat>)
    ensures |ps| == |FirstOccurrences(s)|
    ensures forall k | 0 <= k < |ps| :: ps[k] < |s| && s[ps[k]] == FirstOccurrences(s)[k] && s[ps[k]] !in s[..ps[k]]
    ensures forall j, k | 0 <= j < k < |ps| :: ps[j] < ps[k]
    ensures forall x :: x in FirstOccurrences(s) <==> x in s
    decreases |s|
  {
    if s == [] {
      ps := [];
    } else {
      var n := |s| - 1;
      var init, x := s[..n], s[n];
      ps := FirstOccurrencesMeaning(init);
      forall k | 0 <= k < |ps| ensures s[ps[k]] == FirstOccurrences(init)[k] && s[ps[k]] !in s[..ps[k]] {
        assert s[ps[k]] == init[ps[k]] && s[..ps[k]] == init[..ps[k]];
      }
      assert s == init + [x];
      if x !in init {
        ps := ps + [n];
      }
    }
  }

  lemma FirstOccurrencesOneMore<T>(s: seq<T>, x: T)
    ensures FirstOccurrences(s + [x]) == if x in s then FirstOccurrences(s) else FirstOccurrences(s) + [x]
  {
    assert (s + [x])[..|s|] == s;
  }

  lemma {:induction false} FirstOccurrencesSameElements<T>(s: seq<T>, x: T)
    ensures x in FirstOccurrences(s) <==> x in s
    decreases |s|
  {
    if s != [] {
      var n := |s| - 1;
      FirstOccurrencesSameElements(s[..n], x);
      assert s == s[..n] + [s[n]];
    }
  }

  /** All lists of several jobs, in job order. */
  function Gathered(jobs: seq<Job>, part: Job -> seq<string>): seq<string> {
    if jobs == [] then [] else Gathered(jobs[..|jobs| - 1], part) + part(jobs[|jobs| - 1])
  }

  /** In job order: lists of earlier jobs come first. */
  lemma {:induction false} GatheredInOrder(before: seq<Job>, after: seq<Job>, part: Job -> seq<string>)
    ensures Gathered(before + after, part) == Gathered(before, part) + Gathered(after, part)
    decreases |after|
  {
    if after == [] {
      assert before + after == before;
    } else {
      var n := |after| - 1;
      GatheredInOrder(before, after[..n], part);
      assert (before + after)[..|before| + n] == before + after[..n];
      Regroup(Gathered(before, part), Gathered(after[..n], part), part(after[n]));
    }
  }

  lemma GatheredOfOne(job: Job, part: Job -> seq<string>)
    ensures Gathered([job], part) == part(job)
  {
    assert [job][..0] == [];
  }

  function LargestTimeout(jobs: seq<Job>): (t: nat)
    ensures forall i | 0 <= i < |jobs| :: jobs[i].timeout <= t
    ensures t == 0 || exists i | 0 <= i < |jobs| :: jobs[i].timeout == t
  {
    if jobs == [] then 0
    else
      var n := |jobs| - 1;
      var t := LargestTimeout(jobs[..n]);
      assert forall i | 0 <= i < n :: jobs[..n][i] == jobs[i];
      if jobs[n].timeout > t then jobs[n].timeout else t
  }

  /** No two jobs name different databases. */
  predicate DatabasesAgree(jobs: seq<Job>) {
    forall i, j | 0 <= i < |jobs| && 0 <= j < |jobs| && jobs[i].database.Some? && jobs[j].database.Some? ::
      jobs[i].database == jobs[j].database
  }

  /** The database the jobs so far agreed on: the first one named. */
  function FirstDatabase(jobs: seq<Job>): Option<string> {
    if jobs == [] then None
    else
      var n := |jobs| - 1;
      var first := FirstDatabase(jobs[..n]);
      if first.Some? then first else jobs[n].database
  }

  lemma {:induction false} FirstDatabaseNamed(jobs: seq<Job>)
    ensures FirstDatabase(jobs).Some? ==> exists i | 0 <= i < |jobs| :: jobs[i].database == FirstDatabase(jobs)
    ensures FirstDatabase(jobs).None? ==> forall i | 0 <= i < |jobs| :: jobs[i].database.None?
    decreases |jobs|
  {
    if jobs != [] {
      var n := |jobs| - 1;
      FirstDatabaseNamed(jobs[..n]);
      assert forall i | 0 <= i < n :: jobs[..n][i] == jobs[i];
    }
  }

  /** One more job keeps the databases in agreement exactly when it names the agreed one or none. */
  lemma DatabasesAgreeOneMore(jobs: seq<Job>, job: Job)
    requires DatabasesAgree(jobs)
    ensures DatabasesAgree(jobs + [job]) <==>
              job.database.None? || FirstDatabase(jobs).None? || FirstDatabase(jobs) == job.database
  {
    var all, n := jobs + [job], |jobs|;
    FirstDatabaseNamed(jobs);
    assert forall i | 0 <= i < n :: all[i] == jobs[i];
    assert all[n] == job;
    if job.database.Some? && FirstDatabase(jobs).Some? && FirstDatabase(jobs) != job.database {
      var i :| 0 <= i < n && jobs[i].database == FirstDatabase(jobs);
      assert all[i].database != all[n].database;
    }
  }

  lemma OneMoreSource(before: seq<string>, more: seq<string>, k: nat)
    requires k < |more|
    ensures var sources := FirstOccurrences(before + more[..k]);
            FirstOccurrences(before + more[..k + 1]) == if more[k] in sources then sources else sources + [more[k]]
  {
    assert before + more[..k + 1] == (before + more[..k]) + [more[k]];
    FirstOccurrencesOneMore(before + more[..k], more[k]);
    FirstOccurrencesSameElements(before + more[..k], more[k]);
  }

  class CombinedJob {
    var database: Option<string>
    var sources: seq<string>
    var rewrites: seq<string>
    var filterUrl: seq<string>
    var filterMime: seq<string>
    var safeGets: seq<string>
    var timeout: nat

    /** Exactly the merge of these jobs. */
    ghost predicate Merges(jobs: seq<Job>)
      reads this
    {
      && DatabasesAgree(jobs)
      && database == FirstDatabase(jobs)
      && sources == FirstOccurrences(Gathered(jobs, (j: Job) => j.sources))
      && rewrites == Gathered(jobs, (j: Job) => j.rewrites)
      && filterUrl == Gathered(jobs, (j: Job) => j.filterUrl)
      && filterMime == Gathered(jobs, (j: Job) => j.filterMime)
      && safeGets == Gathered(jobs, (j: Job) => j.safeGets)
      && timeout == LargestTimeout(jobs)
    }

    constructor ()
      ensures Merges([])
    {
      database, timeout := None, 0;
      sources, rewrites, filterUrl, filterMime, safeGets := [], [], [], [], [];
    }

    method MergeSources(more: seq<string>, ghost before: seq<string>)
      requires sources == FirstOccurrences(before)
      modifies this`sources
      ensures sources == FirstOccurrences(before + more)
    {
      assert before + more[..0] == before;
      for k := 0 to |more|
        invariant sources == FirstOccurrences(before + more[..k])
      {
        OneMoreSource(before, more, k);
        if more[k] !in sources {
          sources := sources + [more[k]];
        }
      }
      assert more[..|more|] == more;
    }

    /** Merging one more job fails exactly when it names another database than one before it. */
    method Merge(job: Job, ghost jobs: seq<Job>) returns (failure: Option<Failure>)
      requires Merges(jobs)
      modifies this
      ensures failure.None? <==> DatabasesAgree(jobs + [job])
      ensures failure.None? ==> Merges(jobs + [job])
      ensures failure.Some? ==>
                && FirstDatabase(jobs).Some? && job.database.Some? && FirstDatabase(jobs) != job.database
                && failure == Some(DifferentDatabases(FirstDatabase(jobs).value, job.database.value))
    {
      DatabasesAgreeOneMore(jobs, job);
      assert (jobs + [job])[..|jobs|] == jobs;
      if job.database.Some? {
        if database.Some? {
          if database.value != job.database.value {
            return Some(DifferentDatabases(database.value, job.database.value));
          }
        } else {
          database := job.database;
        }
      }
      MergeSources(job.sources, Gathered(jobs, (j: Job) => j.sources));
      rewrites := rewrites + job.rewrites;
      filterUrl := filterUrl + job.filterUrl;
      filterMime := filterMime + job.filterMime;
      safeGets := safeGets + job.safeGets;
      if job.timeout > timeout {
        timeout := job.timeout;
      }
      return None;
    }
  }

  // ----- Sections of the prose

  predicate IsUrpLine(line: string) { EndsWith(line, ".urp") }

  /** A `.urp` line and the prose lines up to the next. */
  datatype Section = Section(line: string, body: seq<string>)

  function Sections(lines: seq<string>): seq<Section> {
    if lines == [] then []
    else
      var n := |lines| - 1;
      var before := Sections(lines[..n]);
      if IsUrpLine(lines[n]) then before + [Section(lines[n], [])]
      else if before == [] then []
      else before[..|before| - 1] + [Extended(before[|before| - 1], lines[n])]
  }

  function Extended(s: Section, line: string): Section { s.(body := s.body + [line]) }

  /** The lines before the first `.urp` line. */
  function Intro(lines: seq<string>): seq<string> {
    if lines == [] then []
    else
      var n := |lines| - 1;
      if IsUrpLine(lines[n]) || Sections(lines[..n]) != [] then Intro(lines[..n]) else Intro(lines[..n]) + [lines[n]]
  }

  function Flattened(sections: seq<Section>): seq<string> {
    if sections == [] then []
    else
      var n := |sections| - 1;
      Flattened(sections[..n]) + [sections[n].line] + sections[n].body
  }

  lemma FlattenedOneMore(sections: seq<Section>, s: Section)
    ensures Flattened(sections + [s]) == Flattened(sections) + [s.line] + s.body
  {
    assert (sections + [s])[..|sections|] == sections;
  }

  predicate AllProse(lines: seq<string>) { forall i | 0 <= i < |lines| :: !IsUrpLine(lines[i]) }

  lemma FlattenedExtended(sections: seq<Section>, line: string)
    requires sections != []
    ensures Flattened(sections[..|sections| - 1] + [Extended(sections[|sections| - 1], line)])
         == Flattened(sections) + [line]
  {
    var m := |sections| - 1;
    FlattenedOneMore(sections[..m], Extended(sections[m], line));
  }

  lemma KeepsUrpLine(seen: seq<string>, line: string)
    requires IsUrpLine(line) && seen == Intro(seen) + Flattened(Sections(seen))
    ensures seen + [line] == Intro(seen + [line]) + Flattened(Sections(seen + [line]))
  {
    var sections := Sections(seen);
    SectionsAfterUrp(seen, line);
    FlattenedOneMore(sections, Section(line, []));
    assert Flattened(sections) + [line] + [] == Flattened(sections) + [line];
    Regroup(Intro(seen), Flattened(sections), [line]);
  }

  lemma KeepsProseLine(seen: seq<string>, line: string)
    requires !IsUrpLine(line) && seen == Intro(seen) + Flattened(Sections(seen))
    ensures seen + [line] == Intro(seen + [line]) + Flattened(Sections(seen + [line]))
  {
    var sections := Sections(seen);
    SectionsAfterProse(seen, line);
    if sections == [] {
      assert Intro(seen) + [] == Intro(seen);
      assert Intro(seen) + [line] + [] == Intro(seen) + [line];
    } else {
      FlattenedExtended(sections, line);
      Regroup(Intro(seen), Flattened(sections), [line]);
    }
  }

  /** No line is lost, added or moved: the prose is the introduction and then each section's head and
      body. */
  lemma {:induction false} SectionsKeepLines(lines: seq<string>)
    ensures lines == Intro(lines) + Flattened(Sections(lines))
    decreases |lines|
  {
    if lines != [] {
      var n := |lines| - 1;
      SectionsKeepLines(lines[..n]);
      assert lines == lines[..n] + [lines[n]];
      if IsUrpLine(lines[n]) {
        KeepsUrpLine(lines[..n], lines[n]);
      } else {
        KeepsProseLine(lines[..n], lines[n]);
      }
    }
  }

  /** Section heads are `.urp` lines and nothing else is. */
  lemma {:induction false} SectionsSplitAtUrpLines(lines: seq<string>)
    ensures AllProse(Intro(lines))
    ensures forall i | 0 <= i < |Sections(lines)| ::
              IsUrpLine(Sections(lines)[i].line) && AllProse(Sections(lines)[i].body)
    decreases |lines|
  {
    if lines != [] {
      SectionsSplitAtUrpLines(lines[..|lines| - 1]);
    }
  }

  // ----- Pages

  datatype Page = Page(path: string, content: string)

  /** What the loop reads besides the prose: the `.urp` parser and the texts it writes around prose
      lines and for each `.urp` line. */
  datatype Layout = Layout(
    parse: string -> Result<Job, string>,
    title: string -> string,
    introHead: string, navHead: string, demoUrHead: string, footer: string,
    navEntry: string -> string, demoUrEntry: string -> string,
    frame: string -> Page,
    descriptionHead: (string, Job) -> string,
    descriptionPath: string -> string)

  function UrpName(line: string): string { Trim(line) }

  /** Each line followed by a line feed. */
  function Unlines(lines: seq<string>): string {
    if lines == [] then "" else Unlines(lines[..|lines| - 1]) + lines[|lines| - 1] + "\n"
  }

  predicate Parses(env: Layout, s: Section) { env.parse(UrpName(s.line)).Success? }

  function DescText(env: Layout, s: Section): string
    requires Parses(env, s)
  {
    env.descriptionHead(s.line, env.parse(UrpName(s.line)).value) + Unlines(s.body)
  }

  function DescPage(env: Layout, s: Section): Page
    requires Parses(env, s)
  {
    Page(env.descriptionPath(env.title(s.line)), DescText(env, s) + env.footer)
  }

  function IntroPage(env: Layout, intro: seq<string>): Page {
    Page("intro.html", env.introHead + Unlines(intro) + env.footer)
  }

  predicate AllParse(env: Layout, sections: seq<Section>) {
    forall i | 0 <= i < |sections| :: Parses(env, sections[i])
  }

  function JobsOf(env: Layout, sections: seq<Section>): seq<Job>
    requires AllParse(env, sections)
  {
    if sections == [] then []
    else
      var n := |sections| - 1;
      JobsOf(env, sections[..n]) + [env.parse(UrpName(sections[n].line)).value]
  }

  /** The pages written once the last section has begun: the introduction, each earlier section's page
      and every frameset. */
  function PagesBefore(env: Layout, intro: seq<string>, sections: seq<Section>): seq<Page>
    requires AllParse(env, sections)
  {
    if sections == [] then []
    else
      var n := |sections| - 1;
      PagesBefore(env, intro, sections[..n])
      + [if n == 0 then IntroPage(env, intro) else DescPage(env, sections[n - 1])]
      + [env.frame(sections[n].line)]
  }

  function Entries(entry: string -> string, sections: seq<Section>): string {
    if sections == [] then ""
    else Entries(entry, sections[..|sections| - 1]) + entry(sections[|sections| - 1].line)
  }

  // ----- The state machine over prose lines

  lemma SectionsAfterUrp(seen: seq<string>, line: string)
    requires IsUrpLine(line)
    ensures Sections(seen + [line]) == Sections(seen) + [Section(line, [])]
    ensures Intro(seen + [line]) == Intro(seen)
  {
    assert (seen + [line])[..|seen|] == seen;
  }

  lemma SectionsAfterProse(seen: seq<string>, line: string)
    requires !IsUrpLine(line)
    ensures var before := Sections(seen);
            Sections(seen + [line])
            == if before == [] then [] else before[..|before| - 1] + [Extended(before[|before| - 1], line)]
    ensures Intro(seen + [line]) == if Sections(seen) == [] then Intro(seen) + [line] else Intro(seen)
  {
    assert (seen + [line])[..|seen|] == seen;
  }

  lemma UnlinesOneMore(lines: seq<string>, line: string)
    ensures Unlines(lines + [line]) == Unlines(lines) + line + "\n"
  {
    assert (lines + [line])[..|lines|] == lines;
  }

  lemma EntriesOneMore(entry: string -> string, sections: seq<Section>, s: Section)
    ensures Entries(entry, sections + [s]) == Entries(entry, sections) + entry(s.line)
  {
    assert (sections + [s])[..|sections|] == sections;
  }

  /** Starting a section. */
  lemma SectionBegins(env: Layout, intro: seq<string>, sections: seq<Section>, s: Section)
    requires AllParse(env, sections) && Parses(env, s)
    ensures AllParse(env, sections + [s])
    ensures JobsOf(env, sections + [s]) == JobsOf(env, sections) + [env.parse(UrpName(s.line)).value]
    ensures PagesBefore(env, intro, sections + [s])
         == PagesBefore(env, intro, sections)
            + [if sections == [] then IntroPage(env, intro) else DescPage(env, sections[|sections| - 1])]
            + [env.frame(s.line)]
  {
    var all := sections + [s];
    assert all[..|sections|] == sections;
  }

  /** A line added to the last section changes neither the pages before it nor jobs and entries. */
  lemma SectionGrows(env: Layout, intro: seq<string>, sections: seq<Section>, line: string)
    requires sections != [] && AllParse(env, sections)
    ensures var m := |sections| - 1;
            var grown := sections[..m] + [Extended(sections[m], line)];
            && AllParse(env, grown)
            && JobsOf(env, grown) == JobsOf(env, sections)
            && PagesBefore(env, intro, grown) == PagesBefore(env, intro, sections)
            && Entries(env.navEntry, grown) == Entries(env.navEntry, sections)
            && Entries(env.demoUrEntry, grown) == Entries(env.demoUrEntry, sections)
  {
    var m := |sections| - 1;
    var grown := sections[..m] + [Extended(sections[m], line)];
    assert grown[..m] == sections[..m];
    assert Parses(env, grown[m]) && forall i | 0 <= i < m :: grown[i] == sections[i];
  }

  lemma DescriptionGrows(env: Layout, s: Section, line: string)
    requires Parses(env, s)
    ensures DescText(env, Extended(s, line)) == DescText(env, s) + line + "\n"
  {
    UnlinesOneMore(s.body, line);
    var head := env.descriptionHead(s.line, env.parse(UrpName(s.line)).value);
    assert head + (Unlines(s.body) + line + "\n") == head + Unlines(s.body) + line + "\n";
  }

  /** What the loop holds between lines. */
  datatype State = State(pages: seq<Page>, intro: string, nav: string, demoUr: string,
                         description: Option<(string, string)>, foundFirstUrp: bool)

  /** The state that belongs to an introduction and some sections. */
  function Expected(env: Layout, intro: seq<string>, sections: seq<Section>): State
    requires AllParse(env, sections)
  {
    var found := sections != [];
    State(PagesBefore(env, intro, sections),
          env.introHead + Unlines(intro) + if found then env.footer else "",
          env.navHead + Entries(env.navEntry, sections),
          env.demoUrHead + Entries(env.demoUrEntry, sections),
          if found then Some(Open(env, sections[|sections| - 1])) else None,
          found)
  }

  function Open(env: Layout, s: Section): (string, string)
    requires Parses(env, s)
  {
    (env.title(s.line), DescText(env, s))
  }

  function AfterProse(state: State, line: string): State {
    match state.description
    case Some((name, text)) => state.(description := Some((name, text + line + "\n")))
    case None => state.(intro := state.intro + line + "\n")
  }

  lemma IntroGrows(env: Layout, text: string, line: string)
    ensures env.introHead + (text + line + "\n") + "" == (env.introHead + text + "") + line + "\n"
  {
    assert env.introHead + (text + line + "\n") == env.introHead + text + line + "\n";
  }

  lemma ExpectedAfterProse(env: Layout, seen: seq<string>, line: string)
    requires AllParse(env, Sections(seen)) && !IsUrpLine(line)
    ensures AllParse(env, Sections(seen + [line]))
    ensures JobsOf(env, Sections(seen + [line])) == JobsOf(env, Sections(seen))
    ensures Expected(env, Intro(seen + [line]), Sections(seen + [line]))
         == AfterProse(Expected(env, Intro(seen), Sections(seen)), line)
  {
    var sections := Sections(seen);
    SectionsAfterProse(seen, line);
    if sections == [] {
      UnlinesOneMore(Intro(seen), line);
      IntroGrows(env, Unlines(Intro(seen)), line);
    } else {
      SectionGrows(env, Intro(seen), sections, line);
      DescriptionGrows(env, sections[|sections| - 1], line);
    }
  }

  /** The page that flushing an open section writes. */
  function Closed(env: Layout, description: Option<(string, string)>): seq<Page> {
    match description
    case Some((name, text)) => [Page(env.descriptionPath(name), text + env.footer)]
    case None => []
  }

  /** The introduction, closed and written when the first `.urp` line is met. */
  function ClosedIntro(env: Layout, state: State): string {
    if state.foundFirstUrp then state.intro else state.intro + env.footer
  }

  function FirstPages(env: Layout, state: State): seq<Page> {
    if state.foundFirstUrp then [] else [Page("intro.html", ClosedIntro(env, state))]
  }

  /** Closing what is open and beginning the section of `line`. */
  function AfterUrp(env: Layout, state: State, line: string, job: Job): State {
    State(state.pages + Closed(env, state.description) + FirstPages(env, state) + [env.frame(line)],
          ClosedIntro(env, state), state.nav + env.navEntry(line), state.demoUr + env.demoUrEntry(line),
          Some((env.title(line), env.descriptionHead(line, job))), true)
  }

  lemma ClosingPages(env: Layout, intro: seq<string>, sections: seq<Section>, s: Section)
    requires AllParse(env, sections) && Parses(env, s)
    ensures AllParse(env, sections + [s])
    ensures var state := Expected(env, intro, sections);
            && PagesBefore(env, intro, sections + [s])
            == state.pages + Closed(env, state.description) + FirstPages(env, state) + [env.frame(s.line)]
            && Expected(env, intro, sections + [s]).intro == ClosedIntro(env, state)
  {
    var state := Expected(env, intro, sections);
    SectionBegins(env, intro, sections, s);
    if sections == [] {
      assert env.introHead + Unlines(intro) + "" == env.introHead + Unlines(intro);
      assert state.pages + [] == state.pages;
    } else {
      var closed := state.pages + Closed(env, state.description);
      assert closed + [] == closed;
    }
  }

  lemma ExpectedAfterUrp(env: Layout, seen: seq<string>, line: string, job: Job)
    requires AllParse(env, Sections(seen)) && IsUrpLine(line) && env.parse(UrpName(line)) == Success(job)
    ensures AllParse(env, Sections(seen + [line]))
    ensures JobsOf(env, Sections(seen + [line])) == JobsOf(env, Sections(seen)) + [job]
    ensures Expected(env, Intro(seen + [line]), Sections(seen + [line]))
         == AfterUrp(env, Expected(env, Intro(seen), Sections(seen)), line, job)
  {
    var sections, s := Sections(seen), Section(line, []);
    SectionsAfterUrp(seen, line);
    SectionBegins(env, Intro(seen), sections, s);
    ClosingPages(env, Intro(seen), sections, s);
    EntriesOneMore(env.navEntry, sections, s);
    EntriesOneMore(env.demoUrEntry, sections, s);
    Regroup(env.navHead, Entries(env.navEntry, sections), env.navEntry(line));
    Regroup(env.demoUrHead, Entries(env.demoUrEntry, sections), env.demoUrEntry(line));
    NewDescription(env, line, job);
  }

  lemma NewDescription(env: Layout, line: string, job: Job)
    requires env.parse(UrpName(line)) == Success(job)
    ensures Open(env, Section(line, [])) == (env.title(line), env.descriptionHead(line, job))
  {
    assert env.descriptionHead(line, job) + "" == env.descriptionHead(line, job);
  }

  /** Why a `.urp` line fails after these jobs: its project does not parse, for the reason given, or it
      names another database than the one agreed on. */
  ghost predicate Explains(env: Layout, line: string, jobs: seq<Job>, failure: Failure) {
    match failure
    case NoDemoApplications => false
    case CannotParse(urp, reason) => urp == UrpName(line) && env.parse(urp) == Result<Job, string>.Failure(reason)
    case DifferentDatabases(agreed, other) =>
      && env.parse(UrpName(line)).Success? && agreed != other
      && FirstDatabase(jobs) == Some(agreed) && env.parse(UrpName(line)).value.database == Some(other)
  }

  /** The failure of a run is that of the first line that fails. */
  ghost predicate ExplainsRun(env: Layout, lines: seq<string>, failure: Failure) {
    exists i | 0 <= i < |lines| ::
      && IsUrpLine(lines[i]) && RunSucceeds(env, lines[..i])
      && Explains(env, lines[i], JobsOf(env, Sections(lines[..i])), failure)
  }

  class Machine {
    const env: Layout
    const combined: CombinedJob
    var pages: seq<Page>
    var intro: string
    var nav: string
    var demoUr: string
    var description: Option<(string, string)>
    var foundFirstUrp: bool

    function Value(): State
      reads this
    {
      State(pages, intro, nav, demoUr, description, foundFirstUrp)
    }

    /** The state after the prose lines `seen`. */
    ghost predicate After(seen: seq<string>)
      reads this, combined
    {
      && AllParse(env, Sections(seen))
      && combined.Merges(JobsOf(env, Sections(seen)))
      && Value() == Expected(env, Intro(seen), Sections(seen))
    }

    constructor (layout: Layout)
      ensures After([]) && fresh(combined) && env == layout
    {
      env := layout;
      combined := new CombinedJob();
      pages, description, foundFirstUrp := [], None, false;
      intro, nav, demoUr := layout.introHead, layout.navHead, layout.demoUrHead;
    }

    method Write(page: Page)
      modifies this`pages
      ensures pages == old(pages) + [page]
    {
      pages := pages + [page];
    }

    method ProseLine(line: string)
      requires foundFirstUrp <==> description.Some?
      modifies this`intro, this`description
      ensures Value() == AfterProse(old(Value()), line)
    {
      if foundFirstUrp {
        match description {
          case Some((name, text)) => description := Some((name, text + line + "\n"));
        }
      } else {
        intro := intro + line + "\n";
      }
    }

    method FlushDescription()
      modifies this`pages, this`description
      ensures pages == old(pages) + Closed(env, old(description)) && description == None
    {
      if description.Some? {
        Write(Page(env.descriptionPath(description.value.0), description.value.1 + env.footer));
        description := None;
      } else {
        assert pages + [] == pages;
      }
    }

    method FlushIntro()
      modifies this`pages, this`intro, this`foundFirstUrp
      ensures pages == old(pages) + FirstPages(env, old(Value())) && intro == ClosedIntro(env, old(Value()))
      ensures foundFirstUrp
    {
      if !foundFirstUrp {
        intro := intro + env.footer;
        Write(Page("intro.html", intro));
        foundFirstUrp := true;
      } else {
        assert pages + [] == pages;
      }
    }

    /** The project of a `.urp` line, parsed and merged with those before it. */
    method MergeProject(line: string, ghost jobs: seq<Job>) returns (failure: Option<Failure>)
      requires combined.Merges(jobs)
      modifies combined
      ensures failure.None? <==>
                env.parse(UrpName(line)).Success? && DatabasesAgree(jobs + [env.parse(UrpName(line)).value])
      ensures failure.None? ==> combined.Merges(jobs + [env.parse(UrpName(line)).value])
      ensures failure.Some? ==> Explains(env, line, jobs, failure.value)
    {
      match env.parse(UrpName(line)) {
        case Failure(reason) => failure := Some(CannotParse(UrpName(line), reason));
        case Success(job) => failure := combined.Merge(job, jobs);
      }
    }

    /** Closes what was open and writes the entries and the frameset of a `.urp` line. */
    method BeginSection(line: string)
      modifies this
      ensures pages == old(pages) + Closed(env, old(description)) + FirstPages(env, old(Value())) + [env.frame(line)]
      ensures intro == ClosedIntro(env, old(Value())) && foundFirstUrp && description == None
      ensures nav == old(nav) + env.navEntry(line) && demoUr == old(demoUr) + env.demoUrEntry(line)
    {
      FlushDescription();
      FlushIntro();
      nav := nav + env.navEntry(line);
      demoUr := demoUr + env.demoUrEntry(line);
      Write(env.frame(line));
    }

    /** A `.urp` line closes what was open, writes its frameset and entries, and merges its job. It
        fails when the project does not parse or names another database. */
    method UrpLine(line: string, ghost jobs: seq<Job>) returns (failure: Option<Failure>)
      requires combined.Merges(jobs)
      modifies this, combined
      ensures failure.None? <==>
                env.parse(UrpName(line)).Success? && DatabasesAgree(jobs + [env.parse(UrpName(line)).value])
      ensures failure.None? ==>
                && Value() == AfterUrp(env, old(Value()), line, env.parse(UrpName(line)).value)
                && combined.Merges(jobs + [env.parse(UrpName(line)).value])
      ensures failure.Some? ==> Explains(env, line, jobs, failure.value)
    {
      BeginSection(line);
      failure := MergeProject(line, jobs);
      if failure.None? {
        description := Some((env.title(line), env.descriptionHead(line, env.parse(UrpName(line)).value)));
      }
    }

    /** One step of the loop. */
    method Line(line: string, ghost seen: seq<string>) returns (failure: Option<Failure>)
      requires After(seen)
      modifies this, combined
      ensures failure.None? ==> After(seen + [line])
      ensures failure.Some? ==> IsUrpLine(line) && !RunSucceeds(env, seen + [line])
      ensures failure.Some? ==>
                AllParse(env, Sections(seen)) && Explains(env, line, JobsOf(env, Sections(seen)), failure.value)
    {
      failure := None;
      if IsUrpLine(line) {
        failure := UrpLine(line, JobsOf(env, Sections(seen)));
        if failure.Some? {
          if RunSucceeds(env, seen + [line]) {
            RunShrinks(env, seen, line);
          }
        } else {
          ExpectedAfterUrp(env, seen, line, env.parse(UrpName(line)).value);
        }
      } else {
        ProseLine(line);
        ExpectedAfterProse(env, seen, line);
      }
    }

    /** The pages of a whole run: what was written at each `.urp` line, then the last section's page,
        the navigation and the main program. */
    method Finish() returns (failure: Option<Failure>)
      modifies this`pages, this`intro, this`nav, this`demoUr, this`description
      ensures failure == if foundFirstUrp then None else Some(NoDemoApplications)
      ensures foundFirstUrp ==> pages == FinalPages(env, old(Value()))
      ensures !foundFirstUrp ==>
                pages == old(pages) + Closed(env, old(description)) + [Page("intro.html", old(intro) + env.footer)]
    {
      FlushDescription();
      if !foundFirstUrp {
        intro := intro + env.footer;
        Write(Page("intro.html", intro));
        return Some(NoDemoApplications);
      }
      nav := nav + env.footer;
      Write(Page("demos.html", nav));
      demoUr := demoUr + DEMO_UR_TAIL;
      Write(Page("demo.ur", demoUr));
      return None;
    }
  }

  const DEMO_UR_TAIL: string := "</body></xml>\n"

  function FinalPages(env: Layout, state: State): seq<Page> {
    state.pages + Closed(env, state.description)
    + [Page("demos.html", state.nav + env.footer)] + [Page("demo.ur", state.demoUr + DEMO_UR_TAIL)]
  }

  /** The run of these lines has no failing `.urp` line. */
  ghost predicate RunSucceeds(env: Layout, lines: seq<string>) {
    AllParse(env, Sections(lines)) && DatabasesAgree(JobsOf(env, Sections(lines)))
  }

  /** A run that succeeds has succeeded at every line before, so one failing line fails it. */
  lemma {:induction false} FailureIsFinal(env: Layout, lines: seq<string>, i: nat)
    requires i <= |lines| && RunSucceeds(env, lines)
    ensures RunSucceeds(env, lines[..i])
    decreases |lines| - i
  {
    if i < |lines| {
      FailureIsFinal(env, lines, i + 1);
      assert lines[..i + 1] == lines[..i] + [lines[i]];
      RunShrinks(env, lines[..i], lines[i]);
    } else {
      assert lines[..i] == lines;
    }
  }

  lemma PrefixAgrees(jobs: seq<Job>, job: Job)
    requires DatabasesAgree(jobs + [job])
    ensures DatabasesAgree(jobs)
  {
    assert forall i | 0 <= i < |jobs| :: (jobs + [job])[i] == jobs[i];
  }

  lemma FewerSectionsSucceed(env: Layout, sections: seq<Section>, s: Section)
    requires AllParse(env, sections + [s]) && DatabasesAgree(JobsOf(env, sections + [s]))
    ensures AllParse(env, sections) && Parses(env, s)
    ensures JobsOf(env, sections + [s]) == JobsOf(env, sections) + [env.parse(UrpName(s.line)).value]
    ensures DatabasesAgree(JobsOf(env, sections))
  {
    var all := sections + [s];
    assert Parses(env, all[|sections|]) && forall i | 0 <= i < |sections| :: all[i] == sections[i];
    SectionBegins(env, [], sections, s);
    PrefixAgrees(JobsOf(env, sections), env.parse(UrpName(s.line)).value);
  }

  lemma ShorterSectionSucceeds(env: Layout, sections: seq<Section>, line: string)
    requires sections != []
    requires AllParse(env, sections[..|sections| - 1] + [Extended(sections[|sections| - 1], line)])
    ensures AllParse(env, sections)
    ensures JobsOf(env, sections[..|sections| - 1] + [Extended(sections[|sections| - 1], line)])
         == JobsOf(env, sections)
  {
    var m := |sections| - 1;
    var grown := sections[..m] + [Extended(sections[m], line)];
    assert Parses(env, grown[m]) && forall i | 0 <= i < m :: grown[i] == sections[i];
    SectionGrows(env, [], sections, line);
  }

  lemma RunShrinks(env: Layout, seen: seq<string>, line: string)
    requires RunSucceeds(env, seen + [line])
    ensures RunSucceeds(env, seen)
    ensures IsUrpLine(line) ==> env.parse(UrpName(line)).Success?
    ensures IsUrpLine(line) ==> DatabasesAgree(JobsOf(env, Sections(seen)) + [env.parse(UrpName(line)).value])
  {
    if IsUrpLine(line) {
      SectionsAfterUrp(seen, line);
      FewerSectionsSucceed(env, Sections(seen), Section(line, []));
    } else {
      SectionsAfterProse(seen, line);
      if Sections(seen) != [] {
        ShorterSectionSucceeds(env, Sections(seen), line);
      }
    }
  }

  lemma FirstFailure(env: Layout, lines: seq<string>, i: nat, failure: Failure)
    requires i < |lines| && IsUrpLine(lines[i]) && RunSucceeds(env, lines[..i]) && !RunSucceeds(env, lines[..i + 1])
    requires Explains(env, lines[i], JobsOf(env, Sections(lines[..i])), failure)
    ensures Sections(lines) != [] && !RunSucceeds(env, lines) && ExplainsRun(env, lines, failure)
  {
    if RunSucceeds(env, lines) {
      FailureIsFinal(env, lines, i + 1);
    }
    SectionsNonEmpty(lines, i);
  }

  /** The loop over the lines. */
  method RunLines(env: Layout, lines: seq<string>) returns (machine: Machine, failure: Option<Failure>)
    ensures fresh(machine) && fresh(machine.combined) && machine.env == env
    ensures failure.None? ==> machine.After(lines)
    ensures failure.Some? ==> Sections(lines) != [] && !RunSucceeds(env, lines)
    ensures failure.Some? ==> ExplainsRun(env, lines, failure.value)
  {
    machine := new Machine(env);
    for i := 0 to |lines|
      invariant machine.env == env && fresh(machine) && fresh(machine.combined)
      invariant machine.After(lines[..i])
    {
      assert lines[..i + 1] == lines[..i] + [lines[i]];
      failure := machine.Line(lines[i], lines[..i]);
      if failure.Some? {
        FirstFailure(env, lines, i, failure.value);
        return;
      }
    }
    assert lines[..|lines|] == lines;
    failure := None;
  }

  lemma NoSections(env: Layout, lines: seq<string>)
    requires Sections(lines) == []
    ensures Intro(lines) == lines
    ensures var state := Expected(env, Intro(lines), Sections(lines));
            && state.pages == [] && state.description == None && !state.foundFirstUrp
            && state.intro + env.footer == IntroPage(env, lines).content
  {
    SectionsKeepLines(lines);
    assert Intro(lines) + [] == Intro(lines);
    assert env.introHead + Unlines(lines) + "" == env.introHead + Unlines(lines);
  }

  /** The whole run. It succeeds exactly when there is a `.urp` line, every sub-project parses and no
      two name different databases; without a `.urp` line it writes the introduction and reports that there
      is no demo. Any other failure is that of the first line that fails. */
  method Make(env: Layout, prose: string) returns (machine: Machine, failure: Option<Failure>)
    ensures failure.None? <==> Sections(Lines(prose)) != [] && RunSucceeds(env, Lines(prose))
    ensures failure == Some(NoDemoApplications) <==> Sections(Lines(prose)) == []
    ensures failure == Some(NoDemoApplications) ==> machine.pages == [IntroPage(env, Lines(prose))]
    ensures failure.Some? && !failure.value.NoDemoApplications? ==> ExplainsRun(env, Lines(prose), failure.value)
    ensures failure.None? ==>
              && machine.combined.Merges(JobsOf(env, Sections(Lines(prose))))
              && machine.pages == FinalPages(env, Expected(env, Intro(Lines(prose)), Sections(Lines(prose))))
  {
    machine, failure := RunLines(env, Lines(prose));
    if failure.None? {
      if Sections(Lines(prose)) == [] {
        NoSections(env, Lines(prose));
      }
      failure := machine.Finish();
    }
  }

  lemma {:induction false} SectionsNonEmpty(lines: seq<string>, i: nat)
    requires i < |lines| && IsUrpLine(lines[i])
    ensures Sections(lines) != []
    decreases |lines|
  {
    var n := |lines| - 1;
    if i < n {
      SectionsNonEmpty(lines[..n], i);
    }
  }
}
