/** The files a run of `demo.rs` leaves: what each page holds, and when none replaces another. */
module DemoFiles {
  import opened Wrappers
  import opened Strings
  import opened TextRows
  import opened Demo
  import opened DemoPages

  // ----- Pages on disk

  /** Files after writing the pages in order: a later page replaces an earlier one of the same path. */
  function OnDisk(pages: seq<Page>): map<string, string> {
    if pages == [] then map[]
    else
      var n := |pages| - 1;
      OnDisk(pages[..n])[pages[n].path := pages[n].content]
  }

  ghost predicate IsKept(pages: seq<Page>, i: nat)
    requires i < |pages|
  {
    pages[i].path in OnDisk(pages) && OnDisk(pages)[pages[i].path] == pages[i].content
  }

  ghost predicate DistinctPaths(pages: seq<Page>) {
    forall i, j | 0 <= i < j < |pages| :: pages[i].path != pages[j].path
  }

  /** The last page of a path is the one on disk. */
  lemma {:induction false} LastWriteStays(pages: seq<Page>, i: nat)
    requires i < |pages| && forall j | i < j < |pages| :: pages[j].path != pages[i].path
    ensures IsKept(pages, i)
    decreases |pages|
  {
    var n := |pages| - 1;
    if i < n {
      LastWriteStays(pages[..n], i);
      assert pages[..n][i] == pages[i] && pages[n].path != pages[i].path;
    }
  }

  lemma {:induction false} LastOfPath(pages: seq<Page>, i: nat) returns (last: nat)
    requires i < |pages|
    ensures i <= last < |pages| && pages[last].path == pages[i].path
    ensures forall j | last < j < |pages| :: pages[j].path != pages[last].path
    decreases |pages| - i
  {
    if j :| i < j < |pages| && pages[j].path == pages[i].path {
      last := LastOfPath(pages, j);
    } else {
      last := i;
    }
  }

  /** A page is on disk at the end exactly when the last page of its path has the same content. */
  lemma KeptIff(pages: seq<Page>, i: nat)
    requires i < |pages|
    ensures IsKept(pages, i) <==>
              forall last | i <= last < |pages| && pages[last].path == pages[i].path
                            && (forall j | last < j < |pages| :: pages[j].path != pages[last].path) ::
                pages[last].content == pages[i].content
  {
    var last := LastOfPath(pages, i);
    LastWriteStays(pages, last);
    forall other | i <= other < |pages| && pages[other].path == pages[i].path
                   && (forall j | other < j < |pages| :: pages[j].path != pages[other].path)
      ensures pages[other].content == OnDisk(pages)[pages[i].path]
    {
      LastWriteStays(pages, other);
    }
  }

  // ----- When no page of a demo replaces another

  /** The paths of the demo builder. */
  ghost predicate IsDemoLayout(env: Layout, casing: Casing) {
    forall line ::
      && env.frame(line).path == BaseName(line) + ".html"
      && env.descriptionPath(env.title(line)) == Stem(casing, line) + ".desc.html"
  }

  datatype Kind =
    | Entry | MainSignature | Introduction | Frameset(k: nat) | Description(k: nat) | Navigation | MainProgram

  predicate IsKind(n: nat, kind: Kind) { (kind.Frameset? || kind.Description?) ==> kind.k < n }

  /** The place of a page in a run of `n` sections, and back. */
  function PlaceOf(n: nat, kind: Kind): nat {
    match kind
    case Entry => 0
    case MainSignature => 1
    case Introduction => 2
    case Frameset(k) => 2 * k + 3
    case Description(k) => 2 * k + 4
    case Navigation => 2 * n + 3
    case MainProgram => 2 * n + 4
  }

  function KindAt(n: nat, i: nat): Kind
    requires i < 2 * n + 5
  {
    if i == 0 then Entry
    else if i == 1 then MainSignature
    else if i == 2 then Introduction
    else if i == 2 * n + 3 then Navigation
    else if i == 2 * n + 4 then MainProgram
    else if i % 2 == 1 then Frameset(i / 2 - 1)
    else Description(i / 2 - 2)
  }

  lemma PlaceOfKind(n: nat, i: nat)
    requires i < 2 * n + 5
    ensures IsKind(n, KindAt(n, i)) && PlaceOf(n, KindAt(n, i)) == i
  {
  }

  lemma KindOfPlace(n: nat, kind: Kind)
    requires IsKind(n, kind)
    ensures PlaceOf(n, kind) < 2 * n + 5 && KindAt(n, PlaceOf(n, kind)) == kind
  {
  }

  function PathFor(casing: Casing, sections: seq<Section>, kind: Kind): string
    requires IsKind(|sections|, kind)
  {
    match kind
    case Entry => "index.html"
    case MainSignature => "demo.urs"
    case Introduction => "intro.html"
    case Frameset(k) => BaseName(sections[k].line) + ".html"
    case Description(k) => Stem(casing, sections[k].line) + ".desc.html"
    case Navigation => "demos.html"
    case MainProgram => "demo.ur"
  }

  lemma SectionPaths(env: Layout, casing: Casing, intro: seq<string>, sections: seq<Section>, k: nat)
    requires IsDemoLayout(env, casing) && AllParse(env, sections) && k < |sections|
    ensures |AllPages(env, intro, sections)| == 2 * |sections| + 5
    ensures AllPages(env, intro, sections)[2 * k + 3].path == BaseName(sections[k].line) + ".html"
    ensures AllPages(env, intro, sections)[2 * k + 4].path == Stem(casing, sections[k].line) + ".desc.html"
  {
    AllPagesAt(env, intro, sections, k);
  }

  lemma PageFor(env: Layout, casing: Casing, intro: seq<string>, sections: seq<Section>, kind: Kind)
    requires IsDemoLayout(env, casing) && AllParse(env, sections) && sections != [] && IsKind(|sections|, kind)
    ensures var pages := AllPages(env, intro, sections);
            && |pages| == 2 * |sections| + 5
            && pages[PlaceOf(|sections|, kind)].path == PathFor(casing, sections, kind)
  {
    if kind.Frameset? || kind.Description? {
      SectionPaths(env, casing, intro, sections, kind.k);
    } else {
      AllPageOrder(env, intro, sections);
    }
  }

  /** The builder's own page names, which no project may have. */
  predicate IsReserved(base: string) { base == "index" || base == "intro" || base == "demos" }

  /** Different descriptions, and no frameset in the place of another kind of page. */
  ghost predicate NamesApart(casing: Casing, sections: seq<Section>) {
    && (forall i, j | 0 <= i < j < |sections| :: Stem(casing, sections[i].line) != Stem(casing, sections[j].line))
    && (forall i | 0 <= i < |sections| :: !IsReserved(BaseName(sections[i].line)))
    && (forall i, j | 0 <= i < |sections| && 0 <= j < |sections| ::
          BaseName(sections[i].line) != Stem(casing, sections[j].line) + ".desc")
  }

  lemma FramePath(base: string)
    ensures base + ".html" == "index.html" <==> base == "index"
    ensures base + ".html" == "intro.html" <==> base == "intro"
    ensures base + ".html" == "demos.html" <==> base == "demos"
    ensures base + ".html" != "demo.ur" && base + ".html" != "demo.urs"
  {
    SuffixCancels(base, "index", ".html");
    SuffixCancels(base, "intro", ".html");
    SuffixCancels(base, "demos", ".html");
    assert "index" + ".html" == "index.html" && "intro" + ".html" == "intro.html" && "demos" + ".html" == "demos.html";
    assert (base + ".html")[|base| + 4] == 'l' && "demo.ur"[6] == 'r' && "demo.urs"[7] == 's';
  }

  lemma DescriptionPathApart(stem: string)
    ensures stem + ".desc.html" != "index.html"
    ensures stem + ".desc.html" != "intro.html"
    ensures stem + ".desc.html" != "demos.html"
    ensures stem + ".desc.html" != "demo.ur" && stem + ".desc.html" != "demo.urs"
  {
    var path := stem + ".desc.html";
    assert path[|stem|] == '.' && |path| == |stem| + 10;
    OwnPathsApart();
    assert "index.html"[0] == 'i' && "intro.html"[0] == 'i' && "demos.html"[0] == 'd';
  }

  lemma FrameMeetsDescription(base: string, stem: string)
    ensures base + ".html" == stem + ".desc.html" <==> base == stem + ".desc"
  {
    assert stem + ".desc.html" == (stem + ".desc") + ".html";
    SuffixCancels(base, stem + ".desc", ".html");
  }

  lemma SameBaseSameStem(casing: Casing, a: string, b: string)
    requires BaseName(a) == BaseName(b)
    ensures Stem(casing, a) == Stem(casing, b)
  {
  }

  lemma KindsApart(casing: Casing, sections: seq<Section>, a: Kind, b: Kind)
    requires IsKind(|sections|, a) && IsKind(|sections|, b) && a != b && NamesApart(casing, sections)
    ensures PathFor(casing, sections, a) != PathFor(casing, sections, b)
  {
    match (a, b) {
      case (Frameset(i), Frameset(j)) =>
        SuffixCancels(BaseName(sections[i].line), BaseName(sections[j].line), ".html");
        if BaseName(sections[i].line) == BaseName(sections[j].line) {
          SameBaseSameStem(casing, sections[i].line, sections[j].line);
        }
      case (Description(i), Description(j)) =>
        SuffixCancels(Stem(casing, sections[i].line), Stem(casing, sections[j].line), ".desc.html");
      case (Frameset(i), Description(j)) =>
        FrameMeetsDescription(BaseName(sections[i].line), Stem(casing, sections[j].line));
      case (Description(i), Frameset(j)) =>
        FrameMeetsDescription(BaseName(sections[j].line), Stem(casing, sections[i].line));
      case (Frameset(i), _) => FramePath(BaseName(sections[i].line));
      case (_, Frameset(j)) => FramePath(BaseName(sections[j].line));
      case (Description(i), _) => DescriptionPathApart(Stem(casing, sections[i].line));
      case (_, Description(j)) => DescriptionPathApart(Stem(casing, sections[j].line));
      case _ => OwnPathsApart();
    }
  }

  lemma OwnPathsApart()
    ensures "index.html" != "intro.html" && "index.html" != "demos.html" && "intro.html" != "demos.html"
    ensures |"demo.ur"| == 7 && |"demo.urs"| == 8
    ensures |"index.html"| == 10 && |"intro.html"| == 10 && |"demos.html"| == 10
  {
    assert "index.html"[2] == 'd' && "intro.html"[2] == 't' && "demos.html"[0] == 'd';
  }

  lemma KindsApartOnly(casing: Casing, sections: seq<Section>)
    requires forall a, b | IsKind(|sections|, a) && IsKind(|sections|, b) && a != b ::
               PathFor(casing, sections, a) != PathFor(casing, sections, b)
    ensures NamesApart(casing, sections)
  {
    forall i, j | 0 <= i < j < |sections| ensures Stem(casing, sections[i].line) != Stem(casing, sections[j].line) {
      assert PathFor(casing, sections, Description(i)) != PathFor(casing, sections, Description(j));
    }
    forall i | 0 <= i < |sections| ensures !IsReserved(BaseName(sections[i].line)) {
      FramePath(BaseName(sections[i].line));
      assert PathFor(casing, sections, Frameset(i)) != PathFor(casing, sections, Entry);
      assert PathFor(casing, sections, Frameset(i)) != PathFor(casing, sections, Introduction);
      assert PathFor(casing, sections, Frameset(i)) != PathFor(casing, sections, Navigation);
    }
    forall i, j | 0 <= i < |sections| && 0 <= j < |sections|
      ensures BaseName(sections[i].line) != Stem(casing, sections[j].line) + ".desc"
    {
      FrameMeetsDescription(BaseName(sections[i].line), Stem(casing, sections[j].line));
      assert PathFor(casing, sections, Frameset(i)) != PathFor(casing, sections, Description(j));
    }
  }

  /** No path of a run is written twice exactly when the names are apart. */
  lemma PathsDistinctIff(env: Layout, casing: Casing, intro: seq<string>, sections: seq<Section>)
    requires IsDemoLayout(env, casing) && AllParse(env, sections) && sections != []
    ensures DistinctPaths(AllPages(env, intro, sections)) <==> NamesApart(casing, sections)
  {
    var pages, n := AllPages(env, intro, sections), |sections|;
    AllPageOrder(env, intro, sections);
    if NamesApart(casing, sections) {
      forall i, j | 0 <= i < j < |pages| ensures pages[i].path != pages[j].path {
        PlaceOfKind(n, i);
        PlaceOfKind(n, j);
        PageFor(env, casing, intro, sections, KindAt(n, i));
        PageFor(env, casing, intro, sections, KindAt(n, j));
        KindsApart(casing, sections, KindAt(n, i), KindAt(n, j));
      }
    }
    if DistinctPaths(pages) {
      forall a, b | IsKind(n, a) && IsKind(n, b) && a != b
        ensures PathFor(casing, sections, a) != PathFor(casing, sections, b)
      {
        KindOfPlace(n, a);
        KindOfPlace(n, b);
        PageFor(env, casing, intro, sections, a);
        PageFor(env, casing, intro, sections, b);
        assert PlaceOf(n, a) != PlaceOf(n, b);
      }
      KindsApartOnly(casing, sections);
    }
  }

  lemma HtmlLayoutIsDemo(prefix: string, guided: bool, casing: Casing, parse: string -> Result<Job, string>,
                         links: seq<string> -> string)
    ensures IsDemoLayout(HtmlLayout(prefix, guided, casing, parse, links), casing)
  {
  }

  // ----- What each page holds

  const FOOTER := "\n</body></html>\n"

  /** Between its head and the footer the page has just these lines. */
  ghost predicate HoldsLines(page: Page, head: string, lines: seq<string>) {
    exists body :: page.content == head + body + FOOTER && Rows(body) == lines + [""]
  }

  ghost predicate IsIntroduction(page: Page, intro: seq<string>) {
    page.path == "intro.html" && HoldsLines(page, "<html><head>\n<title>Ur/Web Demo</title>\n</head><body>\n\n", intro)
  }

  /** The application above or left, the description in the other frame. */
  ghost predicate IsFrameset(page: Page, prefix: string, guided: bool, base: string, title: string) {
    && page.path == base + ".html"
    && page.content == "<frameset rows=\"" + (if guided then "*,100" else "50%,*") + "\">\n"
                       + "<frame src=\"" + prefix + "/" + title + "/main\" name=\"showcase\">\n"
                       + "<frame src=\"" + (base + ".desc.html") + "\">\n" + "</frameset>\n"
  }

  /** Title, and links to the application, the project file and the sources. */
  function DescriptionStart(prefix: string, title: string, urp: string, links: string): string {
    "<html><head>\n<title>" + title + "</title>\n</head><body>\n\n<h1>" + title + "</h1>\n\n"
    + "<center>[ <a target=\"showcase\" href=\"" + prefix + "/" + title + "/main\">Application</a>"
    + " | <a target=\"showcase\" href=\"" + urp + ".html\"><tt>" + urp + "</tt></a>"
    + links + " ]</center>\n\n"
  }

  /** That, and then the section's lines. */
  ghost predicate IsDescription(page: Page, prefix: string, stem: string, title: string, urp: string, links: string,
                                lines: seq<string>)
  {
    page.path == stem + ".desc.html" && HoldsLines(page, DescriptionStart(prefix, title, urp, links), lines)
  }

  /** The texts of the first `n` items, one after the other. */
  function Items(n: nat, item: nat -> string): string { if n == 0 then "" else Items(n - 1, item) + item(n - 1) }

  /** A list item that leads to the frameset of a project. */
  function FramesetLink(casing: Casing, line: string): string {
    "<li> <a target=\"staging\" href=\"" + BaseName(line) + ".html\">" + Title(casing, line) + "</a></li>\n"
  }

  /** A link to the main function of a project. */
  function MainLink(casing: Casing, line: string): string {
    "  <li> <a link={" + Title(casing, line) + ".main ()}>" + Title(casing, line) + "</a></li>\n"
  }

  /** One such text for each section. */
  function ItemAt(link: string -> string, sections: seq<Section>): nat -> string {
    (k: nat) => if k < |sections| then link(sections[k].line) else ""
  }

  /** The introduction and then every project, in section order. */
  ghost predicate IsNavigation(page: Page, casing: Casing, sections: seq<Section>) {
    && page.path == "demos.html"
    && page.content == "<html><body>\n\n<li> <a target=\"staging\" href=\"intro.html\">Intro</a></li>\n\n"
                       + Items(|sections|, ItemAt(line => FramesetLink(casing, line), sections)) + FOOTER
  }

  /** One link to every project, in section order. */
  ghost predicate IsProgram(page: Page, casing: Casing, sections: seq<Section>) {
    && page.path == "demo.ur"
    && page.content == "fun main () : transaction page = return <xml><body>\n"
                       + Items(|sections|, ItemAt(line => MainLink(casing, line), sections)) + "</body></xml>\n"
  }

  lemma {:induction false} UnlinesRows(lines: seq<string>, last: string)
    requires '\n' !in last && forall i | 0 <= i < |lines| :: '\n' !in lines[i]
    ensures Rows(Unlines(lines) + last) == lines + [last]
    decreases |lines|
  {
    if lines == [] {
      assert "" + last == last;
      OneRow(last);
    } else {
      var n := |lines| - 1;
      UnlinesRows(lines[..n], lines[n]);
      RowsJoined(Unlines(lines[..n]) + lines[n], last);
      OneRow(last);
      assert lines[..n] + [lines[n]] == lines;
    }
  }

  lemma PageHoldsLines(page: Page, head: string, lines: seq<string>)
    requires page.content == head + Unlines(lines) + FOOTER
    requires forall i | 0 <= i < |lines| :: '\n' !in lines[i]
    ensures HoldsLines(page, head, lines)
  {
    UnlinesRows(lines, "");
    assert Unlines(lines) + "" == Unlines(lines);
  }

  lemma {:induction false} EntriesAreItems(entry: string -> string, sections: seq<Section>, n: nat, item: nat -> string)
    requires n <= |sections| && forall k | 0 <= k < |sections| :: entry(sections[k].line) == item(k)
    ensures Entries(entry, sections[..n]) == Items(n, item)
    decreases n
  {
    if n > 0 {
      assert sections[..n][..n - 1] == sections[..n - 1];
      EntriesAreItems(entry, sections, n - 1, item);
    }
  }

  lemma EntriesAreLinks(entry: string -> string, sections: seq<Section>, link: string -> string)
    requires forall line :: entry(line) == link(line)
    ensures Entries(entry, sections) == Items(|sections|, ItemAt(link, sections))
  {
    EntriesAreItems(entry, sections, |sections|, ItemAt(link, sections));
    assert sections[..|sections|] == sections;
  }

  /** No line of the prose holds a line feed, so none of a section's does. */
  lemma {:induction false} BodiesAreLines(lines: seq<string>, k: nat, i: nat)
    requires k < |Sections(lines)| && i < |Sections(lines)[k].body|
    ensures Sections(lines)[k].body[i] in lines
    decreases |lines|
  {
    if lines != [] {
      var n := |lines| - 1;
      var before := Sections(lines[..n]);
      if k < |before| && i < |before[k].body| {
        BodiesAreLines(lines[..n], k, i);
      }
    }
  }

  lemma IntroIsLines(lines: seq<string>)
    ensures Intro(lines) <= lines
  {
    SectionsKeepLines(lines);
  }

  // ----- The builder's own texts

  ghost predicate HasHeads(env: Layout) {
    && env.footer == FOOTER
    && env.introHead == "<html><head>\n<title>Ur/Web Demo</title>\n</head><body>\n\n"
    && env.navHead == "<html><body>\n\n<li> <a target=\"staging\" href=\"intro.html\">Intro</a></li>\n\n"
    && env.demoUrHead == "fun main () : transaction page = return <xml><body>\n"
  }

  ghost predicate HasItems(env: Layout, casing: Casing) {
    && (forall line :: env.navEntry(line) == FramesetLink(casing, line))
    && (forall line :: env.demoUrEntry(line) == MainLink(casing, line))
  }

  ghost predicate HasSectionTexts(env: Layout, prefix: string, guided: bool, casing: Casing,
                                  links: seq<string> -> string)
  {
    && IsDemoLayout(env, casing)
    && (forall line :: IsFrameset(env.frame(line), prefix, guided, BaseName(line), Title(casing, line)))
    && (forall line, job: Job :: env.descriptionHead(line, job)
                              == DescriptionStart(prefix, Title(casing, line), UrpName(line), links(job.sources)))
  }

  lemma HtmlHeads(prefix: string, guided: bool, casing: Casing, parse: string -> Result<Job, string>,
                  links: seq<string> -> string)
    ensures HasHeads(HtmlLayout(prefix, guided, casing, parse, links))
    ensures HtmlLayout(prefix, guided, casing, parse, links).parse == parse
  {
  }

  lemma HtmlLine(prefix: string, guided: bool, casing: Casing, parse: string -> Result<Job, string>,
                 links: seq<string> -> string, line: string)
    ensures var env := HtmlLayout(prefix, guided, casing, parse, links);
            && env.navEntry(line) == FramesetLink(casing, line)
            && env.demoUrEntry(line) == MainLink(casing, line)
            && IsFrameset(env.frame(line), prefix, guided, BaseName(line), Title(casing, line))
  {
  }

  lemma HtmlDescription(prefix: string, guided: bool, casing: Casing, parse: string -> Result<Job, string>,
                        links: seq<string> -> string, line: string, job: Job)
    ensures HtmlLayout(prefix, guided, casing, parse, links).descriptionHead(line, job)
         == DescriptionStart(prefix, Title(casing, line), UrpName(line), links(job.sources))
  {
  }

  lemma HtmlHasItems(prefix: string, guided: bool, casing: Casing, parse: string -> Result<Job, string>,
                     links: seq<string> -> string)
    ensures HasItems(HtmlLayout(prefix, guided, casing, parse, links), casing)
  {
    var env := HtmlLayout(prefix, guided, casing, parse, links);
    forall line
      ensures env.navEntry(line) == FramesetLink(casing, line) && env.demoUrEntry(line) == MainLink(casing, line)
    {
      HtmlLine(prefix, guided, casing, parse, links, line);
    }
  }

  lemma HtmlHasSectionTexts(prefix: string, guided: bool, casing: Casing, parse: string -> Result<Job, string>,
                            links: seq<string> -> string)
    ensures HasSectionTexts(HtmlLayout(prefix, guided, casing, parse, links), prefix, guided, casing, links)
  {
    var env := HtmlLayout(prefix, guided, casing, parse, links);
    HtmlLayoutIsDemo(prefix, guided, casing, parse, links);
    forall line ensures IsFrameset(env.frame(line), prefix, guided, BaseName(line), Title(casing, line)) {
      HtmlLine(prefix, guided, casing, parse, links, line);
    }
    forall line, job: Job
      ensures env.descriptionHead(line, job)
           == DescriptionStart(prefix, Title(casing, line), UrpName(line), links(job.sources))
    {
      HtmlDescription(prefix, guided, casing, parse, links, line, job);
    }
  }

  lemma IntroductionIs(env: Layout, intro: seq<string>)
    requires HasHeads(env) && forall i | 0 <= i < |intro| :: '\n' !in intro[i]
    ensures IsIntroduction(IntroPage(env, intro), intro)
  {
    PageHoldsLines(IntroPage(env, intro), env.introHead, intro);
  }

  lemma ClosingPagesAre(env: Layout, intro: seq<string>, sections: seq<Section>)
    requires AllParse(env, sections) && sections != []
    ensures var pages, n := AllPages(env, intro, sections), |sections|;
            && |pages| == 2 * n + 5
            && pages[2 * n + 3] == Page("demos.html", env.navHead + Entries(env.navEntry, sections) + env.footer)
            && pages[2 * n + 4] == Page("demo.ur", env.demoUrHead + Entries(env.demoUrEntry, sections) + DEMO_UR_TAIL)
  {
    PageCount(env, intro, sections);
    LastPage(env, intro, sections);
  }

  lemma NavigationIs(env: Layout, casing: Casing, intro: seq<string>, sections: seq<Section>)
    requires sections != [] && AllParse(env, sections) && HasHeads(env)
    requires HasItems(env, casing)
    ensures var pages, n := AllPages(env, intro, sections), |sections|;
            && |pages| == 2 * n + 5
            && IsNavigation(pages[2 * n + 3], casing, sections) && IsProgram(pages[2 * n + 4], casing, sections)
  {
    EntriesAreLinks(env.navEntry, sections, line => FramesetLink(casing, line));
    EntriesAreLinks(env.demoUrEntry, sections, line => MainLink(casing, line));
    ClosingPagesAre(env, intro, sections);
  }

  // ----- The whole builder

  /** The two pages of a section. */
  ghost predicate IsProject(frame: Page, description: Page, prefix: string, guided: bool, casing: Casing,
                            parse: string -> Result<Job, string>, links: seq<string> -> string, s: Section)
  {
    var title, urp := Title(casing, s.line), UrpName(s.line);
    && IsFrameset(frame, prefix, guided, BaseName(s.line), title)
    && parse(urp).Success?
    && IsDescription(description, prefix, Stem(casing, s.line), title, urp, links(parse(urp).value.sources), s.body)
  }

  /** First the entry page, the signature and the introduction, last the navigation and the program. */
  ghost predicate HasEnds(pages: seq<Page>, casing: Casing, intro: seq<string>, sections: seq<Section>) {
    var n := |sections|;
    && |pages| == 2 * n + 5
    && pages[0] == IndexPage() && pages[1] == SignaturePage() && IsIntroduction(pages[2], intro)
    && IsNavigation(pages[2 * n + 3], casing, sections) && IsProgram(pages[2 * n + 4], casing, sections)
  }

  /** In between, the two pages of each section, in order. */
  ghost predicate HasProjects(pages: seq<Page>, right: (Page, Page, Section) -> bool, sections: seq<Section>) {
    && |pages| == 2 * |sections| + 5
    && forall k | 0 <= k < |sections| :: right(pages[2 * k + 3], pages[2 * k + 4], sections[k])
  }

  ghost function ProjectTest(prefix: string, guided: bool, casing: Casing, parse: string -> Result<Job, string>,
                             links: seq<string> -> string): (Page, Page, Section) -> bool
  {
    (frame: Page, description: Page, s: Section) =>
      IsProject(frame, description, prefix, guided, casing, parse, links, s)
  }

  /** Everything a successful run writes, read off its sections. */
  ghost predicate IsDemo(pages: seq<Page>, prefix: string, guided: bool, casing: Casing,
                         parse: string -> Result<Job, string>, links: seq<string> -> string,
                         intro: seq<string>, sections: seq<Section>)
  {
    && HasEnds(pages, casing, intro, sections)
    && HasProjects(pages, ProjectTest(prefix, guided, casing, parse, links), sections)
  }

  lemma ProjectPages(prefix: string, guided: bool, casing: Casing, parse: string -> Result<Job, string>,
                     links: seq<string> -> string, env: Layout, s: Section)
    requires HasHeads(env) && HasSectionTexts(env, prefix, guided, casing, links) && env.parse == parse
    requires Parses(env, s)
    requires forall i | 0 <= i < |s.body| :: '\n' !in s.body[i]
    ensures IsProject(env.frame(s.line), DescPage(env, s), prefix, guided, casing, parse, links, s)
  {
    var head := env.descriptionHead(s.line, parse(UrpName(s.line)).value);
    assert DescPage(env, s).content == head + Unlines(s.body) + FOOTER;
    PageHoldsLines(DescPage(env, s), head, s.body);
  }

  lemma BodyHasNoLineFeed(lines: seq<string>, k: nat)
    requires k < |Sections(lines)| && forall i | 0 <= i < |lines| :: '\n' !in lines[i]
    ensures forall i | 0 <= i < |Sections(lines)[k].body| :: '\n' !in Sections(lines)[k].body[i]
  {
    forall i | 0 <= i < |Sections(lines)[k].body| ensures '\n' !in Sections(lines)[k].body[i] {
      BodiesAreLines(lines, k, i);
    }
  }

  /** The middle of a run, for any layout whose section pages are right. */
  lemma ProjectsAt(env: Layout, intro: seq<string>, sections: seq<Section>, right: (Page, Page, Section) -> bool)
    requires AllParse(env, sections) && sections != []
    requires forall k | 0 <= k < |sections| ::
               right(env.frame(sections[k].line), DescPage(env, sections[k]), sections[k])
    ensures HasProjects(AllPages(env, intro, sections), right, sections)
  {
    AllPageOrder(env, intro, sections);
    var pages := AllPages(env, intro, sections);
    forall k | 0 <= k < |sections| ensures right(pages[2 * k + 3], pages[2 * k + 4], sections[k]) {
      AllPagesAt(env, intro, sections, k);
    }
  }

  lemma EndsAre(env: Layout, casing: Casing, intro: seq<string>, sections: seq<Section>)
    requires sections != [] && AllParse(env, sections) && HasHeads(env)
    requires HasItems(env, casing)
    requires forall i | 0 <= i < |intro| :: '\n' !in intro[i]
    ensures HasEnds(AllPages(env, intro, sections), casing, intro, sections)
  {
    AllPageOrder(env, intro, sections);
    IntroductionIs(env, intro);
    NavigationIs(env, casing, intro, sections);
  }

  lemma ProjectsAre(prefix: string, guided: bool, casing: Casing, parse: string -> Result<Job, string>,
                    links: seq<string> -> string, env: Layout, intro: seq<string>, lines: seq<string>)
    requires HasHeads(env) && HasSectionTexts(env, prefix, guided, casing, links) && env.parse == parse
    requires Sections(lines) != [] && AllParse(env, Sections(lines))
    requires forall i | 0 <= i < |lines| :: '\n' !in lines[i]
    ensures HasProjects(AllPages(env, intro, Sections(lines)), ProjectTest(prefix, guided, casing, parse, links),
                        Sections(lines))
  {
    var sections, right := Sections(lines), ProjectTest(prefix, guided, casing, parse, links);
    forall k | 0 <= k < |sections| ensures right(env.frame(sections[k].line), DescPage(env, sections[k]), sections[k]) {
      assert Parses(env, sections[k]);
      BodyHasNoLineFeed(lines, k);
      ProjectPages(prefix, guided, casing, parse, links, env, sections[k]);
    }
    ProjectsAt(env, intro, sections, right);
  }

  /** The entry page shows the navigation beside the introduction; links in the one open in the other. */
  lemma EntryPageIs()
    ensures IndexPage().path == "index.html" && SignaturePage().path == "demo.urs"
    ensures IndexPage().content
         == "<frameset cols=\"15%,85%\">\n<frame src=\"demos.html\">\n"
            + "<frame src=\"intro.html\" name=\"staging\">\n</frameset>\n"
    ensures SignaturePage().content == "val main : unit -> transaction page\n"
  {
  }

  lemma PagesAreDemo(prefix: string, guided: bool, casing: Casing, parse: string -> Result<Job, string>,
                     links: seq<string> -> string, env: Layout, lines: seq<string>)
    requires HasHeads(env) && HasItems(env, casing) && HasSectionTexts(env, prefix, guided, casing, links)
    requires env.parse == parse && Sections(lines) != [] && AllParse(env, Sections(lines))
    requires forall i | 0 <= i < |lines| :: '\n' !in lines[i]
    ensures IsDemo(AllPages(env, Intro(lines), Sections(lines)), prefix, guided, casing, parse, links, Intro(lines),
                   Sections(lines))
  {
    IntroIsLines(lines);
    EndsAre(env, casing, Intro(lines), Sections(lines));
    ProjectsAre(prefix, guided, casing, parse, links, env, Intro(lines), lines);
  }

  lemma HtmlPagesAreDemo(prefix: string, guided: bool, casing: Casing, parse: string -> Result<Job, string>,
                         links: seq<string> -> string, env: Layout, lines: seq<string>)
    requires env == HtmlLayout(prefix, guided, casing, parse, links)
    requires Sections(lines) != [] && AllParse(env, Sections(lines))
    requires forall i | 0 <= i < |lines| :: '\n' !in lines[i]
    ensures IsDemo(AllPages(env, Intro(lines), Sections(lines)), prefix, guided, casing, parse, links, Intro(lines),
                   Sections(lines))
  {
    HtmlHeads(prefix, guided, casing, parse, links);
    HtmlHasItems(prefix, guided, casing, parse, links);
    HtmlHasSectionTexts(prefix, guided, casing, parse, links);
    PagesAreDemo(prefix, guided, casing, parse, links, env, lines);
  }

  lemma DistinctAreKept(pages: seq<Page>)
    requires DistinctPaths(pages)
    ensures forall i | 0 <= i < |pages| :: IsKept(pages, i)
  {
    forall i | 0 <= i < |pages| ensures IsKept(pages, i) {
      LastWriteStays(pages, i);
    }
  }

  /** The whole builder with its own texts. A successful run writes the entry page, the signature, the
      introduction, the frameset and the description of each section in order, the navigation and the
      main program; no path is written twice exactly when the names are apart, and then every page is on
      disk afterwards. */
  method MakeDemo(prefix: string, guided: bool, casing: Casing, parse: string -> Result<Job, string>,
                  links: seq<string> -> string, prose: string)
      returns (machine: Machine, pages: seq<Page>, failure: Option<Failure>)
    ensures pages == [IndexPage(), SignaturePage()] + machine.pages
    ensures failure.None? ==>
              var lines := Lines(prose);
              && IsDemo(pages, prefix, guided, casing, parse, links, Intro(lines), Sections(lines))
              && (DistinctPaths(pages) <==> NamesApart(casing, Sections(lines)))
    ensures failure.None? && NamesApart(casing, Sections(Lines(prose))) ==>
              forall i | 0 <= i < |pages| :: IsKept(pages, i)
  {
    var env := HtmlLayout(prefix, guided, casing, parse, links);
    pages := [IndexPage(), SignaturePage()];
    machine, failure := Make(env, prose);
    pages := pages + machine.pages;
    if failure.None? {
      var intro, sections := Intro(Lines(prose)), Sections(Lines(prose));
      HtmlLayoutIsDemo(prefix, guided, casing, parse, links);
      LinesHaveNoLineFeed(prose);
      HtmlPagesAreDemo(prefix, guided, casing, parse, links, env, Lines(prose));
      PathsDistinctIff(env, casing, intro, sections);
      if NamesApart(casing, sections) {
        DistinctAreKept(pages);
      }
    }
  }

  /** A project named after one of the builder's first pages puts its frameset in its place. */
  lemma FrameIsLast(env: Layout, casing: Casing, intro: seq<string>, s: Section)
    requires IsDemoLayout(env, casing) && Parses(env, s) && IsReserved(BaseName(s.line)) && BaseName(s.line) != "demos"
    ensures |AllPages(env, intro, [s])| == 7 && AllPages(env, intro, [s])[3] == env.frame(s.line)
    ensures IsKept(AllPages(env, intro, [s]), 3)
  {
    var pages := AllPages(env, intro, [s]);
    AllPageOrder(env, intro, [s]);
    AllPagesAt(env, intro, [s], 0);
    FramePath(BaseName(s.line));
    DescriptionPathApart(Stem(casing, s.line));
    forall j | 3 < j < 7 ensures pages[j].path != pages[3].path {
      if j == 4 {
        assert pages[4] == DescPage(env, s);
      }
    }
    LastWriteStays(pages, 3);
  }

  /** `index.urp`: what is on disk as the entry page is the project's frameset. */
  lemma IndexIsReplaced(env: Layout, casing: Casing, intro: seq<string>, s: Section)
    requires IsDemoLayout(env, casing) && Parses(env, s) && BaseName(s.line) == "index"
    ensures var pages := AllPages(env, intro, [s]);
            && |pages| == 7 && pages[0] == IndexPage() && pages[3] == env.frame(s.line)
            && pages[3].path == pages[0].path && IsKept(pages, 3)
  {
    FrameIsLast(env, casing, intro, s);
    FramePath(BaseName(s.line));
  }

  /** `intro.urp`: the same for the introduction. */
  lemma IntroIsReplaced(env: Layout, casing: Casing, intro: seq<string>, s: Section)
    requires IsDemoLayout(env, casing) && Parses(env, s) && BaseName(s.line) == "intro"
    ensures var pages := AllPages(env, intro, [s]);
            && |pages| == 7 && pages[2] == IntroPage(env, intro) && pages[3] == env.frame(s.line)
            && pages[3].path == pages[2].path && IsKept(pages, 3)
  {
    AllPageOrder(env, intro, [s]);
    FrameIsLast(env, casing, intro, s);
    FramePath(BaseName(s.line));
  }
}
