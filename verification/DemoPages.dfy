/** The texts `demo.rs` writes for each `.urp` line, and whether a frameset finds its description page. */
module DemoPages {
  import opened Wrappers
  import opened Strings
  import opened Demo

  /** How letters change case; one letter can become several. */
  datatype Casing = Casing(upper: char -> string, lower: char -> string)

  function Capitalize(casing: Casing, s: string): string { if s == "" then "" else casing.upper(s[0]) + s[1..] }

  function Uncapitalize(casing: Casing, s: string): string { if s == "" then "" else casing.lower(s[0]) + s[1..] }

  function BaseName(line: string): string {
    var urp := UrpName(line);
    if EndsWith(urp, ".urp") then urp[..|urp| - 4] else urp
  }

  function Title(casing: Casing, line: string): string { Capitalize(casing, BaseName(line)) }

  function DescriptionPath(casing: Casing, title: string): string { Uncapitalize(casing, title) + ".desc.html" }

  /** Where the frameset of a `.urp` line looks for the description. */
  function DescriptionLink(line: string): string { BaseName(line) + ".desc.html" }

  function Frame(prefix: string, guided: bool, casing: Casing, line: string): Page {
    Page(BaseName(line) + ".html",
         "<frameset rows=\"" + (if guided then "*,100" else "50%,*") + "\">\n"
         + "<frame src=\"" + prefix + "/" + Title(casing, line) + "/main\" name=\"showcase\">\n"
         + "<frame src=\"" + DescriptionLink(line) + "\">\n"
         + "</frameset>\n")
  }

  function DescriptionHead(prefix: string, casing: Casing, links: seq<string> -> string, line: string, job: Job): string
  {
    var name, urp := Title(casing, line), UrpName(line);
    "<html><head>\n<title>" + name + "</title>\n</head><body>\n\n<h1>" + name + "</h1>\n\n"
    + "<center>[ <a target=\"showcase\" href=\"" + prefix + "/" + name + "/main\">Application</a>"
    + " | <a target=\"showcase\" href=\"" + urp + ".html\"><tt>" + urp + "</tt></a>"
    + links(job.sources) + " ]</center>\n\n"
  }

  /** The layout the demo builder uses; `links` gives the links for those source files that exist. */
  function HtmlLayout(prefix: string, guided: bool, casing: Casing, parse: string -> Result<Job, string>,
                      links: seq<string> -> string): Layout
  {
    Layout(
      parse,
      (line: string) => Title(casing, line),
      "<html><head>\n<title>Ur/Web Demo</title>\n</head><body>\n\n",
      "<html><body>\n\n<li> <a target=\"staging\" href=\"intro.html\">Intro</a></li>\n\n",
      "fun main () : transaction page = return <xml><body>\n",
      "\n</body></html>\n",
      (line: string) =>
        "<li> <a target=\"staging\" href=\"" + BaseName(line) + ".html\">" + Title(casing, line) + "</a></li>\n",
      (line: string) =>
        "  <li> <a link={" + Title(casing, line) + ".main ()}>" + Title(casing, line) + "</a></li>\n",
      (line: string) => Frame(prefix, guided, casing, line),
      (line: string, job: Job) => DescriptionHead(prefix, casing, links, line, job),
      (title: string) => DescriptionPath(casing, title))
  }

  predicate IsUpper(c: char) { 'A' <= c <= 'Z' }

  predicate IsLower(c: char) { 'a' <= c <= 'z' }

  /** Letter case on ASCII, as in Unicode; nothing is said about other characters. */
  ghost predicate AsciiCasing(casing: Casing) {
    forall c: char | (c as int) < 0x80 ::
      && casing.upper(c) == [if IsLower(c) then (c as int - 0x20) as char else c]
      && casing.lower(c) == [if IsUpper(c) then (c as int + 0x20) as char else c]
  }

  /** The description's file name without its extension: the base name, capitalized and back. */
  function Stem(casing: Casing, line: string): string { Uncapitalize(casing, Title(casing, line)) }

  lemma SuffixCancels(a: string, b: string, suffix: string)
    ensures a + suffix == b + suffix <==> a == b
  {
    if a + suffix == b + suffix {
      assert |a| == |b| && (a + suffix)[..|a|] == a && (b + suffix)[..|b|] == b;
    }
  }

  /** What capitalizing and uncapitalizing makes of a first letter. */
  function ThereAndBack(casing: Casing, c: char): string
    requires casing.upper(c) != ""
  {
    casing.lower(casing.upper(c)[0]) + casing.upper(c)[1..]
  }

  /** The description page is written where its frameset looks for it exactly when the first letter of
      the project's name survives being capitalized and uncapitalized again. */
  lemma DescriptionFoundIff(casing: Casing, line: string)
    requires forall c :: casing.upper(c) != ""
    ensures DescriptionPath(casing, Title(casing, line)) == DescriptionLink(line)
       <==> BaseName(line) == "" || ThereAndBack(casing, BaseName(line)[0]) == [BaseName(line)[0]]
  {
    var base := BaseName(line);
    SuffixCancels(Stem(casing, line), base, ".desc.html");
    if base != "" {
      var up, rest := casing.upper(base[0]), base[1..];
      assert (up + rest)[1..] == up[1..] + rest;
      assert Stem(casing, line) == ThereAndBack(casing, base[0]) + rest;
      SuffixCancels(ThereAndBack(casing, base[0]), [base[0]], rest);
      assert base == [base[0]] + rest;
    }
  }

  /** On ASCII letters: exactly when it is no capital. */
  lemma AsciiDescriptionFoundIff(casing: Casing, line: string)
    requires AsciiCasing(casing) && (forall c :: casing.upper(c) != "")
    requires BaseName(line) != "" && (BaseName(line)[0] as int) < 0x80
    ensures DescriptionPath(casing, Title(casing, line)) == DescriptionLink(line) <==> !IsUpper(BaseName(line)[0])
  {
    var c := BaseName(line)[0];
    DescriptionFoundIff(casing, line);
    var up := if IsLower(c) then (c as int - 0x20) as char else c;
    assert casing.upper(c) == [up] && ThereAndBack(casing, c) == casing.lower(up) + [];
  }

  lemma FooBaseName(line: string)
    requires line == ['F', 'o', 'o', '.', 'u', 'r', 'p']
    ensures BaseName(line) == ['F', 'o', 'o']
  {
    assert TrimStart(line) == line && TrimEnd(line) == line;
    assert line[3..] == ".urp";
  }

  /** The description of "Foo.urp" is not found. */
  lemma FooDescriptionIsLost(casing: Casing, line: string)
    requires AsciiCasing(casing) && (forall c :: casing.upper(c) != "")
    requires line == ['F', 'o', 'o', '.', 'u', 'r', 'p']
    ensures DescriptionPath(casing, Title(casing, line)) != DescriptionLink(line)
  {
    FooBaseName(line);
    AsciiDescriptionFoundIff(casing, line);
  }

  // ----- The pages of a run

  lemma PageCount(env: Layout, intro: seq<string>, sections: seq<Section>)
    requires AllParse(env, sections)
    ensures |PagesBefore(env, intro, sections)| == 2 * |sections|
    ensures sections != [] ==> PagesBefore(env, intro, sections)[0] == IntroPage(env, intro)
  {
  }

  lemma {:induction false} PageOrder(env: Layout, intro: seq<string>, sections: seq<Section>, k: nat)
    requires AllParse(env, sections) && k < |sections|
    ensures |PagesBefore(env, intro, sections)| == 2 * |sections|
    ensures PagesBefore(env, intro, sections)[2 * k + 1] == env.frame(sections[k].line)
    ensures k + 1 < |sections| ==> PagesBefore(env, intro, sections)[2 * k + 2] == DescPage(env, sections[k])
    decreases |sections|
  {
    var n := |sections| - 1;
    PageCount(env, intro, sections);
    PageCount(env, intro, sections[..n]);
    if k < n {
      PageOrder(env, intro, sections[..n], k);
    }
  }

  lemma LastPage(env: Layout, intro: seq<string>, sections: seq<Section>)
    requires AllParse(env, sections) && sections != []
    ensures Closed(env, Expected(env, intro, sections).description) == [DescPage(env, sections[|sections| - 1])]
  {
  }

  /** All pages of a run, in the order they are written: the introduction, then a frameset and a
      description for each section, the navigation and the main program. */
  lemma FinalPageOrder(env: Layout, intro: seq<string>, sections: seq<Section>)
    requires AllParse(env, sections) && sections != []
    ensures var pages, n := FinalPages(env, Expected(env, intro, sections)), |sections|;
            && |pages| == 2 * n + 3
            && pages[0] == IntroPage(env, intro)
            && pages[2 * n + 1].path == "demos.html" && pages[2 * n + 2].path == "demo.ur"
  {
    PageCount(env, intro, sections);
    LastPage(env, intro, sections);
  }

  lemma FinalPageAt(env: Layout, intro: seq<string>, sections: seq<Section>, k: nat)
    requires AllParse(env, sections) && k < |sections|
    ensures |FinalPages(env, Expected(env, intro, sections))| == 2 * |sections| + 3
    ensures FinalPages(env, Expected(env, intro, sections))[2 * k + 1] == env.frame(sections[k].line)
    ensures FinalPages(env, Expected(env, intro, sections))[2 * k + 2] == DescPage(env, sections[k])
  {
    FinalPageOrder(env, intro, sections);
    PageOrder(env, intro, sections, k);
    LastPage(env, intro, sections);
  }

  /** Written before the prose is read: the entry page and the signature of the main program. */
  function IndexPage(): Page {
    Page("index.html",
         "<frameset cols=\"15%,85%\">\n<frame src=\"demos.html\">\n"
         + "<frame src=\"intro.html\" name=\"staging\">\n</frameset>\n")
  }

  function SignaturePage(): Page { Page("demo.urs", "val main : unit -> transaction page\n") }

  /** Everything a successful run writes from its texts, in order. */
  function AllPages(env: Layout, intro: seq<string>, sections: seq<Section>): seq<Page>
    requires AllParse(env, sections)
  {
    [IndexPage(), SignaturePage()] + FinalPages(env, Expected(env, intro, sections))
  }

  /** The entry page and the signature first, then the introduction; the navigation and the main program
      last. */
  lemma AllPageOrder(env: Layout, intro: seq<string>, sections: seq<Section>)
    requires AllParse(env, sections) && sections != []
    ensures var pages, n := AllPages(env, intro, sections), |sections|;
            && |pages| == 2 * n + 5
            && pages[0] == IndexPage() && pages[1] == SignaturePage() && pages[2] == IntroPage(env, intro)
            && pages[2 * n + 3].path == "demos.html" && pages[2 * n + 4].path == "demo.ur"
  {
    FinalPageOrder(env, intro, sections);
  }

  /** In between, the frameset and the description of each section. */
  lemma AllPagesAt(env: Layout, intro: seq<string>, sections: seq<Section>, k: nat)
    requires AllParse(env, sections) && k < |sections|
    ensures |AllPages(env, intro, sections)| == 2 * |sections| + 5
    ensures AllPages(env, intro, sections)[2 * k + 3] == env.frame(sections[k].line)
    ensures AllPages(env, intro, sections)[2 * k + 4] == DescPage(env, sections[k])
  {
    FinalPageAt(env, intro, sections, k);
  }
}
