/** The broken-link checker (src/broken_links_checker.rs): after a build,
    every local link of every page must resolve to an output file the way
    the preview server resolves requests.

    The site is the in-memory store; its files, as the resolver sees them,
    are the stored keys placed under the output directory. */
module BrokenLinks {
  import opened Outcomes
  import Text
  import opened Paths
  import opened Documents
  import Config
  import Markdown
  import Site
  import PreviewServer

  /** A report: the path of the page that holds the link, and the link. */
  datatype Report = Report(source: Path, link: Markdown.MdLink)

  /** The output files of the store, as full paths under the output directory. */
  function Files(site: Site.InMemorySite): (r: set<Path>)
    ensures forall k :: k in site.contents ==> site.config.outDir + k in r
  {
    set k | k in site.contents :: site.config.outDir + k
  }

  /** A full path under the output directory is a file exactly when its key is stored. */
  lemma FilesMember(site: Site.InMemorySite, key: Path)
    ensures site.config.outDir + key in Files(site) <==> key in site.contents
  {
    var out := site.config.outDir;
    if out + key in Files(site) {
      var k :| k in site.contents && out + k == out + key;
      assert k == (out + k)[|out|..] == (out + key)[|out|..] == key;
    }
  }

  /** Some stored key lies strictly below `key`: the resolver sees a directory there. */
  predicate StoredBelow(key: Path, site: Site.InMemorySite) {
    exists k :: k in site.contents && StartsWith(k, key) && |k| > |key|
  }

  /** A full path under the output directory is a directory exactly when a
      stored key lies below its key. */
  lemma DirMember(site: Site.InMemorySite, key: Path)
    ensures PreviewServer.IsDir(site.config.outDir + key, Files(site)) <==> StoredBelow(key, site)
  {
    var out := site.config.outDir;
    if PreviewServer.IsDir(out + key, Files(site)) {
      var f :| f in Files(site) && StartsWith(f, out + key) && |f| > |out + key|;
      var k :| k in site.contents && f == out + k;
      assert k[..|key|] == f[|out|..|out| + |key|] == (out + key)[|out|..] == key;
      assert StoredBelow(key, site);
    }
    if StoredBelow(key, site) {
      var k :| k in site.contents && StartsWith(k, key) && |k| > |key|;
      assert (out + k)[..|out + key|] == out + k[..|key|];
      assert out + k in Files(site);
    }
  }

  /** `matches_a_target`: the preview server resolves the link path. */
  predicate MatchesATarget(path: string, site: Site.InMemorySite) {
    PreviewServer.ResolveFile(path, site.config.outDir, Files(site)).Some?
  }

  /** A link is reported when it is local and no output file answers it. */
  predicate IsBroken(link: Markdown.MdLink, site: Site.InMemorySite) {
    link.url.Local? && !MatchesATarget(link.url.path, site)
  }

  /** The inner loop: the reports for one page's links, in link order. */
  function LinkReports(source: Path, links: seq<Markdown.MdLink>, site: Site.InMemorySite): (r: seq<Report>)
    ensures |r| <= |links|
    ensures forall x :: x in r ==> x.source == source && x.link in links && IsBroken(x.link, site)
  {
    if |links| == 0 then []
    else
      var first := match links[0].url
        case Remote(_) => []
        case Local(path) => if MatchesATarget(path, site) then [] else [Report(source, links[0])];
      first + LinkReports(source, links[1..], site)
  }

  /** The loop over a directory's pages, in page order. */
  function DocsReports(docs: seq<Document>, site: Site.InMemorySite): (r: seq<Report>)
    ensures forall x :: x in r ==> IsBroken(x.link, site)
  {
    if |docs| == 0 then []
    else LinkReports(docs[0].path, docs[0].links, site) + DocsReports(docs[1..], site)
  }

  /** `find_broken_links`: the directory's pages first, then each
      subdirectory depth-first, in order. */
  function FindBroken(dir: Directory, site: Site.InMemorySite): (r: seq<Report>)
    decreases dir, 1
    ensures forall x :: x in r ==> IsBroken(x.link, site)
  {
    DocsReports(dir.docs, site) + DirsReports(dir.dirs, site)
  }

  function DirsReports(dirs: seq<Directory>, site: Site.InMemorySite): (r: seq<Report>)
    decreases dirs, 0
    ensures forall x :: x in r ==> IsBroken(x.link, site)
  {
    if |dirs| == 0 then []
    else FindBroken(dirs[0], site) + DirsReports(dirs[1..], site)
  }

  /** `run`: success exactly when nothing was reported; the error carries
      every report, not only the first. */
  function Run(root: Directory, site: Site.InMemorySite): (r: Result<(), seq<Report>>)
    ensures r.Ok? <==> |FindBroken(root, site)| == 0
    ensures r.Err? ==> r.error == FindBroken(root, site) && |r.error| > 0
  {
    var broken := FindBroken(root, site);
    if |broken| == 0 then Ok(()) else Err(broken)
  }

  // ---------------------------------------------------------------------
  // The reference: every link of the tree, then the broken ones among them
  // ---------------------------------------------------------------------

  /** Every link of one page, paired with the page's path. */
  function Pairs(source: Path, links: seq<Markdown.MdLink>): (r: seq<Report>)
    ensures |r| == |links|
    ensures forall i :: 0 <= i < |links| ==> r[i] == Report(source, links[i])
  {
    seq(|links|, i requires 0 <= i < |links| => Report(source, links[i]))
  }

  /** Every link of the tree: a directory's pages in order, each page's links
      in order, then the subdirectories depth-first. */
  function AllLinks(dir: Directory): seq<Report>
    decreases dir, 1
  {
    DocsLinks(dir.docs) + DirsLinks(dir.dirs)
  }

  function DocsLinks(docs: seq<Document>): seq<Report> {
    if |docs| == 0 then [] else Pairs(docs[0].path, docs[0].links) + DocsLinks(docs[1..])
  }

  function DirsLinks(dirs: seq<Directory>): seq<Report>
    decreases dirs, 0
  {
    if |dirs| == 0 then [] else AllLinks(dirs[0]) + DirsLinks(dirs[1..])
  }

  /** The reports among `rs` whose link is broken, in order. */
  function Filter(rs: seq<Report>, site: Site.InMemorySite): (r: seq<Report>)
    ensures |r| <= |rs|
  {
    if |rs| == 0 then [] else (if IsBroken(rs[0].link, site) then [rs[0]] else []) + Filter(rs[1..], site)
  }

  lemma {:induction false} FilterConcat(a: seq<Report>, b: seq<Report>, site: Site.InMemorySite)
    ensures Filter(a + b, site) == Filter(a, site) + Filter(b, site)
  {
    if |a| > 0 {
      FilterConcat(a[1..], b, site);
      assert (a + b)[1..] == a[1..] + b;
    } else {
      assert a + b == b;
    }
  }

  /** Filtering keeps exactly the broken members. */
  lemma {:induction false} FilterMembers(rs: seq<Report>, site: Site.InMemorySite)
    ensures forall x :: x in Filter(rs, site) <==> x in rs && IsBroken(x.link, site)
  {
    if |rs| > 0 {
      FilterMembers(rs[1..], site);
      assert rs == [rs[0]] + rs[1..];
    }
  }

  lemma {:induction false} LinkReportsFilter(source: Path, links: seq<Markdown.MdLink>, site: Site.InMemorySite)
    ensures LinkReports(source, links, site) == Filter(Pairs(source, links), site)
  {
    if |links| > 0 {
      var ps := Pairs(source, links);
      LinkReportsFilter(source, links[1..], site);
      assert ps[1..] == Pairs(source, links[1..]);
    }
  }

  lemma {:induction false} DocsReportsFilter(docs: seq<Document>, site: Site.InMemorySite)
    ensures DocsReports(docs, site) == Filter(DocsLinks(docs), site)
  {
    if |docs| > 0 {
      LinkReportsFilter(docs[0].path, docs[0].links, site);
      DocsReportsFilter(docs[1..], site);
      FilterConcat(Pairs(docs[0].path, docs[0].links), DocsLinks(docs[1..]), site);
    }
  }

  /** The checker reports exactly the broken links of the tree, in the
      order of the tree walk. */
  lemma {:induction false} FindBrokenIsFilter(dir: Directory, site: Site.InMemorySite)
    decreases dir, 1
    ensures FindBroken(dir, site) == Filter(AllLinks(dir), site)
  {
    DocsReportsFilter(dir.docs, site);
    DirsReportsFilter(dir.dirs, site);
    FilterConcat(DocsLinks(dir.docs), DirsLinks(dir.dirs), site);
  }

  lemma {:induction false} DirsReportsFilter(dirs: seq<Directory>, site: Site.InMemorySite)
    decreases dirs, 0
    ensures DirsReports(dirs, site) == Filter(DirsLinks(dirs), site)
  {
    if |dirs| > 0 {
      FindBrokenIsFilter(dirs[0], site);
      DirsReportsFilter(dirs[1..], site);
      FilterConcat(AllLinks(dirs[0]), DirsLinks(dirs[1..]), site);
    }
  }

  /** A link of the tree is reported exactly when it is local and does not
      resolve; a remote link never is. */
  lemma ReportedIff(dir: Directory, site: Site.InMemorySite, x: Report)
    ensures x in FindBroken(dir, site) <==> x in AllLinks(dir) && x.link.url.Local? && !MatchesATarget(x.link.url.path, site)
    ensures x.link.url.Remote? ==> x !in FindBroken(dir, site)
  {
    FindBrokenIsFilter(dir, site);
    FilterMembers(AllLinks(dir), site);
  }

  /** Every link of every page of a directory is among the tree's links. */
  lemma {:induction false} DocLinkListed(docs: seq<Document>, i: nat, link: Markdown.MdLink)
    requires i < |docs| && link in docs[i].links
    ensures Report(docs[i].path, link) in DocsLinks(docs)
  {
    var k :| 0 <= k < |docs[i].links| && docs[i].links[k] == link;
    if i == 0 {
      assert Pairs(docs[0].path, docs[0].links)[k] == Report(docs[i].path, link);
    } else {
      DocLinkListed(docs[1..], i - 1, link);
    }
  }

  /** The links of a subdirectory are among its parent's links: the walk
      reaches every directory. */
  lemma {:induction false} SubdirLinksListed(dirs: seq<Directory>, j: nat, x: Report)
    requires j < |dirs| && x in AllLinks(dirs[j])
    ensures x in DirsLinks(dirs)
  {
    if j > 0 {
      SubdirLinksListed(dirs[1..], j - 1, x);
    }
  }

  /** A broken local link on a page of the directory is reported, paired
      with the page's path. */
  lemma BrokenLinkReported(dir: Directory, site: Site.InMemorySite, i: nat, link: Markdown.MdLink)
    requires i < |dir.docs| && link in dir.docs[i].links
    requires link.url.Local? && !MatchesATarget(link.url.path, site)
    ensures Report(dir.docs[i].path, link) in FindBroken(dir, site)
  {
    DocLinkListed(dir.docs, i, link);
    ReportedIff(dir, site, Report(dir.docs[i].path, link));
  }

  /** The same holds for pages of subdirectories at any depth. */
  lemma SubdirReported(dir: Directory, site: Site.InMemorySite, j: nat, x: Report)
    requires j < |dir.dirs| && x in FindBroken(dir.dirs[j], site)
    ensures x in FindBroken(dir, site)
  {
    ReportedIff(dir.dirs[j], site, x);
    SubdirLinksListed(dir.dirs, j, x);
    ReportedIff(dir, site, x);
  }

  // ---------------------------------------------------------------------
  // Sites of the source's examples
  // ---------------------------------------------------------------------

  /** The configuration of a project at `project`: output in `project/site`. */
  function ExampleConfig(): (c: Config.Config)
    ensures c.outDir == ["project", "site"]
  {
    Config.Config(Config.DoctaveYaml("My project", None, None), ["project"], ["project", "site"], ["project", "docs"])
  }

  /** A page at `path` whose only link points at `target`. */
  function PageLinkingTo(path: Path, target: string): (d: Document)
    ensures d.path == path && d.links == [Markdown.MdLink("link", Markdown.Local(target))]
  {
    Document(1, path, [], None, "", map[], [Markdown.MdLink("link", Markdown.Local(target))])
  }

  /** A root directory with the one page. */
  function RootWith(d: Document): Directory {
    Directory(["project", "docs"], [d], [])
  }

  /** The checker on a one-page site checks the page's one link. */
  lemma OneLinkPage(path: Path, target: string, site: Site.InMemorySite)
    ensures FindBroken(RootWith(PageLinkingTo(path, target)), site)
         == (if MatchesATarget(target, site) then [] else [Report(path, Markdown.MdLink("link", Markdown.Local(target)))])
  {
    var page := PageLinkingTo(path, target);
    assert DocsReports([page], site) == LinkReports(path, page.links, site) + DocsReports([], site);
    assert page.links[1..] == [];
  }

  /** A link to `/name` is checked against the output: it resolves when
      `name` is a stored file, or when `name/index.html` exists there as a
      file or as a directory. */
  lemma ResolveTopLevel(site: Site.InMemorySite, name: string)
    requires ValidSegment(name) && !Text.Contains(name, "..")
    ensures MatchesATarget("/" + name, site) <==>
      [name] in site.contents || [name, "index.html"] in site.contents || StoredBelow([name, "index.html"], site)
  {
    var out := site.config.outDir;
    assert "/" + Text.Join([name], '/') == "/" + name;
    ComponentsOfRooted([name]);
    PreviewServer.RootedText([name]);
    PreviewServer.ResolveCases("/" + name, out, Files(site));
    FilesMember(site, [name]);
    FilesMember(site, [name, "index.html"]);
    DirMember(site, [name, "index.html"]);
    assert out + [name] + ["index.html"] == out + [name, "index.html"];
  }

  /** On an output holding only the top-level file `file`, a link to
      `/name` passes exactly when it names that file. */
  lemma LinkToTopLevel(file: string, name: string)
    requires ValidSegment(name) && !Text.Contains(name, "..")
    ensures
      var site := Site.AddFile(Site.NewSite(ExampleConfig()), ["project", "site", file], []);
      Run(RootWith(PageLinkingTo(["README.md"], "/" + name)), site)
        == if name == file then Ok(()) else Err([Report(["README.md"], Markdown.MdLink("link", Markdown.Local("/" + name)))])
  {
    var site := Site.AddFile(Site.NewSite(ExampleConfig()), ["project", "site", file], []);
    assert ["project", "site", file] == ["project", "site"] + [file];
    assert site.contents == map[[file] := []];
    assert [name, "index.html"] !in site.contents;
    assert !StoredBelow([name, "index.html"], site);
    ResolveTopLevel(site, name);
    OneLinkPage(["README.md"], "/" + name, site);
  }

  /** A link to a page that does not exist is reported. */
  lemma DetectsBrokenLink()
    ensures
      var site := Site.AddFile(Site.NewSite(ExampleConfig()), ["project", "site", "index.html"], []);
      var page := PageLinkingTo(["README.md"], "/dont-exist");
      Run(RootWith(page), site) == Err([Report(["README.md"], page.links[0])])
  {
    DontExist();
    LinkToTopLevel("index.html", "dont-exist");
  }

  /** A link to `/other.html` is fine when the output has `other.html`. */
  lemma AcceptsHtmlExtension()
    ensures
      var site := Site.AddFile(Site.NewSite(ExampleConfig()), ["project", "site", "other.html"], []);
      Run(RootWith(PageLinkingTo(["README.md"], "/other.html")), site) == Ok(())
  {
    OtherHtml();
    LinkToTopLevel("other.html", "other.html");
  }

  /** The names of the examples are plain components without `..`. */
  lemma DontExist()
    ensures ValidSegment("dont-exist") && !Text.Contains("dont-exist", "..")
    ensures "/" + "dont-exist" == "/dont-exist" && "dont-exist" != "index.html"
  {
    PreviewServer.NoAdjacentDots("dont-exist");
  }

  lemma Other()
    ensures ValidSegment("other") && !Text.Contains("other", "..")
    ensures "/" + "other" == "/other" && "other" != "other.html"
  {
    PreviewServer.NoAdjacentDots("other");
  }

  lemma OtherHtml()
    ensures ValidSegment("other.html") && !Text.Contains("other.html", "..")
    ensures "/" + "other.html" == "/other.html"
  {
    PreviewServer.NoAdjacentDots("other.html");
  }

  /** A page whose two links point at `first` and `second`. */
  function PageLinkingToBoth(path: Path, first: string, second: string): (d: Document)
    ensures d.path == path
    ensures d.links == [Markdown.MdLink("link", Markdown.Local(first)), Markdown.MdLink("link", Markdown.Local(second))]
  {
    Document(1, path, [], None, "", map[],
      [Markdown.MdLink("link", Markdown.Local(first)), Markdown.MdLink("link", Markdown.Local(second))])
  }

  /** The output of the nested example: `nested/index.html` and `nested/other.html`. */
  function NestedSite(): (site: Site.InMemorySite)
    ensures site.config.outDir == ["project", "site"]
    ensures site.contents == map[["nested", "index.html"] := [], ["nested", "other.html"] := []]
  {
    var s1 := Site.AddFile(Site.NewSite(ExampleConfig()), ["project", "site", "nested", "index.html"], []);
    Site.AddFile(s1, ["project", "site", "nested", "other.html"], [])
  }

  /** Both links of the nested example resolve. */
  lemma NestedLinksResolve()
    ensures MatchesATarget("/nested/", NestedSite())
    ensures MatchesATarget("/nested/other.html", NestedSite())
  {
    NestedIndexResolves(NestedSite());
    NestedOtherResolves(NestedSite());
  }

  /** `/nested/` resolves on an output holding `nested/index.html`. */
  lemma NestedIndexResolves(site: Site.InMemorySite)
    requires ["nested", "index.html"] in site.contents
    ensures MatchesATarget("/nested/", site)
  {
    var out := site.config.outDir;
    var files := Files(site);
    assert "/" + Text.Join(["nested"], '/') + "/" == "/nested/";
    FilesMember(site, ["nested", "index.html"]);
    assert out + ["nested"] + ["index.html"] == out + ["nested", "index.html"];
    PreviewServer.NoAdjacentDots("nested");
    PreviewServer.RootedText(["nested"]);
    ComponentsOfRootedDir(["nested"]);
    PreviewServer.ResolveCases("/nested/", out, files);
  }

  /** `/nested/other.html` resolves on an output holding `nested/other.html`. */
  lemma NestedOtherResolves(site: Site.InMemorySite)
    requires ["nested", "other.html"] in site.contents
    ensures MatchesATarget("/nested/other.html", site)
  {
    var out := site.config.outDir;
    assert "/" + Text.Join(["nested", "other.html"], '/') == "/nested/other.html";
    FilesMember(site, ["nested", "other.html"]);
    PreviewServer.NoAdjacentDots("nested");
    PreviewServer.NoAdjacentDots("other.html");
    PreviewServer.ResolveRooted(["nested", "other.html"], out, Files(site));
  }

  /** A page linking to `/nested/` and `/nested/other.html` passes when the
      output has `nested/index.html` and `nested/other.html`. */
  lemma AcceptsDirectoryWithIndex()
    ensures Run(RootWith(PageLinkingToBoth(["README.md"], "/nested/", "/nested/other.html")), NestedSite()) == Ok(())
  {
    var site := NestedSite();
    var page := PageLinkingToBoth(["README.md"], "/nested/", "/nested/other.html");
    NestedLinksResolve();
    assert page.links[1..][1..] == [];
    assert LinkReports(page.path, page.links, site) == [];
    assert DocsReports([page], site) == LinkReports(page.path, page.links, site) + DocsReports([], site);
  }

  /** The resolver adds no `.html`: a link to `/other` is reported even when
      the output has `other.html`. */
  lemma ReportsLinkWithoutExtension()
    ensures
      var site := Site.AddFile(Site.NewSite(ExampleConfig()), ["project", "site", "other.html"], []);
      Run(RootWith(PageLinkingTo(["README.md"], "/other")), site).Err?
  {
    Other();
    LinkToTopLevel("other.html", "other");
  }
}
