/** `Document` and `Directory` (src/lib.rs): a Markdown page with the path it
    was found at, and the tree of pages the site is built from.

    The global `AtomicU32` id counter is threaded explicitly: a constructor
    takes the counter's current value and returns the next one. The Markdown
    renderer is external; a document carries the links it found instead. */
module Documents {
  import opened Outcomes
  import Text
  import opened Paths
  import opened Uris
  import Markdown

  /** Document ids are `u32` values, so the counter wraps after 2^32 fetches. */
  const IdModulus: nat := 0x1_0000_0000

  type Counter = c: nat | c < IdModulus

  /** The counter's initial value. */
  const FirstId: Counter := 1

  /** `fetch_add(1)`: the value after one fetch, wrapping at 2^32. */
  function NextId(c: Counter): (r: Counter)
    ensures c + 1 < IdModulus ==> r == c + 1 && r > c
    ensures c + 1 == IdModulus ==> r == 0
  {
    (c + 1) % IdModulus
  }

  /** The ids `n` successive constructors take when the counter starts at `c`. */
  function IdsFrom(c: Counter, n: nat): (ids: seq<Counter>)
    decreases n
    ensures |ids| == n
    ensures n > 0 ==> ids[0] == c
  {
    if n == 0 then [] else [c] + IdsFrom(NextId(c), n - 1)
  }

  /** While the counter does not wrap, ids count up one by one, so they are
      strictly increasing and distinct. */
  lemma {:induction false} IdsIncrease(c: Counter, n: nat)
    requires c + n <= IdModulus
    decreases n
    ensures forall k :: 0 <= k < n ==> IdsFrom(c, n)[k] == c + k
    ensures forall j, k :: 0 <= j < k < n ==> IdsFrom(c, n)[j] < IdsFrom(c, n)[k]
  {
    if n > 0 {
      if n > 1 {
        IdsIncrease(NextId(c), n - 1);
      }
      var ids := IdsFrom(c, n);
      forall k | 0 <= k < n
        ensures ids[k] == c + k
      {
        if k > 0 {
          assert ids[k] == IdsFrom(NextId(c), n - 1)[k - 1];
        }
      }
    }
  }

  /** The k-th id handed out from `c` is `c + k` modulo 2^32, wrap included. */
  lemma {:induction false} IdsModular(c: Counter, n: nat)
    decreases n
    ensures forall k :: 0 <= k < n ==> IdsFrom(c, n)[k] == (c + k) % IdModulus
  {
    if n > 0 {
      IdsModular(NextId(c), n - 1);
      var ids := IdsFrom(c, n);
      forall k | 0 <= k < n
        ensures ids[k] == (c + k) % IdModulus
      {
        if k > 0 {
          assert ids[k] == IdsFrom(NextId(c), n - 1)[k - 1];
          if c + 1 == IdModulus {
            assert (c + k) % IdModulus == (k - 1) % IdModulus;
          }
        }
      }
    }
  }

  /** With more than 2^32 constructions the ids repeat: the id after
      4294967295 is 0, and the first document and the (2^32 + 1)-th share an
      id. */
  lemma IdsWrap()
    ensures NextId(IdModulus - 1) == 0
    ensures IdsFrom(IdModulus - 1, 2) == [IdModulus - 1, 0]
    ensures IdsFrom(FirstId, IdModulus + 1)[IdModulus] == IdsFrom(FirstId, IdModulus + 1)[0] == FirstId
  {
    IdsModular(FirstId, IdModulus + 1);
  }

  /** A Markdown page. `path` is relative to the docs directory once the root
      is stripped; `rename` is `Some("index")` for a `README.md`. */
  datatype Document = Document(
    id: Counter,
    path: Path,
    root: Path,
    rename: Option<string>,
    raw: string,
    frontmatter: map<string, string>,
    links: seq<Markdown.MdLink>)

  /** `Document::new`: strip the root from the path when it is a prefix,
      rename `README.md` to `index`, and take the next id. */
  function NewDocument(path: Path, root: Path, raw: string, frontmatter: map<string, string>,
                       links: seq<Markdown.MdLink>, counter: Counter): (r: (Document, Counter))
    ensures StartsWith(path, root) ==> root + r.0.path == path
    ensures !StartsWith(path, root) ==> r.0.path == path
    ensures r.0.rename == Some("index") <==> EndsWith(r.0.path, "README.md")
    ensures r.0.rename.None? <==> !EndsWith(r.0.path, "README.md")
    ensures r.0.id == counter && r.1 == NextId(counter)
    ensures r.0.root == root && r.0.raw == raw && r.0.frontmatter == frontmatter && r.0.links == links
  {
    var p := if StartsWith(path, root) then StripPrefix(path, root) else path;
    var rename := if EndsWith(p, "README.md") then Some("index") else None;
    (Document(counter, p, root, rename, raw, frontmatter, links), NextId(counter))
  }

  /** `Document::original_file_name`. */
  function OriginalFileName(d: Document): Option<string> {
    FileName(d.path)
  }

  /** What `relative_path` needs: a stem to name the page after, unless renamed. */
  predicate Named(d: Document) {
    d.rename.Some? || FileStem(d.path).Some?
  }

  /** `Document::relative_path`: the page's place in the output, the file
      name replaced by `stem.html`, or by `index.html` for a renamed index. */
  function RelativePath(d: Document): (r: Path)
    requires Named(d)
    ensures |r| > 0
    ensures FileName(d.path).Some? ==> |r| == |d.path| && r[..|r| - 1] == d.path[..|d.path| - 1]
  {
    var name := if d.rename.Some? then d.rename.value else FileStem(d.path).value;
    WithFileName(d.path, name + ".html")
  }

  /** The output name takes the stem back with the extension `html`. */
  lemma RelativePathRoundTrip(d: Document)
    requires ValidPath(d.path) && |d.path| > 0
    ensures d.rename.None? ==> FileStem(RelativePath(d)) == FileStem(d.path)
    ensures d.rename.Some? && |d.rename.value| > 0 ==> FileStem(RelativePath(d)) == d.rename
    ensures d.rename.None? || |d.rename.value| > 0 ==> Extension(RelativePath(d)) == Some("html")
  {
    var stem := if d.rename.Some? then d.rename.value else FileStem(d.path).value;
    var r := RelativePath(d);
    if d.rename.None? || |d.rename.value| > 0 {
      Paths.SplitFileAtDotRoundTrip(stem, "html");
      assert stem + ".html" == stem + "." + "html";
      assert r[|r| - 1] == stem + ".html";
    }
  }

  /** `Document::destination`: the output location under `out`. */
  function Destination(d: Document, out: Path): (r: Path)
    requires Named(d)
    ensures StartsWith(r, out) && StripPrefix(r, out) == RelativePath(d)
  {
    out + RelativePath(d)
  }

  /** `Document::title`: the `title` frontmatter value, else the file stem.
      The stem is computed eagerly (`unwrap_or`), so a stem is needed even
      when the title is given. */
  function Title(d: Document): (r: string)
    requires FileStem(d.path).Some?
    ensures "title" in d.frontmatter ==> r == d.frontmatter["title"]
    ensures "title" !in d.frontmatter && Extension(d.path) == Some("md")
            ==> FileName(d.path) == Some(r + ".md")
  {
    var stem := FileStem(d.path).value;
    assert Extension(d.path) == Some("md") ==> FileName(d.path).value == stem + "." + "md";
    assert stem + "." + "md" == stem + ".md";
    if "title" in d.frontmatter then d.frontmatter["title"] else stem
  }

  /** The page's URI under the base path: `base/` followed by `path_to_uri` of its output path. */
  function UriPath(d: Document, base: string): (r: string)
    requires Named(d)
    ensures Uris.StripBase(r, base) == Some(PathToUri(RelativePath(d)))
  {
    var uri := PathToUri(RelativePath(d));
    Uris.StripUnderBase(base, uri);
    UnderBase(base, uri)
  }

  /** The file name of a valid `.md` path is its stem followed by `.md`. */
  lemma MarkdownName(p: Path)
    requires ValidPath(p) && Extension(p) == Some("md")
    ensures |p| > 0 && FileStem(p).Some?
    ensures p[|p| - 1] == FileStem(p).value + ".md"
    ensures |FileStem(p).value| > 0 && '/' !in FileStem(p).value
  {
    var name := p[|p| - 1];
    var stem := FileStem(p).value;
    assert name == stem + "." + "md";
    assert forall k :: 0 <= k < |stem| ==> stem[k] == name[k];
  }

  /** The URI of a plain page (not an index) is its directory and stem joined by `/`. */
  lemma PageUri(d: Document)
    requires ValidPath(d.path) && Extension(d.path) == Some("md")
    requires d.rename.None? && FileStem(d.path) != Some("index")
    ensures PathToUri(RelativePath(d)) == Text.Join(d.path[..|d.path| - 1] + [FileStem(d.path).value], '/')
  {
    MarkdownName(d.path);
    var dir := d.path[..|d.path| - 1];
    var stem := FileStem(d.path).value;
    assert ValidPath(dir) by {
      assert d.path == dir + [d.path[|d.path| - 1]];
      Paths.ValidSnoc(dir, d.path[|d.path| - 1]);
    }
    assert RelativePath(d) == dir + [stem + ".html"];
    Uris.HtmlPage(dir, stem);
    Uris.UriDropsExtension(dir + [stem + ".html"]);
  }

  /** The URI of a `README.md` is its directory's. */
  lemma IndexUri(d: Document)
    requires ValidPath(d.path) && EndsWith(d.path, "README.md") && d.rename == Some("index")
    ensures FileName(d.path).Some?
    ensures PathToUri(RelativePath(d)) == Text.Join(d.path[..|d.path| - 1], '/')
  {
    var dir := d.path[..|d.path| - 1];
    assert d.path == dir + [d.path[|d.path| - 1]];
    Paths.ValidSnoc(dir, d.path[|d.path| - 1]);
    assert "index" + ".html" == "index.html";
    assert RelativePath(d) == dir + ["index.html"];
    Uris.IndexHtmlStem();
    Uris.UriCollapsesIndex(dir, "index.html");
  }

  /** Two plain `.md` pages (neither an index) with the same URI are the same
      page: the URI determines the source path. Index pages are excluded
      because `a.md` and `a/README.md` collide (`Uris.UriCollision`). */
  lemma UriInjective(d1: Document, d2: Document, base: string)
    requires ValidPath(d1.path) && Extension(d1.path) == Some("md")
    requires ValidPath(d2.path) && Extension(d2.path) == Some("md")
    requires d1.rename.None? && FileStem(d1.path) != Some("index")
    requires d2.rename.None? && FileStem(d2.path) != Some("index")
    requires UriPath(d1, base) == UriPath(d2, base)
    ensures d1.path == d2.path
  {
    PageUri(d1);
    PageUri(d2);
    MarkdownName(d1.path);
    MarkdownName(d2.path);
    var a := d1.path[..|d1.path| - 1] + [FileStem(d1.path).value];
    var b := d2.path[..|d2.path| - 1] + [FileStem(d2.path).value];
    assert Some(PathToUri(RelativePath(d1))) == Some(PathToUri(RelativePath(d2)));
    SlashFreeDir(d1.path);
    SlashFreeDir(d2.path);
    Text.JoinInjective(a, b, '/');
    assert a[..|a| - 1] == b[..|b| - 1];
    assert d1.path == a[..|a| - 1] + [a[|a| - 1] + ".md"];
    assert d2.path == b[..|b| - 1] + [b[|b| - 1] + ".md"];
  }

  /** The directory of a valid `.md` path followed by its stem holds no separator. */
  lemma SlashFreeDir(p: Path)
    requires ValidPath(p) && Extension(p) == Some("md")
    ensures |p| > 0 && FileStem(p).Some?
    ensures Uris.SlashFree(p[..|p| - 1] + [FileStem(p).value])
  {
    MarkdownName(p);
    var a := p[..|p| - 1] + [FileStem(p).value];
    forall i | 0 <= i < |a|
      ensures |a[i]| > 0 && '/' !in a[i]
    {
      if i < |p| - 1 {
        assert a[i] == p[i];
      }
    }
  }

  /** A directory of the site: its path (relative to the project), its pages
      and its subdirectories. */
  datatype Directory = Directory(path: Path, docs: seq<Document>, dirs: seq<Directory>)

  /** `Directory::path` of src/lib.rs: the parent of the first page's path. */
  function DocsPath(dir: Directory): (r: Path)
    requires |dir.docs| > 0 && |dir.docs[0].path| > 0
    ensures r + [dir.docs[0].path[|dir.docs[0].path| - 1]] == dir.docs[0].path
  {
    Parent(dir.docs[0].path).value
  }

  /** `Directory::destination`: the parent of the first page's destination,
      which is the first page's directory placed under `out`. */
  function DirDestination(dir: Directory, out: Path): (r: Path)
    requires |dir.docs| > 0 && Named(dir.docs[0])
    ensures FileName(dir.docs[0].path).Some? ==> r == out + DocsPath(dir)
  {
    var dest := Destination(dir.docs[0], out);
    assert FileName(dir.docs[0].path).Some? ==> dest == out + DocsPath(dir) + [dest[|dest| - 1]];
    Parent(dest).value
  }
}
