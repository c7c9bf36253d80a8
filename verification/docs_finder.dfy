/** Loading the docs tree (src/docs_finder.rs): walk the docs directory,
    keep the directories that hold Markdown pages, and give every directory
    an index page, generating one where `README.md` is missing.

    The file system is replaced by a tree of entries; the frontmatter decoder
    and the Markdown link extraction are parameters. */
module DocsFinder {
  import opened Outcomes
  import Text
  import opened Paths
  import Uris
  import opened Documents
  import Config
  import Markdown
  import Navigation

  /** An entry of a directory listing: a file with its text, or a folder with its entries. */
  datatype Entry = File(name: string, content: string) | Folder(name: string, entries: seq<Entry>)

  /** What loading a page needs from outside the core: the decoded
      frontmatter and the links the renderer finds. */
  datatype Loader = Loader(frontmatter: string -> map<string, string>, links: string -> seq<Markdown.MdLink>)

  /** A regular file with the extension `md`. */
  predicate IsMarkdown(e: Entry) {
    e.File? && Extension([e.name]) == Some("md")
  }

  /** Every entry name, at every depth, is a normal path component. */
  predicate ValidEntries(entries: seq<Entry>) {
    forall i :: 0 <= i < |entries| ==>
      ValidSegment(entries[i].name) && (entries[i].Folder? ==> ValidEntries(entries[i].entries))
  }

  /** The Markdown files of a listing, in listing order. */
  function MdEntries(entries: seq<Entry>): (r: seq<Entry>)
    ensures |r| <= |entries|
    ensures forall i :: 0 <= i < |r| ==> r[i].File?
  {
    if |entries| == 0 then []
    else (if IsMarkdown(entries[0]) then [entries[0]] else []) + MdEntries(entries[1..])
  }

  /** A folder that holds a Markdown file directly. */
  predicate Kept(e: Entry) {
    e.Folder? && |MdEntries(e.entries)| > 0
  }

  /** The folders of a listing that become directories, in listing order. */
  function KeptFolders(entries: seq<Entry>): (r: seq<Entry>)
    ensures |r| <= |entries|
    ensures forall i :: 0 <= i < |r| ==> Kept(r[i])
  {
    if |entries| == 0 then []
    else (if Kept(entries[0]) then [entries[0]] else []) + KeptFolders(entries[1..])
  }

  /** How a page sits in its directory: its path is relative to the docs
      directory and ends in a file name, and it is renamed to `index`
      exactly when that name is `README.md`. */
  predicate DocIn(d: Document, dirPath: Path, docsDir: Path)
    requires StartsWith(dirPath, docsDir)
  {
    && |d.path| > 0
    && d.path == StripPrefix(dirPath, docsDir) + [d.path[|d.path| - 1]]
    && ValidSegment(d.path[|d.path| - 1])
    && d.rename == (if EndsWith(d.path, "README.md") then Some("index") else None)
  }

  /** The shape every directory of the loaded tree keeps: it lies under the
      docs directory, its pages sit in it, and so do its subdirectories'. */
  predicate Placed(dir: Directory, docsDir: Path) {
    && StartsWith(dir.path, docsDir) && ValidPath(dir.path) && |dir.path| > 0
    && (forall d :: d in dir.docs ==> DocIn(d, dir.path, docsDir))
    && (forall s :: s in dir.dirs ==> Placed(s, docsDir))
  }

  /** What the walk adds: every directory has a page, and every subdirectory
      is a direct child of its parent. */
  predicate Populated(dir: Directory) {
    && |dir.docs| > 0
    && (forall s :: s in dir.dirs ==> Parent(s.path) == Some(dir.path) && Populated(s))
  }

  /** A directory of the loaded tree directly inside `parent`, with a page at every depth. */
  predicate ChildOf(d: Directory, parent: Path, docsDir: Path) {
    Parent(d.path) == Some(parent) && Placed(d, docsDir) && Populated(d)
  }

  /** The page a Markdown file at `dirPath` becomes. Its path is made relative
      to the docs directory, and the full path is passed as the root, so the
      root strip of `Document::new` leaves the relative path alone. */
  function LoadPage(dirPath: Path, e: Entry, docsDir: Path, loader: Loader, counter: Counter)
    : (r: (Document, Counter))
    requires IsMarkdown(e) && ValidSegment(e.name)
    requires StartsWith(dirPath, docsDir) && |docsDir| > 0
    ensures r.0.path == StripPrefix(dirPath, docsDir) + [e.name]
    ensures r.0.raw == e.content && r.0.id == counter && r.1 == NextId(counter)
    ensures DocIn(r.0, dirPath, docsDir)
  {
    var full := dirPath + [e.name];
    var rel := StripPrefix(dirPath, docsDir) + [e.name];
    NewDocument(rel, full, e.content, loader.frontmatter(e.content), loader.links(e.content), counter)
  }

  /** The precondition of walking into `dirPath`: a valid path under the docs directory. */
  predicate Walkable(dirPath: Path, docsDir: Path) {
    ValidPath(dirPath) && StartsWith(dirPath, docsDir) && |docsDir| > 0
  }

  /** A folder of a walkable directory is walkable. */
  lemma SubWalkable(dirPath: Path, name: string, docsDir: Path)
    requires Walkable(dirPath, docsDir) && ValidSegment(name)
    ensures Walkable(dirPath + [name], docsDir)
    ensures Parent(dirPath + [name]) == Some(dirPath)
  {
    Paths.ValidSnoc(dirPath, name);
    assert (dirPath + [name])[..|docsDir|] == dirPath[..|docsDir|];
  }

  /** What one entry of `walk_dir`'s loop contributes: a page for a Markdown
      file, the walked directory for a folder that yields one, and nothing
      for any other file. */
  function WalkEntry(dirPath: Path, e: Entry, docsDir: Path, loader: Loader, counter: Counter)
    : (r: (seq<Document>, seq<Directory>, Counter))
    requires Walkable(dirPath, docsDir)
    requires ValidSegment(e.name) && (e.Folder? ==> ValidEntries(e.entries))
    decreases e
    ensures |r.0| == (if IsMarkdown(e) then 1 else 0)
    ensures |r.1| == (if Kept(e) then 1 else 0)
  {
    if IsMarkdown(e) then
      var page := LoadPage(dirPath, e, docsDir, loader, counter);
      ([page.0], [], page.1)
    else if e.Folder? then
      SubWalkable(dirPath, e.name, docsDir);
      var w := Walk(dirPath + [e.name], e.entries, docsDir, loader, counter);
      if w.0.Some? then ([], [w.0.value], w.1) else ([], [], w.1)
    else ([], [], counter)
  }

  /** The loop of `walk_dir` over a listing, in listing order. */
  function WalkEntries(dirPath: Path, entries: seq<Entry>, docsDir: Path, loader: Loader, counter: Counter)
    : (r: (seq<Document>, seq<Directory>, Counter))
    requires Walkable(dirPath, docsDir) && ValidEntries(entries)
    decreases entries, 0
    ensures |r.0| == |MdEntries(entries)|
    ensures |r.1| == |KeptFolders(entries)|
  {
    if |entries| == 0 then ([], [], counter)
    else
      assert ValidEntries(entries[1..]) by {
        assert forall i :: 0 <= i < |entries[1..]| ==> entries[1..][i] == entries[i + 1];
      }
      var first := WalkEntry(dirPath, entries[0], docsDir, loader, counter);
      var rest := WalkEntries(dirPath, entries[1..], docsDir, loader, first.2);
      (first.0 + rest.0, first.1 + rest.1, rest.2)
  }

  /** `walk_dir`: the directory at `dirPath` with the given listing, or None
      when it holds no Markdown file directly; its subdirectories are then
      discarded, although the pages found in them have taken ids. */
  function Walk(dirPath: Path, entries: seq<Entry>, docsDir: Path, loader: Loader, counter: Counter)
    : (r: (Option<Directory>, Counter))
    requires Walkable(dirPath, docsDir) && ValidEntries(entries)
    decreases entries, 1
    ensures r.0.None? <==> |MdEntries(entries)| == 0
    ensures r.0.Some? ==> r.0.value.path == dirPath
    ensures r.0.Some? ==> |r.0.value.docs| == |MdEntries(entries)| && |r.0.value.dirs| == |KeptFolders(entries)|
  {
    var r := WalkEntries(dirPath, entries, docsDir, loader, counter);
    if |r.0| == 0 then (None, r.2)
    else (Some(Directory(dirPath, r.0, r.1)), r.2)
  }

  /** Every directory the walk returns has the shape of the loaded tree,
      and a page at every depth. */
  lemma {:induction false} WalkShape(dirPath: Path, entries: seq<Entry>, docsDir: Path, loader: Loader, counter: Counter)
    requires Walkable(dirPath, docsDir) && ValidEntries(entries)
    decreases entries, 2
    ensures Walk(dirPath, entries, docsDir, loader, counter).0.Some? ==>
              Placed(Walk(dirPath, entries, docsDir, loader, counter).0.value, docsDir)
              && Populated(Walk(dirPath, entries, docsDir, loader, counter).0.value)
  {
    var r := WalkEntries(dirPath, entries, docsDir, loader, counter);
    WalkEntriesShape(dirPath, entries, docsDir, loader, counter);
    if |r.0| > 0 {
      var d := Directory(dirPath, r.0, r.1);
      assert Walk(dirPath, entries, docsDir, loader, counter).0 == Some(d);
      assert Placed(d, docsDir);
      assert Populated(d);
    }
  }

  /** The pages and directories a listing yields sit in the directory being walked. */
  lemma {:induction false} WalkEntriesShape(dirPath: Path, entries: seq<Entry>, docsDir: Path, loader: Loader, counter: Counter)
    requires Walkable(dirPath, docsDir) && ValidEntries(entries)
    decreases entries, 1
    ensures forall d :: d in WalkEntries(dirPath, entries, docsDir, loader, counter).0 ==> DocIn(d, dirPath, docsDir)
    ensures forall s :: s in WalkEntries(dirPath, entries, docsDir, loader, counter).1 ==> ChildOf(s, dirPath, docsDir)
  {
    if |entries| > 0 {
      var rest := entries[1..];
      assert ValidEntries(rest) by {
        assert forall i :: 0 <= i < |rest| ==> rest[i] == entries[i + 1];
      }
      var first := WalkEntry(dirPath, entries[0], docsDir, loader, counter);
      WalkEntryShape(dirPath, entries[0], docsDir, loader, counter);
      WalkEntriesShape(dirPath, rest, docsDir, loader, first.2);
    }
  }

  lemma {:induction false} WalkEntryShape(dirPath: Path, e: Entry, docsDir: Path, loader: Loader, counter: Counter)
    requires Walkable(dirPath, docsDir)
    requires ValidSegment(e.name) && (e.Folder? ==> ValidEntries(e.entries))
    decreases e
    ensures forall d :: d in WalkEntry(dirPath, e, docsDir, loader, counter).0 ==> DocIn(d, dirPath, docsDir)
    ensures forall s :: s in WalkEntry(dirPath, e, docsDir, loader, counter).1 ==> ChildOf(s, dirPath, docsDir)
  {
    if !IsMarkdown(e) && e.Folder? {
      SubWalkable(dirPath, e.name, docsDir);
      WalkShape(dirPath + [e.name], e.entries, docsDir, loader, counter);
    }
  }

  /** Pages matching, one for one, the Markdown entries they were loaded
      from: each at the entry's name under `prefix`, holding its text. */
  predicate PagesOf(docs: seq<Document>, md: seq<Entry>, prefix: Path) {
    && |docs| == |md|
    && forall i :: 0 <= i < |docs| ==> md[i].File? && docs[i].path == prefix + [md[i].name] && docs[i].raw == md[i].content
  }

  /** Directories matching, one for one, the folders they were walked from. */
  predicate DirsOf(dirs: seq<Directory>, kept: seq<Entry>, parent: Path) {
    && |dirs| == |kept|
    && forall j :: 0 <= j < |dirs| ==> dirs[j].path == parent + [kept[j].name]
  }

  lemma PagesOfConcat(a: seq<Document>, b: seq<Document>, ma: seq<Entry>, mb: seq<Entry>, prefix: Path)
    requires PagesOf(a, ma, prefix) && PagesOf(b, mb, prefix)
    ensures PagesOf(a + b, ma + mb, prefix)
  {
    forall i | 0 <= i < |a + b|
      ensures (ma + mb)[i].File? && (a + b)[i].path == prefix + [(ma + mb)[i].name] && (a + b)[i].raw == (ma + mb)[i].content
    {
      if i < |a| {
        assert (a + b)[i] == a[i] && (ma + mb)[i] == ma[i];
      } else {
        assert (a + b)[i] == b[i - |a|] && (ma + mb)[i] == mb[i - |a|];
      }
    }
  }

  lemma DirsOfConcat(a: seq<Directory>, b: seq<Directory>, ka: seq<Entry>, kb: seq<Entry>, parent: Path)
    requires DirsOf(a, ka, parent) && DirsOf(b, kb, parent)
    ensures DirsOf(a + b, ka + kb, parent)
  {
    forall j | 0 <= j < |a + b|
      ensures (a + b)[j].path == parent + [(ka + kb)[j].name]
    {
      if j < |a| {
        assert (a + b)[j] == a[j] && (ka + kb)[j] == ka[j];
      } else {
        assert (a + b)[j] == b[j - |a|] && (ka + kb)[j] == kb[j - |a|];
      }
    }
  }

  /** What one entry yields: the page of a Markdown file, the directory of a kept folder. */
  lemma WalkEntryOrder(dirPath: Path, e: Entry, docsDir: Path, loader: Loader, counter: Counter)
    requires Walkable(dirPath, docsDir) && ValidSegment(e.name) && (e.Folder? ==> ValidEntries(e.entries))
    ensures PagesOf(WalkEntry(dirPath, e, docsDir, loader, counter).0, if IsMarkdown(e) then [e] else [], StripPrefix(dirPath, docsDir))
    ensures DirsOf(WalkEntry(dirPath, e, docsDir, loader, counter).1, if Kept(e) then [e] else [], dirPath)
  {
    if e.Folder? {
      SubWalkable(dirPath, e.name, docsDir);
    }
  }

  /** The pages of a directory are its Markdown files, in listing order,
      with their paths made relative to the docs directory and their text kept. */
  lemma {:induction false} WalkDocsOrder(dirPath: Path, entries: seq<Entry>, docsDir: Path, loader: Loader, counter: Counter)
    requires Walkable(dirPath, docsDir) && ValidEntries(entries)
    decreases entries
    ensures PagesOf(WalkEntries(dirPath, entries, docsDir, loader, counter).0, MdEntries(entries), StripPrefix(dirPath, docsDir))
  {
    if |entries| > 0 {
      var e := entries[0];
      var rest := entries[1..];
      assert ValidEntries(rest) by {
        assert forall i :: 0 <= i < |rest| ==> rest[i] == entries[i + 1];
      }
      var first := WalkEntry(dirPath, e, docsDir, loader, counter);
      WalkEntryOrder(dirPath, e, docsDir, loader, counter);
      WalkDocsOrder(dirPath, rest, docsDir, loader, first.2);
      var tail := WalkEntries(dirPath, rest, docsDir, loader, first.2);
      assert WalkEntries(dirPath, entries, docsDir, loader, counter).0 == first.0 + tail.0;
      PagesOfConcat(first.0, tail.0, if IsMarkdown(e) then [e] else [], MdEntries(rest), StripPrefix(dirPath, docsDir));
    }
  }

  /** The subdirectories of a directory are the folders that hold a Markdown
      file, in listing order. */
  lemma {:induction false} WalkDirsOrder(dirPath: Path, entries: seq<Entry>, docsDir: Path, loader: Loader, counter: Counter)
    requires Walkable(dirPath, docsDir) && ValidEntries(entries)
    decreases entries
    ensures DirsOf(WalkEntries(dirPath, entries, docsDir, loader, counter).1, KeptFolders(entries), dirPath)
  {
    if |entries| > 0 {
      var e := entries[0];
      var rest := entries[1..];
      assert ValidEntries(rest) by {
        assert forall i :: 0 <= i < |rest| ==> rest[i] == entries[i + 1];
      }
      var first := WalkEntry(dirPath, e, docsDir, loader, counter);
      WalkEntryOrder(dirPath, e, docsDir, loader, counter);
      WalkDirsOrder(dirPath, rest, docsDir, loader, first.2);
      var tail := WalkEntries(dirPath, rest, docsDir, loader, first.2);
      assert WalkEntries(dirPath, entries, docsDir, loader, counter).1 == first.1 + tail.1;
      DirsOfConcat(first.1, tail.1, if Kept(e) then [e] else [], KeptFolders(rest), dirPath);
    }
  }

  /** Only regular files with the extension `md` become pages, and every one does. */
  lemma {:induction false} MdEntriesAreMarkdown(entries: seq<Entry>)
    ensures forall e :: e in MdEntries(entries) <==> e in entries && IsMarkdown(e)
  {
    if |entries| > 0 {
      MdEntriesAreMarkdown(entries[1..]);
      assert entries == [entries[0]] + entries[1..];
    }
  }

  /** The pages of a walked directory sit in the directory `Directory::path`
      names: its path is the docs directory followed by that parent. */
  lemma WalkedPath(dir: Directory, docsDir: Path)
    requires Placed(dir, docsDir) && |dir.docs| > 0
    ensures |dir.docs[0].path| > 0
    ensures docsDir + DocsPath(dir) == dir.path
  {
    var d := dir.docs[0];
    assert d in dir.docs;
    assert d.path[..|d.path| - 1] == StripPrefix(dir.path, docsDir);
  }

  /** A placed directory has a name, and each of its pages a stem. */
  lemma PlacedNamed(dir: Directory, docsDir: Path)
    requires Placed(dir, docsDir)
    ensures FileName(dir.path).Some?
    ensures forall i :: 0 <= i < |dir.docs| ==> Navigation.Linkable(dir.docs[i])
  {
    assert ValidSegment(dir.path[|dir.path| - 1]);
    forall i | 0 <= i < |dir.docs|
      ensures Navigation.Linkable(dir.docs[i])
    {
      assert dir.docs[i] in dir.docs;
    }
  }

  // ---------------------------------------------------------------------
  // Generated index pages
  // ---------------------------------------------------------------------

  /** `OsStr == "README.md"` on `original_file_name`: the directory has an index page. */
  predicate HasReadme(docs: seq<Document>) {
    exists d :: d in docs && OriginalFileName(d) == Some("README.md")
  }

  /** Every directory of the tree, at every depth, has a `README.md`. */
  predicate AllHaveReadme(dir: Directory) {
    HasReadme(dir.docs) && forall s :: s in dir.dirs ==> AllHaveReadme(s)
  }

  /** How a directory path is displayed in the generated text: relative to
      the project root when under it, else as the whole absolute path. */
  function DisplayDir(p: Path, projectRoot: Path): string {
    if StartsWith(p, projectRoot) then Text.Join(StripPrefix(p, projectRoot), '/')
    else "/" + Text.Join(p, '/')
  }

  /** One list item of the generated page: `* [title](uri)`. */
  function ListItem(d: Document, base: string): string
    requires Navigation.Linkable(d)
  {
    "* [" + Documents.Title(d) + "](" + UriPath(d, base) + ")"
  }

  function ListItems(docs: seq<Document>, base: string): (r: seq<string>)
    requires forall i :: 0 <= i < |docs| ==> Navigation.Linkable(docs[i])
  {
    seq(|docs|, i requires 0 <= i < |docs| => ListItem(docs[i], base))
  }

  /** The list of pages: one item per existing page, joined by newlines. */
  function IndexContent(docs: seq<Document>, base: string): string
    requires forall i :: 0 <= i < |docs| ==> Navigation.Linkable(docs[i])
  {
    Text.Join(ListItems(docs, base), '\n')
  }

  const IndexIntro := " \n This page was generated automatically by Doctave, because the directory `"
  const IndexOutro := "` did not contain an index `README.md` file. You can customize this page by creating one yourself.\n## Pages\n\n"

  /** The text of a generated index page: a heading line naming the
      directory, the explanation, then the list of pages. */
  function IndexBody(name: string, shown: string, content: string): (r: string)
    ensures Text.StartsWith(r, "# Index of " + name + "\n")
    ensures |content| <= |r| && r[|r| - |content|..] == content
  {
    var heading := "# Index of " + name + "\n";
    var head := heading + IndexIntro + shown + IndexOutro;
    var body := head + content;
    assert body[..|heading|] == heading;
    assert body[|head|..] == content;
    body
  }

  /** The name `README.md` has the stem `README` and the extension `md`. */
  lemma ReadmeName(dir: Path)
    ensures FileName(dir + ["README.md"]) == Some("README.md")
    ensures FileStem(dir + ["README.md"]) == Some("README")
    ensures Extension(dir + ["README.md"]) == Some("md")
  {
    assert "README" + "." + "md" == "README.md";
    Paths.SplitFileAtDotRoundTrip("README", "md");
  }

  /** `generate_missing_index`: a `README.md` in the directory whose title is
      the directory's name and whose body lists the directory's pages. */
  function GenerateMissingIndex(dir: Directory, c: Config.Config, loader: Loader, counter: Counter)
    : (r: (Document, Counter))
    requires StartsWith(dir.path, c.docsDir) && FileName(dir.path).Some?
    requires forall i :: 0 <= i < |dir.docs| ==> Navigation.Linkable(dir.docs[i])
    ensures r.0.path == StripPrefix(dir.path, c.docsDir) + ["README.md"]
    ensures r.0.rename == Some("index") && OriginalFileName(r.0) == Some("README.md")
    ensures FileStem(r.0.path).Some? && Documents.Title(r.0) == FileName(dir.path).value
    ensures Text.StartsWith(r.0.raw, "# Index of " + FileName(dir.path).value + "\n")
    ensures r.0.id == counter && r.1 == NextId(counter)
  {
    var name := FileName(dir.path).value;
    var path := StripPrefix(dir.path + ["README.md"], c.docsDir);
    assert (dir.path + ["README.md"])[..|c.docsDir|] == dir.path[..|c.docsDir|];
    assert path == StripPrefix(dir.path, c.docsDir) + ["README.md"];
    ReadmeName(StripPrefix(dir.path, c.docsDir));
    var content := IndexContent(dir.docs, Config.BasePath(c));
    var raw := IndexBody(name, DisplayDir(dir.path, c.projectRoot), content);
    var r := NewDocument(path, [], raw, map["title" := name], loader.links(raw), counter);
    assert r.0.path == path;
    r
  }

  /** The generated page ends with the list of the directory's pages, and
      only those: splitting the list at newlines gives one item per page, in
      order, when no item spans lines. */
  lemma IndexListsPages(dir: Directory, c: Config.Config, loader: Loader, counter: Counter)
    requires StartsWith(dir.path, c.docsDir) && FileName(dir.path).Some?
    requires forall i :: 0 <= i < |dir.docs| ==> Navigation.Linkable(dir.docs[i])
    requires |dir.docs| > 0
    requires forall i :: 0 <= i < |dir.docs| ==> '\n' !in ListItem(dir.docs[i], Config.BasePath(c))
    ensures GenerateMissingIndex(dir, c, loader, counter).0.raw
         == IndexBody(FileName(dir.path).value, DisplayDir(dir.path, c.projectRoot), IndexContent(dir.docs, Config.BasePath(c)))
    ensures |Text.Split(IndexContent(dir.docs, Config.BasePath(c)), '\n')| == |dir.docs|
    ensures forall i :: 0 <= i < |dir.docs| ==>
      Text.Split(IndexContent(dir.docs, Config.BasePath(c)), '\n')[i] == ListItem(dir.docs[i], Config.BasePath(c))
  {
    Text.SplitJoin(ListItems(dir.docs, Config.BasePath(c)), '\n');
  }

  /** Each existing page of the directory appears in the generated page. */
  lemma IndexMentionsPage(dir: Directory, c: Config.Config, loader: Loader, counter: Counter, i: nat)
    requires StartsWith(dir.path, c.docsDir) && FileName(dir.path).Some?
    requires forall k :: 0 <= k < |dir.docs| ==> Navigation.Linkable(dir.docs[k])
    requires i < |dir.docs|
    ensures Text.Contains(GenerateMissingIndex(dir, c, loader, counter).0.raw, ListItem(dir.docs[i], Config.BasePath(c)))
  {
    var items := ListItems(dir.docs, Config.BasePath(c));
    var content := IndexContent(dir.docs, Config.BasePath(c));
    Text.JoinContainsPiece(items, '\n', i);
    var raw := GenerateMissingIndex(dir, c, loader, counter).0.raw;
    assert raw == IndexBody(FileName(dir.path).value, DisplayDir(dir.path, c.projectRoot), content);
    Text.ContainsInSuffix(raw, content, items[i]);
  }

  /** A `README.md` renamed to `index` in a directory sits in it like a loaded page. */
  lemma ReadmeIn(d: Document, dirPath: Path, docsDir: Path)
    requires StartsWith(dirPath, docsDir)
    requires d.path == StripPrefix(dirPath, docsDir) + ["README.md"] && d.rename == Some("index")
    ensures DocIn(d, dirPath, docsDir)
  {
    assert d.path[|d.path| - 1] == "README.md";
    assert "README.md"[0] == 'R';
  }

  /** The pages of the directory after the index step: unchanged when it has
      a `README.md`, else with the generated index appended. */
  function WithIndex(dir: Directory, c: Config.Config, loader: Loader, counter: Counter)
    : (r: (seq<Document>, Counter))
    requires Placed(dir, c.docsDir)
    ensures HasReadme(dir.docs) ==> r == (dir.docs, counter)
    ensures !HasReadme(dir.docs) ==> |r.0| == |dir.docs| + 1 && r.0[..|dir.docs|] == dir.docs
    ensures !HasReadme(dir.docs) ==> OriginalFileName(r.0[|dir.docs|]) == Some("README.md")
    ensures HasReadme(r.0) && forall d :: d in r.0 ==> DocIn(d, dir.path, c.docsDir)
  {
    if HasReadme(dir.docs) then (dir.docs, counter)
    else
      PlacedNamed(dir, c.docsDir);
      var index := GenerateMissingIndex(dir, c, loader, counter);
      ReadmeIn(index.0, dir.path, c.docsDir);
      AppendReadme(dir.docs, index.0, dir.path, c.docsDir);
      (dir.docs + [index.0], index.1)
  }

  /** Appending a `README.md` that sits in the directory keeps every page in
      it and gives the directory its index page. */
  lemma AppendReadme(docs: seq<Document>, index: Document, dirPath: Path, docsDir: Path)
    requires StartsWith(dirPath, docsDir)
    requires forall d :: d in docs ==> DocIn(d, dirPath, docsDir)
    requires DocIn(index, dirPath, docsDir) && OriginalFileName(index) == Some("README.md")
    ensures HasReadme(docs + [index])
    ensures forall d :: d in docs + [index] ==> DocIn(d, dirPath, docsDir)
    ensures (docs + [index])[..|docs|] == docs && (docs + [index])[|docs|] == index
  {
    assert index in docs + [index];
  }

  /** `generate_missing_indices`: add an index page to the directory when it
      has no `README.md`, then do the same for each subdirectory in order. */
  function GenerateMissingIndices(dir: Directory, c: Config.Config, loader: Loader, counter: Counter)
    : (r: (Directory, Counter))
    requires Placed(dir, c.docsDir)
    decreases dir, 1
    ensures r.0.path == dir.path
    ensures r.0.docs == WithIndex(dir, c, loader, counter).0
    ensures |r.0.dirs| == |dir.dirs|
    ensures forall j :: 0 <= j < |dir.dirs| ==> r.0.dirs[j].path == dir.dirs[j].path
  {
    var docs := WithIndex(dir, c, loader, counter);
    var dirs := GenerateAll(dir.dirs, c, loader, docs.1);
    (Directory(dir.path, docs.0, dirs.0), dirs.1)
  }

  /** The loop over the subdirectories, threading the id counter. */
  function GenerateAll(dirs: seq<Directory>, c: Config.Config, loader: Loader, counter: Counter)
    : (r: (seq<Directory>, Counter))
    requires forall s :: s in dirs ==> Placed(s, c.docsDir)
    decreases dirs, 0
    ensures |r.0| == |dirs|
    ensures forall j :: 0 <= j < |dirs| ==> r.0[j].path == dirs[j].path
  {
    if |dirs| == 0 then ([], counter)
    else
      var first := GenerateMissingIndices(dirs[0], c, loader, counter);
      var rest := GenerateAll(dirs[1..], c, loader, first.1);
      ([first.0] + rest.0, rest.1)
  }

  /** After the index step every directory, at every depth, has a
      `README.md`, and the tree keeps its shape. */
  lemma {:induction false} GenerateShape(dir: Directory, c: Config.Config, loader: Loader, counter: Counter)
    requires Placed(dir, c.docsDir)
    decreases dir, 1
    ensures Placed(GenerateMissingIndices(dir, c, loader, counter).0, c.docsDir)
    ensures AllHaveReadme(GenerateMissingIndices(dir, c, loader, counter).0)
  {
    var docs := WithIndex(dir, c, loader, counter);
    GenerateAllShape(dir.dirs, c, loader, docs.1);
  }

  lemma {:induction false} GenerateAllShape(dirs: seq<Directory>, c: Config.Config, loader: Loader, counter: Counter)
    requires forall s :: s in dirs ==> Placed(s, c.docsDir)
    decreases dirs, 0
    ensures forall s :: s in GenerateAll(dirs, c, loader, counter).0 ==> Placed(s, c.docsDir) && AllHaveReadme(s)
  {
    if |dirs| > 0 {
      var first := GenerateMissingIndices(dirs[0], c, loader, counter);
      GenerateShape(dirs[0], c, loader, counter);
      GenerateAllShape(dirs[1..], c, loader, first.1);
    }
  }

  /** `find`: walk the docs directory, fall back to an empty directory when
      the walk finds nothing, and generate the missing index pages. */
  function Find(c: Config.Config, entries: seq<Entry>, loader: Loader, counter: Counter)
    : (r: (Directory, Counter))
    requires ValidPath(c.docsDir) && |c.docsDir| > 0 && ValidEntries(entries)
    ensures r.0.path == c.docsDir
    ensures |MdEntries(entries)| == 0 ==> |r.0.docs| == 1 && r.0.dirs == []
    ensures |MdEntries(entries)| > 0 ==> |r.0.docs| >= |MdEntries(entries)| && |r.0.dirs| == |KeptFolders(entries)|
  {
    assert StartsWith(c.docsDir, c.docsDir);
    var walked := Walk(c.docsDir, entries, c.docsDir, loader, counter);
    WalkShape(c.docsDir, entries, c.docsDir, loader, counter);
    var root := if walked.0.Some? then walked.0.value else Directory(c.docsDir, [], []);
    assert !HasReadme([]);
    GenerateMissingIndices(root, c, loader, walked.1)
  }

  /** The tree `find` returns has a `README.md` in every directory, and its
      pages sit where the walk or the index step put them. */
  lemma FoundShape(c: Config.Config, entries: seq<Entry>, loader: Loader, counter: Counter)
    requires ValidPath(c.docsDir) && |c.docsDir| > 0 && ValidEntries(entries)
    ensures Placed(Find(c, entries, loader, counter).0, c.docsDir)
    ensures AllHaveReadme(Find(c, entries, loader, counter).0)
  {
    assert StartsWith(c.docsDir, c.docsDir);
    var walked := Walk(c.docsDir, entries, c.docsDir, loader, counter);
    WalkShape(c.docsDir, entries, c.docsDir, loader, counter);
    var root := if walked.0.Some? then walked.0.value else Directory(c.docsDir, [], []);
    GenerateShape(root, c, loader, walked.1);
  }

  /** The loaded tree is what the default navigation needs: every directory
      has an index page and every page a stem. */
  lemma {:induction false} ReadyForNavigation(dir: Directory, docsDir: Path)
    requires Placed(dir, docsDir) && AllHaveReadme(dir)
    decreases dir
    ensures Navigation.Indexed(dir)
  {
    var d :| d in dir.docs && OriginalFileName(d) == Some("README.md");
    assert DocIn(d, dir.path, docsDir);
    assert Navigation.IndexOf(dir.docs).Some?;
    PlacedNamed(dir, docsDir);
    forall j | 0 <= j < |dir.dirs|
      ensures Navigation.Indexed(dir.dirs[j])
    {
      assert dir.dirs[j] in dir.dirs;
      ReadyForNavigation(dir.dirs[j], docsDir);
    }
  }

  /** The tree `find` returns can be turned into the default navigation. */
  lemma FoundIsIndexed(c: Config.Config, entries: seq<Entry>, loader: Loader, counter: Counter)
    requires ValidPath(c.docsDir) && |c.docsDir| > 0 && ValidEntries(entries)
    ensures Navigation.Indexed(Find(c, entries, loader, counter).0)
  {
    FoundShape(c, entries, loader, counter);
    ReadyForNavigation(Find(c, entries, loader, counter).0, c.docsDir);
  }
}
