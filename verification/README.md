# Doctave core, modelled in Dafny

Doctave turns a `docs/` folder of Markdown pages into a static HTML site.
This project models the core of that pipeline, with each part as pure
functions over immutable values:

- **Configuration** (`config.dfy`). Loading `doctave.yaml` puts the output
  directory at `<root>/site` and the docs directory at `<root>/docs`. The
  project root is the nearest ancestor of the working directory that holds a
  `doctave.yaml`.
- **Documents** (`documents.dfy`).
  - A page's path relative to the docs root.
  - A `README.md` is renamed to `index`.
  - Ids come from a wrapping 32-bit counter.
  - The `.html` destination, the title (the frontmatter title, else the file
    stem) and the page URI.
- **URIs** (`uris.dfy`). `Link::path_to_uri` drops the extension, collapses
  `index` into its parent and joins with `/`. `path_to_uri_with_extension`
  does the same but keeps the extension. URIs are placed under the configured
  base path.
- **Discovery** (`docs_finder.dfy`).
  - Walking the docs folder: Markdown files become pages, and sub-folders
    without Markdown are pruned.
  - Generating an index page for every directory that lacks a `README.md`.
- **Navigation** (`navigation.dfy`).
  - The default tree: pages and sub-directory index links of a directory,
    stably sorted by title in a natural order where digit runs compare by
    value.
  - The search for the link a navigation rule names: the first match on a
    level, else the first match among the children.
  - Customisation of the tree by `File` and `Dir` rules: no children, all
    children, or explicit nested rules.
- **Markdown filter** (`markdown.dfy`). The `filter_map` closure of
  `markdown::parse` over the parser's event stream:
  - mermaid fences are replaced by `<div class="mermaid">`;
  - a heading's first text is captured with a numbered anchor;
  - every other event passes through.
- **Frontmatter** (`frontmatter.dfy`). Finding the `---` block and decoding it.
- **Site store** (`site.dfy`).
  - The in-memory site: a map from output-relative paths to bytes.
  - The forwarding `impl Site for &T`.
- **Preview server resolver** (`preview_server.dfy`).
  - Which output file answers a request path: requests containing `..` are
    refused, then the exact file is tried, then the directory's `index.html`.
  - The content type for each extension.
- **Broken-link checker** (`broken_links.dfy`). Every local link of every
  page that the resolver cannot answer is reported.

Paths are sequences of components (`Paths.Path = seq<string>`). Request paths
of the preview server are strings parsed with the component rules of Rust's
`Path::components`. Helpers for text (`text.dfy`), paths (`paths.dfy`) and
results (`outcomes.dfy`) support the modules above.

Where the source files disagree with each other or with their own tests, the
model follows the code as written:

- The resolver in `src/preview_server.rs:67-86` has no `.html` fallback and
  does not strip a `#fragment`, although the tests at
  `src/broken_links_checker.rs:95-115` and `:219-243` expect both. A link to
  `/other` is reported even when `other.html` exists
  (`BrokenLinks.ReportsLinkWithoutExtension`).
- `generate_missing_indices` (`src/docs_finder.rs:65-79`) first adds the
  directory's own index, then recurses into its sub-directories: it works
  parent-first. The generated index lists only the directory's pages, not its
  sub-directories.
- `read_path` and `has_file` look up the key they are given. They do not
  strip the output directory as `add_file` does.
- `src/docs_finder.rs` calls `Document::new` with a base path, but the
  constructor in `src/lib.rs:117-147` takes a root and no base path. The
  model follows `src/lib.rs`, and the generated index is rooted at the empty
  path.
- `Directory` in `src/lib.rs:66-85` has no `path` field and derives it from
  its first page. `src/docs_finder.rs` builds directories with an explicit
  path. The model keeps the explicit path (the walker's view) and also
  models the derived one (`Documents.DocsPath`).

## Model

| member | source | states |
|---|---|---|
| Config.Load | src/config.rs:21-33 | A missing file is an error. A decoder failure is reported with its message. Success happens exactly when the file exists and decodes. Then the out dir is `<root>/site` and the docs dir is `<root>/docs`. |
| Config.OutAndDocsApart | src/config.rs:30-31 | The output and docs directories of a loaded config differ, and neither lies inside the other. |
| Config.FindProjectRoot | src/config.rs:56-71 | Finds the nearest ancestor (or the directory itself) holding a `doctave.yaml`. No closer directory holds one. The result is None exactly when no ancestor does. |
| Config.NearestIsDeepest | src/config.rs:56-71 | The reference search returns the deepest ancestor with a `doctave.yaml`, and None exactly when there is none. |
| Documents.NextId | src/lib.rs:89 | The id counter increments by one and wraps from 2^32 - 1 to 0, as `AtomicU32::fetch_add` does. |
| Documents.IdsIncrease | src/lib.rs:139 | Ids handed out consecutively below the wrap point are `c, c+1, ...`, strictly increasing. |
| Documents.IdsModular | src/lib.rs:89 | The k-th id handed out from a counter value c is `(c + k) mod 2^32`, across the wrap. |
| Documents.IdsWrap | src/lib.rs:89 | The id after 4294967295 is 0, and the first document and the (2^32 + 1)-th get the same id. |
| Documents.NewDocument | src/lib.rs:117-147 | A path under the root loses the root prefix and other paths are kept. The page is renamed to `index` exactly when the path ends in `README.md`. It takes the current id and advances the counter. Raw text and frontmatter are kept. |
| Documents.RelativePath | src/lib.rs:157-166 | The relative path replaces only the file name and keeps the directories. |
| Documents.RelativePathRoundTrip | src/lib.rs:157-166 | The output file's stem is the page's stem, or `index` for a renamed page. Its extension is `html`. |
| Documents.Destination | src/lib.rs:153-155 | The destination lies under the output directory, and stripping it gives back the relative path. |
| Documents.Title | src/lib.rs:180-185 | The frontmatter `title` wins. Otherwise the title is the file name without its `.md` extension. |
| Documents.UriPath | src/navigation.rs:572-596 | A page's URI is the base path followed by the URI of its relative path. |
| Documents.PageUri | src/navigation.rs:116-139 | A non-index page `a/b/c.md` has the URI `a/b/c`. |
| Documents.IndexUri | src/navigation.rs:122-127 | A `README.md` has its directory's URI. |
| Documents.UriInjective | src/navigation.rs:116-139 | Two non-index Markdown pages with the same URI have the same path. |
| Documents.DocsPath | src/lib.rs:72-74 | A directory's path is the parent of its first page. |
| Documents.DirDestination | src/lib.rs:76-84 | A directory's destination is the output directory joined with its path. |
| Uris.CollapseIndex | src/navigation.rs:122-127 | A final `index` component is removed. Any other path is unchanged. |
| Uris.NoLeadingSlash | src/navigation.rs:138 | Neither URI function returns a text starting with `/`. |
| Uris.UriDropsExtension | src/navigation.rs:116-139 | For a non-index path, the URI is the path without its extension, joined by `/`. |
| Uris.UriCollapsesIndex | src/navigation.rs:120-127 | `dir/index.<ext>` maps to the URI of `dir`, and a top-level index maps to the empty URI. |
| Uris.UriWithExtension | src/navigation.rs:141-161 | With the extension kept, only a component literally named `index` is collapsed. |
| Uris.UriSegments | src/navigation.rs:116-139 | Splitting a non-index URI at `/` gives back the path's components, minus the extension. |
| Uris.UriCollision | src/navigation.rs:116-139 | `dir/x.html` and `dir/x/index.html` have the same URI. |
| Uris.StripBaseText | src/navigation.rs:83-90 | The base path is removed as text: a link path that starts with the base leaves whatever follows it, leading slashes trimmed. |
| Uris.BaseEndsInsideSegment | src/navigation.rs:83-86 | With the base `/ex`, the link path `/example` strips to `ample`: the strip does not respect segment boundaries. |
| Uris.StripUnderBase | src/navigation.rs:83-86 | Stripping the base path from a URI placed under it gives back the URI. |
| Navigation.TokensTrichotomy | src/navigation.rs:238-343 | The natural title order is asymmetric and total: of two different token lists exactly one comes first. |
| Navigation.NaturalOrderExamples | src/navigation.rs:238-343 | `2 < 11` (digit runs compare by value), `11 < AA` and `AA < bb`: the orders the sorting test expects. |
| Navigation.SortByTitleSorted | src/navigation.rs:238-343 | Sorting by title yields a list that is sorted and is a permutation of the input. |
| Navigation.DefaultLinks | src/navigation.rs:190-236 | The default level holds exactly the non-index pages and the sub-directory index links, as a multiset. |
| Navigation.DefaultTreeShape | src/navigation.rs:538-597 | Every link of the default tree lies under the base path, and every level is sorted by title. |
| Navigation.FirstMatch | src/navigation.rs:79-91 | Returns the first link of a level that matches the rule target. None means no link of the level matches. |
| Navigation.FindLinkCorrect | src/navigation.rs:78-105 | A found link is in the tree and matches. The search fails exactly when no link of the tree matches. |
| Navigation.LevelFirst | src/navigation.rs:93-94 | A match on the current level wins over matches among the children. |
| Navigation.ChildrenInOrder | src/navigation.rs:95-103 | Without a match on the current level, the result is the first match found among the children, in sibling order. |
| Navigation.ApplyRule | src/navigation.rs:54-68 | A `File` rule or a `Dir` rule with `*` keeps the link. A `Dir` rule without children empties them. The path and title are always kept. |
| Navigation.ExplicitChildren | src/navigation.rs:63-67 | A `Dir` rule with explicit nested rules succeeds exactly when the nested customisation does. The link's children are then the nested result. |
| Navigation.Customize | src/navigation.rs:40-74 | On success, the result has one link per rule. |
| Navigation.CustomizeOkIff | src/navigation.rs:40-74 | Customisation succeeds exactly when every rule, nested rules included, finds its link. |
| Navigation.CustomizeShape | src/navigation.rs:43-71 | The i-th output link is what the i-th rule yields: the matched link's path and title. |
| Navigation.OutputFromDefault | src/navigation.rs:36-39 | Every output link is a link of the default tree, possibly with other children. |
| Navigation.BuildFor | src/navigation.rs:18-25 | Without navigation rules, the default tree is returned. With rules, a successful build has one top-level link per rule. |
| DocsFinder.Walk | src/docs_finder.rs:26-63 | A folder yields None exactly when it holds no Markdown file. Otherwise it yields a directory at its path with one page per Markdown file and one child per non-empty sub-folder. |
| DocsFinder.WalkShape | src/docs_finder.rs:26-63 | Every page and sub-directory of a walked folder lies in that folder, all the way down, and every directory kept has at least one page. |
| DocsFinder.WalkDocsOrder | src/docs_finder.rs:37-40 | The i-th page comes from the i-th Markdown file. Its path is the folder's path relative to the docs root plus the file name, and its raw text is the file's content. |
| DocsFinder.WalkDirsOrder | src/docs_finder.rs:41-51 | The j-th child directory comes from the j-th kept sub-folder and has the path `folder/name`. |
| DocsFinder.LoadPage | src/docs_finder.rs:37-40 | A Markdown entry becomes a page whose path is relative to the docs root. It takes the next id. |
| DocsFinder.GenerateMissingIndex | src/docs_finder.rs:81-120 | The generated page is `<dir>/README.md` relative to the docs root and is renamed to `index`. Its title is the directory's name. Its text opens with `# Index of <name>`. |
| DocsFinder.IndexListsPages | src/docs_finder.rs:82-87 | The generated index lists one line per page of the directory, in order. The i-th line is `* [title](uri)` of the i-th page. |
| DocsFinder.IndexMentionsPage | src/docs_finder.rs:82-87 | Every page's list item occurs in the generated index. |
| DocsFinder.IndexBody | src/docs_finder.rs:99-116 | The index text opens with its `# Index of` heading and ends with the page list. |
| DocsFinder.WithIndex | src/docs_finder.rs:66-74 | A directory with a `README.md` is unchanged. Otherwise one `README.md` page is appended after the existing pages. Either way the directory then has a `README.md`. |
| DocsFinder.GenerateMissingIndices | src/docs_finder.rs:65-79 | The directory keeps its path and its children. Its pages are those `WithIndex` gives. |
| DocsFinder.GenerateShape | src/docs_finder.rs:65-79 | After generation, every directory of the tree has a `README.md`, and all pages stay in place. |
| DocsFinder.Find | src/docs_finder.rs:12-24 | The root is always the docs directory. An empty docs folder yields a root holding just the generated index. |
| DocsFinder.FoundShape | src/docs_finder.rs:12-24 | The found tree is well placed and every directory in it has a `README.md`. |
| DocsFinder.FoundIsIndexed | src/docs_finder.rs:12-24 | The found tree meets what the navigation builder needs: every directory has an index page. |
| Markdown.Step | src/markdown.rs:27-82 | A heading start is swallowed and arms the capture. A mermaid fence becomes the mermaid `div` tags. Other events pass unchanged unless a capture is armed. At most one heading is added and earlier headings are kept. |
| Markdown.StepKeepsGood | src/markdown.rs:60-74 | One step keeps the invariant: the k-th captured heading carries the anchor numbered k+1, and its level is 1-6. |
| Markdown.Parse | src/markdown.rs:17-89 | The output is the filter's result. Heading k has the anchor `slug-(k+1)` and a level of 1-6. No heading start or mermaid fence remains in the output. |
| Markdown.PassThrough | src/markdown.rs:79-81 | A stream without heading starts and mermaid fences passes through unchanged, and no headings are captured. |
| Markdown.CaptureDisarms | src/markdown.rs:76-79 | Only the first text after a heading start is captured. The next text passes through. |
| Markdown.TestAnchors | src/markdown.rs:95-131 | The test's headings get the anchors `my-heading-1` and `some-other-heading-2`. |
| Markdown.SlugOfTrimmed | src/markdown.rs:53-58 | The slug of an already trimmed text is its lower-cased text with spaces turned into dashes. |
| Frontmatter.EndPos | src/frontmatter.rs:19-32 | The end position is 0 or at least 4, past the opening marker. |
| Frontmatter.Parse | src/frontmatter.rs:3-17 | A text without the opening marker has empty frontmatter. |
| Frontmatter.EndPosZero | src/frontmatter.rs:19-32 | `end_pos` is 0 exactly when the opening marker or a closing marker is missing. |
| Frontmatter.EndPosMarks | src/frontmatter.rs:19-32 | A positive `end_pos` is where the first closing marker after the opening one starts. |
| Frontmatter.ParseUsesEndPos | src/frontmatter.rs:3-32 | `parse` and `end_pos` agree: `parse` decodes the text between the markers exactly when `end_pos` is positive. A decoder error becomes an error. |
| Frontmatter.NeverEnding | src/frontmatter.rs:80-90 | An unterminated block gives empty frontmatter. |
| Frontmatter.WellFormedBlock | src/frontmatter.rs:38-78 | A well-formed block decodes exactly its YAML text, and `end_pos` points at the closing marker. |
| Site.BuildModeName | src/site.rs:18-25 | `dev` names Dev and `release` names Release. |
| Site.BuildModeNameInjective | src/site.rs:18-25 | Distinct modes display differently. |
| Site.NewSite | src/site.rs:66-72 | A new store holds no file. |
| Site.AddFile | src/site.rs:80-87 | Adding stores the content under the path minus the output directory and leaves every other key unchanged. |
| Site.AddThenRead | src/site.rs:213-225 | An added file reads back, and the store reports having it. |
| Site.AddFrame | src/site.rs:80-87 | After an add, the files present are exactly the earlier ones plus the added key. |
| Site.AddOverwrites | src/site.rs:80-87 | A second add at the same path replaces the first. |
| Site.AddCommutes | src/site.rs:80-87 | Adds at different keys commute. |
| Site.HasIffRead | src/site.rs:94-102 | `has_file` holds exactly when `read_path` finds content. |
| Site.Reset | src/site.rs:104-109 | After a reset no path reads anything, and the configuration is kept. |
| Site.ResetEmpties | src/site.rs:104-109 | A reset store equals a new store, and an add then leaves exactly one file. |
| Site.CopyFile | src/site.rs:89-92 | A failed disk read is a `NotFound` error on `from`. Otherwise the destination reads back the source's bytes. |
| Site.CopyIsAdd | src/site.rs:89-92 | A successful copy is an add of the source's bytes at the destination. |
| Site.Apply | src/site.rs:27-35 | Only a copy can fail, and only when the source cannot be read. Every call keeps the configuration. Config, read and has calls leave the store unchanged. |
| Site.ForwardAsWritten | src/site.rs:44-46 | As written, the reference impl swaps `copy_file`'s two paths. |
| Site.ForwardAsWrittenOthers | src/site.rs:37-59 | As written, every call except `copy_file` behaves through the reference as on the store. |
| Site.ForwardAsWrittenSwapsCopy | src/site.rs:44-46 | As written, copying any readable file to a destination under the output directory that is not on disk fails through the reference with `NotFound(to)`. The direct call stores the source's bytes at the destination's key. |
| Site.SwappedCopyExample | src/site.rs:44-46 | Copying `assets/style.css` to `project/site/style.css` through the reference fails, while the direct call succeeds. |
| Site.ForwardTransparent | src/site.rs:37-59 | Intended forwarding: every call, copy included, behaves through the reference exactly as on the store. A copy from a readable file stores its bytes at the destination's key. |
| PreviewServer.ContentTypeFor | src/preview_server.rs:88-106 | No extension gives no type. `html` and `htm` give the HTML type. |
| PreviewServer.ContentTypeKnown | src/preview_server.rs:88-106 | A type is returned exactly for the ten known extensions. Only `jpg`/`jpeg` share the JPEG type and only `html`/`htm` the HTML type. |
| PreviewServer.Target | src/preview_server.rs:72-74 | The mapped path always lies under the output directory. |
| PreviewServer.ResolveFile | src/preview_server.rs:67-86 | A request containing `..` resolves to nothing. Anything resolved exists under the output directory. It is the mapped path itself when that is a file; otherwise it is the mapped path's `index.html`, which `exists()` accepts as a file or a directory. |
| PreviewServer.ResolveCases | src/preview_server.rs:72-85 | Without `..`, the mapped file wins with the type of its extension. Else the directory's `index.html` answers as HTML when it exists, as a file or as a directory. Nothing answers exactly when the mapped path is not a file and its `index.html` does not exist. |
| PreviewServer.TargetInside | src/preview_server.rs:68-74 | A request without `..` maps to a path with no `..` component below the output directory, so it cannot escape it. |
| PreviewServer.ResolveRooted | src/preview_server.rs:76-77 | The request `/a/b` for an existing output file `a/b` resolves to it. |
| PreviewServer.ResolveRootedDir | src/preview_server.rs:78-82 | The request `/a/` for a directory `a` in which `index.html` exists resolves to `a/index.html` as HTML. |
| PreviewServer.IndexDirectoryResolves | src/preview_server.rs:78-82 | `/a/` resolves to `a/index.html` as HTML when `a/index.html` is a directory holding `b.html`, because `exists()` holds for directories. |
| Paths.NoDotDotNoParent | src/preview_server.rs:68-74 | A request text without `..` has no parent-directory component. |
| Paths.ComponentsOfRooted | src/preview_server.rs:72-74 | The components of `/a/b` are the root followed by `a` and `b`. Dropping the first component leaves the path `a/b`. |
| Paths.ComponentsOfRootedDir | src/preview_server.rs:72-74 | Dropping the first component of `/a/b/` leaves `a/b`: a trailing `/` adds no component. |
| BrokenLinks.Files | src/broken_links_checker.rs:44-46 | Every stored key, placed under the output directory, is a file the resolver sees. |
| BrokenLinks.FilesMember | src/broken_links_checker.rs:44-46 | A path under the output directory is a file for the resolver exactly when its key is stored. |
| BrokenLinks.DirMember | src/broken_links_checker.rs:44-46 | A path under the output directory is a directory for the resolver exactly when some stored key lies strictly below its key. |
| BrokenLinks.LinkReports | src/broken_links_checker.rs:26-37 | A page's reports name that page and one of its own links, each of them broken. |
| BrokenLinks.FindBroken | src/broken_links_checker.rs:20-42 | Every reported link is local and does not resolve. |
| BrokenLinks.FindBrokenIsFilter | src/broken_links_checker.rs:20-42 | The reports are exactly the tree's (page, link) pairs in walk order, pages before sub-directories, kept when broken. |
| BrokenLinks.ReportedIff | src/broken_links_checker.rs:26-41 | A pair is reported exactly when it is a link of the tree, is local and resolves to nothing. Remote links are never reported. |
| BrokenLinks.BrokenLinkReported | src/broken_links_checker.rs:30-33 | A local link of a directory's page that does not resolve is reported against that page. |
| BrokenLinks.SubdirReported | src/broken_links_checker.rs:39-41 | What a sub-directory reports, its parent reports too. |
| BrokenLinks.Run | src/broken_links_checker.rs:9-18 | `run` is Ok exactly when nothing is broken. Otherwise it is an error carrying the non-empty list of reports. |
| BrokenLinks.ResolveTopLevel | src/preview_server.rs:72-85 | A link `/name` resolves exactly when `name` is in the output, or `name/index.html` is, or some output file lies below `name/index.html` (a directory by that name). |
| BrokenLinks.LinkToTopLevel | src/broken_links_checker.rs:75-93 | On an output holding one top-level file, a link to `/name` passes exactly when it names that file. Otherwise it is the one report. |
| BrokenLinks.DetectsBrokenLink | src/broken_links_checker.rs:75-93 | A link to `/dont-exist` is reported. |
| BrokenLinks.AcceptsHtmlExtension | src/broken_links_checker.rs:117-141 | A link to `/other.html` passes when `other.html` is in the output. |
| BrokenLinks.NestedLinksResolve | src/broken_links_checker.rs:143-174 | On the nested example's output, both `/nested/` and `/nested/other.html` resolve. |
| BrokenLinks.AcceptsDirectoryWithIndex | src/broken_links_checker.rs:143-174 | A page linking to `/nested/` and `/nested/other.html` passes when the output holds `nested/index.html` and `nested/other.html`. |
| BrokenLinks.ReportsLinkWithoutExtension | src/preview_server.rs:76-85 | A link to `/other` is reported even when `other.html` exists: the resolver adds no extension. |

## Left out

- Disk and network I/O: `DiskBackedSite`, the HTTP server and its threads, `serve.rs`, the livereload server, the file watcher and `site_generator`'s rendering and asset copying. Reading a file is a parameter (`disk` in `Site.CopyFile`). The file tree is given as a value (`DocsFinder.Entry`).
- The Markdown parser, the HTML writer, and the link extraction of `doctave_markdown`. The filter works on a given event stream, and a page's links are a parameter of the loader.
- The YAML decoder (`serde_yaml`). It is a parameter of `Config.Load` and `Frontmatter.Parse`.
- `frontmatter::without` is not modelled. Pages keep their raw text, and the rendered Markdown is not stored in the model's `Document`.
- Concurrency: the `RwLock` of the in-memory site and the atomicity of `DOCUMENT_ID` are not modelled. The id counter is threaded through explicitly.
- `Site::build` and `Site::config` as I/O. `build` is not a call of the model. `config` is answered from the store.
- Panics:
  - `customize`'s `expect("No matching link found")` is modelled as an error result (`NavError`).
  - `frontmatter::parse(..).expect(..)` in `Document::load` is outside the model: the loader's frontmatter function is total.
  - `add_file`'s `strip_prefix(..).unwrap()` is a precondition (the path lies under the output directory).
  - `find_matching_link`'s `strip_prefix(base_path).unwrap()` (`src/navigation.rs:83-86`) becomes a non-match: a link whose path does not start with the base path never matches (`Navigation.Matches`). Every link of a default tree starts with it (`Navigation.DefaultTreeShape`).
  - `file_stem().unwrap()` in `relative_path` and `title` (`src/lib.rs:162`, `:184`) is a precondition: `Documents.RelativePath`, `Documents.Destination` and `Documents.UriPath` require a page with a file stem (`Named`), and `Documents.Title` requires a file stem.
  - `file_name().unwrap()` and `strip_prefix(docs_dir).unwrap()` in `generate_missing_index` (`src/docs_finder.rs:92`, `:95-96`) are preconditions of `DocsFinder.GenerateMissingIndex`: the directory lies under the docs directory and has a name.
  - `strip_prefix(docs_dir).unwrap()` in `walk_dir` (`src/docs_finder.rs:38`) is a precondition of `DocsFinder.Walk` (`Walkable`: the folder lies under the docs directory).
  - `docs[0]`, `get(0).unwrap()` and `parent().unwrap()` in `Directory::path` and `Directory::destination` (`src/lib.rs:72-84`) are preconditions of `Documents.DocsPath` and `Documents.DirDestination`: the directory has a first page, whose path is non-empty (`DocsPath`) or has a file stem (`DirDestination`).
- Text details:
  - Positions count characters, not UTF-8 bytes.
  - `to_lowercase` is ASCII-only.
  - `to_string_lossy` is the identity.
- Documents.Title: covers only the `.md` file-name fallback. The title of a page with another extension is not stated.
- Documents.UriPath: the URI of a renamed page is stated only through `Documents.IndexUri`, and the general base-path join only up to stripping the base.
- Navigation.Customize: states the length of a successful result. Its contents are stated by `Navigation.CustomizeShape` and `Navigation.ExplicitChildren`.
- Navigation.DefaultLinks: `Directory::links` is not defined in `src/lib.rs`. Its behaviour (pages without the index, then one index link per sub-directory, stably sorted by natural title order) is taken from the navigation tests.
- Navigation.BuildFor: the configured navigation and base path are taken as parameters. The accessors `Config::navigation` and `Config::base_path` are not defined in `src/config.rs`.
- Navigation.NaturalOrderExamples: states only the pairs the sorting test relies on, not every case of the natural order.
- DocsFinder.GenerateMissingIndex: the middle part of the index text (the directory shown relative to the project root) is not stated. Only the heading and the page list are.
- Markdown.Parse: the heading counter is an unbounded `nat`. The source's `heading_index` is a `u32` (`src/markdown.rs:25`), whose overflow after 2^32 - 1 headings in one page is not modelled.
- Site.CopyFile: every failed disk read becomes `NotFound(from)`. The source returns the `io::Error` of `fs::read`, which carries an error kind rather than the path.
- PreviewServer.ResolveFile: files and directories share one set of paths, a directory being any proper prefix of a file. A path that is both stored and a prefix of another stored path counts as a file, which a real file system cannot hold.
- The depth-first order of `WalkDir` within one folder is taken to be the order of the given entries.
- The `.html` fallback and fragment stripping that the broken-link tests at `src/broken_links_checker.rs:95-115` and `:219-243` expect are absent from the resolver in `src/preview_server.rs:67-86`. The model does not meet those two tests.

## Findings

| source | as written | input that shows it | evidently intended | confidence | as-written member | corrected member |
|---|---|---|---|---|---|---|
| src/site.rs:44-46 | `copy_file` on `&T` forwards `(to, from)` | copy any readable file to a destination under the output directory that is not on disk, e.g. `assets/style.css` to `project/site/style.css`, through a reference: it reads the missing destination and fails with NotFound, while the direct call stores the bytes | forward `(from, to)` unchanged | not executed | Site.ForwardAsWrittenSwapsCopy | Site.ForwardTransparent |
