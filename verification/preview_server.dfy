/** Request resolution of the preview server (src/preview_server.rs):
    which output file answers a request path, and with which content type.

    The file system is replaced by the set of output files, each a path under
    the output directory; a directory is any proper prefix of a file. */
module PreviewServer {
  import opened Outcomes
  import Text
  import opened Paths

  const HtmlType := "text/html; charset=utf8"

  /** `content_type_for`: the MIME type of a file extension, from a fixed table. */
  function ContentTypeFor(extension: Option<string>): (r: Option<string>)
    ensures extension.None? ==> r.None?
    ensures extension == Some("html") || extension == Some("htm") ==> r == Some(HtmlType)
  {
    match extension
    case None => None
    case Some(e) =>
      if e == "txt" then Some("text/plain; charset=utf8")
      else if e == "html" || e == "htm" then Some(HtmlType)
      else if e == "css" then Some("text/css")
      else if e == "js" then Some("text/javascript")
      else if e == "pdf" then Some("application/pdf")
      else if e == "zip" then Some("application/zip")
      else if e == "jpg" || e == "jpeg" then Some("image/jpeg")
      else if e == "png" then Some("image/png")
      else None
  }

  /** The extensions the table knows. */
  const KnownExtensions: set<string> := {"txt", "html", "htm", "css", "js", "pdf", "zip", "jpg", "jpeg", "png"}

  /** The table gives a type exactly for the known extensions, and only the
      image and HTML types are shared between two extensions. */
  lemma ContentTypeKnown(e: string)
    ensures ContentTypeFor(Some(e)).Some? <==> e in KnownExtensions
    ensures ContentTypeFor(Some(e)) == Some("image/jpeg") <==> e == "jpg" || e == "jpeg"
    ensures ContentTypeFor(Some(e)) == Some(HtmlType) <==> e == "html" || e == "htm"
  {
  }

  /** "is a directory" over the file set: some file lies strictly below the path. */
  predicate IsDir(path: Path, files: set<Path>) {
    exists f :: f in files && StartsWith(f, path) && |f| > |path|
  }

  /** The path a request maps to: its first component dropped and the rest
      placed under the output directory. */
  function Target(request: string, outDir: Path): (r: Path)
    ensures StartsWith(r, outDir)
  {
    outDir + AfterFirstComponent(request)
  }

  /** `Path::exists` over the file set: a file, or a directory. */
  predicate Exists(path: Path, files: set<Path>) {
    path in files || IsDir(path, files)
  }

  /** `resolve_file`: None for any request containing `..`; else the mapped
      path when it is a file, else its `index.html` when the mapped path is a
      directory in which `index.html` exists (as a file or a directory), else
      None. */
  function ResolveFile(request: string, outDir: Path, files: set<Path>): (r: Option<(Path, Option<string>)>)
    ensures Text.Contains(request, "..") ==> r.None?
    ensures r.Some? ==> Exists(r.value.0, files) && StartsWith(r.value.0, outDir)
    ensures r.Some? && r.value.0 !in files ==> r.value.0 == Target(request, outDir) + ["index.html"]
  {
    if Text.Contains(request, "..") then None
    else
      var path := Target(request, outDir);
      if path in files then Some((path, ContentTypeFor(Extension(path))))
      else if IsDir(path, files) && Exists(path + ["index.html"], files) then
        var index := path + ["index.html"];
        assert index[..|outDir|] == path[..|outDir|];
        Some((index, ContentTypeFor(Extension(index))))
      else None
  }

  /** `index.html` has the extension `html`. */
  lemma IndexHtmlExtension(path: Path)
    ensures Extension(path + ["index.html"]) == Some("html")
  {
    assert "index" + "." + "html" == "index.html";
    Paths.SplitFileAtDotRoundTrip("index", "html");
  }

  /** Anything below a path, a file or a directory, makes the path a directory. */
  lemma ChildMakesDir(path: Path, name: string, files: set<Path>)
    requires Exists(path + [name], files)
    ensures IsDir(path, files)
  {
    if path + [name] in files {
      assert (path + [name])[..|path|] == path;
    } else {
      var f :| f in files && StartsWith(f, path + [name]) && |f| > |path + [name]|;
      assert f[..|path|] == (path + [name])[..|path|] == path;
    }
  }

  /** The three outcomes of a request without `..`: the exact file with the
      type of its extension, else the directory's `index.html` as HTML when it
      exists, else nothing. */
  lemma ResolveCases(request: string, outDir: Path, files: set<Path>)
    requires !Text.Contains(request, "..")
    ensures Target(request, outDir) in files ==>
      ResolveFile(request, outDir, files)
        == Some((Target(request, outDir), ContentTypeFor(Extension(Target(request, outDir)))))
    ensures Target(request, outDir) !in files && Exists(Target(request, outDir) + ["index.html"], files) ==>
      ResolveFile(request, outDir, files) == Some((Target(request, outDir) + ["index.html"], Some(HtmlType)))
    ensures ResolveFile(request, outDir, files).None? <==>
      Target(request, outDir) !in files && !Exists(Target(request, outDir) + ["index.html"], files)
  {
    var path := Target(request, outDir);
    IndexHtmlExtension(path);
    if Exists(path + ["index.html"], files) {
      ChildMakesDir(path, "index.html", files);
    }
  }

  /** Components after the first are never `..` once the request has no `..`,
      so the mapped path stays inside the output directory: no request
      escapes it. */
  lemma TargetInside(request: string, outDir: Path)
    requires !Text.Contains(request, "..")
    ensures forall i :: |outDir| <= i < |Target(request, outDir)| ==> Target(request, outDir)[i] != ".."
  {
    NoDotDotNoParent(request);
    var cs := Components(request);
    var rest := AfterFirstComponent(request);
    var t := Target(request, outDir);
    assert t == outDir + rest;
    forall i | |outDir| <= i < |t|
      ensures t[i] != ".."
    {
      var c := cs[1..][i - |outDir|];
      assert c in cs;
      assert t[i] == rest[i - |outDir|] == ComponentText(c);
    }
  }

  /** Path components none of which holds `..` anywhere in its text. */
  predicate NoDotDots(p: Path) {
    forall i :: 0 <= i < |p| ==> !Text.Contains(p[i], "..")
  }

  /** The request `/a/b` for a page `a/b` of the output resolves to that
      file, when no component holds `..`. */
  lemma ResolveRooted(p: Path, outDir: Path, files: set<Path>)
    requires |p| > 0 && ValidPath(p) && NoDotDots(p)
    requires outDir + p in files
    ensures ResolveFile("/" + Text.Join(p, '/'), outDir, files).Some?
    ensures ResolveFile("/" + Text.Join(p, '/'), outDir, files).value.0 == outDir + p
  {
    ComponentsOfRooted(p);
    RootedText(p);
  }

  /** The request `/a/` for a directory `a` in which `index.html` exists
      resolves to `a/index.html`. */
  lemma ResolveRootedDir(p: Path, outDir: Path, files: set<Path>)
    requires |p| > 0 && ValidPath(p) && NoDotDots(p)
    requires outDir + p !in files && Exists(outDir + p + ["index.html"], files)
    ensures ResolveFile("/" + Text.Join(p, '/') + "/", outDir, files) == Some((outDir + p + ["index.html"], Some(HtmlType)))
  {
    var request := "/" + Text.Join(p, '/') + "/";
    ComponentsOfRootedDir(p);
    RootedText(p);
    ResolveCases(request, outDir, files);
  }

  /** `exists()` holds for a directory too: `/a/` resolves to `a/index.html`
      when `index.html` is itself a directory holding `b.html`. */
  lemma IndexDirectoryResolves(outDir: Path)
    ensures
      var files := {outDir + ["a", "index.html", "b.html"]};
      ResolveFile("/a/", outDir, files) == Some((outDir + ["a", "index.html"], Some(HtmlType)))
  {
    var files := {outDir + ["a", "index.html", "b.html"]};
    var f := outDir + ["a", "index.html", "b.html"];
    assert outDir + ["a"] + ["index.html"] == outDir + ["a", "index.html"];
    assert f[..|outDir| + 2] == outDir + ["a", "index.html"];
    assert IsDir(outDir + ["a", "index.html"], files);
    assert outDir + ["a"] !in files by {
      assert |f| != |outDir + ["a"]|;
    }
    assert "/" + Text.Join(["a"], '/') + "/" == "/a/";
    NoAdjacentDots("a");
    ResolveRootedDir(["a"], outDir, files);
  }

  /** The empty piece holds no `..`. */
  lemma EmptyNoDotDot()
    ensures !Text.Contains("", "..")
  {
  }

  /** A text with no two adjacent dots holds no `..`. */
  lemma NoAdjacentDots(s: string)
    requires forall i :: 0 <= i < |s| - 1 ==> s[i] != '.' || s[i + 1] != '.'
    ensures !Text.Contains(s, "..")
  {
    forall k: nat | k <= |s|
      ensures !Text.OccursAt(s, "..", k)
    {
      if k + 2 <= |s| {
        assert s[k..k + 2] == [s[k], s[k + 1]];
      }
    }
  }

  /** Components without `..` joined by `/` hold no `..`. */
  lemma JoinNoDotDot(parts: Path)
    requires |parts| > 0 && NoDotDots(parts)
    ensures !Text.Contains(Text.Join(parts, '/'), "..")
  {
    Text.NotInJoin(parts, '/', "..");
  }

  /** `[""] + p`, the pieces of `/a/b`, hold no `..` when `p`'s components do not. */
  lemma RootedPieces(p: Path)
    requires |p| > 0 && NoDotDots(p)
    ensures NoDotDots([""] + p)
    ensures Text.Join([""] + p, '/') == "/" + Text.Join(p, '/')
  {
    EmptyNoDotDot();
    var q := [""] + p;
    assert q[1..] == p;
    forall i | 0 <= i < |q|
      ensures !Text.Contains(q[i], "..")
    {
      if i > 0 {
        assert q[i] == p[i - 1];
      }
    }
  }

  /** The text `/a/b`, and `/a/b/`, of components without `..` has no `..`. */
  lemma RootedText(p: Path)
    requires |p| > 0 && NoDotDots(p)
    ensures !Text.Contains("/" + Text.Join(p, '/'), "..")
    ensures !Text.Contains("/" + Text.Join(p, '/') + "/", "..")
  {
    RootedPieces(p);
    var q := [""] + p;
    var s := Text.Join(q, '/');
    JoinNoDotDot(q);
    TrailingPiece(q);
    assert s == "/" + Text.Join(p, '/');
    assert !Text.Contains(s, "..") && !Text.Contains(s + "/", "..");
  }

  /** Appending an empty piece adds a trailing `/` and no `..`. */
  lemma TrailingPiece(q: Path)
    requires |q| > 0 && NoDotDots(q)
    ensures !Text.Contains(Text.Join(q, '/') + "/", "..")
  {
    EmptyNoDotDot();
    var d := q + [""];
    JoinAppendEmpty(q);
    forall i | 0 <= i < |d|
      ensures !Text.Contains(d[i], "..")
    {
      if i < |q| {
        assert d[i] == q[i];
      }
    }
    JoinNoDotDot(d);
  }
}
