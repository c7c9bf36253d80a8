/** `Link::path_to_uri` and `Link::path_to_uri_with_extension`
    (src/navigation.rs), and the joining of a URI under the site's base path.

    A URI is the path's components joined with `/`; `path_to_uri` first drops
    the extension, and both collapse an `index` page onto its directory. */
module Uris {
  import opened Outcomes
  import Text
  import opened Paths

  /** A path whose page is named `index` stands for its directory. */
  function CollapseIndex(p: Path): (r: Path)
    ensures FileName(p) == Some("index") ==> r + ["index"] == p
    ensures FileName(p) != Some("index") ==> r == p
  {
    if FileName(p) == Some("index") then Parent(p).GetOr([]) else p
  }

  /** The components joined with forward slashes, without leading slashes. */
  function JoinUri(p: Path): string {
    Text.TrimStart(Text.Join(p, '/'), '/')
  }

  /** `Link::path_to_uri`. */
  function PathToUri(p: Path): string {
    JoinUri(CollapseIndex(WithoutExtension(p)))
  }

  /** `Link::path_to_uri_with_extension`. */
  function PathToUriWithExtension(p: Path): string {
    JoinUri(CollapseIndex(p))
  }

  /** Neither URI ever starts with `/`. */
  lemma NoLeadingSlash(p: Path)
    ensures |PathToUri(p)| > 0 ==> PathToUri(p)[0] != '/'
    ensures |PathToUriWithExtension(p)| > 0 ==> PathToUriWithExtension(p)[0] != '/'
  {
    TrimmedNoSlash(Text.Join(CollapseIndex(WithoutExtension(p)), '/'));
    TrimmedNoSlash(Text.Join(CollapseIndex(p), '/'));
  }

  lemma TrimmedNoSlash(s: string)
    ensures |Text.TrimStart(s, '/')| > 0 ==> Text.TrimStart(s, '/')[0] != '/'
  {
    var n := Text.LeadingCount(s, '/');
    if n < |s| {
      assert Text.TrimStart(s, '/')[0] == s[n];
    }
  }

  /** `base.join(uri)` for the base path of the site: one `/` between them. */
  function UnderBase(base: string, uri: string): (r: string)
    ensures Text.StartsWith(r, base)
  {
    if |base| == 0 then uri
    else if base[|base| - 1] == '/' then base + uri
    else base + "/" + uri
  }

  /** The link path with the base path removed as text (`str::strip_prefix`,
      so `/example` loses the base `/ex` too) and leading slashes trimmed, as
      `find_matching_link` compares it; None when the text does not start
      with the base path (where the source's `unwrap` fails). */
  function StripBase(path: string, base: string): (r: Option<string>)
    ensures r.Some? <==> Text.StartsWith(path, base)
  {
    if |base| <= |path| && path[..|base|] == base
    then Some(Text.TrimStart(path[|base|..], '/'))
    else None
  }

  /** The base path is removed as text: whatever follows it, leading slashes
      trimmed, is what remains, even when the base ends inside a segment. */
  lemma StripBaseText(base: string, rest: string)
    ensures StripBase(base + rest, base) == Some(Text.TrimStart(rest, '/'))
  {
    assert (base + rest)[..|base|] == base;
    assert (base + rest)[|base|..] == rest;
  }

  /** With the base `/ex`, the link path `/example` is stripped to `ample`. */
  lemma BaseEndsInsideSegment(base: string, path: string)
    requires base == "/ex" && path == "/example"
    ensures StripBase(path, base) == Some("ample")
  {
    assert path == base + "ample";
    StripBaseText(base, "ample");
    assert Text.LeadingCount("ample", '/') == 0;
  }

  /** Removing the base path from a joined URI gives the URI back. */
  lemma StripUnderBase(base: string, uri: string)
    requires |uri| > 0 ==> uri[0] != '/'
    ensures StripBase(UnderBase(base, uri), base) == Some(uri)
  {
    var p := UnderBase(base, uri);
    assert p[..|base|] == base;
    assert Text.LeadingCount(uri, '/') == 0;
    if |base| > 0 && base[|base| - 1] != '/' {
      assert p[|base|..] == "/" + uri;
      assert ("/" + uri)[1..] == uri;
      assert Text.LeadingCount("/" + uri, '/') == 1;
    } else {
      assert p[|base|..] == uri;
    }
  }

  /** Components that are non-empty and hold no separator; every valid path
      is one, and so is a valid path with its extension dropped. */
  predicate SlashFree(p: Path) {
    forall i :: 0 <= i < |p| ==> |p[i]| > 0 && '/' !in p[i]
  }

  /** A path of slash-free components joins without a leading slash to trim. */
  lemma JoinUriValid(p: Path)
    requires SlashFree(p)
    ensures JoinUri(p) == Text.Join(p, '/')
  {
    if |p| > 0 {
      JoinHead(p);
    }
  }

  lemma {:induction false} JoinHead(p: Path)
    requires |p| > 0 && |p[0]| > 0
    ensures |Text.Join(p, '/')| > 0 && Text.Join(p, '/')[0] == p[0][0]
  {
  }

  /** Dropping the extension keeps the components non-empty and slash-free. */
  lemma WithoutExtensionSlashFree(p: Path)
    requires ValidPath(p)
    ensures SlashFree(WithoutExtension(p))
  {
    var t := WithoutExtension(p);
    forall i | 0 <= i < |t|
      ensures |t[i]| > 0 && '/' !in t[i]
    {
      if i < |p| - 1 {
        assert t[i] == t[..|p| - 1][i] == p[..|p| - 1][i];
      } else {
        var name := p[|p| - 1];
        var split := SplitFileAtDot(name);
        if split.1.Some? {
          assert name == split.0 + ("." + split.1.value);
          assert forall k :: 0 <= k < |split.0| ==> split.0[k] == name[k];
        }
      }
    }
  }

  /** The URI of a path not named `index`: the components, extension dropped, joined by `/`. */
  lemma UriDropsExtension(p: Path)
    requires ValidPath(p)
    requires FileStem(p) != Some("index")
    ensures PathToUri(p) == Text.Join(WithoutExtension(p), '/')
  {
    var t := WithoutExtension(p);
    WithoutExtensionSlashFree(p);
    assert FileName(t) != Some("index");
    JoinUriValid(t);
  }

  /** The URI of a page whose stem is `index` is the URI of its directory;
      a bare `index` gives the empty URI. */
  lemma UriCollapsesIndex(dir: Path, name: string)
    requires ValidPath(dir)
    requires FileStem([name]) == Some("index")
    ensures PathToUri(dir + [name]) == Text.Join(dir, '/')
    ensures dir == [] ==> PathToUri(dir + [name]) == ""
  {
    var p := dir + [name];
    assert FileStem(p) == FileStem([name]);
    var t := WithoutExtension(p);
    assert t == dir + ["index"];
    assert CollapseIndex(t) == dir;
    JoinUriValid(dir);
  }

  /** Keeping the extension, only a last component of exactly `index` collapses. */
  lemma UriWithExtension(p: Path)
    requires ValidPath(p)
    ensures FileName(p) == Some("index") ==> PathToUriWithExtension(p) == Text.Join(p[..|p| - 1], '/')
    ensures FileName(p) != Some("index") ==> PathToUriWithExtension(p) == Text.Join(p, '/')
  {
    if FileName(p) == Some("index") {
      var q := p[..|p| - 1];
      assert ValidPath(q) by {
        forall i | 0 <= i < |q|
          ensures ValidSegment(q[i])
        {
          assert q[i] == p[i];
        }
      }
      JoinUriValid(q);
    } else {
      JoinUriValid(p);
    }
  }

  /** Splitting the URI at `/` gives back the components it was made of. */
  lemma UriSegments(p: Path)
    requires ValidPath(p) && |p| > 0
    requires FileStem(p) != Some("index")
    ensures Text.Split(PathToUri(p), '/') == WithoutExtension(p)
  {
    UriDropsExtension(p);
    WithoutExtensionSlashFree(p);
    Text.SplitJoin(WithoutExtension(p), '/');
  }

  /** A page `x.md` and the index `x/README.md`, served as `x.html` and
      `x/index.html`, share a URI: `path_to_uri` is not injective. */
  lemma UriCollision(dir: Path, stem: string)
    requires ValidPath(dir + [stem]) && stem != "index"
    ensures PathToUri(dir + [stem + ".html"]) == PathToUri(dir + [stem, "index.html"])
            == Text.Join(dir + [stem], '/')
  {
    Paths.ValidSnoc(dir, stem);
    HtmlPage(dir, stem);
    UriDropsExtension(dir + [stem + ".html"]);
    IndexHtmlStem();
    assert dir + [stem, "index.html"] == (dir + [stem]) + ["index.html"];
    UriCollapsesIndex(dir + [stem], "index.html");
  }

  /** `stem.html` under a valid directory is a valid path whose extension drops back to `stem`. */
  lemma HtmlPage(dir: Path, stem: string)
    requires ValidPath(dir) && |stem| > 0 && '/' !in stem
    ensures ValidPath(dir + [stem + ".html"])
    ensures FileStem(dir + [stem + ".html"]) == Some(stem)
    ensures WithoutExtension(dir + [stem + ".html"]) == dir + [stem]
  {
    var page := dir + [stem + ".html"];
    Paths.SplitFileAtDotRoundTrip(stem, "html");
    assert stem + ".html" == stem + "." + "html";
    assert page[..|page| - 1] == dir;
    forall i | 0 <= i < |page|
      ensures ValidSegment(page[i])
    {
      if i < |dir| {
        assert page[i] == dir[i];
      } else {
        assert page[i] == stem + ".html";
      }
    }
  }

  lemma IndexHtmlStem()
    ensures FileStem(["index.html"]) == Some("index")
  {
    assert "index" + "." + "html" == "index.html";
    Paths.SplitFileAtDotRoundTrip("index", "html");
  }
}
