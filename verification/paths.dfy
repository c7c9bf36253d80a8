/** File-system paths as sequences of components, with the parts of Rust's
    `std::path` the core relies on: `file_name`, `file_stem`, `extension`,
    `parent`, `set_extension("")`, `with_file_name`, `starts_with`,
    `strip_prefix`, `join` and `components`.

    A `Path` holds only normal components: `docs/child/three.md` is
    `["docs", "child", "three.md"]`. Whether a path is absolute is not
    recorded; every path the core compares is either relative to the docs
    directory or rooted at the same project directory. */
module Paths {
  import opened Outcomes
  import Text

  type Path = seq<string>

  /** A normal component: non-empty, no separator, not `.` or `..`. */
  predicate ValidSegment(s: string) {
    |s| > 0 && '/' !in s && s != "." && s != ".."
  }

  predicate ValidPath(p: Path) {
    forall i :: 0 <= i < |p| ==> ValidSegment(p[i])
  }

  /** A path extended by one component is valid exactly when both parts are. */
  lemma ValidSnoc(p: Path, name: string)
    ensures ValidPath(p + [name]) <==> ValidPath(p) && ValidSegment(name)
  {
    var q := p + [name];
    assert q[|p|] == name;
    assert forall i :: 0 <= i < |p| ==> q[i] == p[i];
  }

  /** `Path::file_name`: the last component, if it is a normal one. */
  function FileName(p: Path): (r: Option<string>)
    ensures r.Some? <==> |p| > 0 && p[|p| - 1] != ".."
    ensures r.Some? ==> r.value == p[|p| - 1]
  {
    if |p| == 0 || p[|p| - 1] == ".." then None else Some(p[|p| - 1])
  }

  /** Rust's `rsplit_file_at_dot`: a file name split into stem and extension
      at its last dot; a name whose only dot is its first character (`.bashrc`)
      and the name `..` have no extension. */
  function SplitFileAtDot(name: string): (r: (string, Option<string>))
    ensures r.1.None? ==> r.0 == name
    ensures r.1.Some? ==> name == r.0 + "." + r.1.value && |r.0| > 0 && '.' !in r.1.value
  {
    if name == ".." then (name, None)
    else match Text.LastIndexOf(name, '.')
      case None => (name, None)
      case Some(i) =>
        if i == 0 then (name, None)
        else
          assert name == name[..i] + "." + name[i + 1..];
          (name[..i], Some(name[i + 1..]))
  }

  /** Splitting `stem.ext` at its last dot gives `stem` and `ext` back. */
  lemma SplitFileAtDotRoundTrip(stem: string, ext: string)
    requires |stem| > 0 && '.' !in ext
    requires !(stem == "." && ext == "")
    ensures SplitFileAtDot(stem + "." + ext) == (stem, Some(ext))
  {
    var name := stem + "." + ext;
    assert name[0] == stem[0];
    assert name != ".." by {
      assert |name| == |stem| + 1 + |ext|;
      assert |stem| == 1 ==> stem == [stem[0]];
    }
    assert name[|stem|] == '.';
    var i := Text.LastIndexOf(name, '.');
    assert i.Some?;
    var k := i.value;
    assert forall j :: k < j < |name| ==> name[j] != '.' by {
      forall j | k < j < |name|
        ensures name[j] != '.'
      {
        assert name[j] == name[k + 1..][j - k - 1];
      }
    }
    assert forall j :: |stem| < j < |name| ==> name[j] != '.' by {
      forall j | |stem| < j < |name|
        ensures name[j] != '.'
      {
        assert name[j] == ext[j - |stem| - 1];
      }
    }
    assert k == |stem|;
    assert name[..|stem|] == stem;
    assert name[|stem| + 1..] == ext;
  }

  /** `Path::file_stem`. */
  function FileStem(p: Path): (r: Option<string>)
    ensures r.Some? <==> FileName(p).Some?
  {
    match FileName(p)
    case None => None
    case Some(name) => Some(SplitFileAtDot(name).0)
  }

  /** `Path::extension`. */
  function Extension(p: Path): Option<string> {
    match FileName(p)
    case None => None
    case Some(name) => SplitFileAtDot(name).1
  }

  /** A file stem is never empty when its file name is not. */
  lemma StemNonEmpty(p: Path)
    requires FileName(p).Some? && |FileName(p).value| > 0
    ensures |FileStem(p).value| > 0
  {
  }

  /** `Path::parent`; the empty path has none. */
  function Parent(p: Path): (r: Option<Path>)
    ensures r.Some? <==> |p| > 0
    ensures r.Some? ==> r.value + [p[|p| - 1]] == p
  {
    if |p| == 0 then None else Some(p[..|p| - 1])
  }

  /** `PathBuf::set_extension("")`: the last component is cut back to its stem. */
  function WithoutExtension(p: Path): (r: Path)
    ensures |r| == |p|
    ensures |p| > 0 ==> r[..|p| - 1] == p[..|p| - 1]
    ensures FileStem(p).Some? ==> r[|p| - 1] == FileStem(p).value
    ensures FileStem(p).None? ==> r == p
  {
    match FileStem(p)
    case None => p
    case Some(stem) => p[..|p| - 1] + [stem]
  }

  /** `Path::with_file_name`: replace the file name, or append one when there is none. */
  function WithFileName(p: Path, name: string): (r: Path)
    ensures FileName(p).Some? ==> r == Parent(p).value + [name]
    ensures FileName(p).None? ==> r == p + [name]
    ensures FileName(r) == (if name == ".." then None else Some(name))
  {
    if FileName(p).Some? then p[..|p| - 1] + [name] else p + [name]
  }

  /** `Path::starts_with`: component-wise prefix. */
  predicate StartsWith(p: Path, prefix: Path) {
    |prefix| <= |p| && p[..|prefix|] == prefix
  }

  /** `Path::strip_prefix`, whose `unwrap` the source relies on. */
  function StripPrefix(p: Path, prefix: Path): (r: Path)
    requires StartsWith(p, prefix)
    ensures prefix + r == p
  {
    p[|prefix|..]
  }

  /** `Path::ends_with` with a single component. */
  predicate EndsWith(p: Path, name: string) {
    |p| > 0 && p[|p| - 1] == name
  }

  /** The components `Path::components` yields for a textual path. */
  datatype Component = RootDir | CurDir | ParentDir | Normal(name: string)

  /** `Path::components` of a `/`-separated string: a leading `/` is the root,
      a leading `.` of a relative path is the current directory, empty pieces
      and later `.` pieces are skipped, and `..` is the parent directory. */
  function Components(s: string): (r: seq<Component>)
    ensures forall i :: 0 < i < |r| ==> r[i] != RootDir && r[i] != CurDir
    ensures Normal("..") !in r
  {
    var parts := Text.Split(s, '/');
    if |s| > 0 && s[0] == '/' then [RootDir] + PieceComponents(parts[1..])
    else if parts[0] == "." then [CurDir] + PieceComponents(parts[1..])
    else PieceComponents(parts)
  }

  function PieceComponents(parts: seq<string>): (r: seq<Component>)
    ensures forall i :: 0 <= i < |r| ==> r[i].ParentDir? || r[i].Normal?
    ensures ParentDir in r ==> ".." in parts
    ensures Normal("..") !in r
  {
    if |parts| == 0 then []
    else
      var rest := PieceComponents(parts[1..]);
      if parts[0] == "" || parts[0] == "." then rest
      else if parts[0] == ".." then [ParentDir] + rest
      else [Normal(parts[0])] + rest
  }

  /** The text of a component as `Path::join` writes it. */
  function ComponentText(c: Component): string {
    match c
    case RootDir => "/"
    case CurDir => "."
    case ParentDir => ".."
    case Normal(name) => name
  }

  /** A path after its first component: `components.next(); components.as_path()`. */
  function AfterFirstComponent(s: string): Path {
    var cs := Components(s);
    if |cs| == 0 then [] else Texts(cs[1..])
  }

  function Texts(cs: seq<Component>): (r: Path)
    ensures |r| == |cs|
    ensures forall i :: 0 <= i < |cs| ==> r[i] == ComponentText(cs[i])
  {
    seq(|cs|, i requires 0 <= i < |cs| => ComponentText(cs[i]))
  }

  /** A string without `..` has no parent-directory component. */
  lemma NoDotDotNoParent(s: string)
    requires !Text.Contains(s, "..")
    ensures ParentDir !in Components(s)
  {
    var parts := Text.Split(s, '/');
    Text.JoinSplit(s, '/');
    forall k | 0 <= k < |parts|
      ensures parts[k] != ".."
    {
      Text.JoinContainsPiece(parts, '/', k);
    }
    assert ".." !in parts[1..];
  }

  /** The text `/a/b/c` splits at `/` into an empty piece and the pieces. */
  lemma SplitRooted(q: seq<string>)
    requires |q| > 0
    requires forall i :: 0 <= i < |q| ==> '/' !in q[i]
    ensures Text.Split("/" + Text.Join(q, '/'), '/') == [""] + q
  {
    assert "/" + Text.Join(q, '/') == [] + ['/'] + Text.Join(q, '/');
    Text.SplitPrefix([], Text.Join(q, '/'), '/');
    Text.SplitJoin(q, '/');
  }

  /** The components of a path, as `Normal` components. */
  function Normals(p: Path): (r: seq<Component>)
    ensures |r| == |p|
    ensures forall i :: 0 <= i < |p| ==> r[i] == Normal(p[i])
  {
    seq(|p|, i requires 0 <= i < |p| => Normal(p[i]))
  }

  /** The `/`-joined text of a path with a leading `/` parses back into the path. */
  lemma ComponentsOfRooted(p: Path)
    requires |p| > 0 && ValidPath(p)
    ensures Components("/" + Text.Join(p, '/')) == [RootDir] + Normals(p)
    ensures AfterFirstComponent("/" + Text.Join(p, '/')) == p
  {
    var s := "/" + Text.Join(p, '/');
    SplitRooted(p);
    RootedComponents(s, p);
    NormalPieces(p);
    AfterRoot(s, p);
  }

  /** The same text with a trailing `/` parses to the same path. */
  lemma ComponentsOfRootedDir(p: Path)
    requires |p| > 0 && ValidPath(p)
    ensures AfterFirstComponent("/" + Text.Join(p, '/') + "/") == p
  {
    var s := "/" + Text.Join(p, '/') + "/";
    var q := p + [""];
    SplitRootedDir(p);
    RootedComponents(s, q);
    PieceComponentsDropEmpty(p);
    AfterRoot(s, p);
  }

  /** The text `/a/b/` splits at `/` into an empty piece, the pieces and an empty piece. */
  lemma SplitRootedDir(p: Path)
    requires |p| > 0 && ValidPath(p)
    ensures Text.Split("/" + Text.Join(p, '/') + "/", '/') == [""] + (p + [""])
  {
    var q := p + [""];
    JoinAppendEmpty(p);
    assert "/" + Text.Join(p, '/') + "/" == "/" + Text.Join(q, '/');
    forall i | 0 <= i < |q|
      ensures '/' !in q[i]
    {
      if i < |p| {
        assert q[i] == p[i];
      }
    }
    SplitRooted(q);
  }

  /** A string whose pieces are an empty root piece and `q` has `q`'s components after the root. */
  lemma RootedComponents(s: string, q: seq<string>)
    requires Text.Split(s, '/') == [""] + q
    requires |s| > 0 && s[0] == '/'
    ensures Components(s) == [RootDir] + PieceComponents(q)
  {
    assert Text.Split(s, '/')[1..] == q;
  }

  lemma AfterRoot(s: string, p: Path)
    requires ValidPath(p)
    requires Components(s) == [RootDir] + PieceComponents(p)
    ensures AfterFirstComponent(s) == p
  {
    NormalPieces(p);
    assert Components(s)[1..] == Normals(p);
    var r := Texts(Normals(p));
    assert forall i :: 0 <= i < |p| ==> r[i] == p[i];
  }

  lemma {:induction false} JoinAppendEmpty(p: Path)
    requires |p| > 0
    ensures Text.Join(p + [""], '/') == Text.Join(p, '/') + "/"
  {
    if |p| == 1 {
      assert Text.Join(p + [""], '/') == p[0] + "/" + Text.Join([""], '/');
    } else {
      assert (p + [""])[1..] == p[1..] + [""];
      JoinAppendEmpty(p[1..]);
    }
  }

  lemma {:induction false} PieceComponentsDropEmpty(p: Path)
    ensures PieceComponents(p + [""]) == PieceComponents(p)
  {
    if |p| == 0 {
      assert PieceComponents([""]) == PieceComponents([]);
    } else {
      assert (p + [""])[1..] == p[1..] + [""];
      PieceComponentsDropEmpty(p[1..]);
    }
  }

  /** Valid segments are kept one for one as normal components. */
  lemma {:induction false} NormalPieces(p: Path)
    requires ValidPath(p)
    ensures PieceComponents(p) == Normals(p)
  {
    if |p| > 0 {
      NormalPieces(p[1..]);
    }
  }
}
