/** The project configuration (src/config.rs): where the project root is,
    and the directories derived from it.

    The file system is replaced by parameters: the directories that hold a
    `doctave.yaml`, the text of that file when it exists, and the YAML decoder.
    The navigation rules and the base path are read from the same file. */
module Config {
  import opened Outcomes
  import opened Paths

  /** Which pages a `Dir` navigation rule brings along as children. */
  datatype DirIncludeRule = WildCard | Explicit(rules: seq<NavRule>)

  /** A navigation rule of `doctave.yaml`: a page, or a directory with an
      optional rule for its children. Rule paths start at the docs directory,
      as in `docs/child/three.md`. */
  datatype NavRule = File(path: Path) | Dir(path: Path, children: Option<DirIncludeRule>)

  /** The decoded `doctave.yaml`. */
  datatype DoctaveYaml = DoctaveYaml(title: string, basePath: Option<string>, navigation: Option<seq<NavRule>>)

  datatype Config = Config(yaml: DoctaveYaml, projectRoot: Path, outDir: Path, docsDir: Path)

  datatype ConfigError = MissingFile | Malformed(message: string)

  const YamlName := "doctave.yaml"

  /** `Config::load`: decode `root/doctave.yaml` and derive the output and
      docs directories. `file` is the file's text, None when it cannot be opened. */
  function Load(root: Path, file: Option<string>, decode: string -> Result<DoctaveYaml, string>)
    : (r: Result<Config, ConfigError>)
    ensures file.None? ==> r == Err(MissingFile)
    ensures file.Some? && decode(file.value).Err? ==> r == Err(Malformed(decode(file.value).error))
    ensures r.Ok? <==> file.Some? && decode(file.value).Ok?
    ensures r.Ok? ==> r.value.yaml == decode(file.value).value && r.value.projectRoot == root
    ensures r.Ok? ==> Parent(r.value.outDir) == Some(root) && FileName(r.value.outDir) == Some("site")
    ensures r.Ok? ==> Parent(r.value.docsDir) == Some(root) && FileName(r.value.docsDir) == Some("docs")
  {
    match file
    case None => Err(MissingFile)
    case Some(text) =>
      match decode(text)
      case Err(e) => Err(Malformed(e))
      case Ok(yaml) => Ok(Config(yaml, root, root + ["site"], root + ["docs"]))
  }

  /** The output and docs directories are distinct, and neither lies inside the other. */
  lemma OutAndDocsApart(c: Config, root: Path, file: Option<string>, decode: string -> Result<DoctaveYaml, string>)
    requires Load(root, file, decode) == Ok(c)
    ensures c.outDir != c.docsDir
    ensures !StartsWith(c.outDir, c.docsDir) && !StartsWith(c.docsDir, c.outDir)
  {
    assert c.outDir[|root|] == "site";
    assert c.docsDir[|root|] == "docs";
  }

  function Title(c: Config): string {
    c.yaml.title
  }

  /** The base path every URI is placed under; `/` unless configured. */
  function BasePath(c: Config): string {
    c.yaml.basePath.GetOr("/")
  }

  function Navigation(c: Config): Option<seq<NavRule>> {
    c.yaml.navigation
  }

  /** The nearest directory on the ancestor chain of `dir` (itself included)
      that holds a `doctave.yaml`; the reference for `FindProjectRoot`. */
  function NearestWithYaml(dir: Path, withYaml: set<Path>): (r: Option<Path>)
    decreases |dir|
    ensures r.Some? ==> r.value in withYaml && StartsWith(dir, r.value)
  {
    if dir in withYaml then Some(dir)
    else if |dir| == 0 then None
    else NearestWithYaml(dir[..|dir| - 1], withYaml)
  }

  /** `project_root`: walk up from the current directory until one holds a
      `doctave.yaml`. Paths are absolute here: the empty path is `/`, the one
      directory without a parent. */
  method FindProjectRoot(cwd: Path, withYaml: set<Path>) returns (r: Option<Path>)
    ensures r == NearestWithYaml(cwd, withYaml)
    ensures r.Some? ==> r.value in withYaml && StartsWith(cwd, r.value)
    ensures r.Some? ==> forall k :: |r.value| < k <= |cwd| ==> cwd[..k] !in withYaml
    ensures r.None? <==> forall k :: 0 <= k <= |cwd| ==> cwd[..k] !in withYaml
  {
    var current := cwd;
    while true
      invariant |current| <= |cwd| && current == cwd[..|current|]
      invariant NearestWithYaml(current, withYaml) == NearestWithYaml(cwd, withYaml)
      invariant forall k :: |current| < k <= |cwd| ==> cwd[..k] !in withYaml
      decreases |current|
    {
      if current in withYaml {
        NearestIsDeepest(cwd, withYaml);
        return Some(current);
      }
      match Parent(current)
      case None =>
        NearestIsDeepest(cwd, withYaml);
        return None;
      case Some(parent) =>
        assert parent == cwd[..|parent|];
        current := parent;
    }
  }

  /** The reference search finds the deepest prefix of `dir` in the set, and
      fails exactly when no prefix is in it. */
  lemma {:induction false} NearestIsDeepest(dir: Path, withYaml: set<Path>)
    decreases |dir|
    ensures NearestWithYaml(dir, withYaml).Some? ==>
      var found := NearestWithYaml(dir, withYaml).value;
      forall k :: |found| < k <= |dir| ==> dir[..k] !in withYaml
    ensures NearestWithYaml(dir, withYaml).None? <==> forall k :: 0 <= k <= |dir| ==> dir[..k] !in withYaml
  {
    if dir !in withYaml && |dir| > 0 {
      var up := dir[..|dir| - 1];
      NearestIsDeepest(up, withYaml);
      assert forall k :: 0 <= k <= |up| ==> up[..k] == dir[..k];
      assert dir[..|dir|] == dir;
    } else if dir in withYaml {
      assert dir[..|dir|] == dir;
    }
  }
}
