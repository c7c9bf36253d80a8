/** The in-memory site store (src/site.rs): the output files of a build,
    kept in a map from paths relative to the output directory to their bytes.

    The `Site` trait's operations are modelled as calls on an immutable store
    value; each call returns the new store and its answer. Reading a file from
    disk (`fs::read` in `copy_file`) is a parameter. */
module Site {
  import opened Outcomes
  import opened Paths
  import Config

  type Bytes = seq<bv8>

  /** How the site is built: with or without the development assets. */
  datatype BuildMode = Dev | Release

  /** `impl Display for BuildMode`. */
  function BuildModeName(m: BuildMode): (r: string)
    ensures |r| > 0
    ensures r == "dev" <==> m == Dev
    ensures r == "release" <==> m == Release
  {
    match m
    case Dev => "dev"
    case Release => "release"
  }

  /** The two modes display differently, so the name identifies the mode. */
  lemma BuildModeNameInjective(a: BuildMode, b: BuildMode)
    requires BuildModeName(a) == BuildModeName(b)
    ensures a == b
  {
  }

  /** `InMemorySite`: the configuration and the file contents, keyed by
      the path with the output directory removed. */
  datatype InMemorySite = InMemorySite(config: Config.Config, contents: map<Path, Bytes>)

  /** `InMemorySite::new`: an empty store. */
  function NewSite(config: Config.Config): (r: InMemorySite)
    ensures r.config == config && forall p :: !HasFile(r, p)
  {
    InMemorySite(config, map[])
  }

  /** An error of `std::io`: here only the failure to read a file from disk. */
  datatype IoError = NotFound(path: Path)

  /** The key `add_file` stores `path` under: the path without the output
      directory. The source unwraps `strip_prefix`, so a path outside the
      output directory panics; callers must not pass one. */
  function Key(site: InMemorySite, path: Path): (r: Path)
    requires StartsWith(path, site.config.outDir)
    ensures site.config.outDir + r == path
  {
    StripPrefix(path, site.config.outDir)
  }

  /** `add_file`: store the content under the path's key, replacing any
      earlier content. */
  function AddFile(site: InMemorySite, path: Path, content: Bytes): (r: InMemorySite)
    requires StartsWith(path, site.config.outDir)
    ensures r.config == site.config
    ensures ReadPath(r, Key(site, path)) == Some(content)
    ensures forall k :: k != Key(site, path) ==> ReadPath(r, k) == ReadPath(site, k)
  {
    site.(contents := site.contents[Key(site, path) := content])
  }

  /** `read_path`: the content stored under exactly this key. */
  function ReadPath(site: InMemorySite, path: Path): (r: Option<Bytes>)
    ensures r.Some? ==> path in site.contents && r.value == site.contents[path]
  {
    if path in site.contents then Some(site.contents[path]) else None
  }

  /** `has_file`. */
  predicate HasFile(site: InMemorySite, path: Path) {
    path in site.contents
  }

  /** `reset`: drop every file, keeping the configuration. */
  function Reset(site: InMemorySite): (r: InMemorySite)
    ensures r.config == site.config
    ensures forall p :: ReadPath(r, p).None?
  {
    site.(contents := map[])
  }

  /** `copy_file`: read `from` from disk and add it at `to`; a failed read is
      the error. `disk` gives the bytes of a readable file. */
  function CopyFile(site: InMemorySite, from: Path, to: Path, disk: Path -> Option<Bytes>)
    : (r: Result<InMemorySite, IoError>)
    requires disk(from).Some? ==> StartsWith(to, site.config.outDir)
    ensures r.Err? <==> disk(from).None?
    ensures r.Err? ==> r.error == NotFound(from)
    ensures r.Ok? ==> ReadPath(r.value, Key(site, to)) == disk(from)
  {
    match disk(from)
    case None => Err(NotFound(from))
    case Some(content) => Ok(AddFile(site, to, content))
  }

  /** The file just added reads back, and the store then has it. */
  lemma AddThenRead(site: InMemorySite, path: Path, content: Bytes)
    requires StartsWith(path, site.config.outDir)
    ensures ReadPath(AddFile(site, path, content), StripPrefix(path, site.config.outDir)) == Some(content)
    ensures HasFile(AddFile(site, path, content), StripPrefix(path, site.config.outDir))
  {
  }

  /** Adding a file leaves every other key as it was: the files present
      after the call are those before it plus the new key. */
  lemma AddFrame(site: InMemorySite, path: Path, content: Bytes)
    requires StartsWith(path, site.config.outDir)
    ensures forall k :: HasFile(AddFile(site, path, content), k) <==> HasFile(site, k) || k == Key(site, path)
  {
  }

  /** The last write wins: a second add at the same path replaces the first. */
  lemma AddOverwrites(site: InMemorySite, path: Path, first: Bytes, second: Bytes)
    requires StartsWith(path, site.config.outDir)
    ensures AddFile(AddFile(site, path, first), path, second) == AddFile(site, path, second)
  {
  }

  /** Adds at different keys commute. */
  lemma AddCommutes(site: InMemorySite, p: Path, q: Path, a: Bytes, b: Bytes)
    requires StartsWith(p, site.config.outDir) && StartsWith(q, site.config.outDir)
    requires Key(site, p) != Key(site, q)
    ensures AddFile(AddFile(site, p, a), q, b) == AddFile(AddFile(site, q, b), p, a)
  {
  }

  /** `has_file` holds exactly when `read_path` finds content. */
  lemma HasIffRead(site: InMemorySite, path: Path)
    ensures HasFile(site, path) <==> ReadPath(site, path).Some?
  {
  }

  /** After `reset` no file is present, and adding files starts from empty. */
  lemma ResetEmpties(site: InMemorySite, path: Path, content: Bytes)
    requires StartsWith(path, site.config.outDir)
    ensures forall p :: !HasFile(Reset(site), p)
    ensures Reset(site) == NewSite(site.config)
    ensures AddFile(Reset(site), path, content).contents == map[Key(site, path) := content]
  {
  }

  /** `copy_file(from, to)` is `add_file(to, bytes of from)` when the read succeeds. */
  lemma CopyIsAdd(site: InMemorySite, from: Path, to: Path, disk: Path -> Option<Bytes>)
    requires disk(from).Some? && StartsWith(to, site.config.outDir)
    ensures CopyFile(site, from, to, disk) == Ok(AddFile(site, to, disk(from).value))
  {
  }

  // ---------------------------------------------------------------------
  // The `Site` trait as calls, and the `impl<T: Site> Site for &T` forwarding
  // ---------------------------------------------------------------------

  /** A call of the `Site` trait, with its arguments; `build` is not modelled. */
  datatype Call =
    | GetConfig
    | Add(path: Path, content: Bytes)
    | Copy(from: Path, to: Path)
    | Read(path: Path)
    | Has(path: Path)
    | ResetAll

  /** What a call answers besides the new store. */
  datatype Answer = ConfigIs(config: Config.Config) | Done | Content(bytes: Option<Bytes>) | Flag(b: bool)

  /** The calls whose preconditions hold: `add_file` and a successful
      `copy_file` need a destination under the output directory. */
  predicate Allowed(site: InMemorySite, call: Call, disk: Path -> Option<Bytes>) {
    match call
    case Add(path, _) => StartsWith(path, site.config.outDir)
    case Copy(from, to) => disk(from).Some? ==> StartsWith(to, site.config.outDir)
    case _ => true
  }

  /** One call on the in-memory store: the new store and the answer, or the
      I/O error. Only `add_file`, a successful `copy_file` and `reset`
      change the store. */
  function Apply(site: InMemorySite, call: Call, disk: Path -> Option<Bytes>)
    : (r: Result<(InMemorySite, Answer), IoError>)
    requires Allowed(site, call, disk)
    ensures r.Err? ==> call.Copy? && disk(call.from).None?
    ensures r.Ok? ==> r.value.0.config == site.config
    ensures r.Ok? && !call.Add? && !call.Copy? && !call.ResetAll? ==> r.value.0 == site
  {
    match call
    case GetConfig => Ok((site, ConfigIs(site.config)))
    case Add(path, content) => Ok((AddFile(site, path, content), Done))
    case Copy(from, to) =>
      (match CopyFile(site, from, to, disk)
       case Err(e) => Err(e)
       case Ok(s) => Ok((s, Done)))
    case Read(path) => Ok((site, Content(ReadPath(site, path))))
    case Has(path) => Ok((site, Flag(HasFile(site, path))))
    case ResetAll => Ok((Reset(site), Done))
  }

  /** The call the `&T` impl makes on the store it points to, as written:
      every call passes through unchanged except `copy_file`, whose two
      paths change places. */
  function ForwardAsWritten(call: Call): (r: Call)
    ensures r.Copy? <==> call.Copy?
    ensures call.Copy? ==> r.from == call.to && r.to == call.from
  {
    match call
    case Copy(from, to) => Copy(to, from)
    case _ => call
  }

  /** The forwarding as intended: every call passes through unchanged. */
  function Forward(call: Call): Call {
    call
  }

  /** Through the reference every call does what it does on the store; in
      particular a copy from a readable file stores its bytes at the
      destination's key. */
  lemma ForwardTransparent(site: InMemorySite, call: Call, disk: Path -> Option<Bytes>)
    requires Allowed(site, call, disk)
    ensures Allowed(site, Forward(call), disk)
    ensures Apply(site, Forward(call), disk) == Apply(site, call, disk)
    ensures call.Copy? && disk(call.from).Some? ==>
      && Apply(site, Forward(call), disk).Ok?
      && ReadPath(Apply(site, Forward(call), disk).value.0, Key(site, call.to)) == disk(call.from)
  {
  }

  /** As written, every call but `copy_file` still passes through unchanged. */
  lemma ForwardAsWrittenOthers(site: InMemorySite, call: Call, disk: Path -> Option<Bytes>)
    requires Allowed(site, call, disk) && !call.Copy?
    ensures Allowed(site, ForwardAsWritten(call), disk)
    ensures Apply(site, ForwardAsWritten(call), disk) == Apply(site, call, disk)
  {
  }

  /** As written, copying a readable file to a destination under the output
      directory that does not exist on disk yet fails through the reference:
      it reads the destination, and reports it missing. The direct call
      stores the source's bytes at the destination's key. */
  lemma ForwardAsWrittenSwapsCopy(site: InMemorySite, from: Path, to: Path, disk: Path -> Option<Bytes>)
    requires StartsWith(to, site.config.outDir)
    requires disk(from).Some? && disk(to).None?
    ensures Allowed(site, Copy(from, to), disk)
    ensures Apply(site, Copy(from, to), disk) == Ok((AddFile(site, to, disk(from).value), Done))
    ensures ReadPath(Apply(site, Copy(from, to), disk).value.0, StripPrefix(to, site.config.outDir)) == disk(from)
    ensures Allowed(site, ForwardAsWritten(Copy(from, to)), disk)
    ensures Apply(site, ForwardAsWritten(Copy(from, to)), disk) == Err(NotFound(to))
  {
    CopyIsAdd(site, from, to, disk);
  }

  /** An instance: copying an asset into a fresh output directory through the
      reference fails, while the direct call succeeds. */
  lemma SwappedCopyExample()
    ensures
      var out := ["project", "site"];
      var site := NewSite(Config.Config(Config.DoctaveYaml("Docs", None, None), ["project"], out, ["project", "docs"]));
      var from := ["assets", "style.css"];
      var to := out + ["style.css"];
      var disk := (p: Path) => if p == from then Some([0x2a as bv8]) else None;
      && Apply(site, Copy(from, to), disk).Ok?
      && Apply(site, ForwardAsWritten(Copy(from, to)), disk) == Err(NotFound(to))
  {
    var out := ["project", "site"];
    var site := NewSite(Config.Config(Config.DoctaveYaml("Docs", None, None), ["project"], out, ["project", "docs"]));
    var from := ["assets", "style.css"];
    var to := out + ["style.css"];
    var disk := (p: Path) => if p == from then Some([0x2a as bv8]) else None;
    assert to[..|out|] == out;
    assert to != from;
    ForwardAsWrittenSwapsCopy(site, from, to, disk);
  }
}
