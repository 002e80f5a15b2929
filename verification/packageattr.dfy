/**
 * `set_package_attribute`: when a program is started from a script that sits
 * inside a package, work out the script's full package name so that its
 * `__package__` can be set and relative imports work.
 *
 * The package name is read off the directory tree: starting at the script's
 * directory, each directory holding `__init__.py` contributes its name, and
 * the names are joined top-down with dots. Importing the package and
 * registering it in `sys.modules` are left to the caller; the model returns
 * the name and the directory the import is retried from.
 */
module PackageAttr {
  import opened Common
  import opened Paths
  import opened PyStr
  import opened ModuleInfo

  /** The marker file of a package directory. */
  const InitFile: string := "__init__.py"

  /** Whether `dir` is a package directory. */
  predicate IsPackageDir(fs: FileSystem, dir: string) {
    Exists(fs, Join(dir, InitFile))
  }

  /**
   * The walk as written: while the directory holds `__init__.py`, replace it
   * by the head of its split and record the tail. At a directory that is its
   * own head (the root) the loop makes no progress, so the walk is given
   * `fuel` steps and answers `None` when they run out.
   */
  function WalkAsWritten(dir: string, fs: FileSystem, fuel: nat): (r: Option<(string, seq<string>)>)
    ensures r.Some? ==> |r.value.1| <= fuel && !IsPackageDir(fs, r.value.0)
    decreases fuel
  {
    if !IsPackageDir(fs, dir) then Some((dir, []))
    else if fuel == 0 then None
    else
      var s := Split(dir);
      var rest := WalkAsWritten(s.0, fs, fuel - 1);
      if rest.None? then None else Some((rest.value.0, [s.1] + rest.value.1))
  }

  /**
   * With `/__init__.py` present, the walk from the root never finishes: it
   * splits `/` into `/` and an empty name for ever, however many steps it is
   * given.
   */
  lemma {:induction false} WalkAsWrittenLoopsAtRoot(fs: FileSystem, fuel: nat)
    requires IsPackageDir(fs, "/")
    ensures WalkAsWritten("/", fs, fuel) == None
  {
    assert Split("/") == ("/", "") by {
      assert AllSep("/");
    }
    if fuel > 0 {
      WalkAsWrittenLoopsAtRoot(fs, fuel - 1);
    }
  }

  /**
   * The walk as intended: as written, but stopping at the root, where the
   * split's tail comes back empty. It returns the directory it stopped at
   * and the names collected, bottom-up; that directory is not a package
   * directory, or it is the root.
   */
  function Walk(dir: string, fs: FileSystem): (r: (string, seq<string>))
    ensures !IsPackageDir(fs, r.0) || Basename(r.0) == []
    decreases |dir|
  {
    var s := Split(dir);
    if !IsPackageDir(fs, dir) || s.1 == [] then (dir, [])
    else
      var rest := Walk(s.0, fs);
      (rest.0, [s.1] + rest.1)
  }

  /**
   * `r` is a walk along the chain `up`: the names collected are those of the
   * first directories of the chain, each a package directory, and the walk
   * stops at the first that is not one or at the top of the chain.
   */
  predicate FollowsChain(fs: FileSystem, up: seq<string>, r: (string, seq<string>)) {
    && |r.1| < |up|
    && r.0 == up[|r.1|]
    && (forall i :: 0 <= i < |r.1| ==> IsPackageDir(fs, up[i]) && r.1[i] == Basename(up[i]) && r.1[i] != [])
    && (!IsPackageDir(fs, r.0) || |r.1| == |up| - 1)
  }

  /** The walk follows the chain of directories from `dir` upward. */
  lemma {:induction false} WalkFollowsAncestors(dir: string, fs: FileSystem)
    ensures FollowsChain(fs, Ancestors(dir), Walk(dir, fs))
    decreases |dir|
  {
    var s := Split(dir);
    if IsPackageDir(fs, dir) && s.1 != [] {
      WalkFollowsAncestors(s.0, fs);
      assert Ancestors(dir) == [dir] + Ancestors(s.0);
      FollowsChainCons(fs, dir, Ancestors(s.0), Walk(s.0, fs));
    } else {
      assert Ancestors(dir)[0] == dir;
      if IsPackageDir(fs, dir) {
        assert Ancestors(dir) == [dir];
      }
    }
  }

  /** A package directory with a name, put in front of a walk along a chain, extends it. */
  lemma FollowsChainCons(fs: FileSystem, dir: string, up: seq<string>, r: (string, seq<string>))
    requires IsPackageDir(fs, dir) && Basename(dir) != []
    requires FollowsChain(fs, up, r)
    ensures FollowsChain(fs, [dir] + up, (r.0, [Basename(dir)] + r.1))
  {
    var up' := [dir] + up;
    var names := [Basename(dir)] + r.1;
    forall i | 0 <= i < |names|
      ensures IsPackageDir(fs, up'[i]) && names[i] == Basename(up'[i]) && names[i] != []
    {
      if i > 0 {
        assert up'[i] == up[i - 1] && names[i] == r.1[i - 1];
      }
    }
  }

  /**
   * Where the chain of package directories ends below the root, the walk as
   * written finishes, in as many steps as there are names, with the same
   * answer as the intended walk.
   */
  lemma {:induction false} WalkAsWrittenAgrees(dir: string, fs: FileSystem)
    requires !IsPackageDir(fs, Walk(dir, fs).0)
    ensures WalkAsWritten(dir, fs, |Walk(dir, fs).1|) == Some(Walk(dir, fs))
    decreases |dir|
  {
    var s := Split(dir);
    if IsPackageDir(fs, dir) && s.1 != [] {
      WalkAsWrittenAgrees(s.0, fs);
    }
  }

  /**
   * The parts of the `__main__` module that the module-level code reads; a
   * module started from a REPL or with `-c` has no `__file__`.
   */
  datatype MainModule = MainModule(package: Option<string>, file: Option<string>)

  /** What importing the module does. */
  datatype Outcome =
    | Unchanged
      /** `__package__` is set to `name`; `retryDir` goes first on `sys.path` if the import fails. */
    | SetPackage(name: string, retryDir: string)

  /** The directory of the script, made absolute and canonical. */
  function ScriptDir(file: string, os: Os): string {
    Dirname(os.realpath(os.abspath(file)))
  }

  /** The dotted package name for names collected bottom-up. */
  function DottedName(parts: seq<string>): string {
    JoinWith(Reverse(parts), '.')
  }

  /**
   * Importing `set_package_attribute`. Nothing happens when no `__main__`
   * module is registered or when it already has a `__package__`. Otherwise
   * its `__file__` is read, which raises `AttributeError` when there is none;
   * outside a package nothing happens, and inside one the package name is
   * the dotted, top-down join of the package directories above the script.
   */
  function SetPackageAttribute(main: Option<MainModule>, fs: FileSystem, os: Os): (r: Result<Outcome>)
    ensures main.None? || main.value.package.Some? ==> r == Ok(Unchanged)
    ensures main.Some? && main.value.package.None? && main.value.file.None? ==> r == Err(AttributeError("__file__"))
    ensures main.Some? && main.value.package.None? && main.value.file.Some? ==>
      var dir := ScriptDir(main.value.file.value, os);
      var w := Walk(dir, fs);
      && r.Ok?
      && (r.value.Unchanged? <==> w.1 == [])
      && (w.1 == [] <==> !IsPackageDir(fs, dir) || Basename(dir) == [])
      && (r.value.SetPackage? ==> r.value.name == DottedName(w.1) && r.value.retryDir == w.0)
  {
    if main.None? || main.value.package.Some? then Ok(Unchanged)
    else if main.value.file.None? then Err(AttributeError("__file__"))
    else
      var w := Walk(ScriptDir(main.value.file.value, os), fs);
      if w.1 == [] then Ok(Unchanged) else Ok(SetPackage(DottedName(w.1), w.0))
  }

  /** Joining dot-free names with dots and splitting the result again gives the names back, top-down. */
  lemma DottedNameSplits(parts: seq<string>)
    requires |parts| > 0
    requires forall i :: 0 <= i < |parts| ==> '.' !in parts[i]
    ensures SplitOn(DottedName(parts), '.') == Reverse(parts)
    ensures SplitOn(DottedName(parts), '.')[|parts| - 1] == parts[0]
  {
    var rev := Reverse(parts);
    ReverseIndex(parts);
    forall i | 0 <= i < |rev| ensures '.' !in rev[i] {
      assert rev[i] == parts[|parts| - 1 - i];
    }
    SplitJoin(rev, '.');
  }

  /**
   * The package name has one dotted component per directory walked through,
   * top-down, the last being the script directory's own name, provided no
   * directory name holds a dot.
   */
  lemma PackageNameComponents(main: Option<MainModule>, fs: FileSystem, os: Os)
    requires main.Some? && main.value.package.None? && main.value.file.Some?
    requires forall i :: 0 <= i < |Walk(ScriptDir(main.value.file.value, os), fs).1| ==>
      '.' !in Walk(ScriptDir(main.value.file.value, os), fs).1[i]
    ensures var dir := ScriptDir(main.value.file.value, os);
      var w := Walk(dir, fs);
      var r := SetPackageAttribute(main, fs, os);
      r.Ok? && r.value.SetPackage? ==>
        && SplitOn(r.value.name, '.') == Reverse(w.1)
        && |SplitOn(r.value.name, '.')| == |w.1|
        && SplitOn(r.value.name, '.')[|w.1| - 1] == Basename(dir)
  {
    var dir := ScriptDir(main.value.file.value, os);
    var w := Walk(dir, fs);
    if w.1 != [] {
      DottedNameSplits(w.1);
    }
  }
}
