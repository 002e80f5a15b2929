/**
 * `script_run`: when the calling module runs as a script, run pytest on the
 * given test files. The model computes the plan: the argument vectors pytest
 * would be called with, whether the script's own entry of `sys.path` is
 * dropped first, and whether the process exits afterwards. Calling pytest,
 * exiting and reading the configuration file are left to the caller; the
 * configuration's two argument settings come in as already-read values.
 */
module ScriptRun {
  import opened Common
  import opened Paths
  import opened PyStr
  import opened ModuleInfo

  /** What `script_run` does in the current version. */
  datatype Plan =
    | Skipped
      /** `pskip`: only `set_package_attribute.init(modify_syspath)` is called. */
    | PackageOnly(modifySysPath: Option<bool>)
      /** Imported rather than run, and `always_run` not set. */
    | NotScript
    | Run(dropSysPath0: bool, calls: seq<seq<string>>, exit: bool)

  /** The pytest arguments as a list: nothing, a string split on whitespace, or a list kept as is. */
  function ArgList(a: StrOrList): (r: seq<string>)
    ensures a.Absent? ==> r == []
    ensures a.Many? ==> r == a.items
    ensures a.One? ==> Concat(r) == NonSpace(a.s) && forall i :: 0 <= i < |r| ==> r[i] != [] && NoSpace(r[i])
  {
    match a
    case Absent => []
    case One(s) => Words(s)
    case Many(items) => items
  }

  /** The test paths as a list: a single string is one path and is never split. */
  function PathList(p: StrOrList): (r: seq<string>)
    ensures p.Absent? ==> r == []
    ensures p.One? ==> r == [p.s]
    ensures p.Many? ==> r == p.items
  {
    match p
    case Absent => []
    case One(s) => [s]
    case Many(items) => items
  }

  /**
   * The argument list after the configuration file: its
   * `script_run_pytest_args` replaces the passed arguments when set, and its
   * `script_run_extra_pytest_args` is appended.
   */
  function Arguments(pytestArgs: StrOrList, configArgs: Option<StrOrList>, configExtra: Option<StrOrList>): (r: seq<string>)
    ensures configArgs.None? && configExtra.None? ==> r == ArgList(pytestArgs)
    ensures configArgs.Some? ==> |r| >= |ArgList(configArgs.value)| && r[..|ArgList(configArgs.value)|] == ArgList(configArgs.value)
    ensures configArgs.None? ==> |r| >= |ArgList(pytestArgs)| && r[..|ArgList(pytestArgs)|] == ArgList(pytestArgs)
    ensures configExtra.Some? ==> |r| >= |ArgList(configExtra.value)| && r[|r| - |ArgList(configExtra.value)|..] == ArgList(configExtra.value)
    ensures |r| == |ArgList(if configArgs.Some? then configArgs.value else pytestArgs)|
                   + (if configExtra.Some? then |ArgList(configExtra.value)| else 0)
  {
    var passed := ArgList(pytestArgs);
    var base := ArgList(if configArgs.Some? then configArgs.value else Many(passed));
    var extra := ArgList(if configExtra.Some? then configExtra.value else Many([]));
    base + extra
  }

  /**
   * The test paths handed to pytest: the listed ones plus, for a self test,
   * the module's own path; each has `~` expanded and is made absolute and
   * canonical relative to the module's directory, except that with `pyargs`
   * an entry with no slash is a Python module name and is passed through.
   */
  function TestPaths(testfilePaths: StrOrList, selfTest: bool, pyargs: bool, info: Info, os: Os): (r: seq<string>)
    ensures var listed := PathList(testfilePaths) + (if selfTest then [info.path] else []);
      && |r| == |listed|
      && forall i :: 0 <= i < |r| ==>
           var p := os.expandUser(listed[i]);
           r[i] == (if pyargs && Sep !in p then p else ExpandRelative(p, info.dir, os))
  {
    var listed := PathList(testfilePaths) + (if selfTest then [info.path] else []);
    var expanded := seq(|listed|, i requires 0 <= i < |listed| => os.expandUser(listed[i]));
    seq(|expanded|, i requires 0 <= i < |expanded| =>
      if pyargs && Sep !in expanded[i] then expanded[i] else ExpandRelative(expanded[i], info.dir, os))
  }

  /** The argument list with `--pyargs` appended when `pyargs` is set and it is not already there. */
  function WithPyargs(args: seq<string>, pyargs: bool): (r: seq<string>)
    ensures |r| >= |args| && r[..|args|] == args
    ensures pyargs ==> "--pyargs" in r
    ensures !pyargs || "--pyargs" in args ==> r == args
    ensures |r| <= |args| + 1
  {
    if pyargs && "--pyargs" !in args then args + ["--pyargs"] else args
  }

  /** The pytest calls: one with every path, or one per path; each starts with the whole argument list. */
  function PytestCalls(args: seq<string>, paths: seq<string>, singleCall: bool): (r: seq<seq<string>>)
    ensures singleCall ==> |r| == 1
    ensures !singleCall ==> |r| == |paths|
    ensures forall c :: 0 <= c < |r| ==> |r[c]| >= |args| && r[c][..|args|] == args
    ensures singleCall ==> r[0][|args|..] == paths
    ensures !singleCall ==> forall c :: 0 <= c < |r| ==> r[c][|args|..] == [paths[c]]
  {
    if singleCall then [args + paths]
    else seq(|paths|, i requires 0 <= i < |paths| => args + [paths[i]])
  }

  /**
   * One pytest call, element by element: the argument list, then `--pyargs`
   * exactly when `pyargs` is set and the arguments lack it, then `tail`.
   */
  predicate CallCarries(call: seq<string>, args: seq<string>, pyargs: bool, tail: seq<string>) {
    var added := pyargs && "--pyargs" !in args;
    && |call| == |args| + (if added then 1 else 0) + |tail|
    && call[..|args|] == args
    && (added ==> call[|args|] == "--pyargs")
    && call[|call| - |tail|..] == tail
  }

  /** `CallCarries` fixes the call completely: two calls that carry the same parts are equal. */
  lemma CallCarriesUnique(call: seq<string>, call': seq<string>, args: seq<string>, pyargs: bool, tail: seq<string>)
    requires CallCarries(call, args, pyargs, tail) && CallCarries(call', args, pyargs, tail)
    ensures call == call'
  {
    forall i | 0 <= i < |call| ensures call[i] == call'[i] {
      if i < |args| {
        assert call[i] == call[..|args|][i] && call'[i] == call'[..|args|][i];
      } else if i >= |call| - |tail| {
        assert call[i] == call[|call| - |tail|..][i - (|call| - |tail|)];
        assert call'[i] == call'[|call'| - |tail|..][i - (|call'| - |tail|)];
      }
    }
  }

  lemma PytestCallsCarry(args: seq<string>, pyargs: bool, paths: seq<string>, singleCall: bool)
    ensures var calls := PytestCalls(WithPyargs(args, pyargs), paths, singleCall);
      && (singleCall ==> CallCarries(calls[0], args, pyargs, paths))
      && (!singleCall ==> forall c :: 0 <= c < |paths| ==> CallCarries(calls[c], args, pyargs, [paths[c]]))
  {
    var full := WithPyargs(args, pyargs);
    var calls := PytestCalls(full, paths, singleCall);
    if singleCall {
      assert calls[0] == full + paths;
      assert calls[0][..|calls[0]| - |paths|] == full;
      assert calls[0][..|args|] == full[..|args|];
    } else {
      forall c | 0 <= c < |paths| ensures CallCarries(calls[c], args, pyargs, [paths[c]]) {
        assert calls[c] == full + [paths[c]];
        assert calls[c][..|calls[c]| - 1] == full;
        assert calls[c][..|args|] == full[..|args|];
      }
    }
  }

  /**
   * The current `script_run`. `skip` and `pskip` return before the module is
   * looked up; a failed lookup is raised; a module that is not `__main__`
   * does nothing unless `alwaysRun`. Otherwise pytest is called once with
   * every path, or once per path, each time with the full argument list,
   * to which `--pyargs` is added when `pyargs` is set and it is missing.
   */
  function ScriptRun(lookup: Result<Info>, testfilePaths: StrOrList, selfTest: bool, pytestArgs: StrOrList,
                     pyargs: bool, modifySysPath: Option<bool>, singleCall: bool, exit: bool, alwaysRun: bool,
                     skip: bool, pskip: bool, configArgs: Option<StrOrList>, configExtra: Option<StrOrList>,
                     os: Os): (r: Result<Plan>)
    ensures skip ==> r == Ok(Skipped)
    ensures !skip && pskip ==> r == Ok(PackageOnly(modifySysPath))
    ensures !skip && !pskip && lookup.Err? ==> r == Err(lookup.error)
    ensures !skip && !pskip && lookup.Ok? && lookup.value.name != "__main__" && !alwaysRun ==> r == Ok(Plan.NotScript)
    ensures !skip && !pskip && lookup.Ok? && (lookup.value.name == "__main__" || alwaysRun) ==> r.Ok? && r.value.Run?
    ensures r.Ok? && r.value.Run? ==>
      var info := lookup.value;
      var args := Arguments(pytestArgs, configArgs, configExtra);
      var paths := TestPaths(testfilePaths, selfTest, pyargs, info, os);
      && (info.name == "__main__" || alwaysRun)
      && r.value.exit == exit
      && (r.value.dropSysPath0 <==> modifySysPath == Some(true) || (modifySysPath.None? && info.inPkg == Some(true)))
      && (singleCall ==> |r.value.calls| == 1)
      && (!singleCall ==> |r.value.calls| == |paths|)
      && (singleCall ==> CallCarries(r.value.calls[0], args, pyargs, paths))
      && (!singleCall ==> forall c :: 0 <= c < |paths| ==> CallCarries(r.value.calls[c], args, pyargs, [paths[c]]))
  {
    if skip then Ok(Skipped)
    else if pskip then Ok(PackageOnly(modifySysPath))
    else if lookup.Err? then Err(lookup.error)
    else
      var info := lookup.value;
      if info.name != "__main__" && !alwaysRun then Ok(Plan.NotScript)
      else
        var args := Arguments(pytestArgs, configArgs, configExtra);
        var drop := modifySysPath == Some(true) || (modifySysPath.None? && info.inPkg == Some(true));
        var paths := TestPaths(testfilePaths, selfTest, pyargs, info, os);
        var calls := PytestCalls(WithPyargs(args, pyargs), paths, singleCall);
        PytestCallsCarry(args, pyargs, paths, singleCall);
        Ok(Plan.Run(drop, calls, exit))
  }

  /** What the earlier versions' `script_run` does. */
  datatype LegacyPlan =
    | Idle
      /** One pytest call per path, each with a single command string. */
    | Calls(calls: seq<string>, exit: bool)

  /**
   * The command string for one path: the argument string, a space and the
   * path, or the path alone when the argument string is empty.
   */
  function CommandString(pytestArgs: string, path: string): (r: string)
    ensures pytestArgs == "" ==> r == path
    ensures pytestArgs != "" ==> |r| == |pytestArgs| + 1 + |path| && r[..|pytestArgs|] == pytestArgs && r[|pytestArgs|] == ' ' && r[|pytestArgs| + 1..] == path
  {
    if pytestArgs != "" then pytestArgs + " " + path else path
  }

  /**
   * The earlier `script_run`, with the argument string of the configuration
   * file (`configArgs`, only read by the intermediate version) replacing the
   * passed one. It has no skipping, no `pyargs`, no single call and never
   * touches `sys.path`.
   */
  function LegacyScriptRun(lookup: Result<Info>, testfilePaths: StrOrList, selfTest: bool, pytestArgs: string,
                           exit: bool, alwaysRun: bool, configArgs: Option<string>, os: Os): (r: Result<LegacyPlan>)
    ensures lookup.Err? ==> r == Err(lookup.error)
    ensures lookup.Ok? && lookup.value.name != "__main__" && !alwaysRun ==> r == Ok(Idle)
    ensures lookup.Ok? && (lookup.value.name == "__main__" || alwaysRun) ==> r.Ok? && r.value.Calls?
    ensures r.Ok? && r.value.Calls? ==>
      var paths := TestPaths(testfilePaths, selfTest, false, lookup.value, os);
      var args := if configArgs.Some? then configArgs.value else pytestArgs;
      && r.value.exit == exit
      && |r.value.calls| == |paths|
      && forall c :: 0 <= c < |paths| ==> r.value.calls[c] == CommandString(args, paths[c])
  {
    if lookup.Err? then Err(lookup.error)
    else
      var info := lookup.value;
      if info.name != "__main__" && !alwaysRun then Ok(Idle)
      else
        var args := if configArgs.Some? then configArgs.value else pytestArgs;
        var paths := TestPaths(testfilePaths, selfTest, false, info, os);
        Ok(Calls(seq(|paths|, i requires 0 <= i < |paths| => CommandString(args, paths[i])), exit))
  }

  /**
   * The earlier command strings, split on whitespace as pytest splits a
   * string argument, are the current version's per-path calls, when the
   * arguments are given as a string and no path is empty or holds whitespace.
   */
  lemma LegacyCallsMatchCurrent(info: Info, testfilePaths: StrOrList, selfTest: bool, pytestArgs: string,
                                exit: bool, alwaysRun: bool, os: Os, c: nat)
    requires info.name == "__main__" || alwaysRun
    requires var paths := TestPaths(testfilePaths, selfTest, false, info, os);
      forall i :: 0 <= i < |paths| ==> paths[i] != [] && NoSpace(paths[i])
    requires c < |TestPaths(testfilePaths, selfTest, false, info, os)|
    ensures var legacy := LegacyScriptRun(Ok(info), testfilePaths, selfTest, pytestArgs, exit, alwaysRun, None, os);
      var current := ScriptRun(Ok(info), testfilePaths, selfTest, One(pytestArgs), false, Some(false), false, exit,
                               alwaysRun, false, false, None, None, os);
      && legacy.Ok? && legacy.value.Calls? && current.Ok? && current.value.Run?
      && |legacy.value.calls| == |current.value.calls|
      && Words(legacy.value.calls[c]) == current.value.calls[c]
  {
    var paths := TestPaths(testfilePaths, selfTest, false, info, os);
    var current := ScriptRun(Ok(info), testfilePaths, selfTest, One(pytestArgs), false, Some(false), false, exit,
                             alwaysRun, false, false, None, None, os);
    var legacy := LegacyScriptRun(Ok(info), testfilePaths, selfTest, pytestArgs, exit, alwaysRun, None, os);
    var args := Arguments(One(pytestArgs), None, None);
    assert args == Words(pytestArgs);
    assert current.value.calls[c] == args + [paths[c]];
    assert legacy.value.calls[c] == CommandString(pytestArgs, paths[c]);
    CommandWords(pytestArgs, paths[c]);
  }

  /** Splitting a command string on whitespace gives the argument words and then the path, for a path that is one word. */
  lemma CommandWords(pytestArgs: string, path: string)
    requires path != [] && NoSpace(path)
    ensures Words(CommandString(pytestArgs, path)) == Words(pytestArgs) + [path]
  {
    WordsOfWord(path);
    if pytestArgs != "" {
      WordsAroundSpace(pytestArgs, path);
    } else {
      assert Words(pytestArgs) == [] by {
        assert Concat(Words(pytestArgs)) == [];
      }
    }
  }
}
