/**
 * `get_calling_module_info`: the name, module object, canonical path and
 * directory of the calling module, plus (in the current version only)
 * whether that directory is a package. Results are cached process-wide by
 * module name, so the path worked out on the first call is the one every
 * later call sees.
 *
 * Introspection of the call stack is replaced by its result (`introspected`),
 * `sys.modules` by a map, and the filesystem by sets of existing paths.
 */
module ModuleInfo {
  import opened Common
  import opened Paths

  /**
   * A loaded module: the object itself and its `__file__`, which an
   * interactive `__main__`, a built-in module or a namespace package lacks.
   */
  datatype ModuleObj = ModuleObj(obj: Value, file: Option<string>)

  /**
   * The tuple returned. `inPkg` is `None` in the earlier versions, which
   * return four fields only.
   */
  datatype Info = Info(name: string, obj: Value, path: string, dir: string, inPkg: Option<bool>)

  type Cache = map<string, Info>

  /** The existing directories and files. */
  datatype FileSystem = FileSystem(dirs: set<string>, files: set<string>)

  /** `os.path.exists`: a directory or a file. */
  predicate Exists(fs: FileSystem, p: string) {
    p in fs.dirs || p in fs.files
  }

  datatype Version = Current | Earlier

  /** The module name used: the `module_name` argument when it is non-empty, else the introspected one. */
  function NameUsed(moduleName: string, introspected: (string, ModuleObj)): string {
    if moduleName != "" then moduleName else introspected.0
  }

  /** Every cached tuple is filed under its own name and holds the directory of its path. */
  predicate CacheConsistent(cache: Cache) {
    forall k :: k in cache ==> cache[k].name == k && cache[k].dir == Dirname(cache[k].path)
  }

  /**
   * The lookup. `moduleName` and `modulePath` are the keyword arguments, with
   * `""` for not given (both are checked by truth value). A given name must be in
   * `sysModules`. A given path is used as is and bypasses the cache.
   * Otherwise a cached name is answered from the cache, and an uncached one
   * gets the canonical absolute form of the module's `__file__`, whose
   * absence raises `AttributeError`. A missing directory is an error when
   * `checkExists` is set, and then nothing is cached.
   *
   * Whatever the branch, a success files the tuple it returns under the name
   * used and touches no other entry, and a consistent cache stays
   * consistent. The only errors are the unknown name, the missing `__file__`
   * of an uncached module looked up without a path, and, under
   * `checkExists`, a missing directory.
   */
  function GetCallingModuleInfo(cache: Cache, sysModules: map<string, ModuleObj>, introspected: (string, ModuleObj),
                                moduleName: string, modulePath: string, checkExists: bool,
                                fs: FileSystem, os: Os, version: Version): (r: Result<(Info, Cache)>)
    ensures (r.Err? && r.error.KeyError?) <==> moduleName != "" && moduleName !in sysModules
    ensures (r.Err? && r.error.AttributeError?) <==>
      && (moduleName == "" || moduleName in sysModules)
      && modulePath == "" && NameUsed(moduleName, introspected) !in cache
      && (if moduleName != "" then sysModules[moduleName] else introspected.1).file.None?
    ensures r.Err? ==>
      || r.error == KeyError(moduleName)
      || r.error == AttributeError("__file__")
      || (checkExists && r.error.MissingModuleDir? && r.error.dir !in fs.dirs)
    ensures !checkExists && (moduleName == "" || moduleName in sysModules) && !(r.Err? && r.error.AttributeError?) ==> r.Ok?
    ensures r.Ok? ==> r.value.1 == cache[NameUsed(moduleName, introspected) := r.value.0]
    ensures r.Ok? && CacheConsistent(cache) ==>
      r.value.0.name == NameUsed(moduleName, introspected) && CacheConsistent(r.value.1)
  {
    if moduleName != "" && moduleName !in sysModules then Err(KeyError(moduleName))
    else
      var name := NameUsed(moduleName, introspected);
      var m := if moduleName != "" then sysModules[moduleName] else introspected.1;
      if modulePath == "" && name in cache then Ok((cache[name], cache))
      else
        if modulePath == "" && m.file.None? then Err(AttributeError("__file__"))
        else
          var path := if modulePath != "" then modulePath else os.realpath(os.abspath(m.file.value));
          var dir := Dirname(path);
          if checkExists && dir !in fs.dirs then Err(MissingModuleDir(dir))
          else
            var inPkg := if version == Current then Some(Exists(fs, Join(dir, "__init__.py"))) else None;
            var info := Info(name, m.obj, path, dir, inPkg);
            Ok((info, cache[name := info]))
  }

  /**
   * The first lookup of a module without an explicit path: the path is the
   * canonical absolute form of the module's `__file__`, the directory its
   * dirname, and the package flag (current version only) whether that
   * directory holds `__init__.py`; a missing directory is an error exactly
   * under `checkExists`. Without a `__file__` the lookup raises
   * `AttributeError` and caches nothing.
   */
  lemma FirstLookupCanonical(cache: Cache, sysModules: map<string, ModuleObj>, introspected: (string, ModuleObj),
                             moduleName: string, checkExists: bool, fs: FileSystem, os: Os, version: Version)
    requires moduleName == "" || moduleName in sysModules
    requires NameUsed(moduleName, introspected) !in cache
    ensures var m := if moduleName != "" then sysModules[moduleName] else introspected.1;
      var r := GetCallingModuleInfo(cache, sysModules, introspected, moduleName, "", checkExists, fs, os, version);
      m.file.None? ==> r == Err(AttributeError("__file__"))
    ensures var m := if moduleName != "" then sysModules[moduleName] else introspected.1;
      m.file.Some? ==>
      var path := os.realpath(os.abspath(m.file.value));
      var dir := Dirname(path);
      var r := GetCallingModuleInfo(cache, sysModules, introspected, moduleName, "", checkExists, fs, os, version);
      && (r.Err? <==> checkExists && dir !in fs.dirs)
      && (r.Err? ==> r.error == MissingModuleDir(dir))
      && (r.Ok? ==>
            && r.value.0.name == NameUsed(moduleName, introspected) && r.value.0.obj == m.obj
            && r.value.0.path == path && r.value.0.dir == dir
            && (version == Current ==> r.value.0.inPkg == Some(Exists(fs, Join(dir, "__init__.py"))))
            && (version == Earlier ==> r.value.0.inPkg == None))
  {
  }

  /**
   * Once a lookup has succeeded, any later lookup of the same name without
   * an explicit path returns the same tuple and leaves the cache alone, even
   * if the working directory, the filesystem or the module's `__file__` have
   * changed since.
   */
  lemma LookupStable(cache: Cache, sysModules: map<string, ModuleObj>, introspected: (string, ModuleObj),
                     moduleName: string, modulePath: string, checkExists: bool, fs: FileSystem, os: Os,
                     version: Version,
                     sysModules2: map<string, ModuleObj>, introspected2: (string, ModuleObj), moduleName2: string,
                     checkExists2: bool, fs2: FileSystem, os2: Os)
    requires GetCallingModuleInfo(cache, sysModules, introspected, moduleName, modulePath, checkExists, fs, os, version).Ok?
    requires moduleName2 == "" || moduleName2 in sysModules2
    requires NameUsed(moduleName2, introspected2) == NameUsed(moduleName, introspected)
    ensures var first := GetCallingModuleInfo(cache, sysModules, introspected, moduleName, modulePath,
                                              checkExists, fs, os, version).value;
      GetCallingModuleInfo(first.1, sysModules2, introspected2, moduleName2, "", checkExists2, fs2, os2, version)
        == Ok(first)
  {
  }

  /**
   * An explicit path always wins: it is what the tuple carries and what the
   * cache holds afterwards, whatever was cached before.
   */
  lemma ExplicitPathOverrides(cache: Cache, sysModules: map<string, ModuleObj>, introspected: (string, ModuleObj),
                              moduleName: string, modulePath: string, fs: FileSystem, os: Os, version: Version)
    requires modulePath != ""
    requires moduleName == "" || moduleName in sysModules
    requires Dirname(modulePath) in fs.dirs
    ensures var r := GetCallingModuleInfo(cache, sysModules, introspected, moduleName, modulePath, true, fs, os, version);
      && r.Ok?
      && r.value.0.path == modulePath
      && r.value.1[NameUsed(moduleName, introspected)].path == modulePath
      && forall k :: k in cache && k != NameUsed(moduleName, introspected) ==> k in r.value.1 && r.value.1[k] == cache[k]
  {
  }
}
