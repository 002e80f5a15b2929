/**
 * The configuration file handler: finding `pytest_helper.ini` by walking up
 * the directory tree from a module's directory, and the caches that make
 * each module's configuration, and each file's contents, be worked out once.
 *
 * Parsing and evaluating the file (`read_and_eval_config_file`) is a
 * parameter `read`, a function from the file's path to its sections. The
 * values in the file are Python objects of any type, a type parameter `V`
 * here, and the per-module cache is keyed by whatever the caller passes as
 * the module's identity, a type parameter `K`.
 */
module Config {
  import opened Common
  import opened Paths
  import opened ModuleInfo

  /** The names a configuration file may have, tried in order in each directory. */
  const ConfigFileNames: seq<string> := ["pytest_helper.ini"]

  /** The section of the file the helper reads. */
  const SectionName: string := "pytest_helper"

  /** The shipped setting: a missing file is not an error. */
  const FailOnMissingConfig: bool := false

  /** A parsed file: its sections, each a map from keys to evaluated values. */
  type ConfigDict<V> = map<string, map<string, V>>

  /**
   * The three process-wide tables: the modules for which configuration is
   * disabled, each module's configuration, and each file's contents.
   */
  datatype ConfigState<K, V> = ConfigState(disabled: set<K>, perModule: map<K, ConfigDict<V>>, perFile: map<string, ConfigDict<V>>)

  /** The first of `names` that exists in `dir`, as a path. */
  function FirstIn(dir: string, names: seq<string>, fs: FileSystem): (r: Option<string>)
    ensures r.None? <==> forall j :: 0 <= j < |names| ==> !Exists(fs, Join(dir, names[j]))
    ensures r.Some? ==> Exists(fs, r.value)
  {
    if names == [] then None
    else if Exists(fs, Join(dir, names[0])) then Some(Join(dir, names[0]))
    else
      var rest := FirstIn(dir, names[1..], fs);
      assert forall j :: 1 <= j < |names| ==> names[j] == names[1..][j - 1];
      rest
  }

  /** Which directories of `dirs` hold one of `names`. */
  function Hits(dirs: seq<string>, names: seq<string>, fs: FileSystem): (h: seq<bool>)
    ensures |h| == |dirs|
    ensures forall i :: 0 <= i < |dirs| ==> h[i] == FirstIn(dirs[i], names, fs).Some?
  {
    seq(|dirs|, i requires 0 <= i < |dirs| => FirstIn(dirs[i], names, fs).Some?)
  }

  /** The position of the first `true` in `b` from position `from` on (`|b|` when there is none). */
  function FirstTrue(b: seq<bool>, from: nat): (i: nat)
    requires from <= |b|
    ensures from <= i <= |b|
    ensures i < |b| ==> b[i]
    ensures forall k :: from <= k < i ==> !b[k]
    decreases |b| - from
  {
    if from == |b| || b[from] then from else FirstTrue(b, from + 1)
  }

  /** The file found in the first directory of `dirs` that holds one of `names`. */
  function Search(dirs: seq<string>, names: seq<string>, fs: FileSystem): (r: Option<string>)
    ensures r.None? <==> forall i :: 0 <= i < |dirs| ==> FirstIn(dirs[i], names, fs).None?
    ensures r.Some? ==> exists i :: 0 <= i < |dirs| && r == FirstIn(dirs[i], names, fs)
                                   && forall k :: 0 <= k < i ==> FirstIn(dirs[k], names, fs).None?
  {
    var h := Hits(dirs, names, fs);
    var i := FirstTrue(h, 0);
    if i < |dirs| then FirstIn(dirs[i], names, fs) else None
  }

  /**
   * `get_config_file_pathname`: the configuration file nearest to `dir`,
   * looking in `dir` and then in each directory above it up to the root (or,
   * for a relative `dir`, up to its first component). The package-top stop
   * in the source is switched off by a constant and so never taken.
   */
  function FindConfigFile(dir: string, fs: FileSystem): (r: Option<string>)
    ensures var up := SearchedDirs(dir);
      && (r.None? <==> forall i :: 0 <= i < |up| ==> FirstIn(up[i], ConfigFileNames, fs).None?)
      && (r.Some? ==> exists i :: 0 <= i < |up| && r == FirstIn(up[i], ConfigFileNames, fs)
                                  && forall k :: 0 <= k < i ==> FirstIn(up[k], ConfigFileNames, fs).None?)
  {
    Search(SearchedDirs(dir), ConfigFileNames, fs)
  }

  /** The directories searched from `dir`: itself and each one above it. */
  function SearchedDirs(dir: string): seq<string> {
    Ancestors(dir)
  }

  /** Each directory's chain of ancestors is the tail of its descendants' chains. */
  lemma {:induction false} AncestorsSuffix(dir: string, j: nat)
    requires j < |Ancestors(dir)|
    ensures Ancestors(Ancestors(dir)[j]) == Ancestors(dir)[j..]
    decreases |dir|
  {
    if j > 0 {
      var s := Split(dir);
      assert s.1 != [];
      assert Ancestors(dir) == [dir] + Ancestors(s.0);
      AncestorsSuffix(s.0, j - 1);
      assert Ancestors(dir)[j] == Ancestors(s.0)[j - 1];
      assert Ancestors(dir)[j..] == Ancestors(s.0)[j - 1..];
    }
  }

  /** Dropping directories that hold no configuration file does not change the search. */
  lemma SearchSkip(dirs: seq<string>, names: seq<string>, fs: FileSystem, j: nat)
    requires j <= |dirs|
    requires forall k :: 0 <= k < j ==> FirstIn(dirs[k], names, fs).None?
    ensures Search(dirs[j..], names, fs) == Search(dirs, names, fs)
  {
    var h := Hits(dirs, names, fs);
    var h' := Hits(dirs[j..], names, fs);
    assert h' == h[j..] by {
      forall k | 0 <= k < |h'| ensures h'[k] == h[j..][k] {
        assert dirs[j..][k] == dirs[j + k];
      }
    }
    FirstTrueSkip(h, j);
    var i := FirstTrue(h, 0);
    if i < |dirs| {
      assert dirs[j..][i - j] == dirs[i];
    }
  }

  /** Skipping a prefix of `false`s moves the first `true` back by the prefix's length. */
  lemma FirstTrueSkip(b: seq<bool>, j: nat)
    requires j <= |b|
    requires forall k :: 0 <= k < j ==> !b[k]
    ensures FirstTrue(b[j..], 0) == FirstTrue(b, 0) - j
  {
    var i := FirstTrue(b, 0);
    var i' := FirstTrue(b[j..], 0);
    if i < |b| {
      assert b[j..][i - j] == b[i];
    }
    if i' < |b| - j {
      assert b[j..][i'] == b[j + i'];
    }
  }

  /**
   * Every directory between a module's directory and the directory holding
   * the configuration file that module finds resolves to that same file: a
   * module in a subdirectory shares its parent's configuration.
   */
  lemma SharedConfigFile(dir: string, fs: FileSystem, j: nat)
    requires j < |Ancestors(dir)|
    requires forall k :: 0 <= k < j ==> FirstIn(Ancestors(dir)[k], ConfigFileNames, fs).None?
    ensures FindConfigFile(Ancestors(dir)[j], fs) == FindConfigFile(dir, fs)
  {
    AncestorsSuffix(dir, j);
    SearchSkip(Ancestors(dir), ConfigFileNames, fs, j);
  }

  /** A file in the module's own directory wins over any further up. */
  lemma NearestWins(dir: string, fs: FileSystem)
    requires Exists(fs, Join(dir, ConfigFileNames[0]))
    ensures FindConfigFile(dir, fs) == Some(Join(dir, ConfigFileNames[0]))
  {
  }

  /** The exception raised for a missing file when that is an error, by version. */
  function MissingError(version: Version): Error {
    match version
    // The current handler names the exception without importing it, so
    // raising it fails with a `NameError`.
    case Current => NameError("PytestHelperException")
    case Earlier => MissingConfigFile
  }

  /**
   * `get_config` once the module's nearest file `file` is known. Disabling is
   * recorded for good and makes the answer empty. Otherwise a cached module
   * gets its cached configuration; an uncached one gets the contents of the
   * file (read at most once per file) or, when there is none, an empty
   * configuration or the missing-file error, and is cached.
   *
   * Whatever the branch, the disabled set only grows, by `key` when
   * `disable` is set; no cached entry of either table is ever changed or
   * dropped; the only new file entry is `file`; and the answer is empty or
   * what the module's cache entry now holds. The only error is the missing
   * file, and only when that is set to fail.
   */
  function Lookup<K, V>(st: ConfigState<K, V>, key: K, file: Option<string>, disable: bool,
                        read: string -> ConfigDict<V>, failOnMissing: bool, version: Version)
    : (r: Result<(ConfigDict<V>, ConfigState<K, V>)>)
    ensures r.Err? <==> !disable && key !in st.disabled && key !in st.perModule && failOnMissing && file.None?
    ensures r.Err? ==> r.error == MissingError(version)
    ensures disable || key in st.disabled ==> r.Ok? && r.value.0 == map[]
    ensures r.Ok? ==>
      var st' := r.value.1;
      && st'.disabled == (if disable then st.disabled + {key} else st.disabled)
      && (forall k :: k in st.perModule ==> k in st'.perModule && st'.perModule[k] == st.perModule[k])
      && (forall k :: k in st'.perModule ==> k in st.perModule || k == key)
      && (forall p :: p in st.perFile ==> p in st'.perFile && st'.perFile[p] == st.perFile[p])
      && (forall p :: p in st'.perFile ==> p in st.perFile || file == Some(p))
      && (r.value.0 == map[] || (key in st'.perModule && r.value.0 == st'.perModule[key]))
      && (key !in st'.disabled ==> key in st'.perModule && st'.perModule[key] == r.value.0)
  {
    if disable || key in st.disabled then
      Ok((map[], st.(disabled := if disable then st.disabled + {key} else st.disabled)))
    else if key in st.perModule then Ok((st.perModule[key], st))
    else if file.None? then
      if failOnMissing then Err(MissingError(version))
      else Ok((map[], st.(perModule := st.perModule[key := map[]])))
    else if file.value in st.perFile then
      var conf := st.perFile[file.value];
      Ok((conf, st.(perModule := st.perModule[key := conf])))
    else
      var conf := read(file.value);
      Ok((conf, st.(perModule := st.perModule[key := conf], perFile := st.perFile[file.value := conf])))
  }

  /** `get_config(calling_mod_path, calling_mod_dir, disable)`: the lookup with the file found from `dir`. */
  function GetConfig<K, V>(st: ConfigState<K, V>, key: K, dir: string, disable: bool, fs: FileSystem,
                           read: string -> ConfigDict<V>, failOnMissing: bool, version: Version)
    : (r: Result<(ConfigDict<V>, ConfigState<K, V>)>)
  {
    Lookup(st, key, FindConfigFile(dir, fs), disable, read, failOnMissing, version)
  }

  /**
   * The caches agree with the files: every cached file holds what reading it
   * gives, and every cached module's configuration is the contents of some
   * file or empty.
   */
  predicate Coherent<K, V(==)>(st: ConfigState<K, V>, read: string -> ConfigDict<V>) {
    && (forall p :: p in st.perFile ==> st.perFile[p] == read(p))
    && (forall k :: k in st.perModule ==> st.perModule[k] == map[] || exists p :: p in st.perFile && st.perModule[k] == st.perFile[p])
  }

  /** Caching one more module's configuration, and perhaps one more file, keeps the caches coherent. */
  lemma CacheModule<K, V>(st: ConfigState<K, V>, read: string -> ConfigDict<V>, key: K, conf: ConfigDict<V>,
                          perFile: map<string, ConfigDict<V>>)
    requires Coherent(st, read)
    requires forall p :: p in perFile ==> perFile[p] == read(p)
    requires forall p :: p in st.perFile ==> p in perFile
    requires conf == map[] || exists p :: p in perFile && conf == perFile[p]
    ensures Coherent(st.(perModule := st.perModule[key := conf], perFile := perFile), read)
  {
    var st' := st.(perModule := st.perModule[key := conf], perFile := perFile);
    forall k | k in st'.perModule && k != key && st'.perModule[k] != map[]
      ensures exists p :: p in st'.perFile && st'.perModule[k] == st'.perFile[p]
    {
      var p :| p in st.perFile && st.perModule[k] == st.perFile[p];
      assert p in st'.perFile && st'.perFile[p] == read(p) == st.perFile[p];
    }
  }

  /** Coherence depends only on the two caches, not on the disabled set. */
  lemma CoherentCaches<K, V>(st: ConfigState<K, V>, st': ConfigState<K, V>, read: string -> ConfigDict<V>)
    requires Coherent(st, read)
    requires st'.perFile == st.perFile && st'.perModule == st.perModule
    ensures Coherent(st', read)
  {
  }

  /**
   * A lookup for a module neither disabled nor cached: the contents of its
   * file, taken from the file cache when that file was read before
   * and otherwise read now and cached; an empty configuration when there is
   * no file and that is not an error. The module's entry then holds the
   * answer.
   */
  lemma MissReadsOnce<K, V>(st: ConfigState<K, V>, key: K, file: Option<string>,
                            read: string -> ConfigDict<V>, failOnMissing: bool, version: Version)
    requires key !in st.disabled && key !in st.perModule
    ensures var r := Lookup(st, key, file, false, read, failOnMissing, version);
      r.Ok? ==>
        var conf := r.value.0;
        && (file.Some? && file.value in st.perFile ==> conf == st.perFile[file.value] && r.value.1.perFile == st.perFile)
        && (file.Some? && file.value !in st.perFile ==> conf == read(file.value) && r.value.1.perFile == st.perFile[file.value := conf])
        && (file.None? ==> conf == map[] && r.value.1.perFile == st.perFile)
        && r.value.1.perModule == st.perModule[key := conf]
  {
  }

  /** `get_config` keeps the caches coherent. */
  lemma GetConfigCoherent<K, V>(st: ConfigState<K, V>, key: K, dir: string, disable: bool, fs: FileSystem,
                                read: string -> ConfigDict<V>, failOnMissing: bool, version: Version)
    requires Coherent(st, read)
    ensures var r := GetConfig(st, key, dir, disable, fs, read, failOnMissing, version);
      r.Ok? ==> Coherent(r.value.1, read)
  {
    var r := GetConfig(st, key, dir, disable, fs, read, failOnMissing, version);
    if r.Ok? {
      if !disable && key !in st.disabled && key !in st.perModule {
        MissReadsOnce(st, key, FindConfigFile(dir, fs), read, failOnMissing, version);
        MissCoherent(st, r.value.1, read, key, FindConfigFile(dir, fs), r.value.0);
      } else {
        CoherentCaches(st, r.value.1, read);
      }
    }
  }

  /**
   * Caching a module's configuration after a miss keeps the caches coherent:
   * the configuration is the cached contents of its file, or the file just
   * read (and now cached), or empty when there is no file.
   */
  lemma MissCoherent<K, V>(st: ConfigState<K, V>, st': ConfigState<K, V>, read: string -> ConfigDict<V>, key: K,
                           file: Option<string>, conf: ConfigDict<V>)
    requires Coherent(st, read)
    requires file.Some? && file.value in st.perFile ==> conf == st.perFile[file.value] && st'.perFile == st.perFile
    requires file.Some? && file.value !in st.perFile ==> conf == read(file.value) && st'.perFile == st.perFile[file.value := conf]
    requires file.None? ==> conf == map[] && st'.perFile == st.perFile
    requires st'.perModule == st.perModule[key := conf]
    ensures Coherent(st', read)
  {
    var perFile := st'.perFile;
    if file.Some? {
      assert file.value in perFile && conf == perFile[file.value];
    }
    CacheModule(st, read, key, conf, perFile);
    CoherentCaches(st.(perModule := st.perModule[key := conf], perFile := perFile), st', read);
  }

  /**
   * With coherent caches, the configuration a module gets for the first time
   * is the contents of its nearest file, or empty when there is none: the
   * file cache never changes an answer.
   */
  lemma FirstLookupReadsNearest<K, V>(st: ConfigState<K, V>, key: K, dir: string, fs: FileSystem,
                                      read: string -> ConfigDict<V>, version: Version)
    requires Coherent(st, read)
    requires key !in st.disabled && key !in st.perModule
    ensures var r := GetConfig(st, key, dir, false, fs, read, false, version);
      var file := FindConfigFile(dir, fs);
      && r.Ok?
      && r.value.0 == (if file.Some? then read(file.value) else map[])
  {
  }

  /**
   * Disabling is permanent: after any call with `disable` set, every later
   * call for the same module answers empty, whatever the filesystem.
   */
  lemma DisableSticky<K, V>(st: ConfigState<K, V>, key: K, dir: string, fs: FileSystem,
                            read: string -> ConfigDict<V>, failOnMissing: bool, version: Version,
                            dir2: string, disable2: bool, fs2: FileSystem, failOnMissing2: bool)
    ensures var first := GetConfig(st, key, dir, true, fs, read, failOnMissing, version);
      && first.Ok?
      && GetConfig(first.value.1, key, dir2, disable2, fs2, read, failOnMissing2, version) == Ok((map[], first.value.1))
  {
  }

  /**
   * A module's configuration is fixed by its first successful lookup: later
   * lookups without `disable` return it unchanged and change nothing, even if
   * the files have since changed.
   */
  lemma LookupStable<K, V>(st: ConfigState<K, V>, key: K, dir: string, fs: FileSystem,
                           read: string -> ConfigDict<V>, failOnMissing: bool, version: Version,
                           dir2: string, fs2: FileSystem, read2: string -> ConfigDict<V>, failOnMissing2: bool)
    requires key !in st.disabled
    ensures var first := GetConfig(st, key, dir, false, fs, read, failOnMissing, version);
      first.Ok? ==> GetConfig(first.value.1, key, dir2, false, fs2, read2, failOnMissing2, version) == first
  {
  }

  /**
   * `get_config_value`: the value under `configKey` in the `pytest_helper`
   * section of the module's configuration, or `default` when the section or
   * the key is absent.
   */
  function GetConfigValue<K, V>(st: ConfigState<K, V>, configKey: string, default: V, key: K, dir: string,
                                fs: FileSystem, read: string -> ConfigDict<V>, version: Version)
    : (r: Result<(V, ConfigState<K, V>)>)
    ensures var c := GetConfig(st, key, dir, false, fs, read, FailOnMissingConfig, version);
      && r.Ok?
      && c.Ok?
      && r.value.1 == c.value.1
      && (SectionName in c.value.0 && configKey in c.value.0[SectionName] ==> r.value.0 == c.value.0[SectionName][configKey])
      && (SectionName !in c.value.0 || configKey !in c.value.0[SectionName] ==> r.value.0 == default)
  {
    var c := GetConfig(st, key, dir, false, fs, read, FailOnMissingConfig, version);
    if c.Err? then assert false; Err(MissingConfigFile)
    else
      var conf := c.value.0;
      if SectionName in conf && configKey in conf[SectionName] then Ok((conf[SectionName][configKey], c.value.1))
      else Ok((default, c.value.1))
  }

  /** A disabled module always gets the default. */
  lemma DisabledGetsDefault<K, V>(st: ConfigState<K, V>, configKey: string, default: V, key: K, dir: string,
                                  fs: FileSystem, read: string -> ConfigDict<V>, version: Version)
    requires key in st.disabled
    ensures GetConfigValue(st, configKey, default, key, dir, fs, read, version) == Ok((default, st))
  {
  }
}
