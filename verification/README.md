# pytest-helper, modelled in Dafny

pytest-helper is a small Python library of conveniences for running pytest
from inside the module under test. This project models its core as pure
functions over immutable values:

- **Namespace promotion.** `locals_to_globals` copies a test function's locals
  into its module's globals and records the copied names in a tracking list.
  `clear_locals_from_globals` deletes exactly the tracked names. There are two
  variants:
  - the current one, in which `noclobber` spares tracked names;
  - the legacy one, shared by the two older files, which has `auto_clear` and
    rejects any existing global.
- **`autoimport` / `auto_import`.** These insert a fixed list of names into
  the globals. The insertion is fail-fast and checks `noclobber`.
- **`unindent`.** Cuts a fixed-width whitespace prefix off the inner lines of
  a string.
- **`sys_path` and `restore_previous_sys_path`.** Builds the list of directories
  to add, with the `..` chain for `add_gn_parent`. It then inserts their
  canonical forms into `sys.path`, skipping entries already present, and keeps
  one saved copy for restoring. All three versions are modelled.
- **`get_calling_module_info`.** The process-wide cache of module name, path,
  directory and package flag.
- **`script_run`.** The plan of pytest calls: the early returns, the argument
  list, test path resolution, `--pyargs`, and one call versus one call per
  path. Both the current planner and the earlier string-based one are modelled.
- **The configuration file handler.** The upward search for
  `pytest_helper.ini`, the sticky disable flag, the per-module and per-file
  caches, and the section/key lookup with a default.
- **`set_package_attribute`.** The package name of a script run from inside a
  package.

Python's process-wide state (module globals, `sys.path`, the caches) is
threaded through the functions explicitly. An exception raised before
anything changed is a `Result.Err`. An exception raised part-way through a
loop that has already written (there is no rollback) is an `Effect.Raised`
that carries the partial state.

Foreign behaviour enters as parameters:
- `str.isalpha` is a predicate `isAlpha`;
- `os.path.expanduser`, `realpath` and `abspath` are the three functions of
  `Paths.Os`;
- the filesystem is a set of existing directories and a set of existing files;
- stack introspection is replaced by its results: the caller's locals, its
  parameter names, and the module found.

POSIX `os.path.split`, `dirname` and `join`, Python's `str.split()`,
`str.split(sep)`, `str.join`, `str.isspace` and slice/insert index clamping
are modelled exactly.

Where the code and its documentation differ, the model follows the code:
- The current promotion appends every written name to the tracking list, with
  no duplicate check.
- `script_run` in the current version never restores `sys.path`: that code is
  commented out.
- The current configuration handler raises a name it never imports. Its
  missing-file error would therefore surface as a `NameError`.
- `sys_path` inserts each directory with `list.insert`, walking the list
  backwards, so an `insert_position` outside the list does not keep one block.
  A position far below zero is clamped to the front at every step, and the
  directories end up at the front in their given order. A position at or past
  the end at every step appends, so they end up at the end in reverse order.
  Between those bands the order depends on how the clamped index moves as the
  list grows. For example, position 2 on `["p"]` with `a, b, c` gives
  `["p", "c", "a", "b"]`.

## Model

| member | source | states |
|---|---|---|
| Namespaces.DeleteAll | src/pytest_helper/pytest_helper_main.py:479-483 | deleting the tracked names, ignoring absent and repeated ones, removes exactly those keys |
| Namespaces.ClearTracked | src/pytest_helper/pytest_helper_main.py:477-484 | clearing leaves an empty tracking list, removes exactly the tracked names and keeps every other global's value |
| Namespaces.CopyLocals | src/pytest_helper/pytest_helper_main.py:455-466 | the copy loop only adds keys, extends the tracking list at its end, and without `noclobber` can only fail on an empty name |
| Namespaces.CopyLocalsClobber | src/pytest_helper/pytest_helper_main.py:460-464 | a clobber refusal names a promotable local that is already global; under the current rule that global is untracked and keeps its value |
| Namespaces.CopyLocalsDone | src/pytest_helper/pytest_helper_main.py:455-466 | a completed copy tracks exactly the promoted names in order with repeats, adds exactly those keys, leaves other globals untouched, and gives each promoted name its last local value |
| Namespaces.CopyLocalsRaised | src/pytest_helper/pytest_helper_main.py:455-466 | a failed copy has written every local before the failing one (no rollback) and reports that local's error |
| Namespaces.CopyLocalsFailsIff | src/pytest_helper/pytest_helper_main.py:456-464 | with distinct local names, the copy fails exactly when some local has an empty name or is a protected global |
| Namespaces.NoClobberDone | src/pytest_helper/pytest_helper_main.py:460-465 | a completed `noclobber` copy promoted no protected global |
| Namespaces.ClearAfterCopy | src/pytest_helper/pytest_helper_main.py:455-484 | clearing after a completed `noclobber` copy gives the same namespace as clearing before it |
| Namespaces.TrackedNamesDone | src/pytest_helper/pytest_helper_main.py:460-466 | re-promoting names that are all tracked never fails under the current rule |
| Namespaces.RejectsIgnoresRecord | src/pytest_helper/pytest_helper.py:379-387 | under the legacy rule the outcome does not depend on the tracking list |
| MainPromotion.LocalsToGlobals | src/pytest_helper/pytest_helper_main.py:438-466 | promotion always leaves a tracking list; without `noclobber` it cannot be refused; without `clear` it only adds globals |
| MainPromotion.Clear | src/pytest_helper/pytest_helper_main.py:469-484 | clearing is a no-op without a record, else removes exactly the tracked names and empties the list |
| MainPromotion.ClearIdempotent | src/pytest_helper/pytest_helper_main.py:469-484 | clearing twice is clearing once |
| MainPromotion.ClearUndoesPromotion | src/pytest_helper/pytest_helper_main.py:448-484 | after a completed `noclobber` promotion, clearing leaves the original globals minus the previously tracked names, with their original values |
| MainPromotion.PromoteClearRoundTrip | src/pytest_helper/pytest_helper_main.py:448-484 | with nothing tracked before, promotion followed by clearing restores the globals exactly |
| MainPromotion.ClearingPromotionIdempotent | src/pytest_helper/pytest_helper_main.py:448-466 | repeating a completed `clear=True, noclobber` promotion gives the same namespace |
| MainPromotion.RepromoteWithoutClear | src/pytest_helper/pytest_helper_main.py:460-466 | promoting the same locals again without `clear` succeeds even under `noclobber` and appends the names to the tracking list a second time |
| MainPromotion.OverwriteTracks | src/pytest_helper/pytest_helper_main.py:460-466 | without `noclobber`, every promoted name ends up global and tracked, overwritten ones included |
| LegacyPromotion.LocalsToGlobals | src/pytest_helper/pytest_helper.py:361-388 | a non-empty record without `auto_clear` is refused before any write; a clobber refusal names a global present in the state |
| LegacyPromotion.Clear | src/pytest_helper/pytest_helper.py:390-402 | clearing fails with a `KeyError` exactly when no record exists, else removes the tracked names and empties the list |
| LegacyPromotion.ClearUndoesPromotion | pytest_helper/pytest_helper.py:304-345 | after a completed `noclobber` promotion, clearing restores the globals as they were once the old record was cleared |
| LegacyPromotion.AutoClearIdempotent | pytest_helper/pytest_helper.py:311-330 | repeating a completed auto-clearing `noclobber` promotion gives the same namespace |
| LegacyPromotion.SecondCallNeedsClear | src/pytest_helper/pytest_helper.py:368-373 | a second promotion without `auto_clear` after one that copied something is refused and changes nothing |
| AutoImport.Insert | src/pytest_helper/pytest_helper.py:455-467 | insertion only adds keys, never touches skipped names, cannot fail without `noclobber`, and a refusal names an existing, unskipped name |
| AutoImport.InsertRaised | src/pytest_helper/pytest_helper.py:455-467 | a refusal happens at an unskipped entry whose name is already global; the globals left behind are exactly what inserting the entries before it gives, so those stay inserted and the refused one is the first present |
| AutoImport.InsertDone | src/pytest_helper/pytest_helper.py:455-467 | a completed insertion adds exactly the unskipped names, each with the value of its last entry, and leaves the rest unchanged |
| AutoImport.InsertFailsIff | src/pytest_helper/pytest_helper.py:457-461 | with distinct names, a `noclobber` insertion fails exactly when an unskipped name is already global |
| AutoImport.NoClobberDone | src/pytest_helper/pytest_helper.py:457-461 | a completed `noclobber` insertion overwrote no existing global |
| AutoImport.InsertRaisedName | src/pytest_helper/pytest_helper.py:457-460 | the name a refusal reports is one of the entries |
| AutoImport.InsertNamesRaised | src/pytest_helper/pytest_helper_main.py:559-574 | a refused insertion of named objects stopped at an unskipped name already global, and the names before it stay inserted |
| AutoImport.InsertNamesOutcome | src/pytest_helper/pytest_helper_main.py:559-574 | for distinct names a `noclobber` insertion fails exactly when an unskipped one exists; on success the globals are the old ones plus the unskipped names with their objects |
| AutoImport.InsertNamesOverwrite | src/pytest_helper/pytest_helper_main.py:559-574 | without `noclobber` every unskipped name ends up bound to its object |
| AutoImport.AutoimportOutcome | src/pytest_helper/pytest_helper_main.py:515-574 | the current `autoimport` fails exactly when one of its ten unskipped default names exists, and otherwise binds them all |
| AutoImport.Autoimport | src/pytest_helper/pytest_helper_main.py:559-574 | a refusal happens only under `noclobber` and names one of the ten defaults |
| AutoImport.AutoimportRaised | src/pytest_helper/pytest_helper_main.py:559-574 | a refused `autoimport` stopped at the first unskipped default already global; the defaults before it stay inserted |
| AutoImport.LegacyDefaultImports | src/pytest_helper/pytest_helper.py:413-421 | the legacy default list is the eight names in their fixed order, each paired with its object |
| AutoImport.LegacyAutoImport | src/pytest_helper/pytest_helper.py:454-467 | the legacy insertion cannot fail without `noclobber`, and a refusal names an existing, unskipped name |
| AutoImport.LegacyAutoImportRaised | src/pytest_helper/pytest_helper.py:454-467 | a refused legacy `auto_import` stopped at the first unskipped import already global; the imports before it stay inserted |
| AutoImport.OldestAutoImport | pytest_helper/pytest_helper.py:179-204 | the oldest insertion of seven fixed names fails only under `noclobber`, naming one of them |
| AutoImport.OldestAutoImportRaised | pytest_helper/pytest_helper.py:179-204 | a refused oldest `auto_import` stopped at the first of its names already global; the names before it stay inserted |
| Unindent.Unindent | src/pytest_helper/pytest_helper_main.py:500-513 | fewer than two lines is an error; an inner line whose cut prefix holds non-whitespace is an error and the first one is reported; otherwise the result's lines are the inner lines with the prefix cut |
| Unindent.UnindentIndented | src/pytest_helper/pytest_helper_main.py:500-513 | unindenting a framed block indented by whitespace of the same width gives back the block |
| SysPath.ParentChain | src/pytest_helper/pytest_helper_main.py:301-304 | the `add_gn_parent` chain for `n` has exactly `n + 1` components `..` |
| SysPath.ParentChainJoin | src/pytest_helper/pytest_helper_main.py:302-303 | each loop step of joining `..` lengthens the chain by one |
| SysPath.GnDir | src/pytest_helper/pytest_helper_main.py:291-304 | `add_gn_parent` adds nothing when not given, a chain for `n >= 0`, and raises for literal `True`, a negative number or a `TypeError` from `int` |
| SysPath.GnZero | pytest_helper/pytest_helper.py:121-134 | an argument of `0` adds the parent under the `is not False` test and nothing under the truth-value test |
| SysPath.DirsToAdd | src/pytest_helper/pytest_helper_main.py:283-306 | the directories to add are the given ones, then `..`, `../..`, the chain and `.`, each when requested; only `add_gn_parent` can make this fail |
| SysPath.ResolveIdempotent | src/pytest_helper/pytest_helper_main.py:308-320 | every directory handed to `sys.path` is already canonical: resolving the resolved list again, against any module directory, gives it back (for real path services) |
| SysPath.InsertAt | src/pytest_helper/pytest_helper_main.py:317 | `list.insert` with Python's index clamping adds exactly one element and keeps the rest in order |
| SysPath.InsertBackwardsElems | src/pytest_helper/pytest_helper_main.py:313-321 | the backwards insertion loop leaves exactly the old entries plus the new directories, and adds at most one entry per directory |
| SysPath.InsertForwardsElems | src/pytest_helper/pytest_helper.py:225-233 | the forwards insertion loop leaves exactly the old entries plus the new directories, and adds at most one entry per directory |
| SysPath.InsertBackwardsShape | src/pytest_helper/pytest_helper_main.py:313-321 | for a position inside the list, the new directories form one block at that position, in input order, and the old entries keep their order around it |
| SysPath.InsertBackwardsClampLow | src/pytest_helper/pytest_helper_main.py:313-321 | a position far enough below zero that `list.insert` clamps it to the front at every step inserts as position 0 does |
| SysPath.InsertBackwardsBelow | src/pytest_helper/pytest_helper_main.py:313-321 | at such a position the new directories form one block at the front, in input order |
| SysPath.InsertBackwardsAbove | src/pytest_helper/pytest_helper_main.py:313-321 | a position at or past the end at every step appends the new directories after the old list in reverse order |
| SysPath.InsertForwardsShape | src/pytest_helper/pytest_helper.py:225-233 | inserting at the front puts the new directories before the old list, in reverse order of first occurrence |
| SysPath.Restore | src/pytest_helper/pytest_helper_main.py:324-330 | restoring puts the saved copy back and forgets it, and does nothing when there is none |
| SysPath.RestoreOnce | src/pytest_helper/pytest_helper_main.py:324-330 | a second restore does nothing |
| SysPath.SysPathMain | src/pytest_helper/pytest_helper_main.py:279-321 | `sys_path` raises what the module lookup raises, then fails only on a bad `add_gn_parent`; otherwise it saves the old list, the new list holds exactly the old entries and the directories resolved against the module's directory, and they form one ordered block at a position inside the list, one ordered block at the front for a position far below zero, and a reversed tail for a position far past the end |
| SysPath.SysPathLegacy | src/pytest_helper/pytest_helper.py:181-233 | the intermediate `sys_path` raises what the module lookup raises, then fails only on a bad `add_gn_parent`, and puts the new directories at the front |
| SysPath.OldestModDir | pytest_helper/pytest_helper.py:110-111 | the oldest version reads paths against the supplied directory, and looks the module up, raising what the lookup raises, only when none is supplied |
| SysPath.SysPathOldest | pytest_helper/pytest_helper.py:110-151 | the oldest `sys_path` raises a failed lookup only when no directory is supplied, tests `add_gn_parent` by truth value and puts the new directories at the front |
| SysPath.RestoreUndoesMain | src/pytest_helper/pytest_helper_main.py:310-330 | restoring right after a successful `sys_path` gives back the list from before it |
| SysPath.RestoreAfterTwoCalls | src/pytest_helper/pytest_helper_main.py:310-330 | after two successful `sys_path` calls, whatever their arguments, restoring goes back only to the list as the first call left it |
| ModuleInfo.GetCallingModuleInfo | src/pytest_helper/pytest_helper_main.py:639-672 | the only errors are a `KeyError` exactly for an unknown `module_name`, an `AttributeError` exactly when an uncached module looked up without a path has no `__file__` (an interactive `__main__`, a built-in module, a namespace package), and, under `check_exists`, a missing directory; without `check_exists` a known module that has a `__file__` or needs none always succeeds; every success, a cache hit included, leaves the cache with the returned tuple filed under the name used and every other entry untouched; a cache whose tuples sit under their own names and hold their path's directory stays so |
| ModuleInfo.FirstLookupCanonical | src/pytest_helper/pytest_helper_main.py:644-672 | a first lookup without a path raises `AttributeError` when the module has no `__file__`, and otherwise uses the canonical absolute `__file__`, its dirname, and `in_pkg` iff `__init__.py` is there, and fails exactly when that directory is missing under `check_exists` |
| ModuleInfo.LookupStable | pytest_helper/pytest_helper.py:416-439 | after a successful lookup, any later lookup of the name without a path returns the same tuple and leaves the cache alone |
| ModuleInfo.ExplicitPathOverrides | src/pytest_helper/pytest_helper.py:537-560 | an explicit path bypasses the cache and overwrites the name's entry, leaving other entries alone |
| ScriptRun.ArgList | src/pytest_helper/pytest_helper_main.py:184-192 | no arguments give an empty list, a string is split into its whitespace-free words, and a list is kept |
| ScriptRun.PathList | src/pytest_helper/pytest_helper_main.py:207-210 | a single test path is a list of one and is never split |
| ScriptRun.Arguments | src/pytest_helper/pytest_helper_main.py:195-202 | the configured argument list replaces the passed one, and the configured extra arguments are appended, with nothing in between |
| ScriptRun.TestPaths | src/pytest_helper/pytest_helper_main.py:212-225 | test paths, plus the module's own under `self_test`, are made absolute against the module directory, except that with `pyargs` a path with no slash is passed through |
| ScriptRun.WithPyargs | src/pytest_helper/pytest_helper_main.py:228-229 | `--pyargs` is present whenever `pyargs` is set and is appended only if missing |
| ScriptRun.CallCarriesUnique | src/pytest_helper/pytest_helper_main.py:228-237 | a call is fixed element by element by the arguments, the `--pyargs` decision and the paths |
| ScriptRun.PytestCalls | src/pytest_helper/pytest_helper_main.py:232-237 | there is one call with every path, or one call per path, each starting with the argument list |
| ScriptRun.ScriptRun | src/pytest_helper/pytest_helper_main.py:171-239 | `skip` and `pskip` return first; a non-`__main__` caller without `always_run` makes no call; a `__main__` or `always_run` caller with a successful lookup always gets a run plan, and each of its calls is exactly the arguments, then `--pyargs` when requested and missing, then the paths (or one path per call), and `sys.path[0]` is dropped exactly when asked or, by default, inside a package |
| ScriptRun.CommandString | src/pytest_helper/pytest_helper.py:141-144 | the earlier command string is the argument string, a space and the path, or the path alone |
| ScriptRun.LegacyScriptRun | src/pytest_helper/pytest_helper.py:118-150 | the earlier `script_run` makes no call for a non-`__main__` caller without `always_run`, and a `__main__` or `always_run` caller with a successful lookup always gets calls: one per path, with the configured or passed argument string |
| ScriptRun.LegacyCallsMatchCurrent | pytest_helper/pytest_helper.py:75-81 | split on whitespace, each earlier command string is the current per-path call when no path is empty or holds whitespace |
| Config.FirstIn | src/pytest_helper/config_file_handler.py:72-75 | within one directory the allowed names are tried in order, and a name is found exactly when its file exists |
| Config.Search | src/pytest_helper/config_file_handler.py:68-80 | the search finds nothing exactly when no directory on the way up holds a configuration file, and otherwise answers the file of the first directory that holds one |
| Config.SearchSkip | src/pytest_helper/config_file_handler.py:72-80 | leaving out leading directories that hold no configuration file does not change what the search finds |
| Config.FindConfigFile | src/pytest_helper/config_file_handler.py:56-83 | the file found is the one in the nearest directory, from the module's own up to the root, that has one; there is none exactly when no such directory has one |
| Config.AncestorsSuffix | src/pytest_helper/config_file_handler.py:77-80 | the directories searched from an ancestor are the tail of those searched from below it |
| Config.SharedConfigFile | src/pytest_helper/config_file_handler.py:64-80 | every directory between a module and its configuration file finds that same file |
| Config.NearestWins | src/pytest_helper/config_file_handler.py:72-75 | a file in the module's own directory wins |
| Config.Lookup | src/pytest_helper/config_file_handler.py:141-174 | the only error is the missing file when that is set to fail; a disabled module gets `{}`; the disabled set only grows, by the key when `disable` is set; no entry of either cache is changed or dropped, and the only new ones are the module's and its file's; the answer is `{}` or what the module's entry now holds |
| Config.MissReadsOnce | src/pytest_helper/config_file_handler.py:155-172 | on a per-module miss a file read before is taken from the file cache, a new file is read once and cached, no file gives `{}`, and the module's entry holds the answer |
| Config.GetConfigCoherent | src/pytest_helper/config_file_handler.py:152-172 | the caches stay consistent with the files' contents |
| Config.CacheModule | src/pytest_helper/config_file_handler.py:158-172 | caching a module's configuration and its file keeps the caches consistent |
| Config.MissCoherent | src/pytest_helper/config_file_handler.py:155-172 | on a per-module cache miss, storing the dictionary that was reused, read or defaulted keeps both caches consistent with the files |
| Config.FirstLookupReadsNearest | src/pytest_helper/config_file_handler.py:155-172 | with consistent caches, a module's first lookup returns exactly its nearest file's contents, or empty |
| Config.DisableSticky | src/pytest_helper/config_file_handler.py:145-150 | once a module is disabled, every later lookup for it answers empty |
| Config.LookupStable | src/pytest_helper/config_file_handler.py:152-153 | a module's configuration is fixed by its first successful lookup |
| Config.GetConfigValue | src/pytest_helper/config_file_handler.py:176-189 | the value is the one under the key in section `pytest_helper`, or the default when the section or key is missing |
| Config.DisabledGetsDefault | src/pytest_helper/config_file_handler.py:145-189 | a disabled module always gets the default |
| PackageAttr.WalkAsWritten | pytest_helper/set_package_attribute.py:73-75 | the loop as written, given a step budget, records at most one name per step and stops only at a non-package directory |
| PackageAttr.WalkAsWrittenLoopsAtRoot | pytest_helper/set_package_attribute.py:73-75 | with `/__init__.py` present, the loop from `/` never finishes |
| PackageAttr.Walk | pytest_helper/set_package_attribute.py:73-75 | the intended walk always ends, at a directory that is not a package directory or at the root |
| PackageAttr.WalkFollowsAncestors | pytest_helper/set_package_attribute.py:73-75 | the names collected are those of the first directories upward from the script's, each a package directory, and the walk stops at the first non-package directory or at the root |
| PackageAttr.FollowsChainCons | pytest_helper/set_package_attribute.py:73-75 | each loop step that records a package directory's name extends a walk along the chain above it |
| PackageAttr.WalkAsWrittenAgrees | pytest_helper/set_package_attribute.py:73-75 | whenever the chain of package directories ends below the root, the loop as written gives the same answer |
| PackageAttr.SetPackageAttribute | pytest_helper/set_package_attribute.py:56-88 | nothing changes without `__main__` or with `__package__` already set; a `__main__` without `__file__` raises `AttributeError`; outside a package nothing changes; otherwise the name is the dotted top-down join and the retry directory is where the walk stopped |
| PackageAttr.PackageNameComponents | pytest_helper/set_package_attribute.py:73-81 | the dotted name has one component per step, top-down, ending with the script directory's name |
| PyStr.SplitOnPieces | src/pytest_helper/pytest_helper_main.py:500-512 | no piece of `str.split(sep)` holds the separator |
| PyStr.SplitJoin | src/pytest_helper/pytest_helper_main.py:500-512 | splitting a join of separator-free parts gives the parts back |
| PyStr.Words | src/pytest_helper/pytest_helper.py:143-144 | `str.split()` yields non-empty words without whitespace that together hold exactly the non-whitespace characters |
| PyStr.WordsAroundSpace | src/pytest_helper/pytest_helper.py:143-144 | whitespace splitting of `a + " " + b` is the words of `a` followed by those of `b` |
| Paths.Split | src/pytest_helper/config_file_handler.py:77 | `os.path.split` gives a separator-free tail and a strictly shorter head whenever the tail is non-empty |
| Paths.AncestorsStep | src/pytest_helper/config_file_handler.py:77-80 | each directory the upward walk visits after the first is the head of the split of the one before, taken only while that split had a non-empty tail |
| Paths.ExpandRelative | src/pytest_helper/pytest_helper_main.py:580-590 | the result is always a canonical path, and a path that is absolute after `~` expansion is only canonicalised |
| Paths.ExpandRelativeIdempotent | src/pytest_helper/pytest_helper_main.py:580-590 | expanding an already expanded path gives it back, whatever base it is read against |
| Paths.ExpandRelativeBase | src/pytest_helper/pytest_helper_main.py:587-590 | a relative base is first made absolute: reading against it is reading against its canonical absolute form |

## Left out

- Stack introspection (`inspect`, the `level` arguments, `get_calling_fun_*`,
  `get_calling_module`, `view_locals_up_stack`, `show_globals`) is replaced by
  its results as inputs. The introspected globals are assumed to be the
  namespace passed in.
- The `if not fun_locals` fallback is not modelled: it would introspect when
  an empty dict of locals is passed.
- `pytest.main` and `sys.exit` are external. `script_run` returns the calls it
  would make and the exit flag.
- `set_package_attribute.init` and `_delete_sys_path_0` are not part of this
  model. `script_run` reports that `sys.path[0]` would be dropped.
- `read_and_eval_config_file` parses the file with ConfigParser and evaluates
  each value. It is the parameter `read`, and its errors are not modelled.
- The configuration overrides of arguments in `sys_path`, `autoimport` and
  `script_run` come in as already-read values.
- `init`, `global_settings` and the package `__init__` hold orchestration,
  constants and re-exports only.
- `__import__`, the `sys.path` retry insert and the `sys.modules` update in
  `set_package_attribute` are foreign. The model returns the name and the
  directory the retry would insert.
- `os.path.expanduser`, `realpath` and `abspath` depend on the home
  directory, symbolic links and the working directory. They are uninterpreted
  functions.
- Unicode `str.isalpha` is an uninterpreted predicate. `str.isspace` is
  modelled for the ASCII and Unicode whitespace characters Python lists.
- Aliasing is not modelled: mutating a caller-supplied list
  (`dirs_to_add.append`, `testfile_paths.append`, `pytest_arglist +=`) is
  invisible to the caller here.
- A local whose name is the reserved record key is not modelled, because the
  record is kept apart from the globals.
- The stray `test_config` functions are not modelled.
- ScriptRun.LegacyScriptRun: pytest splits a string argument with shell-like
  rules. The model keeps the string, and relates it to the current version
  only through whitespace splitting.
- ScriptRun.ScriptRun: the module lookup's outcome is an input rather than
  recomputed, since ModuleInfo.GetCallingModuleInfo models it. The same holds
  for SysPath.SysPathMain, SysPath.SysPathLegacy and SysPath.OldestModDir.
- AutoImport.Autoimport: the module lookup and configuration reads that come
  before any insertion are not modelled. A failure there raises before
  anything is written. The same holds for AutoImport.LegacyAutoImport.
- SysPath.SysPathMain: no order is stated for an `insert_position` outside
  the list but within the number of added directories of either end. There
  the clamped index moves as the list grows, and only the membership facts
  cover it.
- SysPath.InsertBackwardsShape: covers positions inside the list only.
  InsertBackwardsBelow and InsertBackwardsAbove cover the two far bands, and
  the band between is left out as above.
- Paths.ExpandRelativeIdempotent: this and ExpandRelativeBase hold only for
  path services that behave like a real system's (`Paths.Canonicalising`).
  Canonical paths are absolute, canonicalising is idempotent, and canonical
  paths have no `~`.
- SysPath.ResolveIdempotent: holds under the same `Paths.Canonicalising`
  assumption.
- Config.GetConfig: its contract is carried by Config.Lookup, which takes the
  file that GetConfig finds. The cache key is whatever the caller passes, which is a
  path in the earlier versions and the module object in the current one. It
  is a type parameter.

## Findings

| source | as written | input that shows it | evidently intended | confidence | as-written member | corrected member |
|---|---|---|---|---|---|---|
| pytest_helper/set_package_attribute.py:73-75 | the upward walk runs while the directory holds `__init__.py`. At `/`, `os.path.split` returns `/` again with an empty name, so the loop never ends and keeps appending empty names. | a script whose chain of package directories reaches `/`, with `/__init__.py` present | stop at the root, as the configuration search does when the split tail is empty | not executed; medium (needs a package marker at `/`) | PackageAttr.WalkAsWrittenLoopsAtRoot | PackageAttr.Walk |
