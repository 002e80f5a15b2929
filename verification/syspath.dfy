/**
 * `sys_path` and `restore_previous_sys_path` in the three versions of the
 * helper.
 *
 * The directories to add are gathered from the arguments (an explicit list
 * or string, the parent, the grandparent, the (grand)^n parent, the module's
 * own directory) and made canonical and absolute. Those not yet on
 * `sys.path` are then inserted. The current version inserts at
 * `insert_position`, walking the list backwards. The earlier versions insert
 * at the front, walking forwards. Each call first saves a copy of
 * `sys.path`, which one later restore puts back.
 */
module SysPath {
  import opened Common
  import opened Paths
  import opened PyStr
  import opened ModuleInfo

  /** What Python's `int(x)` does with the argument. */
  datatype IntConversion = Converts(n: int) | RaisesTypeError | RaisesValueError

  /**
   * The `add_gn_parent` argument: a literal bool, or any other object with
   * its truth value and its conversion by `int`.
   */
  datatype GnParent = Literal(b: bool) | Other(truthy: bool, asInt: IntConversion)

  /**
   * How the argument is checked for being given: the two later versions test
   * `is not False`, the oldest its truth value.
   */
  datatype GnTest = IsNotFalse | Truthy

  function IsTruthy(gn: GnParent): bool {
    if gn.Literal? then gn.b else gn.truthy
  }

  /** `".."` joined with `n` further `".."` components. */
  function ParentChain(n: nat): (r: string)
    ensures |r| >= 2 && r[|r| - 1] == '.'
    ensures SplitOn(r, Sep) == Repeat("..", n + 1)
  {
    if n == 0 then
      SplitWithoutSep("..", Sep);
      assert Repeat("..", 1) == Repeat("..", 0) + [".."];
      ".."
    else
      var prev := ParentChain(n - 1);
      SplitAround(prev, "..", Sep);
      SplitWithoutSep("..", Sep);
      prev + [Sep] + ".."
  }

  /** `os.path.join` of a chain with one more `".."` is the next chain. */
  lemma ParentChainJoin(n: nat)
    ensures Join(ParentChain(n), "..") == ParentChain(n + 1)
  {
  }

  /**
   * The directory `add_gn_parent` contributes: none when the argument is not
   * given, `n + 1` components of `".."` for a non-negative integer `n`, and
   * an error for a literal `True`, a negative number or an object `int`
   * rejects with `TypeError`. `int`'s `ValueError` escapes unchanged.
   */
  function GnDir(gn: GnParent, test: GnTest): (r: Result<Option<string>>)
    ensures gn == Literal(false) ==> r == Ok(None)
    ensures test == Truthy && !IsTruthy(gn) ==> r == Ok(None)
    ensures (test == IsNotFalse || IsTruthy(gn)) && gn != Literal(false) ==>
      match gn
      case Literal(_) => r == Err(BadGnParent)
      case Other(_, RaisesTypeError) => r == Err(BadGnParent)
      case Other(_, RaisesValueError) => r == Err(ValueError)
      case Other(_, Converts(n)) =>
        (n < 0 ==> r == Err(BadGnParent)) &&
        (n >= 0 ==> r.Ok? && r.value.Some? && SplitOn(r.value.value, Sep) == Repeat("..", n + 1))
  {
    if gn == Literal(false) || (test == Truthy && !IsTruthy(gn)) then Ok(None)
    else
      match gn
      case Literal(_) => Err(BadGnParent)
      case Other(_, RaisesTypeError) => Err(BadGnParent)
      case Other(_, RaisesValueError) => Err(ValueError)
      case Other(_, Converts(n)) => if n < 0 then Err(BadGnParent) else Ok(Some(ParentChain(n)))
  }

  /** The difference between the two tests: an argument of `0` adds the parent only under `is not False`. */
  lemma GnZero()
    ensures GnDir(Other(false, Converts(0)), IsNotFalse) == Ok(Some(".."))
    ensures GnDir(Other(false, Converts(0)), Truthy) == Ok(None)
  {
  }

  /** A single string stands for a list of one path; no argument for an empty list. */
  function BaseDirs(dirs: StrOrList): seq<string> {
    match dirs
    case Absent => []
    case One(s) => [s]
    case Many(items) => items
  }

  /**
   * The relative directories to add, in order: the given ones, then `".."`,
   * `"../.."`, the `add_gn_parent` chain and `"."`, each when requested.
   * Only the `add_gn_parent` argument can make this fail.
   */
  function DirsToAdd(dirs: StrOrList, addParent: bool, addGrandparent: bool, gn: GnParent, addSelf: bool,
                     test: GnTest): (r: Result<seq<string>>)
    ensures r.Err? <==> GnDir(gn, test).Err?
    ensures r.Err? ==> r.error == GnDir(gn, test).error
    ensures r.Ok? ==>
      var extra := (if addParent then [".."] else []) + (if addGrandparent then ["../.."] else [])
        + (if GnDir(gn, test).value.Some? then [GnDir(gn, test).value.value] else [])
        + (if addSelf then ["."] else []);
      r.value == BaseDirs(dirs) + extra
  {
    var gnDir := GnDir(gn, test);
    if gnDir.Err? then Err(gnDir.error)
    else
      var grandparent := Join("..", "..");
      assert grandparent == "../..";
      var extra := (if addParent then [".."] else []) + (if addGrandparent then [grandparent] else [])
        + (if gnDir.value.Some? then [gnDir.value.value] else [])
        + (if addSelf then ["."] else []);
      Ok(BaseDirs(dirs) + extra)
  }

  /**
   * The canonical absolute form of each directory once `~` is expanded:
   * absolute ones are only canonicalised, relative ones are read against
   * the calling module's directory.
   */
  function Resolve(dirs: seq<string>, modDir: string, os: Os): (r: seq<string>)
    ensures |r| == |dirs|
    ensures forall i :: 0 <= i < |r| ==> IsCanonical(r[i], os)
    ensures forall i :: 0 <= i < |dirs| ==>
      r[i] == (var p := os.expandUser(dirs[i]);
               if IsAbs(p) then os.realpath(p) else ExpandRelative(p, modDir, os))
  {
    var r := seq(|dirs|, i requires 0 <= i < |dirs| => ResolveOne(dirs[i], modDir, os));
    assert forall i :: 0 <= i < |r| ==> r[i] == ResolveOne(dirs[i], modDir, os);
    r
  }

  function ResolveOne(dir: string, modDir: string, os: Os): (r: string)
    ensures IsCanonical(r, os)
  {
    var p := os.expandUser(dir);
    if IsAbs(p) then os.realpath(p) else ExpandRelative(p, modDir, os)
  }

  /**
   * What `sys.path` receives is already resolved: resolving it again, against
   * any directory, gives it back.
   */
  lemma ResolveIdempotent(dirs: seq<string>, modDir: string, modDir': string, os: Os)
    requires Canonicalising(os)
    ensures Resolve(Resolve(dirs, modDir, os), modDir', os) == Resolve(dirs, modDir, os)
  {
    var r := Resolve(dirs, modDir, os);
    forall i | 0 <= i < |r| ensures Resolve(r, modDir', os)[i] == r[i] {
      assert IsCanonical(r[i], os);
      var q :| r[i] == os.realpath(q);
      assert os.expandUser(r[i]) == r[i] && IsAbs(r[i]) && os.realpath(r[i]) == r[i];
    }
  }

  /** `path.insert(pos, x)`. */
  function InsertAt(path: seq<string>, pos: int, x: string): (r: seq<string>)
    ensures |r| == |path| + 1
    ensures forall y :: y in r <==> y in path || y == x
    ensures 0 <= pos <= |path| ==> r[..pos] == path[..pos] && r[pos] == x && r[pos + 1..] == path[pos..]
  {
    var i := SliceIndex(pos, |path|);
    var r := path[..i] + [x] + path[i..];
    assert path == path[..i] + path[i..];
    r
  }

  /**
   * The elements of `dirs` that are neither in `seen` nor repeated later in
   * `dirs`, in order: what a backwards walk inserting at one place leaves.
   */
  function KeepLast(dirs: seq<string>, seen: seq<string>): seq<string>
  {
    if dirs == [] then []
    else (if dirs[0] !in seen && dirs[0] !in dirs[1..] then [dirs[0]] else []) + KeepLast(dirs[1..], seen)
  }

  /**
   * The elements of `dirs` that are neither in `seen` nor met earlier in
   * `dirs`, in order: what a forwards walk skipping present entries adds.
   */
  function KeepFirst(dirs: seq<string>, seen: seq<string>): seq<string>
  {
    if dirs == [] then []
    else
      var front := dirs[..|dirs| - 1];
      var last := dirs[|dirs| - 1];
      KeepFirst(front, seen) + (if last !in seen && last !in front then [last] else [])
  }

  /** Walk `dirs` backwards, inserting each one not yet present at `pos` (the current version). */
  function InsertBackwards(path: seq<string>, dirs: seq<string>, pos: int): seq<string>
    decreases |dirs|
  {
    if dirs == [] then path
    else
      var last := dirs[|dirs| - 1];
      var path1 := if last in path then path else InsertAt(path, pos, last);
      InsertBackwards(path1, dirs[..|dirs| - 1], pos)
  }

  /**
   * Whatever the position, the backwards walk leaves exactly the old entries
   * and the new directories, adding at most one entry per directory.
   */
  lemma {:induction false} InsertBackwardsElems(path: seq<string>, dirs: seq<string>, pos: int)
    ensures forall y :: y in InsertBackwards(path, dirs, pos) <==> y in path || y in dirs
    ensures |path| <= |InsertBackwards(path, dirs, pos)| <= |path| + |dirs|
    decreases |dirs|
  {
    if dirs != [] {
      var front := dirs[..|dirs| - 1];
      var last := dirs[|dirs| - 1];
      var path1 := if last in path then path else InsertAt(path, pos, last);
      InsertBackwardsElems(path1, front, pos);
      MembersSnoc(dirs);
    }
  }

  /** Walk `dirs` forwards, putting each one not yet present at the front (the earlier versions). */
  function InsertForwards(path: seq<string>, dirs: seq<string>): seq<string>
    decreases |dirs|
  {
    if dirs == [] then path
    else
      var path1 := if dirs[0] in path then path else [dirs[0]] + path;
      InsertForwards(path1, dirs[1..])
  }

  /** The forwards walk leaves exactly the old entries and the new directories, at most one entry per directory. */
  lemma {:induction false} InsertForwardsElems(path: seq<string>, dirs: seq<string>)
    ensures forall y :: y in InsertForwards(path, dirs) <==> y in path || y in dirs
    ensures |path| <= |InsertForwards(path, dirs)| <= |path| + |dirs|
    decreases |dirs|
  {
    if dirs != [] {
      var path1 := if dirs[0] in path then path else [dirs[0]] + path;
      InsertForwardsElems(path1, dirs[1..]);
      assert dirs == [dirs[0]] + dirs[1..];
      assert forall y :: y in dirs <==> y == dirs[0] || y in dirs[1..];
    }
  }

  /** The members of a non-empty list are those of its front and its last element. */
  lemma MembersSnoc(dirs: seq<string>)
    requires dirs != []
    ensures forall y :: y in dirs <==> y in dirs[..|dirs| - 1] || y == dirs[|dirs| - 1]
  {
    assert dirs == dirs[..|dirs| - 1] + [dirs[|dirs| - 1]];
  }

  /** Which entries `KeepLast` skips depends only on the members of `seen`. */
  lemma {:induction false} KeepLastSame(dirs: seq<string>, seen1: seq<string>, seen2: seq<string>)
    requires forall y :: y in seen1 <==> y in seen2
    ensures KeepLast(dirs, seen1) == KeepLast(dirs, seen2)
  {
    if dirs != [] {
      KeepLastSame(dirs[1..], seen1, seen2);
    }
  }

  /** Which entries `KeepFirst` skips depends only on the members of `seen`. */
  lemma {:induction false} KeepFirstSame(dirs: seq<string>, seen1: seq<string>, seen2: seq<string>)
    requires forall y :: y in seen1 <==> y in seen2
    ensures KeepFirst(dirs, seen1) == KeepFirst(dirs, seen2)
  {
    if dirs != [] {
      KeepFirstSame(dirs[..|dirs| - 1], seen1, seen2);
    }
  }

  /** Taking the last element off the walk of `KeepLast` moves it into `seen`. */
  lemma {:induction false} KeepLastSnoc(dirs: seq<string>, seen: seq<string>)
    requires dirs != []
    ensures var last := dirs[|dirs| - 1];
      KeepLast(dirs, seen) == KeepLast(dirs[..|dirs| - 1], seen + [last]) + (if last in seen then [] else [last])
    decreases |dirs|
  {
    var last := dirs[|dirs| - 1];
    var front := dirs[..|dirs| - 1];
    if |dirs| > 1 {
      var y := dirs[0];
      var rest := dirs[1..];
      assert rest[|rest| - 1] == last;
      assert rest[..|rest| - 1] == front[1..];
      KeepLastSnoc(rest, seen);
      assert front[0] == y;
      assert y in rest <==> y in front[1..] || y == last by {
        assert rest == front[1..] + [last];
      }
      assert y in seen + [last] <==> y in seen || y == last;
    }
  }

  /** Taking the first element off the walk of `KeepFirst` moves it into `seen`. */
  lemma {:induction false} KeepFirstCons(dirs: seq<string>, seen: seq<string>)
    requires dirs != []
    ensures KeepFirst(dirs, seen) == (if dirs[0] in seen then [] else [dirs[0]]) + KeepFirst(dirs[1..], [dirs[0]] + seen)
    decreases |dirs|
  {
    if |dirs| > 1 {
      var x := dirs[0];
      var front := dirs[..|dirs| - 1];
      var y := dirs[|dirs| - 1];
      var h := if x in seen then [] else [x];
      var t := if y !in seen && y !in front then [y] else [];
      var tail := dirs[1..];
      var a := KeepFirst(front[1..], [x] + seen);
      KeepFirstSnoc(dirs, seen);
      assert front[0] == x;
      KeepFirstCons(front, seen);
      assert tail[..|tail| - 1] == front[1..] && tail[|tail| - 1] == y;
      assert y in front <==> y == x || y in front[1..] by {
        assert front == [x] + front[1..];
      }
      assert y in [x] + seen <==> y == x || y in seen;
      KeepFirstSnoc(tail, [x] + seen);
      AppendAssoc(h, a, t);
    }
  }

  /** One step of `KeepFirst`: the last element is kept when it is new. */
  lemma KeepFirstSnoc(dirs: seq<string>, seen: seq<string>)
    requires dirs != []
    ensures var front := dirs[..|dirs| - 1];
      var last := dirs[|dirs| - 1];
      KeepFirst(dirs, seen) == KeepFirst(front, seen) + (if last !in seen && last !in front then [last] else [])
  {
  }

  /** Concatenation is associative. */
  lemma AppendAssoc(p: seq<string>, q: seq<string>, r: seq<string>)
    ensures (p + q) + r == p + (q + r)
  {
  }

  /**
   * Inserting backwards at a position inside the list places the new
   * directories there as one block, in their given order, each kept at its
   * last occurrence; every old entry stays where it was relative to the others.
   */
  lemma {:induction false} InsertBackwardsShape(path: seq<string>, dirs: seq<string>, pos: int)
    requires 0 <= pos <= |path|
    ensures InsertBackwards(path, dirs, pos) == path[..pos] + KeepLast(dirs, path) + path[pos..]
    decreases |dirs|
  {
    if dirs == [] {
      assert path == path[..pos] + path[pos..];
    } else {
      var last := dirs[|dirs| - 1];
      if last in path {
        InsertBackwardsShape(path, dirs[..|dirs| - 1], pos);
        BackwardsPresentStep(path, dirs, pos);
      } else {
        InsertBackwardsShape(InsertAt(path, pos, last), dirs[..|dirs| - 1], pos);
        BackwardsAbsentStep(path, dirs, pos);
      }
    }
  }

  /** One step of `InsertBackwardsShape` past a directory already present. */
  lemma BackwardsPresentStep(path: seq<string>, dirs: seq<string>, pos: int)
    requires 0 <= pos <= |path| && dirs != [] && dirs[|dirs| - 1] in path
    requires InsertBackwards(path, dirs[..|dirs| - 1], pos)
          == path[..pos] + KeepLast(dirs[..|dirs| - 1], path) + path[pos..]
    ensures InsertBackwards(path, dirs, pos) == path[..pos] + KeepLast(dirs, path) + path[pos..]
  {
    var front := dirs[..|dirs| - 1];
    var last := dirs[|dirs| - 1];
    KeepLastSnoc(dirs, path);
    KeepLastSame(front, path + [last], path);
    assert KeepLast(dirs, path) == KeepLast(front, path);
  }

  /** One step of `InsertBackwardsShape` past a new directory, which goes in at `pos`. */
  lemma BackwardsAbsentStep(path: seq<string>, dirs: seq<string>, pos: int)
    requires 0 <= pos <= |path| && dirs != [] && dirs[|dirs| - 1] !in path
    requires var path1 := InsertAt(path, pos, dirs[|dirs| - 1]);
      InsertBackwards(path1, dirs[..|dirs| - 1], pos)
        == path1[..pos] + KeepLast(dirs[..|dirs| - 1], path1) + path1[pos..]
    ensures InsertBackwards(path, dirs, pos) == path[..pos] + KeepLast(dirs, path) + path[pos..]
  {
    var front := dirs[..|dirs| - 1];
    var last := dirs[|dirs| - 1];
    var path1 := InsertAt(path, pos, last);
    KeepLastSnoc(dirs, path);
    KeepLastSame(front, path1, path + [last]);
    var k := KeepLast(front, path1);
    assert path1[pos..] == [last] + path[pos..] by {
      assert path1[pos..] == [path1[pos]] + path1[pos + 1..];
    }
    InsertShift(InsertBackwards(path, dirs, pos), path[..pos], k, last, path[pos..], KeepLast(dirs, path));
  }

  /**
   * A position so far below zero that `list.insert` clamps it to the front
   * at every step (it stays below minus the list's length however many
   * directories go in) inserts as position 0 does.
   */
  lemma {:induction false} InsertBackwardsClampLow(path: seq<string>, dirs: seq<string>, pos: int)
    requires pos <= -(|path| + |dirs|)
    ensures InsertBackwards(path, dirs, pos) == InsertBackwards(path, dirs, 0)
    decreases |dirs|
  {
    if dirs != [] {
      var last := dirs[|dirs| - 1];
      if last !in path {
        assert InsertAt(path, pos, last) == InsertAt(path, 0, last);
      }
      var path1 := if last in path then path else InsertAt(path, pos, last);
      InsertBackwardsClampLow(path1, dirs[..|dirs| - 1], pos);
    }
  }

  /**
   * Far below zero, the new directories form one block at the front in their
   * given order, each kept at its last occurrence.
   */
  lemma InsertBackwardsBelow(path: seq<string>, dirs: seq<string>, pos: int)
    requires pos <= -(|path| + |dirs|)
    ensures InsertBackwards(path, dirs, pos) == KeepLast(dirs, path) + path
  {
    InsertBackwardsClampLow(path, dirs, pos);
    InsertBackwardsShape(path, dirs, 0);
    FrontBlock(InsertBackwards(path, dirs, pos), path, KeepLast(dirs, path));
  }

  /** The list algebra behind `InsertBackwardsBelow`. */
  lemma FrontBlock(walked: seq<string>, path: seq<string>, k: seq<string>)
    requires walked == path[..0] + k + path[0..]
    ensures walked == k + path
  {
    assert path[..0] == [] && path[0..] == path;
  }

  /**
   * A position at or past the end of the list however many directories go
   * in appends at every step: the new directories follow the old list in
   * reverse order, each kept at its last occurrence.
   */
  lemma {:induction false} InsertBackwardsAbove(path: seq<string>, dirs: seq<string>, pos: int)
    requires pos >= |path| + |dirs|
    ensures InsertBackwards(path, dirs, pos) == path + Reverse(KeepLast(dirs, path))
    decreases |dirs|
  {
    if dirs == [] {
      assert path + [] == path;
    } else {
      var front := dirs[..|dirs| - 1];
      var last := dirs[|dirs| - 1];
      KeepLastSnoc(dirs, path);
      if last in path {
        assert InsertBackwards(path, dirs, pos) == InsertBackwards(path, front, pos);
        InsertBackwardsAbove(path, front, pos);
        KeepLastSame(front, path + [last], path);
        assert KeepLast(dirs, path) == KeepLast(front, path);
      } else {
        var path1 := InsertAt(path, pos, last);
        assert path1 == path + [last];
        InsertBackwardsAbove(path1, front, pos);
        var k := KeepLast(front, path1);
        ReverseSnoc(k, last);
        AppendAfter(InsertBackwards(path, dirs, pos), path, last, Reverse(k), Reverse(KeepLast(dirs, path)));
      }
    }
  }

  /** Reversing a list with a new last element puts that element first. */
  lemma ReverseSnoc(s: seq<string>, x: string)
    ensures Reverse(s + [x]) == [x] + Reverse(s)
  {
    assert (s + [x])[..|s|] == s;
  }

  /** The list algebra behind `InsertBackwardsAbove`. */
  lemma AppendAfter(walked: seq<string>, path: seq<string>, x: string, rk: seq<string>, rev: seq<string>)
    requires walked == (path + [x]) + rk
    requires rev == [x] + rk
    ensures walked == path + rev
  {
  }

  /** The list algebra behind `BackwardsAbsentStep`. */
  lemma InsertShift(walked: seq<string>, before: seq<string>, k: seq<string>, x: string, after: seq<string>,
                    kept: seq<string>)
    requires walked == before + k + ([x] + after)
    requires kept == k + [x]
    ensures walked == before + kept + after
  {
  }

  /**
   * Inserting forwards at the front leaves the old list as a suffix, preceded
   * by the new directories in reverse order, each kept at its first occurrence.
   */
  lemma {:induction false} InsertForwardsShape(path: seq<string>, dirs: seq<string>)
    ensures InsertForwards(path, dirs) == Reverse(KeepFirst(dirs, path)) + path
    decreases |dirs|
  {
    if dirs != [] {
      var x := dirs[0];
      if x in path {
        InsertForwardsShape(path, dirs[1..]);
        ForwardsPresentStep(path, dirs);
      } else {
        InsertForwardsShape([x] + path, dirs[1..]);
        ForwardsAbsentStep(path, dirs);
      }
    }
  }

  /** One step of `InsertForwardsShape` past a directory already present. */
  lemma ForwardsPresentStep(path: seq<string>, dirs: seq<string>)
    requires dirs != [] && dirs[0] in path
    requires InsertForwards(path, dirs[1..]) == Reverse(KeepFirst(dirs[1..], path)) + path
    ensures InsertForwards(path, dirs) == Reverse(KeepFirst(dirs, path)) + path
  {
    var x := dirs[0];
    var rest := dirs[1..];
    assert InsertForwards(path, dirs) == InsertForwards(path, rest);
    KeepFirstCons(dirs, path);
    KeepFirstSame(rest, [x] + path, path);
    assert KeepFirst(dirs, path) == KeepFirst(rest, path);
  }

  /** One step of `InsertForwardsShape` past a new directory, which goes to the front. */
  lemma ForwardsAbsentStep(path: seq<string>, dirs: seq<string>)
    requires dirs != [] && dirs[0] !in path
    requires InsertForwards([dirs[0]] + path, dirs[1..])
          == Reverse(KeepFirst(dirs[1..], [dirs[0]] + path)) + ([dirs[0]] + path)
    ensures InsertForwards(path, dirs) == Reverse(KeepFirst(dirs, path)) + path
  {
    var x := dirs[0];
    var k := KeepFirst(dirs[1..], [x] + path);
    KeepFirstCons(dirs, path);
    ReverseCons(x, k);
    PrependShift(InsertForwards(path, dirs), Reverse(k), x, path, Reverse(KeepFirst(dirs, path)));
  }

  /** The list algebra behind `ForwardsAbsentStep`. */
  lemma PrependShift(walked: seq<string>, rk: seq<string>, x: string, path: seq<string>, rev: seq<string>)
    requires walked == rk + ([x] + path)
    requires rev == rk + [x]
    ensures walked == rev + path
  {
  }

  /** `sys.path` and the copy saved by the last `sys_path` call (`None` when there is none). */
  datatype SysPathState = SysPathState(path: seq<string>, saved: Option<seq<string>>)

  /**
   * `restore_previous_sys_path`: put the saved copy back and forget it; with
   * no saved copy nothing happens.
   */
  function Restore(st: SysPathState): (r: SysPathState)
    ensures r.saved == None
    ensures st.saved.Some? ==> r.path == st.saved.value
    ensures st.saved.None? ==> r == st
  {
    if st.saved.Some? then SysPathState(st.saved.value, None) else st
  }

  /** A second restore does nothing. */
  lemma RestoreOnce(st: SysPathState)
    ensures Restore(Restore(st)) == Restore(st)
  {
  }

  /**
   * `sys_path` of the current version. It first looks the calling module up
   * (`lookup`, the outcome of `get_calling_module_info`) and raises what the
   * lookup raises; then it fails, leaving everything as it was, only for a
   * bad `add_gn_parent`. Otherwise it saves the old list and adds every
   * requested directory, resolved against the module's directory: no entry
   * is removed and nothing else is added. Where they go depends on
   * `insertPosition`: one block there, in order, for a position inside the
   * list; one block at the front, in order, for a position so far below zero
   * that it is clamped to the front at every step; and appended in reverse
   * order for a position at or past the end at every step.
   */
  function SysPathMain(st: SysPathState, lookup: Result<Info>, dirs: StrOrList, addParent: bool,
                       addGrandparent: bool, gn: GnParent, addSelf: bool, insertPosition: int, os: Os)
    : (r: Result<SysPathState>)
    ensures lookup.Err? ==> r == Err(lookup.error)
    ensures lookup.Ok? ==> (r.Err? <==> GnDir(gn, IsNotFalse).Err?)
    ensures lookup.Ok? && r.Err? ==> r.error == GnDir(gn, IsNotFalse).error
    ensures r.Ok? ==>
      var added := Resolve(DirsToAdd(dirs, addParent, addGrandparent, gn, addSelf, IsNotFalse).value, lookup.value.dir, os);
      && r.value.saved == Some(st.path)
      && (forall y :: y in r.value.path <==> y in st.path || y in added)
      && (0 <= insertPosition <= |st.path| ==>
            r.value.path == st.path[..insertPosition] + KeepLast(added, st.path) + st.path[insertPosition..])
      && (insertPosition <= -(|st.path| + |added|) ==> r.value.path == KeepLast(added, st.path) + st.path)
      && (insertPosition >= |st.path| + |added| ==> r.value.path == st.path + Reverse(KeepLast(added, st.path)))
  {
    if lookup.Err? then Err(lookup.error)
    else
      var toAdd := DirsToAdd(dirs, addParent, addGrandparent, gn, addSelf, IsNotFalse);
      if toAdd.Err? then Err(toAdd.error)
      else
        var added := Resolve(toAdd.value, lookup.value.dir, os);
        InsertBackwardsPlaced(st.path, added, insertPosition);
        InsertBackwardsElems(st.path, added, insertPosition);
        Ok(SysPathState(InsertBackwards(st.path, added, insertPosition), Some(st.path)))
  }

  /** The three placements of the backwards walk, by position. */
  lemma InsertBackwardsPlaced(path: seq<string>, dirs: seq<string>, pos: int)
    ensures 0 <= pos <= |path| ==>
      InsertBackwards(path, dirs, pos) == path[..pos] + KeepLast(dirs, path) + path[pos..]
    ensures pos <= -(|path| + |dirs|) ==> InsertBackwards(path, dirs, pos) == KeepLast(dirs, path) + path
    ensures pos >= |path| + |dirs| ==> InsertBackwards(path, dirs, pos) == path + Reverse(KeepLast(dirs, path))
  {
    if 0 <= pos <= |path| {
      InsertBackwardsShape(path, dirs, pos);
    }
    if pos <= -(|path| + |dirs|) {
      InsertBackwardsBelow(path, dirs, pos);
    }
    if pos >= |path| + |dirs| {
      InsertBackwardsAbove(path, dirs, pos);
    }
  }

  /**
   * `sys_path` of the earlier version: the module lookup first, raising what
   * it raises, then the same directories, all put at the front. `gn` is the
   * `add_gn_parent` value after any config override.
   */
  function SysPathLegacy(st: SysPathState, lookup: Result<Info>, dirs: StrOrList, addParent: bool,
                         addGrandparent: bool, gn: GnParent, addSelf: bool, os: Os): (r: Result<SysPathState>)
    ensures lookup.Err? ==> r == Err(lookup.error)
    ensures lookup.Ok? ==> (r.Err? <==> GnDir(gn, IsNotFalse).Err?)
    ensures lookup.Ok? && r.Err? ==> r.error == GnDir(gn, IsNotFalse).error
    ensures r.Ok? ==>
      var added := Resolve(DirsToAdd(dirs, addParent, addGrandparent, gn, addSelf, IsNotFalse).value, lookup.value.dir, os);
      && r.value.saved == Some(st.path)
      && r.value.path == Reverse(KeepFirst(added, st.path)) + st.path
  {
    if lookup.Err? then Err(lookup.error)
    else
      var toAdd := DirsToAdd(dirs, addParent, addGrandparent, gn, addSelf, IsNotFalse);
      if toAdd.Err? then Err(toAdd.error)
      else
        var added := Resolve(toAdd.value, lookup.value.dir, os);
        InsertForwardsShape(st.path, added);
        Ok(SysPathState(InsertForwards(st.path, added), Some(st.path)))
  }

  /**
   * The module directory the oldest version reads relative paths against:
   * the `calling_mod_dir` argument when it is a non-empty string; otherwise
   * the module is looked up, and what the lookup raises is raised.
   */
  function OldestModDir(supplied: string, lookup: Result<Info>): (r: Result<string>)
    ensures supplied != "" ==> r == Ok(supplied)
    ensures supplied == "" && lookup.Err? ==> r == Err(lookup.error)
    ensures supplied == "" && lookup.Ok? ==> r == Ok(lookup.value.dir)
  {
    if supplied != "" then Ok(supplied)
    else if lookup.Err? then Err(lookup.error)
    else Ok(lookup.value.dir)
  }

  /**
   * `sys_path` of the oldest version: the module lookup only when no
   * directory is supplied, a truth-value test on `add_gn_parent`, and
   * everything put at the front.
   */
  function SysPathOldest(st: SysPathState, dirs: StrOrList, addParent: bool, addGrandparent: bool, gn: GnParent,
                         addSelf: bool, suppliedDir: string, lookup: Result<Info>, os: Os): (r: Result<SysPathState>)
    ensures suppliedDir == "" && lookup.Err? ==> r == Err(lookup.error)
    ensures suppliedDir != "" || lookup.Ok? ==> (r.Err? <==> GnDir(gn, Truthy).Err?)
    ensures (suppliedDir != "" || lookup.Ok?) && r.Err? ==> r.error == GnDir(gn, Truthy).error
    ensures r.Ok? ==>
      var modDir := OldestModDir(suppliedDir, lookup).value;
      var added := Resolve(DirsToAdd(dirs, addParent, addGrandparent, gn, addSelf, Truthy).value, modDir, os);
      && r.value.saved == Some(st.path)
      && r.value.path == Reverse(KeepFirst(added, st.path)) + st.path
  {
    var modDir := OldestModDir(suppliedDir, lookup);
    if modDir.Err? then Err(modDir.error)
    else
      var toAdd := DirsToAdd(dirs, addParent, addGrandparent, gn, addSelf, Truthy);
      if toAdd.Err? then Err(toAdd.error)
      else
        var added := Resolve(toAdd.value, modDir.value, os);
        InsertForwardsShape(st.path, added);
        Ok(SysPathState(InsertForwards(st.path, added), Some(st.path)))
  }

  /**
   * Restoring right after a successful `sys_path` call of the current version gives back
   * the list from before the call.
   */
  lemma RestoreUndoesMain(st: SysPathState, lookup: Result<Info>, dirs: StrOrList, addParent: bool,
                          addGrandparent: bool, gn: GnParent, addSelf: bool, insertPosition: int, os: Os)
    requires SysPathMain(st, lookup, dirs, addParent, addGrandparent, gn, addSelf, insertPosition, os).Ok?
    ensures var st' := SysPathMain(st, lookup, dirs, addParent, addGrandparent, gn, addSelf, insertPosition, os).value;
      Restore(st') == SysPathState(st.path, None)
  {
  }

  /**
   * Between two successful calls, whatever their arguments, only the later
   * saved copy survives: restoring goes back to the list as the first call
   * left it, not as it was before.
   */
  lemma RestoreAfterTwoCalls(st: SysPathState, os: Os,
                             lookup1: Result<Info>, dirs1: StrOrList, parent1: bool, grandparent1: bool,
                             gn1: GnParent, self1: bool, pos1: int,
                             lookup2: Result<Info>, dirs2: StrOrList, parent2: bool, grandparent2: bool,
                             gn2: GnParent, self2: bool, pos2: int)
    requires SysPathMain(st, lookup1, dirs1, parent1, grandparent1, gn1, self1, pos1, os).Ok?
    requires var st1 := SysPathMain(st, lookup1, dirs1, parent1, grandparent1, gn1, self1, pos1, os).value;
      SysPathMain(st1, lookup2, dirs2, parent2, grandparent2, gn2, self2, pos2, os).Ok?
    ensures var st1 := SysPathMain(st, lookup1, dirs1, parent1, grandparent1, gn1, self1, pos1, os).value;
      var st2 := SysPathMain(st1, lookup2, dirs2, parent2, grandparent2, gn2, self2, pos2, os).value;
      Restore(st2) == SysPathState(st1.path, None)
  {
  }
}
