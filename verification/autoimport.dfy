/**
 * `autoimport` (and `auto_import` of the earlier versions): insert a fixed
 * list of (name, object) pairs into the calling module's globals, in list
 * order. Names on the skip list are passed over. Under `noclobber` the first
 * name that already exists raises, and the names inserted before it stay
 * inserted.
 */
module AutoImport {
  import opened Common

  type Globals = map<string, Value>
  type Entry = (string, Value)

  /** The names inserted by the defaults of the current version, in order. */
  const MainNames: seq<string> := ["pytest", "raises", "fail", "fixture", "skip", "xfail", "approx",
                                   "locals_to_globals", "clear_locals_from_globals", "unindent"]

  /** The default names of the earlier version with an `imports` argument. */
  const LegacyNames: seq<string> := ["pytest", "raises", "fail", "fixture", "skip", "xfail",
                                     "locals_to_globals", "clear_locals_from_globals"]

  /** The fixed names of the oldest version, which has no skip list. */
  const OldestNames: seq<string> := ["pytest", "raises", "fail", "fixture", "skip",
                                     "locals_to_globals", "clear_locals_from_globals"]

  /** Pair each name with the object it denotes (`objects` stands for the imported modules). */
  function Entries(names: seq<string>, objects: string -> Value): (r: seq<Entry>)
    ensures |r| == |names|
    ensures forall i :: 0 <= i < |names| ==> r[i] == (names[i], objects(names[i]))
  {
    if names == [] then [] else [(names[0], objects(names[0]))] + Entries(names[1..], objects)
  }

  /** The names of the entries that are not skipped, in order. */
  function Inserted(entries: seq<Entry>, skip: seq<string>): (r: seq<string>)
    ensures forall k :: k in r ==> k !in skip
    ensures forall i :: 0 <= i < |entries| && entries[i].0 !in skip ==> entries[i].0 in r
  {
    if entries == [] then []
    else
      var rest := Inserted(entries[1..], skip);
      assert forall i :: 1 <= i < |entries| ==> entries[i] == entries[1..][i - 1];
      if entries[0].0 in skip then rest else [entries[0].0] + rest
  }

  /**
   * The insertion loop. It never removes a global and never touches a
   * skipped name; without `noclobber` it cannot fail, and when it fails the
   * offending name is a global it was about to overwrite.
   */
  function Insert(g: Globals, entries: seq<Entry>, skip: seq<string>, noclobber: bool): (r: Effect<Globals>)
    ensures g.Keys <= r.state.Keys
    ensures forall k :: k in skip ==> (k in r.state <==> k in g) && (k in g ==> r.state[k] == g[k])
    ensures !noclobber ==> r.Done?
    ensures r.Raised? ==> r.error.AutoImportClobber? && r.error.name in r.state && r.error.name !in skip
    decreases |entries|
  {
    if entries == [] then Done(g)
    else
      var (name, value) := entries[0];
      if name in skip then Insert(g, entries[1..], skip, noclobber)
      else if noclobber && name in g then Raised(g, AutoImportClobber(name))
      else Insert(g[name := value], entries[1..], skip, noclobber)
  }

  /** No entry after entry `i` has the same name. */
  predicate LastOfName(entries: seq<Entry>, i: int)
    requires 0 <= i < |entries|
  {
    forall j :: i < j < |entries| ==> entries[j].0 != entries[i].0
  }

  /**
   * A loop that finishes has added exactly the names not skipped, each with
   * the value of its last entry, and left every other global as it was.
   */
  lemma {:induction false} InsertDone(g: Globals, entries: seq<Entry>, skip: seq<string>, noclobber: bool)
    requires Insert(g, entries, skip, noclobber).Done?
    ensures var r := Insert(g, entries, skip, noclobber).state;
      && (forall k :: k in r <==> k in g || k in Inserted(entries, skip))
      && (forall k :: k in g && k !in Inserted(entries, skip) ==> r[k] == g[k])
      && (forall i :: 0 <= i < |entries| && entries[i].0 !in skip && LastOfName(entries, i) ==>
            entries[i].0 in r && r[entries[i].0] == entries[i].1)
    decreases |entries|
  {
    if entries != [] {
      var (name, value) := entries[0];
      var rest := entries[1..];
      var g1 := if name in skip then g else g[name := value];
      assert Insert(g, entries, skip, noclobber) == Insert(g1, rest, skip, noclobber);
      InsertDone(g1, rest, skip, noclobber);
      var r := Insert(g, entries, skip, noclobber).state;
      forall i | 0 <= i < |entries| && entries[i].0 !in skip && LastOfName(entries, i)
        ensures entries[i].0 in r && r[entries[i].0] == entries[i].1
      {
        if i == 0 {
          assert name !in Inserted(rest, skip) by {
            if name in Inserted(rest, skip) {
              InsertedFrom(rest, skip, name);
            }
          }
        } else {
          assert rest[i - 1] == entries[i];
          assert LastOfName(rest, i - 1) by {
            forall j | i - 1 < j < |rest| ensures rest[j].0 != rest[i - 1].0 {
              assert rest[j] == entries[j + 1];
            }
          }
        }
      }
    }
  }

  /** Every inserted name is the name of some entry. */
  lemma {:induction false} InsertedFrom(entries: seq<Entry>, skip: seq<string>, k: string)
    requires k in Inserted(entries, skip)
    ensures exists j :: 0 <= j < |entries| && entries[j].0 == k
  {
    if entries[0].0 != k {
      InsertedFrom(entries[1..], skip, k);
      var j :| 0 <= j < |entries[1..]| && entries[1..][j].0 == k;
      assert entries[j + 1].0 == k;
    }
  }

  /** Under `noclobber` a loop that finishes overwrote no global that existed before it. */
  lemma {:induction false} NoClobberDone(g: Globals, entries: seq<Entry>, skip: seq<string>)
    requires Insert(g, entries, skip, true).Done?
    ensures forall k :: k in g ==> k !in Inserted(entries, skip)
    decreases |entries|
  {
    if entries != [] {
      var (name, value) := entries[0];
      var g1 := if name in skip then g else g[name := value];
      assert Insert(g, entries, skip, true) == Insert(g1, entries[1..], skip, true);
      NoClobberDone(g1, entries[1..], skip);
    }
  }

  /**
   * Under `noclobber`, for entries with distinct names, the loop raises
   * exactly when some entry that is not skipped names an existing global.
   */
  lemma {:induction false} InsertFailsIff(g: Globals, entries: seq<Entry>, skip: seq<string>)
    requires forall i, j :: 0 <= i < j < |entries| ==> entries[i].0 != entries[j].0
    ensures Insert(g, entries, skip, true).Raised? <==>
      exists i :: 0 <= i < |entries| && entries[i].0 !in skip && entries[i].0 in g
    decreases |entries|
  {
    if entries != [] {
      var (name, value) := entries[0];
      var rest := entries[1..];
      var g1 := if name in skip then g else g[name := value];
      assert forall i, j :: 0 <= i < j < |rest| ==> rest[i].0 != rest[j].0 by {
        forall i, j | 0 <= i < j < |rest| ensures rest[i].0 != rest[j].0 {
          assert rest[i] == entries[i + 1] && rest[j] == entries[j + 1];
        }
      }
      if name in skip || name !in g {
        InsertFailsIff(g1, rest, skip);
        forall i | 0 <= i < |rest| ensures (rest[i].0 in g1 <==> rest[i].0 in g) && rest[i] == entries[i + 1] {
          assert rest[i] == entries[i + 1];
        }
        if exists i :: 0 <= i < |entries| && entries[i].0 !in skip && entries[i].0 in g {
          var i :| 0 <= i < |entries| && entries[i].0 !in skip && entries[i].0 in g;
          assert i > 0 && rest[i - 1] == entries[i];
        }
      } else {
        assert entries[0].0 !in skip && entries[0].0 in g;
      }
    }
  }

  /** Insert `names`, each bound to its object, into the globals. */
  function InsertNames(g: Globals, names: seq<string>, objects: string -> Value, skip: seq<string>,
                       noclobber: bool): (r: Effect<Globals>)
    ensures !noclobber ==> r.Done?
    ensures r.Raised? ==> r.error.AutoImportClobber? && r.error.name in names && r.error.name !in skip
  {
    var r := Insert(g, Entries(names, objects), skip, noclobber);
    assert r.Raised? ==> r.error.name in names by {
      if r.Raised? {
        InsertRaisedName(g, Entries(names, objects), skip, noclobber);
      }
    }
    r
  }

  /**
   * A loop that raises does so at entry `i`: it is not skipped, its name is
   * already a global, and the entries before it have all been inserted and
   * stay inserted, since the state left behind is what the loop over those
   * entries alone finishes with. So `i` is the first entry whose name is
   * present when its turn comes.
   */
  lemma {:induction false} InsertRaised(g: Globals, entries: seq<Entry>, skip: seq<string>, noclobber: bool)
    requires Insert(g, entries, skip, noclobber).Raised?
    ensures var r := Insert(g, entries, skip, noclobber);
      exists i :: && 0 <= i < |entries| && entries[i].0 !in skip && entries[i].0 in r.state
                  && r.error == AutoImportClobber(entries[i].0)
                  && Insert(g, entries[..i], skip, noclobber) == Done(r.state)
    decreases |entries|
  {
    var r := Insert(g, entries, skip, noclobber);
    var (name, value) := entries[0];
    var rest := entries[1..];
    if name in skip || !(noclobber && name in g) {
      var g1 := if name in skip then g else g[name := value];
      assert r == Insert(g1, rest, skip, noclobber);
      InsertRaised(g1, rest, skip, noclobber);
      var j :| && 0 <= j < |rest| && rest[j].0 !in skip && rest[j].0 in r.state
               && r.error == AutoImportClobber(rest[j].0)
               && Insert(g1, rest[..j], skip, noclobber) == Done(r.state);
      assert entries[j + 1] == rest[j];
      assert entries[..j + 1][0] == entries[0] && entries[..j + 1][1..] == rest[..j];
    } else {
      assert entries[..0] == [];
    }
  }

  /** The name a failing loop reports is the name of one of its entries. */
  lemma {:induction false} InsertRaisedName(g: Globals, entries: seq<Entry>, skip: seq<string>, noclobber: bool)
    requires Insert(g, entries, skip, noclobber).Raised?
    ensures exists j :: 0 <= j < |entries| && entries[j].0 == Insert(g, entries, skip, noclobber).error.name
    decreases |entries|
  {
    var (name, value) := entries[0];
    var rest := entries[1..];
    if name in skip || !(noclobber && name in g) {
      var g1 := if name in skip then g else g[name := value];
      assert Insert(g, entries, skip, noclobber) == Insert(g1, rest, skip, noclobber);
      InsertRaisedName(g1, rest, skip, noclobber);
      var j :| 0 <= j < |rest| && rest[j].0 == Insert(g1, rest, skip, noclobber).error.name;
      assert entries[j + 1] == rest[j];
    }
  }

  /** Pairing a prefix of the names is the same prefix of the pairs. */
  lemma EntriesPrefix(names: seq<string>, objects: string -> Value, i: nat)
    requires i <= |names|
    ensures Entries(names[..i], objects) == Entries(names, objects)[..i]
  {
  }

  /**
   * An insertion of named objects that raises does so at name `i`: it is not
   * skipped, it is already a global, and the names before it stay inserted.
   */
  lemma InsertNamesRaised(g: Globals, names: seq<string>, objects: string -> Value, skip: seq<string>,
                          noclobber: bool)
    requires InsertNames(g, names, objects, skip, noclobber).Raised?
    ensures var r := InsertNames(g, names, objects, skip, noclobber);
      exists i :: && 0 <= i < |names| && names[i] !in skip && names[i] in r.state
                  && r.error == AutoImportClobber(names[i])
                  && InsertNames(g, names[..i], objects, skip, noclobber) == Done(r.state)
  {
    var entries := Entries(names, objects);
    var r := Insert(g, entries, skip, noclobber);
    InsertRaised(g, entries, skip, noclobber);
    var i :| && 0 <= i < |entries| && entries[i].0 !in skip && entries[i].0 in r.state
             && r.error == AutoImportClobber(entries[i].0)
             && Insert(g, entries[..i], skip, noclobber) == Done(r.state);
    EntriesPrefix(names, objects, i);
    assert entries[i].0 == names[i];
  }

  /**
   * For distinct names under `noclobber`, the insertion raises exactly when
   * a name that is not skipped is already a global. When it does not raise,
   * every such name is bound to its object, every existing global is
   * untouched, and nothing else is added.
   */
  lemma InsertNamesOutcome(g: Globals, names: seq<string>, objects: string -> Value, skip: seq<string>)
    requires NoDuplicates(names)
    ensures InsertNames(g, names, objects, skip, true).Raised? <==>
      exists i :: 0 <= i < |names| && names[i] !in skip && names[i] in g
    ensures InsertNames(g, names, objects, skip, true).Done? ==>
      var r := InsertNames(g, names, objects, skip, true).state;
      && (forall i :: 0 <= i < |names| && names[i] !in skip ==> names[i] in r && r[names[i]] == objects(names[i]))
      && (forall k :: k in g ==> k in r && r[k] == g[k])
      && (forall k :: k in r ==> k in g || k in names)
  {
    var entries := Entries(names, objects);
    assert forall i, j :: 0 <= i < j < |entries| ==> entries[i].0 != entries[j].0;
    InsertFailsIff(g, entries, skip);
    if Insert(g, entries, skip, true).Done? {
      InsertDone(g, entries, skip, true);
      NoClobberDone(g, entries, skip);
      forall k | k in Inserted(entries, skip) ensures k in names {
        InsertedFrom(entries, skip, k);
      }
    }
  }

  /** Without `noclobber`, the insertion binds every name that is not skipped to its object. */
  lemma InsertNamesOverwrite(g: Globals, names: seq<string>, objects: string -> Value, skip: seq<string>)
    requires NoDuplicates(names)
    ensures var r := InsertNames(g, names, objects, skip, false).state;
      forall i :: 0 <= i < |names| && names[i] !in skip ==> names[i] in r && r[names[i]] == objects(names[i])
  {
    var entries := Entries(names, objects);
    InsertDone(g, entries, skip, false);
  }

  lemma MainNamesDistinct()
    ensures NoDuplicates(MainNames)
  {
  }

  /**
   * Under `noclobber`, `autoimport` raises exactly when one of its default
   * names that is not skipped is already a global; otherwise it binds each
   * such name to its object, keeps every existing global and adds nothing
   * else.
   */
  lemma AutoimportOutcome(g: Globals, objects: string -> Value, skip: seq<string>)
    ensures Autoimport(g, objects, skip, true).Raised? <==>
      exists i :: 0 <= i < |MainNames| && MainNames[i] !in skip && MainNames[i] in g
    ensures Autoimport(g, objects, skip, true).Done? ==>
      var r := Autoimport(g, objects, skip, true).state;
      && (forall i :: 0 <= i < |MainNames| && MainNames[i] !in skip ==>
            MainNames[i] in r && r[MainNames[i]] == objects(MainNames[i]))
      && (forall k :: k in g ==> k in r && r[k] == g[k])
      && (forall k :: k in r ==> k in g || k in MainNames)
  {
    MainNamesDistinct();
    InsertNamesOutcome(g, MainNames, objects, skip);
  }

  /** `autoimport` of the current version; `skip` and `noclobber` are the values after any config override. */
  function Autoimport(g: Globals, objects: string -> Value, skip: seq<string>, noclobber: bool): (r: Effect<Globals>)
    ensures r.Raised? ==> noclobber && r.error.AutoImportClobber? && r.error.name in MainNames
  {
    InsertNames(g, MainNames, objects, skip, noclobber)
  }

  /**
   * A refused `autoimport` stopped at the first default name already
   * present; the defaults before it were inserted and stay inserted.
   */
  lemma AutoimportRaised(g: Globals, objects: string -> Value, skip: seq<string>, noclobber: bool)
    ensures var r := Autoimport(g, objects, skip, noclobber);
      r.Raised? ==>
        exists i :: && 0 <= i < |MainNames| && MainNames[i] !in skip && MainNames[i] in r.state
                      && r.error == AutoImportClobber(MainNames[i])
                      && InsertNames(g, MainNames[..i], objects, skip, noclobber) == Done(r.state)
  {
    if Autoimport(g, objects, skip, noclobber).Raised? {
      InsertNamesRaised(g, MainNames, objects, skip, noclobber);
    }
  }

  /** The default `imports` argument of the earlier version. */
  function LegacyDefaultImports(objects: string -> Value): (r: seq<Entry>)
    ensures |r| == |LegacyNames| && forall i :: 0 <= i < |r| ==> r[i] == (LegacyNames[i], objects(LegacyNames[i]))
  {
    Entries(LegacyNames, objects)
  }

  /** `auto_import` of the earlier version with an `imports` list and a skip list. */
  function LegacyAutoImport(g: Globals, imports: seq<Entry>, skip: seq<string>, noclobber: bool): (r: Effect<Globals>)
    ensures !noclobber ==> r.Done?
    ensures r.Raised? ==> r.error.AutoImportClobber? && r.error.name in r.state && r.error.name !in skip
  {
    Insert(g, imports, skip, noclobber)
  }

  /**
   * A refused earlier `auto_import` stopped at the first unskipped import
   * whose name was present; the imports before it stay inserted.
   */
  lemma LegacyAutoImportRaised(g: Globals, imports: seq<Entry>, skip: seq<string>, noclobber: bool)
    requires LegacyAutoImport(g, imports, skip, noclobber).Raised?
    ensures var r := LegacyAutoImport(g, imports, skip, noclobber);
      exists i :: && 0 <= i < |imports| && imports[i].0 !in skip && imports[i].0 in r.state
                  && r.error == AutoImportClobber(imports[i].0)
                  && LegacyAutoImport(g, imports[..i], skip, noclobber) == Done(r.state)
  {
    InsertRaised(g, imports, skip, noclobber);
  }

  /** `auto_import` of the oldest version: its fixed names, nothing skipped. */
  function OldestAutoImport(g: Globals, objects: string -> Value, noclobber: bool): (r: Effect<Globals>)
    ensures !noclobber ==> r.Done?
    ensures r.Raised? ==> noclobber && r.error.AutoImportClobber? && r.error.name in OldestNames
  {
    InsertNames(g, OldestNames, objects, [], noclobber)
  }

  /**
   * A refused oldest `auto_import` stopped at the first of its names already
   * present; the names before it stay inserted.
   */
  lemma OldestAutoImportRaised(g: Globals, objects: string -> Value, noclobber: bool)
    ensures var r := OldestAutoImport(g, objects, noclobber);
      r.Raised? ==>
        exists i :: && 0 <= i < |OldestNames| && OldestNames[i] in r.state
                      && r.error == AutoImportClobber(OldestNames[i])
                      && InsertNames(g, OldestNames[..i], objects, [], noclobber) == Done(r.state)
  {
    if OldestAutoImport(g, objects, noclobber).Raised? {
      InsertNamesRaised(g, OldestNames, objects, [], noclobber);
    }
  }
}
