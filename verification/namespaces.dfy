/**
 * A module's global namespace and the loop shared by every version of
 * `locals_to_globals`: copy the caller's locals into the globals, one at a
 * time and in the locals' order, recording each copied name on the
 * tracking list kept in that same namespace.
 *
 * The versions differ only in which existing globals `noclobber` protects:
 * the current one spares names already on the tracking list, the older ones
 * protect every existing global (`ClobberRule`).
 */
module Namespaces {
  import opened Common

  /**
   * The ordinary globals of a module, plus the tracking list that the helper
   * stores under a reserved key of the same namespace (`None` until the
   * helper first creates it).
   */
  datatype Namespace = Namespace(vars: map<string, Value>, record: Option<seq<string>>)

  /** A function's locals in definition order, as `dict.items()` lists them. */
  type Locals = seq<(string, Value)>

  /** The tracked names, or none when the record was never created. */
  function Tracked(ns: Namespace): seq<string> {
    if ns.record.Some? then ns.record.value else []
  }

  /** Locate the tracking list, creating an empty one if it is missing. */
  function WithRecord(ns: Namespace): (r: Namespace)
    ensures r.vars == ns.vars && r.record == Some(Tracked(ns))
  {
    ns.(record := Some(Tracked(ns)))
  }

  /** Delete each listed name that is present; absent and repeated names are ignored. */
  function DeleteAll(vars: map<string, Value>, names: seq<string>): (r: map<string, Value>)
    ensures r == vars - Elems(names)
  {
    if names == [] then vars
    else
      var r := DeleteAll(vars - {names[0]}, names[1..]);
      assert Elems(names) == {names[0]} + Elems(names[1..]);
      r
  }

  /**
   * The clearing step once the record exists: every tracked name is removed
   * from the globals, every other global is kept, and the list is emptied in
   * place.
   */
  function ClearTracked(ns: Namespace): (r: Namespace)
    ensures r.record == Some([])
    ensures forall k :: k in r.vars <==> k in ns.vars && k !in Tracked(ns)
    ensures forall k :: k in r.vars ==> r.vars[k] == ns.vars[k]
  {
    Namespace(DeleteAll(ns.vars, Tracked(ns)), Some([]))
  }

  datatype ClobberRule = SparesTracked | RejectsAnyGlobal

  /** A name passes the parameter and first-character filters (`isAlpha` is `str.isalpha`). */
  predicate Promotable(k: string, params: set<string>, isAlpha: char -> bool) {
    k !in params && |k| > 0 && (isAlpha(k[0]) || k[0] == '_')
  }

  /** `noclobber` forbids writing `k` into `ns` under the given rule. */
  predicate Protected(ns: Namespace, k: string, noclobber: bool, rule: ClobberRule) {
    noclobber && k in ns.vars && (rule == RejectsAnyGlobal || k !in Tracked(ns))
  }

  /** Processing this local raises: an empty name (`k[0]`) or a protected one. */
  predicate Fails(ns: Namespace, k: string, params: set<string>, isAlpha: char -> bool,
                  noclobber: bool, rule: ClobberRule)
  {
    k !in params && (|k| == 0 || (Promotable(k, params, isAlpha) && Protected(ns, k, noclobber, rule)))
  }

  /** The exception raised when a local `Fails`. */
  function FailureOf(k: string): Error {
    if |k| == 0 then IndexError else ClobberError(k)
  }

  /** Write one global and append its name to the tracking list (no dedup). */
  function Write(ns: Namespace, k: string, v: Value): Namespace {
    Namespace(ns.vars[k := v], Some(Tracked(ns) + [k]))
  }

  /** The namespace after a local that does not fail: skipped, or written and tracked. */
  function Step(ns: Namespace, local: (string, Value), params: set<string>, isAlpha: char -> bool): Namespace {
    if Promotable(local.0, params, isAlpha) then Write(ns, local.0, local.1) else ns
  }

  /** The names of the locals, in order. */
  function NamesOf(locals: Locals): (r: seq<string>)
    ensures |r| == |locals| && forall i :: 0 <= i < |locals| ==> r[i] == locals[i].0
  {
    if locals == [] then [] else [locals[0].0] + NamesOf(locals[1..])
  }

  /** The names of locals that pass the filters, in order, repeats kept. */
  function PromotedNames(locals: Locals, params: set<string>, isAlpha: char -> bool): (r: seq<string>)
    ensures forall k :: k in r ==> Promotable(k, params, isAlpha)
  {
    if locals == [] then []
    else
      (if Promotable(locals[0].0, params, isAlpha) then [locals[0].0] else [])
      + PromotedNames(locals[1..], params, isAlpha)
  }

  /** No later local has the same name as local `i`. */
  predicate LastOfName(locals: Locals, i: int)
    requires 0 <= i < |locals|
  {
    forall j :: i < j < |locals| ==> locals[j].0 != locals[i].0
  }

  /** The names are those of a dict: no name occurs twice. */
  predicate DistinctNames(locals: Locals) {
    forall i, j :: 0 <= i < j < |locals| ==> locals[i].0 != locals[j].0
  }

  /**
   * The copy loop. It either runs to the end or raises at the first local
   * that `Fails`, leaving every earlier write in place. It never deletes a
   * global and only appends to the tracking list; without `noclobber` the
   * only possible error is the empty name. A name it refuses to overwrite
   * still holds its original value.
   */
  function CopyLocals(ns: Namespace, locals: Locals, params: set<string>, isAlpha: char -> bool,
                      noclobber: bool, rule: ClobberRule): (r: Effect<Namespace>)
    ensures ns.vars.Keys <= r.state.vars.Keys
    ensures |Tracked(ns)| <= |Tracked(r.state)| && Tracked(r.state)[..|Tracked(ns)|] == Tracked(ns)
    ensures ns.record.Some? ==> r.state.record.Some?
    ensures !noclobber ==> r.Done? || r.error == IndexError
    ensures r.Raised? ==> r.error == IndexError || r.error.ClobberError?
    decreases |locals|
  {
    if locals == [] then Done(ns)
    else
      var k := locals[0].0;
      var rest := locals[1..];
      if k in params then CopyLocals(ns, rest, params, isAlpha, noclobber, rule)
      else if |k| == 0 then Raised(ns, IndexError)
      else if !(isAlpha(k[0]) || k[0] == '_') then CopyLocals(ns, rest, params, isAlpha, noclobber, rule)
      else if Protected(ns, k, noclobber, rule) then Raised(ns, ClobberError(k))
      else
        var ns1 := Write(ns, k, locals[0].1);
        assert Tracked(ns1)[..|Tracked(ns)|] == Tracked(ns);
        CopyLocals(ns1, rest, params, isAlpha, noclobber, rule)
  }

  /** Dropping the first local of a dict of locals leaves a dict whose names all differ from it. */
  lemma DistinctRest(locals: Locals)
    requires DistinctNames(locals) && |locals| > 0
    ensures DistinctNames(locals[1..])
    ensures forall j :: 0 <= j < |locals| - 1 ==> locals[1..][j].0 != locals[0].0
  {
    forall j | 0 <= j < |locals| - 1 ensures locals[1..][j].0 != locals[0].0 {
      assert locals[1..][j] == locals[j + 1];
    }
  }

  /** A local that does not fail is one `Step`, after which the loop carries on with the rest. */
  lemma CopyLocalsUnfold(ns: Namespace, locals: Locals, params: set<string>, isAlpha: char -> bool,
                         noclobber: bool, rule: ClobberRule)
    requires locals != []
    requires !Fails(ns, locals[0].0, params, isAlpha, noclobber, rule)
    ensures CopyLocals(ns, locals, params, isAlpha, noclobber, rule)
         == CopyLocals(Step(ns, locals[0], params, isAlpha), locals[1..], params, isAlpha, noclobber, rule)
  {
  }

  /**
   * A refusal to overwrite names a local that passed the filters and a global
   * that `noclobber` protects. Under the current rule, and for a dict of
   * locals under the older one, that global still holds its original value.
   */
  lemma {:induction false} CopyLocalsClobber(ns: Namespace, locals: Locals, params: set<string>,
                                             isAlpha: char -> bool, noclobber: bool, rule: ClobberRule)
    requires CopyLocals(ns, locals, params, isAlpha, noclobber, rule).Raised?
    requires CopyLocals(ns, locals, params, isAlpha, noclobber, rule).error.ClobberError?
    ensures var r := CopyLocals(ns, locals, params, isAlpha, noclobber, rule);
      var k := r.error.name;
      && noclobber && k in r.state.vars && k in NamesOf(locals) && Promotable(k, params, isAlpha)
      && (rule == SparesTracked ==> k !in Tracked(ns))
      && ((rule == SparesTracked || DistinctNames(locals)) ==>
            k in ns.vars && r.state.vars[k] == ns.vars[k])
    decreases |locals|
  {
    var r := CopyLocals(ns, locals, params, isAlpha, noclobber, rule);
    var k := locals[0].0;
    var rest := locals[1..];
    if Fails(ns, k, params, isAlpha, noclobber, rule) {
      assert r == Raised(ns, FailureOf(k));
      assert NamesOf(locals)[0] == k;
    } else {
      var ns1 := Step(ns, locals[0], params, isAlpha);
      assert r == CopyLocals(ns1, rest, params, isAlpha, noclobber, rule);
      CopyLocalsClobber(ns1, rest, params, isAlpha, noclobber, rule);
      var kk := r.error.name;
      assert NamesOf(locals) == [k] + NamesOf(rest);
      if DistinctNames(locals) {
        DistinctRest(locals);
        var j :| 0 <= j < |rest| && NamesOf(rest)[j] == kk;
        assert kk != k;
      }
      if rule == SparesTracked && Promotable(k, params, isAlpha) {
        assert Tracked(ns1) == Tracked(ns) + [k];
        assert kk != k;
      }
    }
  }

  /** When the loop finishes, the tracking list has gained exactly the promoted names, in order, repeats kept. */
  lemma {:induction false} CopyLocalsDoneTracked(ns: Namespace, locals: Locals, params: set<string>,
                                                 isAlpha: char -> bool, noclobber: bool, rule: ClobberRule)
    requires CopyLocals(ns, locals, params, isAlpha, noclobber, rule).Done?
    ensures Tracked(CopyLocals(ns, locals, params, isAlpha, noclobber, rule).state)
         == Tracked(ns) + PromotedNames(locals, params, isAlpha)
    decreases |locals|
  {
    if locals != [] {
      var k := locals[0].0;
      var rest := locals[1..];
      var ns1 := Step(ns, locals[0], params, isAlpha);
      var head := if Promotable(k, params, isAlpha) then [k] else [];
      CopyLocalsUnfold(ns, locals, params, isAlpha, noclobber, rule);
      CopyLocalsDoneTracked(ns1, rest, params, isAlpha, noclobber, rule);
      assert Tracked(ns1) == Tracked(ns) + head;
      assert PromotedNames(locals, params, isAlpha) == head + PromotedNames(rest, params, isAlpha);
      AppendChain(Tracked(CopyLocals(ns1, rest, params, isAlpha, noclobber, rule).state), Tracked(ns1),
                  Tracked(ns), head, PromotedNames(rest, params, isAlpha), PromotedNames(locals, params, isAlpha));
    }
  }

  /**
   * When the loop finishes, the globals have gained exactly the promoted
   * names and every other global is untouched.
   */
  lemma {:induction false} CopyLocalsDoneKeys(ns: Namespace, locals: Locals, params: set<string>,
                                              isAlpha: char -> bool, noclobber: bool, rule: ClobberRule)
    requires CopyLocals(ns, locals, params, isAlpha, noclobber, rule).Done?
    ensures var r := CopyLocals(ns, locals, params, isAlpha, noclobber, rule).state;
      var promoted := PromotedNames(locals, params, isAlpha);
      && (forall k :: k in r.vars <==> k in ns.vars || k in promoted)
      && (forall k :: k in ns.vars && k !in promoted ==> r.vars[k] == ns.vars[k])
    decreases |locals|
  {
    if locals != [] {
      var ns1 := Step(ns, locals[0], params, isAlpha);
      CopyLocalsUnfold(ns, locals, params, isAlpha, noclobber, rule);
      CopyLocalsDoneKeys(ns1, locals[1..], params, isAlpha, noclobber, rule);
    }
  }

  /** When the loop finishes, each promoted name holds the value of the last local of that name. */
  lemma {:induction false} CopyLocalsDoneValues(ns: Namespace, locals: Locals, params: set<string>,
                                                isAlpha: char -> bool, noclobber: bool, rule: ClobberRule)
    requires CopyLocals(ns, locals, params, isAlpha, noclobber, rule).Done?
    ensures var r := CopyLocals(ns, locals, params, isAlpha, noclobber, rule).state;
      forall i :: 0 <= i < |locals| && Promotable(locals[i].0, params, isAlpha) && LastOfName(locals, i) ==>
        locals[i].0 in r.vars && r.vars[locals[i].0] == locals[i].1
    decreases |locals|
  {
    if locals != [] {
      var k := locals[0].0;
      var rest := locals[1..];
      var ns1 := Step(ns, locals[0], params, isAlpha);
      var r := CopyLocals(ns, locals, params, isAlpha, noclobber, rule).state;
      CopyLocalsUnfold(ns, locals, params, isAlpha, noclobber, rule);
      CopyLocalsDoneValues(ns1, rest, params, isAlpha, noclobber, rule);
      forall i | 0 <= i < |locals| && Promotable(locals[i].0, params, isAlpha) && LastOfName(locals, i)
        ensures locals[i].0 in r.vars && r.vars[locals[i].0] == locals[i].1
      {
        if i == 0 {
          CopyLocalsDoneKeys(ns1, rest, params, isAlpha, noclobber, rule);
          assert k !in PromotedNames(rest, params, isAlpha) by {
            if k in PromotedNames(rest, params, isAlpha) {
              PromotedNamesFrom(rest, params, isAlpha, k);
            }
          }
        } else {
          assert rest[i - 1] == locals[i];
          assert LastOfName(rest, i - 1) by {
            forall j | i - 1 < j < |rest| ensures rest[j].0 != rest[i - 1].0 {
              assert rest[j] == locals[j + 1];
            }
          }
        }
      }
    }
  }

  /**
   * When the loop finishes, the tracking list has gained exactly the promoted
   * names (in order, repeats kept), the globals have gained exactly those
   * names, every other global is untouched, and each promoted name holds the
   * value of its last local of that name.
   */
  lemma CopyLocalsDone(ns: Namespace, locals: Locals, params: set<string>,
                       isAlpha: char -> bool, noclobber: bool, rule: ClobberRule)
    requires CopyLocals(ns, locals, params, isAlpha, noclobber, rule).Done?
    ensures var r := CopyLocals(ns, locals, params, isAlpha, noclobber, rule).state;
      var promoted := PromotedNames(locals, params, isAlpha);
      && Tracked(r) == Tracked(ns) + promoted
      && (forall k :: k in r.vars <==> k in ns.vars || k in promoted)
      && (forall k :: k in ns.vars && k !in promoted ==> r.vars[k] == ns.vars[k])
      && (forall i :: 0 <= i < |locals| && Promotable(locals[i].0, params, isAlpha) && LastOfName(locals, i) ==>
            locals[i].0 in r.vars && r.vars[locals[i].0] == locals[i].1)
  {
    CopyLocalsDoneTracked(ns, locals, params, isAlpha, noclobber, rule);
    CopyLocalsDoneKeys(ns, locals, params, isAlpha, noclobber, rule);
    CopyLocalsDoneValues(ns, locals, params, isAlpha, noclobber, rule);
  }

  /** Every promoted name is the name of some local. */
  lemma {:induction false} PromotedNamesFrom(locals: Locals, params: set<string>, isAlpha: char -> bool, k: string)
    requires k in PromotedNames(locals, params, isAlpha)
    ensures exists j :: 0 <= j < |locals| && locals[j].0 == k
  {
    if locals[0].0 == k {
      assert locals[0].0 == k;
    } else {
      PromotedNamesFrom(locals[1..], params, isAlpha, k);
      var j :| 0 <= j < |locals[1..]| && locals[1..][j].0 == k;
      assert locals[j + 1].0 == k;
    }
  }

  /** Running the loop on the first `i + 1` locals is one step followed by the loop on `i` more. */
  lemma PrefixUnfold(ns: Namespace, locals: Locals, i: nat, params: set<string>,
                     isAlpha: char -> bool, noclobber: bool, rule: ClobberRule)
    requires i < |locals|
    requires !Fails(ns, locals[0].0, params, isAlpha, noclobber, rule)
    ensures CopyLocals(ns, locals[..i + 1], params, isAlpha, noclobber, rule)
         == CopyLocals(Step(ns, locals[0], params, isAlpha), locals[1..][..i], params, isAlpha, noclobber, rule)
  {
    var p := locals[..i + 1];
    assert p[0] == locals[0];
    assert p[1..] == locals[1..][..i];
  }

  /**
   * When the loop raises, the namespace it leaves is exactly the one it
   * would have produced from the locals before the failing one: earlier
   * writes are kept, nothing after is written.
   */
  lemma {:induction false} CopyLocalsRaised(ns: Namespace, locals: Locals, params: set<string>,
                                            isAlpha: char -> bool, noclobber: bool, rule: ClobberRule)
    requires CopyLocals(ns, locals, params, isAlpha, noclobber, rule).Raised?
    ensures var r := CopyLocals(ns, locals, params, isAlpha, noclobber, rule);
      exists i :: 0 <= i < |locals|
        && CopyLocals(ns, locals[..i], params, isAlpha, noclobber, rule) == Done(r.state)
        && Fails(r.state, locals[i].0, params, isAlpha, noclobber, rule)
        && r.error == FailureOf(locals[i].0)
    decreases |locals|
  {
    var r := CopyLocals(ns, locals, params, isAlpha, noclobber, rule);
    var k := locals[0].0;
    if Fails(ns, k, params, isAlpha, noclobber, rule) {
      assert locals[..0] == [];
      assert r == Raised(ns, FailureOf(k));
    } else {
      var ns1 := Step(ns, locals[0], params, isAlpha);
      var rest := locals[1..];
      assert r == CopyLocals(ns1, rest, params, isAlpha, noclobber, rule);
      CopyLocalsRaised(ns1, rest, params, isAlpha, noclobber, rule);
      var i :| 0 <= i < |rest| && CopyLocals(ns1, rest[..i], params, isAlpha, noclobber, rule) == Done(r.state)
        && Fails(r.state, rest[i].0, params, isAlpha, noclobber, rule) && r.error == FailureOf(rest[i].0);
      PrefixUnfold(ns, locals, i, params, isAlpha, noclobber, rule);
      assert locals[i + 1] == rest[i];
    }
  }

  /**
   * For a dict of locals, the loop raises exactly when some local fails
   * against the namespace it started from: what the loop itself writes
   * never makes a later, differently named local fail.
   */
  lemma {:induction false} CopyLocalsFailsIff(ns: Namespace, locals: Locals, params: set<string>,
                                              isAlpha: char -> bool, noclobber: bool, rule: ClobberRule)
    requires DistinctNames(locals)
    ensures CopyLocals(ns, locals, params, isAlpha, noclobber, rule).Raised? <==>
      exists i :: 0 <= i < |locals| && Fails(ns, locals[i].0, params, isAlpha, noclobber, rule)
    decreases |locals|
  {
    if locals != [] {
      var k := locals[0].0;
      var rest := locals[1..];
      assert DistinctNames(rest) by {
        forall a, b | 0 <= a < b < |rest| ensures rest[a].0 != rest[b].0 {
          assert rest[a] == locals[a + 1] && rest[b] == locals[b + 1];
        }
      }
      var failsAt := i => 0 <= i < |locals| && Fails(ns, locals[i].0, params, isAlpha, noclobber, rule);
      if k in params || (|k| > 0 && !(isAlpha(k[0]) || k[0] == '_')) {
        CopyLocalsFailsIff(ns, rest, params, isAlpha, noclobber, rule);
        assert !Fails(ns, k, params, isAlpha, noclobber, rule);
        ShiftFails(ns, ns, locals, params, isAlpha, noclobber, rule);
      } else if |k| == 0 || Protected(ns, k, noclobber, rule) {
        assert Fails(ns, k, params, isAlpha, noclobber, rule);
      } else {
        var ns1 := Write(ns, k, locals[0].1);
        CopyLocalsFailsIff(ns1, rest, params, isAlpha, noclobber, rule);
        assert !Fails(ns, k, params, isAlpha, noclobber, rule);
        ShiftFails(ns, ns1, locals, params, isAlpha, noclobber, rule);
      }
    }
  }

  /** A local that differs in name from the first one fails against `ns1` iff against `ns`. */
  lemma ShiftFails(ns: Namespace, ns1: Namespace, locals: Locals, params: set<string>,
                   isAlpha: char -> bool, noclobber: bool, rule: ClobberRule)
    requires DistinctNames(locals) && |locals| > 0
    requires !Fails(ns, locals[0].0, params, isAlpha, noclobber, rule)
    requires ns1 == ns || ns1 == Write(ns, locals[0].0, locals[0].1)
    ensures (exists i :: 0 <= i < |locals[1..]| && Fails(ns1, locals[1..][i].0, params, isAlpha, noclobber, rule))
        <==> (exists i :: 0 <= i < |locals| && Fails(ns, locals[i].0, params, isAlpha, noclobber, rule))
  {
    var rest := locals[1..];
    forall i | 0 <= i < |rest|
      ensures Fails(ns1, rest[i].0, params, isAlpha, noclobber, rule) <==> Fails(ns, locals[i + 1].0, params, isAlpha, noclobber, rule)
    {
      assert rest[i] == locals[i + 1];
      assert rest[i].0 != locals[0].0;
    }
    if exists i :: 0 <= i < |locals| && Fails(ns, locals[i].0, params, isAlpha, noclobber, rule) {
      var i :| 0 <= i < |locals| && Fails(ns, locals[i].0, params, isAlpha, noclobber, rule);
      assert i > 0;
      assert Fails(ns1, rest[i - 1].0, params, isAlpha, noclobber, rule);
    }
  }

  /**
   * Under `noclobber` a loop that finishes has promoted no name that was
   * protected when it started, so every protected global keeps its value.
   */
  lemma {:induction false} NoClobberDone(ns: Namespace, locals: Locals, params: set<string>,
                                         isAlpha: char -> bool, rule: ClobberRule)
    requires CopyLocals(ns, locals, params, isAlpha, true, rule).Done?
    ensures forall k :: Protected(ns, k, true, rule) ==> k !in PromotedNames(locals, params, isAlpha)
    decreases |locals|
  {
    if locals != [] {
      var k0 := locals[0].0;
      var ns1 := Step(ns, locals[0], params, isAlpha);
      assert CopyLocals(ns, locals, params, isAlpha, true, rule) == CopyLocals(ns1, locals[1..], params, isAlpha, true, rule);
      NoClobberDone(ns1, locals[1..], params, isAlpha, rule);
      forall k | Protected(ns, k, true, rule) ensures k !in PromotedNames(locals, params, isAlpha) {
        if Promotable(k0, params, isAlpha) {
          assert k != k0;
          assert Tracked(ns1) == Tracked(ns) + [k0];
          assert Protected(ns1, k, true, rule);
        }
      }
    }
  }

  /**
   * Under `noclobber`, clearing after a finished loop leaves exactly what
   * clearing before it would have left: the loop's writes are all undone and
   * nothing else is lost.
   */
  lemma ClearAfterCopy(ns: Namespace, locals: Locals, params: set<string>, isAlpha: char -> bool, rule: ClobberRule)
    requires CopyLocals(ns, locals, params, isAlpha, true, rule).Done?
    ensures ClearTracked(CopyLocals(ns, locals, params, isAlpha, true, rule).state) == ClearTracked(ns)
  {
    var r := CopyLocals(ns, locals, params, isAlpha, true, rule).state;
    var promoted := PromotedNames(locals, params, isAlpha);
    CopyLocalsDoneTracked(ns, locals, params, isAlpha, true, rule);
    CopyLocalsDoneKeys(ns, locals, params, isAlpha, true, rule);
    NoClobberDone(ns, locals, params, isAlpha, rule);
    var a := ClearTracked(r);
    var b := ClearTracked(ns);
    forall k ensures k in a.vars <==> k in b.vars {
      assert k in Tracked(r) <==> k in Tracked(ns) || k in promoted;
      if k in ns.vars && k !in Tracked(ns) {
        assert Protected(ns, k, true, rule);
      }
    }
    forall k | k in a.vars ensures a.vars[k] == b.vars[k] {
      assert k !in promoted;
    }
    assert a.vars == b.vars;
  }

  /** A loop that finishes met no empty name outside the parameters. */
  lemma {:induction false} DoneNamesNonEmpty(ns: Namespace, locals: Locals, params: set<string>,
                                             isAlpha: char -> bool, noclobber: bool, rule: ClobberRule)
    requires CopyLocals(ns, locals, params, isAlpha, noclobber, rule).Done?
    ensures forall i :: 0 <= i < |locals| && locals[i].0 !in params ==> |locals[i].0| > 0
    decreases |locals|
  {
    if locals != [] {
      var ns1 := Step(ns, locals[0], params, isAlpha);
      CopyLocalsUnfold(ns, locals, params, isAlpha, noclobber, rule);
      DoneNamesNonEmpty(ns1, locals[1..], params, isAlpha, noclobber, rule);
      forall i | 1 <= i < |locals| ensures locals[i] == locals[1..][i - 1] { }
    }
  }

  /**
   * Under the current rule, locals whose promoted names are all already
   * tracked never raise, whatever `noclobber` says.
   */
  lemma {:induction false} TrackedNamesDone(ns: Namespace, locals: Locals, params: set<string>,
                                            isAlpha: char -> bool, noclobber: bool)
    requires forall i :: 0 <= i < |locals| && locals[i].0 !in params ==> |locals[i].0| > 0
    requires forall k :: k in PromotedNames(locals, params, isAlpha) ==> k in Tracked(ns)
    ensures CopyLocals(ns, locals, params, isAlpha, noclobber, SparesTracked).Done?
    decreases |locals|
  {
    if locals != [] {
      var k0 := locals[0].0;
      var rest := locals[1..];
      var ns1 := Step(ns, locals[0], params, isAlpha);
      assert k0 !in params ==> |k0| > 0;
      assert Promotable(k0, params, isAlpha) ==> k0 in Tracked(ns);
      assert CopyLocals(ns, locals, params, isAlpha, noclobber, SparesTracked)
          == CopyLocals(ns1, rest, params, isAlpha, noclobber, SparesTracked);
      forall i | 0 <= i < |rest| && rest[i].0 !in params ensures |rest[i].0| > 0 {
        assert rest[i] == locals[i + 1];
      }
      forall k | k in PromotedNames(rest, params, isAlpha) ensures k in Tracked(ns1) {
        assert k in PromotedNames(locals, params, isAlpha);
      }
      TrackedNamesDone(ns1, rest, params, isAlpha, noclobber);
    }
  }

  /**
   * Under the older rule the tracking list plays no part in the loop: two
   * namespaces with the same globals get the same outcome and the same
   * globals back.
   */
  lemma {:induction false} RejectsIgnoresRecord(ns: Namespace, ns': Namespace, locals: Locals, params: set<string>,
                                                isAlpha: char -> bool, noclobber: bool)
    requires ns.vars == ns'.vars
    ensures var r := CopyLocals(ns, locals, params, isAlpha, noclobber, RejectsAnyGlobal);
      var r' := CopyLocals(ns', locals, params, isAlpha, noclobber, RejectsAnyGlobal);
      r.Done? == r'.Done? && r.state.vars == r'.state.vars && (r.Raised? ==> r.error == r'.error)
    decreases |locals|
  {
    if locals != [] {
      RejectsIgnoresRecord(Step(ns, locals[0], params, isAlpha), Step(ns', locals[0], params, isAlpha),
                           locals[1..], params, isAlpha, noclobber);
    }
  }
}
