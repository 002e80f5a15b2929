/**
 * `locals_to_globals` and `clear_locals_from_globals` of the current helper.
 *
 * The tracking list lives in the helper's per-module info dict. It is created
 * empty on first use and is never deleted. A tracked name may be overwritten
 * even under `noclobber`. With `clear` the previous promotion is undone before
 * copying.
 */
module MainPromotion {
  import opened Common
  import opened Namespaces

  /**
   * Copy `locals` into the globals `ns`. `params` are the calling function's
   * parameters and `isAlpha` is `str.isalpha`.
   */
  function LocalsToGlobals(ns: Namespace, locals: Locals, params: set<string>, isAlpha: char -> bool,
                           clear: bool, noclobber: bool): (r: Effect<Namespace>)
    ensures r.state.record.Some?
    ensures !noclobber ==> r.Done? || r.error == IndexError
    ensures !clear ==> ns.vars.Keys <= r.state.vars.Keys
  {
    var prep := if clear then ClearTracked(WithRecord(ns)) else WithRecord(ns);
    CopyLocals(prep, locals, params, isAlpha, noclobber, SparesTracked)
  }

  /**
   * Delete every tracked global and empty the tracking list. A module that
   * never created the list is left as it is.
   */
  function Clear(ns: Namespace): (r: Namespace)
    ensures r.record == (if ns.record.None? then None else Some([]))
    ensures forall k :: k in r.vars <==> k in ns.vars && k !in Tracked(ns)
    ensures forall k :: k in r.vars ==> r.vars[k] == ns.vars[k]
  {
    if ns.record.None? then ns else ClearTracked(ns)
  }

  /** Clearing twice is the same as clearing once. */
  lemma ClearIdempotent(ns: Namespace)
    ensures Clear(Clear(ns)) == Clear(ns)
  {
    if ns.record.Some? {
      assert DeleteAll(Clear(ns).vars, []) == Clear(ns).vars;
    }
  }

  /**
   * Under `noclobber`, a promotion that finishes is undone by a clear: what
   * is left is the original globals minus the names tracked before the call,
   * each with its original value.
   */
  lemma ClearUndoesPromotion(ns: Namespace, locals: Locals, params: set<string>, isAlpha: char -> bool,
                             clear: bool)
    requires LocalsToGlobals(ns, locals, params, isAlpha, clear, true).Done?
    ensures var after := Clear(LocalsToGlobals(ns, locals, params, isAlpha, clear, true).state);
      && after.record == Some([])
      && (forall k :: k in after.vars <==> k in ns.vars && k !in Tracked(ns))
      && (forall k :: k in after.vars ==> after.vars[k] == ns.vars[k])
  {
    var prep := if clear then ClearTracked(WithRecord(ns)) else WithRecord(ns);
    ClearAfterCopy(prep, locals, params, isAlpha, SparesTracked);
    if clear {
      assert ClearTracked(prep).vars == prep.vars;
    }
  }

  /**
   * Promoting into a module that had no earlier promotions, under
   * `noclobber`, and clearing afterwards gives back exactly the original
   * globals.
   */
  lemma PromoteClearRoundTrip(ns: Namespace, locals: Locals, params: set<string>, isAlpha: char -> bool,
                              clear: bool)
    requires Tracked(ns) == []
    requires LocalsToGlobals(ns, locals, params, isAlpha, clear, true).Done?
    ensures Clear(LocalsToGlobals(ns, locals, params, isAlpha, clear, true).state).vars == ns.vars
  {
    ClearUndoesPromotion(ns, locals, params, isAlpha, clear);
  }

  /**
   * With `clear` and `noclobber`, running the same promotion again reaches
   * the very same outcome: the repeat clears the first run's writes and
   * copies them back.
   */
  lemma ClearingPromotionIdempotent(ns: Namespace, locals: Locals, params: set<string>, isAlpha: char -> bool)
    requires LocalsToGlobals(ns, locals, params, isAlpha, true, true).Done?
    ensures var r := LocalsToGlobals(ns, locals, params, isAlpha, true, true);
      LocalsToGlobals(r.state, locals, params, isAlpha, true, true) == r
  {
    var prep := ClearTracked(WithRecord(ns));
    var r := CopyLocals(prep, locals, params, isAlpha, true, SparesTracked);
    ClearAfterCopy(prep, locals, params, isAlpha, SparesTracked);
    assert WithRecord(r.state) == r.state;
    assert ClearTracked(prep).vars == prep.vars;
    assert ClearTracked(r.state) == prep;
  }

  /**
   * A promotion that finished can be repeated without `clear`, even under
   * `noclobber`, because every name it wrote is now tracked. The repeat
   * appends those names to the tracking list a second time.
   */
  lemma RepromoteWithoutClear(ns: Namespace, locals: Locals, params: set<string>, isAlpha: char -> bool,
                              clear: bool, noclobber: bool)
    requires LocalsToGlobals(ns, locals, params, isAlpha, clear, noclobber).Done?
    ensures var r := LocalsToGlobals(ns, locals, params, isAlpha, clear, noclobber);
      var again := LocalsToGlobals(r.state, locals, params, isAlpha, false, noclobber);
      && again.Done?
      && Tracked(again.state) == Tracked(r.state) + PromotedNames(locals, params, isAlpha)
  {
    var prep := if clear then ClearTracked(WithRecord(ns)) else WithRecord(ns);
    var r := CopyLocals(prep, locals, params, isAlpha, noclobber, SparesTracked);
    DoneNamesNonEmpty(prep, locals, params, isAlpha, noclobber, SparesTracked);
    CopyLocalsDoneTracked(prep, locals, params, isAlpha, noclobber, SparesTracked);
    assert WithRecord(r.state) == r.state;
    TrackedNamesDone(r.state, locals, params, isAlpha, noclobber);
    CopyLocalsDoneTracked(r.state, locals, params, isAlpha, noclobber, SparesTracked);
  }

  /**
   * Without `noclobber`, a promotion over dict-like locals raises only for an
   * empty name, and one that finishes tracks every name it wrote, including
   * globals it overwrote.
   */
  lemma OverwriteTracks(ns: Namespace, locals: Locals, params: set<string>, isAlpha: char -> bool, clear: bool)
    requires forall i :: 0 <= i < |locals| && locals[i].0 !in params ==> |locals[i].0| > 0
    ensures var r := LocalsToGlobals(ns, locals, params, isAlpha, clear, false);
      && r.Done?
      && (forall k :: k in PromotedNames(locals, params, isAlpha) ==> k in r.state.vars && k in Tracked(r.state))
  {
    var prep := if clear then ClearTracked(WithRecord(ns)) else WithRecord(ns);
    var r := CopyLocals(prep, locals, params, isAlpha, false, SparesTracked);
    if r.Raised? {
      CopyLocalsRaised(prep, locals, params, isAlpha, false, SparesTracked);
      assert false;
    }
    CopyLocalsDoneTracked(prep, locals, params, isAlpha, false, SparesTracked);
    CopyLocalsDoneKeys(prep, locals, params, isAlpha, false, SparesTracked);
  }
}

/**
 * `locals_to_globals` and `clear_locals_from_globals` of the two earlier
 * versions of the helper, whose code is the same. The tracking list is
 * stored directly in the module's globals under a reserved name. A non-empty
 * list must be cleared first, automatically with `auto_clear`, and any
 * existing global is protected by `noclobber`.
 */
module LegacyPromotion {
  import opened Common
  import opened Namespaces

  /** The reserved global that holds the tracking list. */
  const RecordName: string := "pytest_helper_last_copied_320gj97tr"

  /** Copy `locals` into the globals `ns`; `autoClear` is the `auto_clear` argument. */
  function LocalsToGlobals(ns: Namespace, locals: Locals, params: set<string>, isAlpha: char -> bool,
                           autoClear: bool, noclobber: bool): (r: Effect<Namespace>)
    ensures r.state.record.Some?
    ensures Tracked(ns) != [] && !autoClear ==> r == Raised(WithRecord(ns), UnclearedRecord)
    ensures (Tracked(ns) == [] || autoClear) && r.Raised? ==> r.error == IndexError || r.error.ClobberError?
    ensures r.Raised? && r.error.ClobberError? ==> noclobber && r.error.name in r.state.vars
    ensures !noclobber && (Tracked(ns) == [] || autoClear) ==> r.Done? || r.error == IndexError
  {
    var prep := WithRecord(ns);
    if Tracked(prep) != [] && !autoClear then Raised(prep, UnclearedRecord)
    else
      var start := if Tracked(prep) != [] then ClearTracked(prep) else prep;
      var r := CopyLocals(start, locals, params, isAlpha, noclobber, RejectsAnyGlobal);
      assert r.Raised? && r.error.ClobberError? ==> noclobber && r.error.name in r.state.vars by {
        if r.Raised? && r.error.ClobberError? {
          CopyLocalsClobber(start, locals, params, isAlpha, noclobber, RejectsAnyGlobal);
        }
      }
      r
  }

  /**
   * Delete every tracked global and empty the tracking list. A module that
   * never created the list raises `KeyError` for the reserved name.
   */
  function Clear(ns: Namespace): (r: Result<Namespace>)
    ensures r.Err? <==> ns.record.None?
    ensures r.Err? ==> r.error == KeyError(RecordName)
    ensures r.Ok? ==>
      && r.value.record == Some([])
      && (forall k :: k in r.value.vars <==> k in ns.vars && k !in Tracked(ns))
      && (forall k :: k in r.value.vars ==> r.value.vars[k] == ns.vars[k])
  {
    if ns.record.None? then Err(KeyError(RecordName)) else Ok(ClearTracked(ns))
  }

  /**
   * Under `noclobber`, a promotion that finishes is undone by a clear: what
   * is left is the original globals minus the names tracked before the call.
   */
  lemma ClearUndoesPromotion(ns: Namespace, locals: Locals, params: set<string>, isAlpha: char -> bool,
                             autoClear: bool)
    requires LocalsToGlobals(ns, locals, params, isAlpha, autoClear, true).Done?
    ensures var after := Clear(LocalsToGlobals(ns, locals, params, isAlpha, autoClear, true).state);
      && after.Ok?
      && (forall k :: k in after.value.vars <==> k in ns.vars && k !in Tracked(ns))
      && (forall k :: k in after.value.vars ==> after.value.vars[k] == ns.vars[k])
  {
    var prep := WithRecord(ns);
    var start := if Tracked(prep) != [] then ClearTracked(prep) else prep;
    ClearAfterCopy(start, locals, params, isAlpha, RejectsAnyGlobal);
    if Tracked(prep) != [] {
      assert ClearTracked(start).vars == start.vars;
    }
  }

  /**
   * With `auto_clear` and `noclobber`, running the same promotion again
   * reaches the very same outcome.
   */
  lemma AutoClearIdempotent(ns: Namespace, locals: Locals, params: set<string>, isAlpha: char -> bool)
    requires LocalsToGlobals(ns, locals, params, isAlpha, true, true).Done?
    ensures var r := LocalsToGlobals(ns, locals, params, isAlpha, true, true);
      LocalsToGlobals(r.state, locals, params, isAlpha, true, true) == r
  {
    var prep := WithRecord(ns);
    var start := if Tracked(prep) != [] then ClearTracked(prep) else prep;
    var r := CopyLocals(start, locals, params, isAlpha, true, RejectsAnyGlobal);
    ClearAfterCopy(start, locals, params, isAlpha, RejectsAnyGlobal);
    CopyLocalsDoneTracked(start, locals, params, isAlpha, true, RejectsAnyGlobal);
    assert WithRecord(r.state) == r.state;
    if Tracked(prep) != [] {
      assert ClearTracked(start) == start;
    } else {
      assert start.record == Some([]);
      assert DeleteAll(start.vars, []) == start.vars;
      assert ClearTracked(start) == start;
    }
    if Tracked(r.state) == [] {
      assert r.state == start;
    }
  }

  /**
   * Without `auto_clear`, a second promotion after one that wrote anything
   * raises at once, leaving the globals as they were.
   */
  lemma SecondCallNeedsClear(ns: Namespace, locals: Locals, params: set<string>, isAlpha: char -> bool,
                             noclobber: bool, locals2: Locals, params2: set<string>, noclobber2: bool)
    requires LocalsToGlobals(ns, locals, params, isAlpha, false, noclobber).Done?
    requires PromotedNames(locals, params, isAlpha) != []
    ensures var r := LocalsToGlobals(ns, locals, params, isAlpha, false, noclobber);
      LocalsToGlobals(r.state, locals2, params2, isAlpha, false, noclobber2) == Raised(r.state, UnclearedRecord)
  {
    var prep := WithRecord(ns);
    CopyLocalsDoneTracked(prep, locals, params, isAlpha, noclobber, RejectsAnyGlobal);
  }
}
