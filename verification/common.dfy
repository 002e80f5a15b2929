/**
 * Values, errors and outcome wrappers shared by every part of the model.
 *
 * Python exceptions are modelled in two ways. When an operation raises before
 * it has changed anything, it returns `Result.Err`. When it raises part-way
 * through a loop that has already written to shared state (there is no
 * rollback in the helper), it returns `Effect.Raised` carrying that partial
 * state.
 */
module Common {

  datatype Option<+T> = None | Some(value: T)

  /** An arbitrary Python object; only its identity matters to the helper. */
  datatype Value = Object(id: int)

  /** A Python argument that may be absent, a single string, or a list of strings. */
  datatype StrOrList = Absent | One(s: string) | Many(items: seq<string>)

  /** The exceptions the helper raises, named after what Python reports. */
  datatype Error =
    | ClobberError(name: string)          // LocalsToGlobalsError: would overwrite a global
    | UnclearedRecord                     // LocalsToGlobalsError: legacy record not cleared
    | AutoImportClobber(name: string)     // PytestHelperException from autoimport
    | BadGnParent                         // PytestHelperException from sys_path
    | TooFewLines                         // PytestHelperException from unindent
    | NonWhitespaceIndent(line: string)   // PytestHelperException from unindent
    | MissingModuleDir(dir: string)       // PytestHelperException from module lookup
    | MissingConfigFile                   // PytestHelperException from the legacy config lookup
    | KeyError(key: string)
    | IndexError
    | ValueError
    | NameError(name: string)
    | AttributeError(attr: string)
  {
    /** True for the two kinds of `LocalsToGlobalsError`. */
    predicate IsLocalsToGlobalsError() {
      ClobberError? || UnclearedRecord?
    }
  }

  /** An outcome that is either a value or the exception raised before anything changed. */
  datatype Result<+T> = Ok(value: T) | Err(error: Error)

  /** The state left behind by a loop that either finishes or raises part-way. */
  datatype Effect<+S> = Done(state: S) | Raised(state: S, error: Error)

  /** The list `[x] * n`. */
  function Repeat<T>(x: T, n: nat): (r: seq<T>)
    ensures |r| == n
    ensures forall i :: 0 <= i < n ==> r[i] == x
  {
    if n == 0 then [] else Repeat(x, n - 1) + [x]
  }

  /** The elements of a sequence, as a set. */
  function Elems<T>(s: seq<T>): set<T>
  {
    set x | x in s
  }

  function Reverse<T>(s: seq<T>): (r: seq<T>)
    ensures |r| == |s|
  {
    if s == [] then [] else [s[|s| - 1]] + Reverse(s[..|s| - 1])
  }

  /** Position `i` of the reversed list holds position `|s| - 1 - i` of the list. */
  lemma {:induction false} ReverseIndex<T>(s: seq<T>)
    ensures forall i :: 0 <= i < |s| ==> Reverse(s)[i] == s[|s| - 1 - i]
  {
    if s != [] {
      var front := s[..|s| - 1];
      var rf := Reverse(front);
      ReverseIndex(front);
      var r := [s[|s| - 1]] + rf;
      assert Reverse(s) == r;
      forall i | 0 <= i < |s| ensures r[i] == s[|s| - 1 - i] {
        if i > 0 {
          assert r[i] == rf[i - 1] == front[|front| - i];
        }
      }
    }
  }

  /**
   * Where a Python index bound `n` falls in a sequence of length `len`, as
   * used by slicing and by `list.insert`: negative bounds count from the
   * end, and the result is clamped to `0..len`.
   */
  function SliceIndex(n: int, len: nat): (i: nat)
    ensures i <= len
    ensures 0 <= n <= len ==> i == n
    ensures n > len ==> i == len
    ensures n < 0 ==> i == (if len + n < 0 then 0 else len + n)
  {
    if n < 0 then (if len + n < 0 then 0 else len + n)
    else if n > len then len
    else n
  }

  /** Reversing a list with a new head puts that element last. */
  lemma ReverseCons<T>(x: T, s: seq<T>)
    ensures Reverse([x] + s) == Reverse(s) + [x]
  {
    var a := Reverse([x] + s);
    var b := Reverse(s) + [x];
    ReverseIndex([x] + s);
    ReverseIndex(s);
    forall i | 0 <= i < |a| ensures a[i] == b[i] {
      if i < |s| {
        assert a[i] == ([x] + s)[|s| - i] == s[|s| - 1 - i];
      }
    }
  }

  /** Appending in two steps is appending the two parts at once. */
  lemma AppendChain<T>(whole: seq<T>, mid: seq<T>, base: seq<T>, head: seq<T>, rest: seq<T>, all: seq<T>)
    requires whole == mid + rest && mid == base + head && all == head + rest
    ensures whole == base + all
  {
  }

  /** A list of strings holds no string twice. */
  predicate NoDuplicates<T(==)>(s: seq<T>) {
    forall i, j :: 0 <= i < j < |s| ==> s[i] != s[j]
  }
}
