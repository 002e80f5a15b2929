/**
 * The few Python string operations the helper relies on: `str.split(sep)`
 * with a one-character separator, `sep.join(parts)`, `str.split()` with no
 * argument (runs of whitespace), and the whitespace class that `str.lstrip()`
 * and `str.split()` use.
 */
module PyStr {

  /** Python's `str.isspace` for a single character. */
  predicate IsSpace(c: char) {
    || ('\t' <= c <= '\r')
    || ('\U{1C}' <= c <= '\U{1F}')
    || c == ' '
    || c == '\U{85}'
    || c == '\U{A0}'
    || c == '\U{1680}'
    || ('\U{2000}' <= c <= '\U{200A}')
    || c == '\U{2028}'
    || c == '\U{2029}'
    || c == '\U{202F}'
    || c == '\U{205F}'
    || c == '\U{3000}'
  }

  /** No character of `s` is whitespace. */
  predicate NoSpace(s: string) {
    forall i :: 0 <= i < |s| ==> !IsSpace(s[i])
  }

  /** Every character of `s` is whitespace, i.e. `s.lstrip() == ""`. */
  predicate AllSpace(s: string) {
    forall i :: 0 <= i < |s| ==> IsSpace(s[i])
  }

  /** `s.split(sep)`: the pieces between occurrences of `sep`, empty ones included. */
  function SplitOn(s: string, sep: char): (parts: seq<string>)
    ensures |parts| >= 1
  {
    if s == [] then [""]
    else
      var rest := SplitOn(s[1..], sep);
      if s[0] == sep then [""] + rest
      else [[s[0]] + rest[0]] + rest[1..]
  }

  /** No piece of a split holds the separator. */
  lemma {:induction false} SplitOnPieces(s: string, sep: char)
    ensures forall i :: 0 <= i < |SplitOn(s, sep)| ==> sep !in SplitOn(s, sep)[i]
  {
    if s != [] {
      SplitOnPieces(s[1..], sep);
      var rest := SplitOn(s[1..], sep);
      var parts := SplitOn(s, sep);
      if s[0] == sep {
        forall i | 0 <= i < |parts| ensures sep !in parts[i] {
          if i > 0 { assert parts[i] == rest[i - 1]; }
        }
      } else {
        forall i | 0 <= i < |parts| ensures sep !in parts[i] {
          if i > 0 { assert parts[i] == rest[i]; }
        }
      }
    }
  }

  /** `sep.join(parts)`. */
  function JoinWith(parts: seq<string>, sep: char): string
  {
    if |parts| == 0 then ""
    else if |parts| == 1 then parts[0]
    else parts[0] + [sep] + JoinWith(parts[1..], sep)
  }

  /** Joining the pieces of a split gives back the original string. */
  lemma {:induction false} JoinSplit(s: string, sep: char)
    ensures JoinWith(SplitOn(s, sep), sep) == s
  {
    if s != [] {
      JoinSplit(s[1..], sep);
      var rest := SplitOn(s[1..], sep);
      if s[0] == sep {
        assert SplitOn(s, sep) == [""] + rest;
        assert s == [sep] + s[1..];
      } else {
        var parts := SplitOn(s, sep);
        assert parts == [[s[0]] + rest[0]] + rest[1..];
        if |rest| == 1 {
          assert s == [s[0]] + rest[0];
        } else {
          assert parts[1..] == rest[1..];
          assert JoinWith(rest, sep) == rest[0] + [sep] + JoinWith(rest[1..], sep);
          assert s == [s[0]] + s[1..];
        }
      }
    }
  }

  /** A string without the separator splits into itself alone. */
  lemma {:induction false} SplitWithoutSep(s: string, sep: char)
    requires sep !in s
    ensures SplitOn(s, sep) == [s]
  {
    if s != [] {
      SplitWithoutSep(s[1..], sep);
      assert s == [s[0]] + s[1..];
    }
  }

  /** Splitting at a separator splits the two sides independently. */
  lemma {:induction false} SplitAround(a: string, b: string, sep: char)
    ensures SplitOn(a + [sep] + b, sep) == SplitOn(a, sep) + SplitOn(b, sep)
  {
    var s := a + [sep] + b;
    if a == [] {
      assert s == [sep] + b;
      assert s[1..] == b;
    } else {
      assert s[0] == a[0];
      assert s[1..] == a[1..] + [sep] + b;
      SplitAround(a[1..], b, sep);
    }
  }

  /** Splitting a join of separator-free pieces gives the pieces back. */
  lemma {:induction false} SplitJoin(parts: seq<string>, sep: char)
    requires |parts| >= 1
    requires forall i :: 0 <= i < |parts| ==> sep !in parts[i]
    ensures SplitOn(JoinWith(parts, sep), sep) == parts
  {
    if |parts| == 1 {
      SplitWithoutSep(parts[0], sep);
    } else {
      SplitJoin(parts[1..], sep);
      SplitAround(parts[0], JoinWith(parts[1..], sep), sep);
      SplitWithoutSep(parts[0], sep);
      assert parts == [parts[0]] + parts[1..];
    }
  }

  /** All characters of `s` that are not whitespace, in order. */
  function NonSpace(s: string): (r: string)
    ensures NoSpace(r)
    ensures |r| <= |s|
  {
    if s == [] then ""
    else if IsSpace(s[0]) then NonSpace(s[1..])
    else [s[0]] + NonSpace(s[1..])
  }

  function Concat(ws: seq<string>): string {
    if ws == [] then "" else ws[0] + Concat(ws[1..])
  }

  lemma ConcatAppend(a: seq<string>, b: seq<string>)
    ensures Concat(a + b) == Concat(a) + Concat(b)
  {
    if a != [] {
      assert (a + b)[0] == a[0];
      assert (a + b)[1..] == a[1..] + b;
      ConcatAppend(a[1..], b);
      assert Concat(a + b) == a[0] + Concat(a[1..] + b);
    } else {
      assert a + b == b;
    }
  }

  /** The word currently being read, if any, as a list of at most one word. */
  function Flush(cur: string): seq<string> {
    if cur == [] then [] else [cur]
  }

  /** Whitespace splitting with the characters of the current word in `cur`. */
  function WordsFrom(s: string, cur: string): seq<string>
  {
    if s == [] then Flush(cur)
    else if IsSpace(s[0]) then Flush(cur) + WordsFrom(s[1..], [])
    else WordsFrom(s[1..], cur + [s[0]])
  }

  /** Whitespace splitting yields non-empty words without whitespace. */
  lemma {:induction false} WordsFromWords(s: string, cur: string)
    requires NoSpace(cur)
    ensures forall i :: 0 <= i < |WordsFrom(s, cur)| ==> WordsFrom(s, cur)[i] != [] && NoSpace(WordsFrom(s, cur)[i])
  {
    if s != [] && IsSpace(s[0]) {
      WordsFromWords(s[1..], []);
      var rest := WordsFrom(s[1..], []);
      var r := Flush(cur) + rest;
      assert WordsFrom(s, cur) == r;
      forall i | 0 <= i < |r| ensures r[i] != [] && NoSpace(r[i]) {
        if i >= |Flush(cur)| { assert r[i] == rest[i - |Flush(cur)|]; }
      }
    } else if s != [] {
      NoSpaceSnoc(cur, s[0]);
      WordsFromWords(s[1..], cur + [s[0]]);
    }
  }

  /** Together the words hold the current word and the non-whitespace characters of `s`. */
  lemma {:induction false} WordsFromConcat(s: string, cur: string)
    ensures Concat(WordsFrom(s, cur)) == cur + NonSpace(s)
  {
    if s == [] {
      assert cur + "" == cur;
    } else if IsSpace(s[0]) {
      WordsFromConcat(s[1..], []);
      ConcatAppend(Flush(cur), WordsFrom(s[1..], []));
      assert [] + NonSpace(s[1..]) == NonSpace(s);
    } else {
      WordsFromConcat(s[1..], cur + [s[0]]);
      assert cur + [s[0]] + NonSpace(s[1..]) == cur + NonSpace(s);
    }
  }

  /**
   * `s.split()`: the maximal runs of non-whitespace characters. No word is
   * empty or holds whitespace, and together the words hold exactly the
   * non-whitespace characters of `s`.
   */
  function Words(s: string): (r: seq<string>)
    ensures forall i :: 0 <= i < |r| ==> r[i] != [] && NoSpace(r[i])
    ensures Concat(r) == NonSpace(s)
  {
    WordsFromWords(s, []);
    WordsFromConcat(s, []);
    assert [] + NonSpace(s) == NonSpace(s);
    WordsFrom(s, [])
  }

  /** A word without whitespace is simply appended to the word being read. */
  lemma {:induction false} WordsFromWord(w: string, rest: string, cur: string)
    requires NoSpace(w)
    ensures WordsFrom(w + rest, cur) == WordsFrom(rest, cur + w)
  {
    if w != [] {
      assert (w + rest)[0] == w[0];
      assert (w + rest)[1..] == w[1..] + rest;
      assert NoSpace(w[1..]) by {
        forall i | 0 <= i < |w[1..]| ensures !IsSpace(w[1..][i]) {
          assert w[1..][i] == w[i + 1];
        }
      }
      WordsFromWord(w[1..], rest, cur + [w[0]]);
      assert cur + [w[0]] + w[1..] == cur + w;
    } else {
      assert w + rest == rest && cur + w == cur;
    }
  }

  /** Whitespace separates the words of its two sides. */
  lemma {:induction false} WordsFromAround(a: string, x: char, b: string, cur: string)
    requires IsSpace(x)
    ensures WordsFrom(a + [x] + b, cur) == WordsFrom(a, cur) + WordsFrom(b, [])
  {
    var s := a + [x] + b;
    if a == [] {
      assert s == [x] + b;
      assert s[1..] == b;
    } else {
      assert s[0] == a[0];
      assert s[1..] == a[1..] + [x] + b;
      if IsSpace(a[0]) {
        WordsFromAround(a[1..], x, b, []);
      } else {
        WordsFromAround(a[1..], x, b, cur + [a[0]]);
      }
    }
  }

  /** Appending a non-whitespace character keeps a string free of whitespace. */
  lemma NoSpaceSnoc(cur: string, c: char)
    requires NoSpace(cur) && !IsSpace(c)
    ensures NoSpace(cur + [c])
  {
    forall i | 0 <= i < |cur| + 1 ensures !IsSpace((cur + [c])[i]) {
      if i < |cur| { assert (cur + [c])[i] == cur[i]; }
    }
  }

  /** `(a + " " + b).split() == a.split() + b.split()`. */
  lemma WordsAroundSpace(a: string, b: string)
    ensures Words(a + " " + b) == Words(a) + Words(b)
  {
    WordsFromAround(a, ' ', b, []);
  }

  /** A non-empty string without whitespace is a single word. */
  lemma WordsOfWord(w: string)
    requires w != [] && NoSpace(w)
    ensures Words(w) == [w]
  {
    assert w + [] == w;
    WordsFromWord(w, [], []);
    assert [] + w == w;
  }

  /** Splitting a space-joined list of words gives the words back. */
  lemma {:induction false} WordsJoin(ws: seq<string>)
    requires forall i :: 0 <= i < |ws| ==> ws[i] != [] && NoSpace(ws[i])
    ensures Words(JoinWith(ws, ' ')) == ws
  {
    if |ws| == 1 {
      WordsOfWord(ws[0]);
    } else if |ws| > 1 {
      WordsJoin(ws[1..]);
      WordsAroundSpace(ws[0], JoinWith(ws[1..], ' '));
      WordsOfWord(ws[0]);
      assert ws == [ws[0]] + ws[1..];
    }
  }
}
