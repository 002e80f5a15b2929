/**
 * `unindent(unindent_level, string)`: split on newlines, drop the first and
 * the last line, and cut the first `unindent_level` characters from every
 * remaining line, refusing to cut anything but whitespace.
 *
 * `unindent_level` is used as a Python slice bound, so a negative level
 * counts from the end of each line.
 */
module Unindent {
  import opened Common
  import opened PyStr

  /** `s[0:n]`. */
  function Prefix(s: string, n: int): string {
    s[..SliceIndex(n, |s|)]
  }

  /** `s[n:]`. */
  function Suffix(s: string, n: int): string {
    s[SliceIndex(n, |s|)..]
  }

  /** The two slices at the same bound put the string back together. */
  lemma PrefixSuffix(s: string, n: int)
    ensures Prefix(s, n) + Suffix(s, n) == s
  {
  }

  /** Every line of `lines` with its first `n` characters cut. */
  function StripAll(lines: seq<string>, n: int): (r: seq<string>)
    ensures |r| == |lines|
    ensures forall i :: 0 <= i < |lines| ==> r[i] == Suffix(lines[i], n)
  {
    seq(|lines|, i requires 0 <= i < |lines| => Suffix(lines[i], n))
  }

  /** The position of the first line whose first `n` characters are not all whitespace. */
  function FirstBadLine(lines: seq<string>, n: int): (r: Option<nat>)
    ensures r.None? <==> forall i :: 0 <= i < |lines| ==> AllSpace(Prefix(lines[i], n))
    ensures r.Some? ==>
      && r.value < |lines| && !AllSpace(Prefix(lines[r.value], n))
      && forall i :: 0 <= i < r.value ==> AllSpace(Prefix(lines[i], n))
  {
    if lines == [] then None
    else if !AllSpace(Prefix(lines[0], n)) then Some(0)
    else
      var rest := FirstBadLine(lines[1..], n);
      assert forall i :: 1 <= i < |lines| ==> lines[i] == lines[1..][i - 1];
      if rest.None? then None else Some(rest.value + 1)
  }

  /** Line `i` is the first whose cut prefix holds something other than whitespace. */
  predicate IsFirstBad(lines: seq<string>, n: int, i: int) {
    && 0 <= i < |lines|
    && !AllSpace(Prefix(lines[i], n))
    && forall j :: 0 <= j < i ==> AllSpace(Prefix(lines[j], n))
  }

  /** The lines between the first and the last. */
  function Middle(s: string): seq<string>
    requires |SplitOn(s, '\n')| >= 2
  {
    var lines := SplitOn(s, '\n');
    lines[1..|lines| - 1]
  }

  /**
   * Fewer than two lines is an error; so is a middle line whose cut prefix
   * holds something other than whitespace, and the first such line is the
   * one reported. Otherwise the lines of the result are exactly the cut
   * middle lines (with two lines in all there are none, and the result is
   * empty).
   */
  function Unindent(n: int, s: string): (r: Result<string>)
    ensures |SplitOn(s, '\n')| < 2 ==> r == Err(TooFewLines)
    ensures |SplitOn(s, '\n')| >= 2 ==>
      var middle := Middle(s);
      && (r.Err? <==> exists i :: 0 <= i < |middle| && !AllSpace(Prefix(middle[i], n)))
      && (r.Err? ==> exists i :: IsFirstBad(middle, n, i) && r.error == NonWhitespaceIndent(middle[i]))
      && (r.Ok? && |middle| > 0 ==> SplitOn(r.value, '\n') == StripAll(middle, n))
      && (r.Ok? && |middle| == 0 ==> r.value == "")
  {
    var lines := SplitOn(s, '\n');
    if |lines| < 2 then Err(TooFewLines)
    else
      var middle := lines[1..|lines| - 1];
      assert middle == Middle(s);
      var bad := FirstBadLine(middle, n);
      if bad.Some? then
        assert IsFirstBad(middle, n, bad.value);
        assert 0 <= bad.value < |middle| && !AllSpace(Prefix(middle[bad.value], n));
        Err(NonWhitespaceIndent(middle[bad.value]))
      else
        var stripped := StripAll(middle, n);
        if |middle| > 0 then
          SplitOnPieces(s, '\n');
          assert forall i :: 0 <= i < |stripped| ==> '\n' !in stripped[i] by {
            forall i | 0 <= i < |stripped| ensures '\n' !in stripped[i] {
              assert middle[i] == lines[i + 1];
              assert '\n' !in middle[i];
              PrefixSuffix(middle[i], n);
            }
          }
          SplitJoin(stripped, '\n');
          Ok(JoinWith(stripped, '\n'))
        else
          Ok(JoinWith(stripped, '\n'))
  }

  /** Every line of `lines` with `ind` put in front. */
  function Indent(ind: string, lines: seq<string>): (r: seq<string>)
    ensures |r| == |lines|
    ensures forall i :: 0 <= i < |lines| ==> r[i] == ind + lines[i]
  {
    seq(|lines|, i requires 0 <= i < |lines| => ind + lines[i])
  }

  /**
   * `unindent` undoes indentation: indenting lines by a whitespace string of
   * length `n` and framing them with a first and a last line (as a
   * triple-quoted literal in an indented block does) gives back the lines
   * joined by newlines.
   */
  lemma UnindentIndented(first: string, last: string, ind: string, lines: seq<string>)
    requires |lines| >= 1
    requires '\n' !in first && '\n' !in last && '\n' !in ind
    requires forall i :: 0 <= i < |lines| ==> '\n' !in lines[i]
    requires AllSpace(ind)
    ensures Unindent(|ind|, first + "\n" + JoinWith(Indent(ind, lines), '\n') + "\n" + last)
         == Ok(JoinWith(lines, '\n'))
  {
    var indented := Indent(ind, lines);
    var s := first + "\n" + JoinWith(indented, '\n') + "\n" + last;
    IndentedLines(ind, lines);
    SplitFramed(first, indented, last, '\n');
    assert s == first + ['\n'] + JoinWith(indented, '\n') + ['\n'] + last;
    assert Middle(s) == indented;
    StripIndented(ind, lines);
    UnindentOk(|ind|, s);
  }

  /** Indented lines hold no newline, and cutting the indentation gives each line back. */
  lemma IndentedLines(ind: string, lines: seq<string>)
    requires '\n' !in ind
    requires forall i :: 0 <= i < |lines| ==> '\n' !in lines[i]
    ensures forall i :: 0 <= i < |lines| ==> '\n' !in Indent(ind, lines)[i]
  {
    var indented := Indent(ind, lines);
    forall i | 0 <= i < |indented| ensures '\n' !in indented[i] {
      assert indented[i] == ind + lines[i];
    }
  }

  /** Cutting the indentation off indented lines: whitespace prefixes, and the lines themselves. */
  lemma StripIndented(ind: string, lines: seq<string>)
    requires AllSpace(ind)
    ensures forall i :: 0 <= i < |lines| ==> AllSpace(Prefix(Indent(ind, lines)[i], |ind|))
    ensures StripAll(Indent(ind, lines), |ind|) == lines
  {
    var indented := Indent(ind, lines);
    forall i | 0 <= i < |indented|
      ensures Prefix(indented[i], |ind|) == ind && Suffix(indented[i], |ind|) == lines[i]
    {
      assert indented[i] == ind + lines[i];
    }
  }

  /** A first line, separator-free pieces and a last line, joined, split back into those lines. */
  lemma SplitFramed(first: string, parts: seq<string>, last: string, sep: char)
    requires |parts| >= 1
    requires sep !in first && sep !in last
    requires forall i :: 0 <= i < |parts| ==> sep !in parts[i]
    ensures SplitOn(first + [sep] + JoinWith(parts, sep) + [sep] + last, sep) == [first] + parts + [last]
  {
    var body := JoinWith(parts, sep);
    SplitJoin(parts, sep);
    SplitWithoutSep(first, sep);
    SplitWithoutSep(last, sep);
    SplitAround(first + [sep] + body, last, sep);
    SplitAround(first, body, sep);
  }

  /** With no bad middle line and at least one, the result joins the cut middle lines. */
  lemma UnindentOk(n: int, s: string)
    requires |SplitOn(s, '\n')| >= 2
    requires |Middle(s)| > 0
    requires forall i :: 0 <= i < |Middle(s)| ==> AllSpace(Prefix(Middle(s)[i], n))
    ensures Unindent(n, s) == Ok(JoinWith(StripAll(Middle(s), n), '\n'))
  {
    var bad := FirstBadLine(Middle(s), n);
    assert bad.None?;
  }
}
