/**
 * The few JavaScript string built-ins the installer relies on, stated over
 * Dafny strings: `indexOf`, `replace` with a string pattern, `.length` in
 * UTF-16 code units, and the case folding of a regular expression's `i` flag.
 */
module JsText {

  datatype Option<+T> = None | Some(value: T)

  /** `pat` occurs in `s` starting at index `i`. */
  predicate OccursAt(s: string, pat: string, i: nat) {
    i + |pat| <= |s| && s[i..i + |pat|] == pat
  }

  /** Searches `s` for `pat` from index `from` on. */
  function IndexFrom(s: string, pat: string, from: nat): (r: Option<nat>)
    requires from <= |s|
    decreases |s| - from
    ensures r.Some? ==> from <= r.value && OccursAt(s, pat, r.value)
    ensures r.Some? ==> forall j: nat :: from <= j < r.value ==> !OccursAt(s, pat, j)
    ensures r.None? ==> forall j: nat :: from <= j ==> !OccursAt(s, pat, j)
  {
    if OccursAt(s, pat, from) then Some(from)
    else if from == |s| then None
    else IndexFrom(s, pat, from + 1)
  }

  /**
   * `s.indexOf(pat)`: the least index at which `pat` occurs, or None where
   * JavaScript answers -1.
   */
  function IndexOf(s: string, pat: string): (r: Option<nat>)
    ensures r.Some? ==> OccursAt(s, pat, r.value)
    ensures r.Some? ==> forall j: nat :: j < r.value ==> !OccursAt(s, pat, j)
    ensures r.None? <==> forall j: nat :: !OccursAt(s, pat, j)
  {
    IndexFrom(s, pat, 0)
  }

  /**
   * `s.replace(pat, rep)` for a string pattern and a one-character
   * replacement: only the first occurrence is replaced. A replacement of one
   * character holds no `$` substitution pattern (those take two characters),
   * so it is inserted as it is.
   */
  function ReplaceFirst(s: string, pat: string, rep: char): (r: string)
    ensures IndexOf(s, pat).None? ==> r == s
    ensures IndexOf(s, pat).Some? ==>
      var i := IndexOf(s, pat).value;
      |r| == |s| - |pat| + 1 && r[..i] == s[..i] && r[i] == rep && r[i + 1..] == s[i + |pat|..]
  {
    match IndexOf(s, pat)
    case None => s
    case Some(i) => s[..i] + [rep] + s[i + |pat|..]
  }

  /** Number of UTF-16 code units of one character: two above the BMP. */
  function CodeUnits(c: char): nat {
    if c as int > 0xFFFF then 2 else 1
  }

  /** JavaScript's `s.length`, which counts UTF-16 code units. */
  function Utf16Length(s: string): (n: nat)
    ensures |s| <= n <= 2 * |s|
    ensures s == [] <==> n == 0
  {
    if s == [] then 0 else CodeUnits(s[0]) + Utf16Length(s[1..])
  }

  /**
   * The folding used by a regular expression with the `i` flag and without
   * `u`: a character is compared by its upper-case form, except that a
   * non-ASCII character never folds onto an ASCII one. For the letters the
   * installer's pattern uses this leaves exactly the ASCII case pairs, which
   * folding to lower case captures.
   */
  function FoldCase(c: char): char {
    if 'A' <= c <= 'Z' then (c as int + 32) as char else c
  }

  /** A whole string folded character by character. */
  function FoldString(s: string): string {
    seq(|s|, i requires 0 <= i < |s| => FoldCase(s[i]))
  }

  /**
   * A lower-case ASCII letter of a pattern compared under the `i` flag
   * matches exactly two characters: itself and its upper-case form.
   */
  lemma FoldCaseMatches(c: char, p: char)
    requires 'a' <= p <= 'z'
    ensures FoldCase(c) == p <==> c == p || c as int == p as int - 32
  {
  }

  /** Folding twice is folding once, and folding keeps the length. */
  lemma {:induction false} FoldStringIdempotent(s: string)
    ensures |FoldString(s)| == |s|
    ensures FoldString(FoldString(s)) == FoldString(s)
  {
    var f := FoldString(s);
    forall i | 0 <= i < |s| ensures FoldString(f)[i] == f[i] {
      assert f[i] == FoldCase(s[i]);
    }
  }
}
