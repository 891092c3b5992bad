/**
 * The answer test of the installer's "Continue? [y/n]" prompt: the typed line
 * is matched against the case-insensitive pattern `/^y|yes|ok|true$/i`.
 * Alternation binds loosest, so `^` anchors only `y` and `$` only `true`.
 */
module Confirm {
  import opened JsText

  /** One branch of an alternation of literal words, with its anchors. */
  datatype Alternative = Alternative(atStart: bool, word: string, atEnd: bool)

  /** The branches of `^y|yes|ok|true$`, in lower case. */
  const AnswerPattern: seq<Alternative> := [
    Alternative(true, "y", false),
    Alternative(false, "yes", false),
    Alternative(false, "ok", false),
    Alternative(false, "true", true)
  ]

  /** A branch matches the input (compared with the `i` flag) from position `i`. */
  predicate MatchesAt(alt: Alternative, input: string, i: nat)
    ensures MatchesAt(alt, input, i) ==> i + |alt.word| <= |input|
  {
    && (alt.atStart ==> i == 0)
    && OccursAt(FoldString(input), alt.word, i)
    && (alt.atEnd ==> i + |alt.word| == |input|)
  }

  /**
   * `RegExp.prototype.test` without the `g` flag: the search tries every
   * start position, and at each every branch; the answer is whether any
   * attempt matches.
   */
  predicate Test(pattern: seq<Alternative>, input: string)
    ensures Test(pattern, input) ==> exists k: nat :: k < |pattern| && |pattern[k].word| <= |input|
  {
    exists k: nat, i: nat :: k < |pattern| && i <= |input| && MatchesAt(pattern[k], input, i)
  }

  /** Folding the input first changes no answer of the search. */
  lemma TestIgnoresCase(pattern: seq<Alternative>, input: string)
    ensures Test(pattern, FoldString(input)) <==> Test(pattern, input)
  {
    FoldStringIdempotent(input);
    forall alt: Alternative, i: nat
      ensures MatchesAt(alt, FoldString(input), i) <==> MatchesAt(alt, input, i)
    {
    }
  }

  /** The value `confirm` hands to its callback for the typed line. */
  predicate IsAffirmative(input: string)
    ensures IsAffirmative(input) <==> Test(AnswerPattern, FoldString(input))
  {
    TestIgnoresCase(AnswerPattern, input);
    Test(AnswerPattern, input)
  }

  /** `w` is a contiguous part of `s`, defined by walking along `s`. */
  predicate ContainsWord(s: string, w: string)
    decreases |s|
  {
    |w| <= |s| && (s[..|w|] == w || (s != [] && ContainsWord(s[1..], w)))
  }

  lemma {:induction false} ContainsWordIff(s: string, w: string)
    ensures ContainsWord(s, w) <==> exists i: nat :: OccursAt(s, w, i)
  {
    if |w| > |s| {
      assert forall i: nat :: !OccursAt(s, w, i);
    } else if s[..|w|] == w {
      assert OccursAt(s, w, 0);
    } else {
      ContainsWordIff(s[1..], w);
      if ContainsWord(s[1..], w) {
        var i: nat :| OccursAt(s[1..], w, i);
        assert s[i + 1..i + 1 + |w|] == s[1..][i..i + |w|];
        assert OccursAt(s, w, i + 1);
      }
      if i: nat :| OccursAt(s, w, i) {
        assert i != 0;
        assert s[1..][i - 1..i - 1 + |w|] == s[i..i + |w|];
        assert OccursAt(s[1..], w, i - 1);
      }
    }
  }

  /** The plain reading of the answer test, on the case-folded line. */
  predicate PlainAffirmative(f: string) {
    || (|f| >= 1 && f[0] == 'y')
    || ContainsWord(f, "yes")
    || ContainsWord(f, "ok")
    || (|f| >= 4 && f[|f| - 4..] == "true")
  }

  lemma PlainImpliesMatch(input: string)
    requires PlainAffirmative(FoldString(input))
    ensures IsAffirmative(input)
  {
    var f := FoldString(input);
    if |f| >= 1 && f[0] == 'y' {
      assert MatchesAt(AnswerPattern[0], input, 0);
    } else if ContainsWord(f, "yes") {
      ContainsWordIff(f, "yes");
      var i: nat :| OccursAt(f, "yes", i);
      assert MatchesAt(AnswerPattern[1], input, i);
    } else if ContainsWord(f, "ok") {
      ContainsWordIff(f, "ok");
      var i: nat :| OccursAt(f, "ok", i);
      assert MatchesAt(AnswerPattern[2], input, i);
    } else {
      assert MatchesAt(AnswerPattern[3], input, |f| - 4);
    }
  }

  lemma MatchImpliesPlain(input: string)
    requires IsAffirmative(input)
    ensures PlainAffirmative(FoldString(input))
  {
    var f := FoldString(input);
    var k: nat, i: nat :| k < |AnswerPattern| && i <= |input| && MatchesAt(AnswerPattern[k], input, i);
    if k == 0 {
      assert f[0] == f[0..1][0] == 'y';
    } else if k == 1 {
      ContainsWordIff(f, "yes");
    } else if k == 2 {
      ContainsWordIff(f, "ok");
    } else {
      assert f[|f| - 4..] == f[i..i + 4];
    }
  }

  /**
   * The answer in plain words: the line (ignoring ASCII case) starts with
   * "y", contains "yes", contains "ok", or ends with "true".
   */
  lemma AffirmativeIff(input: string)
    ensures IsAffirmative(input) <==> PlainAffirmative(FoldString(input))
  {
    if IsAffirmative(input) {
      MatchImpliesPlain(input);
    }
    if PlainAffirmative(FoldString(input)) {
      PlainImpliesMatch(input);
    }
  }

  /** Every letter of a word contained in a text occurs in that text. */
  lemma {:induction false} LettersOfContainedWord(s: string, w: string)
    ensures ContainsWord(s, w) ==> forall j :: 0 <= j < |w| ==> w[j] in s
  {
    ContainsWordIff(s, w);
    if ContainsWord(s, w) {
      var i: nat :| OccursAt(s, w, i);
      forall j | 0 <= j < |w| ensures w[j] in s {
        assert w[j] == s[i..i + |w|][j] == s[i + j];
      }
    }
  }

  /** "no, ok" is taken as yes: `ok` is matched anywhere in the line. */
  lemma ExampleNoCommaOk()
    ensures IsAffirmative("no, ok")
  {
    assert MatchesAt(AnswerPattern[2], "no, ok", 4);
  }

  /** "Yellow" is taken as yes: `^y` looks only at the first letter. */
  lemma ExampleYellow()
    ensures IsAffirmative("Yellow")
  {
    assert MatchesAt(AnswerPattern[0], "Yellow", 0);
  }

  /**
   * A line is a no when, ignoring case, it has no `y` (so neither `^y` nor
   * `yes` can match), no `k` (so `ok` cannot), and does not end with `true`.
   */
  lemma NegativeWithoutKeyLetters(line: string)
    requires 'y' !in FoldString(line) && 'k' !in FoldString(line)
    requires !(|line| >= 4 && FoldString(line)[|line| - 4..] == "true")
    ensures !IsAffirmative(line)
  {
    var f := FoldString(line);
    LettersOfContainedWord(f, "yes");
    assert "yes"[0] !in f;
    LettersOfContainedWord(f, "ok");
    assert "ok"[1] !in f;
    AffirmativeIff(line);
  }

  /** "n" is a no. */
  lemma ExampleN()
    ensures !IsAffirmative("n")
  {
    assert FoldString("n") == "n";
    NegativeWithoutKeyLetters("n");
  }

  /** "Trueish" is a no: `true` must end the line. */
  lemma ExampleTrueish()
    ensures !IsAffirmative("Trueish")
  {
    assert FoldString("Trueish") == "trueish";
    NegativeWithoutKeyLetters("Trueish");
  }
}
