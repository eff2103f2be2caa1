/** The keyword heuristic that labels every article Positive, Negative or
    Neutral from its description. */
module Sentiment {
  import opened Corpus

  datatype Label = Positive | Negative | Neutral

  /** The keywords checked first; any one of them makes the text Positive. */
  const PositiveWords: seq<string> := ["win", "success", "growth", "rise"]

  /** The keywords checked only when no positive keyword occurs. */
  const NegativeWords: seq<string> := ["loss", "fail", "crisis", "drop"]

  /** Lower-casing of one character, on the ASCII letters. */
  function LowerChar(c: char): char
  {
    if 'A' <= c <= 'Z' then (c as int - 'A' as int + 'a' as int) as char else c
  }

  /** `text.lower()`, character by character. */
  function Lower(s: string): string
  {
    seq(|s|, i requires 0 <= i < |s| => LowerChar(s[i]))
  }

  /** Two texts that differ at most in the case of their letters. */
  ghost predicate SameUpToCase(a: string, b: string)
  {
    |a| == |b| && forall i :: 0 <= i < |a| ==> LowerChar(a[i]) == LowerChar(b[i])
  }

  /** `w` occurs in `t` starting at position `i`. */
  ghost predicate OccursAt(w: string, t: string, i: int)
  {
    0 <= i && i + |w| <= |t| && t[i..i + |w|] == w
  }

  /** The meaning of Python's `w in t` on strings: `w` is a substring of `t`. */
  ghost predicate Occurs(w: string, t: string)
  {
    exists i :: OccursAt(w, t, i)
  }

  /** Some word of `words` is a substring of `t`. */
  ghost predicate Mentions(t: string, words: seq<string>)
  {
    exists w :: w in words && Occurs(w, t)
  }

  lemma OccursAtStart(w: string, t: string)
    requires w <= t
    ensures Occurs(w, t)
  {
    assert OccursAt(w, t, 0);
  }

  lemma OccursShift(w: string, t: string)
    requires t != [] && !(w <= t)
    ensures Occurs(w, t) <==> Occurs(w, t[1..])
  {
    if Occurs(w, t) {
      var i :| OccursAt(w, t, i);
      if i == 0 {
        assert false;
      } else {
        assert t[1..][i - 1..i - 1 + |w|] == t[i..i + |w|];
        assert OccursAt(w, t[1..], i - 1);
      }
    }
    if Occurs(w, t[1..]) {
      var i :| OccursAt(w, t[1..], i);
      assert t[1..][i..i + |w|] == t[i + 1..i + 1 + |w|];
      assert OccursAt(w, t, i + 1);
    }
  }

  /** Python's `w in t`: scan the start positions of `t` from left to right. */
  function Contains(t: string, w: string): (r: bool)
    ensures r <==> Occurs(w, t)
    decreases |t|
  {
    if w <= t then
      OccursAtStart(w, t);
      true
    else if t == [] then
      assert !Occurs(w, t);
      false
    else
      OccursShift(w, t);
      Contains(t[1..], w)
  }

  /** `any(w in t for w in words)`. */
  function AnyContained(words: seq<string>, t: string): (r: bool)
    ensures r <==> Mentions(t, words)
    decreases |words|
  {
    if words == [] then false
    else
      assert forall w :: w in words <==> w == words[0] || w in words[1..];
      Contains(t, words[0]) || AnyContained(words[1..], t)
  }

  /** `analyze_sentiment(text)` for a text cell: lower-case the text, then
      the positive keywords win over the negative ones, and a text with
      none of the eight keywords is Neutral. */
  function AnalyzeSentiment(text: string): (r: Label)
    ensures r == Positive <==> Mentions(Lower(text), PositiveWords)
    ensures r == Negative <==>
      !Mentions(Lower(text), PositiveWords) && Mentions(Lower(text), NegativeWords)
    ensures r == Neutral <==> !Mentions(Lower(text), PositiveWords + NegativeWords)
  {
    var t := Lower(text);
    assert forall w :: w in PositiveWords + NegativeWords <==> w in PositiveWords || w in NegativeWords;
    if AnyContained(PositiveWords, t) then Positive
    else if AnyContained(NegativeWords, t) then Negative
    else Neutral
  }

  /** `analyze_sentiment(cell)` as applied to a description cell, which is
      first converted with `str`. */
  function AnalyzeDescription(d: Description): (r: Label)
    ensures d.Text? ==> r == AnalyzeSentiment(d.text)
    ensures d.Missing? ==> r == Neutral
  {
    MissingIsNeutral();
    AnalyzeSentiment(Str(d))
  }

  /** A missing description reads as "nan", which holds none of the keywords. */
  lemma MissingIsNeutral()
    ensures AnalyzeSentiment("nan") == Neutral
  {
    var t := Lower("nan");
    assert t == "nan";
    forall w | w in PositiveWords + NegativeWords
      ensures !Occurs(w, t)
    {
      assert |w| == 3 ==> w == "win";
      assert t[0..3] == t != "win";
    }
  }

  /** The heuristic ignores the case of letters. */
  lemma CaseInsensitive(a: string, b: string)
    requires SameUpToCase(a, b)
    ensures AnalyzeSentiment(a) == AnalyzeSentiment(b)
  {
    assert Lower(a) == Lower(b);
  }

  lemma LowerConcat(a: string, b: string)
    ensures Lower(a + b) == Lower(a) + Lower(b)
  {
  }

  lemma OccursInContext(w: string, a: string, t: string, b: string)
    requires Occurs(w, t)
    ensures Occurs(w, a + t + b)
  {
    var i :| OccursAt(w, t, i);
    assert (a + t + b)[|a| + i..|a| + i + |w|] == t[i..i + |w|];
    assert OccursAt(w, a + t + b, |a| + i);
  }

  lemma MentionsInContext(words: seq<string>, a: string, t: string, b: string)
    requires Mentions(t, words)
    ensures Mentions(a + t + b, words)
  {
    var w :| w in words && Occurs(w, t);
    OccursInContext(w, a, t, b);
  }

  /** Matching is by substring: a text keeps a positive label however much
      text surrounds it. */
  lemma {:induction false} PositiveInContext(a: string, t: string, b: string)
    requires AnalyzeSentiment(t) == Positive
    ensures AnalyzeSentiment(a + t + b) == Positive
  {
    LowerConcat(a + t, b);
    LowerConcat(a, t);
    MentionsInContext(PositiveWords, Lower(a), Lower(t), Lower(b));
  }

  /** A text that is Neutral inside a longer text is Neutral on its own. */
  lemma {:induction false} NeutralOutOfContext(a: string, t: string, b: string)
    requires AnalyzeSentiment(a + t + b) == Neutral
    ensures AnalyzeSentiment(t) == Neutral
  {
    LowerConcat(a + t, b);
    LowerConcat(a, t);
    if AnalyzeSentiment(t) != Neutral {
      MentionsInContext(PositiveWords + NegativeWords, Lower(a), Lower(t), Lower(b));
    }
  }

  /** A keyword inside a longer word counts: "Window" contains "win". */
  lemma WindowIsPositive()
    ensures AnalyzeSentiment("Window") == Positive
  {
    var t := Lower("Window");
    assert t[0..3] == "win";
    assert OccursAt("win", t, 0);
    assert "win" in PositiveWords;
  }

  /** The positive check comes first: a text with "rise" and "crisis" is Positive. */
  lemma PositiveBeforeNegative()
    ensures AnalyzeSentiment("Prices rise in crisis") == Positive
  {
    var t := Lower("Prices rise in crisis");
    assert t[7..11] == "rise";
    assert OccursAt("rise", t, 7);
    assert "rise" in PositiveWords;
  }
}
