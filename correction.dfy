/**
 * Fuzzy correction of user input: each `\w+` token of the lower-cased input
 * is replaced by the nearest known word when that word is within edit
 * distance 3, and the tokens are re-joined with single spaces.
 */
module Correction {
  import opened Text
  import opened EditDistance

  /** Largest edit distance at which a token is still corrected. */
  const MaxDistance: nat := 3

  /** Distance between the lower-cased token and the lower-cased known word. */
  function WordDistance(word: string, known: string): nat {
    Distance(Lower(word), Lower(known))
  }

  /**
   * `r` is what correcting `word` against the list `known` yields: the word
   * itself when it is empty or already known; otherwise the first known word,
   * in list order, at the smallest distance, when that distance is at most
   * MaxDistance; otherwise the word itself.
   */
  ghost predicate IsCorrection(word: string, known: seq<string>, r: string) {
    if word == [] || word in known then r == word
    else if forall j :: 0 <= j < |known| ==> WordDistance(word, known[j]) > MaxDistance then r == word
    else exists b :: 0 <= b < |known| && IsFirstNearest(word, known, b) && r == known[b]
  }

  /** Position `b` holds the first known word at minimal distance, within the threshold. */
  ghost predicate IsFirstNearest(word: string, known: seq<string>, b: int)
    requires 0 <= b < |known|
  {
    && WordDistance(word, known[b]) <= MaxDistance
    && (forall j :: 0 <= j < |known| ==> WordDistance(word, known[b]) <= WordDistance(word, known[j]))
    && (forall j :: 0 <= j < b ==> WordDistance(word, known[j]) > WordDistance(word, known[b]))
  }

  /** The correction of one token: a linear scan keeping the best candidate so far. */
  method CorrectWord(word: string, known: seq<string>) returns (corrected: string)
    ensures IsCorrection(word, known, corrected)
  {
    if word == [] || word in known {
      return word;
    }
    // MaxDistance + 1 stands for the initial float('inf'): the guard below
    // only ever accepts distances of at most MaxDistance.
    var minDistance: nat := MaxDistance + 1;
    corrected := word;
    ghost var best := -1;
    var i := 0;
    while i < |known|
      invariant 0 <= i <= |known|
      invariant minDistance <= MaxDistance + 1
      invariant minDistance == MaxDistance + 1 ==>
        corrected == word && best == -1 &&
        forall j :: 0 <= j < i ==> WordDistance(word, known[j]) > MaxDistance
      invariant minDistance <= MaxDistance ==>
        0 <= best < i && corrected == known[best] &&
        WordDistance(word, known[best]) == minDistance &&
        (forall j :: 0 <= j < i ==> minDistance <= WordDistance(word, known[j])) &&
        (forall j :: 0 <= j < best ==> WordDistance(word, known[j]) > minDistance)
    {
      var dist := WordDistance(word, known[i]);
      if dist < minDistance && dist <= MaxDistance {
        minDistance := dist;
        corrected := known[i];
        best := i;
      }
      i := i + 1;
    }
    if minDistance <= MaxDistance {
      assert IsFirstNearest(word, known, best);
    }
  }

  /** The specification admits exactly one correction. */
  lemma CorrectionIsUnique(word: string, known: seq<string>, r1: string, r2: string)
    requires IsCorrection(word, known, r1) && IsCorrection(word, known, r2)
    ensures r1 == r2
  {
    if word != [] && word !in known
      && !(forall j :: 0 <= j < |known| ==> WordDistance(word, known[j]) > MaxDistance)
    {
      var b1 :| 0 <= b1 < |known| && IsFirstNearest(word, known, b1) && r1 == known[b1];
      var b2 :| 0 <= b2 < |known| && IsFirstNearest(word, known, b2) && r2 == known[b2];
      assert b1 == b2;
    }
  }

  /** A correction is the token itself or a member of the known-word list. */
  lemma CorrectionIsTokenOrKnown(word: string, known: seq<string>, r: string)
    requires IsCorrection(word, known, r)
    ensures r == word || r in known
    ensures r != word ==> exists j :: 0 <= j < |known| && r == known[j] && WordDistance(word, r) <= MaxDistance
  {
  }

  /** A token with a known word within the threshold is never kept when it is unknown. */
  lemma CorrectionReplacesNearToken(word: string, known: seq<string>, r: string, j: int)
    requires IsCorrection(word, known, r)
    requires word != [] && word !in known
    requires 0 <= j < |known| && WordDistance(word, known[j]) <= MaxDistance
    ensures r in known && WordDistance(word, r) <= WordDistance(word, known[j])
  {
  }

  // ---------------------------------------------------------------------------
  // Whole-input correction

  /** `cs` holds, position by position, the corrections of the tokens `ts`. */
  ghost predicate CorrectsTokens(ts: seq<string>, known: seq<string>, cs: seq<string>) {
    |cs| == |ts| && forall i :: 0 <= i < |ts| ==> IsCorrection(ts[i], known, cs[i])
  }

  /** `text` is the corrected form of `input`: its corrected tokens joined by spaces. */
  ghost predicate IsCorrectedText(input: string, known: seq<string>, text: string) {
    exists cs :: CorrectsTokens(FindWords(Lower(input)), known, cs) && text == JoinSpaces(cs)
  }

  /** correct_input: tokenize the lower-cased input, correct each token, re-join. */
  method CorrectInput(input: string, known: seq<string>) returns (text: string)
    ensures IsCorrectedText(input, known, text)
  {
    var words := FindWords(Lower(input));
    var correctedWords: seq<string> := [];
    var i := 0;
    while i < |words|
      invariant 0 <= i <= |words|
      invariant CorrectsTokens(words[..i], known, correctedWords)
    {
      var c := CorrectWord(words[i], known);
      correctedWords := correctedWords + [c];
      i := i + 1;
    }
    assert words[..i] == words;
    text := JoinSpaces(correctedWords);
  }

  /** When every token is already known, correction leaves the tokens unchanged. */
  lemma CorrectedTextOfKnownTokens(input: string, known: seq<string>, text: string)
    requires IsCorrectedText(input, known, text)
    requires forall t :: t in FindWords(Lower(input)) ==> t in known
    ensures text == JoinSpaces(FindWords(Lower(input)))
  {
    var ts := FindWords(Lower(input));
    var cs :| CorrectsTokens(ts, known, cs) && text == JoinSpaces(cs);
    assert cs == ts by {
      forall i | 0 <= i < |ts| ensures cs[i] == ts[i] {
        assert ts[i] in known;
      }
    }
  }

  /**
   * A character that is neither a word character nor a space, a colon or an
   * apostrophe say, appears in the corrected text only when some known word
   * holds it: every token is a `\w+` run and every substitute a known word.
   */
  lemma CorrectedTextLacksChar(input: string, known: seq<string>, text: string, c: char)
    requires IsCorrectedText(input, known, text)
    requires !IsWordChar(c) && c != ' '
    requires forall k :: k in known ==> c !in k
    ensures c !in text
  {
    var ts := FindWords(Lower(input));
    var cs :| CorrectsTokens(ts, known, cs) && text == JoinSpaces(cs);
    if c in text {
      JoinSpacesChars(cs, c);
      var i :| 0 <= i < |cs| && c in cs[i];
      CorrectionIsTokenOrKnown(ts[i], known, cs[i]);
      WordHasNoChar(ts[i], c);
      assert false;
    }
  }
}
