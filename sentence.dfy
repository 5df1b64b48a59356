/**
 * Sentence synthesis from a template of part-of-speech slots: every slot is
 * filled with a word of that type, chosen freely among the candidates (the
 * random pick is a nondeterministic choice here); the first slot without a
 * candidate ends the attempt with an error message.
 */
module Sentence {
  import opened Text
  import opened Lexicon

  const NoTemplates := "Gap shablonlari topilmadi."

  /** The reply for a slot no stored word can fill. */
  function MissingTag(tag: string): string {
    tag + " turidagi so'z topilmadi."
  }

  /**
   * The single string the stop-word filter binds to `NOT IN (?)`: the stop
   * words joined by commas, so the filter excludes only a word equal to the
   * whole joined string.
   */
  const StopWordsJoined := "va,bu,u,bilan,uchun,da,dan,ga,ni,bir,lekin"

  /** `w` is a stored word of type `tag` that passes the SQL filter and the keyword filter. */
  predicate IsCandidate(words: map<string, WordRecord>, tag: string, keywords: seq<string>, w: string) {
    w in words && words[w].wordType == tag && w != StopWordsJoined && (keywords == [] || w in keywords)
  }

  predicate HasCandidate(words: map<string, WordRecord>, tag: string, keywords: seq<string>) {
    exists w :: w in words && IsCandidate(words, tag, keywords, w)
  }

  /** What a chosen word contributes: a verb with stored forms gives its present-tense third-person form. */
  function Surface(words: map<string, WordRecord>, tag: string, w: string): string
    requires w in words
  {
    var forms := words[w].forms;
    if tag == Fel && forms.Some? && forms.value != map[] then
      if "hozirgi" in forms.value && "3s" in forms.value["hozirgi"] then forms.value["hozirgi"]["3s"] else w
    else w
  }

  /** `picks` fills every slot of `tags` with one of its candidates. */
  predicate FilledWith(words: map<string, WordRecord>, tags: seq<string>, keywords: seq<string>, picks: seq<string>) {
    |picks| == |tags| && forall j :: 0 <= j < |tags| ==> IsCandidate(words, tags[j], keywords, picks[j])
  }

  function Surfaces(words: map<string, WordRecord>, tags: seq<string>, keywords: seq<string>, picks: seq<string>): seq<string>
    requires FilledWith(words, tags, keywords, picks)
  {
    seq(|picks|, j requires 0 <= j < |picks| => Surface(words, tags[j], picks[j]))
  }

  /**
   * `r` is a possible outcome of filling `tags`: the error for the first slot
   * without a candidate, or, when every slot has one, the surfaces of some
   * choice of candidates joined by single spaces.
   */
  ghost predicate SentenceOutcome(words: map<string, WordRecord>, tags: seq<string>, keywords: seq<string>, r: string) {
    || (exists k :: 0 <= k < |tags| && !HasCandidate(words, tags[k], keywords)
          && (forall j :: 0 <= j < k ==> HasCandidate(words, tags[j], keywords))
          && r == MissingTag(tags[k]))
    || ((forall j :: 0 <= j < |tags| ==> HasCandidate(words, tags[j], keywords))
          && exists picks :: FilledWith(words, tags, keywords, picks) && r == JoinSpaces(Surfaces(words, tags, keywords, picks)))
  }

  /** generate_sentence: pick a template, then a candidate per slot, appending its surface. */
  method GenerateSentence(words: map<string, WordRecord>, templates: seq<seq<string>>, keywords: seq<string>)
    returns (r: string)
    ensures templates == [] ==> r == NoTemplates
    ensures templates != [] ==> exists tags :: tags in templates && SentenceOutcome(words, tags, keywords, r)
  {
    if templates == [] {
      return NoTemplates;
    }
    assert templates[0] in templates;
    var tags :| tags in templates;
    var result: seq<string> := [];
    ghost var picks: seq<string> := [];
    var i := 0;
    while i < |tags|
      invariant 0 <= i <= |tags|
      invariant forall j :: 0 <= j < i ==> HasCandidate(words, tags[j], keywords)
      invariant FilledWith(words, tags[..i], keywords, picks)
      invariant result == Surfaces(words, tags[..i], keywords, picks)
    {
      var tag := tags[i];
      if !HasCandidate(words, tag, keywords) {
        r := MissingTag(tag);
        return;
      }
      var w :| w in words && IsCandidate(words, tag, keywords, w);
      result := result + [Surface(words, tag, w)];
      picks := picks + [w];
      i := i + 1;
      assert tags[..i] == tags[..i - 1] + [tag];
    }
    assert tags[..i] == tags;
    r := JoinSpaces(result);
  }

  // ---------------------------------------------------------------------------
  // Properties that hold for every choice

  /** The stop-word filter never excludes a `\w+` word: the joined string holds commas. */
  lemma StopFilterKeepsWords(words: map<string, WordRecord>, tag: string, keywords: seq<string>, w: string)
    requires IsWord(w)
    ensures IsCandidate(words, tag, keywords, w) <==>
      w in words && words[w].wordType == tag && (keywords == [] || w in keywords)
  {
    assert StopWordsJoined[2] == ',';
    WordHasNoChar(w, ',');
  }

  /** Whatever the choices, a slot without candidates preceded by fillable ones decides the reply. */
  lemma FirstEmptySlotDecides(words: map<string, WordRecord>, tags: seq<string>, keywords: seq<string>, r: string, k: int)
    requires SentenceOutcome(words, tags, keywords, r)
    requires 0 <= k < |tags| && !HasCandidate(words, tags[k], keywords)
    requires forall j :: 0 <= j < k ==> HasCandidate(words, tags[j], keywords)
    ensures r == MissingTag(tags[k])
  {
    var k' :| 0 <= k' < |tags| && !HasCandidate(words, tags[k'], keywords)
      && (forall j :: 0 <= j < k' ==> HasCandidate(words, tags[j], keywords))
      && r == MissingTag(tags[k']);
    assert !(k < k') && !(k' < k);
  }

  /**
   * With keywords given and no verb slot, a completed sentence is one keyword
   * per slot, joined by single spaces.
   */
  lemma SentenceOfKeywords(words: map<string, WordRecord>, tags: seq<string>, keywords: seq<string>, r: string)
    requires SentenceOutcome(words, tags, keywords, r)
    requires keywords != [] && Fel !in tags
    requires forall j :: 0 <= j < |tags| ==> HasCandidate(words, tags[j], keywords)
    ensures exists ws :: |ws| == |tags| && (forall j :: 0 <= j < |ws| ==> ws[j] in keywords) && r == JoinSpaces(ws)
  {
    if k :| 0 <= k < |tags| && !HasCandidate(words, tags[k], keywords) {
      assert false;
    }
    var picks :| FilledWith(words, tags, keywords, picks) && r == JoinSpaces(Surfaces(words, tags, keywords, picks));
    assert Surfaces(words, tags, keywords, picks) == picks by {
      forall j | 0 <= j < |picks| ensures Surface(words, tags[j], picks[j]) == picks[j] {
        assert tags[j] in tags;
      }
    }
  }

  /**
   * After a learning pass over the input tokens, a token that was new is a
   * noun and a keyword, so every noun slot has a candidate.
   */
  lemma LearnedTokenFillsNounSlot(oldWords: map<string, WordRecord>, newWords: map<string, WordRecord>, tokens: seq<string>, w: string)
    requires Inserted(oldWords, newWords, Fresh(oldWords.Keys, tokens), Always(Ot))
    requires w in tokens && w !in oldWords && IsWord(w)
    ensures HasCandidate(newWords, Ot, tokens)
  {
    FreshProperties(oldWords.Keys, tokens);
    assert w in newWords;
    StopFilterKeepsWords(newWords, Ot, tokens, w);
  }
}
