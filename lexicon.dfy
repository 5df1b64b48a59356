/**
 * The vocabulary: one record per word (the `words` table), the rules that
 * derive a new word's record (part of speech, vowel class, plural), the
 * grammar-form lookup over one record, and the list of words a learning
 * pass actually inserts.
 */
module Lexicon {
  import opened Text

  /** Stored conjugations: tense -> person -> form (the JSON `forms` column). */
  type Forms = map<string, map<string, string>>

  /** A row of the `words` table, keyed by the word itself. */
  datatype WordRecord = WordRecord(wordType: string, unli: string, kopluk: string, forms: Option<Forms>)

  /** Part-of-speech tags: noun and verb. */
  const Ot := "ot"
  const Fel := "fel"
  /** Vowel classes: back ("thick") and front ("thin"). */
  const Qalin := "qalin"
  const Ingichka := "ingichka"
  const PluralSuffix := "lar"
  const BackVowels := "aou"
  /** The tenses a verb form can be asked for. */
  const Tenses := ["otgan", "hozirgi", "kelasi"]

  /** Whether some character of `w` is one of a, o, u. */
  function HasBackVowel(w: string): (b: bool)
    ensures b <==> exists i :: 0 <= i < |w| && w[i] in BackVowels
  {
    if w == [] then false
    else if w[0] in BackVowels then true
    else
      assert forall i :: 1 <= i < |w| ==> w[i] == w[1..][i - 1];
      HasBackVowel(w[1..])
  }

  function VowelClass(w: string): string {
    if HasBackVowel(w) then Qalin else Ingichka
  }

  function PluralOf(w: string, wordType: string): string {
    w + (if wordType == Ot then PluralSuffix else "")
  }

  /** The record a word gets when it is learned with the given type. */
  function NewEntry(w: string, wordType: string): WordRecord {
    WordRecord(wordType, VowelClass(w), PluralOf(w, wordType), None)
  }

  /** Type of a word learned from a text file: a verb when it ends in a verb suffix. */
  function FileWordType(w: string): string {
    if EndsWith(w, "moq") || EndsWith(w, "di") || EndsWith(w, "yapti") then Fel else Ot
  }

  /** How the two learning paths choose a new word's type. */
  datatype TypeRule = Always(wordType: string) | BySuffix

  function TypeFor(rule: TypeRule, w: string): string {
    match rule
    case Always(t) => t
    case BySuffix => FileWordType(w)
  }

  /** The `forms` column as stored: an empty mapping is stored as absent. */
  function StoredForms(forms: Option<Forms>): Option<Forms> {
    if forms.Some? && forms.value != map[] then forms else None
  }

  // ---------------------------------------------------------------------------
  // Grammar-form lookup

  /** str(details): the person key, or "None" when none was given. */
  function DetailsText(details: Option<string>): string {
    if details.Some? then details.value else "None"
  }

  /** generate_grammar_form: a decision table over the stored record of `word`. */
  function GrammarForm(words: map<string, WordRecord>, word: string, formType: string, details: Option<string>): string {
    if word !in words then word + " so'zlar ro'yxatida topilmadi."
    else
      var r := words[word];
      if formType == "kopluk" && r.wordType == Ot then r.kopluk
      else if formType in Tenses && r.wordType == Fel then
        if r.forms.Some? && r.forms.value != map[] && details.Some?
          && formType in r.forms.value && details.value in r.forms.value[formType]
        then r.forms.value[formType][details.value]
        else formType + " zamon uchun " + DetailsText(details) + " shaxs topilmadi."
      else word + " uchun " + formType + " shakli topilmadi."
  }

  /** A noun learned by the chat or file path answers a plural request with word + "lar". */
  lemma GrammarFormOfLearnedNoun(words: map<string, WordRecord>, w: string, details: Option<string>)
    requires w in words && words[w] == NewEntry(w, Ot)
    ensures GrammarForm(words, w, "kopluk", details) == w + "lar"
  {
  }

  /** A learned verb has no stored forms, so every tense request reports the person missing. */
  lemma GrammarFormOfLearnedVerb(words: map<string, WordRecord>, w: string, tense: string, details: Option<string>)
    requires w in words && words[w] == NewEntry(w, Fel) && tense in Tenses
    ensures GrammarForm(words, w, tense, details) == tense + " zamon uchun " + DetailsText(details) + " shaxs topilmadi."
  {
  }

  // ---------------------------------------------------------------------------
  // Which words a learning pass inserts

  /**
   * The words of `ws` that a pass of insert-if-absent actually inserts into a
   * table holding `known`: each word absent from the table and not inserted
   * earlier in the same pass, in order.
   */
  function Fresh(known: set<string>, ws: seq<string>): seq<string> {
    if ws == [] then []
    else
      var f := Fresh(known, ws[..|ws| - 1]);
      var w := ws[|ws| - 1];
      if w in known || w in f then f else f + [w]
  }

  /** The inserted words are distinct, come from `ws`, were absent, and are all the absent words of `ws`. */
  lemma {:induction false} FreshProperties(known: set<string>, ws: seq<string>)
    ensures forall i, j :: 0 <= i < j < |Fresh(known, ws)| ==> Fresh(known, ws)[i] != Fresh(known, ws)[j]
    ensures forall w :: w in Fresh(known, ws) <==> w in ws && w !in known
  {
    if ws != [] {
      var init := ws[..|ws| - 1];
      FreshProperties(known, init);
      assert ws == init + [ws[|ws| - 1]];
    }
  }

  /** A pass over a prefix inserts a prefix of what the whole pass inserts. */
  lemma {:induction false} FreshPrefix(known: set<string>, ws: seq<string>, m: nat)
    requires m <= |ws|
    ensures Fresh(known, ws[..m]) <= Fresh(known, ws)
    decreases |ws|
  {
    if m < |ws| {
      assert ws[..|ws| - 1][..m] == ws[..m];
      FreshPrefix(known, ws[..|ws| - 1], m);
    } else {
      assert ws[..m] == ws;
    }
  }

  /** A pass over distinct absent words inserts all of them, in order. */
  lemma {:induction false} FreshOfDistinct(known: set<string>, ws: seq<string>)
    requires forall i, j :: 0 <= i < j < |ws| ==> ws[i] != ws[j]
    requires forall i :: 0 <= i < |ws| ==> ws[i] !in known
    ensures Fresh(known, ws) == ws
  {
    if ws != [] {
      FreshOfDistinct(known, ws[..|ws| - 1]);
      assert ws == ws[..|ws| - 1] + [ws[|ws| - 1]];
    }
  }

  /** One more word visited: it is inserted unless known or already inserted. */
  lemma FreshStep(known: set<string>, ws: seq<string>, i: nat)
    requires i < |ws|
    ensures Fresh(known, ws[..i + 1]) ==
      if ws[i] in known || ws[i] in Fresh(known, ws[..i]) then Fresh(known, ws[..i])
      else Fresh(known, ws[..i]) + [ws[i]]
  {
    assert ws[..i + 1][..i] == ws[..i];
  }

  /** A pass inserts at most as many words as it visits. */
  lemma {:induction false} FreshLength(known: set<string>, ws: seq<string>)
    ensures |Fresh(known, ws)| <= |ws|
  {
    if ws != [] {
      FreshLength(known, ws[..|ws| - 1]);
    }
  }

  /** `newWords` is `oldWords` after inserting, with the type `rule` gives, every word of `added`. */
  ghost predicate Inserted(oldWords: map<string, WordRecord>, newWords: map<string, WordRecord>, added: seq<string>, rule: TypeRule) {
    && newWords.Keys == oldWords.Keys + (set w | w in added)
    && forall w :: w in newWords ==>
         newWords[w] == if w in oldWords then oldWords[w] else NewEntry(w, TypeFor(rule, w))
  }

  lemma InsertedKeys(oldWords: map<string, WordRecord>, newWords: map<string, WordRecord>, added: seq<string>, rule: TypeRule)
    requires Inserted(oldWords, newWords, added, rule)
    ensures forall w :: w in newWords <==> w in oldWords || w in added
  {
  }

  /** Inserting one more absent word extends the pass by that word. */
  lemma InsertedStep(oldWords: map<string, WordRecord>, newWords: map<string, WordRecord>, added: seq<string>, rule: TypeRule, w: string)
    requires Inserted(oldWords, newWords, added, rule) && w !in newWords
    ensures Inserted(oldWords, newWords[w := NewEntry(w, TypeFor(rule, w))], added + [w], rule)
  {
    assert (set x | x in added + [w]) == (set x | x in added) + {w};
  }

  /**
   * A word a file pass inserted is a verb exactly when it ends in a verb
   * suffix; it is "qalin" exactly when it has a, o or u; it has a "lar"
   * plural exactly when it is not a verb; and it has no forms.
   */
  lemma FileLearnedRecord(oldWords: map<string, WordRecord>, newWords: map<string, WordRecord>, added: seq<string>,
                          w: string, details: Option<string>)
    requires Inserted(oldWords, newWords, added, BySuffix) && w in added && w !in oldWords
    ensures w in newWords
    ensures newWords[w].wordType == Fel <==> EndsWith(w, "moq") || EndsWith(w, "di") || EndsWith(w, "yapti")
    ensures newWords[w].wordType == Ot <==> !(EndsWith(w, "moq") || EndsWith(w, "di") || EndsWith(w, "yapti"))
    ensures newWords[w].unli == Qalin <==> exists i :: 0 <= i < |w| && w[i] in "aou"
    ensures newWords[w].kopluk == w + "lar" <==> newWords[w].wordType != Fel
    ensures newWords[w].forms.None?
  {
    InsertedKeys(oldWords, newWords, added, BySuffix);
    var r := NewEntry(w, FileWordType(w));
    assert newWords[w] == r;
    if r.wordType == Fel {
      assert |r.kopluk| == |w| < |w + "lar"|;
    }
  }

  /** The plural request on a word a file pass inserted: its "lar" plural, or "no such form" for a verb. */
  lemma FileLearnedPlural(oldWords: map<string, WordRecord>, newWords: map<string, WordRecord>, added: seq<string>,
                          w: string, details: Option<string>)
    requires Inserted(oldWords, newWords, added, BySuffix) && w in added && w !in oldWords
    ensures GrammarForm(newWords, w, "kopluk", details) ==
      if EndsWith(w, "moq") || EndsWith(w, "di") || EndsWith(w, "yapti") then w + " uchun " + "kopluk" + " shakli topilmadi."
      else w + "lar"
  {
    InsertedKeys(oldWords, newWords, added, BySuffix);
    assert newWords[w] == NewEntry(w, FileWordType(w));
  }

  /**
   * A learning pass changes no grammar-form answer for a word it did not
   * insert: stored words keep their records, and absent ones stay absent.
   */
  lemma InsertedKeepsGrammarForms(oldWords: map<string, WordRecord>, newWords: map<string, WordRecord>, added: seq<string>,
                                  rule: TypeRule, w: string, formType: string, details: Option<string>)
    requires Inserted(oldWords, newWords, added, rule)
    requires w in oldWords || w !in added
    ensures GrammarForm(newWords, w, formType, details) == GrammarForm(oldWords, w, formType, details)
  {
    InsertedKeys(oldWords, newWords, added, rule);
  }
}
