/**
 * The built-in memory: the `patterns` table (canonical key -> surface
 * variants) and the `responses` table (key -> reply), as the insertion-ordered
 * dictionaries Python builds from the literal, and the first-match pattern
 * step of the resolver.
 */
module Memory {
  import opened Text
  import Lexicon

  /** An insertion-ordered dictionary with string keys, as a list of entries. */
  type Dict<V> = seq<(string, V)>

  function Keys<V>(d: Dict<V>): seq<string> {
    seq(|d|, i requires 0 <= i < |d| => d[i].0)
  }

  ghost predicate DistinctKeys<V>(d: Dict<V>) {
    forall i, j :: 0 <= i < j < |d| ==> d[i].0 != d[j].0
  }

  function KeyIndex<V>(d: Dict<V>, k: string): (r: Option<nat>)
    ensures r.Some? ==> r.value < |d| && d[r.value].0 == k
    ensures r.None? ==> forall i :: 0 <= i < |d| ==> d[i].0 != k
  {
    if d == [] then None
    else if d[|d| - 1].0 == k then Some(|d| - 1)
    else KeyIndex(d[..|d| - 1], k)
  }

  /** d.get(k) */
  function Get<V>(d: Dict<V>, k: string): Option<V> {
    match KeyIndex(d, k)
    case None => None
    case Some(i) => Some(d[i].1)
  }

  /** d[k] = v: a present key keeps its position and takes the new value; a new key goes last. */
  function Put<V>(d: Dict<V>, k: string, v: V): Dict<V> {
    match KeyIndex(d, k)
    case None => d + [(k, v)]
    case Some(i) => d[i := (k, v)]
  }

  /** The dictionary a literal with these entries (in source order) evaluates to. */
  function BuildDict<V>(entries: seq<(string, V)>): Dict<V> {
    if entries == [] then []
    else
      var last := entries[|entries| - 1];
      Put(BuildDict(entries[..|entries| - 1]), last.0, last.1)
  }

  /** The value the last entry with key `k` gives, if any. */
  function LastValue<V>(entries: seq<(string, V)>, k: string): Option<V> {
    if entries == [] then None
    else if entries[|entries| - 1].0 == k then Some(entries[|entries| - 1].1)
    else LastValue(entries[..|entries| - 1], k)
  }

  /**
   * A literal with repeated keys: every key appears once, in the position of
   * its first occurrence, and holds the value of its last occurrence.
   */
  lemma BuildDictSemantics<V>(entries: seq<(string, V)>)
    ensures DistinctKeys(BuildDict(entries))
    ensures Keys(BuildDict(entries)) == Lexicon.Fresh({}, Keys(entries))
    ensures forall k :: Get(BuildDict(entries), k) == LastValue(entries, k)
  {
    BuildDictKeys(entries);
    forall k ensures Get(BuildDict(entries), k) == LastValue(entries, k) {
      BuildDictLookup(entries, k);
    }
  }

  lemma {:induction false} BuildDictKeys<V>(entries: seq<(string, V)>)
    ensures DistinctKeys(BuildDict(entries))
    ensures Keys(BuildDict(entries)) == Lexicon.Fresh({}, Keys(entries))
  {
    if entries != [] {
      var init := entries[..|entries| - 1];
      var last := entries[|entries| - 1];
      BuildDictKeys(init);
      assert Keys(entries)[..|entries| - 1] == Keys(init);
      PutKeys(BuildDict(init), last.0, last.1);
    }
  }

  lemma {:induction false} BuildDictLookup<V>(entries: seq<(string, V)>, k: string)
    ensures Get(BuildDict(entries), k) == LastValue(entries, k)
  {
    if entries != [] {
      var init := entries[..|entries| - 1];
      var last := entries[|entries| - 1];
      BuildDictLookup(init, k);
      BuildDictKeys(init);
      PutGet(BuildDict(init), last.0, last.1, k);
    }
  }

  /** d[k] = v keeps the keys distinct, and appends `k` exactly when it is new. */
  lemma PutKeys<V>(d: Dict<V>, k: string, v: V)
    requires DistinctKeys(d)
    ensures DistinctKeys(Put(d, k, v))
    ensures Keys(Put(d, k, v)) == if k in Keys(d) then Keys(d) else Keys(d) + [k]
  {
    match KeyIndex(d, k)
    case None =>
      assert k !in Keys(d);
      assert Keys(d + [(k, v)]) == Keys(d) + [k];
    case Some(i) =>
      assert Keys(d) == Keys(d[i := (k, v)]);
      assert Keys(d)[i] == k;
  }

  /** After d[k] = v, looking up `k` gives `v` and every other key is unaffected. */
  lemma PutGet<V>(d: Dict<V>, k: string, v: V, k': string)
    requires DistinctKeys(d)
    ensures Get(Put(d, k, v), k') == if k' == k then Some(v) else Get(d, k')
  {
    match KeyIndex(d, k)
    case None =>
      if k' != k {
        assert KeyIndex(d + [(k, v)], k') == KeyIndex(d, k');
      }
    case Some(i) =>
      KeyIndexUpdate(d, i, v, k');
  }

  lemma KeyIndexDistinct<V>(d: Dict<V>, k: string, j: nat)
    requires DistinctKeys(d) && j < |d| && d[j].0 == k
    ensures KeyIndex(d, k) == Some(j)
  {
  }

  lemma KeyIndexUpdate<V>(d: Dict<V>, i: nat, v: V, k: string)
    requires i < |d| && DistinctKeys(d)
    ensures Get(d[i := (d[i].0, v)], k) == if k == d[i].0 then Some(v) else Get(d, k)
  {
    var d' := d[i := (d[i].0, v)];
    assert DistinctKeys(d');
    if j :| 0 <= j < |d| && d[j].0 == k {
      KeyIndexDistinct(d, k, j);
      KeyIndexDistinct(d', k, j);
    }
  }

  // ---------------------------------------------------------------------------
  // The seed literal, entry by entry as written

  const RawPatterns: seq<(string, seq<string>)> := [
    ("salom", ["salom", "assalomu alaykum"]),
    ("nima", ["nima gap", "nima yangilik", "nima qilyapsan", "bugun nima kun"]),
    ("gap", ["nima gap"]),
    ("yaxshimisiz", ["yaxshimisiz"]),
    ("rahmat", ["rahmat"]),
    ("qalesan", ["qalesan", "qandaysan"]),
    ("isming", ["isming nima"]),
    ("qayerda", ["qayerdasan", "qayerdansan"]),
    ("yosh", ["yoshing nechada"]),
    ("bugun", ["bugun nima kun"]),
    ("kun", ["bugun nima kun"]),
    ("vaqt", ["hozir soat necha"]),
    ("soat", ["hozir soat necha"]),
    ("ob", ["ob-havo qanday"]),
    ("havo", ["ob-havo qanday"]),
    ("qanday", ["qandaysan", "ob-havo qanday"]),
    ("shahar", ["qaysi shahar"]),
    ("qaysi", ["qaysi shahar"]),
    ("o'zbek", ["o'zbek tilida gaplashasanmi"]),
    ("til", ["o'zbek tilida gaplashasanmi"]),
    ("yordam", ["qanday yordam bera olasan"]),
    ("xayr", ["xayr", "xayrli kun"]),
    ("salom", ["salom", "assalomu alaykum"]),
    ("nima", ["nima gap", "nima yangilik", "nima qilyapsan", "nima qilayapti bot"]),
    ("qalesan", ["qalesan", "qandaysan", "nima hol"]),
    ("isming", ["isming nima"]),
    ("hayron", ["hayronman", "nima bu"]),
    ("yaxshi", ["yaxshisan", "yaxshi", "zo\U{2018}r"]),
    ("rahmat", ["rahmat", "tashakkur"])
  ]

  const Greeting := "Salom! Qanday yordam bera olaman?"

  const RawResponses: seq<(string, string)> := [
    ("salom", Greeting),
    ("assalomu alaykum", "Va alaykum assalom! Qanday yordam kerak?"),
    ("nima gap", "Hammasi zo'r! Senda nima gap?"),
    ("nima yangilik", "Hech qanday yangilik yo'q, sen aytsang-chi!"),
    ("nima qilyapsan", "Suhbatlashyapman, sen nima qilyapsan?"),
    ("bugun nima kun", "Bugun dushanba! Yana nima bilmoqchisan?"),
    ("yaxshimisiz", "Yaxshi, rahmat! Siz yaxshimisiz?"),
    ("rahmat", "Arzimaydi!"),
    ("qalesan", "Zo'r, sen qalesan?"),
    ("qandaysan", "Yaxshi, sen qandaysan?"),
    ("isming nima", "Men DTBOTman! \U{1F60A} Isming nima?"),
    ("qayerdasan", "Men bulutlarda, sen qayerdasan? \U{1F604}"),
    ("qayerdansan", "Men Toshkentdanman! Sen qayerdansan?"),
    ("yoshing nechada", "Men abadiy yoshman! \U{1F604} Senchi?"),
    ("hozir soat necha", "Hozir vaqtni bilish uchun telefoningga qarasang-chi! \U{1F61C}"),
    ("ob-havo qanday", "Ob-havo haqida aniq bilmayman, lekin derazadan qarasang bo'ladi! \U{1F60A}"),
    ("qaysi shahar", "Men Toshkentni yaxshi ko'raman, sen qaysi shahardan?"),
    ("o'zbek tilida gaplashasanmi", "Albatta, o'zbek tilida gaplashaman! Yana nima so'raymiz?"),
    ("qanday yordam bera olasan", "Savollarga javob beraman, yangi narsalarni o'rganaman! Nima so'ramoqchisan?"),
    ("xayr", "Xayr, yana ko'rishamiz!"),
    ("xayrli kun", "Senga ham xayrli kun!"),
    ("salom", Greeting),
    ("nima", "Hozir shu yerda sen bilan suhbatlashyapman! \U{1F60A} Senda nima gap?"),
    ("qalesan", "Yaxshi, sen qandaysan?"),
    ("isming", "Men DTBOTman! \U{1F60A} Isming nima?"),
    ("hayron", "Hayron bo\U{2018}lishga hojat yo\U{2018}q, hammasini tuzatamiz! \U{1F60A}"),
    ("yaxshi", "Zo\U{2018}r, yaxshi kayfiyatda bo\U{2018}l! \U{1F60E}"),
    ("rahmat", "Arzimaydi, doim yordam beraman!")
  ]

  /** The two tables the resolver consults. */
  datatype Tables = Tables(patterns: Dict<seq<string>>, responses: Dict<string>)

  function SeedTables(): Tables {
    Tables(BuildDict(RawPatterns), BuildDict(RawResponses))
  }

  /** The entry at position `i` of a built dictionary holds the last value given for its key. */
  lemma BuiltEntry<V>(entries: seq<(string, V)>, i: nat)
    requires i < |BuildDict(entries)|
    ensures LastValue(entries, BuildDict(entries)[i].0) == Some(BuildDict(entries)[i].1)
  {
    var d := BuildDict(entries);
    BuildDictSemantics(entries);
    KeyIndexDistinct(d, d[i].0, i);
  }

  /** The first keys of a built dictionary are the distinct keys of a prefix of the literal. */
  lemma BuiltKeysPrefix<V>(entries: seq<(string, V)>, m: nat)
    requires m <= |entries|
    ensures Lexicon.Fresh({}, Keys(entries[..m])) <= Keys(BuildDict(entries))
  {
    BuildDictSemantics(entries);
    assert Keys(entries)[..m] == Keys(entries[..m]);
    Lexicon.FreshPrefix({}, Keys(entries), m);
  }

  lemma {:induction false} LastValueAt<V>(entries: seq<(string, V)>, k: string, i: nat)
    requires i < |entries| && entries[i].0 == k
    requires forall j :: i < j < |entries| ==> entries[j].0 != k
    ensures LastValue(entries, k) == Some(entries[i].1)
  {
    if i < |entries| - 1 {
      LastValueAt(entries[..|entries| - 1], k, i);
    }
  }

  lemma {:induction false} LastValueAbsent<V>(entries: seq<(string, V)>, k: string)
    requires forall e :: e in entries ==> e.0 != k
    ensures LastValue(entries, k) == None
  {
    if entries != [] {
      assert entries[|entries| - 1] in entries;
      LastValueAbsent(entries[..|entries| - 1], k);
    }
  }

  lemma BuildDictGet<V>(entries: seq<(string, V)>, k: string)
    ensures Get(BuildDict(entries), k) == LastValue(entries, k)
  {
    BuildDictSemantics(entries);
  }

  // The seed lemmas below name the literal through a parameter equal to it,
  // which keeps the verifier from evaluating BuildDict on the whole literal.

  /** The first eight response keys, in the order Python's dict keeps them. */
  lemma SeedResponseKeys(entries: seq<(string, string)>)
    requires entries == RawResponses
    ensures |BuildDict(entries)| > 7
    ensures Keys(BuildDict(entries))[..8] == FirstResponseKeys
  {
    SeedResponsePrefix(entries);
    BuiltKeysPrefix(entries, 8);
    FirstResponseKeysDistinct();
    Lexicon.FreshOfDistinct({}, FirstResponseKeys);
  }

  const FirstResponseKeys := ["salom", "assalomu alaykum", "nima gap", "nima yangilik",
    "nima qilyapsan", "bugun nima kun", "yaxshimisiz", "rahmat"]

  lemma SeedResponsePrefix(entries: seq<(string, string)>)
    requires entries == RawResponses
    ensures Keys(entries[..8]) == FirstResponseKeys
  {
  }

  lemma FirstResponseKeysDistinct()
    ensures forall i, j :: 0 <= i < j < |FirstResponseKeys| ==> FirstResponseKeys[i] != FirstResponseKeys[j]
  {
    var ks := FirstResponseKeys;
    forall i, j | 0 <= i < j < |ks| ensures ks[i] != ks[j] {
      if i < 2 {} else if i < 4 {} else {}
    }
  }

  /** "salom" keeps its first value (both are the same text); "rahmat" takes its last one. */
  lemma SeedResponseValues(entries: seq<(string, string)>)
    requires entries == RawResponses
    ensures LastValue(entries, "salom") == Some(Greeting)
    ensures LastValue(entries, "rahmat") == Some("Arzimaydi, doim yordam beraman!")
  {
    forall j | 21 < j < |entries| ensures entries[j].0 != "salom" {
      if j == 22 {} else if j == 23 {} else if j == 24 {} else if j == 25 {} else if j == 26 {} else {}
    }
    LastValueAt(entries, "salom", 21);
    LastValueAt(entries, "rahmat", 27);
  }

  /** The second "salom" entry of the patterns literal is its last one. */
  lemma SeedPatternSalom(entries: seq<(string, seq<string>)>)
    requires entries == RawPatterns
    ensures LastValue(entries, "salom") == Some(["salom", "assalomu alaykum"])
  {
    forall j | 22 < j < |entries| ensures entries[j].0 != "salom" {
      if j == 23 {} else if j == 24 {} else if j == 25 {} else if j == 26 {} else if j == 27 {} else {}
    }
    LastValueAt(entries, "salom", 22);
  }

  /** No entry of the patterns literal has the key "assalomu alaykum". */
  lemma SeedPatternNoAssalomu(entries: seq<(string, seq<string>)>)
    requires entries == RawPatterns
    ensures LastValue(entries, "assalomu alaykum") == None
  {
    forall j | 0 <= j < |entries| ensures entries[j].0[0] != 'a' {
      if j < 5 {} else if j < 10 {} else if j < 15 {} else if j < 20 {} else if j < 25 {} else {}
    }
    LastValueAbsent(entries, "assalomu alaykum");
  }

  lemma SeedPatternEntries(entries: seq<(string, seq<string>)>)
    requires entries == RawPatterns
    ensures Get(BuildDict(entries), "salom") == Some(["salom", "assalomu alaykum"])
    ensures Get(BuildDict(entries), "assalomu alaykum") == None
  {
    BuildDictGet(entries, "salom");
    BuildDictGet(entries, "assalomu alaykum");
    SeedPatternSalom(entries);
    SeedPatternNoAssalomu(entries);
  }

  lemma SeedResponseEntries(rs: Dict<string>, raw: seq<(string, string)>)
    requires raw == RawResponses && rs == BuildDict(raw)
    ensures |rs| > 7
    ensures rs[0] == ("salom", Greeting)
    ensures rs[1].0 == "assalomu alaykum"
    ensures rs[7] == ("rahmat", "Arzimaydi, doim yordam beraman!")
  {
    SeedResponseKeys(raw);
    assert Keys(rs)[0] == rs[0].0 && Keys(rs)[1] == rs[1].0 && Keys(rs)[7] == rs[7].0;
    BuiltEntry(raw, 0);
    BuiltEntry(raw, 7);
    SeedResponseValues(raw);
  }

  /**
   * The seed tables as Python builds them: "salom" first and
   * "assalomu alaykum" second among the responses, "rahmat" keeping its
   * first position (8th) with its last value, and no patterns entry for
   * "assalomu alaykum".
   */
  lemma SeedTablesFacts(t: Tables)
    requires t == SeedTables()
    ensures |t.responses| > 7
    ensures t.responses[0] == ("salom", Greeting)
    ensures t.responses[1].0 == "assalomu alaykum"
    ensures t.responses[7] == ("rahmat", "Arzimaydi, doim yordam beraman!")
    ensures Get(t.patterns, "salom") == Some(["salom", "assalomu alaykum"])
    ensures Get(t.patterns, "assalomu alaykum") == None
  {
    SeedResponseEntries(t.responses, RawResponses);
    SeedPatternEntries(RawPatterns);
  }

  // ---------------------------------------------------------------------------
  // The pattern step

  datatype Lookup = Found(reply: string) | NoMatch | MissingPatternKey(key: string)

  /** Some surface variant occurs in `text` as a substring. */
  predicate AnyVariantIn(variants: seq<string>, text: string) {
    exists v :: v in variants && Contains(text, v)
  }

  /** Response key `i` has a patterns entry and none of its variants occurs in `text`. */
  ghost predicate Passes(t: Tables, text: string, i: int)
    requires 0 <= i < |t.responses|
  {
    Get(t.patterns, t.responses[i].0).Some? && !AnyVariantIn(Get(t.patterns, t.responses[i].0).value, text)
  }

  /** The loop reaches response key `i`: every earlier key passed without a match. */
  ghost predicate Reaches(t: Tables, text: string, i: int)
    requires 0 <= i <= |t.responses|
  {
    forall j :: 0 <= j < i ==> Passes(t, text, j)
  }

  /**
   * The loop over the responses in table order: the reply of the first key
   * with a variant in `text`; a key with no patterns entry stops it with a
   * KeyError.
   */
  function LookupFrom(t: Tables, text: string, i: nat): Lookup
    requires i <= |t.responses|
    decreases |t.responses| - i
  {
    if i == |t.responses| then NoMatch
    else
      var (key, reply) := t.responses[i];
      match Get(t.patterns, key)
      case None => MissingPatternKey(key)
      case Some(variants) =>
        if AnyVariantIn(variants, text) then Found(reply) else LookupFrom(t, text, i + 1)
  }

  function PatternLookup(t: Tables, text: string): Lookup {
    LookupFrom(t, text, 0)
  }

  /** Response key `k` is reached, has a patterns entry, and one of its variants occurs in `text`. */
  ghost predicate MatchesAt(t: Tables, text: string, k: int)
    requires 0 <= k < |t.responses|
  {
    Reaches(t, text, k) && Get(t.patterns, t.responses[k].0).Some?
    && AnyVariantIn(Get(t.patterns, t.responses[k].0).value, text)
  }

  /** Response key `k` is reached and has no patterns entry. */
  ghost predicate MissingAt(t: Tables, text: string, k: int)
    requires 0 <= k < |t.responses|
  {
    Reaches(t, text, k) && Get(t.patterns, t.responses[k].0).None?
  }

  /** Reaching `i` and passing it is reaching `i + 1`. */
  lemma ReachesNext(t: Tables, text: string, i: nat)
    requires i < |t.responses|
    ensures Reaches(t, text, i + 1) <==> Reaches(t, text, i) && Passes(t, text, i)
  {
  }

  lemma {:induction false} LookupFromFound(t: Tables, text: string, i: nat, r: string)
    requires i <= |t.responses| && Reaches(t, text, i)
    ensures LookupFrom(t, text, i) == Found(r) <==>
      exists k :: i <= k < |t.responses| && MatchesAt(t, text, k) && r == t.responses[k].1
    decreases |t.responses| - i
  {
    if i < |t.responses| {
      if Passes(t, text, i) {
        ReachesNext(t, text, i);
        LookupFromFound(t, text, i + 1, r);
        forall k | i < k < |t.responses| && Reaches(t, text, k) ensures Passes(t, text, i) {}
      } else {
        forall k | i < k < |t.responses| ensures !Reaches(t, text, k) {}
      }
    }
  }

  lemma {:induction false} LookupFromMissing(t: Tables, text: string, i: nat, key: string)
    requires i <= |t.responses| && Reaches(t, text, i)
    ensures LookupFrom(t, text, i) == MissingPatternKey(key) <==>
      exists k :: i <= k < |t.responses| && MissingAt(t, text, k) && key == t.responses[k].0
    decreases |t.responses| - i
  {
    if i < |t.responses| {
      if Passes(t, text, i) {
        ReachesNext(t, text, i);
        LookupFromMissing(t, text, i + 1, key);
        forall k | i < k < |t.responses| && Reaches(t, text, k) ensures Passes(t, text, i) {}
      } else {
        forall k | i < k < |t.responses| ensures !Reaches(t, text, k) {}
      }
    }
  }

  lemma {:induction false} LookupFromNoMatch(t: Tables, text: string, i: nat)
    requires i <= |t.responses| && Reaches(t, text, i)
    ensures LookupFrom(t, text, i) == NoMatch <==> Reaches(t, text, |t.responses|)
    decreases |t.responses| - i
  {
    if i < |t.responses| {
      if Passes(t, text, i) {
        ReachesNext(t, text, i);
        LookupFromNoMatch(t, text, i + 1);
      }
    }
  }

  /**
   * The pattern step answers with the reply of the first response key, in
   * table order, that has a variant occurring in `text`, provided every key
   * before it has a patterns entry; it stops with a KeyError at the first key
   * reached that has none; it finds nothing only when every key was checked.
   */
  lemma PatternLookupSpec(t: Tables, text: string)
    ensures forall r :: PatternLookup(t, text) == Found(r) <==>
      exists k :: 0 <= k < |t.responses| && MatchesAt(t, text, k) && r == t.responses[k].1
    ensures forall key :: PatternLookup(t, text) == MissingPatternKey(key) <==>
      exists k :: 0 <= k < |t.responses| && MissingAt(t, text, k) && key == t.responses[k].0
    ensures PatternLookup(t, text) == NoMatch <==> Reaches(t, text, |t.responses|)
  {
    forall r ensures PatternLookup(t, text) == Found(r) <==>
      exists k :: 0 <= k < |t.responses| && MatchesAt(t, text, k) && r == t.responses[k].1
    {
      LookupFromFound(t, text, 0, r);
    }
    forall key ensures PatternLookup(t, text) == MissingPatternKey(key) <==>
      exists k :: 0 <= k < |t.responses| && MissingAt(t, text, k) && key == t.responses[k].0
    {
      LookupFromMissing(t, text, 0, key);
    }
    LookupFromNoMatch(t, text, 0);
  }

  /** Matching is by substring, not by whole word: a variant inside a longer word still matches. */
  lemma SubstringMatch(variants: seq<string>, text: string, pre: string, v: string, post: string)
    requires v in variants && text == pre + v + post
    ensures AnyVariantIn(variants, text)
  {
    assert v <= text[|pre|..];
  }

  /**
   * With the seed tables the pattern step greets every text containing
   * "salom" and raises KeyError('assalomu alaykum') for every other text:
   * the second response key has no patterns entry.
   */
  lemma SeedPatternStep(t: Tables, text: string)
    requires t == SeedTables()
    ensures PatternLookup(t, text)
      == if Contains(text, "salom") then Found(Greeting) else MissingPatternKey("assalomu alaykum")
  {
    SeedTablesFacts(t);
    SalomVariants(text);
  }

  /** The greeting's variants occur in a text exactly when "salom" does. */
  lemma SalomVariants(text: string)
    ensures AnyVariantIn(["salom", "assalomu alaykum"], text) <==> Contains(text, "salom")
  {
    assert "salom" <= "assalomu alaykum"[2..];
    if Contains(text, "assalomu alaykum") {
      ContainsTransitive(text, "assalomu alaykum", "salom");
    }
  }
}
