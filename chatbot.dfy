/**
 * The chatbot's state and its turn-by-turn behaviour: the database (words,
 * pattern rows, responses, conversation history) as a class whose methods
 * update it, the response resolver, and the exit and teaching directives of
 * the main loop.
 */
module ChatBot {
  import opened Text
  import opened Lexicon
  import opened WordCounts
  import opened Memory
  import opened Correction
  import opened Sentence

  /** A row of the conversation history: the original input and the reply. */
  datatype Turn = Turn(input: string, reply: string)

  /** What reading a corpus file yields: an error message, or its word counts. */
  datatype CorpusRead = ReadFailed(message: string) | ReadCounts(counts: seq<Count>)

  /** A reply, or the KeyError the pattern step raises. */
  datatype Response = Reply(text: string) | KeyError(key: string)

  /** The branch of the resolver that answers a corrected, lower-cased input. */
  datatype Branch =
    | Ingest(path: string)
    | Learn
    | PatternReply(reply: string)
    | Crash(key: string)
    | ContextReply
    | Fallback

  /** The outcome of parsing a teaching directive. */
  datatype TeachParse = BadFormat | EmptyPart | Lesson(question: string, answer: string)

  /** What one line typed at the prompt leads to. */
  datatype StepOutcome =
    | Exit
    | Rejected(message: string)
    | Taught(message: string)
    | Answered(reply: string)
    | Crashed(key: string)

  const IngestPrefix := "matn o'rgan:"
  const TeachPrefix := "o'rgat:"
  const LearnReply := "Yangi so'zlar eslab qolindi!"
  const ContextText := "Men DTBOTman, sen bilan suhbatlashyapman! \U{1F60A}"
  /** Tokens the learning directive does not store. */
  const LearnSkip: set<string> := {"eslab", "qol", "o'rgan"}
  const NoUsefulWords := "Xato: Faylda foydali so\U{2018}zlar topilmadi."
  const LearnedPrefix := "Matn faylidagi so\U{2018}zlar muvaffaqiyatli o\U{2018}rganildi. Yangi so\U{2018}zlar: "
  /** How many of the most frequent corpus words are considered. */
  const FileWordLimit: nat := 5000
  const BadFormatText := "Noto'g'ri format! Quyidagi formatdan foydalaning: o'rgat: savol : javob"
  const EmptyPartText := "Savol yoki javob bo'sh bo'lmasligi kerak!"

  function TaughtText(question: string, answer: string): string {
    "O'rgandim! '" + question + "' uchun javob: " + answer
  }

  /** The input of the most recent turn, or "" before the first one. */
  function Context(history: seq<Turn>): string {
    if history == [] then "" else history[|history| - 1].input
  }

  /** Decimal notation of a natural number. */
  function NatToString(n: nat): string {
    var digit := "0123456789"[n % 10];
    if n < 10 then [digit] else NatToString(n / 10) + [digit]
  }

  /** The words a corpus read offers for learning: the most frequent ones, or none. */
  function CorpusWords(read: CorpusRead): seq<string> {
    if read.ReadCounts? && read.counts != [] then WordsOf(MostCommon(read.counts, FileWordLimit)) else []
  }

  /** The message file ingestion returns, given how many words it added. */
  function IngestMessage(read: CorpusRead, added: nat): string {
    match read
    case ReadFailed(m) => m
    case ReadCounts(cs) => if cs == [] then NoUsefulWords else LearnedPrefix + NatToString(added)
  }

  /**
   * The resolver's decision over the corrected, lower-cased input `text`:
   * ingestion prefix, then learning triggers, then the pattern step, then
   * the context rule, then the fallback.
   */
  function Classify(t: Tables, text: string, context: string): Branch {
    if StartsWith(text, IngestPrefix) then
      assert text[11] == ':';
      Ingest(Strip(AfterFirstColon(text)))
    else if Contains(text, "eslab qol") || Contains(text, "o'rgan") then Learn
    else match PatternLookup(t, text)
      case Found(r) => PatternReply(r)
      case MissingPatternKey(k) => Crash(k)
      case NoMatch =>
        if Contains(text, "nima") && Contains(Lower(context), "bot") then ContextReply else Fallback
  }

  /** The teaching directive `o'rgat: question : answer`, split at its first two colons. */
  function ParseTeach(input: string): TeachParse {
    var parts := SplitColonTwice(input);
    if |parts| != 3 then BadFormat
    else
      var question := Lower(Strip(parts[1]));
      var answer := Strip(parts[2]);
      if question == [] || answer == [] then EmptyPart else Lesson(question, answer)
  }

  /** The pattern rows teaching adds: one (token, question) row per token. */
  function TeachRows(tokens: seq<string>, question: string): seq<(string, string)> {
    seq(|tokens|, i requires 0 <= i < |tokens| => (tokens[i], question))
  }

  /** The rows (key, variant) for the variants of one pattern key. */
  function KeyRows(key: string, variants: seq<string>): seq<(string, string)> {
    seq(|variants|, i requires 0 <= i < |variants| => (key, variants[i]))
  }

  /** The pattern rows seeding adds: one (key, variant) row per variant, table order. */
  function SeedRows(patterns: Dict<seq<string>>): seq<(string, string)> {
    if patterns == [] then []
    else
      var (key, variants) := patterns[|patterns| - 1];
      SeedRows(patterns[..|patterns| - 1]) + KeyRows(key, variants)
  }

  /** The response map after upserting every entry of `d`, in order. */
  function Upserted(m: map<string, string>, d: Dict<string>): map<string, string> {
    if d == [] then m
    else
      var (key, reply) := d[|d| - 1];
      Upserted(m, d[..|d| - 1])[key := reply]
  }

  /**
   * What an ordinary line (neither an exit word nor a teaching directive)
   * does over the built-in tables, by what its corrected, lower-cased text
   * holds: ingestion learns the file's new words, the learning triggers
   * learn the line's new words, and anything else is greeted or crashes.
   * Every reply logs one turn; the crash changes nothing.
   */
  ghost predicate OrdinaryLine(oldWords: map<string, WordRecord>, oldOrder: seq<string>, oldHistory: seq<Turn>,
                               words: map<string, WordRecord>, order: seq<string>, history: seq<Turn>,
                               input: string, corrected: string, corpus: string -> CorpusRead, out: StepOutcome)
  {
    var text := Lower(corrected);
    if StartsWith(text, IngestPrefix) then
      assert text[11] == ':';
      var read := corpus(Strip(AfterFirstColon(text)));
      var added := Fresh(oldWords.Keys, CorpusWords(read));
      && out == Answered(IngestMessage(read, |added|))
      && Inserted(oldWords, words, added, BySuffix) && order == oldOrder + added
      && history == oldHistory + [Turn(input, out.reply)]
    else if Contains(text, "eslab qol") || Contains(text, "o'rgan") then
      var added := Fresh(oldWords.Keys + LearnSkip, FindWords(text));
      && out == Answered(LearnReply)
      && Inserted(oldWords, words, added, Always(Ot)) && order == oldOrder + added
      && history == oldHistory + [Turn(input, LearnReply)]
    else
      && out == (if Contains(text, "salom") then Answered(Greeting) else Crashed("assalomu alaykum"))
      && words == oldWords && order == oldOrder
      && history == oldHistory + (if out.Answered? then [Turn(input, Greeting)] else [])
  }

  class Database {
    /** The `words` table. */
    var words: map<string, WordRecord>
    /** The order in which a query enumerates the `words` table: insertion order. */
    var order: seq<string>
    /** The `patterns` table: (word, pattern) rows; it has no key, so rows accumulate. */
    var patterns: seq<(string, string)>
    /** The `responses` table. */
    var responses: map<string, string>
    /** The `conversation_history` table, oldest first. */
    var history: seq<Turn>

    /** `order` lists every stored word exactly once. */
    ghost predicate Valid()
      reads this
    {
      && (forall i, j :: 0 <= i < j < |order| ==> order[i] != order[j])
      && (forall w :: w in words <==> w in order)
    }

    /** A fresh, empty database. */
    constructor ()
      ensures Valid()
      ensures words == map[] && order == [] && patterns == [] && responses == map[] && history == []
    {
      words := map[];
      order := [];
      patterns := [];
      responses := map[];
      history := [];
    }

    /**
     * save_word: INSERT OR REPLACE of one word. The row is replaced (so it
     * moves to the end of the enumeration order); empty forms are stored as
     * absent.
     */
    method SaveWord(w: string, wordType: string, unli: string, kopluk: string, forms: Option<Forms>)
      modifies this
      requires Valid()
      ensures Valid()
      ensures words == old(words)[w := WordRecord(wordType, unli, kopluk, StoredForms(forms))]
      ensures order == Without(old(order), w) + [w]
      ensures patterns == old(patterns) && responses == old(responses) && history == old(history)
    {
      WithoutDistinct(order, w);
      var rest := Without(order, w);
      assert forall i :: 0 <= i < |rest| ==> rest[i] != w by {
        forall i | 0 <= i < |rest| ensures rest[i] != w {
          assert rest[i] in rest;
        }
      }
      words := words[w := WordRecord(wordType, unli, kopluk, StoredForms(forms))];
      order := rest + [w];
    }

    /** learn_new_word: store a word with its derived record unless it is already stored. */
    method LearnNewWord(w: string, wordType: string)
      modifies this
      requires Valid()
      ensures Valid()
      ensures w in old(words) ==> words == old(words) && order == old(order)
      ensures w !in old(words) ==> words == old(words)[w := NewEntry(w, wordType)] && order == old(order) + [w]
      ensures patterns == old(patterns) && responses == old(responses) && history == old(history)
    {
      if w !in words {
        WithoutAbsent(order, w);
        SaveWord(w, wordType, VowelClass(w), PluralOf(w, wordType), None);
      }
    }

    /** The body of a learning pass for one word: learn it unless it is to be skipped. */
    method LearnUnlessSkipped(w: string, rule: TypeRule, skip: set<string>) returns (stored: bool)
      modifies this
      requires Valid()
      ensures Valid()
      ensures stored <==> w !in skip && w !in old(words)
      ensures words == if stored then old(words)[w := NewEntry(w, TypeFor(rule, w))] else old(words)
      ensures order == if stored then old(order) + [w] else old(order)
      ensures patterns == old(patterns) && responses == old(responses) && history == old(history)
    {
      stored := w !in skip && w !in words;
      if w !in skip {
        LearnNewWord(w, TypeFor(rule, w));
      }
    }

    /**
     * One learning pass: learn every word of `ws` not in `skip`, with the
     * type `rule` gives it; the count is the number of words inserted.
     */
    method LearnWords(ws: seq<string>, rule: TypeRule, skip: set<string>) returns (count: nat)
      modifies this
      requires Valid()
      ensures Valid()
      ensures Inserted(old(words), words, Fresh(old(words).Keys + skip, ws), rule)
      ensures order == old(order) + Fresh(old(words).Keys + skip, ws)
      ensures count == |Fresh(old(words).Keys + skip, ws)|
      ensures patterns == old(patterns) && responses == old(responses) && history == old(history)
    {
      ghost var added: seq<string> := [];
      count := 0;
      var i := 0;
      while i < |ws|
        invariant 0 <= i <= |ws|
        invariant Valid()
        invariant added == Fresh(old(words).Keys + skip, ws[..i])
        invariant Inserted(old(words), words, added, rule)
        invariant order == old(order) + added
        invariant count == |added|
        invariant patterns == old(patterns) && responses == old(responses) && history == old(history)
      {
        var stored;
        stored, added := LearnAt(ws, i, rule, skip, old(words), old(order), added);
        if stored {
          count := count + 1;
        }
        i := i + 1;
      }
      assert ws[..i] == ws;
    }

    /** One iteration of a learning pass: the words inserted so far grow by `ws[i]` exactly when it is stored. */
    method LearnAt(ws: seq<string>, i: nat, rule: TypeRule, skip: set<string>,
                   ghost oldWords: map<string, WordRecord>, ghost oldOrder: seq<string>, ghost added: seq<string>)
      returns (stored: bool, ghost added': seq<string>)
      modifies this
      requires i < |ws| && Valid()
      requires added == Fresh(oldWords.Keys + skip, ws[..i])
      requires Inserted(oldWords, words, added, rule) && order == oldOrder + added
      ensures Valid()
      ensures added' == Fresh(oldWords.Keys + skip, ws[..i + 1])
      ensures Inserted(oldWords, words, added', rule) && order == oldOrder + added'
      ensures added' == if stored then added + [ws[i]] else added
      ensures patterns == old(patterns) && responses == old(responses) && history == old(history)
    {
      LearnStep(oldWords, words, skip, ws, i, rule);
      stored := LearnUnlessSkipped(ws[i], rule, skip);
      added' := if stored then added + [ws[i]] else added;
    }

    /**
     * The learning part of process_text_file: the five thousand most frequent
     * words, each a verb or a noun by its suffix, inserted when absent.
     */
    method ProcessTextFile(read: CorpusRead) returns (msg: string)
      modifies this
      requires Valid()
      ensures Valid()
      ensures msg == IngestMessage(read, |Fresh(old(words).Keys, CorpusWords(read))|)
      ensures Inserted(old(words), words, Fresh(old(words).Keys, CorpusWords(read)), BySuffix)
      ensures order == old(order) + Fresh(old(words).Keys, CorpusWords(read))
      ensures patterns == old(patterns) && responses == old(responses) && history == old(history)
    {
      assert words.Keys + {} == words.Keys;
      match read
      case ReadFailed(m) =>
        msg := m;
      case ReadCounts(cs) =>
        if cs == [] {
          msg := NoUsefulWords;
        } else {
          var newWords := LearnWords(WordsOf(MostCommon(cs, FileWordLimit)), BySuffix, {});
          msg := LearnedPrefix + NatToString(newWords);
        }
    }

    /** save_conversation: append one turn (the timestamp is not modelled). */
    method SaveConversation(input: string, reply: string)
      modifies this
      requires Valid()
      ensures Valid()
      ensures history == old(history) + [Turn(input, reply)]
      ensures words == old(words) && order == old(order)
      ensures patterns == old(patterns) && responses == old(responses)
    {
      history := history + [Turn(input, reply)];
    }

    /**
     * generate_response over the pattern and response tables `t`: correct the
     * input against the stored words, then answer by the first branch of
     * Classify that applies. Every branch but the KeyError logs exactly one
     * turn holding the original input and the reply.
     */
    method GenerateResponse(t: Tables, templates: seq<seq<string>>, input: string, corpus: string -> CorpusRead)
      returns (res: Response, ghost corrected: string)
      modifies this
      requires Valid()
      ensures Valid()
      ensures IsCorrectedText(input, old(order), corrected)
      ensures patterns == old(patterns) && responses == old(responses)
      ensures Classify(t, Lower(corrected), Context(old(history))).Crash? ==>
        && res == KeyError(Classify(t, Lower(corrected), Context(old(history))).key)
        && words == old(words) && order == old(order) && history == old(history)
      ensures !Classify(t, Lower(corrected), Context(old(history))).Crash? ==>
        res.Reply? && history == old(history) + [Turn(input, res.text)]
      ensures Classify(t, Lower(corrected), Context(old(history))).Ingest? ==>
        var read := corpus(Classify(t, Lower(corrected), Context(old(history))).path);
        && res.text == IngestMessage(read, |Fresh(old(words).Keys, CorpusWords(read))|)
        && Inserted(old(words), words, Fresh(old(words).Keys, CorpusWords(read)), BySuffix)
        && order == old(order) + Fresh(old(words).Keys, CorpusWords(read))
      ensures Classify(t, Lower(corrected), Context(old(history))) == Learn ==>
        && res.text == LearnReply
        && Inserted(old(words), words, Fresh(old(words).Keys + LearnSkip, FindWords(Lower(corrected))), Always(Ot))
        && order == old(order) + Fresh(old(words).Keys + LearnSkip, FindWords(Lower(corrected)))
      ensures Classify(t, Lower(corrected), Context(old(history))).PatternReply? ==>
        && res.text == Classify(t, Lower(corrected), Context(old(history))).reply
        && words == old(words) && order == old(order)
      ensures Classify(t, Lower(corrected), Context(old(history))) == ContextReply ==>
        res.text == ContextText && words == old(words) && order == old(order)
      ensures Classify(t, Lower(corrected), Context(old(history))) == Fallback ==>
        && Inserted(old(words), words, Fresh(old(words).Keys, FindWords(Lower(corrected))), Always(Ot))
        && order == old(order) + Fresh(old(words).Keys, FindWords(Lower(corrected)))
        && (templates == [] ==> res.text == NoTemplates)
        && (templates != [] ==> exists tags :: tags in templates && SentenceOutcome(words, tags, FindWords(Lower(corrected)), res.text))
    {
      var c := CorrectInput(input, order);
      corrected := c;
      var text := Lower(c);
      var context := Context(history);
      if StartsWith(text, IngestPrefix) {
        assert text[11] == ':';
        var path := Strip(AfterFirstColon(text));
        var msg := ProcessTextFile(corpus(path));
        SaveConversation(input, msg);
        return Reply(msg), corrected;
      }
      if Contains(text, "eslab qol") || Contains(text, "o'rgan") {
        var tokens := FindWords(text);
        var _ := LearnWords(tokens, Always(Ot), LearnSkip);
        SaveConversation(input, LearnReply);
        return Reply(LearnReply), corrected;
      }
      match PatternLookup(t, text)
      case Found(reply) =>
        SaveConversation(input, reply);
        return Reply(reply), corrected;
      case MissingPatternKey(key) =>
        return KeyError(key), corrected;
      case NoMatch =>
      if Contains(text, "nima") && Contains(Lower(context), "bot") {
        SaveConversation(input, ContextText);
        return Reply(ContextText), corrected;
      }
      var tokens := FindWords(text);
      var _ := LearnWords(tokens, Always(Ot), {});
      assert old(words).Keys + {} == old(words).Keys;
      var sentence := GenerateSentence(words, templates, tokens);
      SaveConversation(input, sentence);
      return Reply(sentence), corrected;
    }

    /** The teaching inserts: one pattern row per token of the question, then the response upsert. */
    method Teach(input: string, question: string, answer: string)
      modifies this
      requires Valid()
      ensures Valid()
      ensures patterns == old(patterns) + TeachRows(FindWords(question), question)
      ensures responses == old(responses)[question := answer]
      ensures history == old(history) + [Turn(input, TaughtText(question, answer))]
      ensures words == old(words) && order == old(order)
    {
      var tokens := FindWords(question);
      var i := 0;
      while i < |tokens|
        invariant 0 <= i <= |tokens|
        invariant patterns == old(patterns) + TeachRows(tokens[..i], question)
        invariant words == old(words) && order == old(order)
        invariant responses == old(responses) && history == old(history)
      {
        patterns := patterns + [(tokens[i], question)];
        i := i + 1;
        assert TeachRows(tokens[..i], question) == TeachRows(tokens[..i - 1], question) + [(tokens[i - 1], question)];
      }
      assert tokens[..i] == tokens;
      responses := responses[question := answer];
      SaveConversation(input, TaughtText(question, answer));
    }

    /**
     * Startup seeding: every (key, variant) of the pattern table appended as
     * a row, then every response upserted, in table order.
     */
    method SeedMemory(t: Tables)
      modifies this
      requires Valid()
      ensures Valid()
      ensures patterns == old(patterns) + SeedRows(t.patterns)
      ensures responses == Upserted(old(responses), t.responses)
      ensures words == old(words) && order == old(order) && history == old(history)
    {
      var i := 0;
      while i < |t.patterns|
        invariant 0 <= i <= |t.patterns|
        invariant patterns == old(patterns) + SeedRows(t.patterns[..i])
        invariant words == old(words) && order == old(order)
        invariant responses == old(responses) && history == old(history)
      {
        var (key, variants) := t.patterns[i];
        var j := 0;
        while j < |variants|
          invariant 0 <= j <= |variants|
          invariant patterns == old(patterns) + SeedRows(t.patterns[..i]) + KeyRows(key, variants[..j])
          invariant words == old(words) && order == old(order)
          invariant responses == old(responses) && history == old(history)
        {
          patterns := patterns + [(key, variants[j])];
          j := j + 1;
          assert KeyRows(key, variants[..j]) == KeyRows(key, variants[..j - 1]) + [(key, variants[j - 1])];
        }
        assert variants[..j] == variants;
        assert t.patterns[..i + 1][..i] == t.patterns[..i];
        i := i + 1;
      }
      assert t.patterns[..i] == t.patterns;
      var k := 0;
      while k < |t.responses|
        invariant 0 <= k <= |t.responses|
        invariant responses == Upserted(old(responses), t.responses[..k])
        invariant words == old(words) && order == old(order) && history == old(history)
        invariant patterns == old(patterns) + SeedRows(t.patterns)
      {
        responses := responses[t.responses[k].0 := t.responses[k].1];
        assert t.responses[..k + 1][..k] == t.responses[..k];
        k := k + 1;
      }
      assert t.responses[..k] == t.responses;
    }

    /**
     * One line typed at the prompt: the exit words end the session, the
     * teaching directive stores a question and its answer, anything else
     * goes to the resolver over the built-in tables, whose KeyError is not
     * caught.
     */
    method Step(input: string, templates: seq<seq<string>>, corpus: string -> CorpusRead)
      returns (out: StepOutcome, ghost corrected: string)
      modifies this
      requires Valid()
      ensures Valid()
      ensures Lower(input) in ["hayr", "chiqish"] ==> out == Exit
      ensures out == Exit || out.Rejected? ==>
        words == old(words) && order == old(order) && patterns == old(patterns)
        && responses == old(responses) && history == old(history)
      ensures Lower(input) !in ["hayr", "chiqish"] && StartsWith(Lower(input), TeachPrefix) ==>
        match ParseTeach(input)
        case BadFormat => out == Rejected(BadFormatText)
        case EmptyPart => out == Rejected(EmptyPartText)
        case Lesson(q, a) =>
          && out == Taught(TaughtText(q, a))
          && patterns == old(patterns) + TeachRows(FindWords(q), q)
          && responses == old(responses)[q := a]
          && history == old(history) + [Turn(input, TaughtText(q, a))]
          && words == old(words) && order == old(order)
      ensures Lower(input) !in ["hayr", "chiqish"] && !StartsWith(Lower(input), TeachPrefix) ==>
        && IsCorrectedText(input, old(order), corrected)
        && patterns == old(patterns) && responses == old(responses)
        && OrdinaryLine(old(words), old(order), old(history), words, order, history, input, corrected, corpus, out)
    {
      var lowered := Lower(input);
      if lowered in ["hayr", "chiqish"] {
        return Exit, "";
      }
      if StartsWith(lowered, TeachPrefix) {
        match ParseTeach(input)
        case BadFormat =>
          return Rejected(BadFormatText), "";
        case EmptyPart =>
          return Rejected(EmptyPartText), "";
        case Lesson(q, a) =>
          Teach(input, q, a);
          return Taught(TaughtText(q, a)), "";
      }
      out, corrected := Converse(input, templates, corpus);
    }

    /**
     * An ordinary line: the resolver over the built-in tables, whose
     * KeyError is not caught.
     */
    method Converse(input: string, templates: seq<seq<string>>, corpus: string -> CorpusRead)
      returns (out: StepOutcome, ghost corrected: string)
      modifies this
      requires Valid()
      ensures Valid()
      ensures out.Answered? || out.Crashed?
      ensures IsCorrectedText(input, old(order), corrected)
      ensures patterns == old(patterns) && responses == old(responses)
      ensures OrdinaryLine(old(words), old(order), old(history), words, order, history, input, corrected, corpus, out)
    {
      var t := SeedTables();
      ghost var context := Context(history);
      var res;
      res, corrected := GenerateResponse(t, templates, input, corpus);
      SeedClassify(t, Lower(corrected), context);
      match res
      case KeyError(key) =>
        out := Crashed(key);
      case Reply(text) =>
        out := Answered(text);
    }
  }

  // ---------------------------------------------------------------------------
  // Properties of the resolver, teaching and seeding

  /** One step of a learning pass: the pass so far extends by the visited word exactly when it gets stored. */
  lemma LearnStep(oldWords: map<string, WordRecord>, before: map<string, WordRecord>,
                  skip: set<string>, ws: seq<string>, i: nat, rule: TypeRule)
    requires i < |ws|
    requires Inserted(oldWords, before, Fresh(oldWords.Keys + skip, ws[..i]), rule)
    ensures ws[i] in skip || ws[i] in before ==>
      Fresh(oldWords.Keys + skip, ws[..i + 1]) == Fresh(oldWords.Keys + skip, ws[..i])
    ensures ws[i] !in skip && ws[i] !in before ==>
      && Fresh(oldWords.Keys + skip, ws[..i + 1]) == Fresh(oldWords.Keys + skip, ws[..i]) + [ws[i]]
      && Inserted(oldWords, before[ws[i] := NewEntry(ws[i], TypeFor(rule, ws[i]))],
                  Fresh(oldWords.Keys + skip, ws[..i]) + [ws[i]], rule)
  {
    var known := oldWords.Keys + skip;
    FreshStep(known, ws, i);
    InsertedKeys(oldWords, before, Fresh(known, ws[..i]), rule);
    if ws[i] !in skip && ws[i] !in before {
      InsertedStep(oldWords, before, Fresh(known, ws[..i]), rule, ws[i]);
    }
  }

  /**
   * File learning inserts at most five thousand words: exactly the absent
   * words among the five thousand most frequent, each once.
   */
  lemma FileLearningWords(known: set<string>, cs: seq<Count>)
    requires cs != []
    ensures |Fresh(known, CorpusWords(ReadCounts(cs)))| <= FileWordLimit
    ensures forall w :: w in Fresh(known, CorpusWords(ReadCounts(cs))) <==>
      w !in known && exists c :: (w, c) in MostCommon(cs, FileWordLimit)
  {
    var top := MostCommon(cs, FileWordLimit);
    var ws := WordsOf(top);
    MostCommonShape(cs, FileWordLimit);
    FreshLength(known, ws);
    FreshProperties(known, ws);
    forall w ensures w in ws <==> exists c :: (w, c) in top {
      WordsOfMembership(top, w);
    }
  }

  /** A list with every occurrence of `w` removed, the rest in order. */
  function Without(s: seq<string>, w: string): (r: seq<string>)
    ensures forall x :: x in r <==> x in s && x != w
  {
    if s == [] then []
    else (if s[0] == w then [] else [s[0]]) + Without(s[1..], w)
  }

  lemma {:induction false} WithoutDistinct(s: seq<string>, w: string)
    requires forall i, j :: 0 <= i < j < |s| ==> s[i] != s[j]
    ensures forall i, j :: 0 <= i < j < |Without(s, w)| ==> Without(s, w)[i] != Without(s, w)[j]
  {
    if s != [] {
      WithoutDistinct(s[1..], w);
      assert s[0] !in s[1..];
    }
  }

  lemma {:induction false} WithoutAbsent(s: seq<string>, w: string)
    requires w !in s
    ensures Without(s, w) == s
  {
    if s != [] {
      WithoutAbsent(s[1..], w);
      assert s == [s[0]] + s[1..];
    }
  }

  /**
   * With the built-in tables the context rule and the fallback are never
   * reached: the pattern step greets an input containing "salom" and raises
   * KeyError('assalomu alaykum') on any other.
   */
  lemma SeedClassify(t: Tables, text: string, context: string)
    requires t == SeedTables()
    ensures Classify(t, text, context) != ContextReply && Classify(t, text, context) != Fallback
    ensures !StartsWith(text, IngestPrefix) && !Contains(text, "eslab qol") && !Contains(text, "o'rgan") ==>
      Classify(t, text, context) == if Contains(text, "salom") then PatternReply(Greeting) else Crash("assalomu alaykum")
  {
    SeedPatternStep(t, text);
    var lookup := PatternLookup(t, text);
    assert lookup.Found? || lookup.MissingPatternKey?;
  }

  /**
   * The corrected text never starts with the ingestion prefix while no
   * stored word holds a colon: the directive is unreachable from the prompt.
   */
  lemma IngestionNeedsColonWord(t: Tables, input: string, known: seq<string>, corrected: string, context: string)
    requires IsCorrectedText(input, known, corrected)
    requires forall k :: k in known ==> ':' !in k
    ensures !Classify(t, Lower(corrected), context).Ingest?
  {
    CorrectedTextLacksChar(input, known, corrected, ':');
    LowerKeepsOtherChars(corrected, ':');
    assert IngestPrefix[11] == ':';
  }

  /**
   * The trigger "o'rgan" never occurs in the corrected text while no stored
   * word holds an apostrophe: the tokenizer splits it apart.
   */
  lemma OrganTriggerNeedsApostropheWord(input: string, known: seq<string>, corrected: string)
    requires IsCorrectedText(input, known, corrected)
    requires forall k :: k in known ==> '\'' !in k
    ensures !Contains(Lower(corrected), "o'rgan")
  {
    CorrectedTextLacksChar(input, known, corrected, '\'');
    LowerKeepsOtherChars(corrected, '\'');
    assert "o'rgan"[1] == '\'';
    NotContainsChar(Lower(corrected), "o'rgan", '\'');
  }

  /** The skip entry "o'rgan" never matches a token: no `\w+` token holds an apostrophe. */
  lemma LearnSkipOrganIsDead(text: string, w: string)
    requires w in FindWords(text)
    ensures w != "o'rgan"
  {
    assert "o'rgan"[1] == '\'';
    WordHasNoChar(w, '\'');
  }

  /**
   * A well-formed directive is parsed back into its question and answer;
   * the answer may itself contain colons.
   */
  lemma ParseTeachOfLesson(q: string, a: string)
    requires ':' !in q && q != [] && Lower(Strip(q)) == q
    requires a != [] && Strip(a) == a
    ensures ParseTeach(TeachPrefix + q + ":" + a) == Lesson(q, a)
  {
    assert TeachPrefix == "o'rgat" + ":";
    assert TeachPrefix + q + ":" + a == "o'rgat" + ":" + q + ":" + a;
    SplitColonTwiceOf("o'rgat", q, a);
  }

  /** A lesson's question is a stripped, lower-cased, non-empty text; its answer a stripped, non-empty one. */
  lemma ParseTeachLesson(input: string)
    requires ParseTeach(input).Lesson?
    ensures exists i, j :: 0 <= i < j < |input| && input[i] == ':' && input[j] == ':'
    ensures ParseTeach(input).question != [] && ParseTeach(input).answer != []
    ensures ':' !in ParseTeach(input).question
  {
    var parts := SplitColonTwice(input);
    var i := |parts[0]|;
    var j := |parts[0]| + 1 + |parts[1]|;
    assert input[i] == ':' && input[j] == ':';
    LowerKeepsOtherChars(Strip(parts[1]), ':');
    StripKeepsChars(parts[1], ':');
  }

  /** Seeding appends every variant of every pattern key as a row, keys and variants in table order. */
  lemma {:induction false} SeedRowsContents(patterns: Dict<seq<string>>, key: string, v: string)
    ensures (key, v) in SeedRows(patterns) <==>
      exists i :: 0 <= i < |patterns| && patterns[i].0 == key && v in patterns[i].1
  {
    if patterns != [] {
      var init := patterns[..|patterns| - 1];
      var (k, vs) := patterns[|patterns| - 1];
      SeedRowsContents(init, key, v);
      KeyRowsContents(k, vs, key, v);
      assert forall i :: 0 <= i < |init| ==> init[i] == patterns[i];
    }
  }

  lemma KeyRowsContents(k: string, vs: seq<string>, key: string, v: string)
    ensures (key, v) in KeyRows(k, vs) <==> key == k && v in vs
  {
    if (key, v) in KeyRows(k, vs) {
      var m :| 0 <= m < |vs| && KeyRows(k, vs)[m] == (key, v);
      assert vs[m] == v;
    }
    if key == k && v in vs {
      var m :| 0 <= m < |vs| && vs[m] == v;
      assert KeyRows(k, vs)[m] == (key, v);
    }
  }

  /** After seeding, every response key holds the reply its last entry gives; other keys keep theirs. */
  lemma {:induction false} UpsertedGet(m: map<string, string>, d: Dict<string>, k: string)
    ensures Get(d, k).Some? ==> k in Upserted(m, d) && Upserted(m, d)[k] == Get(d, k).value
    ensures Get(d, k).None? ==> (k in Upserted(m, d) <==> k in m) && (k in m ==> Upserted(m, d)[k] == m[k])
  {
    if d != [] {
      UpsertedGet(m, d[..|d| - 1], k);
    }
  }
}
