# DTBOT response engine, modelled in Dafny

DTBOT (`learning_chatbot.py`) is a rule-based Uzbek chatbot backed by a small SQLite store. This project models the rule engine under its SQL calls and prints, with the database replaced by in-memory state:

- the `words` table is a map from word to record (type, vowel class, plural, verb forms);
- `patterns` is a sequence of rows;
- `responses` is a map;
- `conversation_history` is an append-only sequence of turns.

It proves what each step promises.

Modules, one per concern of the script:

| file | module | what it holds |
|---|---|---|
| `text.dfy` | `Text` | The `\w+` tokenizer (`re.findall`), `lower`, `strip`, `' '.join`, substring and prefix tests, and `split(":", 2)`. |
| `edit_distance.dfy` | `EditDistance` | The Levenshtein distance as a recursive function, with its basic laws. |
| `correction.dfy` | `Correction` | Fuzzy correction of one token (argmin loop with threshold 3) and of a whole input. |
| `lexicon.dfy` | `Lexicon` | Word records, the type/vowel/plural derivation, the grammar-form decision table, and `Fresh`, the words one insert-if-absent pass adds. |
| `word_counts.dfy` | `WordCounts` | `Counter.most_common(n)` as a stable sort by decreasing count, then a prefix. |
| `memory.dfy` | `Memory` | The `INITIAL_MEMORY` tables as the insertion-ordered dicts Python builds from the literal, and the first-match pattern step. |
| `sentence.dfy` | `Sentence` | `generate_sentence`, with `random.choice` as nondeterministic choice. |
| `chatbot.dfy` | `ChatBot` | The class `Database` with the store's update methods, the resolver `generate_response`, the exit and teaching directives of `main`, and startup seeding. |

## Behaviour of the code as written

Where the code's behaviour is surprising, the model follows the code as written:

- **Seed literal.** Commas are missing after lines 43 and 73, and keys repeat. The tables are modelled as the dicts Python would build from the literal with those commas in place: a repeated key keeps the position of its first occurrence and takes the value of its last (`Memory.BuildDictSemantics`).
- **Pattern step raises KeyError.** The loop over `responses` (336-337) indexes `patterns` with every response key it reaches. The second key, "assalomu alaykum", has no pattern entry. So with the built-in tables:
  - any text without "salom" raises `KeyError('assalomu alaykum')`;
  - the context rule and the fallback are never reached (`Memory.SeedPatternStep`, `ChatBot.SeedClassify`).
  
  `main` does not catch the error, so `Step` reports `Crashed`.
- **Matching is by substring.** A variant inside a longer word still matches (`Memory.SubstringMatch`).
- **Teaching does not affect replies.** Taught questions go into the `responses` field, but the resolver reads only the built-in tables. Pattern rows have no key, so every `INSERT OR IGNORE` appends a row.
- **Directives are checked on corrected text.** The corrected text is `\w+` tokens joined by spaces. Consequences:
  - "matn o'rgan:" cannot start it unless a stored word holds a colon (`ChatBot.IngestionNeedsColonWord`);
  - "o'rgan" cannot occur in it unless a stored word holds an apostrophe (`ChatBot.OrganTriggerNeedsApostropheWord`);
  - the skip entry "o'rgan" never matches a token (`ChatBot.LearnSkipOrganIsDead`).
- **Stop-word filter.** The SQL binds one comma-joined string to `NOT IN (?)`, so it excludes only a word equal to that whole string. It never excludes a `\w+` word (`Sentence.StopFilterKeepsWords`).
- **Duplicate `correct_input`.** The second definition (183-189) shadows the first and calls `correct_word`, which the file does not define. The model uses the Levenshtein part of `advanced_correct_word` (164-176) as that per-token correction, applied against the known-word list fetched once per input (184-186).

## Model

| member | source | states |
|---|---|---|
| Text.FindWordsOfWord | learning_chatbot.py:187 | `re.findall(r'\w+', t)` on a single run of word characters yields exactly that run. |
| Text.FindWordsNone | learning_chatbot.py:187 | A string without word characters yields no tokens. |
| Text.FindWordsSplit | learning_chatbot.py:187 | A non-word character separates tokens: the tokens of the whole are the tokens before it followed by the tokens after it. With the two rows above, this pins the result to the maximal word runs, left to right. |
| Text.FindWordsOfJoin | learning_chatbot.py:187-189 | Tokenizing a space-joined list of word tokens gives the list back |
| Text.SplitColonTwice | learning_chatbot.py:405 | `split(":", 2)` yields one to three parts. The parts re-joined with colons give the input, and the first two parts hold no colon. |
| Text.SplitColonTwiceOf | learning_chatbot.py:405-410 | Splitting `x:y:z` with colon-free `x` and `y` gives exactly `[x, y, z]`, whatever `z` holds. |
| Text.StripOf | learning_chatbot.py:411-412 | `strip()` removes exactly the leading and trailing whitespace. For any whitespace, then a core that neither starts nor ends with whitespace, then whitespace, the result is the core. |
| Text.StripKeepsChars | learning_chatbot.py:411 | No character occurs in the stripped string unless it occurs in the original, so a colon-free part stays colon-free. |
| Text.LowerKeepsOtherChars | learning_chatbot.py:311 | `lower()` keeps every non-letter, a colon or an apostrophe say, at the same position, and introduces none elsewhere. |
| EditDistance.DistanceToSelf | learning_chatbot.py:172 | The distance from a string to itself is 0. |
| EditDistance.DistanceZeroMeansEqual | learning_chatbot.py:172 | Distance 0 only between equal strings. |
| EditDistance.DistanceSymmetric | learning_chatbot.py:172 | The distance does not depend on argument order. |
| EditDistance.DistanceBounds | learning_chatbot.py:172 | The distance lies between the length difference and the longer length. |
| EditDistance.DistanceCommonPrefix | learning_chatbot.py:172 | A shared prefix never increases the distance. |
| EditDistance.DistanceSalomSalm | learning_chatbot.py:172-173 | "salom" and "salm" are at distance 1, within the threshold 3. |
| Correction.CorrectWord | learning_chatbot.py:167-176 | An empty or known token is returned unchanged. Otherwise the result is the first known word, in list order, at the smallest distance from the lower-cased token, when that distance is at most 3; otherwise it is the token. |
| Correction.CorrectionIsUnique | learning_chatbot.py:169-176 | The declarative correction rule that CorrectWord meets admits exactly one result for each token and word list. |
| Correction.CorrectionIsTokenOrKnown | learning_chatbot.py:167-176 | A correction is the token itself or a known word within distance 3. |
| Correction.CorrectionReplacesNearToken | learning_chatbot.py:171-175 | An unknown token with a known word within distance 3 is always replaced, by a known word at least as near. |
| Correction.CorrectInput | learning_chatbot.py:183-189 | The result is the `\w+` tokens of the lower-cased input, each corrected against the known words, joined by single spaces. |
| Correction.CorrectedTextOfKnownTokens | learning_chatbot.py:183-189 | When every token is already known, correction only re-joins the tokens. |
| Correction.CorrectedTextLacksChar | learning_chatbot.py:187-189 | A character that is neither a word character nor a space occurs in the corrected text only if some known word holds it. |
| Lexicon.HasBackVowel | learning_chatbot.py:221 | True exactly when some character of the word is a, o or u. |
| Lexicon.GrammarFormOfLearnedNoun | learning_chatbot.py:269-270 | A learned noun answers a plural request with word+"lar". |
| Lexicon.GrammarFormOfLearnedVerb | learning_chatbot.py:271-274 | A learned verb has no forms, so every tense request reports the person missing. |
| Lexicon.FileLearnedRecord | learning_chatbot.py:217-223 | A word a file pass stored is "fel" exactly when it ends in "moq", "di" or "yapti". It is "qalin" exactly when it contains a, o or u. Its plural is word+"lar" exactly when it is not a verb. It has no forms. |
| Lexicon.FileLearnedPlural | learning_chatbot.py:269-275 | Asked for its plural, a word a file pass stored answers word+"lar", or the "no such form" message when its suffix made it a verb. |
| Lexicon.InsertedKeepsGrammarForms | learning_chatbot.py:258-277 | A learning pass changes no grammar-form answer for any word it did not insert. Stored words keep their records, and absent words stay absent. |
| Lexicon.FreshProperties | learning_chatbot.py:217-224 | The words one insert-if-absent pass adds are distinct. They are exactly the visited words absent beforehand. |
| Lexicon.FreshLength | learning_chatbot.py:217-224 | A pass adds at most as many words as it visits. |
| WordCounts.SortByCount | learning_chatbot.py:217 | The sort orders entries by non-increasing count and is a permutation of its input. |
| WordCounts.InsertByCountSorted | learning_chatbot.py:217 | Inserting into a list sorted by count keeps it sorted. |
| WordCounts.MostCommonShape | learning_chatbot.py:217 | `most_common(n)` keeps min(n, size) entries from the counts, in non-increasing order of count. |
| WordCounts.MostCommonDropsLessFrequent | learning_chatbot.py:217 | No entry `most_common(n)` drops outnumbers one it keeps. |
| Memory.BuildDictSemantics | learning_chatbot.py:20-82 | A dict literal with repeated keys has each key once, in first-occurrence order, holding the value of its last occurrence. |
| Memory.SeedResponseKeys | learning_chatbot.py:53-60 | The first eight response keys, in dict order, are "salom" through "rahmat". |
| Memory.SeedResponseEntries | learning_chatbot.py:53-80 | The first response is the greeting under "salom" and the second key is "assalomu alaykum". "rahmat" stays eighth but takes its last reply. |
| Memory.SeedPatternEntries | learning_chatbot.py:22-50 | "salom" has variants "salom" and "assalomu alaykum", and no pattern key is "assalomu alaykum". |
| Memory.SeedTablesFacts | learning_chatbot.py:20-82 | The facts above, stated about the built tables. |
| Memory.PatternLookupSpec | learning_chatbot.py:336-340 | The pattern step returns the reply of the first response key, in table order, with a variant occurring in the text, provided every earlier key has a pattern entry. It raises KeyError at the first reached key without one, and finds nothing only when every key passes. |
| Memory.SubstringMatch | learning_chatbot.py:337 | A variant occurring inside a longer word still matches. |
| Memory.SeedPatternStep | learning_chatbot.py:336-340 | With the built-in tables, a text containing "salom" gets the greeting, and every other text raises KeyError('assalomu alaykum'). |
| Sentence.GenerateSentence | learning_chatbot.py:280-304 | With no templates the reply is "Gap shablonlari topilmadi." Otherwise, for some template: the error for the first slot without a candidate, or one candidate per slot (right type, passes the stop-word filter, a keyword when keywords are given), its surface forms joined by single spaces. A verb with forms emits its hozirgi/3s form, falling back to the word. |
| Sentence.StopFilterKeepsWords | learning_chatbot.py:291-294 | The stop-word filter never excludes a `\w+` word. Candidates are exactly the stored words of the slot's type that are keywords when keywords are given. |
| Sentence.FirstEmptySlotDecides | learning_chatbot.py:290-296 | Whatever the random choices, the first slot without candidates decides the reply. |
| Sentence.SentenceOfKeywords | learning_chatbot.py:290-304 | With keywords and no verb slot, a completed sentence is one keyword per slot, joined by single spaces. |
| Sentence.LearnedTokenFillsNounSlot | learning_chatbot.py:349-352 | After the fallback's learning pass, a token that was new fills any noun slot. |
| ChatBot.Database.constructor | learning_chatbot.py:85-97 | A new store is empty and consistent. |
| ChatBot.Database.SaveWord | learning_chatbot.py:126-133 | Upsert: the word's record is replaced, empty forms are stored as absent, and the row moves to the end of the enumeration order. Nothing else changes. |
| ChatBot.Database.LearnNewWord | learning_chatbot.py:235-245 | An existing entry is never altered. An absent word gets its derived record and is appended. |
| ChatBot.Database.LearnUnlessSkipped | learning_chatbot.py:328-330 | A word on the skip list is not learned. Otherwise it is learned when absent, and the result says whether it was stored. |
| ChatBot.Database.LearnWords | learning_chatbot.py:215-224 | One pass over a word list: the store gains exactly the `Fresh` words with the type the rule gives, in order. The count returned is their number. |
| ChatBot.Database.LearnAt | learning_chatbot.py:218-224 | One visit of a learning pass: the store gains `ws[i]` exactly when `Fresh` does, and the store and its order stay the old ones plus the words inserted so far. |
| ChatBot.Database.ProcessTextFile | learning_chatbot.py:212-226 | An empty count reports that no useful word was found. Otherwise it learns the absent words among the 5000 most frequent, typed by suffix, and reports how many were new. A read failure returns its message and changes nothing. |
| ChatBot.FileLearningWords | learning_chatbot.py:217-224 | File learning adds at most 5000 words: exactly the absent words among the most frequent 5000. |
| ChatBot.Database.SaveConversation | learning_chatbot.py:248-255 | Appends exactly one turn (input, reply). Nothing else changes. |
| ChatBot.Database.GenerateResponse | learning_chatbot.py:309-354 | Corrects the input, then tries in order: ingestion prefix, learning triggers, pattern step, context rule, fallback. Every branch except the KeyError appends exactly one turn holding the original input and the reply, and the KeyError changes nothing. Each branch's effect on the words is stated. |
| ChatBot.SeedClassify | learning_chatbot.py:336-354 | With the built-in tables the context rule and fallback are unreachable. A text without directives is greeted or raises KeyError('assalomu alaykum'). |
| ChatBot.IngestionNeedsColonWord | learning_chatbot.py:319 | The corrected text cannot start with "matn o'rgan:" while no known word holds a colon. |
| ChatBot.OrganTriggerNeedsApostropheWord | learning_chatbot.py:326 | "o'rgan" cannot occur in the corrected text while no known word holds an apostrophe. |
| ChatBot.LearnSkipOrganIsDead | learning_chatbot.py:329 | No `\w+` token equals "o'rgan", so that skip entry never applies. |
| ChatBot.ParseTeachOfLesson | learning_chatbot.py:405-413 | "o'rgat:q:a" with a stripped, lower-case, colon-free question and a stripped answer parses to exactly that question and answer. The answer may contain colons. |
| ChatBot.ParseTeachLesson | learning_chatbot.py:405-415 | An accepted lesson needs two colons in the input and a non-empty question and answer, and the question holds no colon. |
| ChatBot.Database.Teach | learning_chatbot.py:416-423 | Appends one (token, question) row per token of the question and sets the question's response to the answer, overwriting. Logs the confirmation turn. |
| ChatBot.Database.SeedMemory | learning_chatbot.py:375-382 | Appends one (key, variant) row per variant in table order, and upserts every response in order. |
| ChatBot.SeedRowsContents | learning_chatbot.py:377-379 | Seeding adds a row (key, v) exactly when v is a variant listed under key. |
| ChatBot.UpsertedGet | learning_chatbot.py:380-381 | After seeding, each response key holds its reply in the table, and every other key keeps its old reply. |
| ChatBot.Database.Step | learning_chatbot.py:398-428 | The exit words end the session and change nothing. A teaching directive is rejected for format or emptiness without change, or taught. Any other line has the effect Converse states. |
| ChatBot.Database.Converse | learning_chatbot.py:428 | An ordinary line goes to the resolver over the built-in tables, and every branch is stated. Corrected text starting with "matn o'rgan:" learns the new words among the file's 5000 most frequent, typed by suffix, and answers with the ingestion message. Text holding "eslab qol" or "o'rgan" learns its new tokens, outside the skip list, as nouns and answers with the confirmation. Each such line logs one turn. Any other text is greeted, logging one turn, when it contains "salom"; otherwise it raises KeyError('assalomu alaykum') and changes nothing. |

## Left out

- **uzNLP morphological analyzer.** `MorphAnalyzer` (154-162) is a foreign library. The model treats it as finding no root, so correction is the Levenshtein step alone.
- **SQLite plumbing.** Cursors, commits, `init_db`, `load_words`, and the handlers that print an exception and carry on (86-133, 248-255) are not modelled.
- **`generate_grammar_form` error path.** Its exception handler (276-277) is not modelled.
- **Corpus file handling** in `process_text_file` (194-213, 227-232) is not modelled: path rewriting, existence and size checks, chunked reads, the `[a-zA-Z'-]+\w*` tokenizer, the stop-word and length filter, and encoding and permission errors. A read is a `CorpusRead`: an error message, or the word counts.
- **Template loading.** `load_templates` and its JSON file (136-151) are not modelled. Templates are given as sequences of part-of-speech tags. A template without a "pattern" key (286) is outside the model.
- **Randomness.** The probability distribution of `random.choice` (285, 297) is not modelled. Only the set of possible outcomes is.
- **Timestamps.** `datetime.now` timestamps and `ORDER BY timestamp` (252, 314) are not modelled. The context is the input of the last appended turn.
- **Interactive loop.** Banners, `input`/`print`, the signal handler and end-of-input handling (355-396, 429) are not modelled. The second line of the format hint (408) is not part of the `Rejected` message.
- **ASCII text handling.** `\w` and `lower()` are modelled on ASCII only, and `strip()` on Python's whitespace set. Non-ASCII letters are not word characters here.
- **Word enumeration order.** SQLite does not fix the order of `SELECT word FROM words`: a scan of the primary-key index gives sorted order, a table scan gives row order. The model uses insertion order, where a replaced row moves to the end. The correction tie-break between equally near words is stated for that order only.
- **Order of the stop words.** The stop words are a set (17). `Sentence.StopWordsJoined` fixes one iteration order; every order contains commas, which is all the proofs use.
- **JSON forms.** Stored forms are assumed to read back as they were written. The JSON encoding itself is not modelled.
- WordCounts.MostCommonShape: does not state that ties keep first-seen order, because stability of the sort is not proved.
- EditDistance.DistanceBounds: the triangle inequality is not proved, because no property of the chatbot needs it.
