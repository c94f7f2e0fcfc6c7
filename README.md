# Text-Flow scoring core in Dafny

Text-Flow suggests the next word and corrects misspelled words using n-gram
frequency counts. This project models its three algorithmic units and proves
properties about them:

- **Edit-candidate generator** (`edit_distance.dfy`, module `EditDistance`).
  `edits1` builds the four Python lists from the splits of the word: deletions,
  adjacent transpositions, substitutions by `a`…`z` and insertions of `a`…`z`.
  It returns their set. `edits2` and `edits3` apply `edits1` again, nested as
  the source nests them.
- **Next-word predictor** (`text_completion.dfy`, module `TextCompletion`).
  `calculate_probability` is the add-one smoothed ratio
  `(count(ctx + (w,)) + 1) / (count(ctx) + vocab_size)`. `predict_next_word`
  does the following:
  - reads the arity from the first key of the n-gram table;
  - takes the context `previous_tokens[-n:]`;
  - filters the vocabulary by the optional prefix;
  - builds the score map over the filtered words, using the size of the filtered list;
  - returns the first arg-max, its score and the map.
- **Correction scorer** (`text_correction.dfy`, module `TextCorrection`).
  `calculate_probability` runs the unigram → previous-word bigram → next-word
  bigram → trigram cascade. Each step whose inputs are truthy in Python replaces
  the score so far.

Shared modules:
- `results.dfy` (`Results`): `Option`, and `Result` carrying the Python exceptions as values.
- `ratios.dfy` (`Ratios`): exact ratios compared by cross-multiplication.
- `count_tables.dfy` (`CountTables`): the count tables.

Modelling choices:
- **Scores are exact ratios.** The source wraps every ratio in `np.log`. The
  logarithm is strictly increasing, so the model keeps the ratio `num/den` of
  naturals. `Ratios.LessMatchesValue` proves that cross-multiplication orders
  ratios exactly as their rational values are ordered.
- **Count tables are Python dicts.** A dict keeps insertion order and never
  repeats a key. A table is therefore a sequence of `(key, count)` pairs with
  distinct keys (`CountTables.Table`). This gives the "first key" that
  `predict_next_word` reads its arity from, plus `len(...)` and
  `sum(....values())`.
  - `Get` is `dict.get(key, 0)`.
  - Unigram tables are keyed by the bare word, as the code looks them up.
  - Bigram and trigram tables are keyed by word sequences (the tuples).
- **Python errors are results.** Each exception the code can raise is an `Err`:
  - an empty n-gram table (`IndexError` at `list(...)[0]`) is `EmptyModel`;
  - an empty candidate list (`ValueError` from `max`) is `NoCandidates`;
  - a zero denominator (`ZeroDivisionError`) is `DivisionByZero`;
  - `bigram_counts.get` on `None` in the trigram step (`AttributeError`) is
    `MissingBigramTable`.
- **Truthiness.** "Given" means Python-truthy: a word that is present and
  non-empty, a table that is present and non-empty.

Behaviour of the code worth noting:
- **`edits2` contains `edits1` for self-editable words.** A word is in its own
  `edits1` exactly when it contains a letter `a`…`z` or two equal adjacent
  characters (`SelfInEdits1`). For such a word `edits2` contains `edits1`, and
  `edits3` contains `edits2` (`EditsNested`). Otherwise the containment can
  fail: for a word of two different non-letters such as `"12"`, the
  transposition `"21"` is in `edits1` but not in `edits2` (`Edits2MissesEdits1`).
- **The size bound follows the four lists.** The bound on `|edits1(w)|` is their
  total length: `|w| + max(|w|-1, 0) + 26|w| + 26(|w|+1)`.
- **An empty first key keeps all tokens.** `previous_tokens[-0:]` is the whole
  list in Python, so an arity of 0 keeps every token (`LastNgram`).
- **Error labels.** `EmptyModel` and `NoCandidates` are the model's labels for
  the `IndexError` and the `ValueError` listed above.

## Model

| member | source | states |
|---|---|---|
| `CountTables.Get` | src/utils/prediction/text_completion.py:8-9 | `dict.get(key, 0)`: the count stored with the key, 0 when absent; see `GetMissing` and `GetEntry` |
| `CountTables.Total` | src/utils/prediction/text_correction.py:15 | `sum(values())`, the sum of the counts; bounds every `Get` (`GetAtMostTotal`) |
| `CountTables.GetMissing` | src/utils/prediction/text_completion.py:8-9 | a key the table does not hold counts as 0 |
| `CountTables.GetEntry` | src/utils/prediction/text_completion.py:8-9 | a key the table holds gets exactly the count stored with it |
| `CountTables.GetAtMostTotal` | src/utils/prediction/text_correction.py:14-15 | no single count exceeds `sum(values())` |
| `Ratios.LessMatchesValue` | src/utils/prediction/text_completion.py:10 | comparing two well-formed ratios by cross-multiplication agrees with comparing their values, so with their logarithms |
| `EditDistance.Split` | src/utils/text_processing/edit_distance.py:16 | the i-th split reassembles the word and its left part has length i |
| `EditDistance.Deletes` | src/utils/text_processing/edit_distance.py:17 | the deletes list, one entry per split with a non-empty right part; its members are characterised by `DeletesMember` |
| `EditDistance.Transposes` | src/utils/text_processing/edit_distance.py:18 | the transposes list, one entry per split with a right part of length at least 2; characterised by `TransposesMember` |
| `EditDistance.Replaces` | src/utils/text_processing/edit_distance.py:19 | the replaces list, 26 entries per split with a non-empty right part, in letter order; characterised by `ReplacesMember` |
| `EditDistance.Inserts` | src/utils/text_processing/edit_distance.py:20 | the inserts list, 26 entries per split, in letter order; characterised by `InsertsMember` |
| `EditDistance.Edits1` | src/utils/text_processing/edit_distance.py:5-21 | the set of the four lists; characterised by `Edits1Exact` |
| `EditDistance.Edits2` | src/utils/text_processing/edit_distance.py:24-34 | edits1 of every member of edits1(w), as the nested comprehension; characterised by `Edits2Exact` |
| `EditDistance.Edits3` | src/utils/text_processing/edit_distance.py:37-47 | edits1 applied three times, as the nested comprehension; characterised by `Edits3OverEdits2` |
| `EditDistance.DeletesMember` | src/utils/text_processing/edit_distance.py:17 | the deletes list holds exactly the word with one position removed |
| `EditDistance.TransposesMember` | src/utils/text_processing/edit_distance.py:18 | the transposes list holds exactly the word with two adjacent characters swapped |
| `EditDistance.ReplacesMember` | src/utils/text_processing/edit_distance.py:19 | the replaces list holds exactly the word with one position set to a letter a..z |
| `EditDistance.InsertsMember` | src/utils/text_processing/edit_distance.py:20 | the inserts list holds exactly the word with a letter a..z inserted at any position 0..len |
| `EditDistance.Edits1Exact` | src/utils/text_processing/edit_distance.py:5-21 | a string is in edits1(w) if and only if it is one deletion, adjacent transposition, substitution or insertion away from w |
| `EditDistance.CandidateLengths` | src/utils/text_processing/edit_distance.py:17-20 | deletes have length len-1, transposes and replaces length len, inserts length len+1 |
| `EditDistance.Edits1Lengths` | src/utils/text_processing/edit_distance.py:16-21 | every member of edits1(w) has length within one of len(w) |
| `EditDistance.Edits1OfEmpty` | src/utils/text_processing/edit_distance.py:16-21 | edits1("") is exactly the one-letter strings "a".."z" |
| `EditDistance.OnlyInsertsOfEmpty` | src/utils/text_processing/edit_distance.py:16-20 | every member of edits1("") is a single letter a..z |
| `EditDistance.SelfInEdits1` | src/utils/text_processing/edit_distance.py:18-19 | w is in edits1(w) if and only if w has a letter a..z or two equal adjacent characters |
| `EditDistance.DeletionInEdits1` | src/utils/text_processing/edit_distance.py:17 | deleting any one position gives a member of edits1 |
| `EditDistance.TranspositionInEdits1` | src/utils/text_processing/edit_distance.py:18 | swapping any two adjacent characters gives a member of edits1 |
| `EditDistance.ReplacementInEdits1` | src/utils/text_processing/edit_distance.py:19 | substituting any letter a..z at any position gives a member of edits1 |
| `EditDistance.Edits1Size` | src/utils/text_processing/edit_distance.py:16-21 | edits1(w) has at most len + max(len-1, 0) + 26 len + 26 (len+1) members |
| `EditDistance.OneEditAlphabet` | src/utils/text_processing/edit_distance.py:15-21 | every character of a string one edit away from w is a character of w or a letter a..z |
| `EditDistance.Edits1Alphabet` | src/utils/text_processing/edit_distance.py:15-21 | every character of a member of edits1(w) is a character of w or a letter a..z |
| `EditDistance.Edits2Exact` | src/utils/text_processing/edit_distance.py:24-34 | a string is in edits2(w) if and only if two successive single edits lead to it from w |
| `EditDistance.Edits3OverEdits2` | src/utils/text_processing/edit_distance.py:37-47 | edits3(w) is exactly the union of edits1(e) over e in edits2(w) |
| `EditDistance.Edits2Lengths` | src/utils/text_processing/edit_distance.py:34 | members of edits2(w) have length within two of len(w) |
| `EditDistance.Edits3Lengths` | src/utils/text_processing/edit_distance.py:47 | members of edits3(w) have length within three of len(w) |
| `EditDistance.Edits2Alphabet` | src/utils/text_processing/edit_distance.py:34 | every character of a member of edits2(w) is a character of w or a letter |
| `EditDistance.Edits3Alphabet` | src/utils/text_processing/edit_distance.py:47 | every character of a member of edits3(w) is a character of w or a letter |
| `EditDistance.EditsNested` | src/utils/text_processing/edit_distance.py:34-47 | when w has a letter a..z or two equal adjacent characters, edits1(w) is a subset of edits2(w) and edits2(w) of edits3(w) |
| `EditDistance.Edits2MissesEdits1` | src/utils/text_processing/edit_distance.py:34 | for two different non-letter characters (such as "12") the transposition is in edits1 but not in edits2 |
| `TextCompletion.SmoothedRatio` | src/utils/prediction/text_completion.py:8-10 | the add-one smoothed ratio (count(ctx + (w,)) + 1) / (count(ctx) + vocab_size); its properties are stated by `CalculateProbability` and `ScoreOrder` |
| `TextCompletion.CalculateProbability` | src/utils/prediction/text_completion.py:4-12 | fails (division by zero) exactly when the context is unseen and the vocabulary size is 0; otherwise a ratio with numerator at least 1 and denominator at least the vocabulary size |
| `TextCompletion.ScoreOrder` | src/utils/prediction/text_completion.py:8-10 | with context and vocabulary size fixed, two words' scores compare exactly as their (n+1)-gram counts: the score is strictly increasing in the count |
| `TextCompletion.LastNgram` | src/utils/prediction/text_completion.py:22 | the context is the suffix of the tokens of length min(n, len), or all tokens when n is 0 |
| `TextCompletion.FilterByPrefix` | src/utils/prediction/text_completion.py:26-27 | the filtered list holds exactly the vocabulary words starting with the prefix, and is no longer than the vocabulary |
| `TextCompletion.FilterKeepsOrder` | src/utils/prediction/text_completion.py:27 | filtering a concatenation concatenates the filtered parts, so vocabulary order is kept |
| `TextCompletion.FilterKeepsAll` | src/utils/prediction/text_completion.py:26-27 | when every word has the prefix, the filter returns the vocabulary unchanged |
| `TextCompletion.Candidates` | src/utils/prediction/text_completion.py:26-27 | the whole vocabulary without a prefix, else the filtered list: never longer than the vocabulary and drawn from it |
| `TextCompletion.Arity` | src/utils/prediction/text_completion.py:19 | the context length n, the length of the n-gram table's first key; used by `PredictNextWord` and `PredictionScores` |
| `TextCompletion.FirstArgMax` | src/utils/prediction/text_completion.py:38 | the chosen index scores at least every score, and strictly more than every earlier one (first maximum wins) |
| `TextCompletion.PredictNextWord` | src/utils/prediction/text_completion.py:15-41 | fails with EmptyModel on an empty n-gram table and with NoCandidates on an empty candidate list, else succeeds. On success: the word is a candidate; the map's keys are exactly the candidates; the returned score is the word's entry and is at least every candidate's score; every candidate listed before the word's first occurrence scores strictly less |
| `TextCompletion.PredictionScores` | src/utils/prediction/text_completion.py:29-35 | each map entry is calculate_probability of the candidate after the last n tokens, with the filtered list's size as vocabulary size |
| `TextCompletion.PredictionMaximizesCount` | src/utils/prediction/text_completion.py:30-39 | the predicted word has the largest (n+1)-gram count after the context among the candidates; earlier candidates have strictly smaller counts |
| `TextCompletion.PredictsHappy` | src/utils/prediction/text_completion.py:15-41 | with ("i","am") seen 10 times and ("i","am","happy") 8 times, the prediction after "i am" over ["happy","sad"] is "happy" |
| `TextCorrection.UnigramRatio` | src/utils/prediction/text_correction.py:13-16 | the unigram score (u[word]+1)/(sum(u)+len(u)), a well-formed ratio exactly when the unigram table is not empty |
| `TextCorrection.PrevBigramRatio` | src/utils/prediction/text_correction.py:23-26 | the previous-word bigram score (b[(prev,word)]+1)/(u[prev]+len(u)); see `PrevBigramStep` |
| `TextCorrection.NextBigramRatio` | src/utils/prediction/text_correction.py:32-35 | the next-word bigram score (b[(word,next)]+1)/(u[next]+len(u)); see `NextBigramOverrides` |
| `TextCorrection.TrigramRatio` | src/utils/prediction/text_correction.py:41-44 | the trigram score (t[(prev,word,next)]+1)/(b[(prev,next)]+len(b)); see `TrigramStep` |
| `TextCorrection.CorrectionProbability` | src/utils/prediction/text_correction.py:4-47 | fails exactly when the unigram table is empty, or when the trigram step applies without a usable bigram table. An empty unigram table fails with DivisionByZero whatever the context, since the unigram score is computed first; otherwise a failure is MissingBigramTable for a None bigram table and DivisionByZero for an empty one. Every success is a well-formed ratio with numerator at least 1 |
| `TextCorrection.Decisive` | src/utils/prediction/text_correction.py:18-47 | the deciding step applies and no later step of the cascade applies |
| `TextCorrection.CascadeIsPriority` | src/utils/prediction/text_correction.py:18-47 | a successful score is exactly the ratio of the last applicable step, never a combination |
| `TextCorrection.UnigramFallback` | src/utils/prediction/text_correction.py:12-18 | with no usable context the score is (u[word]+1)/(sum(u)+len(u)), at most 1; an empty unigram table divides by zero |
| `TextCorrection.PrevBigramStep` | src/utils/prediction/text_correction.py:20-27 | a previous word with a bigram table and no next word gives (b[(prev,word)]+1)/(u[prev]+len(u)) |
| `TextCorrection.NextBigramOverrides` | src/utils/prediction/text_correction.py:29-36 | a next word with a bigram table gives (b[(word,next)]+1)/(u[next]+len(u)), whether or not a previous word is given, unless the trigram step applies |
| `TextCorrection.TrigramStep` | src/utils/prediction/text_correction.py:38-45 | both neighbours and a trigram table give (t[(prev,word,next)]+1)/(b[(prev,next)]+len(b)); the step fails on a missing bigram table and divides by zero on an empty one |
| `TextCorrection.EmptyWordIsAbsent` | src/utils/prediction/text_correction.py:20-38 | an empty-string previous word scores exactly as an absent one, whatever the next word, and likewise an empty-string next word whatever the previous word |

## Left out

- `np.log` and floating point. Scores are exact ratios, and the logarithm's
  strict monotonicity keeps order and arg-max.
- TextCompletion.PredictNextWord: ties are decided on exact ratios. The source
  compares rounded logarithms of floating-point quotients, so two different
  ratios that round to the same double tie there and may choose differently.
- TextCompletion.FirstArgMax: scans the filtered list, duplicates included. The
  source's `max` scans the dict's keys, which are the first occurrences in the
  same order. A duplicate scores the same as its first occurrence, so the
  chosen word is the same.
- The debug `print(last_ngram)` (text_completion.py line 23): a side effect
  only.
- Counts are naturals. Python counters can hold negative or non-integer values;
  the tables the application loads hold occurrence counts.
- Arguments of types other than the ones modelled: words are strings or `None`,
  tables are dicts or `None`.
- `src/utils/text_processing/text_preprocessing.py`: the tokenizer is a thin
  wrapper over NLTK `sent_tokenize`/`word_tokenize` and `re`, which are foreign
  calls. As written, its line 22 cleans the whole text rather than the
  sentence, so each sentence adds the tokens of the whole text.
- `src/utils/data/load_data.py` (file and pickle I/O), `config.py` (downloads
  and package installation), and `src/app.py`, `src/pages/home.py` and
  `src/pages/autocomplet.py` (Streamlit UI with a fixed placeholder
  prediction).
- The LSTM predictor that `config.py` downloads a model for, and that the UI
  offers as a model type, does not appear in the modelled files and is not part
  of this model.
