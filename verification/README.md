# Analogy evaluation of word-embedding models

This project models the core of a script that evaluates word-embedding models
against an analogy question file. It proves properties of the model in Dafny.
Two versions of the script are modelled: `models_evaluation.py` (Python 3,
fastText vectors) and `Models_evaluation.py` (Python 2, word2vec vectors).
The core has two parts.

- `questions_reading` reads the question file (module `QuestionsReading`).
  - A line starting with `:` is a category header. Its key is the header's
    text before the first tab. A header without a tab keeps its line break
    in the key.
  - Each header owns the lines after it, up to the next header. The last
    header owns the lines to the end of the file.
  - Each owned line becomes a question: its text before the first newline,
    split on tabs.
  - The categories form an insertion-ordered dictionary. A repeated header
    key keeps its first position and takes the block of its last header.
  - The key ": all questions" is then assigned every question, concatenated
    in dictionary order.
- `model_testing` scores the categories (module `ModelTesting`).
  - The script goes through every model, and then every category in
    dictionary order.
  - Each question (A, B, C, D) queries `most_similar` with positive A and D
    and negative C.
  - The question is correct when B is among the first `first_n` candidates.
    Four case combinations are tried.
  - On a miss, or when the first query raises, the script repeats the query
    with lower-cased words. Only the first four candidates of that retry are
    examined.
  - A question whose retry raises is not present.
  - Each (model, category) pair gives one row: the model name, the
    category's type (`key.split(" ")[1]`), two accuracies, the "no words in
    vocabulary" mark, the number of questions and the number of present
    questions.
  - A key without a space makes `key.split(" ")[1]` raise. That ends the
    whole run.

Supporting modules:
- `PyStrings` models `str.split` with a one-character separator, and `[:k]`
  slicing. Slicing covers a negative `k` and a `k` larger than the list.
- `OrderedDicts` models Python's insertion-ordered `dict`.
- `Evaluation` joins the two halves. It states what scoring the result of
  reading a file gives.
- `Wrappers` defines `Option`.

`most_similar` is an oracle `mostSimilar(vectors, positive, negative)`. It
returns the ranked candidate words, or `None` when the library raises, for
example for a word outside the vocabulary. One `Casing` record covers both
versions of the script. It says how a question word is turned into a query
word, how a lower-cased question word is turned into one, and how
candidates are lower-cased.
- In Python 3 these are the identity, `str.lower`, and `str.lower` again,
  and none of them raises.
- In Python 2 they are `unicode(w, "utf-8")`, `unicode(w.lower(), "utf-8")`
  and the text `lower()`. The first two raise on bytes that are not UTF-8.
  They are modelled as partial functions returning `None` in that case.

Lower-casing and decoding are otherwise uninterpreted functions.

## Where the two versions differ

The table below cites the Python 3 file. The Python 2 file has the same
steps at these lines of `Models_evaluation.py`:

| Step | Lines in `Models_evaluation.py` |
|---|---|
| header scan | 32-34 |
| split into categories | 36-42 |
| parse into questions | 44-48 |
| ": all questions" | 50 |
| model loop | 70 |
| category loop | 77-79 |
| first query | 82 |
| first test | 84-85 |
| retry after a miss | 87-95 |
| retry after a raised first query | 97-106 |
| row | 109-118 |

## Notes on the code's behaviour

- **Which word is the answer.** The query is A + D − C: positive
  `questions[i][0]` and `questions[i][3]`, negative `questions[i][2]`. The
  answer checked is B = `questions[i][1]` (models_evaluation.py:102-114).
- **Number of rows.** ": all questions" is an ordinary dictionary entry
  (models_evaluation.py:53). So there is one row per model and per entry
  (models_evaluation.py:83-90, 170-173).
  - When a header already has the key ": all questions", that entry is
    replaced and no extra row appears.
  - The whole run raises as soon as some key has no space.
- **When a category has no present question.** A category has no present
  question exactly when each of its questions is absent. This holds, for
  example, when every query its questions make raises
  (`UnknownVocabularyRow`). A question with fewer than four fields is never
  present.
- **Empty candidate list.** An empty list from `most_similar` makes
  `pd.DataFrame(...)[0]` raise a `KeyError` (models_evaluation.py:102-107).
  In the first attempt this leads to the retry, just like a miss. In the
  retry it makes the question not present.
- **Short-circuit tests.** The first test tries its four alternatives in
  order (models_evaluation.py:109-114). In Python 2, each alternative
  decodes B or its lower-cased bytes as UTF-8 (Models_evaluation.py:84).
  - A decoding that raises sends the question to the retry.
  - The retry test decodes the lower-cased bytes again
    (Models_evaluation.py:89, 100). If that raises, the question is not
    present.
- **Retry depth.** The retry looks at four candidates whatever `first_n`
  is (models_evaluation.py:129, 151). The source's own comment calls the
  `:4` a bug that should read `:first_n`. The model keeps `:4` as written
  (`FallbackDepth`, `RetryDepth`).

## Model

| member | source | states |
|---|---|---|
| PyStrings.Split | models_evaluation.py:36 | `str.split` with one separator: at least one piece, no piece holds the separator, and the pieces joined with the separator give the text back |
| PyStrings.SplitHead | models_evaluation.py:36 | the first piece is a prefix of the text; it is the whole text exactly when the separator is absent, and otherwise is followed by the separator; there are two or more pieces exactly when the separator occurs |
| PyStrings.SplitAfterWord | models_evaluation.py:50 | a separator-free word in front of a text sticks to the first piece of that text's split |
| PyStrings.SplitJoin | models_evaluation.py:50 | round trip: splitting the join of separator-free pieces gives the pieces back |
| PyStrings.SliceTo | models_evaluation.py:107 | `s[:k]` is a prefix of `s`: the first `k` elements, all when `k` is too large, and `|s| + k` (at least 0) elements when `k` is negative |
| OrderedDicts.Get | models_evaluation.py:42 | a lookup succeeds exactly when the key is present, and then returns the value of the first entry with that key |
| OrderedDicts.GetAt | models_evaluation.py:42 | with distinct keys, looking up the key of entry `i` returns entry `i`'s value |
| OrderedDicts.Assign | models_evaluation.py:42 | `d[k] = v` keeps the keys and their order when `k` is present, and appends `(k, v)` as the last entry when it is new |
| OrderedDicts.AssignGet | models_evaluation.py:42 | after `d[k] = v`, `k` holds `v` and every other key holds what it held before |
| OrderedDicts.AssignDistinct | models_evaluation.py:42 | assigning never creates a second entry for a key |
| OrderedDicts.AssignAllKeys | models_evaluation.py:40-45 | assigning a list of entries in order keeps each key once, in order of first assignment |
| OrderedDicts.AssignAllGet | models_evaluation.py:40-45 | assigning a list of entries in order: each key holds the value of its last assignment |
| OrderedDicts.LastValue | models_evaluation.py:40-45 | the value found for a key belongs to an entry with that key |
| OrderedDicts.LastValueAt | models_evaluation.py:40-45 | the entry at `i` supplies the last value of its key when no later entry has that key |
| OrderedDicts.DedupMembers | models_evaluation.py:40-45 | removing repeated keys keeps exactly the same set of keys |
| QuestionsReading.ParseQuestion | models_evaluation.py:50 | a question's fields hold no tab and no newline, and joined with tabs they give the line's text before its first newline |
| QuestionsReading.IsHeader | models_evaluation.py:35 | `line.startswith(":")`; no contract of its own, characterised through `HeaderThemesExact` and `ThemesPartitionFile` |
| QuestionsReading.HeaderKey | models_evaluation.py:36 | a header's key is a tab-free prefix of the line: the whole line when it has no tab, and otherwise the text up to its first tab |
| QuestionsReading.HeaderThemes | models_evaluation.py:34-36 | the scan of header lines; no contract of its own, characterised by `HeaderThemesExact` |
| QuestionsReading.HeaderThemesOnHeaders | models_evaluation.py:34-36 | every collected header is a header line of the file with that line's key, and the collected line indices strictly increase |
| QuestionsReading.HeaderThemesCover | models_evaluation.py:34-36 | every header line of the file is collected |
| QuestionsReading.HeaderThemesExact | models_evaluation.py:34-36 | the collected headers are exactly the header lines of the file, in file order, each with its key |
| QuestionsReading.FindThemes | models_evaluation.py:34-36 | the header-collecting loop returns exactly the header lines with their keys, in file order |
| QuestionsReading.ThemeBlocks | models_evaluation.py:40-45 | one (key, owned lines) pair per header, in header order, carrying the header keys |
| QuestionsReading.Block | models_evaluation.py:42-45 | the slice a header owns, `questions[h + 1 : next]` or `questions[h + 1 :]` for the last header; no contract of its own, characterised by `BlockHoldsNoHeader` and `SectionsCover` |
| QuestionsReading.BlockHoldsNoHeader | models_evaluation.py:40-45 | a header's block contains no header line, and it ends right before the next header or at the end of the file |
| QuestionsReading.SectionsCover | models_evaluation.py:40-45 | from a header on, the file is each header followed by its block, with no line lost and none repeated |
| QuestionsReading.NoHeaderBefore | models_evaluation.py:34-36 | no line before the first header, or in a file without headers, is a header |
| QuestionsReading.ThemesPartitionFile | models_evaluation.py:34-45 | there are no headers exactly when the file has no header line; the lines before the first header belong to no block; from the first header on, the file is the headers each followed by exactly its block |
| QuestionsReading.SplitByThemes | models_evaluation.py:39-45 | the splitting loop, including its out-of-range handler for the last header, gives the dictionary made by assigning every header's block in order; keys are distinct and are the header keys, each once, in order of first occurrence |
| QuestionsReading.ParseBlock | models_evaluation.py:50 | one question per owned line |
| QuestionsReading.ParseCategories | models_evaluation.py:49-50 | parsing the categories keeps their keys and their order |
| QuestionsReading.ConcatLayout | models_evaluation.py:51 | the collected questions number as many as all categories together, and category `i` sits unchanged right after the questions of the categories before it |
| QuestionsReading.Transform | models_evaluation.py:47-53 | the parse loop gives the parsed categories with ": all questions" assigned the concatenation of all of them in dictionary order |
| QuestionsReading.ReadQuestions | models_evaluation.py:24-54 | `questions_reading` returns the categorised file; its keys are distinct, and ": all questions" holds every category's questions concatenated |
| QuestionsReading.Categorize | models_evaluation.py:24-54 | what `questions_reading` returns; no contract of its own, characterised by `ResultKeys`, `CategoryOfKey`, `CategorizeDistinct` and `AllQuestionsEntry` |
| QuestionsReading.GetParsed | models_evaluation.py:49-50 | a key of the parsed dictionary holds the parse of the lines it held before parsing |
| QuestionsReading.CategoryOfKey | models_evaluation.py:40-45 | a header key's category holds the parsed block of the LAST header with that key |
| QuestionsReading.CategoryKeys | models_evaluation.py:39-45 | the categories are keyed by the header keys, each once, in order of first occurrence |
| QuestionsReading.CategorizeDistinct | models_evaluation.py:39-53 | no key appears twice in the result |
| QuestionsReading.ThemeKeysAreHeaderKeys | models_evaluation.py:34-36 | a key belongs to the collected headers exactly when some header line of the file has that key |
| QuestionsReading.ResultKeys | models_evaluation.py:34-53 | the keys of the result are exactly ": all questions" and the keys of the file's header lines |
| QuestionsReading.AllQuestionsEntry | models_evaluation.py:48-53 | ": all questions" holds all categories' questions end to end, as many as their total; every other key keeps its category; unless a header already used that key it is a new last entry, so there is one more entry |
| QuestionsReading.NoHeaderOnlyAllQuestions | models_evaluation.py:34-54 | a file without header lines gives exactly one category, ": all questions", and it is empty |
| ModelTesting.Python3Casing | models_evaluation.py:104-113 | with Python 3 casing neither the first test nor the retry test ever raises, for any answer and any candidates |
| ModelTesting.Python2Casing | Models_evaluation.py:82-100 | with Python 2 casing an answer that is not UTF-8 makes the first test raise, and the retry test raises exactly when the lower-cased bytes of the answer are not UTF-8 |
| ModelTesting.Lowered | models_evaluation.py:112 | `[s.lower() for s in sim]` has one entry per candidate |
| ModelTesting.FirstAttemptTest | models_evaluation.py:109-114 | the four-way first test in its short-circuit order, raising when a conversion raises; no contract of its own, characterised by `FirstAttemptRule`, `Python3FirstAttempt` and `Python2FirstAttempt` |
| ModelTesting.FallbackTest | models_evaluation.py:130 | the retry test (also at line 152), raising when the lowered answer cannot be converted; no contract of its own, characterised by `RetryDepth` |
| ModelTesting.Query | models_evaluation.py:102-107 | a `most_similar` query with positive A and D and negative C after converting each word, raising when a conversion or the library raises; no contract of its own, used by `FirstQuery` and `RetryQuery` |
| ModelTesting.FirstQuery | models_evaluation.py:102-106 | the first query on the converted words; no contract of its own, characterised by `NotPresentQuestions` and `RetryIgnoresFirstN` |
| ModelTesting.RetryQuery | models_evaluation.py:120-127 | the retry on the lower-cased converted words (also at lines 142-149); no contract of its own, characterised by `NotPresentQuestions` and `AllAbsent` |
| ModelTesting.Column | models_evaluation.py:102-107 | `pd.DataFrame(ranked)[:k][0]` raises exactly when the ranking raised or is empty; otherwise it is a prefix of the ranking, `k` long when the ranking is long enough |
| ModelTesting.Judge | models_evaluation.py:94-158 | the outcome of one question through both try/except levels; no contract of its own, characterised by `NotPresentQuestions`, `UndecodableAnswer`, `RetryIgnoresFirstN` and `OutcomesPartition`, and computed by the loop of `ScoreCategory` |
| ModelTesting.Count | models_evaluation.py:91-158 | how many questions have an outcome; no contract of its own, characterised by `OutcomesPartition` and `AllAbsent` |
| ModelTesting.FirstAttemptRule | models_evaluation.py:109-114 | the first test, tried in order: it raises when B cannot be converted; it hits at once when B is a candidate; it raises next when lowered B cannot be converted; otherwise it hits exactly when some candidate, as it is or lower-cased, equals B or lowered B |
| ModelTesting.Python3FirstAttempt | models_evaluation.py:102-114 | Python 3: the first test never raises, and it hits exactly when one of the first `first_n` candidates, as it is or lower-cased, equals B or B lower-cased |
| ModelTesting.FirstAttemptOnRanking | models_evaluation.py:102-114 | the first test over the first `first_n` candidates of a ranking, for any casing: raising and hitting exactly as `FirstAttemptRule` states, with the candidates at positions below `first_n` |
| ModelTesting.Python2FirstAttempt | Models_evaluation.py:82-84 | Python 2: the first test raises when B is not UTF-8. When B decodes but its lower-cased bytes do not, it hits if the decoded B is among the first `first_n` candidates and raises otherwise. When both decode, it hits exactly when one of the first `first_n` candidates, as it is or lower-cased, equals one of them |
| ModelTesting.UndecodableAnswer | Models_evaluation.py:84-106 | an answer B that cannot be converted, neither as it is nor lower-cased, is not present, whatever the model returns |
| ModelTesting.RetryDepth | models_evaluation.py:129-130 | the retry test raises exactly when lowered B cannot be converted; otherwise it hits exactly when one of the first four candidates, as it is or lower-cased, equals lowered B, so a candidate at position four or later never counts |
| ModelTesting.RetryIgnoresFirstN | models_evaluation.py:138-158 | when the first query raises, the outcome does not depend on `first_n` |
| ModelTesting.NotPresentQuestions | models_evaluation.py:102-158 | a question with fewer than four fields is not present; a question is never missed, and is correct exactly when the first attempt hits, when its retry raises, returns nothing, or cannot convert lowered B |
| ModelTesting.OutcomesPartition | models_evaluation.py:91-158 | every question is counted exactly once as correct, missed or not present |
| ModelTesting.ScoreCategory | models_evaluation.py:91-158 | the counting loop ends with `n` = the number of correct questions and `m` = questions minus not-present questions, so 0 ≤ n ≤ m ≤ number of questions |
| ModelTesting.AccuracyBounds | models_evaluation.py:162-163 | with present questions, accuracy1 times `m` and accuracy2 times the total are 100·n, and 0 ≤ accuracy2 ≤ accuracy1 ≤ 100 |
| ModelTesting.CategoryRow | models_evaluation.py:160-173 | the row exists exactly when the key has a space, and then names the model and the key's second word; it carries the total and `m`; "+" and blank accuracies exactly when `m` is 0; otherwise both accuracies are exact percentages with 0 ≤ accuracy2 ≤ accuracy1 ≤ 100 |
| ModelTesting.RowOf | models_evaluation.py:160-173 | the row of a model and a category from the counted outcomes; no contract of its own, characterised by `CategoryRow`, `UnknownVocabularyRow` and `AllQuestionsRow` |
| ModelTesting.UnknownVocabularyRow | models_evaluation.py:171-173 | when every query made by a category's questions raises (other categories may still be answered), its row has 0 present questions, the "+" mark and both accuracies empty, so nothing is divided by zero |
| ModelTesting.AllAbsent | models_evaluation.py:135-158 | when every query made by a category's questions raises, or a question is too short, every question of it is not present |
| ModelTesting.CategoryRowsShape | models_evaluation.py:90-173 | one model's rows fail exactly when some key has no space; otherwise there is one row per category and row `j` is category `j`'s row |
| ModelTesting.AllRowsShape | models_evaluation.py:83-173 | all rows fail exactly when there is a model and some key has no space; otherwise there are models × categories rows |
| ModelTesting.AllRowsCell | models_evaluation.py:83-173 | the row of model `i` and category `j` is at position `i·categories + j`: models in order, categories in dictionary order within each model |
| ModelTesting.ModelRows | models_evaluation.py:90-173 | the category loop for one model emits exactly that model's rows, and raises exactly when some key has no space |
| ModelTesting.ModelTesting | models_evaluation.py:83-174 | the model loop returns all rows, models × categories of them, or raises exactly when there is a model and some key has no space |
| Evaluation.SpacedKeysFromHeaders | models_evaluation.py:36 | when a dictionary's keys are ": all questions" and the header keys, all its keys have a space exactly when every header key does |
| Evaluation.SpacedKeysOfFile | models_evaluation.py:34-53 | every key of the file's categories has a space exactly when every header key of the file does |
| Evaluation.HeaderWithoutSpaceAborts | models_evaluation.py:170 | scoring a file's categories raises exactly when there is a model and some header line's key has no space, such as a header without a tab whose key is ":name\n" |
| Evaluation.AllQuestionsKind | models_evaluation.py:53 | ": all questions" splits on spaces into three words, the second being "all" |
| Evaluation.AllQuestionsRow | models_evaluation.py:170 | every model's row for ": all questions" exists, has type "all", and reports as total the number of questions in all categories |

## Left out

- File and directory reading, the text decoding (platform default encoding)
  and newline translation of Python 3 text files, and model loading are left
  out. The question file arrives as its lines, each
  with its line break, and the models arrive as a list of (name, vectors).
- The `replace(".", "_")` renaming of model files, and the collisions it can
  cause in the models dictionary, are left out: model names arrive already
  chosen and distinct.
- The nearest-neighbour search inside `most_similar` is an oracle. The model
  does not capture which words it returns, only how the script uses them.
- `str.lower`, `unicode(..., "utf-8")` and byte lower-casing are
  uninterpreted functions. Which byte strings fail to decode is not
  captured; only that a decoding may fail, and what the script does then.
- Floating-point division is modelled as exact real division. Rounding of
  the percentages is not captured.
- `print` calls, logging of exceptions and the progress banners are left out.
- The pandas `DataFrame` of results is a sequence of rows in insertion
  order. Its column types and its CSV serialisation are left out.
- The Python 2 `dict` iterates in an arbitrary order. The model uses
  insertion order for both versions. So for Python 2 the order of
  categories, the order of rows and the concatenation order of ": all
  questions" are one possible order among others.
- The command-line handling of both scripts is left out: argument parsing,
  the string `first_n` that the Python 2 script passes on, and writing the
  result to CSV.
- Only these exceptions are modelled:
  - a failing `most_similar`;
  - a question with fewer than four fields;
  - a UTF-8 decoding that fails (Python 2);
  - the `KeyError` from an empty candidate list;
  - the `IndexError` from `themes[t + 1]` past the last header, which the
    script catches to give the last header the lines to the end of the file
    (`SplitByThemes`);
  - the `IndexError` from `key.split(" ")[1]` on a key without a space.

  Others are left out, such as running out of memory.
