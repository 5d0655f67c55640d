# Review sentiment analyser: a Dafny model

This project models the logic of a small review-sentiment web application.
The application cleans review text, labels a review positive, negative or
neutral from a library score, analyses batches of reviews, and tallies labels
into a distribution. Its configuration also picks the database URI. The model
has three modules:

- `Builtins` (builtins.dfy) holds the Python values the analyser handles:
  `None`, a `str`, or an opaque object known by its `str()` and its truth
  value. `Truthy` and `ToStr` are the definitions of `bool()` and `str()` on
  these three kinds of value. It also defines the `str` operations the code
  calls (`lower`, `strip`, `split`, `" ".join`, `startswith`,
  `replace(..., 1)`) and those they are built from (`isspace`, `lstrip`,
  `rstrip`, `find`). Each is a total function over Dafny strings, with
  lemmas that fix its result on every input.
- `SentimentAnalyzer` (sentiment_analyzer.dfy) models
  `app/sentiment_analyzer.py`. Text preparation, the two threshold rules and
  `round(x, 3)` are pure functions. `predict_sentiment_ml`, `analyze_batch`
  and `get_sentiment_distribution` build their result in a loop, so they are
  methods with loop invariants. Each method is proved against a
  specification function, and lemmas about that function state what the
  source promises.
- `Config` (config.dfy) models
  `normalize_db_url` and the `SQLALCHEMY_DATABASE_URI` choice in `config.py`.

The TextBlob and VADER scorers are outside the model. Every operation that
needs a score takes the scorer as a function parameter (`string ->
BlobSentiment`, `string -> VaderScores`). Every contract therefore holds for
any scorer. Scores are `real`s, read as the exact value of the binary64
number the library returns. On such values, comparing with the real 0.05
decides exactly as comparing with the binary64 constant 0.05 does.

Three behaviours of the code are easy to miss, and the model keeps them:

- A non-string value given to `prepare_text` comes back as `str(value)`,
  with no lower-casing or filtering (`PrepareText`).
- `predict_sentiment_ml` scores `str(review)`, while `analyze_review_vader`
  scores `str(text) if text else ""`. The two agree on every string and every
  true value. They differ on false non-strings: for `None` one scores "None"
  and the other "" (`PredictLabel`).
- `get_sentiment_distribution` gives a label other than the three a key of
  its own. Only a missing `sentiment` entry counts as neutral
  (`DistributionCounts`). With the analyser's own results the keys are
  exactly the three labels (`DistributionOfResults`).

## Model

| member | source | states |
|---|---|---|
| `Builtins.LowerChar` | app/sentiment_analyzer.py:95 | a capital A-Z becomes its small letter; any other character except U+0130 and U+212A is kept as it is; no capital remains |
| `Builtins.Lower` | app/sentiment_analyzer.py:95 | no ASCII capital letter survives lower-casing |
| `Builtins.LowerAppend` | app/sentiment_analyzer.py:95 | lower-casing works character by character: `(a + b).lower()` is `a.lower() + b.lower()`, and one character becomes its own lower-case form; with `LowerChar` this fixes `lower()` on every string |
| `Builtins.LowerUnchanged` | app/sentiment_analyzer.py:95 | lower-casing leaves a string without capitals unchanged |
| `Builtins.TrimStart` | app/sentiment_analyzer.py:151 | `lstrip` removes only leading whitespace, and exactly all of it |
| `Builtins.TrimEnd` | app/sentiment_analyzer.py:151 | `rstrip` removes only trailing whitespace, and exactly all of it |
| `Builtins.Strip` | app/sentiment_analyzer.py:151 | `strip()` is empty exactly when the text is all whitespace; otherwise it starts and ends with non-whitespace |
| `Builtins.Split` | app/sentiment_analyzer.py:101 | every piece `split()` returns is a non-empty run without whitespace |
| `Builtins.SplitWord` | app/sentiment_analyzer.py:101 | a single word splits to itself |
| `Builtins.SplitSpaces` | app/sentiment_analyzer.py:101 | leading whitespace contributes no word |
| `Builtins.SplitWordThen` | app/sentiment_analyzer.py:101 | a word followed by nothing or by whitespace is the first piece |
| `Builtins.SplitAtSpace` | app/sentiment_analyzer.py:101 | any whitespace character separates: `(a + c + b).split()` is `a.split() + b.split()`; with `SplitWord` and the empty case this fixes `split()` on every string as its maximal non-whitespace runs, in order |
| `Builtins.SplitAllSpace` | app/sentiment_analyzer.py:101 | whitespace-only text has no words |
| `Builtins.SplitJoinSpace` | app/sentiment_analyzer.py:101 | round trip: splitting a space-joined list of words gives the same words back |
| `Builtins.JoinSpace` | app/sentiment_analyzer.py:101 | `" ".join` of no words is empty; the result starts with the first word, and a space follows it when there is a second |
| `Builtins.JoinSpaceCollapsed` | app/sentiment_analyzer.py:101 | joining words with single spaces leaves no leading, trailing or doubled whitespace |
| `Builtins.JoinSplitCollapsed` | app/sentiment_analyzer.py:101 | a collapsed string is its own `" ".join(s.split())` |
| `Builtins.SplitKeepsChars` | app/sentiment_analyzer.py:101 | `split()` adds no characters: each word character satisfies any property all non-whitespace input characters satisfy |
| `Builtins.JoinSpaceKeepsChars` | app/sentiment_analyzer.py:101 | joining adds no character other than the space |
| `Builtins.Find` | config.py:19 | `find` returns the first index where the pattern occurs, or -1 when it occurs nowhere |
| `Builtins.ReplaceFirst` | config.py:19 | `replace(pat, repl, 1)`: when the pattern occurs, its first occurrence is replaced and everything before and after it kept; with no occurrence the string is unchanged |
| `Builtins.StartsWith` | config.py:18 | `s.startswith(p)` holds exactly when `s` is `p` followed by some rest |
| `SentimentAnalyzer.StripSpecial` | app/sentiment_analyzer.py:98 | what is left holds only ASCII letters, digits and whitespace, all taken from the input |
| `SentimentAnalyzer.StripSpecialAppend` | app/sentiment_analyzer.py:98 | the filter works character by character: filtering `a + b` is filtering `a`, then `b` |
| `SentimentAnalyzer.StripSpecialChar` | app/sentiment_analyzer.py:98 | one character stays exactly when it is an ASCII letter, a digit or whitespace, and otherwise disappears; with `StripSpecialAppend` this fixes the filter on every string: every kept character stays, in order |
| `SentimentAnalyzer.StripSpecialUnchanged` | app/sentiment_analyzer.py:98 | the filter deletes nothing from text made only of kept characters |
| `SentimentAnalyzer.CleanChars` | app/sentiment_analyzer.py:94-98 | after lower-casing and filtering, every character is a lower-case letter, a digit or whitespace |
| `SentimentAnalyzer.JoinSplitPrepared` | app/sentiment_analyzer.py:101 | collapsing the whitespace of such text gives prepared text |
| `SentimentAnalyzer.PrepareText` | app/sentiment_analyzer.py:80-103 | on a string: its words are exactly the words of the lower-cased, filtered text, none dropped or merged, joined by single spaces with nothing else: only `a-z`, `0-9` and single spaces, no leading, trailing or doubled space; on any other value: exactly `str(value)`, uncleaned |
| `SentimentAnalyzer.PreparedUnchanged` | app/sentiment_analyzer.py:94-103 | text that is already prepared comes back unchanged |
| `SentimentAnalyzer.PrepareTextIdempotent` | app/sentiment_analyzer.py:94-103 | preparing twice is the same as preparing once |
| `SentimentAnalyzer.PrepareTextFixedPoints` | app/sentiment_analyzer.py:94-103 | a string is unchanged by preparation exactly when it is already prepared (both directions) |
| `SentimentAnalyzer.PrepareTextOfClean` | app/sentiment_analyzer.py:94-101 | on text already made of `a-z`, `0-9` and whitespace, preparation only collapses the whitespace: the result is `" ".join(text.split())` |
| `SentimentAnalyzer.SplitTwoWords` | app/sentiment_analyzer.py:101 | two words with any non-empty whitespace between them split into exactly those two words |
| `SentimentAnalyzer.PrepareTextCollapsesGap` | app/sentiment_analyzer.py:94-103 | between two lower-case words, any run of whitespace becomes one space: `prepare_text("a \t\n b")` is "a b", none dropped |
| `SentimentAnalyzer.BlankPreparesEmpty` | app/sentiment_analyzer.py:94-103 | whitespace-only text prepares to the empty string |
| `SentimentAnalyzer.RoundHalfEven` | app/sentiment_analyzer.py:48 | Python's rounding to an integer: within 1/2 of the value, and at exactly 1/2 the even neighbour |
| `SentimentAnalyzer.RoundHalfEvenUnique` | app/sentiment_analyzer.py:48 | those two conditions pick exactly one integer, so they define the rounding |
| `SentimentAnalyzer.Round3` | app/sentiment_analyzer.py:135-136 | `round(x, 3)` is a multiple of a thousandth within half a thousandth of `x`; at an exact tie, the one with an even numerator |
| `SentimentAnalyzer.Round3Ties` | app/sentiment_analyzer.py:48 | exact binary64 ties go to the even neighbour: 0.0625 → 0.062, 0.3125 → 0.312, -0.1875 → -0.188 |
| `SentimentAnalyzer.Round3Between` | app/sentiment_analyzer.py:48 | rounding to thousandths never carries a value across a multiple of a thousandth |
| `SentimentAnalyzer.PolarityLabel` | app/sentiment_analyzer.py:126-131 | positive iff polarity > 0, negative iff < 0, neutral iff = 0 |
| `SentimentAnalyzer.AnalyzeSentiment` | app/sentiment_analyzer.py:117-137 | the label is the polarity rule on the score of the PREPARED text; the reported polarity and subjectivity are exactly `round(score, 3)` of the library's scores, so within half a thousandth of them; the rounded polarity never contradicts the label's sign |
| `SentimentAnalyzer.AnalyzeSentimentRawOrPrepared` | app/sentiment_analyzer.py:111-117 | raw or already prepared, a string gets the same analysis |
| `SentimentAnalyzer.BlankTextNeutral` | app/sentiment_analyzer.py:117-131 | blank text is scored as "", so it is neutral with polarity 0 when "" scores 0 |
| `SentimentAnalyzer.CompoundLabel` | app/sentiment_analyzer.py:39-44 | positive iff compound >= 0.05, negative iff <= -0.05, neutral iff strictly between |
| `SentimentAnalyzer.AnalyzeReviewVader` | app/sentiment_analyzer.py:29-52 | VADER sees the raw `str(text)` (or "" for a false value); the label follows the compound rule; the reported compound is exactly `round(compound, 3)`, within half a thousandth of the score and never contradicting the label; pos, neg and neu are passed through |
| `SentimentAnalyzer.CompoundRuleRefinesPolarityRule` | app/sentiment_analyzer.py:39-44 | whenever the dead-zone rule commits to a label, the point rule on the same score gives that label too; a score the point rule calls neutral is neutral under the dead-zone rule too |
| `SentimentAnalyzer.LabelsMonotone` | app/sentiment_analyzer.py:126-131 | under both rules, a higher score never gets a lower label |
| `SentimentAnalyzer.PredictLabel` | app/sentiment_analyzer.py:68-76 | the label of one review: for a string or a true value it is `analyze_review_vader`'s label; for `None` VADER is shown "None" here but "" by `analyze_review_vader` |
| `SentimentAnalyzer.PredictSentimentMl` | app/sentiment_analyzer.py:65-78 | one label per review, in input order, none skipped; label i is the compound rule on the score of `str(reviews[i])` |
| `SentimentAnalyzer.Retained` | app/sentiment_analyzer.py:151 | an entry is kept exactly when it is true and not all whitespace |
| `SentimentAnalyzer.RetainedString` | app/sentiment_analyzer.py:151 | for a string the truth test adds nothing: it is kept exactly when it is not all whitespace |
| `SentimentAnalyzer.RetainedReviews` | app/sentiment_analyzer.py:149-155 | the kept entries are no more than the input, and each passes the test |
| `SentimentAnalyzer.RetainedIsSubsequence` | app/sentiment_analyzer.py:149-155 | the kept entries are a subsequence of the input: order preserved |
| `SentimentAnalyzer.RetainedCount` | app/sentiment_analyzer.py:150-154 | each value that passes the test (true and not all whitespace) is kept as often as it occurs; any other value is dropped |
| `SentimentAnalyzer.AnalyzeBatch` | app/sentiment_analyzer.py:139-155 | results correspond one to one to the kept entries, in order, with at most as many results as inputs; result i is the analysis of kept entry i, tagged with that entry as given |
| `SentimentAnalyzer.Distribution` | app/sentiment_analyzer.py:167-175 | the three label keys are always present, and the label of the last entry counted has a positive count |
| `SentimentAnalyzer.DistributionCounts` | app/sentiment_analyzer.py:167-175 | the keys are positive, negative and neutral plus every other label that occurs; each key maps to the number of entries counted for it; a missing label counts as neutral |
| `SentimentAnalyzer.DistributionTotal` | app/sentiment_analyzer.py:167-177 | the values sum to the number of entries: each entry is counted exactly once |
| `SentimentAnalyzer.DistributionAllPositive` | app/sentiment_analyzer.py:167-177 | N entries all labelled positive give {positive: N, negative: 0, neutral: 0} |
| `SentimentAnalyzer.DistributionOfResults` | app/sentiment_analyzer.py:167-175 | for the analyser's own results the keys are exactly the three labels |
| `SentimentAnalyzer.GetSentimentDistribution` | app/sentiment_analyzer.py:157-177 | the loop builds the fold: keys, per-key counts and total as stated above |
| `Config.NormalizeDbUrl` | config.py:13-20 | "postgres://" + rest becomes "postgresql://" + the same rest, 2 characters longer; `None`, "" and any other URL come back unchanged |
| `Config.NormalizedIsNotPostgres` | config.py:18-19 | a normalized URL never starts with "postgres://" |
| `Config.NormalizeDbUrlIdempotent` | config.py:18-20 | normalizing twice is normalizing once |
| `Config.SqliteUri` | config.py:30-31 | the fallback URI is "sqlite:///" followed by the path exactly as given, and is never a "postgres://" URL |
| `Config.DatabaseUri` | config.py:29-35 | with `DATABASE_URL` unset or empty: the SQLite fallback; otherwise the normalized URL; in every case never the "postgres://" scheme |

## Left out

- TextBlob's and VADER's scoring are outside the model. Their scores are function parameters, so nothing is assumed about them, not even their ranges.
- The NLTK lexicon download at import time and the construction of the VADER analyser are left out. They are network and file I/O.
- Python's `str.lower()` is modelled exactly on ASCII and on the two non-ASCII characters whose lower-case form contains an ASCII letter (U+0130 and U+212A). Other non-ASCII letters are left as they are, because the following filter deletes them either way.
- Floating point: scores are the exact reals that the binary64 values denote. `round(x, 3)` is the nearest thousandth of that exact value, with exact ties (such as 0.0625) going to the even neighbour as in Python. The result is that decimal value, not the binary64 Python stores for it.
- An object whose `str()` raises, or an analysis that is not a dictionary, would make the source raise. The model's values cannot do either.
- SentimentAnalyzer.GetSentimentDistribution: labels are strings, so a non-string `sentiment` value (such as `None`) is not modelled. The dictionary's key order is not modelled either, since a Dafny map has none.
- SentimentAnalyzer.AnalyzeBatch: the source adds the `review` key to each fresh result dictionary in place. The model builds the tagged record as a new value instead. The dictionary is local and never shared, so nothing observable differs.
- `config.py` beyond the URI choice is left out: creating the instance directory, reading the environment, building paths, the secret key, the model file paths and the tracking flag. It is filesystem and environment access; the read `DATABASE_URL` and the SQLite file path are parameters of `DatabaseUri`.
- `app/__init__.py` (the Flask app factory, database and login set-up) and `manage_db.py` (table creation) are framework plumbing and I/O and are not part of this model.
