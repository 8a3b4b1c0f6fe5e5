# Tweet sentiment pipeline, modelled in Dafny

This project models the analysis core of a small program. The program fetches
tweets that match a search term, labels each one positive or negative, and
reports what share of the tweets falls under each label. The core has four parts,
all in `final_project.py`:

- **Cleaning** (`clean_tweet`). One regular-expression substitution replaces
  mentions, URLs and every character outside `[0-9A-Za-z \t]` with a space.
  Whitespace is then collapsed with `' '.join(s.split())`. The model is
  an explicit left-to-right scan, `Cleaner.Scrub`. At each position it tries the three
  alternatives of the pattern in order (`Cleaner.MatchAt`), then it splits and
  joins (`Cleaner.Split`, `Cleaner.Join`).
- **Classification** (`get_tweet_sentiment`). A text is positive when the
  polarity of its cleaned form is at least 0, and negative otherwise.
- **Parsing** (`parse_tweets`). A loop grows a list of `(text, sentiment)`
  entries. An entry from a tweet without retweets is always appended. An entry
  from a retweeted tweet is appended only when an equal entry is not yet in the list.
  The model is the method `Parser.ParseTweets`, with the same loop. It is proved
  equal to the fold `Parser.Parsed`. Lemmas then characterise the fold from the
  input alone: which tweets are kept, in which order, and what the entries are.
- **Aggregation** (the counting block of `main`). It counts the entries of each
  label and computes both percentages, but only for a non-empty list. The
  percentages are exact reals.

Modules: `Chars` (character classes), `Wrappers` (an `Option` type), `Cleaner`,
`CleanerExamples` (one worked input), `Sentiment`, `Parser`, `Aggregate`.

The model has two collaborators it does not contain, and both are parameters:

- `Chars.WordOracle` says which non-ASCII characters Python's Unicode database calls
  letters or digits. It only matters for `\w` in the URL alternative. ASCII
  word characters (letters, digits, `_`) are fixed, and a word character is never
  whitespace. Every property proved holds for every choice of oracle.
- `Sentiment.Analyzer.polarity` is TextBlob's polarity score: a
  function from the cleaned text to a real. Nothing else is assumed about it.

Whitespace (what `str.split()` splits on, and what `\s`/`\S` match) is Python's
`str.isspace` set, written out by code point in `Chars.IsWhitespace`. The two
sentiment strings `'positive'` and `'negative'` are the enum `Sentiment.Label`.
A tweet's retweet count is an `int`, since the source only tests it with `> 0`.

## Model

| member | source | states |
|---|---|---|
| `Chars.IsKept` | final_project.py:106 | the definition of the pattern's class `[0-9A-Za-z \t]` |
| `Chars.IsWhitespace` | final_project.py:106 | the definition of Python's whitespace, used by `str.split()` and by `\s`/`\S` |
| `Chars.IsWordChar` | final_project.py:106 | the definition of `\w`: ASCII letters, digits and `_`, plus the non-ASCII characters the oracle accepts, never whitespace |
| `Cleaner.RunEnd` | final_project.py:106 | the greedy run of a character class starting at a position: every character in it belongs to the class, and the character after it does not (or the text ends) |
| `Cleaner.MatchAt` | final_project.py:106 | a match of the pattern starting at `i` ends strictly after `i` and within the text; when nothing matches, the character at `i` is a letter, a digit, a space or a tab |
| `Cleaner.Scrub` | final_project.py:106 | the substitution pass leaves only ASCII letters, digits, spaces and tabs, and its output is never longer than its input |
| `Cleaner.Split` | final_project.py:106 | `str.split()` gives non-empty fields without whitespace, and every character of a field comes from the input |
| `Cleaner.Gaps` | final_project.py:106 | the whitespace around and between the split fields: one gap more than fields, and the first gap is non-empty exactly when the text starts with whitespace |
| `Cleaner.SplitLayout` | final_project.py:106 | every text is its split fields interleaved with whitespace gaps, with a non-empty gap between neighbouring fields: the fields are the maximal non-whitespace runs, in order, and only whitespace is dropped |
| `Cleaner.SplitSpaced` | final_project.py:106 | for any fields laid out with whitespace gaps (non-empty between neighbours), splitting gives exactly those fields back; with `SplitLayout` this determines the split of every text |
| `Cleaner.SplitGap` | final_project.py:106 | leading whitespace does not change the split |
| `Cleaner.SplitField` | final_project.py:106 | a non-whitespace field at the front, followed by whitespace or the end, is split off whole |
| `Cleaner.Join` | final_project.py:106 | the definition of `' '.join(ws)`: the fields with one space between neighbours; its properties are `JoinSingleSpaced`, `JoinAlnum` and `SplitJoin` |
| `Cleaner.Clean` | final_project.py:105-106 | the cleaned text holds only ASCII letters, digits and spaces, so no `@`, no `://`, no tab and no punctuation; it has no leading, trailing or doubled space; it is never longer than the input, so the empty text stays empty |
| `Cleaner.JoinSingleSpaced` | final_project.py:106 | joining whitespace-free fields with `' '` gives text whose only whitespace is single inner spaces, beginning with the first field |
| `Cleaner.JoinAlnum` | final_project.py:106 | joining fields of letters and digits gives only letters, digits and spaces |
| `Cleaner.NormalizeShorter` | final_project.py:106 | `' '.join(s.split())` is never longer than `s` |
| `Cleaner.SplitJoin` | final_project.py:106 | splitting the join of whitespace-free fields gives back exactly those fields (round trip) |
| `Cleaner.NoMatchInKept` | final_project.py:106 | at any position of a text made only of letters, digits, spaces and tabs, no alternative of the pattern matches |
| `Cleaner.ScrubKept` | final_project.py:106 | the substitution pass leaves such a text unchanged |
| `Cleaner.CleanMatchesNothing` | final_project.py:106 | no alternative of the pattern matches anywhere in a cleaned text |
| `Cleaner.CleanIdempotent` | final_project.py:106 | cleaning a cleaned text changes nothing |
| `CleanerExamples.MentionAndUrl` | final_project.py:106 | `"@ab hi, http://t.co x"` cleans to `"hi x"`: the mention, the comma and the link are each removed, whatever the non-ASCII word class |
| `Sentiment.Classify` | final_project.py:112-120 | the label is positive exactly when the polarity of the cleaned text is at least 0, so polarity 0 is positive, and negative exactly when it is below 0 |
| `Sentiment.ClassifyCleaned` | final_project.py:112-120 | a cleaned text gets the same label as its raw text, and two texts with the same cleaned form get the same label |
| `Parser.EntryOf` | final_project.py:133-139 | a tweet's entry keeps the original, uncleaned text and the label of that text |
| `Parser.Admit` | final_project.py:142-147 | the definition of one loop iteration: a retweeted tweet's entry is appended unless the list already holds it, any other is appended; `ParsedSnoc` restates it against the input |
| `Parser.Parsed` | final_project.py:126-150 | the definition: the loop's iterations folded over the tweets in order; `ParseTweets` is proved equal to it, and the parser lemmas are about it |
| `Parser.ParseTweets` | final_project.py:126-150 | the loop returns exactly the fold `Parsed` of the tweets; the result is no longer than the input, and it is empty exactly when the input is empty |
| `Parser.ParsedLength` | final_project.py:126-150 | at most one entry per tweet, and the list is empty exactly when there were no tweets (a first tweet is never dropped) |
| `Parser.ParsedEntries` | final_project.py:128-147 | an entry is in the parsed list iff it is the entry of some input tweet; every collected entry carries the label of its own text |
| `Parser.ParsedSnoc` | final_project.py:142-147 | one more tweet: without retweets it is appended even if an equal entry exists; a retweeted one is appended iff no earlier tweet has the same entry, which agrees with the source's test against the list built so far |
| `Parser.KeptOnPrefix` | final_project.py:142-147 | whether a tweet is kept depends only on the tweets up to and including it |
| `Parser.KeptIndicesSpec` | final_project.py:131-147 | the kept positions are strictly increasing positions of the input, and a position is among them iff its tweet has no retweets or no earlier tweet has the same entry |
| `Parser.ParsedAtKept` | final_project.py:126-150 | the parsed list has one entry per kept position, and the k-th entry is the entry of the k-th kept tweet |
| `Parser.ParsedSubsequence` | final_project.py:126-150 | the parsed list is the order-preserving subsequence of the tweets' entries made of exactly the kept tweets, in input order, so a tweet without retweets always has its own entry |
| `Parser.DroppedShortens` | final_project.py:142-145 | if any tweet is not kept, there are fewer entries than tweets |
| `Parser.RetweetedDuplicateDropped` | final_project.py:142-145 | a retweeted tweet whose text an earlier tweet (retweeted or not) already had is dropped, so the list is shorter than the input |
| `Aggregate.WithLabel` | final_project.py:35 | the list comprehension keeps exactly the entries with the given label, each as many times as it occurs in the list, and drops every other entry; it is no longer than the list |
| `Aggregate.Share` | final_project.py:36 | the definition: `100*len(...)/len(parsed_tweets)` as an exact real, for a non-zero total |
| `Aggregate.CountsPartition` | final_project.py:35-41 | the positive and negative counts add up to the number of parsed entries |
| `Aggregate.Percentages` | final_project.py:30-41 | there is no result exactly when the parsed list is empty; otherwise each share is `100*count/n` for its own label's count, lies in [0, 100], and the two add up to 100 |
| `Aggregate.Shares` | final_project.py:36-41 | for a split `p + q = n` with `n > 0`, both exact shares lie in [0, 100], sum to 100, and each times `n` is 100 times its count |
| `Aggregate.ScaledShare` | final_project.py:36 | `100*c/m` times `m` is `100*c`, and it lies in [0, 100] when `0 <= c <= m` |
| `Aggregate.Report` | final_project.py:27-42 | the analysis after fetching parses the tweets and aggregates the result; there is nothing to report (the no-data branch) exactly when no tweet was fetched |
| `Aggregate.ExampleParsed` | final_project.py:126-150 | two originals with one text and two retweets with another give the entries `[g, g, b]` |
| `Aggregate.ExampleShares` | final_project.py:30-41 | two positive entries and one negative give the shares 200/3 and 100/3 |
| `Aggregate.TwoOriginalsTwoRetweets` | final_project.py:126-150 | for any two distinct texts, two originals of the first and two retweets of the second give three entries; with the first text positive and the second negative, the split is two thirds positive and one third negative |
| `Aggregate.GreatDayBadService` | final_project.py:126-150 | the same for "Great day!" (twice, no retweets) and "Bad service" (3 and 5 retweets): three entries, and 200/3 % positive and 100/3 % negative when the first is positive and the second negative |

## Left out

- `run_twitter_API` (final_project.py:62-99): reading the credentials file, OAuth, the
  search call, `input()` and the `TweepError` handler are I/O and foreign calls. The
  lazy `Cursor` and its 500-tweet limit become a finite sequence of tweets passed in.
- `create_pie_chart` (final_project.py:156-174): pandas and matplotlib rendering.
- TextBlob's polarity computation (final_project.py:114, 117) is a foreign library with
  float results. It is the oracle `Analyzer.polarity`, used only through the
  comparison with 0.
- Python's Unicode character database beyond ASCII is the oracle `WordOracle`,
  because its tables are not part of this model.
- The `"{:.2f}".format` rounding and the `print` calls (final_project.py:36-37, 41-42,
  56): float-to-string formatting and console output. The percentages are exact
  reals, not floats.
- The `tweets != None` check and the tuple unpacking in `main` (final_project.py:22-25)
  depend on the API wrapper's return shape.
- The source has no error path for a text TextBlob cannot process. An exception from
  TextBlob would propagate, and this is not modelled.
- An empty parsed list is handled by `main`'s `len(parsed_tweets) != 0` guard
  (final_project.py:30). `Percentages` returns `None` there.
- Two "Great day!" originals followed by two "Bad service" retweets leave three
  entries, two of them "Great day!". `Aggregate.GreatDayBadService` states the
  resulting 2:1 split.
