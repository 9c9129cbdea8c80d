# Movie recommender: a verified model of `RecommendAsync`

This project models the recommendation engine of the agents demo, `MovieRecommender.RecommendAsync(top)`. The engine proposes up to five movies the user has not watched.

- **Empty watch history.** It returns at most five lines: the first non-blank lines of the catalog's top-rated list.
- **Otherwise, resolution.** It resolves every watched title to a TMDB movie id with a catalog search. An id is kept when `int.TryParse` accepts the reply and the id is not 0.
- **Aggregation.** It gathers the non-blank lines of the catalog's recommendations for every id, asking for 10 per id.
- **Ranking.** It drops lines that are equal ignoring case, keeping the first spelling met. It drops lines whose bare title (`TitleOnly`) the watch history contains. It stably orders the rest by descending score (`ParseScore`, the last space-separated token read as a decimal) and keeps at most five.

## Modules

- `Wrappers`: `Option` (the outcome of a `TryParse`) and `Result` (the outcome of a lookup that may throw).
- `Text`: the .NET string operations the routine relies on:
  - `char.IsWhiteSpace` and `string.IsNullOrWhiteSpace`;
  - the `OrdinalIgnoreCase` fold;
  - `Split` on one character, with `Join` as its inverse;
  - the line splitting applied to every reply: `Split('\n', RemoveEmptyEntries)` followed by dropping blank lines;
  - `Trim`.
- `Numbers`: `int.TryParse` and `decimal.TryParse` with the default number styles. Also `ToString` of integers, as the partner that the parse lemmas round-trip against.
- `CandidateLine`: the catalog's line format `"- <title> (<year>) <score>"` and the two local helpers `TitleOnly` and `ParseScore`.
- `Ranking`: the LINQ pipeline `Distinct(OrdinalIgnoreCase)`, `Where(unwatched)`, `OrderByDescending(score)`, `Take(5)`, as functions on sequences. The filter and the key are parameters `watched` and `score`. `Recommender` instantiates them with "the history contains `TitleOnly(line)`" and `ParseScore`. Also what the pipeline guarantees: no duplicates, exclusion, encounter order, sortedness, stability and cut-off.
- `Recommender`:
  - `Collect`: the shape shared by both `foreach` loops. Each pass appends what it gets, and a throwing lookup ends the call.
  - the id and gathering steps built on it;
  - the specification function `Recommend`;
  - the methods `ResolveAll` and `GatherAll`, the two loops, each proved equal to its step function;
  - the method `RecommendAsync`, built on them and proved equal to `Recommend`;
  - the end-to-end guarantees.

The collaborators are parameters:
- `topRated(take)` is `GetTopRatedMoviesAsync`.
- `resolve(title)` is `SearchMovieId`.
- `recs(movieId, take)` is `GetMovieRecommendations`.
- `contains(title)` is `IMovieMemory.Contains`.
- The watch history from `IMovieMemory.AllAsync` is the sequence `watched`.

A lookup that throws is an `Err`.

**A lookup that throws ends the call.** `RecommendAsync` contains no `try` (MovieRecommender.cs:22-64), so an exception from any lookup propagates out of the routine:
- a failing top-rated, search or recommendation lookup makes `Recommend` return that lookup's error;
- `Failures` and `FirstFailingSearch` state exactly when this happens and which error comes out.

A search reply that is not an `int`, or is 0, is skipped (MovieRecommender.cs:39).

`ParseScore` takes `parts[^1]` and never indexes out of range. `Text.Split` guarantees at least one piece.

## Model

| member | source | states |
|---|---|---|
| Text.Fold | MovieRecommender.cs:57 | the `OrdinalIgnoreCase` fold keeps the length, leaves no lower-case ASCII letter, and changes nothing but lower-case letters |
| Text.FoldEq | MovieRecommender.cs:57 | two strings are equal under `OrdinalIgnoreCase` exactly when they have the same length and agree character by character up to the case of ASCII letters |
| Text.Split | MovieRecommender.cs:70 | `Split` on one character gives at least one piece, and no piece holds the separator |
| Text.SplitJoin | MovieRecommender.cs:70 | splitting loses nothing: joining the pieces with the separator gives the text back |
| Text.JoinSplit | MovieRecommender.cs:70 | splitting the join of separator-free pieces gives those pieces back |
| Text.SplitWithoutSep | MovieRecommender.cs:66 | a text without the separator splits into itself alone |
| Text.SplitConcat | MovieRecommender.cs:66 | splitting `a + sep + b` gives the pieces of `a` followed by the pieces of `b` |
| Text.NonEmpty | MovieRecommender.cs:30 | `RemoveEmptyEntries` keeps only non-empty pieces of the input |
| Text.NonBlank | MovieRecommender.cs:30 | the blank-line filter keeps only non-blank pieces of the input |
| Text.NonEmptyKeeps | MovieRecommender.cs:30 | every non-empty piece is kept |
| Text.NonBlankKeeps | MovieRecommender.cs:30 | every non-blank piece is kept |
| Text.NonEmptyConcat | MovieRecommender.cs:53 | the empty-piece filter keeps order across a concatenation |
| Text.NonBlankConcat | MovieRecommender.cs:53 | the blank filter keeps order across a concatenation |
| Text.NonBlankLines | MovieRecommender.cs:53 | every line taken from a reply is non-blank and holds no line break |
| Text.NonBlankLinesMembers | MovieRecommender.cs:53 | the lines taken are exactly the non-blank pieces between line breaks |
| Text.NonBlankLinesConcat | MovieRecommender.cs:53 | the lines of two texts joined by a line break are the first's lines followed by the second's |
| Text.TrimStart | MovieRecommender.cs:66 | the result is a suffix of the input; only white characters were dropped, and it does not start with one |
| Text.TrimEnd | MovieRecommender.cs:66 | the result is a prefix of the input; only white characters were dropped, and it does not end with one |
| Text.PrefixOfSuffix | MovieRecommender.cs:66 | a prefix with a white tail, of a suffix with a white lead, sits in the whole text with only white characters around it |
| Text.TrimByPadded | MovieRecommender.cs:66 | everything the trim cuts off around its result is white space, and the result is the rest of the input in one piece |
| Text.Trim | MovieRecommender.cs:66 | `Trim()` returns a piece of its input that neither starts nor ends with white space, and everything cut off around it is white space |
| Text.TrimBy | MovieRecommender.cs:66 | the trimmed text neither starts nor ends with a white character |
| Text.TrimPadded | MovieRecommender.cs:66 | `Trim` removes exactly the white padding around a text that has none of its own |
| Text.TrimBlank | MovieRecommender.cs:66 | a text of white characters only trims to the empty text |
| Text.TrimStartPadded | MovieRecommender.cs:66 | `TrimStart` removes exactly a white lead |
| Text.TrimEndPadded | MovieRecommender.cs:66 | `TrimEnd` removes exactly a white tail |
| Numbers.ParseInt | MovieRecommender.cs:39 | `int.TryParse` succeeds only with a value inside the `int` range |
| Numbers.NatTextValue | MovieRecommender.cs:39 | the decimal text of a natural number is a non-empty digit string that reads back as the number |
| Numbers.IntTextShape | MovieRecommender.cs:39 | the text of an integer has no surrounding white space and no '.', and its sign is read back as written |
| Numbers.ParseIntOfText | MovieRecommender.cs:39 | `int.TryParse(n.ToString())` gives `n` exactly when `n` fits in an `int`, and fails otherwise |
| Numbers.TrimmedAlready | MovieRecommender.cs:39 | a text with no number white space at either end trims to itself |
| Numbers.ParseDecimalOfDigits | MovieRecommender.cs:71 | a signed run of digits without '.' parses as its integer value |
| Numbers.ParseDecimal | MovieRecommender.cs:71 | `decimal.TryParse` gives a negative value only for a text with a leading '-' |
| Numbers.SplitAtPoint | MovieRecommender.cs:71 | a text with one '.' splits into the whole part and the fraction |
| Numbers.DecimalTextShape | MovieRecommender.cs:71 | the text of a decimal has no number white space at either end, and its sign reads back as written |
| Numbers.ParseDecimalOfPoint | MovieRecommender.cs:71 | a trimmed, signed text with digits on both sides of one '.' parses as its whole part plus its fraction scaled down |
| Numbers.DecimalValueOfDigits | MovieRecommender.cs:71 | a decimal's value is the magnitude of its whole-part digits and fraction, with its sign |
| Numbers.DecimalPartsWithoutPoint | MovieRecommender.cs:71 | the whole-part digits and the fraction of a decimal's text hold no '.' |
| Numbers.ParseDecimalOfDecimalText | MovieRecommender.cs:71 | `decimal.TryParse` reads the text of a decimal with a fraction (such as "8.6" or "-12.50") back as its value |
| Numbers.ParseDecimalOfText | MovieRecommender.cs:71 | `decimal.TryParse(n.ToString())` gives `n` for every integer `n` |
| Numbers.SplitNoDigit | MovieRecommender.cs:71 | the pieces of a text without a digit hold no digit |
| Numbers.ParseIntNeedsDigit | MovieRecommender.cs:39 | a text without a digit, such as "N/A", never parses as an `int` |
| Numbers.ParseDecimalNeedsDigit | MovieRecommender.cs:71 | a text without a digit never parses as a decimal |
| CandidateLine.TitleOnly | MovieRecommender.cs:66 | a line without the "- " marker comes back unchanged; otherwise the title holds no '(' and has no white space at either end |
| CandidateLine.TitleOfLine | MovieRecommender.cs:66 | for every line starting with "- ", `TitleOnly` is the text between the marker and the first '(' (or the end of the line), without the white space around it |
| CandidateLine.TitleOfFormat | MovieRecommender.cs:66 | `TitleOnly` of a formatted line `"- t (y) s"` is `t`, for a title without '(' or surrounding white space |
| CandidateLine.LastToken | MovieRecommender.cs:70-71 | the last `' '`-separated token holds no space |
| CandidateLine.LastTokenAfterSpace | MovieRecommender.cs:70-71 | the last token of `p + " " + t` is `t` when `t` holds no space |
| CandidateLine.ScoreOfLastToken | MovieRecommender.cs:68-73 | only the text after the last space decides the score |
| CandidateLine.ParseScore | MovieRecommender.cs:68-73 | a non-zero score is what the last space-separated token parses to; partners `ScoreOfFormat`, `ScoreOfDecimalFormat` and `ScoreWithoutDigits` give the score of formatted lines and the 0 of a failed parse |
| CandidateLine.ScoreWithoutDigits | MovieRecommender.cs:68-73 | a line whose last token has no digit (such as "- Title (2014) N/A") scores 0, the value `TryParse` leaves on failure |
| CandidateLine.ScoreOfDecimalFormat | MovieRecommender.cs:68-73 | a formatted line whose score is a decimal with a fraction (such as "8.6") scores that decimal |
| CandidateLine.ScoreOfFormat | MovieRecommender.cs:68-73 | a formatted line whose score is the text of an integer `n` scores `n` |
| Ranking.Take | MovieRecommender.cs:62 | `Take(n)` is the prefix of length `min(n, count)` |
| Ranking.Distinct | MovieRecommender.cs:57 | `Distinct` keeps only elements of its input |
| Ranking.DistinctNoDuplicates | MovieRecommender.cs:57 | no two kept lines are equal under `OrdinalIgnoreCase` |
| Ranking.DistinctCovers | MovieRecommender.cs:57 | every suggestion has a case-insensitive equal among the kept lines |
| Ranking.Unwatched | MovieRecommender.cs:58 | every line kept is an input line that is not watched |
| Ranking.UnwatchedKeeps | MovieRecommender.cs:58 | every input line that is not watched is kept |
| Ranking.UnwatchedConcat | MovieRecommender.cs:58 | the filter distributes over concatenation, so it keeps the order of its input |
| Ranking.UnwatchedNoDuplicates | MovieRecommender.cs:58 | filtering keeps the absence of case-insensitive duplicates |
| Ranking.SurvivorsPrefix | MovieRecommender.cs:57-58 | whether a suggestion survives depends only on the suggestions up to it |
| Ranking.SurvivorsMembers | MovieRecommender.cs:57-58 | the survivors are exactly the suggestions at positions that are first of their case-insensitive class and not watched |
| Ranking.UnseenSurvivors | MovieRecommender.cs:57-58 | `Distinct` then `Where` gives exactly the surviving suggestions, in the order the suggestions show them |
| Ranking.Insert | MovieRecommender.cs:60 | inserting adds exactly one element (multiset) |
| Ranking.InsertMembers | MovieRecommender.cs:60 | an inserted sequence holds only the new element and the old ones |
| Ranking.InsertSorted | MovieRecommender.cs:60 | inserting into a descending sequence keeps it descending |
| Ranking.SortDesc | MovieRecommender.cs:59-61 | `OrderByDescending` returns a permutation of its input with non-increasing keys |
| Ranking.WithKeyConcat | MovieRecommender.cs:60 | the elements with one key in `a + b` are those of `a`, then those of `b` |
| Ranking.InsertWithKey | MovieRecommender.cs:60 | inserting `x` puts it before every element that shares its key |
| Ranking.SortStable | MovieRecommender.cs:60 | stability: the elements sharing a key come out in the order they went in |
| Ranking.InsertNoDuplicates | MovieRecommender.cs:60 | inserting an element with no case-insensitive equal keeps the absence of duplicates |
| Ranking.SortNoDuplicates | MovieRecommender.cs:60 | sorting keeps the absence of case-insensitive duplicates |
| Ranking.Unseen | MovieRecommender.cs:57-58 | the candidates after `Distinct` and `Where` are suggestions, not watched, and pairwise different ignoring case |
| Ranking.Rank | MovieRecommender.cs:57-63 | the pipeline returns at most five lines |
| Ranking.RankFromSuggestions | MovieRecommender.cs:57-58 | every ranked line is a suggestion at a position that is first of its case-insensitive class (the first spelling is kept) and not watched |
| Ranking.RankNoDuplicates | MovieRecommender.cs:57-62 | no two ranked lines are equal ignoring case |
| Ranking.TakeSorted | MovieRecommender.cs:62 | a prefix of a descending sequence is descending |
| Ranking.RankSorted | MovieRecommender.cs:59-62 | ranked lines have non-increasing scores |
| Ranking.TakeWithKey | MovieRecommender.cs:62 | cutting a sequence keeps, for every key, a prefix of the elements with that key |
| Ranking.RankTies | MovieRecommender.cs:59-62 | the ranked lines of one score are a prefix of the candidates of that score, in encounter order |
| Ranking.TakeLeftOut | MovieRecommender.cs:62 | cutting a descending sequence leaves out nothing that scores above the last element kept |
| Ranking.RankCount | MovieRecommender.cs:62 | five lines come back when there are five candidates, all of them otherwise |
| Ranking.RankLeftOut | MovieRecommender.cs:59-62 | a candidate left out was cut by `Take(5)` and scores no more than the fifth line |
| Recommender.ChainAssoc | MovieRecommender.cs:34-54 | combining loop results is associative, so a loop over `a + b` continues from the result over `a` |
| Recommender.CollectConcat | MovieRecommender.cs:35-40 | a loop over `a + b` is the loop over `a` followed by the loop over `b`; the first error wins |
| Recommender.CollectOk | MovieRecommender.cs:49-54 | a loop completes exactly when none of its lookups throws |
| Recommender.CollectMembers | MovieRecommender.cs:49-54 | a completed loop holds exactly what its passes produced |
| Recommender.CollectOne | MovieRecommender.cs:35-40 | a loop over one element gives what its one pass gives |
| Recommender.CollectNothing | MovieRecommender.cs:35-40 | passes that add nothing build an empty list |
| Recommender.CollectFirstError | MovieRecommender.cs:35-38 | a loop ends with the error of the first lookup that throws |
| Recommender.ResolveOne | MovieRecommender.cs:37-39 | one search adds at most one id, never 0, always inside the `int` range, and fails only when the search throws |
| Recommender.ResolveIdsStep | MovieRecommender.cs:35-39 | one more title appends what its search gives to the ids so far |
| Recommender.ResolveOneOfText | MovieRecommender.cs:39 | a reply that is the text of `n` adds `n` (negative too) unless `n` is 0 or outside the `int` range |
| Recommender.ResolveOneWithoutDigits | MovieRecommender.cs:37-39 | a search reply without a digit, such as "N/A", adds no id: the title is skipped |
| Recommender.ResolveIdsConcat | MovieRecommender.cs:34-40 | the ids of `a + b` are those of `a` followed by those of `b`: watched order is kept |
| Recommender.RepeatedIdKept | MovieRecommender.cs:34-40 | two titles resolving to the same id add it twice: duplicates are kept |
| Recommender.ResolveOneMembers | MovieRecommender.cs:39 | a search that completes adds exactly the id its reply parses to, if that is non-zero |
| Recommender.ResolveIdsValues | MovieRecommender.cs:34-40 | the id loop completes exactly when no search throws, and then holds exactly the non-zero ids the titles resolve to |
| Recommender.ResolveIds | MovieRecommender.cs:34-40 | every id the first loop collects is a non-zero `int`; partner `ResolveIdsValues` |
| Recommender.GatherOne | MovieRecommender.cs:51-53 | one recommendation lookup fails exactly when it throws |
| Recommender.GatherLines | MovieRecommender.cs:48-54 | the gathering loop completes exactly when no lookup throws, and then holds exactly the non-blank reply lines of the ids |
| Recommender.GatherStep | MovieRecommender.cs:49-53 | one more id appends the lines of its recommendations to the lines so far |
| Recommender.GatherConcat | MovieRecommender.cs:48-54 | the lines of ids `a + b` are those of `a` followed by those of `b` |
| Recommender.Gather | MovieRecommender.cs:48-54 | every line the second loop collects is non-blank and holds no line break; partner `GatherLines` |
| Recommender.WatchedLine | MovieRecommender.cs:58 | the watched filter looks up a line without the "- " marker as it is, and a formatted line by its title |
| Recommender.Recommend | MovieRecommender.cs:22-64 | the routine never returns more than five lines, on either path |
| Recommender.ResolveAll | MovieRecommender.cs:34-40 | the id loop computes exactly `ResolveIds`: the non-zero ids in title order, or the first search error |
| Recommender.GatherAll | MovieRecommender.cs:48-54 | the gathering loop computes exactly `Gather`: the non-blank reply lines in id order, or the first lookup error |
| Recommender.RecommendAsync | MovieRecommender.cs:22-64 | the fallback, the two loops and the pipeline compute exactly `Recommend` |
| Recommender.FallbackPath | MovieRecommender.cs:25-31 | with no history, the result is a prefix of the top-rated reply's non-blank lines, with length min(5, count), unscored and not de-duplicated; a throwing lookup surfaces its error |
| Recommender.NothingResolved | MovieRecommender.cs:42-45 | with a history whose searches all complete but resolve to no id, the result is empty, not the top-rated list |
| Recommender.Personalized | MovieRecommender.cs:47-63 | every result line comes from the recommendations of a resolved watched title, and its bare title is not in the history; no duplicates ignoring case; non-increasing scores |
| Recommender.Failures | MovieRecommender.cs:28-54 | the call fails exactly when a lookup it makes throws |
| Recommender.FirstFailingSearch | MovieRecommender.cs:35-38 | the error returned is that of the first title whose search throws |

## Left out

- Program.cs is not part of this model. It covers configuration, kernel and chat-client setup, plugin registration, and the console loop.
- `async`/`await`: the lookups are awaited one at a time, so they are modelled as sequential calls.
- The Semantic Kernel plugin calls and their argument bags are function parameters. The HTTP client behind them is not modelled.
- The replies are never `null` in the model. A `null` search reply goes to `int.TryParse` (MovieRecommender.cs:39), which fails, so the title is skipped: it is the model's `Ok("")`. A `null` top-rated or recommendations reply throws at `Split` (MovieRecommender.cs:30, 53): it is the model's `Err`.
- `IMovieMemory`: `AllAsync` is the input sequence and `Contains` a given predicate. Neither is modelled as throwing, and the case rules of `Contains` are not modelled.
- `top` is only forwarded to the top-rated lookup. It is never validated, and the model does not constrain it.
- Text.Fold: `OrdinalIgnoreCase` folds only ASCII letters here. .NET also folds non-ASCII letters.
- CandidateLine.TitleOnly: `StartsWith("- ")` is compared ordinally. The .NET call uses the current culture, under which characters ignorable by that culture could also match.
- Numbers.ParseDecimal does not accept the thousands separator ',', a trailing sign, or a culture-specific decimal point, although `NumberStyles.Number` allows them. It also ignores the 28–29 significant-digit range of `decimal`, so it is weaker than `decimal.TryParse` on such inputs.
- Numbers.ParseInt and Numbers.ParseDecimal do not skip trailing NUL characters, which .NET number parsing tolerates.
- `OrderByDescending` is modelled as an insertion sort. Only its result is modelled (a stable descending permutation), not its algorithm.
- `Distinct` is modelled by its result (the first of each case-insensitive class, in order). Its hash set is not modelled.
