# Search widget core: ranking, filtering and suggestions

A Dafny model of the pure logic of `script.js`, the script behind a static site search
page. The page preloads a fixed set of HTML pages into flat records (title, first h1 and
h2, description and keywords meta tags, joined paragraph text, images) and then offers:

- **the search** (`performSearch`): the query is trimmed, lower-cased and split on spaces;
  each loaded page is scored by six weighted passes over its fields (title 100, h1 80,
  meta text 50, each image alt 40, h2 30, body 20 per query word found as a whole word,
  case-insensitively); the first field in that order that matched gives the result's
  `matchType` (`title`, `meta` or `content`); pages scoring zero are dropped; the rest are
  sorted by score, highest first, with ties kept in corpus order;
- **the category filter** (`displayResults`): `all` shows the ranked list unchanged, any
  other value keeps the results of that `matchType`, in order;
- **suggestions** (`showSuggestions`): for a query of at least three characters, the
  trimmed comma-separated keywords and the space-separated title words of every loaded
  page that are longer than three characters and contain the query at the start of a word,
  collected into an insertion-ordered set and cut to the first five.

Modules:

| file | module | contents |
|---|---|---|
| `text.dfy` | `Text` | `\w`, ASCII case folding, the `\b…\b` and `\b…` matchers and a scanning matcher, `trim`, one-character `split`/`join` |
| `pages.dfy` | `Pages` | the page record, the corpus (a failed load is `None`), the meta text |
| `scoring.dfy` | `Scoring` | weights, categories, the per-page score and category, the six passes as loops |
| `ranking.dfy` | `Ranking` | query words, collecting matches, the stable sort, the search |
| `filter.dfy` | `Filter` | the category filter |
| `suggestions.dfy` | `Suggestions` | candidates, the insertion-ordered set, the cap at five |
| `scenario.dfy` | `Scenario` | worked examples on a three-page site |

The regular expressions the script builds are modelled by what they accept, not by a
regex engine: a `\b` sits between a word and a non-word character (positions outside the
text count as non-word), the escaped token is matched as literal text, and the `i` flag
folds ASCII case. `Text.RegexTest` is the left-to-right scan that the engine performs and
is proved to agree with those definitions.

Three consequences of how the script is written:

- The query and the title are split on the space character only, not on any whitespace:
  a tab inside a query stays inside a word.
- A query that is empty after trimming makes the search return at once, before it
  touches the results, so the previous results stay; `Ranking.PerformSearch` answers
  `None` for it.
- Whole-word matching is `\b` matching. For a token that begins or ends with a non-word
  character, `\b` demands a word character on the other side, so `c++` never matches
  before a space or at the end of the text (`Scenario.PunctuationTokenNeverWhole`).

## Model

| member | source | states |
|---|---|---|
| Text.Lower | script.js:124 | `toLowerCase` keeps the length and folds each character on its own, `A`–`Z` to `a`–`z` and every other character unchanged |
| Text.HasExactWord | script.js:183-186 | `hasExactWord`: the token, compared without case, occurs at some position with a word boundary before and after it |
| Text.StartsWithQuery | script.js:127-130 | `startsWithQuery`: the token, compared without case, occurs at some position with a word boundary before it |
| Text.RegexTest | script.js:183-186 | the scan over start positions answers true exactly when the whole-word (or word-start) matcher holds |
| Text.ExactWordStartsWord | script.js:127-130 | every whole-word match is also a word-start match, so the suggestion matcher accepts whatever the ranking matcher accepts |
| Text.MatchersIgnoreCase | script.js:184 | both matchers give the same answer after lower-casing the text and the token, as the `i` flag promises |
| Text.Trim | script.js:173 | `trim` returns a slice of the input with only whitespace before and after it, whose ends are not whitespace, and which is empty exactly when the input is all whitespace |
| Text.Split | script.js:179 | `split` returns at least one piece, no piece holds the separator, and joining the pieces with the separator gives the input back |
| Text.SplitJoin | script.js:179 | splitting the join of separator-free pieces returns exactly those pieces (the other direction of the round trip) |
| Text.NonEmpty | script.js:179 | dropping empty pieces leaves only non-empty entries, keeps every non-empty piece, and keeps the pieces in their order (an order-preserving sub-list) |
| Text.NonEmptyCount | script.js:179 | every non-empty string occurs among the kept pieces as many times as among all pieces, so repeated words stay repeated |
| Text.CutsAreSplit | script.js:179 | any cut of a string into separator-free pieces that join back to it is the split, so the split is the only such cut |
| Text.ConcatNonEmpty | script.js:179 | dropping empty pieces does not change their concatenation |
| Text.WithoutJoin | script.js:179 | removing the separator from a join leaves the plain concatenation of the pieces |
| Ranking.QueryWords | script.js:173-179 | the query words are non-empty, space-free and lower case; there are none exactly when the query is all whitespace; together they hold every non-space character of the trimmed, lower-cased query in order; and they are the non-empty pieces of a cut of that query at its spaces |
| Ranking.QueryWordsFromCuts | script.js:173-179 | every cut of the trimmed, lower-cased query into space-free pieces gives the query words as its non-empty pieces, so the words are fixed: where the query is cut and which words repeat |
| Scoring.Hits | script.js:197-203 | the number of words a field holds is at most the number of query words and is positive exactly when some query word occurs in it as a whole word |
| Scoring.AltHits | script.js:224-232 | the image pass's count is positive exactly when some image's alt text holds some query word |
| Scoring.FieldPass | script.js:195-203 | one pass adds its weight once per query word the field holds and offers its category to the sticky `matchType` only when some word matched |
| Scoring.ImagePass | script.js:224-232 | the image pass adds 40 per (image, word) hit and sets `meta` if nothing earlier matched and some alt text did |
| Scoring.EvaluatePage | script.js:191-251 | the six passes in order give the per-word score and the category of the first matching field in priority order, and the score is positive exactly when the category is not empty |
| Scoring.ScoreByField | script.js:195-251 | the score summed word by word equals the score summed field by field with the six weights |
| Scoring.ScorePositiveIffMatched | script.js:253 | a page scores above zero exactly when some field matched, i.e. when its category is set |
| Scoring.ScoreAdditive | script.js:197-251 | the score of a query split into two parts is the sum of the parts' scores |
| Scoring.NoWordsNoMatch | script.js:179-251 | with no query words a page scores nothing and has no category |
| Ranking.CollectMatches | script.js:188-261 | the `allPages.forEach` loop, calling the six passes per page, builds exactly the list of result records of loaded pages with a positive score, in corpus order |
| Ranking.CollectSound | script.js:188-189 | every collected result is the record of a page that loaded, with a positive score, and there are no more results than pages |
| Ranking.InsertSorted | script.js:264 | inserting into a score-sorted list keeps it sorted and adds exactly the new result |
| Ranking.SortByScore | script.js:264 | the sorted results are non-increasing in score and a permutation of the input |
| Ranking.SortByScoreStable | script.js:264 | for every score, the results with that score appear in the same order before and after sorting |
| Ranking.SortByScoreCounts | script.js:264 | sorting keeps how many results each page has |
| Ranking.StableSortUnique | script.js:264 | two sorted lists with the same equal-score groups are equal, so every stable descending sort returns what `SortByScore` returns |
| Ranking.PerformSearch | script.js:172-179 | an all-whitespace query returns early and keeps the previous results; any other query has at least one word and yields the ranking of its words |
| Ranking.RankContents | script.js:253-264 | the ranking is sorted by score and holds only result records of loaded pages with a positive score and a non-empty category |
| Ranking.RankCounts | script.js:188-264 | each page appears in the ranking as often as it was loaded when its score is positive, and not at all otherwise |
| Ranking.RankExactlyOnce | script.js:188-264 | when no page record is loaded twice, a loaded page is in the ranking once if it scores and absent if it does not |
| Ranking.RankNoWords | script.js:179-264 | a query with no words ranks nothing |
| Ranking.CollectKeepsCorpusOrder | script.js:188-260 | results are collected in the order their pages have in the corpus |
| Ranking.RankTiesKeepCorpusOrder | script.js:188-264 | two ranked results with equal scores come in the order of their pages in the corpus |
| Filter.OfType | script.js:284 | the filter keeps only results of the named category and keeps every one of them |
| Filter.OfTypeCounts | script.js:284 | the filter keeps each result of the named category as many times as it occurs |
| Filter.FilterResults | script.js:282-285 | with `all` the list is shown unchanged; otherwise the shown list is an order-preserving sub-list holding exactly the results of that category, each as many times as it occurs |
| Filter.OfTypeSubsequence | script.js:284 | the filtered list is a sub-list of the input in the same order |
| Filter.OfTypeSorted | script.js:284 | filtering a score-sorted list leaves it sorted |
| Filter.FilterThenRank | script.js:264-285 | filtering the ranked list gives the same list as ranking the filtered matches |
| Suggestions.Keywords | script.js:136 | one entry per comma-separated piece of the keywords tag, each entry that piece without the whitespace around it, so no entry holds a comma or starts or ends with whitespace |
| Suggestions.KeywordsRoundTrip | script.js:136 | a keywords tag written as comma-separated, already trimmed entries is read back as exactly those entries |
| Suggestions.TitleWords | script.js:144 | the title's pieces at each space: at least one, none holding a space, joining back to the title |
| Suggestions.TitleWordsFromCuts | script.js:144 | every cut of the title into space-free pieces is the title words, so the contract fixes them |
| Suggestions.Matching | script.js:136-149 | a candidate is kept exactly when it is longer than three characters and holds the query at a word start; a kept candidate appears as many times as in the input, and the kept ones stay in their order |
| Suggestions.Candidates | script.js:132-150 | the page-by-page collection equals the qualifying part of all loaded pages' trimmed keywords and title words, taken in the order they are met |
| Suggestions.OffersComeFromLoadedPages | script.js:132-133 | every candidate comes from a page that loaded |
| Suggestions.InsertionOrdered | script.js:123 | the insertion-ordered set holds each candidate once, and in the order of first insertion |
| Suggestions.FirstFive | script.js:152-153 | the first five entries of the set built from the candidates are distinct candidates in the order of first insertion, and a candidate is left out only when five that came before it are listed |
| Suggestions.Suggest | script.js:120-153 | a query shorter than three gives nothing; otherwise at most five distinct suggestions, each a keyword or title word of a loaded page longer than three that holds the lower-cased query at a word start, in first-met order, with a qualifying word missing only when five earlier ones are listed |
| Scenario.HikingSearch | script.js:172-264 | on a site with a title match, a meta match, a failed load and a body match, searching `Hiking` ranks them 100 title, 50 meta, 20 content and skips the failed page |
| Scenario.ContentOnly | script.js:282-285 | the `content` filter keeps only the content result of such a list |
| Scenario.CatInCategory | script.js:127-130 | `cat` is not a whole word of `category` but does start one |
| Scenario.DotIsLiteral | script.js:184 | a `.` in the token is matched literally, not as a wildcard |
| Scenario.PunctuationTokenNeverWhole | script.js:184 | `c++` starts a word of `c++ rocks` but is never a whole word there |
| Scenario.SpellingsKeptApart | script.js:123 | the suggestion set is case-sensitive: `Hiking` and `hiking` are both kept, a repeat is dropped |

## Left out

- Page loading (`fetch`, `DOMParser`, `Promise.all`, script.js:70-117): the corpus is a
  parameter, one entry per page number, `None` for a page whose load failed.
- The `allText` field (script.js:111): it is built but never read by the search.
- DOM rendering, the loading indicator, the 500 ms `setTimeout`, event wiring, the
  suggestion click handler, `clearResults` and the statistics line: user interface, not
  search logic.
- `matchDetails`: display strings only; nothing reads them.
- Showing and hiding the suggestion box: for input of two characters or fewer the input
  handler hides the box (script.js:36-40); when nothing qualifies the script leaves the
  box as it was (script.js:152). `Suggestions.Suggest` returns the list the script
  computes, which is empty in both cases.
- Unicode case folding: `toLowerCase` and the `i` flag fold far more than ASCII; the
  model folds `A`–`Z` only. Every contract about case holds for this folding.
- String lengths count Unicode scalar values, not UTF-16 code units; they differ only
  for characters outside the Basic Multilingual Plane.
- The sort is modelled by insertion sort; the script relies on the engine's stable
  `Array.prototype.sort`. `Ranking.StableSortUnique` shows that every stable descending
  sort gives the same list.
- `\w` and `\b` are the non-Unicode ones (no `u` flag), as the script uses them.
