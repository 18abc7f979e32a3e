# count_words keyword tally, modelled in Dafny

`count_words(subreddit, word_list)` in `api_advanced/3-count.py` walks the
"hot" listing of a subreddit page by page. It follows the `after` cursor by
recursion. For every post title and every entry of the word list, it adds 1
to `word_count[word.lower()]` when `word.lower()` is a substring of
`title.lower()`. When the last page has been read and the tally is not empty,
it prints `word: count` lines sorted by descending count, then ascending word.
Any non-200 answer or exception aborts the run without printing. Every path
of `count_words` returns `None`, including the one that prints, so what a
run produces is only its printed lines.

The model has five modules:

- `Text` (`text.dfy`): ASCII `lower()`, the substring test `p in s`, and
  Python's `<` on strings, with its order laws.
- `Tally` (`tally.dfy`): the nested title/word loops as the folds
  `ScanWords`/`ScanTitles` over the dictionary. They are paired with an
  independent count of matching (title, entry) pairs (`TitleHits`, `Hits`)
  and with lemmas proving that the two agree.
- `Ranking` (`ranking.dfy`): the sort key `(-count, word)` as `Before`, the
  `sorted(...)` call as the method `Rank`, and proofs that its result is
  strictly ordered, unique, and a permutation of the dictionary items.
- `CountWords` (`count_words.dfy`):
  - the page answers as `PageResult`;
  - the recursion as the specification function `Walk`;
  - the page loop as the method `Run`, with a `while` loop over pages,
    the nested `for` loops in `ScanPage`, and the print loop;
  - pagination lemmas: a run reads pages up to the first one that stops it,
    a failure prints nothing whatever was tallied before it, and a finished
    tally counts exactly the matching pairs.
- `Scenarios` (`scenarios.dfy`): the two-title example worked through to its
  printed lines.

Network access is abstracted. `pages[i]` stands for the answer to the i-th
round of requests. A round is the token POST plus the listing GET, which the
code issues again for every page. It is either `Failure` or
`Page(titles, after)`.

Two behaviours of the code worth knowing:

- The word list is not deduplicated. Duplicate or case-variant entries
  (`"python Python"`) each add 1 to the same key for a matching title
  (`Tally.DuplicateEntriesCountTwice`, `Tally.CaseVariantsCountSeparately`).
- An empty final tally and a failure both print nothing. The model's
  `Outcome` is its own record of which path the run took, not a value the
  code returns: it keeps `Finished(map[])` apart from `Failed`, while
  `Run` prints `[]` for both.

## Model

| member | source | states |
|---|---|---|
| Text.Lower | api_advanced/3-count.py:66 | `s.lower()` keeps the length and maps each character through ASCII lowercasing |
| Text.LowerFixedIffLower | api_advanced/3-count.py:79 | `key.lower()` leaves a string unchanged exactly when it has no upper-case letter |
| Text.LowerIdempotent | api_advanced/3-count.py:65-67 | lowercasing produces a lowercase string and lowercasing twice equals lowercasing once |
| Text.ContainsIff | api_advanced/3-count.py:66 | the recursive `p in s` holds iff `p` occurs in `s` at some offset (both directions) |
| Text.ContainsHead | api_advanced/3-count.py:66 | a non-empty string found in `s` starts with a character of `s` |
| Text.LexLessIrreflexive | api_advanced/3-count.py:77-78 | no string sorts before itself |
| Text.LexLessAsymmetric | api_advanced/3-count.py:77-78 | two strings never sort before each other |
| Text.LexLessTotal | api_advanced/3-count.py:77-78 | two different strings always sort one way or the other |
| Text.LexLessTransitive | api_advanced/3-count.py:77-78 | the string order is transitive |
| Tally.MatchesIff | api_advanced/3-count.py:66 | an entry matches a title iff its lowercase occurs at some offset of the lowercased title, even inside a longer word |
| Tally.MatchesIgnoresCase | api_advanced/3-count.py:66 | lowercasing the entry or the title before matching changes nothing |
| Tally.NoMatchWithoutHead | api_advanced/3-count.py:66 | an entry whose lowercased first letter is absent from the lowercased title does not match |
| Tally.MatchesInsideLongerWord | api_advanced/3-count.py:66 | "go" matches "Going home": substring matches inside longer words count |
| Tally.TitleHitsByEntries | api_advanced/3-count.py:63-67 | one title adds to key k the number of entries lowercasing to k when k occurs in the lowercased title and 0 otherwise, however often k occurs |
| Tally.ScanWordsCounts | api_advanced/3-count.py:65-67 | the inner loop adds exactly the title's hits to every key and creates exactly the keys it hits |
| Tally.ScanTitlesCounts | api_advanced/3-count.py:63-67 | the nested loops add exactly the (title, entry) hits to every key and create exactly the keys hit |
| Tally.ScanTitlesMonotone | api_advanced/3-count.py:67 | no count ever decreases while titles are scanned |
| Tally.EntriesWitness | api_advanced/3-count.py:65-67 | a key with entries behind it is the lowercase of some entry |
| Tally.HitsWitness | api_advanced/3-count.py:65-67 | a key hit by some title is the lowercase of some entry |
| Tally.TallyOfTitles | api_advanced/3-count.py:63-67 | from an empty dictionary, the keys are exactly the hit keys, each count equals its hits and is at least 1, and each key is the lowercase of an entry and so is lowercase |
| Tally.ScanTitlesConcat | api_advanced/3-count.py:63-74 | scanning `a + b` equals scanning `a` and then continuing with `b` from that tally |
| Tally.EntriesForConcat | api_advanced/3-count.py:65 | entry counts add up over a concatenated word list |
| Tally.DuplicateEntriesCountTwice | api_advanced/3-count.py:65-67 | the word list is not deduplicated: doubling it doubles every title's contribution |
| Tally.CaseVariantsCountSeparately | api_advanced/3-count.py:65-67 | the entries "python Python" against the title "Python" give `{"python": 2}` |
| Ranking.BeforeIrreflexive | api_advanced/3-count.py:77-78 | no item sorts before itself under the key `(-count, word)` |
| Ranking.BeforeAsymmetric | api_advanced/3-count.py:77-78 | two items never sort before each other |
| Ranking.BeforeTotal | api_advanced/3-count.py:77-78 | items for different words always sort one way or the other |
| Ranking.BeforeTransitive | api_advanced/3-count.py:77-78 | the sort order is transitive |
| Ranking.RankedIffNeighbours | api_advanced/3-count.py:77-79 | a sequence is ordered on every pair iff each consecutive pair has a higher count, or an equal count and a smaller word |
| Ranking.RankedCons | api_advanced/3-count.py:77-78 | putting an item that sorts before the head in front of a ranked sequence keeps it ranked |
| Ranking.Insert | api_advanced/3-count.py:77-78 | inserting an item with a new word into a ranked sequence keeps it ranked, adds exactly that item, and grows it by one |
| Ranking.Rank | api_advanced/3-count.py:77-78 | the result is ranked and holds exactly the dictionary items |
| Ranking.RankedSameEntriesEqual | api_advanced/3-count.py:77-78 | two ranked sequences with the same items are equal |
| Ranking.RankingUnique | api_advanced/3-count.py:77-78 | a dictionary has exactly one sorted item list |
| Ranking.RankingIsPermutation | api_advanced/3-count.py:77-79 | the sorted list has one entry per key and no word twice, so it is a permutation of the items |
| CountWords.StopIndex | api_advanced/3-count.py:70-74 | the first page that fails or has an absent/empty `after`; every earlier page succeeded with a non-empty `after` |
| CountWords.WalkReadsUpToStop | api_advanced/3-count.py:63-74 | pagination is additive: the run fails iff the stopping page failed, and otherwise its tally is the scan of all titles read, in order |
| CountWords.FailedIff | api_advanced/3-count.py:30-84 | from a fresh dictionary, the run takes the failure path (the `except` or the non-200 `return None`, nothing printed) iff some page fails after only successful pages with a next cursor, whatever was tallied before it |
| CountWords.FinishedTally | api_advanced/3-count.py:63-76 | a finished tally counts exactly the matching (title, entry) pairs of the pages read, has only counts of at least 1, and has only lowercase keys that come from entries |
| CountWords.FailureAndEmptyListing | api_advanced/3-count.py:56-81 | a failing first page fails the run; one empty page with no cursor finishes it with an empty tally |
| CountWords.ScanPage | api_advanced/3-count.py:63-67 | the nested loops over one page leave the dictionary equal to the scan of its titles |
| CountWords.Run | api_advanced/3-count.py:11-84 | the outcome is that of the page recursion; the printed lines are the unique ranking of the final tally (keys printed with `.lower()`) when it finished non-empty, and nothing otherwise |
| Scenarios.TwoTitleScenario | api_advanced/3-count.py:63-80 | the titles "I love Python" and "Go is great" with the words "python go java" give `{"python": 1, "go": 1}`, and every ranking of it, so every printed output, is `go: 1` then `python: 1` |

## Left out

- The OAuth token request, the listing GET, JSON decoding and `allow_redirects` (lines 20-57) are network I/O. Each round is an abstract `PageResult`. A non-200 status, a transport error or an exception while reading the page is `Failure`.
- A malformed page that raises while its titles are being scanned is modelled as a `Failure` of the whole page. For the call the model covers, which starts from a fresh dictionary, the partial updates are never printed or returned.
- `CountWords.Run`: models the call with the defaults `after=None, word_count=None` (lines 11 and 16-17), which is how the command line calls it (line 92). A caller that passes its own `word_count` dictionary sees it updated in place (line 67), and keeps the increments of earlier pages and of a partly scanned page after a failure returns `None`. The model passes the tally as a value, so it does not capture that in-place effect or that aliasing.
- `load_dotenv`/`os.getenv` configuration (lines 19-23) is configuration I/O.
- The command-line entry point (lines 87-92) is left out. The whitespace-split word list is taken as the input `words`.
- The `limit: 100` request parameter (line 46) is left out. It does not affect the tally.
- `str.lower()` is modelled on ASCII letters only. Full Unicode case mapping is not modelled.
- The text formatting `"{}: {}"` is modelled as a sequence of `Entry(word, count)` pairs.
- `CountWords.Run`: when the supplied answers end before a page without a next cursor, the model reports `OutOfResponses`. This marks the edge of the finite input, not a behaviour of the code.
- `CountWords.Run`: does not model Python's recursion limit. Each page is a nested call (line 74) inside the `try` (lines 30-84). Past the interpreter's default limit of about 1000 frames, `RecursionError` is raised, the `except` at lines 83-84 catches it, and the run returns `None` without printing. So the code fails on a listing of roughly a thousand pages or more, while `Walk` and `Run` finish and print for any length. The hot listing stops after about ten pages of 100 posts, so this limit is not reached in practice. The exact page count at which it fails depends on the stack depth of the HTTP library's own calls.
- Idempotence of repeated runs over an unchanged listing holds trivially: `Walk` and the ranking are functions of their inputs. No separate lemma states it.
- `api_advanced/0-subs.py` and `api_advanced/1-top_ten.py` each send a token request and one GET, then print the subscriber count or the post titles. Neither has tally or pagination logic, so both are network I/O and printing only.
