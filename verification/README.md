# Typewriter line breaking, modelled in Dafny

`main.py` lays a text out on a page of width `L`. It splits the words into
lines so that the sum over lines of `(L - content length)^2` is small. The
content length of a line is the total length of its words plus one space
between each pair of neighbours. The program has four solvers:

- a greedy first fit (`mise_en_page_glouton`);
- an exhaustive search over all ways to cut the words into lines, taken from
  the last word backwards (`rec` and `mise_en_page_recursif`);
- a recursion `aux(i, j)` memoised in a dictionary, keyed by a word index and
  the column reached on the current line, followed by a forward walk that
  rebuilds the lines from the dictionary (`mise_en_page_memoisation`);
- a bottom-up dynamic program over suffixes, with `memo` and `cuts` tables and
  a walk along `cuts` (`mise_en_page_dynamique`).

It also has the scoring functions `get_error` and `evaluation` and the
renderer `conversion`.

This model works on word lengths. A word is a `nat`, a line is a `seq<nat>`
and a layout is a `seq<seq<nat>>`. The modules are:

- `Layouts`: the cost model, `get_error` and `evaluation`.
- `Render`: `conversion` on strings.
- `Greedy`: the greedy solver.
- `Exhaustive`: the exhaustive search.
- `Memo`: the memoised solver.
- `Dynamic`: the dynamic program.
- `Agreement`: how the solvers' optima compare.

The float `inf` sentinel is the `Infinite` case of `Score`, or `None`. A crash
of the program is the `Failure` case of `Result`.

Two of the fit tests are off by one column. `FitTest` selects either the test
as written (`AsWritten`) or the corrected one (`Corrected`). Every property of
the memoised and dynamic solvers is proved for both choices.

The solvers are proved to return exact partitions of the input words. The
greedy solver is not optimal. Its result is pinned down instead: it is the
only layout that breaks a line exactly when the next word would not fit
(`Greedy.FirstFit`, `Greedy.FirstFitUnique`). It costs at least the
exhaustive optimum (`Agreement.GreedyNoBetter`). The other three solvers are
proved optimal over the layouts that their own fit test admits:

| solver | layouts it admits |
|---|---|
| exhaustive search | every line of two or more words fits in `L` |
| dynamic program, as written | such lines may be `L + 1` wide |
| memoised recursion, as written | a line's first two words also need one spare column |

The memoised solver's optimality needs every word to have at least one
character; see the findings.

## Model

| member | source | states |
|---|---|---|
| `Layouts.GetError` | main.py:17-18 | defines `get_error`: for each line, `(L - Σ (len(word) + 1) + 1)^2`, summed over the lines; `Layouts.GetErrorIsCost` relates it to the layout cost |
| `Layouts.GetErrorIsCost` | main.py:17-18 | `get_error` equals the sum over lines of `(L - content length)^2`, i.e. the layout cost |
| `Layouts.SumSuccIsSumPlusCount` | main.py:18 | the inner sum of `len(word) + 1` over a line is the sum of its lengths plus its word count |
| `Layouts.Evaluation` | main.py:26-34 | returns the infinite sentinel exactly when some line is longer than `L`; otherwise returns the layout cost |
| `Layouts.OverflowIsLongWord` | main.py:64-69 | if every multi-word line fits, some line is longer than `L` exactly when some word is |
| `Layouts.AllFitIffShortWords` | main.py:64-69 | every line of a partition fits exactly when its multi-word lines fit and no word is longer than `L` |
| `Layouts.FlattenForward` | main.py:111-124 | reading rows built back to front in reverse order gives the words in reading order |
| `Layouts.CostForward` | main.py:111-124 | reading the rows in reverse order does not change the cost |
| `Layouts.ForwardKeepsShape` | main.py:111-124 | reading the rows in reverse keeps every line non-empty and keeps multi-word lines within `L` |
| `Render.JoinWidth` | main.py:66 | words joined by single spaces have the line's content length as their length |
| `Render.LineTextWidths` | main.py:63-68 | each line's text has the content length that `evaluation` measures with `len` |
| `Render.Row` | main.py:40-41 | defines one step of `conversion`: the line, then `" " * (L - len(line))` (nothing when the line is longer than `L`), then a newline |
| `Render.Conversion` | main.py:37-42 | defines `conversion`: the rows of all lines, concatenated in order; `Render.ConversionRoundTrip` reads it back |
| `Render.PaddedRow` | main.py:37-42 | a line no longer than `L` is rendered as the line, then spaces up to exactly `L` columns, then a newline, whatever its last character |
| `Render.UnpadRow` | main.py:37-42 | removing the padding gives the line back when the line does not end in a space |
| `Render.Words` | main.py:62 | `str.split()` gives no empty word and no word holding whitespace |
| `Render.WordsJoin` | main.py:62 | splitting words joined by single spaces gives the same words back, when none is empty or holds whitespace |
| `Render.ConversionRoundTrip` | main.py:37-42 | the rendering is `L + 1` characters per line; cut into rows of `L + 1` it gives each line's padded row, and reading those rows back gives the lines |
| `Greedy.FirstFit` | main.py:63-68 | the lines concatenate to the words; every multi-word line fits; a line ends only where the next word would not fit after it |
| `Greedy.Glouton` | main.py:45-77 | fails exactly when there is no word; returns nothing exactly when some word is longer than `L`; otherwise returns the first-fit layout, every line fits, and the score is its cost |
| `Greedy.FirstFitUnique` | main.py:64-68 | at most one layout meets the first-fit characterisation, so `FirstFit`'s contract determines its result |
| `Greedy.FirstLineMaximal` | main.py:65-68 | the first-fit first line is at least as long as the first line of any layout whose multi-word lines fit |
| `Exhaustive.Search` | main.py:106-107 | defines the search as `mise_en_page_recursif` starts it: the last word alone on the last row, the other words still to place; `Exhaustive.SearchSound` and `Exhaustive.SearchOptimal` state what it returns |
| `Exhaustive.Rec` | main.py:150-174 | the returned rows complete `current` with the remaining words in order and keep its closed rows; the score is their cost; multi-word rows keep fitting |
| `Exhaustive.RecOptimal` | main.py:150-174 | the score is at most the cost of every completion of `current` whose multi-word rows fit |
| `Exhaustive.SearchSound` | main.py:106-107 | the search result, read in reading order, is a partition of the words whose multi-word lines fit and whose cost is the score |
| `Exhaustive.SearchOptimal` | main.py:106-107 | the search score is at most the cost of every partition whose multi-word lines fit |
| `Exhaustive.Rebuild` | main.py:106-124 | the rebuild hands out the words in order, one row at a time, and returns the search's own rows read forward with the search's score; the lines form a partition, the score is their cost, and it is optimal |
| `Exhaustive.Recursif` | main.py:97-127 | fails exactly when there is no word; otherwise returns the search's rows read forward and its score, an optimal partition among those whose multi-word lines fit, with its cost as the score |
| `Exhaustive.RebuildStep` | main.py:112-123 | one rebuilt line is the next slice of the words, of the row's length |
| `Memo.Fits` | main.py:251 | defines the test for placing the next word on the current line: as written `j + mot + 1 + prochain_mot + 1 <= L`, which always counts a space in front of word `i`; corrected, that space is counted only when `j > 0` |
| `Memo.Aux` | main.py:230-264 | defines `aux(i, j)` without the dictionary: the last word closes its line; otherwise a line break, plus the minimum with continuing on the line when the test at line 251 allows it |
| `Memo.AuxOptimal` | main.py:227-262 | for positive lengths, `aux(i, j)` is at most the cost of every admissible way to finish from word `i` placed at column `j` |
| `Memo.AloneSplit` | main.py:242-256 | a first line holding word `i` alone closes at the column after it; what follows lays out the later words from a fresh line, at the matching cost |
| `Memo.JoinSplit` | main.py:251-262 | a first line of two or more words means word `i` passed the fit test; without it the line continues from the next column, at the same cost |
| `Memo.PlanAchieves` | main.py:227-262 | for positive lengths, the choices of `aux` describe an admissible continuation whose cost is `aux(i, j)` |
| `Memo.JoinStep` | main.py:250-262 | putting word `i` in front of a continuation from the next column keeps it admissible and keeps its cost |
| `Memo.BreakStep` | main.py:245-256 | closing the line after word `i` adds the line's squared slack to the continuation's cost |
| `Memo.AuxIsLeastCost` | main.py:268 | for positive lengths, `aux(0, 0)` is at most the cost of every admissible layout |
| `Memo.PlanIsLayout` | main.py:268 | for positive lengths, some admissible layout costs exactly `aux(0, 0)` |
| `Memo.AuxMemo` | main.py:205-264 | returns `aux(i, j)` whether cached or not; every cached entry equals the recomputed value; the key is cached afterwards; no key is lost |
| `Memo.StoreClose` | main.py:251-256 | when the fit test fails, the stored value is `aux(i, j)` and the cache invariant holds |
| `Memo.StoreBoth` | main.py:257-262 | when the fit test passes, the stored minimum is `aux(i, j)` and the cache invariant holds |
| `Memo.CachedInsert` | main.py:240-262 | storing the true value of a reachable key whose sub-problems are cached keeps the cache invariant |
| `Memo.WalkStart` | main.py:272-273 | the walk starts with the first word alone on a line |
| `Memo.WalkBreak` | main.py:275-283 | starting a new line, because the key is uncached or continuing costs strictly more, keeps the walk invariant |
| `Memo.BreakScore` | main.py:278-283 | closing the last line leaves the lines admissible and splits `aux(0, 0)` into the closed lines' cost plus `aux(i, 0)` |
| `Memo.WalkJoin` | main.py:284-287 | appending the word to the last line keeps the walk invariant: the line stays admissible and `j` stays its content length |
| `Memo.JoinScore` | main.py:280-287 | when the walk appends a word, the key it continues from passed the fit test, so `aux` picked that branch |
| `Memo.GrownLineOk` | main.py:251 | a line whose last word passed the fit test stays admissible with the next word |
| `Memo.WalkEnd` | main.py:274-288 | at the end of the walk the lines are a partition; for positive lengths they are admissible and cost `aux(0, 0)` |
| `Memo.Rebuild` | main.py:272-288 | the rebuilt lines concatenate to the words; for positive lengths they are admissible and their cost is `aux(0, 0)` |
| `Memo.Place` | main.py:275-287 | one step of the walk keeps the walk invariant, whichever branch it takes |
| `Memo.Memoisation` | main.py:177-294 | fails exactly when some word is longer than `L`; otherwise the lines are a partition and the score is `aux(0, 0)`; for positive lengths the score is their cost and is optimal among admissible layouts |
| `Memo.MemoisationWords` | main.py:197-268 | with the text split on runs of whitespace: fails exactly when there is no word or some word is longer than `L`; otherwise the lines are an admissible partition of the word lengths, the score is their cost, and it is optimal among admissible layouts |
| `Memo.EmptyWordMiscounted` | main.py:238-262 | for lengths [0, 1] and `L = 3`, `aux(0, 0)` is 4 under either fit test, while every partition of the two words costs 1 or 13; so the returned score is not the cost of the returned lines |
| `Memo.LineStartPenalised` | main.py:251 | as written, lengths [1, 1] and `L = 3` give `aux(0, 0) = 8` although one line of width 3 costs 0; corrected, it gives 0 |
| `Dynamic.LineFits` | main.py:327-332 | defines the inner loop's test for a line `w[i..j+1]`: as written, the content length without its last space against `L`, so a line of two or more words may be one column too wide; corrected, the full content length |
| `Dynamic.Candidate` | main.py:334 | defines `cost` for cut `j + 1`: the squared slack of the line plus `memo[j + 1]`, or infinity when the line fails the test (the `break` at line 330) |
| `Dynamic.Best` | main.py:333-337 | defines `(memo[i], cuts[i])` after the cuts before `k` have been tried: a candidate replaces the kept pick only when strictly smaller |
| `Dynamic.Opt` | main.py:318-337 | defines the final `memo[i]`: `0` past the last word, otherwise the pick after every cut has been tried |
| `Dynamic.BestIsMin` | main.py:325-337 | `memo[i]` is at most every candidate tried; `cuts[i]` is the first cut reaching it; a cut exists exactly when the score is finite |
| `Dynamic.FitMonotone` | main.py:326-332 | once a line fails the test, every longer line from the same word fails it |
| `Dynamic.BestStable` | main.py:329-330 | breaking out of the inner loop changes neither `memo[i]` nor `cuts[i]` |
| `Dynamic.WordOfFittingLine` | main.py:327-330 | no word of a line that passes the test is longer than `L` |
| `Dynamic.OptFinite` | main.py:318-337 | `memo[i]` is finite exactly when no word from `i` on is longer than `L` |
| `Dynamic.OptOptimal` | main.py:318-337 | `memo[i]` is at most the cost of every layout of the suffix whose lines pass the test |
| `Dynamic.CutsAchieve` | main.py:339-344 | the lines read off `cuts` from `i` are a partition of the suffix, with lines passing the test and cost `memo[i]` |
| `Dynamic.Follow` | main.py:339-344 | defines the lines read off `cuts` from word `i`: `mots[i:cuts[i]]`, then the lines from `cuts[i]` on; `Dynamic.CutsAchieve` states what it is |
| `Dynamic.FillTables` | main.py:318-337 | the nested loops leave `memo[i]` equal to the recurrence and `cuts[i]` equal to its first best cut |
| `Dynamic.FillRow` | main.py:324-337 | the inner loop for word `i` sets `memo[i]` to the recurrence's value and `cuts[i]` to its first best cut, and changes no other entry |
| `Dynamic.FollowCut` | main.py:341-344 | following `cuts[i]` adds a line that passes the test, and `memo[0]` is still the rest's score plus the cost of the lines so far |
| `Dynamic.Dynamique` | main.py:315-352 | fails exactly when some word is longer than `L`; otherwise the lines are those read off `cuts` from word 0, a partition passing the test; `get_error` of them equals `memo[0]`; the result is optimal; with the corrected test every line fits |
| `Dynamic.WideLineAccepted` | main.py:327-332 | as written, lengths [1, 1] and `L = 2` score 1 on one line of width 3; corrected, they score 2 |
| `Dynamic.TwoWords` | main.py:323-337 | for two words, the single line is kept only when it passes the test and is strictly cheaper than one line per word |
| `Dynamic.LastWordAlone` | main.py:323-337 | the last word alone scores the squared slack of its own line |
| `Agreement.CorrectedMemoAdmits` | main.py:251 | the corrected memoised test admits exactly the layouts whose multi-word lines fit |
| `Agreement.MemoAdmitsFitting` | main.py:251 | every layout the memoised test admits as written has its multi-word lines within `L` |
| `Agreement.FittingPassesDp` | main.py:327-332 | a layout whose lines all fit passes the dynamic-programming test, as written or corrected |
| `Agreement.CorrectedDpAdmits` | main.py:327-332 | the corrected dynamic-programming test admits exactly the layouts whose lines all fit |
| `Agreement.CorrectedSolversAgree` | main.py:130-174 | with the corrected tests and words of 1 to `L` columns, the exhaustive search, the memoised recursion and the dynamic program reach the same optimal score |
| `Agreement.AsWrittenOrder` | main.py:318-337 | as written, with words of 1 to `L` columns, the dynamic program scores at most the exhaustive search, which scores at most the memoised recursion |
| `Agreement.GreedyNoBetter` | main.py:63-68 | no first-fit layout costs less than the exhaustive search's score |

## Left out

- `get_words` and `write_log` read and append files. They are not modelled.
- Every `time.time()` call, the elapsed time returned by `mise_en_page_dynamique`, and the driver at the end of the file are not modelled.
- The `print` in `evaluation` is not modelled.
- Tokenisation is not modelled inside the solvers. Each solver takes the word lengths:
  - `str.split()` gives words that are never empty (greedy, exhaustive, dynamic program);
  - `str.split(" ")` can give empty words (memoised solver).
- Rendering is not modelled inside the solvers. The greedy and memoised solvers return a layout, not the text from `conversion`. `Render.Conversion` models that text separately.
- The text built by the rebuild loop of `mise_en_page_recursif` is not modelled as a string. Its rows are those of `Render.Row`, but only the line structure is modelled.
- The program rebuilds from the search in place with `pop()`. `Exhaustive.Rec` works on immutable sequences, so `t` is trivially unchanged after the search.
- `Exhaustive.Rec`: ties go to the new-line branch. `Exhaustive.Rec`'s definition states this; no separate lemma does.
- `Memo.Memoisation` proves the score, the layout's cost and optimality only for positive word lengths. After an empty word at the start of a line, the recursion places the next word at column 0 and charges no space in front of it, while the rebuilt line has one (`Memo.EmptyWordMiscounted`); `Memo.MemoisationWords` proves all three with the text split on runs of whitespace.
- `Memo.Memoisation` requires at least one length, because `split(" ")` always gives at least one piece.
- `Memo.Memoisation` checks the assertion that every word fits before the recursion runs. Every word is visited by `aux(i, 0)`, so this has the same outcome.
- The global dictionary and word list of the memoised solver are replaced by a map threaded through `Memo.AuxMemo`.
- Python's recursion-depth limit is not modelled.
- The arrays `memo` and `cuts` of the dynamic program are sequences updated one element at a time.
- `L` is an integer. The float `L = 1e9` of the driver is not modelled.
- Floating-point arithmetic is not modelled. The only float in the core is the `inf` sentinel, which is the `Infinite` case of `Score`.

## Findings

| source | as written | input that shows it | evidently intended | confidence | as-written member | corrected member |
|---|---|---|---|---|---|---|
| main.py:327-332 | the inner loop compares the line with `L` before adding the space in front of the new word, so a multi-word line `L + 1` wide passes | lengths [1, 1], `L = 2`: both words on one line of width 3, score 1 | a line is kept only when its full content length is at most `L` | high; not executed | `Dynamic.WideLineAccepted` | `Dynamic.Dynamique` |
| main.py:251 | the fit test counts a space in front of word `i` even at the start of a line (`j = 0`) | lengths [1, 1], `L = 3`: `aux(0, 0) = 8`, while one line of width 3 costs 0 | count that space only when `j > 0`, as the slack computation does with `espace` | high; not executed | `Memo.LineStartPenalised` | `Memo.Memoisation` |
| main.py:238-262 | `split(" ")` (main.py:197) gives an empty word for a leading space or two spaces in a row; after an empty word that starts a line, the next word is placed at column 0 with no space charged, while the rebuilt line puts a space there | lengths [0, 1] (the text `" x"`), `L = 3`: score 4, while every layout of the two words costs 1 or 13 | split on runs of whitespace, as the other three solvers do, so that no word is empty | medium; not executed | `Memo.EmptyWordMiscounted` | `Memo.MemoisationWords` |

In the first two rows, the corrected member is the same method called with `Corrected`.
For the dynamic program, `Dynamic.Dynamique` then proves that every line fits.
For the memoised solver, `Memo.Memoisation` then proves optimality over the
layouts whose multi-word lines fit (`Agreement.CorrectedMemoAdmits`).
`Agreement.CorrectedSolversAgree` shows that the corrected solvers reach the
exhaustive optimum. In the third row, `Memo.MemoisationWords` splits the text
with `Render.Words`, whose words are never empty, and then proves that the
score is the cost of the returned lines and is optimal.
