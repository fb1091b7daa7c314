# Ranking board leaderboard, modelled in Dafny

The ranking board is one client-side page (`page.tsx`). It shows a
leaderboard and a two-field form: a name and a score. The page's state is the
list of rankings plus the two text fields. Pressing the add button validates
the fields. If they pass, it appends an entry, stably sorts the whole list by
score with the highest first, renumbers the ranks 1..n by position, stores the
list and clears both fields. A refused submission changes nothing. Under the
table the page shows three statistics: the number of participants, the top
score and the rounded average score.

The model has three modules:

- `JsText` (`js_text.dfy`) covers the two JavaScript built-ins the form
  check depends on. `Trim` is `String.prototype.trim` (section 22.1.3.32 of
  ECMA-262). `ParseIntPrefix` is global `parseInt` with no radix (section
  19.2.5 of ECMA-262): it skips leading white space, reads an optional sign,
  switches to hex after a `0x`/`0X` prefix, then reads the longest run of
  digits. If there are no digits the result is NaN, modelled as `None`. The
  white-space set is WhiteSpace plus LineTerminator (sections 12.2 and 12.3),
  with the Zs characters listed out.
- `Ranking` (`ranking.dfy`) holds the `Entry` record and the pure pipeline
  `Accept(board, e) == Rerank(SortDesc(board + [e]))`, plus the statistics.
  `SortDesc` is a stable insertion sort. `StableSortUnique` proves that any
  sorted list that keeps the input's order among equal scores equals
  `SortDesc`. So the model does not depend on which stable algorithm a
  JavaScript engine uses for `Array.prototype.sort`, which must be stable
  (section 23.1.3.30 of ECMA-262).
- `Home` (`home.dfy`) holds the seed list and the validator predicate
  `AcceptsSubmission`. It also holds the `Store` class, whose fields are
  `rankings`, `newName` and `newScore`, and whose methods are the add button
  (`AddEntry`) and the two `onChange` handlers. Two example sessions run
  through the store: adding "Han" with "90" to the seed, and two refused
  submissions.

Points of the code's behaviour that the model makes explicit:

- The stored name is `newName` as typed, not trimmed (page.tsx:32). Only
  the emptiness check uses the trimmed text (page.tsx:25).
- Ranks are positions (page.tsx:39-42), so entries with equal scores get
  distinct, consecutive ranks, in the order the stable sort leaves them.
- The separate check that the score text is not blank (page.tsx:25) never
  changes the outcome. Any text `parseInt` accepts contains a digit, so it
  is not blank (`SubmissionRefusals`).

Inputs the source takes from its environment:

- `Date.now()` becomes the `now` parameter of `AddEntry`.
- The text-field events become calls to `SetNewName` and `SetNewScore`
  with the typed text.

## Model

| member | source | states |
|---|---|---|
| `JsText.IsBlank` | page.tsx:25 | `!s.trim()`: the trimmed text is empty. `BlankIffAllSpace` shows this holds exactly when every character is white space. |
| `JsText.Trim` | page.tsx:25 | The result is the slice of the input after its leading white space. Everything after the slice is white space. A non-empty result starts and ends with a non-space. |
| `JsText.BlankIffAllSpace` | page.tsx:25 | `s.trim()` is empty (falsy) exactly when every character of `s` is white space. |
| `JsText.ParseIntPrefix` | page.tsx:27 | `parseInt` with no radix. `ParseIntDecimal` gives its value on every decimal layout, `ParseIntEmptyHex` its NaN after a bare hex prefix, and `ParseDecimalRoundTrip` the read-back of every integer's notation. |
| `JsText.ParseIntDecimal` | page.tsx:27-28 | For white space, then none, "+" or "-", then a run of decimal digits, then text that does not extend the run: NaN exactly when the run is empty; otherwise the run's value ("+7" and "007" give 7), negated after "-". So "abc5", "- 5" and "+" are NaN. |
| `JsText.ParseIntEmptyHex` | page.tsx:27-28 | A "0x" or "0X" after white space and an optional sign, followed by no hex digit, is NaN. |
| `JsText.ParseDecimalRoundTrip` | page.tsx:27 | `parseInt` reads back the decimal notation of every integer. This holds after any leading white space and before any text that does not extend the number. |
| `JsText.ParseTrailingText` | page.tsx:27 | `parseInt("95abc")` is 95: reading stops at the first non-digit. |
| `JsText.NoDigitIsNaN` | page.tsx:27-28 | Text with no decimal digit parses to NaN. |
| `JsText.ParsedIsNotBlank` | page.tsx:25-28 | Any text `parseInt` accepts is not blank after trimming. |
| `Ranking.SortDesc` | page.tsx:38 | `sort((a, b) => b.score - a.score)`. `SortDescSorted`, `SortDescStable` and `StableSortUnique` show it is the one stable sort by descending score. |
| `Ranking.Accept` | page.tsx:37-42 | The list stored by an add: append, sort, renumber. Its properties are stated by `AcceptShape`, `AcceptStable`, `AcceptIntoRanked` and `AcceptStats`. |
| `Ranking.Rerank` | page.tsx:39-42 | The entry at position i gets rank i + 1. Apart from the rank, every entry is unchanged. |
| `Ranking.SortDescSorted` | page.tsx:38 | The sort's result has non-increasing scores and is a permutation of its input. |
| `Ranking.SortDescStable` | page.tsx:38 | For every score, the entries with that score keep their input order. |
| `Ranking.StableSortUnique` | page.tsx:38 | Any score-sorted list that keeps the input order among ties equals `SortDesc` of the input. |
| `Ranking.SortDescOfSorted` | page.tsx:37-38 | Sorting an already sorted list changes nothing. |
| `Ranking.AcceptShape` | page.tsx:37-42 | After an add, the list is one longer. Ignoring ranks, it is a permutation of the old list plus the new entry. Its scores are non-increasing and its ranks are 1..n by position. |
| `Ranking.AcceptStable` | page.tsx:37-38 | After an add, the entries of every score keep their old relative order. The new entry comes after every old entry with the same score. |
| `Ranking.AcceptIntoRanked` | page.tsx:37-42 | The board is sorted and ranked before the add. The new entry lands right after the entries scoring at least as much, which keep their place and rank. Every lower entry moves down one place and one rank. |
| `Ranking.RankedIsDense` | page.tsx:39-42 | Ranks by position form exactly the set 1..n, with no repeats. |
| `Ranking.Count` | page.tsx:150 | The participant count is the number of entries. `AcceptStats` shows an add raises it by one. |
| `Ranking.MaxOf` | page.tsx:156 | `Math.max` over a non-empty list is at least every score and equal to one of them. |
| `Ranking.MaxScore` | page.tsx:156 | The top-score display is 0 for an empty board, and otherwise the largest score. |
| `Ranking.RoundDiv` | page.tsx:162 | `Math.round(num / den)` is the integer q with q - 1/2 <= num/den < q + 1/2 (halves round up). |
| `Ranking.SumScores` | page.tsx:162 | The `reduce` total of the scores. `SumAppend` shows it adds up over a concatenation, `SumSort` that sorting keeps it, and `SumSameScores` that renumbering ranks keeps it. |
| `Ranking.AverageScore` | page.tsx:162 | The average display is 0 for an empty board. Otherwise it is the integer nearest the mean score, with halves rounding up. |
| `Ranking.AcceptStats` | page.tsx:150-162 | After an add, the count grows by one and the score total grows by the new score. The maximum becomes the larger of the old maximum and the new score, or just the new score on an empty board. |
| `Home.Seed` | page.tsx:13-19 | The five starting entries. `SeedIsBoard` shows their scores are 95, 88, 82, 78, 75 and that they are sorted and ranked 1..5. |
| `Home.SeedIsBoard` | page.tsx:13-19 | The seed has five entries with scores 95, 88, 82, 78, 75. It is sorted and ranked 1..5. |
| `Home.AcceptsSubmission` | page.tsx:25-28 | The add button's checks: the name and the score text are not blank after trimming, and `parseInt` of the score text is not NaN. `SubmissionRefusals` drops the redundant score test. |
| `Home.SubmissionRefusals` | page.tsx:25-28 | A submission is accepted exactly when the name is not blank and `parseInt` of the score text is not NaN. The blank test on the score text never changes the outcome. |
| `Home.NewEntry` | page.tsx:30-35 | The new entry carries the name as typed, the parsed score, the clock value as id and rank 0. |
| `Home.Store.constructor` | page.tsx:13-22 | The page starts with the seed list and two empty fields, which satisfies the board invariant. |
| `Home.Store.SetNewName` | page.tsx:65 | The name field takes the typed text. Nothing else changes. |
| `Home.Store.SetNewScore` | page.tsx:72 | The score field takes the typed text. Nothing else changes. |
| `Home.Store.AddEntry` | page.tsx:24-47 | A refused submission leaves `rankings`, `newName` and `newScore` unchanged. An accepted one stores `Accept(old rankings, new entry)` and clears both fields, and the board invariant then holds. The invariant is preserved in either case. |
| `Home.HanScenario` | page.tsx:24-47 | Add "Han" with "90" to the seed. The scores become 95, 90, 88, 82, 78, 75, Han has rank 2, and the statistics are 6, 95 and 85. |
| `Home.RefusalScenario` | page.tsx:25-28 | A blank name with "50" is refused and keeps "50". "Kim" with "abc" is refused and keeps "Kim". Both times the board keeps its 5 entries. |

## Left out

- Rendering is not modelled: the JSX table, the medal emoji and the colour
  chosen by rank (page.tsx:49-169). It is presentation only.
- React's `useState` hook and re-render scheduling are not modelled. The
  state is three plain fields of `Store`, assigned by its methods.
- `Date.now()` is a clock read. It is the parameter `now`, and nothing is
  claimed about ids being unique.
- Floating point is not modelled; all numbers are unbounded integers.
  - The comparator `b.score - a.score` (page.tsx:38) loses digits for huge
    scores, but its sign is exact for any two finite doubles, and the sort
    only uses the sign. The one exception is Infinity minus Infinity, which
    is NaN and sorts as a tie. Infinity itself only arises from the
    `parseInt` case below.
  - `AverageScore` divides exactly, while `Math.round` (page.tsx:162) rounds
    a double quotient. The two can differ once the score total reaches 2^52
    in magnitude. For example, take scores 2^51+7, 2^51+7 and 2^51+8:
    - the total 3·2^51+22 is an exact double;
    - the true mean 2^51+7⅓ becomes the double 2^51+7.5;
    - so the page shows 2^51+8, where the model gives 2^51+7.

    Below that size, and with every partial total below it too, the
    double's rounding error is smaller than the smallest gap between a mean
    of n integers and a half, so the two agree.
  - `parseInt` yields an inexact float or Infinity for very long digit runs.
- `JsText.ParseIntPrefix` does not model `-0`. `parseInt("-0")` is -0 in
  JavaScript, which the page shows as 0; the model gives the integer 0.
- The browser filtering of the `type="number"` field (page.tsx:69) is not
  modelled. The score text is treated as arbitrary text.
- JavaScript strings are UTF-16 code units, while Dafny strings are Unicode
  scalar values. The two agree here because no white-space character or
  digit lies outside the Basic Multilingual Plane.
