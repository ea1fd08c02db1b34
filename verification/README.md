# Student performance slideshow — a Dafny model of its data layer

The slideshow draws one CSV file of exam scores (`student id`, `gender`,
`race/ethnicity`, math, reading and writing scores) as four slides: a title,
a bar chart of the students with the best average score, a gender pie chart
with a "top performers" table, and a bubble chart of race/ethnicity groups.
Almost all of `script.js` is d3 drawing. This project models the logic the
drawing depends on:

- **Ranking for the bar chart** (`Ranking`). Each record becomes a bar
  `{id, avgScore, details}`. The bars are stably sorted from the highest
  average to the lowest and cut with `slice(0, topN)`. The default `topN` is 10.
- **The top-performers table** (`TopPerformers`). After sorting by average,
  the table lists the first three records whose gender is exactly `"male"`,
  then the first three whose gender is exactly `"female"`. A click on a pie
  slice first keeps only the records whose gender equals the slice label,
  ignoring case, and then builds the same table.
- **Category counts** (`Rollups`). This is `d3.rollups(data, v => v.length, key)`
  for the pie chart and the bubble chart. The pie chart's key is `"Male"` for
  gender `"male"` and `"Female"` for anything else. The bubble chart's key is
  the race/ethnicity string.
- **Slide navigation** (`Slides`). The `currentSlide` counter over slides
  1..4, the guarded `nextSlide`/`prevSlide`, and the buttons each slide shows.

The shared sequence machinery is in `StableSort`: `filter`, `map`,
`slice(0, end)`, and the stable descending sort that `Array.prototype.sort`
performs with a comparator `b.key - a.key`. Stability is stated without
positions. For every key value, the elements with that key keep their input
order (`SameTies`). A sorted sequence with the same ties as the input is
unique (`SortedTiesUnique`). That result proves that filtering, mapping and
re-sorting all commute with the sort.

Scores are integers and the average is the exact rational `(m + r + w) / 3`.
Records are immutable values, and every operation is a pure function.

The model follows `script.js` as written. In particular:

- There is no pass-ratio computation. The pie chart counts all records per
  gender bucket.
- There is no per-group total or average.
- There is no error for `topN <= 0`, an unknown gender or a bad score. A
  gender other than `"male"` is counted as `"Female"` (`GenderSlices`).
- Genders are not normalised when the data is loaded. The table compares the
  gender with `"male"`/`"female"` exactly. Only the pie-slice filter ignores
  case.

## Model

| member | source | states |
|---|---|---|
| `StableSort.SortDesc` | script.js:104 | The sorted bars are as many as the input's, ordered from the highest key to the lowest |
| `StableSort.SortPermutes` | script.js:104 | The sort is a permutation: it holds every input element exactly as often as the input does |
| `StableSort.SortKeepsTies` | script.js:104 | The sort is stable: for every key value, the elements with that key appear in the output in their input order |
| `StableSort.SortedTiesUnique` | script.js:104 | Any two sequences that are both sorted by the key and keep every tie in the same order are equal, so the ranking does not depend on which stable sort the engine uses |
| `StableSort.SortIdempotent` | script.js:251-252 | Stably sorting data that is already sorted by the same key changes nothing |
| `StableSort.FilterCommutesWithSort` | script.js:251-255 | Filtering the sorted records by gender gives the sort of the filtered records |
| `StableSort.MapCommutesWithSort` | script.js:100-104 | Mapping records to bars that carry the same key and then sorting gives the mapped sorted records |
| `StableSort.PrefixDominates` | script.js:104 | Every element cut off a sorted sequence by `slice` has a key no higher than every element kept |
| `StableSort.TopOfSort` | script.js:104 | The first `n` elements of the stable sort: as many as `s` has up to `n`, sorted; each ranks at least as high as every element left out; all of `s` when it has no more than `n` elements |
| `StableSort.SliceTo` | script.js:104 | `slice(0, end)` returns a prefix of `end` elements, or all of them when there are fewer, for `end >= 0`; a negative `end` counts back from the end |
| `StableSort.Filter` | script.js:254-255 | `filter` keeps exactly the elements that pass the predicate, and each of them comes from the input |
| `StableSort.WithKeyFilter` | script.js:254-255 | Taking the records of one average and filtering by gender can be done in either order |
| `StableSort.FilterOfFilter` | script.js:262 | Filtering by a gender label and then by an exact gender it implies equals filtering by the exact gender alone |
| `Students.Lower` | script.js:262 | Lower-casing keeps the length and lower-cases each character on its own |
| `Ranking.TopStudents` | script.js:100-104 | For `topN > 0` there are `topN` bars, or one per record when there are fewer records, in non-increasing order of average. Each bar's `avgScore` is the mean of its own record's scores, its `id` is that record's id, and its `details` is an input record unchanged |
| `Ranking.TopStudentsFromInput` | script.js:100-104 | The bars form a sub-multiset of the input's bars: no record is drawn more often than it occurs |
| `Ranking.PrefixOfRanking` | script.js:100-104 | Every prefix of the full ranking is sorted and consists of unchanged input records with their true averages |
| `Ranking.TopStudentsDominate` | script.js:104 | A student left off the chart averages no more than any student on it |
| `Ranking.TopStudentsKeepTieOrder` | script.js:104 | For every average, the bars with that average are the first students of the input with that average, in input order |
| `Ranking.TopStudentsOfAnyStableSort` | script.js:104 | The bars equal the first `topN` of any sequence that is sorted by average and keeps ties in input order |
| `Ranking.TopStudentsIgnoreResort` | script.js:251-252 | Drawing the bar chart after `getTopPerformers` has sorted the shared array in place gives the same bars as before |
| `Ranking.RedrawTopStudents` | script.js:50-54 | A typed count redraws the chart only when it parses to a positive integer, and then draws exactly the bar chart for that count: that many bars or one per record, in non-increasing order of average, each the bar of an input record. Otherwise the chart stays as it is |
| `Ranking.RedrawDominates` | script.js:50-54 | After a redraw with a positive count, no record left off the chart averages more than a bar that is drawn |
| `Ranking.InitialChart` | script.js:83-104 | The chart drawn when slide 2 opens, which passes no count, uses the default count of ten: ten bars, or one per record when there are fewer, in non-increasing order of average, each the bar of an input record |
| `Ranking.InitialChartDominates` | script.js:83-104 | With more than ten records the opening chart has exactly ten bars, and no record left off averages more than a drawn bar |
| `Ranking.TopOneOfTwo` | script.js:100-104 | The records (90, 85, 95) and (40, 50, 45) with `topN = 1` give one bar: the first record with average 90 |
| `TopPerformers.GetTopPerformers` | script.js:250-258 | At most six rows, all input records, each of gender exactly `"male"` or `"female"`, with every male row before every female row |
| `TopPerformers.TopPerformersOfGender` | script.js:251-255 | The rows of one gender are the records of that gender ranked by average and cut after three |
| `TopPerformers.TopPerformersPerGender` | script.js:251-257 | Per gender: `min(3, n)` rows for `n` records of that gender, in non-increasing average. Every record of that gender left out averages no more than every row. All of them appear when `n <= 3` |
| `TopPerformers.UpdateTopPerformersTable` | script.js:261-262 | After a click on a slice, every row is an input record whose gender equals the label ignoring case, and there are at most three rows |
| `TopPerformers.PieSliceTable` | script.js:197-199 | Clicking the "Male" slice lists the top three records with gender exactly `"male"`. Clicking "Female" lists the top three with gender exactly `"female"` |
| `Rollups.Bump` | script.js:305 | Counting one more record with key `k` adds one to the bucket of `k`, or appends a bucket `(k, 1)`. Keys stay distinct and the total grows by one |
| `Rollups.Rollup` | script.js:305-306 | One bucket per distinct key present and none for other keys. Each bucket's count is the number of records with its key, and the counts add up to the number of records |
| `Rollups.PositiveCounts` | script.js:305-306 | Every bucket of a rollup counts at least one record |
| `Rollups.GenderSlices` | script.js:186 | Each record lands in exactly one slice. "Male" counts the records with gender exactly `"male"`, and "Female" counts all the others |
| `Rollups.GenderCounts` | script.js:186-187 | Pie slices have distinct keys among "Male" and "Female". Their counts are the male count and the rest, each at least one, adding up to the number of records |
| `Rollups.RaceCounts` | script.js:305-306 | One bubble per race/ethnicity group present. Each counts the records of its group, at least one, and the counts add up to the number of records |
| `Slides.NextSlide` | script.js:366-371 | `nextSlide` moves to the next slide exactly when the counter is below 4, otherwise it changes nothing, and it keeps the counter in 1..4 |
| `Slides.PrevSlide` | script.js:374-379 | `prevSlide` moves to the previous slide exactly when the counter is above 1, otherwise it changes nothing, and it keeps the counter in 1..4 |
| `Slides.Render` | script.js:26-80 | Drawing a slide records it as shown. "Previous" is displayed exactly on slides after the first, and "next" exactly on slides before the last |
| `Slides.Start` | script.js:2-7 | The page starts on slide 1 with the counter at 1, "previous" hidden and "next" displayed |
| `Slides.RunStaysInRange` | script.js:366-379 | Whatever the sequence of clicks and whenever the data arrives, the counter and the slide on screen stay in 1..4 |
| `Slides.StaleCounterAfterLoad` | script.js:14-19 | As written, after the data arrives slide 2 is on screen with "previous" displayed while the counter is 1. "Previous" then does nothing, and "next" draws slide 2 again |
| `Slides.FixedStaysSynced` | script.js:17 | With the counter set along with the slide drawn on data load, the counter always names the slide on screen and the buttons are that slide's |
| `Slides.FixedButtonsMatchGuards` | script.js:366-379 | With that correction, a displayed button always moves one slide and a hidden button's click would change nothing |

## Left out

- All d3, DOM and SVG work is left out: scales, axes, arcs, colours, tooltips and the HTML of the table. It is rendering only.
- The asynchronous CSV load (`d3.csv(...).then`) is left out. Records arrive already parsed. In `Slides` the load is an event, `DataLoaded`, that can happen at any point.
- `parseFloat` and NaN propagation are left out. Scores are integers.
- Floating point is not modelled. The average is the exact rational sum / 3. For integer scores of exam size, double division by 3 orders the averages and finds ties exactly as the rationals do.
- `Students.Lower`: lower-cases the ASCII letters A–Z only, whereas `toLowerCase` follows full Unicode case mapping.
- The in-place reordering of the shared array by `data.sort` in `getTopPerformers` is not modelled. The model is pure. `Ranking.TopStudentsIgnoreResort` shows that the reordering does not change the bar chart. It does change the first-seen order of the rollup buckets, which only affects layout.
- `Rollups.Rollup` models the first-seen order of the buckets, but nothing relies on that order.
- The "Update" button's listener never attaches, because the ids it uses (`update-chart`, `top-n`) are not in the slide's markup (`top-number`). `Ranking.RedrawTopStudents` models the handler's guard and redraw as written, not whether the handler is reachable.
- The second drawing of the table on slide 3 (`drawPieChart` and `updateSlide` both call `drawTopPerformersTable`) is rendering only.
- The `%` in the bubble label is rendering only.
- Unused CSV columns are left out: parental education, lunch and test preparation.

## Findings

| source | as written | input that shows it | evidently intended | confidence | as-written member | corrected member |
|---|---|---|---|---|---|---|
| script.js:17 | When the data arrives, the callback draws slide 2 with `updateSlide(2)` but leaves `currentSlide` at its old value | Open the page and let the CSV load while still on slide 1. Slide 2 appears with "previous" displayed, but clicking it does nothing (`currentSlide` is 1). The first "next" click redraws slide 2 | The counter names the slide on screen, so `currentSlide` becomes 2 when slide 2 is drawn after loading | medium, not executed | `Slides.StaleCounterAfterLoad` | `Slides.FixedStaysSynced` |
