# Monthly Scorecard: the scoring core

The Monthly Scorecard app turns a batch of per-test score sheets (one CSV per test) into a consolidated
monthly report. This project models the app's scoring core, all of it in `app.py`:

- **Schema recognition** (`schema.dfy`). This finds, in a sheet with unknown headers:
  - the names (`find_name_series`),
  - the test's maximum (`find_possible_pts`),
  - the scores (`extract_obtained_series`).
- **Name keys** (`names.dfy`, with `text.dfy`). `normalize_name` is the key under which a student is
  matched across sheets.
- **Per-sheet extraction** (`extraction.dfy`). The upload loop produces one record per readable sheet:
  - the test maximum, with its fallbacks;
  - the score of each present student;
  - the set of present students.
- **Aggregation and ranking** (`aggregation.dfy`, `ranking.dfy`). This builds one row per student:
  - tests, present, absent, total marks, obtained and percentage;
  - the dense descending rank on the obtained total;
  - the ordering by rank, then by name.
- **Awards** (`awards.dfy`). This covers the awards page's five fixed awards:
  - Vikramaditya, Chanakya and Arjuna go to the first row of rank 1, 2 and 3.
  - Eklavya goes to at most three fully present students, best marks first, or to "No Candidates".
  - Dhruva goes to every row of rank 4 or 5.
- **Layout arithmetic** (`layout.dfy`). This covers the number of pages (23 rows per table page, plus the
  summary and awards pages) and the three colour bands of `get_smart_row_color`.
- **One run of the generate button** (`pipeline.dfy`). This chains the steps above.

A sheet is a `Table` of `Column`s. Each has a header and cells, and a cell is either missing or holds its
text together with the number `pd.to_numeric(..., errors='coerce')` would read from it. A sheet that
`read_csv` rejects is `None`: the loop skips such a sheet.

The model's functions state what each step computes. The imperative parts follow the app's loops:

- the per-file loop and its row loop;
- the set of all students;
- the per-student loop;
- the appending of the awards list.

These are methods proved against those functions.

Some behaviours of the code are easy to misread:

- **Loose maximum rule.** The loose rule for the test maximum takes the largest number of the first
  loosely matching column that has a number. It does not look at later loosely matching columns
  (`app.py:90-93`).
- **Awards.** The awards page lists five fixed awards, chosen only from ranks and absences
  (`app.py:327-361`). No threshold enters the choice.
- **Fallback maximum.** When no maximum column exists, the fallback is the largest score unless it is 0.
  A negative largest score is kept as the test's maximum (`app.py:153-155`).
- **No named student.** When every readable sheet names no student, the code fails at the Rank column
  (`app.py:194-195`). The data frame then has no `Obtained` column. The model's run ends in `NoStudents`
  instead of a report.

## Model

| member | source | states |
|---|---|---|
| Text.LowerAt | app.py:62 | lower-casing maps every character to its lower-case form and keeps the length |
| Text.TrimSpec | app.py:60 | strip leaves no whitespace at either end, never lengthens, and leaves an already trimmed string unchanged |
| Text.TrimStretch | app.py:60 | strip keeps one contiguous stretch of the name and removes only whitespace before and after it |
| Text.TrimLeftShape | app.py:60 | the left strip removes a prefix made only of whitespace and leaves a suffix that starts with a non-space |
| Text.TrimRightShape | app.py:60 | the right strip removes a suffix made only of whitespace and leaves a prefix that ends with a non-space |
| Text.CollapseShape | app.py:61 | replacing whitespace runs leaves only single spaces, and keeps a non-space first and last character |
| Text.CollapseVisible | app.py:61 | replacing whitespace runs keeps every non-whitespace character, in order |
| Text.CollapseOfSingleSpaced | app.py:61 | replacing whitespace runs changes nothing in a single-spaced string |
| Text.ContainsSpec | app.py:79 | the substring test holds exactly when the pattern occurs at some position |
| Text.TitleInjective | app.py:178 | under the model's ASCII title-casing, distinct lower-case keys give distinct display names |
| Text.StrLeTotal | app.py:196 | any two names are ordered one way or the other |
| Text.StrLeTrans | app.py:196 | the name order is transitive |
| Text.StrLeAntisym | app.py:196 | names ordered both ways are equal |
| Names.NormalizeShape | app.py:58-62 | every key is trimmed, single-spaced and lower-case |
| Names.KeyIsFixpoint | app.py:58-62 | a string already in key shape is its own key |
| Names.NormalizeIdempotent | app.py:58-62 | normalising twice is normalising once |
| Names.EmptyKeyIffBlank | app.py:58-62 | a key is empty exactly when the raw name is empty or all whitespace, so only blank names are dropped |
| Names.NormalizeIsScan | app.py:58-62 | the key equals a one-pass reading that skips leading whitespace, lower-cases word characters, writes one space between words and drops trailing whitespace |
| Names.NormalizeRespects | app.py:58-62 | names that differ only in which whitespace characters they use, or in the case of ASCII letters, get the same key |
| Names.NormalizeReplace | app.py:58-62 | replacing one whitespace character by another, or a letter by its other case, keeps the key |
| Names.NormalizeDoubledSpace | app.py:61 | doubling a whitespace character keeps the key |
| Names.NormalizeVisible | app.py:58-62 | the key's non-whitespace characters are the name's, lower-cased, in order, so names whose non-whitespace characters differ other than by case get different keys |
| Tables.FirstIndexSpec | app.py:86-89 | the search returns the first index whose element qualifies, or nothing when none does |
| Tables.FirstIndexIs | app.py:86-89 | an index that qualifies with no earlier one qualifying is the one found |
| Tables.ParsedSpec | app.py:88 | the coerced and dropped values are exactly the numbers of the parsing cells; the first belongs to the first parsing cell |
| Tables.ParsedInOrder | app.py:88 | the coerced and dropped values come one per parsing cell, in row order, repeats kept |
| Tables.SeqMaxSpec | app.py:93 | the maximum is one of the values and no value exceeds it |
| Tables.CoerceAt | app.py:101 | each coerced cell is its number, or 0 when it does not parse |
| Schema.KeywordMatchSpec | app.py:72-76 | keywords are tried in order and columns in order for each; the match found is the first pair, and there is none exactly when no header equals a keyword |
| Schema.NameColumnSpec | app.py:64-82 | the name source is first/last when both headers exist, else a keyword column, else the first loose column, else synthetic; each case holds exactly when its condition does |
| Schema.StrippedTextsAt | app.py:76 | each name is the stripped text of its cell |
| Schema.JoinNamesAt | app.py:70 | each name is the stripped first name, a space and the stripped last name |
| Schema.FindNameSeries | app.py:64-82 | there is one name per row |
| Schema.NameSeriesSpec | app.py:64-82 | the names are the joined first/last cells, the stripped cells of the chosen column, or "Student i+1" |
| Schema.PossibleNone | app.py:84-94 | there is no maximum exactly when no column qualifies under either rule |
| Schema.PossibleFromExact | app.py:86-89 | with an exact header, the maximum is the first parsing cell of the first such column |
| Schema.PossibleFromLoose | app.py:90-93 | with no exact header, the maximum is the largest number in the first loose column that has one |
| Schema.BestMean | app.py:103-112 | the chosen score column is an admitted column that holds a number |
| Schema.BestMeanSpec | app.py:103-112 | the chosen column has the highest mean, and the earliest wins ties; there is none exactly when no column qualifies |
| Schema.ExtractObtainedSeries | app.py:96-114 | there is one score per row |
| Schema.ObtainedFromDirect | app.py:98-101 | the first direct score column gives the scores, with 0 for cells that do not parse |
| Schema.ObtainedFromBestMean | app.py:103-112 | without a direct column, the best-mean column gives the scores, with 0 for cells that do not parse |
| Schema.ObtainedAllZero | app.py:114 | with no usable column every score is 0 |
| Extraction.FileMaxSpec | app.py:153-155 | a declared maximum is kept; otherwise the largest score, unless it is 0 or the sheet is empty, when it is 50 |
| Extraction.RowKeysAt | app.py:158-159 | each row's key is its normalised name |
| Extraction.PresentKeysExactly | app.py:157-161 | the present set is exactly the non-empty keys of the rows |
| Extraction.ScoreMapKeys | app.py:156-162 | the score map has exactly the present students as keys |
| Extraction.ScoreMapLastWins | app.py:156-162 | a key repeated in the sheet keeps the score of its last row |
| Extraction.RecordFromShape | app.py:150-163 | a sheet's record holds exactly its non-blank keys, scored by each key's last row |
| Extraction.IndexRows | app.py:156-162 | the row loop builds exactly the present set and the score map |
| Extraction.ExtractRecord | app.py:149-163 | reading one sheet yields its record |
| Extraction.Readable | app.py:147-149 | the readable sheets are no more than the uploads, all well-formed |
| Extraction.ReadableSnoc | app.py:147-165 | each upload adds its sheet when readable and nothing otherwise |
| Extraction.ExtractFile | app.py:148-165 | a readable upload appends its record; a rejected one leaves the records unchanged |
| Extraction.ExtractAll | app.py:146-165 | the records are those of the readable sheets, in upload order |
| Aggregation.StudentsExactly | app.py:169-172 | the students are exactly the keys present in some sheet |
| Aggregation.PresentCountSpec | app.py:177-181 | tests present is at most the number of sheets, and positive exactly when the student appears in one |
| Aggregation.ObtainedIgnoresAbsent | app.py:179-182 | a student absent from every sheet has obtained 0 |
| Aggregation.ObtainedBounds | app.py:170-182 | when scores lie within their sheets' maxima, the obtained total lies within 0 and the total marks |
| Aggregation.Trunc | app.py:189 | int() truncates toward zero |
| Aggregation.PercentageSpec | app.py:183 | the percentage scales the obtained total to 100 marks and is 0 without positive total marks |
| Aggregation.StudentRowAttendance | app.py:186-188 | present plus absent is the number of sheets, and a listed student is present at least once |
| Aggregation.FinalRanks | app.py:195 | equal totals give equal ranks and a higher total a better rank, both ways; ranks lie between 1 and the number of distinct totals |
| Aggregation.FinalRanksGapFree | app.py:195 | rank 1 is held, and every rank above 1 has the rank just before it held too |
| Aggregation.FinalNamesDistinct | app.py:178 | under the model's ASCII title-casing, distinct students get distinct display names |
| Aggregation.RowLeTotal | app.py:196 | any two rows are ordered by (rank, name) one way or the other |
| Aggregation.RowLeTrans | app.py:196 | the (rank, name) order is transitive |
| Aggregation.InsertRowSpec | app.py:196 | inserting into a sorted table keeps it sorted and adds exactly that row |
| Aggregation.SortRowsSpec | app.py:196 | sorting by rank then name gives a sorted permutation of the rows |
| Aggregation.SortKeepsRows | app.py:196 | sorting keeps every row and adds none |
| Aggregation.CollectStudents | app.py:169-172 | the loop collects exactly the students |
| Aggregation.Tally | app.py:176-182 | the loop counts the tests present and sums the scores |
| Aggregation.BuildRows | app.py:174-192 | one unranked row per student, each built from that student's tally |
| Aggregation.RankRows | app.py:195 | ranking keeps the number of rows |
| Aggregation.RankRowsSpec | app.py:195 | each ranked row is its student's final row, with the dense rank of their total |
| Aggregation.Consolidate | app.py:169-196 | the table has one final row per student, no other rows, sorted by rank then name |
| Ranking.DenseRankBounds | app.py:195 | a dense rank lies between 1 and the number of distinct values |
| Ranking.DenseRankOrder | app.py:195 | equal values share a rank and a larger value ranks strictly better |
| Ranking.DenseRankIff | app.py:195 | ranks compare exactly as the values compare, reversed |
| Ranking.DenseRankTop | app.py:195 | the largest value has rank 1 |
| Ranking.DenseRankGapFree | app.py:195 | dense ranks leave no gaps |
| Tables.PositionsSpec | app.py:358 | a boolean row selection picks, in increasing order, exactly the rows that satisfy it |
| Awards.FilterSpec | app.py:348 | the filtered rows are the satisfying rows, in table order, none missed |
| Awards.FilterMembers | app.py:348-349 | the filtered rows satisfy the test and come from the table; the selection is empty exactly when no row satisfies it |
| Awards.JoinComma | app.py:352 | joining no name gives the empty string, and joining one name gives that name |
| Awards.RankAwardSpec | app.py:329-345 | the rank-r award exists exactly when rank r is held, and names the first row of that rank |
| Awards.InsertDescSpec | app.py:351 | inserting into a list sorted by marks, best first, keeps it so and adds exactly that row |
| Awards.SortDescSpec | app.py:351 | sorting by marks, best first, gives a sorted permutation |
| Awards.AttendancePicks | app.py:351 | at most three students are named |
| Awards.AttendancePicksSpec | app.py:347-355 | the picks are min(3, n) fully present rows, each taken at most as often as it occurs, best first, and no fully present row left out outscores a pick |
| Awards.PicksFromFull | app.py:348-351 | the picks are a sub-multiset of the fully present rows |
| Awards.AttendancePicksEmpty | app.py:348-355 | there are no picks exactly when every row has an absence |
| Awards.RisingRowsSpec | app.py:358 | the rising-star rows are exactly the rows of rank 4 or 5, in table order |
| Awards.SelectAwards | app.py:327-361 | the appended awards list is the awards list of the table |
| Awards.AwardCategories | app.py:327-361 | the categories come in page order: rank 1, rank 2, rank 3, attendance, rising star |
| Awards.RankSlot | app.py:329-345 | a rank award's slot holds its category exactly when that rank is held |
| Awards.RisingSlot | app.py:357-361 | the rising-star slot is filled exactly when rank 4 or 5 is held |
| Awards.AwardListSpec | app.py:327-361 | the list holds 1 to 5 awards; attendance is always there; each rank award is there exactly when its rank is held; rising star is there exactly when rank 4 or 5 is held |
| Layout.MainPagesSpec | app.py:234 | the table pages are the fewest that hold every row: none for an empty table, and all but the last full |
| Layout.Page | app.py:238-241 | every table page holds between 1 and 23 rows |
| Layout.PageHolds | app.py:238-241 | row i is printed as line i mod 23 of page i div 23 |
| Layout.RowBandSpec | app.py:116-119 | green holds exactly pct ≥ green threshold, yellow holds the yellow threshold up to green, and red holds the rest |
| Layout.RowBandMonotone | app.py:116-119 | a higher percentage never gets a worse band |
| Pipeline.Records | app.py:146-165 | there is one record per readable sheet |
| Pipeline.StudentsAreKeys | app.py:158-172 | every student is a non-empty normalised key |
| Pipeline.RankOneHeld | app.py:195 | a table holding every final row has a row of rank 1 |
| Pipeline.Generate | app.py:146-235 | no readable sheet stops the run and no student fails it. Otherwise the report holds each student's final row once, sorted by rank then name, with distinct names under the model's ASCII title-casing. The awards are those of the table, always including rank 1 and attendance. The page count is the table pages plus 2 |

## Left out

- The Streamlit interface is not modelled:
  - the threshold inputs, upload widget, spinner and error messages;
  - the report title and the download button.
- The background image download and all PDF drawing (fonts, colours, the summary page) are not modelled. Only the page count and row-to-page split (`app.py:234-241`) are modelled.
- CSV decoding is not modelled. A sheet is given already parsed, and `None` stands for a sheet `read_csv`
  raises on.
- Exceptions inside the extraction functions are not modelled. Headers are taken to be strings.
- `pd.to_numeric` is not modelled: each cell carries the number it would parse to, or none.
- Floating point is not modelled: scores, sums and percentages are exact reals.
- The rounding `round(..., 2)` and `round(..., 1)` of `app.py:190-191` is not modelled. The model ranks on
  the exact obtained total, whereas the app ranks on the rounded one, so totals equal after rounding may
  get different ranks in the model.
- `str.lower` and `str.title` cover ASCII letters only, and the name order compares code points.
  Whitespace is Python's `str.isspace` set. `str.lower` leaves every non-ASCII character unchanged.
  Title-casing treats every non-ASCII character as a non-letter, so the ASCII letter after it starts a
  new word. The model turns the key "müller" into "MüLler" and "maría" into "MaríA", where Python gives
  "Müller" and "María". This changes the displayed name, the name tie-break of `app.py:196` and the
  award strings for such names.
- Text.TitleInjective: distinct keys give distinct names only under the model's ASCII title-casing.
  Python's `str.title` can merge keys: "ß" and "ss" both become "Ss", and "ﬁona" and "fiona" both
  become "Fiona".
- Aggregation.FinalNamesDistinct: for the same reason, two students of the app can share one display
  name, which the model's ASCII title-casing rules out.
- Pipeline.Generate: its distinct-names clause holds for the model's ASCII title-casing only. The app's
  table can hold two rows with one Name, and its award strings then cannot tell those students apart.
- The `pd.isna` branch of `normalize_name` (`app.py:59`) is not modelled. Names reach it as text after
  `astype(str)`, so a missing cell is the text "nan", never a missing value.
- Python's iteration order over the student set (`app.py:175`) is not modelled. The model builds the rows
  in an arbitrary order and then sorts them, and the sort fixes the final order.
- The row colour reads the percentage back from the table text (`app.py:258-260`). The model states the
  banding on the percentage itself.
- The summary page is not modelled: its average, pass count and top and bottom lists are rendering.
- Awards.AttendancePicks: among fully present students with equal marks, the model keeps table order
  (rank, then name). The app's `sort_values` on one column does not promise a stable order for ties, so
  the app may name a different student among equally marked ones.
- Awards.JoinComma: its contract states only the empty and single-name cases. For longer lists the names
  are joined with ", " as the body shows.
