# eGrade parent dashboard: grade grouping, averages and colours

The parent dashboard of eGrade shows a child's grades as one card per
subject. Its logic sits in `ParentForm`:

- the grade query reads the rows `(subject, score, comment)` of a result set
  one by one and folds them into an insertion-ordered map (a
  `LinkedHashMap`) from subject name to the list of that subject's grades,
  with `computeIfAbsent(subject, …).add(grade)`;
- each card shows the average of its scores, 0 when there are none;
- each grade badge is coloured by a five-band score ladder and carries the
  grade's comment as its tooltip, or "No comment";
- each subject label is coloured by a case-insensitive table of five subject
  names, with a neutral default.

The Dafny project models these pieces in four modules:

- `Wrappers` (`wrappers.dfy`): `Option`, for the SQL NULL comment.
- `Grades` (`grades.dfy`): the `GradeItem` record, the tooltip and the exact
  average.
- `Style` (`style.dfy`): the grade-band ladder with its RGB colours, and ASCII
  lower-casing with the subject colour table.
- `Grouping` (`grouping.dfy`): the result-set rows. The insertion-ordered map
  is modelled as `SubjectGrades`, a key order plus a `map`. `Add` is one
  `computeIfAbsent(…).add(…)` step. `Grouped` is the map built after reading
  some rows. `FetchGrades` is the row loop itself, a method with a `for`
  loop proved against `Grouped`. Lemmas about `Grouped` state the meaning of
  the result: keys, lists, key order, row count and prefixes.

The map in the source is a local variable of the query method. The model
keeps it as a value that the loop reassigns, and no class is needed.

Map keys are compared exactly, as Java's `String.equals` does: "Math" and
"math" are two groups. Only the label colour ignores case.

The grouping is correct in any row order. The query's `ORDER BY` is the
database's job, and no lemma assumes the rows are sorted.

## Model

| member | source | states |
|---|---|---|
| `Grades.Tooltip` | eGradeSRC/src/ParentForm.java:134 | the tooltip is the comment when present and "No comment" otherwise; it is empty exactly when the comment is present and empty |
| `Grades.Average` | eGradeSRC/src/ParentForm.java:38 | an empty list averages to 0; otherwise average times count equals the sum of the scores (the exact mean) |
| `Grades.ScoreSum` | eGradeSRC/src/ParentForm.java:38 | the stream sum of the scores: 0 for an empty list and the score itself for a single grade |
| `Grades.ScoreSumAppend` | eGradeSRC/src/ParentForm.java:38 | the sum of two lists put together is the sum of their sums, so the order in which the stream accumulates does not matter |
| `Grades.ScoreSumBounds` | eGradeSRC/src/ParentForm.java:38 | a sum of n scores that each lie in [lo, hi] lies in [n·lo, n·hi] |
| `Grades.AverageWithin` | eGradeSRC/src/ParentForm.java:38 | the average of a non-empty list lies within any bounds on its scores, so never outside the range of the scores |
| `Style.GradeBand` | eGradeSRC/src/ParentForm.java:170-182 | every integer score falls in exactly one band, given as ranges: 90 and up, 76..89, 61..75, 51..60, 50 and below |
| `Style.GradeColor` | eGradeSRC/src/ParentForm.java:170-182 | the badge colour is the RGB of a band exactly when the score is in that band's range, so the five colours tell the bands apart |
| `Style.BandColor` | eGradeSRC/src/ParentForm.java:172-180 | each band's badge colour is a valid RGB colour (each component in 0..255) |
| `Style.BandColorsDistinct` | eGradeSRC/src/ParentForm.java:172-180 | two bands share a colour exactly when they are the same band |
| `Style.GradeBandMonotone` | eGradeSRC/src/ParentForm.java:171-180 | a higher score never yields a lower band |
| `Style.GradeBandBoundaries` | eGradeSRC/src/ParentForm.java:171-180 | 90 is green and 89 light green (inclusive at 90); 76/75, 61/60 and 51/50 fall on either side of the strict thresholds 75, 60 and 50 |
| `Style.ToLower` | eGradeSRC/src/ParentForm.java:160 | lower-casing keeps the length and maps every character through ASCII lower-casing |
| `Style.ToLowerMatches` | eGradeSRC/src/ParentForm.java:160 | the lower-cased name equals a lower-case table name exactly when the two agree up to case |
| `Style.Classify` | eGradeSRC/src/ParentForm.java:160-166 | a name selects a known subject exactly when it equals that subject's table name up to case; the default case is taken exactly when it equals none of them |
| `Style.ClassifyByName` | eGradeSRC/src/ParentForm.java:160-166 | the switch selects a known subject exactly when the lower-cased name is that subject's table name |
| `Style.ClassifyIgnoresCase` | eGradeSRC/src/ParentForm.java:159-167 | a name selects a known subject exactly when it equals that subject's name up to case |
| `Style.SubjectColorIgnoresCase` | eGradeSRC/src/ParentForm.java:159-167 | two names equal up to case get the same label colour |
| `Style.SubjectTheme` | eGradeSRC/src/ParentForm.java:161-166 | each subject's label colour is a valid RGB colour |
| `Style.SubjectThemesDistinct` | eGradeSRC/src/ParentForm.java:161-166 | two subjects, the default included, share a label colour exactly when they are the same subject |
| `Style.SubjectColor` | eGradeSRC/src/ParentForm.java:159-167 | the label takes a table subject's colour exactly when the name equals that subject's name up to case, and the neutral default exactly when it equals none of the five |
| `Style.SubjectColorExamples` | eGradeSRC/src/ParentForm.java:159-167 | "MATHEMATICS" and "mathematics" both take the mathematics colour, and "math" takes the default |
| `Grouping.ItemOf` | eGradeSRC/src/ParentForm.java:84 | the grade built from a row keeps the row's score and comment, a NULL comment staying absent |
| `Grouping.Add` | eGradeSRC/src/ParentForm.java:83-84 | one step changes only the current subject's entry: its list gains the grade at the end, or a new one-grade list is created and the subject goes to the end of the key order; other lists and the order are untouched, and consistency is kept |
| `Grouping.Grouped` | eGradeSRC/src/ParentForm.java:64-85 | the map built from any rows is consistent (each key once, order and keys agree, no empty list), and it is empty exactly when there are no rows |
| `Grouping.FetchGrades` | eGradeSRC/src/ParentForm.java:78-85 | the row loop builds `Grouped(rows)`; its keys are the subjects of the rows, each list is that subject's grades in row order, the keys follow first occurrence, and the lists hold as many grades as there were rows |
| `Grouping.FirstIndex` | eGradeSRC/src/ParentForm.java:83 | the position of a subject's first row, or the row count when it has none |
| `Grouping.ItemsOfSnoc` | eGradeSRC/src/ParentForm.java:84 | one more row adds its grade at the end of its own subject's grades and nowhere else |
| `Grouping.GroupedKeys` | eGradeSRC/src/ParentForm.java:83 | the keys of the grouped map are exactly the subjects that occur in the rows |
| `Grouping.GroupedItems` | eGradeSRC/src/ParentForm.java:83-84 | each subject's list is exactly the grades of that subject's rows in input order |
| `Grouping.RowInItems` | eGradeSRC/src/ParentForm.java:84 | the grade of every row is among the grades of that row's subject |
| `Grouping.GroupedPlacesRow` | eGradeSRC/src/ParentForm.java:78-85 | every row appears in the group keyed by its own subject: that subject is a key and the row's grade is in its list |
| `Grouping.GroupedOrder` | eGradeSRC/src/ParentForm.java:64 | the key order is the order in which the subjects first occur in the rows, whatever the row order |
| `Grouping.GroupedOrderStep` | eGradeSRC/src/ParentForm.java:83 | one row keeps the key order sorted by first occurrence |
| `Grouping.GroupedConserves` | eGradeSRC/src/ParentForm.java:78-85 | the lists together hold exactly as many grades as there were rows |
| `Grouping.GroupedPrefix` | eGradeSRC/src/ParentForm.java:87-91 | the map built from a prefix of the rows is a prefix of the final map, key order and lists alike; so a read that fails part way returns the grouping of the rows read so far |
| `Grouping.GroupedExample` | eGradeSRC/src/ParentForm.java:35-40 | rows Math 95, Math 55, Science 100 give keys Math then Science, lists [95, 55] and [100], and averages 75 and 100 |

## Left out

- Swing widget construction is not modelled: the frame, the cards, layout, borders, fonts, sizes, the scroll pane and the upper-case label text (ParentForm.java:16-49, 95-156). It has no checkable behaviour. The colours and tooltips the cards use are modelled.
- The per-badge loop at ParentForm.java:127-138 is not modelled as a loop: it only adds widgets. Its badge colour and tooltip are modelled as `GradeColor` and `Tooltip`.
- JDBC is not modelled: the connection, the prepared statement, the parent id parameter and the SQL text with its `ORDER BY` (ParentForm.java:65-76). The result set is an input: the sequence of rows it delivers. `DatabaseManager` is not part of this model.
- The `SQLException` path (ParentForm.java:87-89) only prints a stack trace. The model covers what it returns: the grouping of the rows read before the failure, which `GroupedPrefix` relates to the full grouping. The printing is I/O and is left out.
- Grades.Average: the source averages in `double` and prints it with `String.format("%.2f", …)` (ParentForm.java:38, 143). The model takes the mean exactly over `real`. It does not model floating-point rounding or the two-decimal formatting.
- Style.ToLower: lower-cases ASCII letters only. Java's `toLowerCase` also maps non-ASCII letters by Unicode rules and the default locale, and the model does not capture that.
- Scores are unbounded integers. The source reads them as 32-bit `int`. Only comparisons and a `double` sum touch them, so no wrap-around occurs.
- Null subject names are not modelled: the source would throw at `toUpperCase` on line 106. Subjects are plain strings.
- TeacherForm.java is not modelled: it is a window with a single label and no logic.
