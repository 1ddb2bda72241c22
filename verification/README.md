# Peer-assessment grade calculator: a Dafny model

This project models the core of a web application that takes a TEAMMATES
peer-evaluation export (a CSV file), reads the course, the session, the
per-criterion summary statistics and the list of students who did not take
part, and turns them into a grade breakdown per student: a PA score (the
student's points relative to an equal share of the team's points), a weighted
mark, an individual mark that blends the weighted mark with the team's group
mark, and a final mark that is reduced by a penalty for students who did not
submit.

The model covers four parts of the server:

- **the export reader** (`parseTeammatesCsv`), in modules `Text`, `Numbers`,
  `Scanner`, `Courses` and `Parser`. It works on the grid of text cells that
  the CSV tokeniser produces. Section anchors are found on the normalised first
  cell of each row (the row's *head*). The reader finds the course row, the
  "Session Name" row, one criterion per "Question N" block with the summary
  table inside it, and the non-submitters table.
- **the grade calculator** (`getGradeBreakdown`, `upsertGroupMark`), in
  modules `Grades`, `Aggregates` and `Collation`. It covers configuration
  defaulting, the PA score, the marks, the sort order, and the group-mark
  clamp. It also gives the meaning of the SQL queries the calculator reads:
  average points per student, and team size as the number of distinct
  recipients.
- **the upload controller's pure parts**, in module `Upload`: the preview
  counts, the required-field check and its message, the grading configuration
  taken from the form, and the 1-based numbering of stored points.
- **the upload route's gate**, in module `UploadGate`: the file-name and MIME
  filter, and the byte sniff that rejects ZIP containers and binary content.

JavaScript numbers are exact `real`s. NaN, and SQL NULL where it appears, is
`None`. `Number(v) || d` is `Numbers.OrDefault`. `Math.round` is
`floor(x + 1/2)`. `toFixed(2)` and MySQL `ROUND(x, 2)` round halves away from
zero (`Numbers.RoundAway2`). Strings are `seq<char>`. Whitespace is the
ECMAScript set, which both `trim` and the regular-expression class `\s` use.

Where the written description of the system and the code disagree, the model
follows the code:

- The reader does not reject an empty session name; only the upload
  controller does. A missing "Session Name" row is an error of the reader.
- The penalty is applied with one rounding, `round(ind - ind * p / 100)`, not
  by rounding the deduction first (`Grades.PenaltyRoundedOnce`).
- The individual mark blends the *unrounded* weighted mark
  (`Grades.IndividualBlendsUnroundedWeighted`).
- A stored PA weight of 0 reads as 10, because `Number(0) || 10` is 10.
- The column-A comma fallback of the course row can never fire: an anchor row
  whose first cell normalises to "course" has no comma
  (`Courses.CourseAnchorHasNoComma`).
- The `break` at the top of the question loop is never taken. The loop only
  ever starts on a question anchor, so it visits exactly the question anchors
  (`Parser.BlocksFollowAnchors`).

## Model

| member | source | states |
|---|---|---|
| Text.Trim | server/src/parser/parseTeammatesCsv.js:9 | the trimmed text has no whitespace at either end, is no longer than the input, and is empty exactly when the input is all whitespace |
| Text.TrimDecompose | server/src/parser/parseTeammatesCsv.js:9 | every string is leading whitespace, then its trimmed text, then trailing whitespace |
| Text.TrimPadded | server/src/parser/parseTeammatesCsv.js:9 | trimming a trimmed string surrounded by whitespace gives that string back |
| Text.TrimKeeps | server/src/parser/parseTeammatesCsv.js:9 | trimming never removes a character that is not whitespace |
| Text.Norm | server/src/parser/parseTeammatesCsv.js:11 | a normalised cell is trimmed, has no upper-case letter, and every whitespace character in it is a single plain space followed by a character that is not whitespace |
| Text.NormKeeps | server/src/parser/parseTeammatesCsv.js:11 | normalising keeps every character that is neither whitespace nor an upper-case letter |
| Text.NormBlank | server/src/parser/parseTeammatesCsv.js:11 | a cell holding only whitespace normalises to the empty string |
| Text.NormIgnoresPadding | server/src/parser/parseTeammatesCsv.js:102 | normalising the raw first cell gives the same text as normalising the trimmed one, so the data loop's test agrees with the row's head |
| Text.CollapseSpaces | server/src/parser/parseTeammatesCsv.js:11 | a non-empty whitespace run collapses to a single space |
| Text.CollapseAppend | server/src/parser/parseTeammatesCsv.js:11 | collapsing whitespace runs splits at a boundary that follows a non-space character |
| Text.CollapseShape | server/src/parser/parseTeammatesCsv.js:11 | collapsing leaves only single plain spaces, introduces no upper-case letter, and keeps a leading character that is not whitespace |
| Text.SplitOn | server/src/parser/parseTeammatesCsv.js:32 | splitting gives at least one piece, and no piece contains a separator |
| Text.JoinSplit | server/src/parser/parseTeammatesCsv.js:32 | joining the pieces of a split with the separator gives the text back |
| Text.FindIgnoringCase | server/src/parser/parseTeammatesCsv.js:79 | the first position where the word occurs, ignoring case; the length of the text when it never occurs |
| Text.RemoveFirstIgnoringCase | server/src/parser/parseTeammatesCsv.js:79 | with no match the text is unchanged; otherwise the text before the first match is kept and the text after it follows directly, so exactly the matched characters are removed |
| Text.RemoveFirstAtStart | server/src/parser/parseTeammatesCsv.js:79 | a text that starts with the word, in any case, loses exactly that prefix |
| Text.RemoveFirstAbsent | server/src/parser/parseTeammatesCsv.js:79 | a text with no character that folds to the target has nothing removed |
| Numbers.ParseDecimal | server/src/parser/parseTeammatesCsv.js:68 | empty text is not a number and a run of digits reads as its decimal value; `Numbers.ParseDecimalAccepts` and `Numbers.ParseDecimalReadsBack` give the rest |
| Numbers.ToNumber | server/src/parser/parseTeammatesCsv.js:68 | text that is all whitespace reads as 0; other text is a number exactly when its trimmed form is decimal notation, and then has that value |
| Numbers.ParsePrinted | server/src/parser/parseTeammatesCsv.js:68 | reading back the decimal printing of a natural number gives the number |
| Numbers.ParseDecimalAccepts | server/src/parser/parseTeammatesCsv.js:68 | `Number` accepts a trimmed text exactly when it is decimal notation: an optional sign, digits with at most one point, and at least one digit |
| Numbers.ParseDecimalReadsBack | server/src/parser/parseTeammatesCsv.js:68 | a sign, whole digits, a point and fraction digits (one of the two runs may be empty) read as the signed value of the whole and fraction digits |
| Numbers.ParseIntegerReadsBack | server/src/parser/parseTeammatesCsv.js:68 | a sign followed by digits reads as the signed value of the digits |
| Numbers.NumberOrZero | server/src/parser/parseTeammatesCsv.js:79 | `Number(text) \|\| 0` is 0 for text that is not decimal notation, and otherwise the value of the trimmed text |
| Numbers.OrDefault | server/src/controllers/grades.controller.js:75-77 | a NaN or zero value gives way to the default, and any other value is kept |
| Numbers.Clamp | server/src/controllers/grades.controller.js:80 | the result lies within the bounds: the lower bound below it, the upper bound above it, and the input itself in between |
| Numbers.Round0 | server/src/controllers/grades.controller.js:4 | the result is the integer within half a unit of the input, halves going up |
| Numbers.Round0Whole | server/src/controllers/grades.controller.js:148 | a whole number is its own rounding |
| Numbers.Round0Monotone | server/src/controllers/grades.controller.js:4 | rounding preserves order |
| Numbers.Round2 | server/src/controllers/grades.controller.js:5 | the result has at most two decimals and is within half a cent of the input |
| Numbers.Round2Idempotent | server/src/controllers/grades.controller.js:5 | rounding to cents twice is rounding once |
| Numbers.RoundAway2 | server/src/controllers/grades.controller.js:146-147 | two decimals, within half a cent, and equal to the cent rounding for non-negative values |
| Numbers.RoundAway2Cents | server/src/controllers/grades.controller.js:147 | a value that already has two decimals is printed unchanged |
| Numbers.RoundAway2Symmetric | server/src/controllers/grades.controller.js:146 | the rounding is symmetric about zero |
| Scanner.Cell | server/src/parser/parseTeammatesCsv.js:9 | a cell read by `get` has no surrounding whitespace |
| Scanner.CellEmpty | server/src/parser/parseTeammatesCsv.js:9-10 | `get` is empty exactly when the cell is missing or only whitespace, which is the test `isBlankRow` applies to every cell |
| Scanner.Heads | server/src/parser/parseTeammatesCsv.js:15 | there is one head per row, and it is the normalised first cell |
| Scanner.DropColon | server/src/parser/parseTeammatesCsv.js:15 | the text is unchanged, or it loses exactly one trailing colon |
| Scanner.AnchorHasText | server/src/parser/parseTeammatesCsv.js:94 | an anchor row is neither blank nor has a blank first cell |
| Scanner.Seek | server/src/parser/parseTeammatesCsv.js:56 | the cursor stops on the first anchor of the kind at or after the start, or at the limit when there is none, and skips no anchor |
| Scanner.AnchorRows | server/src/parser/parseTeammatesCsv.js:84 | the listed rows are anchors of the kind, strictly increasing, and include every such anchor from the start row |
| Scanner.AnchorRowsFromSeek | server/src/parser/parseTeammatesCsv.js:62 | seeking forward loses no anchor: the anchors from the start are those from where the seek lands |
| Scanner.SkipUnlabelled | server/src/parser/parseTeammatesCsv.js:94 | the header search passes only blank rows and rows with an empty first cell, and stops on the first row that is neither |
| Scanner.SkipBlank | server/src/parser/parseTeammatesCsv.js:134 | the search passes only blank rows and stops on the first non-blank one |
| Scanner.SkipUnlabelledStopsAtText | server/src/parser/parseTeammatesCsv.js:94 | the header search never passes a row whose first cell has text |
| Courses.DashPieces | server/src/parser/parseTeammatesCsv.js:26 | splitting at dashes gives at least one piece, each trimmed and dash-free |
| Courses.SplitCombined | server/src/parser/parseTeammatesCsv.js:26-29 | code, title and term are trimmed, and code and title hold no dash (the pieces from the third on are pinned by `Courses.DashJoinRoundTrip`) |
| Courses.SplitCommas | server/src/parser/parseTeammatesCsv.js:31-36 | code and title are trimmed and hold no comma, and a text without a comma becomes the trimmed text as code (every piece, the term included, is pinned by `Courses.SplitCommasJoin`) |
| Courses.CourseFromCells | server/src/parser/parseTeammatesCsv.js:20-52 | a non-empty column B is split at its dashes; when that leaves no code and B holds a comma, B is split at its commas instead; with B empty, C and D become title and term; with all three empty the course is blank |
| Courses.CombinedSplitOn | server/src/parser/parseTeammatesCsv.js:26 | "CODE - Title - Term" splits at its two dashes into three pieces |
| Courses.CombinedPieces | server/src/parser/parseTeammatesCsv.js:26-29 | the trimmed pieces of "CODE - Title - Term" are the three fields |
| Courses.CombinedSplit | server/src/parser/parseTeammatesCsv.js:26-29 | splitting "CODE - Title - Term" gives back the three fields |
| Courses.CombinedRoundTrip | server/src/parser/parseTeammatesCsv.js:18-36 | the usual export, "CODE - Title - Term" in column B, is read back field for field |
| Courses.CourseAnchorHasNoComma | server/src/parser/parseTeammatesCsv.js:42-52 | the first cell of a "Course" anchor has no comma, so the column-A fallback finds nothing after a comma |
| Courses.EmptyColumnB | server/src/parser/parseTeammatesCsv.js:37-41 | with column B empty, title and term come from columns C and D and the code stays empty |
| Courses.CommaRoundTrip | server/src/parser/parseTeammatesCsv.js:31-36 | "CODE, Title, Term" with trimmed, comma-free fields is read back field for field by the comma split |
| Courses.SplitCommasJoin | server/src/parser/parseTeammatesCsv.js:32-35 | any comma-joined list of comma-free pieces splits into its pieces trimmed: the first two are code and title, and all the later ones are joined with " - " into the term |
| Courses.CommaJoinRoundTrip | server/src/parser/parseTeammatesCsv.js:32-35 | any number of trimmed, comma-free fields joined with ", " are read back: first as code, second as title, the rest joined with " - " as the term |
| Courses.DashJoinRoundTrip | server/src/parser/parseTeammatesCsv.js:26-29 | any number of trimmed, dash-free fields joined with " - " are read back: first as code, second as title, the rest rejoined with " - " and trimmed as the term |
| Courses.DashedTermRejoined | server/src/parser/parseTeammatesCsv.js:26-29 | a term that itself holds a dash, as in "CS101 - Intro - 2024 - 25", is split there and comes back as "2024 - 25" |
| Courses.LeadingDashFallsBack | server/src/parser/parseTeammatesCsv.js:24-36 | a column B that opens with a dash leaves no code, so when it holds a comma the comma split decides the course |
| Courses.DashTitleCommaTerm | server/src/parser/parseTeammatesCsv.js:24-36 | "- Title, Term" in column B is read by the comma split: code "- Title", title "Term", no term |
| Parser.ToInt | server/src/parser/parseTeammatesCsv.js:65-70 | blank text and "no response", in any case and with any padding, are absent; other text is present exactly when its trimmed form is decimal notation, and then holds that number |
| Parser.LowerCasedNumber | server/src/parser/parseTeammatesCsv.js:66-68 | the blank and "no response" markers are not numbers, and lower-casing neither makes nor unmakes decimal notation nor changes its value |
| Parser.ToIntReadsNumber | server/src/parser/parseTeammatesCsv.js:65-70 | a score printed as a whole number with any padding reads back as that number |
| Parser.ReadAverage | server/src/parser/parseTeammatesCsv.js:109 | an empty cell gives no average; a non-empty cell that is only whitespace gives 0; any other cell gives an average exactly when its trimmed text is decimal notation, and then that number, and is not a number otherwise |
| Parser.AveragePrinted | server/src/parser/parseTeammatesCsv.js:109 | a whole number printed in the average column reads back as that average |
| Parser.DropTrailingAbsent | server/src/parser/parseTeammatesCsv.js:113 | the result is a prefix of the scores, ends with a present score or is empty, and only absent scores were dropped |
| Parser.DropTrailingAbsentPadding | server/src/parser/parseTeammatesCsv.js:111-113 | absent scores appended at the end make no difference |
| Parser.ReadScores | server/src/parser/parseTeammatesCsv.js:111-113 | score k is `toInt` of cell 5 + k, every cell after the last kept score is absent, and the last kept score is present |
| Parser.ReadSummaryRow | server/src/parser/parseTeammatesCsv.js:105-112 | team and recipient are the trimmed cells 0 and 1; the email is absent exactly when cell 2 is blank, and otherwise is that cell trimmed; the total is cell 3 read by the score reader, 0 when that gives nothing; the average is cell 4 read as an average; the points are the row's scores |
| Parser.SummaryRowReadsPrinted | server/src/parser/parseTeammatesCsv.js:105-113 | a summary line written with trimmed names, an e-mail and whole-number total, average and scores reads back as exactly those values |
| Parser.ScoresReadBack | server/src/parser/parseTeammatesCsv.js:111-113 | score cells that all hold printed whole numbers are read back in full and in order, none dropped |
| Parser.ToIntPrinted | server/src/parser/parseTeammatesCsv.js:65-70 | a whole number printed alone in a cell reads back as that number |
| Parser.HeadIsRowNorm | server/src/parser/parseTeammatesCsv.js:102 | the data loop's normalised first cell is the row's head |
| Parser.BlockEnd | server/src/parser/parseTeammatesCsv.js:100-103 | the data rows run up to the first blank row, repeated header or question anchor, and no earlier row ends them |
| Parser.KeepNamed | server/src/parser/parseTeammatesCsv.js:115-116 | the kept rows are the rows that name a team or a recipient, all of them and nothing else; `Parser.KeepNamedAppend` fixes their order and multiplicity |
| Parser.KeepNamedAppend | server/src/parser/parseTeammatesCsv.js:115-116 | keeping the named rows of two runs keeps those of each run, in order, so every named row is kept once and in place |
| Parser.ReadDataRows | server/src/parser/parseTeammatesCsv.js:99-119 | every kept row is a read row that names a team or a recipient, and every such read row is kept; `Parser.ReadDataRowsAppend` fixes their order and multiplicity |
| Parser.ReadDataRowsAppend | server/src/parser/parseTeammatesCsv.js:99-119 | reading two runs of data rows gives the rows of the first run, then those of the second |
| Parser.ReadDataRowsOne | server/src/parser/parseTeammatesCsv.js:105-117 | a single data row yields its summary row when it names a team or a recipient, and nothing otherwise |
| Parser.QuestionNumberReadsPrinted | server/src/parser/parseTeammatesCsv.js:78-79 | "Question N", with the word in any case, reads back as N |
| Parser.QuestionNumber | server/src/parser/parseTeammatesCsv.js:78-79 | the number is 0 when the text after "question" and ":" is not decimal notation, and otherwise its value |
| Parser.DigitsReadBack | server/src/parser/parseTeammatesCsv.js:79 | printed digits after a space, trimmed, cut at the first comma and read, give the number back |
| Parser.SummarySpan | server/src/parser/parseTeammatesCsv.js:86-99 | a summary table found for a question lies after the question's row |
| Parser.SpanAfterTitle | server/src/parser/parseTeammatesCsv.js:93-99 | a table is found exactly when the first row after the title with text in its first cell is the team/recipient header, and its rows start just below that header |
| Parser.SummaryStats | server/src/parser/parseTeammatesCsv.js:91-121 | with no summary table there are no summary rows; otherwise they are exactly the named rows read from the table's span, in order, so every one names a team or a recipient and there are no more of them than the span has rows |
| Parser.ReadCriterion | server/src/parser/parseTeammatesCsv.js:76-122 | the number is the question number read from the trimmed first cell of the question row, the label is its trimmed second cell, and the summary rows are the block's summary statistics |
| Parser.CriterionReadsPrinted | server/src/parser/parseTeammatesCsv.js:76-79 | a question row "Question N" (any case) with a trimmed label gives a criterion numbered N with that label |
| Parser.Blocks | server/src/parser/parseTeammatesCsv.js:72-124 | every block is a non-empty range of rows inside the grid, starting at or after the loop's first row |
| Parser.ReadBlocks | server/src/parser/parseTeammatesCsv.js:122 | criterion k is read from block k, one per block |
| Parser.ReadNonSubmission | server/src/parser/parseTeammatesCsv.js:141-143 | team and name are the trimmed cells 0 and 1, and the email is absent exactly when cell 2 is blank, and otherwise is that cell trimmed |
| Parser.NonSubmissionReadsPrinted | server/src/parser/parseTeammatesCsv.js:141-143 | a participant line with trimmed team, name and e-mail reads back as those values, an empty e-mail as absent |
| Parser.RunEnd | server/src/parser/parseTeammatesCsv.js:139 | the first blank row at or after the start, passing only non-blank rows; the end of the grid counts as blank |
| Parser.RecordsUntilBlank | server/src/parser/parseTeammatesCsv.js:139-146 | one record per row from the start up to the first blank row, record k being row start + k read |
| Parser.KeepRecords | server/src/parser/parseTeammatesCsv.js:144 | the kept records are those with a team, a name or an email, all of them and nothing else; `Parser.KeepRecordsAppend` fixes their order and multiplicity |
| Parser.KeepRecordsAppend | server/src/parser/parseTeammatesCsv.js:144 | keeping the non-empty records of two runs keeps those of each run, in order |
| Parser.NonSubmissionRows | server/src/parser/parseTeammatesCsv.js:138-146 | no kept record is empty, and every non-empty record of a row before the first blank row is kept; `Parser.NonSubmissionRowsStep` fixes their order and multiplicity |
| Parser.NonSubmissionRowsStep | server/src/parser/parseTeammatesCsv.js:139-146 | the run ends at a blank row; otherwise it is the first row's record when not empty, followed by the run from the next row |
| Parser.NonSubmitters | server/src/parser/parseTeammatesCsv.js:127-148 | with no title row there are no non-submitters, and no listed record is empty |
| Parser.NonSubmittersAt | server/src/parser/parseTeammatesCsv.js:127-148 | under the first title row, searched from the top, the records run from below the first non-blank row when it is the team/name header, and there are none otherwise |
| Parser.NonSubmittersWithoutHeader | server/src/parser/parseTeammatesCsv.js:135-137 | a title whose next non-blank row is not the team/name header gives no non-submitters |
| Parser.Document | server/src/parser/parseTeammatesCsv.js:151 | the session name is trimmed |
| Parser.ErrorMessage | server/src/parser/parseTeammatesCsv.js:16 | the missing-course error reads exactly `CSV does not contain a "Course" row` and the missing-session error exactly `CSV does not contain a "Session Name" row` (line 57); only the first ends in the "Course" row |
| Parser.ErrorMessageNamesError | server/src/parser/parseTeammatesCsv.js:16-57 | the two errors have different messages, so the message tells which anchor was missing |
| Parser.Parse | server/src/parser/parseTeammatesCsv.js:6-152 | the reader fails for a missing course exactly when no row is a "Course" anchor, and a read session name is trimmed |
| Parser.ParseAfterCourse | server/src/parser/parseTeammatesCsv.js:55-58 | after the course row the only possible error is the missing session name |
| Parser.ParseHeads | server/src/parser/parseTeammatesCsv.js:14-16 | the missing-course error happens exactly when no row is a "Course" anchor |
| Parser.FirstAnchorSeek | server/src/parser/parseTeammatesCsv.js:15 | the seek lands on the first anchor |
| Parser.BlocksFollowAnchors | server/src/parser/parseTeammatesCsv.js:72-124 | the question loop visits exactly the question anchors, in order, each block ending at the next anchor |
| Parser.ParseAt | server/src/parser/parseTeammatesCsv.js:14-58 | when the course and session seeks land on rows c and s, the reader succeeds with what those rows hold |
| Parser.CriteriaAfter | server/src/parser/parseTeammatesCsv.js:61-62 | the criteria are read from the question anchors after the session row |
| Parser.ParseFinds | server/src/parser/parseTeammatesCsv.js:14-151 | with a course row and a later session row the reader succeeds; the course comes from the course row's cells, the session name from cell B, and one criterion from every question anchor after the session row, and the non-submitters from `Parser.NonSubmitters` |
| Parser.ParseMissingSession | server/src/parser/parseTeammatesCsv.js:55-57 | a course row with no "Session Name" row after it gives the session-name error |
| Parser.BlockEndBeforeQuestion | server/src/parser/parseTeammatesCsv.js:103 | data rows end at the next question anchor at the latest |
| Parser.QuestionIsNoHeader | server/src/parser/parseTeammatesCsv.js:97 | a question anchor is never taken for the team/recipient header |
| Parser.NoHeaderAtQuestion | server/src/parser/parseTeammatesCsv.js:94-98 | when the header search reaches the next question, the criterion has no summary table |
| Parser.HeaderBeforeQuestion | server/src/parser/parseTeammatesCsv.js:94-103 | a header found before the next question has its data rows end there at the latest |
| Parser.SpanBeforeQuestion | server/src/parser/parseTeammatesCsv.js:93-103 | the rows read after a summary title stop before the next question anchor |
| Parser.SummarySpanInBlock | server/src/parser/parseTeammatesCsv.js:86-103 | the summary span lies inside the criterion's own block, after the question row and the summary title, and the criterion's summary rows are the rows of that span read; with no span there are none |
| Parser.NoSummaryTitle | server/src/parser/parseTeammatesCsv.js:86-92 | a block with no "summary statistics" row has no summary rows |
| Parser.SummaryUnderTitle | server/src/parser/parseTeammatesCsv.js:87-99 | the summary table is the one under the block's first "summary statistics" row |
| Parser.SpanUnderTitle | server/src/parser/parseTeammatesCsv.js:93-100 | after the first summary title, the span is the rows under the first labelled row up to the end of their block when that row is the team/recipient header, and there is none otherwise |
| Aggregates.PointsCount | server/src/controllers/grades.controller.js:35 | no more points are counted than there are |
| Aggregates.RowMean | server/src/controllers/grades.controller.js:47 | a row with no present points has mean 0; otherwise mean times count is the sum |
| Aggregates.PointsAppend | server/src/controllers/grades.controller.js:34-35 | the sum and the count of points add up over a concatenation |
| Aggregates.AbsentPointIgnored | server/src/controllers/grades.controller.js:34-35 | a NULL point, wherever it sits, changes neither sum, count nor mean |
| Aggregates.MeanWithin | server/src/controllers/grades.controller.js:47 | the mean of points within a range lies within that range |
| Aggregates.AveragePoints | server/src/controllers/grades.controller.js:47 | a student's average points have two decimals, lie within half a cent of the sum of per-row means, and are 0 without rows |
| Aggregates.MeanSumWithin | server/src/controllers/grades.controller.js:47 | with points within 0..hi, the sum of a student's means lies within 0 and hi times the student's rows |
| Aggregates.AverageNonNegative | server/src/controllers/grades.controller.js:47 | with non-negative points, average points and the PA score are never negative |
| Aggregates.Groups | server/src/controllers/grades.controller.js:49 | the groups are the distinct (team, student) pairs, each once, by exact string equality |
| Aggregates.AverageRows | server/src/controllers/grades.controller.js:43-50 | one aggregate row per group, carrying that student's average points |
| Aggregates.AverageRowsCoverStudents | server/src/controllers/grades.controller.js:27-50 | every student with a summary row has an aggregate row, every aggregate row has summary rows, and no student appears twice |
| Aggregates.TeamSizes | server/src/controllers/grades.controller.js:88-96 | the map has an entry exactly for the teams with summary rows, holding the number of distinct recipients by exact string equality |
| Aggregates.TeamSizePositive | server/src/controllers/grades.controller.js:88 | a team's size is positive exactly when it has a summary row |
| Aggregates.TeamSizeAppend | server/src/controllers/grades.controller.js:88 | a further summary row adds one to its team's size exactly when its recipient is new to the team |
| Aggregates.RecipientsAppend | server/src/controllers/grades.controller.js:88 | a further summary row adds its recipient to its own team's recipients and to no other team's |
| Aggregates.TeamsHaveSizes | server/src/controllers/grades.controller.js:123 | every team in the aggregate rows has a team size of at least one |
| Aggregates.KeyInjective | server/src/controllers/grades.controller.js:84 | with no `\|` in team names, the `team\|\|student` key determines the team and the student |
| Aggregates.AverageRowsDistinctKeys | server/src/controllers/grades.controller.js:84 | with such team names, the aggregate rows have distinct keys |
| Aggregates.CalculatorSeesAverage | server/src/controllers/grades.controller.js:121-122 | for every stored row, the calculator finds that student's average points under the student's key |
| Grades.LoadConfig | server/src/controllers/grades.controller.js:65-78 | without a row the defaults are 10, 0 and 0; a missing or zero PA weight becomes 10; a missing penalty or criterion count becomes 0 |
| Grades.PaFraction | server/src/controllers/grades.controller.js:80 | the PA weight as a fraction in 0..1: 0 at or below 0, 1 at or above 100, and the weight over 100 in between |
| Grades.PaScore | server/src/controllers/grades.controller.js:127-131 | with no criteria or no team the score is exactly 1; otherwise it is within half a cent of points times team size over 100 times criteria; it has two decimals and is non-negative for non-negative points |
| Grades.Penalised | server/src/controllers/grades.controller.js:137-140 | the final mark lies between 0 and the individual mark, equals it when the penalty is 0 or less, is 0 at 100 or more, and is within half a unit of the reduced mark |
| Grades.AverageOf | server/src/controllers/grades.controller.js:84 | a key that belongs to no aggregate row reads 0 |
| Grades.AverageOfDistinct | server/src/controllers/grades.controller.js:121-122 | with distinct keys, the lookup of a row's key finds that row's average |
| Grades.ComputeRow | server/src/controllers/grades.controller.js:119-153 | the row keeps team and student and is flagged exactly when its key is listed; the average and the PA score are the looked-up average in cents and `Grades.PaScore` of it; weighted and individual marks are `Grades.Marks` of the group mark, PA score and PA fraction; a flagged row's final mark is `Grades.Penalised` of the individual mark and an unflagged one's is the individual mark; a team without a group mark has a null group mark and zero marks |
| Grades.Marks | server/src/controllers/grades.controller.js:133-135 | the weighted mark is the group mark times the PA score, rounded; the individual mark rounds the blend of the unrounded weighted mark and the group mark by the PA fraction |
| Grades.RowLeTotal | server/src/controllers/grades.controller.js:156 | any two rows are ordered one way or the other |
| Grades.RowLeTransitive | server/src/controllers/grades.controller.js:156 | the order by team, then student, is transitive |
| Grades.Insert | server/src/controllers/grades.controller.js:156 | inserting into sorted rows keeps them sorted and adds exactly that row |
| Grades.SortRows | server/src/controllers/grades.controller.js:156 | the result is sorted by team, then student, and is a permutation of the input |
| Grades.Unsorted | server/src/controllers/grades.controller.js:119-154 | one computed row per aggregate row, in input order |
| Grades.Breakdown | server/src/controllers/grades.controller.js:119-156 | one row per aggregate row, sorted by team then student, a permutation of the computed rows |
| Grades.BreakdownCoversAverages | server/src/controllers/grades.controller.js:119-156 | every breakdown row is computed from some aggregate row, and every aggregate row's computed row is in the breakdown |
| Grades.PaScoreIndependentOfMarks | server/src/controllers/grades.controller.js:127-131 | the PA score does not depend on group marks, penalty, PA weight or the non-submitter list |
| Grades.ExampleA | server/src/controllers/grades.controller.js:127-140 | average 132, team of 4, 4 criteria, group mark 80, PA weight 40% give PA 1.32, weighted 106, individual 90 |
| Grades.ExampleB | server/src/controllers/grades.controller.js:127-140 | average 86.5, team of 5, 4 criteria, group mark 91, PA 30% and a 10% penalty give PA 1.08, weighted 98, individual 93, final 84 |
| Grades.PenaltyRoundedOnce | server/src/controllers/grades.controller.js:138-140 | 95 with a 10% penalty gives 86; rounding the deduction first would give 85 |
| Grades.IndividualBlendsUnroundedWeighted | server/src/controllers/grades.controller.js:133-135 | group mark 50, PA 1.01 and weight 50% give individual 50, where blending the rounded weighted mark would give 51 |
| Grades.SaveGroupMark | server/src/controllers/grades.controller.js:171-175 | accepted exactly when the team is non-empty and the mark numeric; the team is trimmed; the saved mark is the rounded input clamped to 0..100, so 0 below 0 and 100 from 100 up |
| Grades.SavedGroupMarkStable | server/src/controllers/grades.controller.js:148 | saving a saved mark again changes nothing, and the breakdown shows it unchanged |
| Collation.StrLeTotal | server/src/controllers/grades.controller.js:156 | any two strings are comparable |
| Collation.StrLeTransitive | server/src/controllers/grades.controller.js:156 | the string order is transitive |
| Collation.StrLeAntisymmetric | server/src/controllers/grades.controller.js:156 | strings that sort no later than each other are equal |
| Upload.CountOf | server/src/controllers/upload.controller.js:10-13 | the question number falls back from `questionNo` to `idx` to the 1-based position; the row count is the summary list's length, or 0 |
| Upload.CountsOf | server/src/controllers/upload.controller.js:6-17 | one entry per criterion, in order, and none without a criteria list |
| Upload.ComputeCounts | server/src/controllers/upload.controller.js:6-17 | the push loop, with the list's length as the fallback number, builds exactly that list |
| Upload.ParsedCounts | server/src/controllers/upload.controller.js:10-13 | for a parsed document each entry is the question's number and its number of summary rows |
| Upload.PreviewCountsStoredRows | server/src/controllers/upload.controller.js:132-145 | the preview counts add up to the number of summary rows that saving stores |
| Upload.MissingFields | server/src/controllers/upload.controller.js:33-37 | exactly the empty required fields, each once, in the order code, title, session name |
| Upload.MissingMessage | server/src/controllers/upload.controller.js:41 | the message starts with "CSV is missing required fields: " and is exactly that prefix when nothing is missing |
| Upload.CheckUpload | server/src/controllers/upload.controller.js:28-43 | a parse error is reported with its message; a parsed document is accepted exactly when code, title and session name are non-empty, and is otherwise rejected with the message naming the missing fields |
| Upload.MessageListsMissing | server/src/controllers/upload.controller.js:41 | reading the list back out of the message gives the names of exactly the missing fields, in order |
| Upload.AllMissingMessage | server/src/controllers/upload.controller.js:33-42 | a document missing all three fields is rejected with all three names, in order |
| Upload.Preview | server/src/controllers/upload.controller.js:28-47 | a parse error is answered with its message; a document missing required fields with the listing message; a preview that succeeds is the per-question counts of a parsed document with every required field |
| Upload.UploadConfig | server/src/controllers/upload.controller.js:51-55 | PA weight defaults to 10, criteria to the parsed count and penalty to 0; a value read as zero or NaN takes the fallback |
| Upload.ConfigRoundTrip | server/src/controllers/upload.controller.js:170-177 | the calculator reads back exactly the configuration the upload saved |
| Upload.EmptyFormDefaults | server/src/controllers/upload.controller.js:51-55 | an empty form gives weight 10, penalty 0 and one criterion per parsed question |
| Upload.PointRecords | server/src/controllers/upload.controller.js:148-149 | one record per point |
| Upload.PointIndexRoundTrip | server/src/controllers/upload.controller.js:148-149 | index k holds the k-th point, for k from 1 to the number of points, and no other index is stored |
| Upload.NoIndexZero | server/src/controllers/upload.controller.js:149 | nothing is stored under index 0 |
| Upload.LastStoredPointPresent | server/src/controllers/upload.controller.js:148-149 | the highest stored index of a parsed row never holds NULL |
| UploadGate.NameLooksCsvChars | server/src/routes/upload.routes.js:20 | the name test holds exactly when the name ends in a dot followed by c, s, v in either case |
| UploadGate.InnerCsvNotEnough | server/src/routes/upload.routes.js:20 | "data.csv.xlsx" fails the name test and "Report.CSV" passes |
| UploadGate.Sample | server/src/routes/upload.routes.js:45 | the sample is a prefix of at most 2048 bytes, the whole buffer when it is shorter |
| UploadGate.NonText | server/src/routes/upload.routes.js:46-57 | no more bytes are counted than the sample holds |
| UploadGate.NonTextPrefix | server/src/routes/upload.routes.js:56 | a prefix has no more non-text bytes than the whole, which justifies the early exit |
| UploadGate.ContentVerdict | server/src/routes/upload.routes.js:38-62 | the content check either passes the file on or answers 415 |
| UploadGate.SniffContent | server/src/routes/upload.routes.js:33-63 | the counting loop with its early exit gives the verdict: ZIP first, then more than 16 non-text bytes in the sample |
| UploadGate.Gate | server/src/routes/upload.routes.js:19-62 | no file gives 400; a file failing the name and type filter gives 415; a file passing the filter gets exactly the content verdict |
| UploadGate.ZipRejectedWhateverFollows | server/src/routes/upload.routes.js:38-41 | a ZIP signature is rejected whatever follows |
| UploadGate.OnlySampleMatters | server/src/routes/upload.routes.js:45 | bytes after the first 2048 never change the verdict |
| UploadGate.SmallFilesPass | server/src/routes/upload.routes.js:45-60 | a file of at most 16 bytes is rejected only for a ZIP signature, so one under 4 bytes always passes |
| UploadGate.TextPasses | server/src/routes/upload.routes.js:47-54 | a file of text bytes only is passed on, however long |
| UploadGate.SeventeenBinaryBytesReject | server/src/routes/upload.routes.js:55-60 | seventeen non-text bytes at the start reject the file, whatever follows |

## Left out

- CSV tokenising (`csv-parse`) is not modelled. The reader starts from the grid of cells, and an absent cell is the empty string.
- The database is not modelled: the queries, transactions, inserts and owner-guard joins. The calculator receives what the queries return as arguments. `Aggregates` states what the fallback aggregate query and the team-size query compute, comparing names by exact string equality (see the `Aggregates.Groups` and `Aggregates.TeamSizes` lines below). The view `v_avg_points_sum_of_per_criterion_avgs` is taken to compute the same.
- The `criteria` insert's `ON DUPLICATE KEY` merge of two questions with the same number is not modelled. Nor is the later per-question count query of a full (non-preview) upload.
- The HTTP layer is not modelled: authentication (401), the `preview` flag, `sessionId` validation, the 404 for a session that is not owned, the 500 responses, the error-handler mapping of multer errors, and the `try`/`catch` around the upload. `Upload.CheckUpload` stands for the 400 answers of the controller.
- The multer limits (5 MiB, one file) are not modelled; they need the byte size of the request.
- Aggregates.Groups: groups by exact string equality of team and student. MySQL's `GROUP BY` follows the columns' collation, which may ignore case and trailing spaces, so "Alice" and "alice" can be one group there; the schema's collation is not part of this model. The groups are listed in first-appearance order rather than by `ORDER BY team, student`; the breakdown sorts its rows itself.
- Aggregates.TeamSizes: counts distinct recipients by exact string equality. `COUNT(DISTINCT recipient)` and `GROUP BY team` follow the columns' collation in MySQL, so recipients or teams differing only in case can count as one there.
- Numbers.ParseDecimal: reads decimal notation only. JavaScript's hexadecimal, binary, octal and exponent forms, and "Infinity", are read as NaN here.
- Text.Lower: folds ASCII letters only; JavaScript's `toLowerCase` also folds the rest of Unicode.
- Collation.StrLe: orders strings by code point. `localeCompare` follows the runtime's locale rules, which this model does not know.
- Grades.Breakdown: states a sorted permutation. It does not state where rows with equal team and student end up; the stable sort keeps them in input order. Such rows do not arise, because the aggregate rows have distinct students (`Aggregates.AverageRowsCoverStudents`).
- Aggregates.AveragePoints: MySQL's decimal division `sum_points / num_idx` is taken as exact. MySQL keeps a fixed number of decimals there before `ROUND(…, 2)`.
- Aggregates.CalculatorSeesAverage: requires that team names contain no `|`. Otherwise two students can share a `team||student` key, and the later one's average is read for both.
- The split of the course cell with the regular expression `\s*[-–—]\s*` is modelled as a split at the dash characters followed by trimming each piece. The two agree on a trimmed cell because `\s` and `trim` use the same whitespace set; the argument is not proved.
- Upload.ComputeCounts: a question number parsed from "Infinity" would be infinite and take the `idx` fallback; infinite numbers are not modelled.
