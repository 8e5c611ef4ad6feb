# Teacher dashboard grading analytics, in Dafny

This project models the analytics core of a teacher dashboard for written
science answers. Each submission row holds a `student_id`, a `created_at`
time and, per question i = 1..3, an `answer_i` and an AI `feedback_i`. A
feedback's verdict is its leading marker: `O` means correct, anything else
needs work. The model then proves what the page computes from such a table.

Modules, one per stage of the page:

- `Wrappers` holds `Option` and `Result`. `Result.KeyError(missing)` stands for the pandas `KeyError` raised when a step names a column the table lacks. `Result.ValueError` stands for a `ValueError`: the one `strftime` raises on a missing timestamp (NaT), or the one `melt` raises when the table already has a column named "Status".
- `Frames` is a value model of the pandas DataFrames involved: ordered column names, columns by name, a row count. `WithColumn` models `df[name] = values` and `Select` models row selection. The class `DataFrame` is the mutable object: `Copy` is `df.copy()` and `SetColumn` assigns a column in place.
- `Grading` covers the grading-status classifier:
  - `StatusOf` labels one feedback cell. It models `str(x).strip().startswith("O")`, with whitespace as Python's `str.isspace`.
  - `ProcessGradingStatus` is the imperative loop over a copy of the frame.
  - `Classify` is its specification, and the lemmas are about `Classify`.
- `Reshape` covers the wide-to-long melt behind the per-question chart, the relabelling with the three fixed question labels, and the per-(question, status) tallies the grouped histogram draws.
- `Summary` covers the three headline metrics:
  - distinct students (`nunique`, which does not count missing ids);
  - number of submissions;
  - the first row's `created_at`.
- `DrillDown` covers the drill-down section:
  - the option list, which is the "전체 보기" (show all) sentinel followed by `unique()` of the ids;
  - the exact per-student filter;
  - the all-submissions table;
  - the per-row expanders, which format each selected row's time and read its answers, statuses and feedbacks;
  - the green/red colour of a feedback.
- `Dashboard.View` is the whole page for a loaded table and the select box's entry. It shows a no-data notice for an empty table. Otherwise it shows the metrics, the chart rows, the options and the drill-down table, all read from the classified table, or the first error a step raises. `Dashboard.ViewCorrected` is the same page with the chart and the all-submissions table restricted to the columns that exist (see Findings).

Cells are `Null` (Python `None`), `NaN`, `Text(s)` or `Time(t)`. A `Time` is an abstract instant, ordered by `t`. `==` on a column never matches a missing value, as in pandas.

Notes on what the code does at its edges:

- **Last submission time.** The page reports `created_at.iloc[0]`, the first row's time, not a maximum. It is the latest time only because the query orders rows newest first (pages/teacher.py:32). `Summary.LastSubmitIsLatest` proves it is the latest under that order. `Summary.MetricsExamples` shows that on an oldest-first table the page would report the oldest time.
- **Missing timestamps.** A table without `created_at` raises `KeyError` at line 89, and a first row whose `created_at` is NaT raises `ValueError` in `strftime` there. `Summary.SummaryMetrics` returns each of these errors.
- **Option count.** `unique()` keeps a missing id as an option while `nunique()` does not count it. `DrillDown.OptionsShape` therefore states the option count as one per distinct value, and `Dashboard.UniqueCount` relates it to `nunique()`: the two differ by one for None and one for NaN when they occur.
- **Errors in the drill-down.** For a selected student each row's expander formats `created_at` with `strftime`, so a NaT time raises `ValueError`. It then reads `answer_i`, `feedback_i_status` and `feedback_i`, so a missing column raises `KeyError` at the first selected row. `DrillDown.Cards` returns these errors in the order the expanders meet them. A selection that matches no row opens no expander and cannot fail.
- **A column named "Status".** The chart melts into a value column called "Status" (line 106). Since pandas 2.0, `melt` raises `ValueError` when that name is already a column, and `Reshape.Melt` returns that error.
- **Missing feedback columns.** The classifier skips a missing feedback column, but the chart's `melt` and the all-submissions table do not. See Findings.

## Model

| member | source | states |
|---|---|---|
| Frames.WithColumn | pages/teacher.py:57-59 | assigning a column keeps the frame well formed and the row count; the named column holds the new values, every other column is unchanged, no other column appears, existing columns keep their order, and an existing column is overwritten where it stands |
| Frames.Select | pages/teacher.py:140 | selecting rows by position keeps the columns, has one row per selected position, and row i of each column is the selected row of the original |
| Frames.DataFrame.Copy | pages/teacher.py:52 | `df.copy()` returns a fresh object with the same columns, contents and rows |
| Frames.DataFrame.SetColumn | pages/teacher.py:57-59 | assigning a column changes the object in place to `WithColumn` of its old value |
| Grading.StrippedStartsWithO | pages/teacher.py:58 | `strip()` followed by `startswith("O")` holds iff the first non-whitespace character exists and is `O` |
| Grading.Strip | pages/teacher.py:58 | `strip()` returns a slice of its input: everything cut before it and after it is whitespace, it starts and ends with non-whitespace, it is no longer than the input, and it is empty iff the input is all whitespace |
| Grading.StripSlice | pages/teacher.py:58 | cutting leading and then trailing whitespace leaves such a slice, starting where the leading cut ends |
| Grading.CutTwice | pages/teacher.py:58 | a whitespace prefix cut followed by a whitespace suffix cut is a cut at both ends, empty iff the input is all whitespace |
| Grading.Render | pages/teacher.py:58 | `str()` of None, NaN or a timestamp is non-empty text that starts with neither whitespace nor `O` |
| Grading.StatusOf | pages/teacher.py:58 | a cell is labelled "정답 (O)" iff its text is marked correct, and "보완 필요 (X)" iff it is not |
| Grading.BlankIsNeverCorrect | pages/teacher.py:58 | None, NaN, empty and all-whitespace feedback is labelled needs-work |
| Grading.NotMarked | pages/teacher.py:58 | all-whitespace text, or text whose first character is neither whitespace nor `O`, is not marked correct |
| Grading.FirstCharDecides | pages/teacher.py:58 | feedback not starting with whitespace is correct iff its first character is `O` |
| Grading.CorrectExamples | pages/teacher.py:58 | "O: ..." and "  O\t..." are labelled correct |
| Grading.NeedsWorkExamples | pages/teacher.py:58 | "X: ..." and lower-case "o: ..." are labelled needs-work |
| Grading.BlankExamples | pages/teacher.py:58 | empty text and None are labelled needs-work |
| Grading.StatusColumn | pages/teacher.py:57-59 | `apply` of the labelling gives one label per feedback cell, in row order |
| Grading.Step | pages/teacher.py:55-59 | one loop turn: without the feedback column the frame is unchanged; with it, the status column is added or overwritten with that column's labels, the column set grows by exactly that name, and every other column keeps its contents |
| Grading.ClassifyUpTo | pages/teacher.py:54-59 | the first n turns keep the frame well formed and keep the row count |
| Grading.Classify | pages/teacher.py:47-60 | the classifier keeps the rows, and its columns are the input's plus the status columns of the present feedback columns |
| Grading.ClassifyUpToColumns | pages/teacher.py:54-59 | the loop only appends columns: the original columns keep their order |
| Grading.ClassifyUpToKeepsFeedback | pages/teacher.py:54-59 | the loop never rewrites a feedback column |
| Grading.ClassifyUpToKeys | pages/teacher.py:54-59 | after n turns the columns are the original ones plus the status columns of the present feedback columns among the first n |
| Grading.KeysStep | pages/teacher.py:54-59 | the column-set equation after n-1 turns carries over to n turns |
| Grading.AddedStep | pages/teacher.py:55-57 | turn n adds the status column of feedback column n exactly when that column is present |
| Grading.ClassifyUpToOthers | pages/teacher.py:52-59 | original columns other than written status columns keep their contents |
| Grading.ClassifyUpToStatus | pages/teacher.py:54-59 | after n turns each present feedback column among the first n has its status column holding its labels |
| Grading.ClassifyStatusColumns | pages/teacher.py:47-60 | the result's columns are the input's plus `feedback_i_status` exactly for each present `feedback_i`, each holding that column's labels row by row; an absent feedback column adds nothing and is no error |
| Grading.ClassifyKeepsOriginal | pages/teacher.py:52-60 | the rows and their order are unchanged, original columns keep their place, and every original column that is not a rewritten status column keeps its contents |
| Grading.NamesDisjoint | pages/teacher.py:50-57 | no status column name is a feedback column name, and the three status names differ |
| Grading.IdAndTimeNotAdded | pages/teacher.py:57 | the classifier never writes `student_id` or `created_at` |
| Grading.ClassifyIsClassified | pages/teacher.py:47-60 | every present feedback column of the result has its status column holding its labels |
| Grading.ClassifiedIsFixed | pages/teacher.py:54-59 | on a classified frame every turn of the loop changes nothing |
| Grading.ClassifyIdempotent | pages/teacher.py:47-60 | classifying the classifier's output gives the same frame |
| Grading.ProcessGradingStatus | pages/teacher.py:47-60 | the loop over the three feedback columns, on a fresh copy, yields `Classify` of the input and leaves the input object unchanged |
| Reshape.StatusColsNamed | pages/teacher.py:104 | the melted columns are `feedback_i_status` for i = 1..3, in question order |
| Reshape.LabelOf | pages/teacher.py:110-114 | the replacement table sends each status column to its question's label |
| Reshape.MissingOf | pages/teacher.py:102-107 | the names listed for `melt` that the frame lacks, which are none iff all are present |
| Reshape.PresentOf | pages/teacher.py:104 | the listed names that are columns of the frame, no more of them than listed |
| Reshape.PresentOfAppend | pages/teacher.py:104 | keeping the present names distributes over concatenation, so the listed order is kept |
| Reshape.PresentOfDistinct | pages/teacher.py:104 | keeping the present names of a list without repeats leaves no repeats |
| Reshape.PresentOfSame | pages/teacher.py:104 | frames that agree on which listed names are columns keep the same names |
| Reshape.Melt | pages/teacher.py:102-107 | `melt`, as pandas 2.2 does it: ValueError iff the value name is already a column; otherwise success iff the id column and every value column exist, with one row per value column per submission; otherwise the KeyError names exactly the missing id and value columns |
| Reshape.StackLength | pages/teacher.py:102-107 | the melted table has one row per value column per submission |
| Reshape.StackQuestions | pages/teacher.py:102-107 | every melted row's question is one of the value columns |
| Reshape.Relabel | pages/teacher.py:110-114 | `replace` keeps the number of rows and their order, each row's id and status, maps a question name in the table to its label and leaves other names alone |
| Reshape.LongForm | pages/teacher.py:102-114 | ValueError iff the table has a "Status" column; otherwise the long form succeeds iff `student_id` and all three status columns exist, and the KeyError names exactly the missing ones among them |
| Reshape.RelabelBlock | pages/teacher.py:102-114 | relabelling a question's melted block gives that question's labelled block |
| Reshape.RelabelAppend | pages/teacher.py:110-114 | relabelling distributes over concatenation |
| Reshape.RelabelOthers | pages/teacher.py:110-114 | rows from a set of status columns never get the label of a status column outside it |
| Reshape.Tally | pages/teacher.py:117-121 | a bar's count is at most the number of rows, and zero iff no row has that question and status |
| Reshape.LongFormShape | pages/teacher.py:102-114 | the long form is the question-1 block, then question 2, then question 3, each in input row order, carrying id, fixed label and status; it has three rows per submission |
| Reshape.StackThree | pages/teacher.py:102-107 | melting the three status columns stacks their blocks in order |
| Reshape.RelabelThree | pages/teacher.py:102-114 | relabelling the stacked blocks gives the three labelled blocks in order |
| Reshape.TallyAppend | pages/teacher.py:117-121 | a bar's count over concatenated rows is the sum of the counts |
| Reshape.TallyOfBlock | pages/teacher.py:117-121 | a question's block contributes to its own bars the count of each status and nothing to other questions' bars |
| Reshape.StatusColumnCounts | pages/teacher.py:57-59 | in a label column the correct labels are the feedbacks marked correct, correct plus needs-work is the column length, and no other value occurs |
| Reshape.CorrectLabels | pages/teacher.py:57-59 | the correct labels in a label column are the feedbacks marked correct |
| Reshape.TwoLabels | pages/teacher.py:57-59 | correct plus needs-work labels make up the whole column |
| Reshape.NoOtherLabel | pages/teacher.py:57-59 | no value other than the two labels occurs in a label column |
| Reshape.StatusColumnCons | pages/teacher.py:57-59 | the label column of a non-empty column is the head's label, one of the two, followed by the tail's label column |
| Reshape.OnlyTwoLabels | pages/teacher.py:58 | every label the classifier writes is one of the two |
| Reshape.BlockMembers | pages/teacher.py:102-114 | every row of a question's labelled block carries that label and one of the two statuses |
| Reshape.ChartColumns | pages/teacher.py:52-60 | the chart reads the id column as loaded and, per question, the labels of that question's feedback |
| Reshape.TallyThree | pages/teacher.py:117-121 | the bar of a question and status counts that status in that question's status column |
| Reshape.ChartTallies | pages/teacher.py:102-121 | per question, the correct bar equals the number of feedbacks marked correct, and correct plus needs-work equals the number of submissions |
| Reshape.ChartValues | pages/teacher.py:102-114 | the chart has three rows per submission, each labelled with one of the three question labels and holding one of the two statuses |
| Reshape.LongFormRejectsMissingFeedback | pages/teacher.py:102-107 | when a feedback column (and its status column) is absent, the chart step on the classified table fails with KeyError naming that status column |
| Reshape.TwoQuestionTableRejected | pages/teacher.py:102-107 | a one-row table with `student_id`, `created_at`, `feedback_1` and `feedback_2` only makes the chart step fail with KeyError |
| Reshape.TwoQuestionColumns | pages/teacher.py:77-107 | that table is non-empty with an id, a time present in its row, no third feedback or status column and no "Status" column |
| Reshape.AddedAreStatusCols | pages/teacher.py:54-57 | the classifier writes only the three status columns, and the status column of question q exactly when `feedback_q` exists |
| Reshape.StatusInClassified | pages/teacher.py:54-57 | a status column is in the classified table iff it was loaded or its feedback column was; the classifier neither adds nor removes a "Status" column |
| Reshape.TolerantLongForm | pages/teacher.py:102-114 | the corrected long form is ValueError iff the table has a "Status" column, otherwise fails iff `student_id` is missing, with KeyError naming it alone |
| Reshape.TolerantLongFormShape | pages/teacher.py:102-114 | the corrected long form has one row per present status column per submission, labels every row with a question label, and equals the page's long form when all status columns exist |
| Reshape.RelabelQuestions | pages/teacher.py:110-114 | relabelling rows whose questions are status columns gives every row a question label |
| Reshape.PresentOfAll | pages/teacher.py:104 | when every listed column exists, all of them are melted, in order |
| Summary.PresentBound | pages/teacher.py:87 | there are no more distinct ids than rows |
| Summary.NUnique | pages/teacher.py:87 | `nunique()` is at most the number of rows, and zero iff every id is missing |
| Summary.PresentEmpty | pages/teacher.py:87 | no non-missing value exists iff every cell is missing |
| Summary.SummaryMetrics | pages/teacher.py:87-89 | the metrics succeed iff `student_id` and `created_at` exist and the first time is not missing; ValueError iff both exist and the first time is missing; otherwise KeyError names `student_id` first, else `created_at` |
| Summary.PresentNonEmpty | pages/teacher.py:87 | one row with an id makes at least one student |
| Summary.MetricsBounds | pages/teacher.py:77-89 | with a first time present: the submission count is the row count, at least 1; the student count is `nunique()` of the ids and does not exceed submissions; there is at least one student iff some row has an id; the last submission is the first row's `created_at` |
| Summary.LastSubmitIsLatest | pages/teacher.py:32 | with rows newest first, the reported last submission is a time no row exceeds |
| Summary.ClassifyKeepsMetrics | pages/teacher.py:81-89 | the metrics of the classified table are those of the loaded table |
| Summary.MetricsExamples | pages/teacher.py:87-89 | for ids A, A, B at times 10, 30, 20: two students and three submissions; last submission 30 in query order but 10 in insertion order |
| DrillDown.FirstPos | pages/teacher.py:135 | the index of a value's first occurrence, before which it does not occur |
| DrillDown.FirstPosUnique | pages/teacher.py:135 | a first occurrence is unique |
| DrillDown.FirstPosPrefix | pages/teacher.py:135 | appending an element leaves other values' first occurrences unchanged |
| DrillDown.Unique | pages/teacher.py:135 | `unique()` has no repeated value, has exactly the values of the column, and is no longer than it |
| DrillDown.UniqueOrder | pages/teacher.py:135 | `unique()` lists values in order of first appearance |
| DrillDown.DistinctCard | pages/teacher.py:135 | a list without repeats has as many elements as distinct values |
| DrillDown.StudentOptions | pages/teacher.py:135 | the options exist iff `student_id` does; the first is the sentinel and the rest are exactly the ids |
| DrillDown.OptionsShape | pages/teacher.py:135 | the options after the sentinel are the ids without repeats in first-appearance order, one per distinct value; that is distinct students plus one when no id is missing |
| DrillDown.MatchingRows | pages/teacher.py:140 | the positions selected by `student_id == sel` are increasing, in range, and are exactly the rows whose id equals a non-missing `sel` |
| DrillDown.MatchingRowsCount | pages/teacher.py:140 | the number of selected rows is the number of matching ids |
| DrillDown.StudentRows | pages/teacher.py:140 | the filtered table keeps the columns |
| DrillDown.StudentRowsExact | pages/teacher.py:140 | the filter returns all and only the matching rows, each once, in table order, with all columns; every returned row has the selected id |
| DrillDown.NoMatchesCount | pages/teacher.py:140 | with no matching id the count is zero |
| DrillDown.AbsentSelectsNothing | pages/teacher.py:140 | a selection that is not an id in the table, or is missing, yields no rows |
| DrillDown.SumMatchesSnoc | pages/teacher.py:135-140 | one more row adds one to the total over distinct options iff its id is present and among them |
| DrillDown.SumMatchesEmpty | pages/teacher.py:135-140 | no rows means no selected rows |
| DrillDown.SumMatchesCount | pages/teacher.py:135-140 | over distinct options, the filters together select the rows whose id is present and among the options |
| DrillDown.CountInAll | pages/teacher.py:135-140 | when every id is an option, that is every row with a present id |
| DrillDown.MatchingPresent | pages/teacher.py:140 | the positions of the rows whose id is present |
| DrillDown.OptionsPartitionRows | pages/teacher.py:135-140 | every present id is an option; a row is selected by an option iff the option is its (present) id; over all student options each row with an id is shown exactly once and rows without one never |
| DrillDown.Project | pages/teacher.py:168-169 | `df[cols]` succeeds iff every column exists, naming exactly the missing ones otherwise, and keeps the rows with the listed columns in listed order |
| DrillDown.TableColsDistinct | pages/teacher.py:169 | the displayed column names are distinct |
| DrillDown.Cards | pages/teacher.py:142-165 | the expanders of the selected rows render iff there is no row, or `created_at` and every panel column exist and every row's time is present; otherwise KeyError names one missing column (the time column or a panel column), or ValueError comes from a missing time; a rendered set shows the rows unchanged |
| DrillDown.CardsOfSelection | pages/teacher.py:140-165 | the expanders of a student's rows render iff no row matches, or the time and panel columns exist and every matching row has a time; ValueError means some matching row has no time |
| DrillDown.Detail | pages/teacher.py:138-169 | for the sentinel: succeeds iff all eight display columns exist, naming exactly the missing ones otherwise, and shows every row with those columns as loaded; for any other selection: KeyError without `student_id`; else succeeds iff no row matches or the time and panel columns exist with a time on every matching row, showing exactly the matching rows; ValueError only when a matching row has no time |
| DrillDown.ClassifyKeepsTableCols | pages/teacher.py:81 | the classifier keeps every display column as loaded and adds none |
| DrillDown.ClassifyKeepsSelection | pages/teacher.py:81-143 | the classifier keeps the matching rows and whether each has a time |
| DrillDown.PanelsOfClassified | pages/teacher.py:54-57 | the classified table has every panel column iff the loaded table has every display column |
| DrillDown.PanelsOfKeys | pages/teacher.py:149-169 | the panel columns are the display columns other than the id and the time, plus the status columns, which exist once the feedback columns do |
| DrillDown.TolerantDetail | pages/teacher.py:138-169 | the corrected drill-down: the sentinel always succeeds, showing the display columns that exist for every row; for any other selection the expanders show only the panels whose columns exist, so it succeeds iff `student_id` exists and no row matches or every matching row has a time, and shows exactly the matching rows |
| DrillDown.FeedbackColour | pages/teacher.py:150 | a feedback is shown green iff its status is "정답 (O)", otherwise red |
| DrillDown.ColourFollowsMarker | pages/teacher.py:150-164 | on the classified table a feedback is green iff its text is marked correct |
| Dashboard.View | pages/teacher.py:77-169 | an empty table shows the no-data notice; otherwise the page is shown iff `student_id` and `created_at` exist with a first time present, there is no "Status" column, each question has its feedback or status column, for the sentinel all display columns exist, and for another selection with matching rows all display columns exist and each matching row has a time; a missing first time or a "Status" column gives ValueError, and ValueError only comes from those or from a matching row without a time |
| Dashboard.ViewCorrected | pages/teacher.py:77-169 | the corrected page: an empty table shows the no-data notice; otherwise the page is shown iff `student_id` and `created_at` exist, the first time is present, there is no "Status" column, and every row of a selected student has a time |
| Dashboard.CorrectedSteps | pages/teacher.py:81-169 | on the classified table the corrected chart fails only on a "Status" column, with ValueError, and the corrected drill-down only on a matching row without a time |
| Dashboard.CorrectedParts | pages/teacher.py:102-114 | a shown corrected page's chart is the corrected long form of the classified table |
| Dashboard.CorrectedChartWithout | pages/teacher.py:102-114 | the corrected chart has no row for a question whose feedback and status columns are both missing |
| Dashboard.ClassifiedSteps | pages/teacher.py:81-169 | on the classified table the metrics are those of the loaded table, and the chart and drill-down steps succeed, or fail with ValueError, under the conditions stated on the loaded table |
| Dashboard.ChartOfClassified | pages/teacher.py:81-107 | the chart step on the classified table is ValueError iff there is a "Status" column, and succeeds iff there is none and each question has its feedback or its status column |
| Dashboard.DetailOfClassified | pages/teacher.py:81-169 | the drill-down step on the classified table succeeds iff, for the sentinel, every display column exists and, for another selection, no row matches or every display column exists and every matching row has a time; ValueError only when a matching row has no time |
| Dashboard.ViewParts | pages/teacher.py:81-169 | a shown page's metrics, chart, options and table are those of the steps on the classified table |
| Dashboard.ViewOverview | pages/teacher.py:77-169 | for a table with the expected columns, no "Status" column, and newest first, the page shows: the row count; `nunique()` of the ids as students, no more than submissions; the latest time; three chart rows per submission; per question, correct bars equal the feedbacks marked correct, with needs-work making up the rest; the sentinel, then the unique ids; every row's display columns for the sentinel, else exactly the selected student's rows of the classified table |
| Dashboard.ViewShown | pages/teacher.py:77-169 | such a table, with a time on every row, gets a page |
| Dashboard.ViewMetrics | pages/teacher.py:87-89 | the metrics of a shown page on a newest-first table: the row count, `nunique()` of the ids as students, bounded by the row count, and the latest time |
| Dashboard.ViewChart | pages/teacher.py:102-135 | the chart and the options of a shown page on a table with all feedback columns |
| Dashboard.ViewTable | pages/teacher.py:138-169 | the drill-down table of a shown page: every row's display columns for the sentinel, else exactly the selected student's rows of the classified table, as many as the selected id matches |
| Dashboard.ViewWithoutFeedback | pages/teacher.py:55-107 | a table without a "Status" column that lacks a feedback column and its status column gets no page: KeyError naming that status column, for any selection; the corrected page is shown iff every row of a selected student has a time, and its chart then has no row for that question |
| Dashboard.TwoQuestionPage | pages/teacher.py:77-107 | the one-row two-question table, with the sentinel selected, fails with KeyError naming `feedback_3_status`, while the corrected page is shown |
| Dashboard.UniqueCount | pages/teacher.py:135 | `unique()` of a column lists `nunique()` values plus one for None and one for NaN when they occur |
| Dashboard.ValuesCard | pages/teacher.py:87 | the distinct values of a column are its distinct non-missing ones plus None and NaN when present |

## Left out

- Streamlit rendering is not modelled: page set-up, titles, columns, metric widgets, expanders, markdown and the refresh button. The refresh button clears the cache and reruns the page.
- The Supabase client and its secrets are not modelled, and neither is the query in `load_data` (network I/O). The model starts from the loaded table. The query's newest-first order enters only as the `NewestFirst` precondition of the lemmas that need it.
- The 60-second cache of `load_data` is not modelled, because it is a time-based side effect.
- `pd.to_datetime` parsing of `created_at` is not modelled. Timestamps are abstract ordered `Time` cells.
- `strftime` formatting of the last submission time is modelled only as its failure on NaT. `Summary.SummaryMetrics` reports the cell itself, not its text.
- The Plotly histogram is modelled only as its per-(question, status) counts (`Reshape.Tally`). Colours, layout and text labels are left out.
- `Grading.Render` gives Python's `str()` only for None, NaN and text. A timestamp renders as its digits rather than pandas' timestamp text, and numbers and other types are not represented. For the `O` test only the first non-space character matters, and it is a digit either way.
- The pandas KeyError message is modelled as the list of missing column names, not its wording.
- The per-row expanders (lines 142-165) are modelled by what they read and how they fail (`DrillDown.Cards`) and by the colour choice (`DrillDown.FeedbackColour`). The header and panel texts themselves are not modelled.
- Reshape.Melt, Reshape.LongForm: follow pandas 2.2. Before pandas 2.0 a "Status" column clashing with the value name is only a warning, and before pandas 2.2 the KeyError reports a missing id column on its own, before the value columns are checked. The pandas version the page runs with is not part of this model.
- `NaN` is a single value in this model. `unique()` keeps one NaN, as pandas does for missing values, and `==` never matches it.

## Findings

| source | as written | input that shows it | evidently intended | confidence | as-written member | corrected member |
|---|---|---|---|---|---|---|
| pages/teacher.py:102-107 | `melt` names all three status columns, although the classifier (lines 54-55) skips any feedback column that is missing, so a missing `feedback_i` makes the chart step raise KeyError and the page fails | a one-row table with `student_id`, `created_at`, `feedback_1` = "O: good", `feedback_2` = "X: unit" and no `feedback_3` | melt only the status columns that exist, so a missing question just has no bars, matching the classifier's tolerance | not executed | Reshape.LongFormRejectsMissingFeedback | Dashboard.ViewCorrected |

`Dashboard.View` is the page as written: `Dashboard.TwoQuestionPage` shows it failing on the table above. `Dashboard.ViewCorrected` draws its chart from `Reshape.TolerantLongForm`. On the first render, with the sentinel selected, it also shows only the display columns that exist (`DrillDown.TolerantDetail`), since line 169 would raise KeyError for the same missing `feedback_3`. `Dashboard.ViewWithoutFeedback` proves that the corrected page is shown without the missing question. When all three status columns exist, `Reshape.TolerantLongFormShape` proves the corrected chart equals the page's as written.
