/**
  The dashboard page as one function of the loaded submissions table and
  the select box's current entry: a "no data yet" notice for an empty
  table, otherwise the headline metrics, the per-question chart rows, the
  drill-down options and the drill-down table, all read from the classified
  table.
*/
module Dashboard {
  import opened Wrappers
  import opened Frames
  import opened Grading
  import opened Reshape
  import opened Summary
  import opened DrillDown

  datatype Page =
    | NoData
    | Overview(metrics: Metrics, chart: seq<LongRow>, options: seq<Cell>, table: Frame)

  /** The page for a loaded table and a selection. The first failing step
      decides the error: the metrics read `student_id`, then `created_at`,
      then format the first time (ValueError when it is missing); the chart
      melts all three status columns into a "Status" column (ValueError
      when the table already has one); the drill-down projects the display
      columns for the sentinel, which is the selection of a first render,
      and otherwise opens an expander per selected row, which formats its
      time and reads its answers, statuses and feedbacks. */
  function View(raw: Frame, sel: Cell): (r: Result<Page>)
    requires WellFormed(raw)
    ensures Empty(raw) ==> r == Ok(NoData)
    ensures !Empty(raw) ==> (r.Ok? <==>
      && STUDENT_ID in raw.data && CREATED_AT in raw.data && !IsNA(raw.data[CREATED_AT][0])
      && VALUE_NAME !in raw.data
      && (forall q :: 0 <= q < |FEEDBACK_COLS| ==> FEEDBACK_COLS[q] in raw.data || STATUS_COLS[q] in raw.data)
      && (sel == Text(SENTINEL) ==> forall c :: c in TABLE_COLS ==> c in raw.data)
      && (sel != Text(SENTINEL) ==>
            CountMatches(raw.data[STUDENT_ID], sel) == 0
            || ((forall c :: c in TABLE_COLS ==> c in raw.data) && SelectedTimed(raw, sel))))
    ensures (!Empty(raw) && STUDENT_ID in raw.data && CREATED_AT in raw.data
             && (IsNA(raw.data[CREATED_AT][0]) || VALUE_NAME in raw.data)) ==> r.ValueError?
    ensures !Empty(raw) && r.ValueError? ==>
      (STUDENT_ID in raw.data && CREATED_AT in raw.data
       && (IsNA(raw.data[CREATED_AT][0]) || VALUE_NAME in raw.data || !SelectedTimed(raw, sel)))
    ensures !Empty(raw) && r.Ok? ==> r.value.Overview?
  {
    if Empty(raw) then Ok(NoData)
    else
      var df := Classify(raw);
      ClassifiedSteps(raw, sel);
      var m := SummaryMetrics(df);
      var chart := LongForm(df);
      var table := Detail(df, sel);
      if m.KeyError? then KeyError(m.missing)
      else if m.ValueError? then ValueError
      else if chart.KeyError? then KeyError(chart.missing)
      else if chart.ValueError? then ValueError
      else if table.KeyError? then KeyError(table.missing)
      else if table.ValueError? then ValueError
      else Ok(Overview(m.value, chart.value, StudentOptions(df).value, table.value))
  }

  /** What each step of the page needs, stated on the table as loaded. */
  lemma ClassifiedSteps(raw: Frame, sel: Cell)
    requires WellFormed(raw) && !Empty(raw)
    ensures var df := Classify(raw);
      && WellFormed(df) && !Empty(df)
      && SummaryMetrics(df) == SummaryMetrics(raw)
      && (STUDENT_ID in df.data <==> STUDENT_ID in raw.data)
      && (STUDENT_ID in raw.data ==>
            && (LongForm(df).Ok? <==> (VALUE_NAME !in raw.data &&
                  forall q :: 0 <= q < |FEEDBACK_COLS| ==> FEEDBACK_COLS[q] in raw.data || STATUS_COLS[q] in raw.data))
            && (LongForm(df).ValueError? <==> VALUE_NAME in raw.data))
      && (STUDENT_ID in raw.data && CREATED_AT in raw.data ==>
            && (Detail(df, sel).Ok? <==>
                  && (sel == Text(SENTINEL) ==> forall c :: c in TABLE_COLS ==> c in raw.data)
                  && (sel != Text(SENTINEL) ==>
                        CountMatches(raw.data[STUDENT_ID], sel) == 0
                        || ((forall c :: c in TABLE_COLS ==> c in raw.data) && SelectedTimed(raw, sel))))
            && (Detail(df, sel).ValueError? ==> !SelectedTimed(raw, sel)))
  {
    ClassifyKeepsMetrics(raw);
    ClassifyKeepsTableCols(raw);
    if STUDENT_ID in raw.data {
      ChartOfClassified(raw);
      if CREATED_AT in raw.data {
        DetailOfClassified(raw, sel);
      }
    }
  }

  /** The chart step on the classified table succeeds exactly when the
      table has no "Status" column and every question has its feedback or
      its status column. */
  lemma ChartOfClassified(raw: Frame)
    requires WellFormed(raw) && STUDENT_ID in raw.data
    ensures WellFormed(Classify(raw))
    ensures LongForm(Classify(raw)).Ok? <==> (VALUE_NAME !in raw.data &&
      forall q :: 0 <= q < |FEEDBACK_COLS| ==> FEEDBACK_COLS[q] in raw.data || STATUS_COLS[q] in raw.data)
    ensures LongForm(Classify(raw)).ValueError? <==> VALUE_NAME in raw.data
  {
    ClassifyKeepsTableCols(raw);
    StatusInClassified(raw);
  }

  /** The drill-down step on the classified table: the sentinel needs every
      display column; a selection with rows needs them too (the panels read
      the answers and feedbacks, the classifier adds the statuses) and a
      time on each selected row. */
  lemma DetailOfClassified(raw: Frame, sel: Cell)
    requires WellFormed(raw) && STUDENT_ID in raw.data && CREATED_AT in raw.data
    ensures WellFormed(Classify(raw))
    ensures Detail(Classify(raw), sel).Ok? <==>
      && (sel == Text(SENTINEL) ==> forall c :: c in TABLE_COLS ==> c in raw.data)
      && (sel != Text(SENTINEL) ==>
            CountMatches(raw.data[STUDENT_ID], sel) == 0
            || ((forall c :: c in TABLE_COLS ==> c in raw.data) && SelectedTimed(raw, sel)))
    ensures Detail(Classify(raw), sel).ValueError? ==> !SelectedTimed(raw, sel)
  {
    ClassifyKeepsTableCols(raw);
    ClassifyKeepsSelection(raw, sel);
    PanelsOfClassified(raw);
  }

  /** The page as the classifier's tolerance of missing feedback columns
      intends it: the chart melts the status columns that exist, the table
      shows the display columns that exist and the expanders show the
      panels whose columns exist. */
  function ViewCorrected(raw: Frame, sel: Cell): (r: Result<Page>)
    requires WellFormed(raw)
    ensures Empty(raw) ==> r == Ok(NoData)
    ensures !Empty(raw) ==> (r.Ok? <==>
      && STUDENT_ID in raw.data && CREATED_AT in raw.data && !IsNA(raw.data[CREATED_AT][0])
      && VALUE_NAME !in raw.data
      && (sel != Text(SENTINEL) ==> SelectedTimed(raw, sel)))
    ensures !Empty(raw) && r.Ok? ==> r.value.Overview?
  {
    if Empty(raw) then Ok(NoData)
    else
      var df := Classify(raw);
      ClassifyKeepsMetrics(raw);
      match SummaryMetrics(df)
      case KeyError(m) => KeyError(m)
      case ValueError => ValueError
      case Ok(metrics) =>
        CorrectedSteps(raw, sel);
        var chart := TolerantLongForm(df);
        var table := TolerantDetail(df, sel);
        if chart.ValueError? then ValueError
        else if table.KeyError? then KeyError(table.missing)
        else if table.ValueError? then ValueError
        else Ok(Overview(metrics, chart.value, StudentOptions(df).value, table.value))
  }

  /** The tolerant steps on the classified table of a table with an id and
      a time column: the chart fails only on a "Status" column, the
      drill-down only on a selected row without a time. */
  lemma CorrectedSteps(raw: Frame, sel: Cell)
    requires WellFormed(raw) && STUDENT_ID in raw.data && CREATED_AT in raw.data
    ensures WellFormed(Classify(raw)) && STUDENT_ID in Classify(raw).data
    ensures TolerantLongForm(Classify(raw)).Ok? <==> VALUE_NAME !in raw.data
    ensures TolerantLongForm(Classify(raw)).ValueError? <==> VALUE_NAME in raw.data
    ensures TolerantDetail(Classify(raw), sel).Ok? <==> (sel != Text(SENTINEL) ==> SelectedTimed(raw, sel))
  {
    ClassifyKeepsTableCols(raw);
    StatusInClassified(raw);
    ClassifyKeepsSelection(raw, sel);
    StudentRowsExact(raw, sel);
  }

  /** For a non-empty table with the expected columns, ordered newest first
      as the query returns it, the page shows: one row per submission
      counted, no more students than submissions, the latest submission
      time, three chart rows per submission, per question as many "correct"
      rows as feedbacks marked correct and the rest "needs work", the
      sentinel followed by the distinct student ids, and either every
      submission's display columns or exactly the selected student's rows. */
  lemma ViewOverview(raw: Frame, sel: Cell)
    requires WellFormed(raw) && !Empty(raw)
    requires STUDENT_ID in raw.data && CREATED_AT in raw.data
    requires forall i :: 0 <= i < |FEEDBACK_COLS| ==> FEEDBACK_COLS[i] in raw.data
    requires VALUE_NAME !in raw.data
    requires (sel == Text(SENTINEL) || CountMatches(raw.data[STUDENT_ID], sel) > 0) ==>
      forall c :: c in TABLE_COLS ==> c in raw.data
    requires NewestFirst(raw.data[CREATED_AT])
    ensures View(raw, sel).Ok? && View(raw, sel).value.Overview?
    ensures var p := View(raw, sel).value;
      && p.metrics.submissions == raw.height
      && p.metrics.students == NUnique(raw.data[STUDENT_ID])
      && p.metrics.students <= p.metrics.submissions
      && p.metrics.lastSubmit.Time?
      && (forall k :: 0 <= k < raw.height ==>
            raw.data[CREATED_AT][k].Time? && raw.data[CREATED_AT][k].t <= p.metrics.lastSubmit.t)
      && |p.chart| == |QUESTION_LABELS| * raw.height
      && (forall q :: 0 <= q < |QUESTION_LABELS| ==>
            && Tally(p.chart, QUESTION_LABELS[q], Text(CORRECT)) == CorrectCount(raw.data[FEEDBACK_COLS[q]])
            && Tally(p.chart, QUESTION_LABELS[q], Text(CORRECT))
               + Tally(p.chart, QUESTION_LABELS[q], Text(NEEDS_WORK)) == raw.height)
      && p.options == [Text(SENTINEL)] + Unique(raw.data[STUDENT_ID])
      && (sel == Text(SENTINEL) ==>
            p.table.columns == TABLE_COLS && p.table.height == raw.height
            && forall c :: c in TABLE_COLS ==> c in p.table.data && p.table.data[c] == raw.data[c])
      && (sel != Text(SENTINEL) ==>
            p.table == StudentRows(Classify(raw), sel) && p.table.height == CountMatches(raw.data[STUDENT_ID], sel))
  {
    ViewShown(raw, sel);
    ViewMetrics(raw, sel);
    ViewChart(raw, sel);
    ViewTable(raw, sel);
  }

  /** A table with its columns, no "Status" column and a time on every row
      gets a page. */
  lemma ViewShown(raw: Frame, sel: Cell)
    requires WellFormed(raw) && !Empty(raw)
    requires STUDENT_ID in raw.data && CREATED_AT in raw.data
    requires forall i :: 0 <= i < |FEEDBACK_COLS| ==> FEEDBACK_COLS[i] in raw.data
    requires VALUE_NAME !in raw.data
    requires (sel == Text(SENTINEL) || CountMatches(raw.data[STUDENT_ID], sel) > 0) ==>
      forall c :: c in TABLE_COLS ==> c in raw.data
    requires NewestFirst(raw.data[CREATED_AT])
    ensures View(raw, sel).Ok? && View(raw, sel).value.Overview?
  {
    assert !IsNA(raw.data[CREATED_AT][0]) && SelectedTimed(raw, sel);
    assert sel != Text(SENTINEL) ==>
      CountMatches(raw.data[STUDENT_ID], sel) == 0
      || ((forall c :: c in TABLE_COLS ==> c in raw.data) && SelectedTimed(raw, sel));
  }

  /** The metrics of a shown page on a table ordered newest first. */
  lemma ViewMetrics(raw: Frame, sel: Cell)
    requires WellFormed(raw) && !Empty(raw) && View(raw, sel).Ok?
    requires NewestFirst(raw.data[CREATED_AT])
    ensures var m := View(raw, sel).value.metrics;
      && STUDENT_ID in raw.data
      && m.submissions == raw.height
      && m.students == NUnique(raw.data[STUDENT_ID])
      && m.students <= m.submissions
      && m.lastSubmit.Time?
      && (forall k :: 0 <= k < raw.height ==>
            raw.data[CREATED_AT][k].Time? && raw.data[CREATED_AT][k].t <= m.lastSubmit.t)
  {
    ViewParts(raw, sel);
    ClassifyKeepsMetrics(raw);
    MetricsBounds(raw);
    LastSubmitIsLatest(raw);
  }

  /** The chart and the options of a shown page on a table with every
      feedback column. */
  lemma ViewChart(raw: Frame, sel: Cell)
    requires WellFormed(raw) && !Empty(raw) && View(raw, sel).Ok?
    requires forall i :: 0 <= i < |FEEDBACK_COLS| ==> FEEDBACK_COLS[i] in raw.data
    ensures var p := View(raw, sel).value;
      && STUDENT_ID in raw.data
      && |p.chart| == |QUESTION_LABELS| * raw.height
      && (forall q :: 0 <= q < |QUESTION_LABELS| ==>
            && Tally(p.chart, QUESTION_LABELS[q], Text(CORRECT)) == CorrectCount(raw.data[FEEDBACK_COLS[q]])
            && Tally(p.chart, QUESTION_LABELS[q], Text(CORRECT))
               + Tally(p.chart, QUESTION_LABELS[q], Text(NEEDS_WORK)) == raw.height)
      && p.options == [Text(SENTINEL)] + Unique(raw.data[STUDENT_ID])
  {
    ViewParts(raw, sel);
    ClassifyKeepsTableCols(raw);
    ChartTallies(raw);
    ChartValues(raw);
  }

  /** The drill-down table of a shown page: the display columns of every
      submission for the sentinel, the selected student's rows otherwise. */
  lemma ViewTable(raw: Frame, sel: Cell)
    requires WellFormed(raw) && !Empty(raw) && View(raw, sel).Ok?
    ensures var t := View(raw, sel).value.table;
      && (sel == Text(SENTINEL) ==>
            t.columns == TABLE_COLS && t.height == raw.height
            && forall c :: c in TABLE_COLS ==> c in raw.data && c in t.data && t.data[c] == raw.data[c])
      && (sel != Text(SENTINEL) ==>
            STUDENT_ID in raw.data && WellFormed(Classify(raw)) && STUDENT_ID in Classify(raw).data
            && t == StudentRows(Classify(raw), sel) && t.height == CountMatches(raw.data[STUDENT_ID], sel))
  {
    ViewParts(raw, sel);
    ClassifyKeepsTableCols(raw);
    ClassifyKeepsOriginal(raw);
  }

  /** A table that lacks a feedback column (and its status column) gets no
      page: the chart step raises KeyError naming the missing status column,
      whatever the selection. The corrected page is shown, and its chart has
      no row for that question. */
  lemma ViewWithoutFeedback(raw: Frame, sel: Cell, q: nat)
    requires WellFormed(raw) && !Empty(raw)
    requires STUDENT_ID in raw.data && CREATED_AT in raw.data && !IsNA(raw.data[CREATED_AT][0])
    requires VALUE_NAME !in raw.data
    requires q < |FEEDBACK_COLS| && FEEDBACK_COLS[q] !in raw.data && STATUS_COLS[q] !in raw.data
    ensures View(raw, sel).KeyError? && STATUS_COLS[q] in View(raw, sel).missing
    ensures ViewCorrected(raw, sel).Ok? <==> (sel != Text(SENTINEL) ==> SelectedTimed(raw, sel))
    ensures ViewCorrected(raw, sel).Ok? ==>
      ViewCorrected(raw, sel).value.Overview?
      && forall r :: r in ViewCorrected(raw, sel).value.chart ==> r.question != QUESTION_LABELS[q]
  {
    ClassifiedSteps(raw, sel);
    StatusInClassified(raw);
    if ViewCorrected(raw, sel).Ok? {
      CorrectedParts(raw, sel);
      CorrectedChartWithout(raw, q);
    }
  }

  /** The chart of the corrected page has no row for a question whose
      feedback and status columns are both missing. */
  lemma CorrectedChartWithout(raw: Frame, q: nat)
    requires WellFormed(raw) && STUDENT_ID in raw.data && VALUE_NAME !in raw.data
    requires q < |FEEDBACK_COLS| && FEEDBACK_COLS[q] !in raw.data && STATUS_COLS[q] !in raw.data
    ensures WellFormed(Classify(raw)) && TolerantLongForm(Classify(raw)).Ok?
    ensures forall r :: r in TolerantLongForm(Classify(raw)).value ==> r.question != QUESTION_LABELS[q]
  {
    var df := Classify(raw);
    ClassifyKeepsTableCols(raw);
    StatusInClassified(raw);
    AddedAreStatusCols(raw);
    var vars := PresentOf(df, STATUS_COLS);
    StackQuestions(df, STUDENT_ID, vars);
    RelabelOthers(Stack(df, STUDENT_ID, vars), vars, q);
  }

  /** The chart of a corrected page that is shown is the tolerant melt of
      the classified table. */
  lemma CorrectedParts(raw: Frame, sel: Cell)
    requires WellFormed(raw) && !Empty(raw) && ViewCorrected(raw, sel).Ok?
    ensures ViewCorrected(raw, sel).value.Overview?
    ensures WellFormed(Classify(raw)) && TolerantLongForm(Classify(raw)).Ok?
    ensures ViewCorrected(raw, sel).value.chart == TolerantLongForm(Classify(raw)).value
  {
    ClassifyKeepsMetrics(raw);
    CorrectedSteps(raw, sel);
  }

  /** The one-row table with two questions: the page fails at the chart,
      while the corrected page is shown. */
  lemma TwoQuestionPage()
    ensures WellFormed(TwoQuestionTable) && !Empty(TwoQuestionTable)
    ensures View(TwoQuestionTable, Text(SENTINEL)).KeyError?
    ensures STATUS_COLS[2] in View(TwoQuestionTable, Text(SENTINEL)).missing
    ensures ViewCorrected(TwoQuestionTable, Text(SENTINEL)).Ok?
  {
    TwoQuestionColumns();
    ViewWithoutFeedback(TwoQuestionTable, Text(SENTINEL), 2);
  }

  /** The select box lists every distinct id once, and None and NaN once each
      when they occur, so its entries after the sentinel are the nunique
      count plus the missing markers present. */
  lemma UniqueCount(col: seq<Cell>)
    ensures |Unique(col)| == NUnique(col) + (if Null in col then 1 else 0) + (if NaN in col then 1 else 0)
  {
    var u := Unique(col);
    DistinctCard(u);
    assert (set x | x in u) == (set x | x in col);
    ValuesCard(col);
  }

  /** The distinct values of a column are its distinct non-missing values
      plus None and NaN when they occur. */
  lemma ValuesCard(col: seq<Cell>)
    ensures |set x | x in col| == |Present(col)| + (if Null in col then 1 else 0) + (if NaN in col then 1 else 0)
  {
    var all := set x | x in col;
    var nulls: set<Cell> := if Null in col then {Null} else {};
    var nans: set<Cell> := if NaN in col then {NaN} else {};
    var na := nulls + nans;
    forall x | x in all ensures x in Present(col) || x in na {
      assert x in col;
    }
    SplitCard(all, Present(col), na);
    SplitCard(na, nulls, nans);
  }

  /** A set split into two disjoint parts has the sum of their sizes. */
  lemma SplitCard(all: set<Cell>, a: set<Cell>, b: set<Cell>)
    requires all == a + b && a !! b
    ensures |all| == |a| + |b|
  {
  }

  /** The parts of a page that is shown, read off the steps that make it. */
  lemma ViewParts(raw: Frame, sel: Cell)
    requires WellFormed(raw) && !Empty(raw) && View(raw, sel).Ok?
    ensures var p := View(raw, sel).value; var df := Classify(raw);
      && WellFormed(df) && STUDENT_ID in df.data
      && SummaryMetrics(df).Ok? && p.metrics == SummaryMetrics(df).value
      && LongForm(df).Ok? && p.chart == LongForm(df).value
      && StudentOptions(df).Ok? && p.options == StudentOptions(df).value
      && Detail(df, sel).Ok? && p.table == Detail(df, sel).value
  {
    var df := Classify(raw);
    ClassifyKeepsMetrics(raw);
    ClassifyKeepsTableCols(raw);
    assert SummaryMetrics(df).Ok?;
    assert LongForm(df).Ok?;
    assert Detail(df, sel).Ok?;
  }
}
