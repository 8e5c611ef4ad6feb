/**
  The wide-to-long reshape behind the dashboard's per-question chart:
  `df.melt(id_vars=["student_id"], value_vars=[the three status columns])`
  followed by replacing each status column name with a fixed question label,
  and the (question, status) tallies the grouped histogram draws from it.
*/
module Reshape {
  import opened Wrappers
  import opened Frames
  import opened Grading

  /** One row of the long table: the submission's student id, the question
      (a column name, or its label after relabelling) and its status. */
  datatype LongRow = LongRow(id: Cell, question: string, status: Cell)

  /** The status columns the chart melts. */
  const STATUS_COLS: seq<string> := ["feedback_1_status", "feedback_2_status", "feedback_3_status"]
  const QUESTION_LABELS: seq<string> := ["문제 1 (온도와 입자)", "문제 2 (보일 법칙)", "문제 3 (열의 이동)"]

  /** The replacement table applied to the question column. */
  const LABELS: map<string, string> :=
    map[STATUS_COLS[0] := QUESTION_LABELS[0],
        STATUS_COLS[1] := QUESTION_LABELS[1],
        STATUS_COLS[2] := QUESTION_LABELS[2]]

  /** The melted columns are the classifier's status columns, in question order. */
  lemma StatusColsNamed(q: nat)
    requires q < |STATUS_COLS|
    ensures STATUS_COLS[q] == StatusName(FEEDBACK_COLS[q])
  {
    if q == 0 {
      assert StatusName(FEEDBACK_COLS[0]) == STATUS_COLS[0];
    } else if q == 1 {
      assert StatusName(FEEDBACK_COLS[1]) == STATUS_COLS[1];
    } else {
      assert StatusName(FEEDBACK_COLS[2]) == STATUS_COLS[2];
    }
  }

  /** The replacement table sends each status column to its question's label. */
  lemma LabelOf(q: nat)
    requires q < |STATUS_COLS|
    ensures STATUS_COLS[q] in LABELS && LABELS[STATUS_COLS[q]] == QUESTION_LABELS[q]
  {
    assert STATUS_COLS[0][9] != STATUS_COLS[1][9] && STATUS_COLS[1][9] != STATUS_COLS[2][9];
    assert STATUS_COLS[0][9] != STATUS_COLS[2][9];
  }

  /** The listed names that are not columns of `f`, in the listed order. */
  function MissingOf(f: Frame, names: seq<string>): (r: seq<string>)
    ensures forall n :: n in r <==> n in names && n !in f.data
    ensures r == [] <==> forall n :: n in names ==> n in f.data
  {
    if names == [] then []
    else (if names[0] in f.data then [] else [names[0]]) + MissingOf(f, names[1..])
  }

  /** The listed names that are columns of `f`, in the listed order. */
  function PresentOf(f: Frame, names: seq<string>): (r: seq<string>)
    ensures forall n :: n in r <==> n in names && n in f.data
    ensures |r| <= |names|
  {
    if names == [] then []
    else (if names[0] in f.data then [names[0]] else []) + PresentOf(f, names[1..])
  }

  /** The melted rows of one value column, in row order. */
  function Block(f: Frame, idVar: string, v: string): seq<LongRow>
    requires WellFormed(f) && idVar in f.data && v in f.data
  {
    seq(f.height, k requires 0 <= k < f.height => LongRow(f.data[idVar][k], v, f.data[v][k]))
  }

  /** The blocks of the value columns, one after the other. */
  function Stack(f: Frame, idVar: string, vars: seq<string>): seq<LongRow>
    requires WellFormed(f) && idVar in f.data
    requires forall v :: v in vars ==> v in f.data
  {
    if vars == [] then [] else Block(f, idVar, vars[0]) + Stack(f, idVar, vars[1..])
  }

  /** The name `melt` gives the value column of the long table. */
  const VALUE_NAME: string := "Status"

  /** DataFrame.melt with one id column, as pandas 2.2 does it: ValueError
      when the value column's name is already a column of the frame;
      otherwise KeyError listing the id and value columns that are missing. */
  function Melt(f: Frame, idVar: string, vars: seq<string>, valueName: string): (r: Result<seq<LongRow>>)
    requires WellFormed(f)
    ensures r.ValueError? <==> valueName in f.data
    ensures r.Ok? <==> valueName !in f.data && idVar in f.data && forall v :: v in vars ==> v in f.data
    ensures r.KeyError? ==> forall n :: n in r.missing <==> (n == idVar || n in vars) && n !in f.data
    ensures r.Ok? ==> |r.value| == |vars| * f.height
  {
    if valueName in f.data then ValueError
    else if MissingOf(f, [idVar] + vars) != [] then KeyError(MissingOf(f, [idVar] + vars))
    else
      StackLength(f, idVar, vars);
      Ok(Stack(f, idVar, vars))
  }

  /** Series.replace(m) on the question column: names in `m` are replaced,
      others are kept. */
  function Relabel(rows: seq<LongRow>, m: map<string, string>): (r: seq<LongRow>)
    ensures |r| == |rows|
    ensures forall i :: 0 <= i < |rows| ==>
      && r[i].id == rows[i].id
      && r[i].status == rows[i].status
      && (rows[i].question in m ==> r[i].question == m[rows[i].question])
      && (rows[i].question !in m ==> r[i].question == rows[i].question)
  {
    seq(|rows|, i requires 0 <= i < |rows| =>
      rows[i].(question := if rows[i].question in m then m[rows[i].question] else rows[i].question))
  }

  /** The long table the chart is drawn from, as the page builds it. */
  function LongForm(f: Frame): (r: Result<seq<LongRow>>)
    requires WellFormed(f)
    ensures r.ValueError? <==> VALUE_NAME in f.data
    ensures r.Ok? <==>
      VALUE_NAME !in f.data && STUDENT_ID in f.data && forall q :: 0 <= q < |STATUS_COLS| ==> STATUS_COLS[q] in f.data
    ensures r.KeyError? ==>
      forall n :: n in r.missing <==> (n == STUDENT_ID || n in STATUS_COLS) && n !in f.data
  {
    var m := Melt(f, STUDENT_ID, STATUS_COLS, VALUE_NAME);
    if m.Ok? then Ok(Relabel(m.value, LABELS)) else m
  }

  // ---------------------------------------------------------------------
  // Shape of the melted table
  // ---------------------------------------------------------------------

  /** The melted table has one row per (value column, row) pair. */
  lemma {:induction false} StackLength(f: Frame, idVar: string, vars: seq<string>)
    requires WellFormed(f) && idVar in f.data
    requires forall v :: v in vars ==> v in f.data
    ensures |Stack(f, idVar, vars)| == |vars| * f.height
  {
    if vars != [] {
      StackLength(f, idVar, vars[1..]);
      assert |vars| * f.height == f.height + (|vars| - 1) * f.height;
    }
  }

  // ---------------------------------------------------------------------
  // Tallies drawn by the grouped histogram
  // ---------------------------------------------------------------------

  /** Number of long rows with this question and this status: one bar of the
      grouped histogram. */
  function Tally(rows: seq<LongRow>, question: string, status: Cell): (r: nat)
    ensures r <= |rows|
    ensures r == 0 <==> forall i :: 0 <= i < |rows| ==> !(rows[i].question == question && rows[i].status == status)
  {
    if rows == [] then 0
    else (if rows[0].question == question && rows[0].status == status then 1 else 0)
         + Tally(rows[1..], question, status)
  }

  /** Number of cells of a column equal to `v`. */
  function CountCells(col: seq<Cell>, v: Cell): nat
  {
    if col == [] then 0 else (if col[0] == v then 1 else 0) + CountCells(col[1..], v)
  }

  /** Number of feedback cells whose marker says correct. */
  function CorrectCount(feedback: seq<Cell>): nat
  {
    if feedback == [] then 0
    else (if MarkedCorrect(Render(feedback[0])) then 1 else 0) + CorrectCount(feedback[1..])
  }

  /** The rows of one question after relabelling. */
  function LabelledBlock(f: Frame, q: nat): (r: seq<LongRow>)
    requires WellFormed(f) && STUDENT_ID in f.data && q < |STATUS_COLS| && STATUS_COLS[q] in f.data
    ensures |r| == f.height
  {
    seq(f.height, k requires 0 <= k < f.height =>
      LongRow(f.data[STUDENT_ID][k], QUESTION_LABELS[q], f.data[STATUS_COLS[q]][k]))
  }

  lemma {:induction false} TallyAppend(a: seq<LongRow>, b: seq<LongRow>, question: string, status: Cell)
    ensures Tally(a + b, question, status) == Tally(a, question, status) + Tally(b, question, status)
  {
    if a != [] {
      assert (a + b)[0] == a[0];
      assert (a + b)[1..] == a[1..] + b;
      TallyAppend(a[1..], b, question, status);
    } else {
      assert a + b == b;
    }
  }

  /** The bar of a question counts that question's cells with that status;
      the block of another question contributes nothing. */
  lemma {:induction false} TallyOfBlock(ids: seq<Cell>, tag: string, statuses: seq<Cell>, question: string, status: Cell)
    requires |ids| == |statuses|
    ensures var block := seq(|ids|, k requires 0 <= k < |ids| => LongRow(ids[k], tag, statuses[k]));
      Tally(block, question, status) == if tag == question then CountCells(statuses, status) else 0
  {
    var block := seq(|ids|, k requires 0 <= k < |ids| => LongRow(ids[k], tag, statuses[k]));
    if ids != [] {
      TallyOfBlock(ids[1..], tag, statuses[1..], question, status);
      assert block[1..] == seq(|ids[1..]|, k requires 0 <= k < |ids[1..]| => LongRow(ids[1..][k], tag, statuses[1..][k]));
    }
  }

  /** A column of classifier labels holds only the two labels: they add up
      to the column length, the correct ones are the feedback cells whose
      marker says correct, and any other value occurs nowhere. */
  lemma StatusColumnCounts(feedback: seq<Cell>)
    ensures CountCells(StatusColumn(feedback), Text(CORRECT)) == CorrectCount(feedback)
    ensures CountCells(StatusColumn(feedback), Text(CORRECT)) + CountCells(StatusColumn(feedback), Text(NEEDS_WORK)) == |feedback|
    ensures forall v :: v != Text(CORRECT) && v != Text(NEEDS_WORK) ==> CountCells(StatusColumn(feedback), v) == 0
  {
    CorrectLabels(feedback);
    TwoLabels(feedback);
    forall v | v != Text(CORRECT) && v != Text(NEEDS_WORK) ensures CountCells(StatusColumn(feedback), v) == 0 {
      NoOtherLabel(feedback, v);
    }
  }

  /** The "correct" labels are the feedback cells whose marker says correct. */
  lemma {:induction false} CorrectLabels(feedback: seq<Cell>)
    ensures CountCells(StatusColumn(feedback), Text(CORRECT)) == CorrectCount(feedback)
  {
    if feedback != [] {
      CorrectLabels(feedback[1..]);
      StatusColumnCons(feedback);
    }
  }

  /** The two labels together fill the column. */
  lemma {:induction false} TwoLabels(feedback: seq<Cell>)
    ensures CountCells(StatusColumn(feedback), Text(CORRECT)) + CountCells(StatusColumn(feedback), Text(NEEDS_WORK)) == |feedback|
  {
    if feedback != [] {
      TwoLabels(feedback[1..]);
      StatusColumnCons(feedback);
    }
  }

  /** No other value occurs in the column. */
  lemma {:induction false} NoOtherLabel(feedback: seq<Cell>, v: Cell)
    requires v != Text(CORRECT) && v != Text(NEEDS_WORK)
    ensures CountCells(StatusColumn(feedback), v) == 0
  {
    if feedback != [] {
      NoOtherLabel(feedback[1..], v);
      StatusColumnCons(feedback);
    }
  }

  /** The label column of a non-empty feedback column is the head's label
      followed by the label column of the tail. */
  lemma StatusColumnCons(feedback: seq<Cell>)
    requires feedback != []
    ensures StatusColumn(feedback) != [] && StatusColumn(feedback)[1..] == StatusColumn(feedback[1..])
    ensures StatusColumn(feedback)[0] == Text(StatusOf(feedback[0]))
    ensures StatusOf(feedback[0]) == CORRECT <==> MarkedCorrect(Render(feedback[0]))
    ensures StatusOf(feedback[0]) == CORRECT || StatusOf(feedback[0]) == NEEDS_WORK
  {
    assert StatusColumn(feedback)[1..] == StatusColumn(feedback[1..]);
  }

  /** Relabelling one melted block gives the labelled block of its question. */
  lemma RelabelBlock(f: Frame, q: nat)
    requires WellFormed(f) && STUDENT_ID in f.data && q < |STATUS_COLS| && STATUS_COLS[q] in f.data
    ensures Relabel(Block(f, STUDENT_ID, STATUS_COLS[q]), LABELS) == LabelledBlock(f, q)
  {
    LabelOf(q);
  }

  lemma RelabelAppend(a: seq<LongRow>, b: seq<LongRow>, m: map<string, string>)
    ensures Relabel(a + b, m) == Relabel(a, m) + Relabel(b, m)
  {
  }

  /** The long form is the three question blocks one after the other: all
      rows of question 1 in input order, then those of question 2, then
      those of question 3; row `k` of each block carries the id and the status
      of submission `k` and its question's fixed label. Hence it has exactly
      three rows per submission. */
  lemma LongFormShape(f: Frame)
    requires WellFormed(f) && STUDENT_ID in f.data && VALUE_NAME !in f.data
    requires forall q :: 0 <= q < |STATUS_COLS| ==> STATUS_COLS[q] in f.data
    ensures LongForm(f) == Ok(LabelledBlock(f, 0) + LabelledBlock(f, 1) + LabelledBlock(f, 2))
    ensures |LongForm(f).value| == |QUESTION_LABELS| * f.height
    ensures forall q, k :: 0 <= q < |STATUS_COLS| && 0 <= k < f.height ==>
      LabelledBlock(f, q)[k] == LongRow(f.data[STUDENT_ID][k], QUESTION_LABELS[q], f.data[STATUS_COLS[q]][k])
  {
    RelabelThree(f);
    assert Melt(f, STUDENT_ID, STATUS_COLS, VALUE_NAME) == Ok(Stack(f, STUDENT_ID, STATUS_COLS));
  }

  /** Melting the three status columns stacks their blocks in order. */
  lemma StackThree(f: Frame)
    requires WellFormed(f) && STUDENT_ID in f.data
    requires forall q :: 0 <= q < |STATUS_COLS| ==> STATUS_COLS[q] in f.data
    ensures Stack(f, STUDENT_ID, STATUS_COLS) ==
      Block(f, STUDENT_ID, STATUS_COLS[0]) + (Block(f, STUDENT_ID, STATUS_COLS[1]) + Block(f, STUDENT_ID, STATUS_COLS[2]))
  {
    var b1, b2 := Block(f, STUDENT_ID, STATUS_COLS[1]), Block(f, STUDENT_ID, STATUS_COLS[2]);
    var s1 := STATUS_COLS[1..];
    var s2 := s1[1..];
    assert s1[0] == STATUS_COLS[1] && s2[0] == STATUS_COLS[2] && s2[1..] == [];
    assert Stack(f, STUDENT_ID, s2) == b2 + [] == b2;
    assert Stack(f, STUDENT_ID, s1) == b1 + b2;
  }

  /** Relabelling the stacked blocks gives the three labelled blocks. */
  lemma RelabelThree(f: Frame)
    requires WellFormed(f) && STUDENT_ID in f.data
    requires forall q :: 0 <= q < |STATUS_COLS| ==> STATUS_COLS[q] in f.data
    ensures Relabel(Stack(f, STUDENT_ID, STATUS_COLS), LABELS) == LabelledBlock(f, 0) + LabelledBlock(f, 1) + LabelledBlock(f, 2)
  {
    var b0, b1, b2 := Block(f, STUDENT_ID, STATUS_COLS[0]), Block(f, STUDENT_ID, STATUS_COLS[1]), Block(f, STUDENT_ID, STATUS_COLS[2]);
    StackThree(f);
    RelabelAppend(b0, b1 + b2, LABELS);
    RelabelAppend(b1, b2, LABELS);
    RelabelBlock(f, 0);
    RelabelBlock(f, 1);
    RelabelBlock(f, 2);
    var l0, l1, l2 := LabelledBlock(f, 0), LabelledBlock(f, 1), LabelledBlock(f, 2);
    assert l0 + (l1 + l2) == l0 + l1 + l2;
  }

  /** The chart's tallies on the classifier's output: for every question the
      correct and needs-work bars add up to the number of submissions, and the
      correct bar counts the feedback texts whose marker says correct. */
  lemma ChartTallies(f: Frame)
    requires WellFormed(f) && STUDENT_ID in f.data && VALUE_NAME !in f.data
    requires forall i :: 0 <= i < |FEEDBACK_COLS| ==> FEEDBACK_COLS[i] in f.data
    ensures LongForm(Classify(f)).Ok?
    ensures var rows := LongForm(Classify(f)).value;
      forall q :: 0 <= q < |QUESTION_LABELS| ==>
        && Tally(rows, QUESTION_LABELS[q], Text(CORRECT)) == CorrectCount(f.data[FEEDBACK_COLS[q]])
        && Tally(rows, QUESTION_LABELS[q], Text(CORRECT)) + Tally(rows, QUESTION_LABELS[q], Text(NEEDS_WORK)) == f.height
  {
    var g := Classify(f);
    ChartColumns(f);
    LongFormShape(g);
    var rows := LongForm(g).value;
    forall q | 0 <= q < |QUESTION_LABELS|
      ensures && Tally(rows, QUESTION_LABELS[q], Text(CORRECT)) == CorrectCount(f.data[FEEDBACK_COLS[q]])
              && Tally(rows, QUESTION_LABELS[q], Text(CORRECT)) + Tally(rows, QUESTION_LABELS[q], Text(NEEDS_WORK)) == f.height
    {
      StatusColumnCounts(f.data[FEEDBACK_COLS[q]]);
      TallyThree(g, QUESTION_LABELS[q], Text(CORRECT));
      TallyThree(g, QUESTION_LABELS[q], Text(NEEDS_WORK));
    }
  }

  /** The chart's long table on the classifier's output has three rows per
      submission, and no question other than the three labels and no status
      other than the two labels occurs in it. */
  lemma ChartValues(f: Frame)
    requires WellFormed(f) && STUDENT_ID in f.data && VALUE_NAME !in f.data
    requires forall i :: 0 <= i < |FEEDBACK_COLS| ==> FEEDBACK_COLS[i] in f.data
    ensures LongForm(Classify(f)).Ok?
    ensures var rows := LongForm(Classify(f)).value;
      && |rows| == |QUESTION_LABELS| * f.height
      && forall r :: r in rows ==>
           && r.question in QUESTION_LABELS
           && (r.status == Text(CORRECT) || r.status == Text(NEEDS_WORK))
  {
    var g := Classify(f);
    ChartColumns(f);
    LongFormShape(g);
    var l0, l1, l2 := LabelledBlock(g, 0), LabelledBlock(g, 1), LabelledBlock(g, 2);
    forall q | 0 <= q < |STATUS_COLS|
      ensures forall r :: r in LabelledBlock(g, q) ==>
        && r.question == QUESTION_LABELS[q]
        && (r.status == Text(CORRECT) || r.status == Text(NEEDS_WORK))
    {
      OnlyTwoLabels(f.data[FEEDBACK_COLS[q]]);
      BlockMembers(g, q);
    }
    forall r: LongRow | r in l0 + l1 + l2
      ensures r.question in QUESTION_LABELS && (r.status == Text(CORRECT) || r.status == Text(NEEDS_WORK))
    {
      assert r in l0 || r in l1 || r in l2;
    }
  }

  /** The classifier writes only its two labels. */
  lemma OnlyTwoLabels(feedback: seq<Cell>)
    ensures forall k :: 0 <= k < |feedback| ==>
      StatusColumn(feedback)[k] == Text(CORRECT) || StatusColumn(feedback)[k] == Text(NEEDS_WORK)
  {
  }

  /** Every row of a question's block carries that question's label and, when
      the status column holds classifier labels, one of the two labels. */
  lemma BlockMembers(g: Frame, q: nat)
    requires WellFormed(g) && STUDENT_ID in g.data && q < |STATUS_COLS| && STATUS_COLS[q] in g.data
    requires forall k :: 0 <= k < g.height ==>
      g.data[STATUS_COLS[q]][k] == Text(CORRECT) || g.data[STATUS_COLS[q]][k] == Text(NEEDS_WORK)
    ensures forall r :: r in LabelledBlock(g, q) ==>
      && r.question == QUESTION_LABELS[q]
      && (r.status == Text(CORRECT) || r.status == Text(NEEDS_WORK))
  {
  }

  /** The columns the chart reads from the classifier's output: the id column
      as it was and, for each question, the labels of its feedback column. */
  lemma ChartColumns(f: Frame)
    requires WellFormed(f) && STUDENT_ID in f.data
    requires forall i :: 0 <= i < |FEEDBACK_COLS| ==> FEEDBACK_COLS[i] in f.data
    ensures var g := Classify(f);
      && STUDENT_ID in g.data && g.data[STUDENT_ID] == f.data[STUDENT_ID]
      && forall q :: 0 <= q < |STATUS_COLS| ==>
           STATUS_COLS[q] in g.data && g.data[STATUS_COLS[q]] == StatusColumn(f.data[FEEDBACK_COLS[q]])
  {
    ClassifyKeepsOriginal(f);
    ClassifyStatusColumns(f);
    var g := Classify(f);
    IdAndTimeNotAdded(f);
    forall q | 0 <= q < |STATUS_COLS|
      ensures STATUS_COLS[q] in g.data && g.data[STATUS_COLS[q]] == StatusColumn(f.data[FEEDBACK_COLS[q]])
    {
      StatusColsNamed(q);
    }
  }

  /** The classifier writes only the melted status columns: the status
      column of question `q` exactly when its feedback column is present. */
  lemma AddedAreStatusCols(f: Frame)
    ensures forall c :: c in AddedColumns(f) ==> c in STATUS_COLS
    ensures forall q :: 0 <= q < |STATUS_COLS| ==> (STATUS_COLS[q] in AddedColumns(f) <==> FEEDBACK_COLS[q] in f.data)
  {
    StatusColsNamed(0);
    StatusColsNamed(1);
    StatusColsNamed(2);
    NamesDisjoint();
  }

  /** A status column is in the classified table iff the table already had
      it or has the feedback column it is computed from. */
  lemma StatusInClassified(f: Frame)
    requires WellFormed(f)
    ensures forall q :: 0 <= q < |STATUS_COLS| ==>
      (STATUS_COLS[q] in Classify(f).data <==> FEEDBACK_COLS[q] in f.data || STATUS_COLS[q] in f.data)
    ensures VALUE_NAME in Classify(f).data <==> VALUE_NAME in f.data
  {
    AddedAreStatusCols(f);
  }

  /** A bar of the chart is the count in the status column of its question. */
  lemma TallyThree(g: Frame, question: string, status: Cell)
    requires WellFormed(g) && STUDENT_ID in g.data
    requires forall q :: 0 <= q < |STATUS_COLS| ==> STATUS_COLS[q] in g.data
    ensures forall q :: 0 <= q < |QUESTION_LABELS| && question == QUESTION_LABELS[q] ==>
      Tally(LabelledBlock(g, 0) + LabelledBlock(g, 1) + LabelledBlock(g, 2), question, status)
        == CountCells(g.data[STATUS_COLS[q]], status)
  {
    var ids := g.data[STUDENT_ID];
    TallyAppend(LabelledBlock(g, 0) + LabelledBlock(g, 1), LabelledBlock(g, 2), question, status);
    TallyAppend(LabelledBlock(g, 0), LabelledBlock(g, 1), question, status);
    TallyOfBlock(ids, QUESTION_LABELS[0], g.data[STATUS_COLS[0]], question, status);
    TallyOfBlock(ids, QUESTION_LABELS[1], g.data[STATUS_COLS[1]], question, status);
    TallyOfBlock(ids, QUESTION_LABELS[2], g.data[STATUS_COLS[2]], question, status);
    assert LabelledBlock(g, 0) == seq(|ids|, k requires 0 <= k < |ids| => LongRow(ids[k], QUESTION_LABELS[0], g.data[STATUS_COLS[0]][k]));
    assert LabelledBlock(g, 1) == seq(|ids|, k requires 0 <= k < |ids| => LongRow(ids[k], QUESTION_LABELS[1], g.data[STATUS_COLS[1]][k]));
    assert LabelledBlock(g, 2) == seq(|ids|, k requires 0 <= k < |ids| => LongRow(ids[k], QUESTION_LABELS[2], g.data[STATUS_COLS[2]][k]));
  }

  // ---------------------------------------------------------------------
  // A feedback column missing from the input
  // ---------------------------------------------------------------------

  /** As written, the page melts all three status columns by name, so a
      feedback column the classifier skipped (and whose status column is not
      there either) makes the chart step raise KeyError naming it. */
  lemma LongFormRejectsMissingFeedback(f: Frame, q: nat)
    requires WellFormed(f) && STUDENT_ID in f.data && VALUE_NAME !in f.data && q < |FEEDBACK_COLS|
    requires FEEDBACK_COLS[q] !in f.data && STATUS_COLS[q] !in f.data
    ensures LongForm(Classify(f)).KeyError?
    ensures STATUS_COLS[q] in LongForm(Classify(f)).missing
  {
    var g := Classify(f);
    StatusInClassified(f);
    IdAndTimeNotAdded(f);
    assert STUDENT_ID in g.data;
  }

  /** A one-row submissions table without a `feedback_3` column. */
  const TwoQuestionTable: Frame :=
    Frame([STUDENT_ID, "feedback_1", "feedback_2", CREATED_AT],
          map[STUDENT_ID := [Text("s1")], "feedback_1" := [Text("O: good")], "feedback_2" := [Text("X: unit")],
              CREATED_AT := [Time(1)]],
          1)

  /** On that table the page's chart step fails with KeyError. */
  lemma TwoQuestionTableRejected()
    ensures WellFormed(TwoQuestionTable)
    ensures LongForm(Classify(TwoQuestionTable)).KeyError?
  {
    TwoQuestionColumns();
    LongFormRejectsMissingFeedback(TwoQuestionTable, 2);
  }

  /** The columns of that table: an id, a time, no third feedback or status
      column and no "Status" column. */
  lemma TwoQuestionColumns()
    ensures WellFormed(TwoQuestionTable) && !Empty(TwoQuestionTable)
    ensures STUDENT_ID in TwoQuestionTable.data && CREATED_AT in TwoQuestionTable.data
    ensures !IsNA(TwoQuestionTable.data[CREATED_AT][0])
    ensures FEEDBACK_COLS[2] !in TwoQuestionTable.data && STATUS_COLS[2] !in TwoQuestionTable.data
    ensures VALUE_NAME !in TwoQuestionTable.data
  {
    var f := TwoQuestionTable;
    assert f.data.Keys == {STUDENT_ID, "feedback_1", "feedback_2", CREATED_AT};
  }

  /** The long form as the classifier's tolerance of missing feedback columns
      intends it: melt only the status columns that exist. */
  function TolerantLongForm(f: Frame): (r: Result<seq<LongRow>>)
    requires WellFormed(f)
    ensures r.ValueError? <==> VALUE_NAME in f.data
    ensures r.Ok? <==> VALUE_NAME !in f.data && STUDENT_ID in f.data
    ensures r.KeyError? ==> forall n :: n in r.missing <==> n == STUDENT_ID
  {
    var m := Melt(f, STUDENT_ID, PresentOf(f, STATUS_COLS), VALUE_NAME);
    if m.Ok? then Ok(Relabel(m.value, LABELS)) else m
  }

  /** The tolerant long form has one row per present status column per
      submission, labels every row with a
      question label, and equals the page's long form whenever all three
      status columns exist. */
  lemma TolerantLongFormShape(f: Frame)
    requires WellFormed(f)
    ensures TolerantLongForm(f).Ok? ==>
      |TolerantLongForm(f).value| == |PresentOf(f, STATUS_COLS)| * f.height
    ensures TolerantLongForm(f).Ok? ==>
      forall r :: r in TolerantLongForm(f).value ==> r.question in QUESTION_LABELS
    ensures STUDENT_ID in f.data && (forall q :: 0 <= q < |STATUS_COLS| ==> STATUS_COLS[q] in f.data) ==>
      TolerantLongForm(f) == LongForm(f)
  {
    if STUDENT_ID in f.data && VALUE_NAME !in f.data {
      var vars := PresentOf(f, STATUS_COLS);
      StackLength(f, STUDENT_ID, vars);
      StackQuestions(f, STUDENT_ID, vars);
      RelabelQuestions(Stack(f, STUDENT_ID, vars), vars);
      if forall q :: 0 <= q < |STATUS_COLS| ==> STATUS_COLS[q] in f.data {
        PresentOfAll(f, STATUS_COLS);
      }
    }
  }

  /** Relabelling rows whose questions are status columns names each with
      a question label. */
  lemma RelabelQuestions(rows: seq<LongRow>, vars: seq<string>)
    requires forall v :: v in vars ==> v in STATUS_COLS
    requires forall r :: r in rows ==> r.question in vars
    ensures forall r :: r in Relabel(rows, LABELS) ==> r.question in QUESTION_LABELS
  {
    var out := Relabel(rows, LABELS);
    forall i | 0 <= i < |out| ensures out[i].question in QUESTION_LABELS {
      assert rows[i] in rows;
      var q :| 0 <= q < |STATUS_COLS| && STATUS_COLS[q] == rows[i].question;
      LabelOf(q);
    }
  }

  /** Every melted row's question is one of the value columns. */
  lemma {:induction false} StackQuestions(f: Frame, idVar: string, vars: seq<string>)
    requires WellFormed(f) && idVar in f.data
    requires forall v :: v in vars ==> v in f.data
    ensures forall r :: r in Stack(f, idVar, vars) ==> r.question in vars
  {
    if vars != [] {
      StackQuestions(f, idVar, vars[1..]);
    }
  }

  /** PresentOf keeps the listed order: it distributes over concatenation. */
  lemma {:induction false} PresentOfAppend(f: Frame, a: seq<string>, b: seq<string>)
    ensures PresentOf(f, a + b) == PresentOf(f, a) + PresentOf(f, b)
  {
    if a != [] {
      assert (a + b)[1..] == a[1..] + b;
      PresentOfAppend(f, a[1..], b);
    } else {
      assert a + b == b;
    }
  }

  /** Keeping the present names of a list without repeats gives a list
      without repeats. */
  lemma {:induction false} PresentOfDistinct(f: Frame, names: seq<string>)
    requires Distinct(names)
    ensures Distinct(PresentOf(f, names))
  {
    if names != [] {
      var rest := names[1..];
      assert Distinct(rest);
      PresentOfDistinct(f, rest);
      assert forall k :: 0 <= k < |rest| ==> rest[k] == names[k + 1] != names[0];
    }
  }

  /** Frames with the same listed columns keep the same names. */
  lemma {:induction false} PresentOfSame(f: Frame, g: Frame, names: seq<string>)
    requires forall n :: n in names ==> (n in f.data <==> n in g.data)
    ensures PresentOf(f, names) == PresentOf(g, names)
  {
    if names != [] {
      PresentOfSame(f, g, names[1..]);
    }
  }

  /** When every listed name is a column, all of them are present. */
  lemma {:induction false} PresentOfAll(f: Frame, names: seq<string>)
    requires forall n :: n in names ==> n in f.data
    ensures PresentOf(f, names) == names
  {
    if names != [] {
      PresentOfAll(f, names[1..]);
    }
  }

  /** Relabelling rows drawn from some status columns never produces the
      label of a status column that is not among them. */
  lemma RelabelOthers(rows: seq<LongRow>, vars: seq<string>, q: nat)
    requires q < |STATUS_COLS| && STATUS_COLS[q] !in vars
    requires forall v :: v in vars ==> v in STATUS_COLS
    requires forall r :: r in rows ==> r.question in vars
    ensures forall r :: r in Relabel(rows, LABELS) ==> r.question != QUESTION_LABELS[q]
  {
    var out := Relabel(rows, LABELS);
    forall i | 0 <= i < |out| ensures out[i].question != QUESTION_LABELS[q] {
      assert rows[i] in rows;
      var p :| 0 <= p < |STATUS_COLS| && STATUS_COLS[p] == rows[i].question;
      LabelOf(p);
      assert QUESTION_LABELS[p][3] != QUESTION_LABELS[q][3];
    }
  }
}
