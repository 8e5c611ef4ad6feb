/**
  The drill-down section: a select box offering "전체 보기" (show all)
  followed by every student id in the table, and the rows shown for the
  selected entry.
*/
module DrillDown {
  import opened Wrappers
  import opened Frames
  import opened Grading
  import opened Reshape

  /** The select box's first entry, meaning "show every submission". */
  const SENTINEL: string := "전체 보기"

  /** The columns of the all-submissions table, in display order. */
  const TABLE_COLS: seq<string> :=
    [STUDENT_ID, "answer_1", "feedback_1", "answer_2", "feedback_2", "answer_3", "feedback_3", CREATED_AT]

  // ---------------------------------------------------------------------
  // Series.unique()
  // ---------------------------------------------------------------------

  /** The index of the first occurrence of `x` in `s`. */
  ghost function FirstPos(s: seq<Cell>, x: Cell): (p: nat)
    requires x in s
    ensures p < |s| && s[p] == x && x !in s[..p]
  {
    if s[0] == x then 0
    else
      var p := FirstPos(s[1..], x) + 1;
      assert s[..p] == [s[0]] + s[1..][..p - 1];
      p
  }

  /** A first occurrence is the first occurrence. */
  lemma FirstPosUnique(s: seq<Cell>, x: Cell, p: nat)
    requires p < |s| && s[p] == x && x !in s[..p]
    ensures FirstPos(s, x) == p
  {
    var q := FirstPos(s, x);
    assert forall j :: 0 <= j < p ==> s[..p][j] == s[j];
    assert forall j :: 0 <= j < q ==> s[..q][j] == s[j];
  }

  /** Appending an element leaves the first occurrences of the others alone. */
  lemma FirstPosPrefix(s: seq<Cell>, x: Cell)
    requires |s| > 0 && x in s[..|s| - 1]
    ensures FirstPos(s, x) == FirstPos(s[..|s| - 1], x)
  {
    var pre := s[..|s| - 1];
    var p := FirstPos(pre, x);
    assert s[..p] == pre[..p];
    FirstPosUnique(s, x, p);
  }

  /** Series.unique(): each distinct value once, in order of first
      appearance; None and NaN are values like any other. */
  function Unique(s: seq<Cell>): (u: seq<Cell>)
    ensures Distinct(u) && |u| <= |s|
    ensures forall x :: x in u <==> x in s
  {
    if s == [] then []
    else
      var pre := s[..|s| - 1];
      var u := Unique(pre);
      assert forall x :: x in s <==> x in pre || x == s[|s| - 1];
      if s[|s| - 1] in u then u else u + [s[|s| - 1]]
  }

  /** The values of `Unique(s)` come in the order of their first appearance
      in `s`. */
  lemma {:induction false} UniqueOrder(s: seq<Cell>)
    ensures forall i, j :: 0 <= i < j < |Unique(s)| ==>
      FirstPos(s, Unique(s)[i]) < FirstPos(s, Unique(s)[j])
  {
    if s != [] {
      var pre := s[..|s| - 1];
      var x := s[|s| - 1];
      var u := Unique(pre);
      UniqueOrder(pre);
      forall y | y in u ensures FirstPos(s, y) == FirstPos(pre, y) && FirstPos(pre, y) < |pre| {
        FirstPosPrefix(s, y);
      }
      if x !in u {
        assert x !in s[..|s| - 1];
        FirstPosUnique(s, x, |s| - 1);
        assert Unique(s) == u + [x];
      }
    }
  }

  /** A distinct sequence has as many elements as its set of values. */
  lemma {:induction false} DistinctCard(u: seq<Cell>)
    requires Distinct(u)
    ensures |set x | x in u| == |u|
  {
    if u != [] {
      var rest := u[1..];
      DistinctCard(rest);
      assert (set x | x in u) == (set x | x in rest) + {u[0]};
      assert forall k :: 0 <= k < |rest| ==> rest[k] == u[k + 1] != u[0];
    }
  }

  // ---------------------------------------------------------------------
  // The select box
  // ---------------------------------------------------------------------

  /** The select box entries: the sentinel, then the unique student ids. */
  function StudentOptions(f: Frame): (r: Result<seq<Cell>>)
    requires WellFormed(f)
    ensures r.Ok? <==> STUDENT_ID in f.data
    ensures r.Ok? ==> |r.value| >= 1 && r.value[0] == Text(SENTINEL)
    ensures r.Ok? ==> forall x :: x in r.value[1..] <==> x in f.data[STUDENT_ID]
  {
    if STUDENT_ID !in f.data then KeyError([STUDENT_ID])
    else Ok([Text(SENTINEL)] + Unique(f.data[STUDENT_ID]))
  }

  /** The entries after the sentinel are the distinct student ids in order
      of first appearance, each once, and there is one per distinct id; when
      no id is missing that is the number of distinct students plus one. */
  lemma OptionsShape(f: Frame)
    requires WellFormed(f) && STUDENT_ID in f.data
    ensures var opts := StudentOptions(f).value; var ids := f.data[STUDENT_ID];
      && opts[1..] == Unique(ids)
      && Distinct(opts[1..])
      && (forall i, j :: 1 <= i < j < |opts| ==> FirstPos(ids, opts[i]) < FirstPos(ids, opts[j]))
      && |opts| == 1 + |set x | x in ids|
      && ((forall k :: 0 <= k < |ids| ==> !IsNA(ids[k])) ==> |opts| == 1 + |set x | x in ids && !IsNA(x)|)
  {
    var ids := f.data[STUDENT_ID];
    var u := Unique(ids);
    UniqueOrder(ids);
    DistinctCard(u);
    assert (set x | x in u) == (set x | x in ids);
    if forall k :: 0 <= k < |ids| ==> !IsNA(ids[k]) {
      assert (set x | x in ids && !IsNA(x)) == (set x | x in ids);
    }
  }

  // ---------------------------------------------------------------------
  // Filtering by student
  // ---------------------------------------------------------------------

  /** `series == sel` on an object column: missing values equal nothing. */
  predicate Matches(a: Cell, sel: Cell)
  {
    !IsNA(a) && !IsNA(sel) && a == sel
  }

  predicate Increasing(rows: seq<nat>)
  {
    forall i, j :: 0 <= i < j < |rows| ==> rows[i] < rows[j]
  }

  /** The positions of the rows whose id matches `sel`, in row order. */
  function MatchingRows(ids: seq<Cell>, sel: Cell): (r: seq<nat>)
    ensures Increasing(r)
    ensures forall i :: 0 <= i < |r| ==> r[i] < |ids| && Matches(ids[r[i]], sel)
    ensures forall k :: 0 <= k < |ids| ==> (k in r <==> Matches(ids[k], sel))
  {
    if ids == [] then []
    else
      var pre := MatchingRows(ids[..|ids| - 1], sel);
      if Matches(ids[|ids| - 1], sel) then pre + [|ids| - 1] else pre
  }

  /** `df[df["student_id"] == sel]` */
  function StudentRows(f: Frame, sel: Cell): (r: Frame)
    requires WellFormed(f) && STUDENT_ID in f.data
    ensures WellFormed(r) && r.columns == f.columns
  {
    Select(f, MatchingRows(f.data[STUDENT_ID], sel))
  }

  /** The number of cells in `ids` that match `sel`. */
  function CountMatches(ids: seq<Cell>, sel: Cell): nat
  {
    if ids == [] then 0
    else CountMatches(ids[..|ids| - 1], sel) + (if Matches(ids[|ids| - 1], sel) then 1 else 0)
  }

  lemma {:induction false} MatchingRowsCount(ids: seq<Cell>, sel: Cell)
    ensures |MatchingRows(ids, sel)| == CountMatches(ids, sel)
  {
    if ids != [] {
      MatchingRowsCount(ids[..|ids| - 1], sel);
    }
  }

  /** The filter is exact and keeps the table's order: the result is the
      matching rows of `f`, every one of them, each once, in their original
      order, with all columns. */
  lemma StudentRowsExact(f: Frame, sel: Cell)
    requires WellFormed(f) && STUDENT_ID in f.data
    ensures var r := StudentRows(f, sel); var rows := MatchingRows(f.data[STUDENT_ID], sel);
      && r.height == |rows| == CountMatches(f.data[STUDENT_ID], sel)
      && Increasing(rows)
      && (forall k :: 0 <= k < f.height ==> (k in rows <==> Matches(f.data[STUDENT_ID][k], sel)))
      && (forall c, i :: c in f.data && 0 <= i < |rows| ==> c in r.data && r.data[c][i] == f.data[c][rows[i]])
      && (forall i :: 0 <= i < r.height ==> Matches(r.data[STUDENT_ID][i], sel))
  {
    MatchingRowsCount(f.data[STUDENT_ID], sel);
  }

  /** A selection that is no student's id, or is missing, selects nothing. */
  lemma AbsentSelectsNothing(f: Frame, sel: Cell)
    requires WellFormed(f) && STUDENT_ID in f.data
    requires sel !in f.data[STUDENT_ID] || IsNA(sel)
    ensures StudentRows(f, sel).height == 0
  {
    var ids := f.data[STUDENT_ID];
    assert forall k :: 0 <= k < |ids| ==> ids[k] in ids;
    NoMatchesCount(ids, sel);
    StudentRowsExact(f, sel);
  }

  lemma {:induction false} NoMatchesCount(ids: seq<Cell>, sel: Cell)
    requires forall k :: 0 <= k < |ids| ==> !Matches(ids[k], sel)
    ensures CountMatches(ids, sel) == 0
  {
    if ids != [] {
      NoMatchesCount(ids[..|ids| - 1], sel);
    }
  }

  /** Total rows selected over a list of options. */
  function SumMatches(ids: seq<Cell>, opts: seq<Cell>): nat
  {
    if opts == [] then 0 else CountMatches(ids, opts[0]) + SumMatches(ids, opts[1..])
  }

  /** The number of rows whose id is present and among `opts`. */
  function CountIn(ids: seq<Cell>, opts: seq<Cell>): nat
  {
    if ids == [] then 0
    else
      var x := ids[|ids| - 1];
      CountIn(ids[..|ids| - 1], opts) + (if !IsNA(x) && x in opts then 1 else 0)
  }

  /** One more row adds one to the total exactly when its id is present and
      among distinct `opts`. */
  lemma {:induction false} SumMatchesSnoc(pre: seq<Cell>, x: Cell, opts: seq<Cell>)
    requires Distinct(opts)
    ensures SumMatches(pre + [x], opts) == SumMatches(pre, opts) + (if !IsNA(x) && x in opts then 1 else 0)
  {
    if opts != [] {
      var s := pre + [x];
      assert s[..|s| - 1] == pre;
      SumMatchesSnoc(pre, x, opts[1..]);
      if x == opts[0] {
        assert forall k :: 0 <= k < |opts| - 1 ==> opts[1..][k] == opts[k + 1] != opts[0];
      }
    }
  }

  /** Summed over distinct options, the filters select exactly the rows whose
      id is present and among the options. */
  lemma {:induction false} SumMatchesCount(ids: seq<Cell>, opts: seq<Cell>)
    requires Distinct(opts)
    ensures SumMatches(ids, opts) == CountIn(ids, opts)
  {
    if ids == [] {
      SumMatchesEmpty(opts);
    } else {
      var pre := ids[..|ids| - 1];
      SumMatchesCount(pre, opts);
      assert ids == pre + [ids[|ids| - 1]];
      SumMatchesSnoc(pre, ids[|ids| - 1], opts);
    }
  }

  lemma {:induction false} SumMatchesEmpty(opts: seq<Cell>)
    ensures SumMatches([], opts) == 0
  {
    if opts != [] {
      SumMatchesEmpty(opts[1..]);
    }
  }

  /** When every option's id is in the list, the count is the number of
      rows with a present id. */
  lemma {:induction false} CountInAll(ids: seq<Cell>, opts: seq<Cell>)
    requires forall x :: x in ids ==> x in opts
    ensures CountIn(ids, opts) == |MatchingPresent(ids)|
  {
    if ids != [] {
      var pre := ids[..|ids| - 1];
      CountInAll(pre, opts);
    }
  }

  /** The positions of the rows whose id is present. */
  function MatchingPresent(ids: seq<Cell>): (r: seq<nat>)
    ensures forall i :: 0 <= i < |r| ==> r[i] < |ids|
    ensures forall k :: 0 <= k < |ids| ==> (k in r <==> !IsNA(ids[k]))
  {
    if ids == [] then []
    else
      var pre := MatchingPresent(ids[..|ids| - 1]);
      if !IsNA(ids[|ids| - 1]) then pre + [|ids| - 1] else pre
  }

  /** Choosing each student option in turn shows every row with a present id
      exactly once: a row is selected by an option iff the option is its id,
      and the selections together have as many rows as there are such rows.
      Rows whose id is missing are shown by no student option. */
  lemma OptionsPartitionRows(f: Frame)
    requires WellFormed(f) && STUDENT_ID in f.data
    ensures var ids := f.data[STUDENT_ID]; var opts := StudentOptions(f).value[1..];
      && (forall k :: 0 <= k < |ids| && !IsNA(ids[k]) ==> ids[k] in opts)
      && (forall k, o :: 0 <= k < |ids| && o in opts ==>
            (k in MatchingRows(ids, o) <==> !IsNA(o) && o == ids[k]))
      && SumMatches(ids, opts) == |MatchingPresent(ids)|
  {
    var ids := f.data[STUDENT_ID];
    var opts := Unique(ids);
    assert StudentOptions(f).value[1..] == opts;
    SumMatchesCount(ids, opts);
    CountInAll(ids, opts);
  }

  // ---------------------------------------------------------------------
  // What the section shows
  // ---------------------------------------------------------------------

  /** `df[cols]`: the listed columns in the listed order; KeyError names the
      missing ones. */
  function Project(f: Frame, cols: seq<string>): (r: Result<Frame>)
    requires WellFormed(f) && Distinct(cols)
    ensures r.Ok? <==> forall c :: c in cols ==> c in f.data
    ensures r.KeyError? ==> forall c :: c in r.missing <==> c in cols && c !in f.data
    ensures r.Ok? ==> WellFormed(r.value) && r.value.columns == cols && r.value.height == f.height
    ensures r.Ok? ==> forall c :: c in cols ==> c in r.value.data && r.value.data[c] == f.data[c]
  {
    if MissingOf(f, cols) != [] then KeyError(MissingOf(f, cols))
    else Ok(Frame(cols, map c | c in cols :: f.data[c], f.height))
  }

  lemma TableColsDistinct()
    ensures Distinct(TABLE_COLS)
  {
  }

  /** The columns each expander reads from a selected row after its header
      (student id and time), in reading order: per question its answer, its
      status and its feedback. */
  const PANEL_COLS: seq<string> :=
    ["answer_1", "feedback_1_status", "feedback_1",
     "answer_2", "feedback_2_status", "feedback_2",
     "answer_3", "feedback_3_status", "feedback_3"]

  /** Every selected row has a submission time. */
  predicate SelectedTimed(f: Frame, sel: Cell)
    requires WellFormed(f) && STUDENT_ID in f.data && CREATED_AT in f.data
  {
    forall k :: 0 <= k < f.height && Matches(f.data[STUDENT_ID][k], sel) ==> !IsNA(f.data[CREATED_AT][k])
  }

  /** The expanders, one per selected row in order: each header formats the
      row's time with strftime (ValueError on NaT), then the panels read
      `panels`; a column the rows lack raises KeyError at the first row. */
  function Cards(rows: Frame, panels: seq<string>): (r: Result<Frame>)
    requires WellFormed(rows) && STUDENT_ID in rows.data
    ensures r.Ok? <==> (rows.height == 0 ||
      (&& CREATED_AT in rows.data
       && (forall c :: c in panels ==> c in rows.data)
       && forall i :: 0 <= i < rows.height ==> !IsNA(rows.data[CREATED_AT][i])))
    ensures r.Ok? ==> r.value == rows
    ensures r.KeyError? ==>
      |r.missing| == 1 && r.missing[0] !in rows.data && (r.missing[0] == CREATED_AT || r.missing[0] in panels)
    ensures r.ValueError? ==>
      CREATED_AT in rows.data && exists i :: 0 <= i < rows.height && IsNA(rows.data[CREATED_AT][i])
  {
    if rows.height == 0 then Ok(rows)
    else if CREATED_AT !in rows.data then KeyError([CREATED_AT])
    else if IsNA(rows.data[CREATED_AT][0]) then ValueError
    else if MissingOf(rows, panels) != [] then
      assert MissingOf(rows, panels)[0] in MissingOf(rows, panels);
      KeyError([MissingOf(rows, panels)[0]])
    else if exists i :: 0 <= i < rows.height && IsNA(rows.data[CREATED_AT][i]) then ValueError
    else Ok(rows)
  }

  /** The expanders of a student's rows render exactly when no row is
      selected, or the time and panel columns exist and every selected row
      has a time. */
  lemma CardsOfSelection(f: Frame, sel: Cell, panels: seq<string>)
    requires WellFormed(f) && STUDENT_ID in f.data
    ensures STUDENT_ID in StudentRows(f, sel).data
    ensures Cards(StudentRows(f, sel), panels).Ok? <==> (CountMatches(f.data[STUDENT_ID], sel) == 0 ||
      (&& CREATED_AT in f.data
       && (forall c :: c in panels ==> c in f.data)
       && SelectedTimed(f, sel)))
    ensures Cards(StudentRows(f, sel), panels).ValueError? ==> CREATED_AT in f.data && !SelectedTimed(f, sel)
  {
    var rows := StudentRows(f, sel);
    var pos := MatchingRows(f.data[STUDENT_ID], sel);
    StudentRowsExact(f, sel);
    assert rows.data.Keys == f.data.Keys;
    if CREATED_AT in f.data {
      var t, u := rows.data[CREATED_AT], f.data[CREATED_AT];
      assert forall i :: 0 <= i < |pos| ==> t[i] == u[pos[i]];
      if SelectedTimed(f, sel) {
        forall i | 0 <= i < rows.height ensures !IsNA(t[i]) {
          assert pos[i] < f.height && Matches(f.data[STUDENT_ID][pos[i]], sel);
        }
      }
      if forall i :: 0 <= i < rows.height ==> !IsNA(t[i]) {
        forall k | 0 <= k < f.height && Matches(f.data[STUDENT_ID][k], sel) ensures !IsNA(u[k]) {
          assert k in pos;
          var i :| 0 <= i < |pos| && pos[i] == k;
        }
      }
      if Cards(rows, panels).ValueError? {
        var i :| 0 <= i < rows.height && IsNA(t[i]);
        assert pos[i] < f.height && Matches(f.data[STUDENT_ID][pos[i]], sel) && IsNA(u[pos[i]]);
      }
    }
  }

  /** The drill-down for a selection. For the sentinel: every submission
      with the display columns, a KeyError naming those the table lacks.
      For any other selection: the rows of that student, shown in
      expanders that need the time and panel columns and a time on every
      selected row; a KeyError when there is no id column. */
  function Detail(f: Frame, sel: Cell): (r: Result<Frame>)
    requires WellFormed(f)
    ensures sel == Text(SENTINEL) ==>
      && (r.Ok? <==> forall c :: c in TABLE_COLS ==> c in f.data)
      && !r.ValueError?
      && (r.KeyError? ==> forall c :: c in r.missing <==> c in TABLE_COLS && c !in f.data)
      && (r.Ok? ==> r.value.columns == TABLE_COLS && r.value.height == f.height
                    && forall c :: c in TABLE_COLS ==> c in r.value.data && r.value.data[c] == f.data[c])
    ensures sel != Text(SENTINEL) ==>
      && (r.Ok? <==> (STUDENT_ID in f.data &&
            (CountMatches(f.data[STUDENT_ID], sel) == 0 ||
             (CREATED_AT in f.data && (forall c :: c in PANEL_COLS ==> c in f.data) && SelectedTimed(f, sel)))))
      && (STUDENT_ID !in f.data ==> r == KeyError([STUDENT_ID]))
      && (r.ValueError? ==> STUDENT_ID in f.data && CREATED_AT in f.data && !SelectedTimed(f, sel))
      && (r.Ok? ==> r.value == StudentRows(f, sel)
                    && r.value.height == CountMatches(f.data[STUDENT_ID], sel)
                    && forall i :: 0 <= i < r.value.height ==> Matches(r.value.data[STUDENT_ID][i], sel))
  {
    TableColsDistinct();
    if sel == Text(SENTINEL) then
      Project(f, TABLE_COLS)
    else if STUDENT_ID !in f.data then KeyError([STUDENT_ID])
    else
      StudentRowsExact(f, sel);
      CardsOfSelection(f, sel, PANEL_COLS);
      Cards(StudentRows(f, sel), PANEL_COLS)
  }

  /** The classifier keeps every display column as it is: it writes only
      status columns. */
  lemma ClassifyKeepsTableCols(f: Frame)
    requires WellFormed(f)
    ensures WellFormed(Classify(f))
    ensures forall c :: c in TABLE_COLS ==>
      (c in Classify(f).data <==> c in f.data) && (c in f.data ==> Classify(f).data[c] == f.data[c])
  {
    ClassifyKeepsOriginal(f);
    ClassifyStatusColumns(f);
    AddedAreStatusCols(f);
    assert forall c :: c in TABLE_COLS ==> c !in STATUS_COLS;
  }

  /** The classifier keeps the selected rows of the loaded table and their
      times. */
  lemma ClassifyKeepsSelection(f: Frame, sel: Cell)
    requires WellFormed(f) && STUDENT_ID in f.data && CREATED_AT in f.data
    ensures WellFormed(Classify(f)) && STUDENT_ID in Classify(f).data && CREATED_AT in Classify(f).data
    ensures CountMatches(Classify(f).data[STUDENT_ID], sel) == CountMatches(f.data[STUDENT_ID], sel)
    ensures SelectedTimed(Classify(f), sel) <==> SelectedTimed(f, sel)
  {
    ClassifyKeepsTableCols(f);
    IdAndTimeNotAdded(f);
    ClassifyKeepsOriginal(f);
  }

  /** The classified table has every column the expanders read exactly when
      the loaded table has every display column. */
  lemma PanelsOfClassified(f: Frame)
    requires WellFormed(f) && STUDENT_ID in f.data && CREATED_AT in f.data
    ensures WellFormed(Classify(f))
    ensures (forall c :: c in PANEL_COLS ==> c in Classify(f).data) <==> (forall c :: c in TABLE_COLS ==> c in f.data)
  {
    ClassifyKeepsTableCols(f);
    StatusInClassified(f);
    PanelsOfKeys(Classify(f).data.Keys, f.data.Keys);
  }

  /** The panel columns are the display columns other than the id and the
      time, plus the status columns, which a table has when it has the
      feedback columns. */
  lemma PanelsOfKeys(keys: set<string>, orig: set<string>)
    requires forall c :: c in TABLE_COLS ==> (c in keys <==> c in orig)
    requires forall q :: 0 <= q < |STATUS_COLS| ==> (STATUS_COLS[q] in keys <==> FEEDBACK_COLS[q] in orig || STATUS_COLS[q] in orig)
    requires STUDENT_ID in orig && CREATED_AT in orig
    ensures (forall c :: c in PANEL_COLS ==> c in keys) <==> (forall c :: c in TABLE_COLS ==> c in orig)
  {
    assert TABLE_COLS == [STUDENT_ID, PANEL_COLS[0], PANEL_COLS[2], PANEL_COLS[3], PANEL_COLS[5], PANEL_COLS[6], PANEL_COLS[8], CREATED_AT];
    assert PANEL_COLS[1] == STATUS_COLS[0] && PANEL_COLS[4] == STATUS_COLS[1] && PANEL_COLS[7] == STATUS_COLS[2];
    assert PANEL_COLS[2] == FEEDBACK_COLS[0] && PANEL_COLS[5] == FEEDBACK_COLS[1] && PANEL_COLS[8] == FEEDBACK_COLS[2];
  }

  /** The drill-down as the classifier's tolerance of missing columns
      intends it: the sentinel shows the display columns that exist, and
      the expanders show the panels whose columns exist. */
  function TolerantDetail(f: Frame, sel: Cell): (r: Result<Frame>)
    requires WellFormed(f)
    ensures sel == Text(SENTINEL) ==>
      r.Ok? && r.value.columns == PresentOf(f, TABLE_COLS) && r.value.height == f.height
    ensures sel != Text(SENTINEL) ==>
      && (r.Ok? <==> (STUDENT_ID in f.data &&
            (CountMatches(f.data[STUDENT_ID], sel) == 0 || (CREATED_AT in f.data && SelectedTimed(f, sel)))))
      && (r.Ok? ==> r.value == StudentRows(f, sel))
  {
    TableColsDistinct();
    PresentOfDistinct(f, TABLE_COLS);
    if sel == Text(SENTINEL) then Project(f, PresentOf(f, TABLE_COLS))
    else if STUDENT_ID !in f.data then KeyError([STUDENT_ID])
    else
      CardsOfSelection(f, sel, []);
      Cards(StudentRows(f, sel), [])
  }

  /** The colour of a feedback in a student's card: green when its status
      column says correct, red otherwise. */
  function FeedbackColour(status: Cell): (r: string)
    ensures r == "green" <==> status == Text(CORRECT)
    ensures r == "green" || r == "red"
  {
    if status == Text(CORRECT) then "green" else "red"
  }

  /** On a classified table a feedback is shown green exactly when its text
      is marked correct. */
  lemma ColourFollowsMarker(f: Frame, q: nat, k: nat)
    requires WellFormed(f) && q < |FEEDBACK_COLS| && FEEDBACK_COLS[q] in f.data && k < f.height
    ensures var g := Classify(f); var s := StatusName(FEEDBACK_COLS[q]);
      s in g.data && k < |g.data[s]|
      && (FeedbackColour(g.data[s][k]) == "green" <==> MarkedCorrect(Render(f.data[FEEDBACK_COLS[q]][k])))
  {
    ClassifyStatusColumns(f);
  }
}
