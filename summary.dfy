/**
  The three headline figures of the dashboard: how many distinct students
  submitted, how many submissions there are, and when the latest one came
  in. The submissions arrive ordered by `created_at`, newest first.
*/
module Summary {
  import opened Wrappers
  import opened Frames
  import opened Grading

  datatype Metrics = Metrics(students: nat, submissions: nat, lastSubmit: Cell)

  /** The distinct non-missing values of a column. */
  ghost function Present(col: seq<Cell>): set<Cell>
  {
    set c | c in col && !IsNA(c)
  }

  /** Series.nunique(): distinct values, missing ones not counted. There
      are no more of them than cells, and none exactly when every cell is
      missing. */
  function NUnique(col: seq<Cell>): (r: nat)
    ensures r <= |col|
    ensures r == 0 <==> forall k :: 0 <= k < |col| ==> IsNA(col[k])
  {
    PresentBound(col);
    PresentEmpty(col);
    |set c | c in col && !IsNA(c)|
  }

  /** A column of timestamps ordered newest first, as the query returns it. */
  predicate NewestFirst(col: seq<Cell>)
  {
    && (forall k :: 0 <= k < |col| ==> col[k].Time?)
    && (forall i, j :: 0 <= i < j < |col| ==> col[i].Time? && col[j].Time? && col[j].t <= col[i].t)
  }

  /** The metrics the page shows for a non-empty table: the number of
      distinct student ids, the number of rows, and the first row's
      `created_at`. Reading a missing column raises KeyError; formatting a
      missing first timestamp (NaT) with strftime raises ValueError. */
  function SummaryMetrics(f: Frame): (r: Result<Metrics>)
    requires WellFormed(f) && !Empty(f)
    ensures r.Ok? <==> STUDENT_ID in f.data && CREATED_AT in f.data && !IsNA(f.data[CREATED_AT][0])
    ensures r.ValueError? <==> STUDENT_ID in f.data && CREATED_AT in f.data && IsNA(f.data[CREATED_AT][0])
    ensures r.KeyError? ==> r.missing == (if STUDENT_ID !in f.data then [STUDENT_ID] else [CREATED_AT])
  {
    if STUDENT_ID !in f.data then KeyError([STUDENT_ID])
    else if CREATED_AT !in f.data then KeyError([CREATED_AT])
    else if IsNA(f.data[CREATED_AT][0]) then ValueError
    else Ok(Metrics(NUnique(f.data[STUDENT_ID]), f.height, f.data[CREATED_AT][0]))
  }

  /** The distinct non-missing values of a sequence are no more than its length. */
  lemma {:induction false} PresentBound(col: seq<Cell>)
    ensures |Present(col)| <= |col|
  {
    if col != [] {
      var rest := col[1..];
      PresentBound(rest);
      assert Present(col) <= Present(rest) + {col[0]} by {
        forall c | c in Present(col) ensures c in Present(rest) + {col[0]} {
          var k :| 0 <= k < |col| && col[k] == c;
          if k > 0 {
            assert rest[k - 1] == c;
          }
        }
      }
      SubsetCard(Present(col), Present(rest) + {col[0]});
    }
  }

  lemma SubsetCard(a: set<Cell>, b: set<Cell>)
    requires a <= b
    ensures |a| <= |b|
  {
    assert b == a + (b - a);
  }

  /** No distinct non-missing values exactly when every cell is missing. */
  lemma PresentEmpty(col: seq<Cell>)
    ensures Present(col) == {} <==> forall k :: 0 <= k < |col| ==> IsNA(col[k])
  {
    if exists k :: 0 <= k < |col| && !IsNA(col[k]) {
      var k :| 0 <= k < |col| && !IsNA(col[k]);
      assert col[k] in Present(col);
    }
  }

  /** One submission with a student id already makes one student. */
  lemma PresentNonEmpty(col: seq<Cell>, k: nat)
    requires k < |col| && !IsNA(col[k])
    ensures |Present(col)| >= 1
  {
    assert col[k] in Present(col);
  }

  /** The metrics are bounded by the table: there are never more students
      than submissions, there is at least one student whenever a row has a
      student id, the submission count is the number of rows, and the last
      submission time is the first row's. */
  lemma MetricsBounds(f: Frame)
    requires WellFormed(f) && !Empty(f) && STUDENT_ID in f.data && CREATED_AT in f.data
    requires !IsNA(f.data[CREATED_AT][0])
    ensures SummaryMetrics(f).Ok?
    ensures var m := SummaryMetrics(f).value;
      && m.submissions == f.height >= 1
      && m.students == NUnique(f.data[STUDENT_ID])
      && m.students <= m.submissions
      && ((exists k :: 0 <= k < f.height && !IsNA(f.data[STUDENT_ID][k])) ==> m.students >= 1)
      && ((forall k :: 0 <= k < f.height ==> IsNA(f.data[STUDENT_ID][k])) ==> m.students == 0)
      && m.lastSubmit == f.data[CREATED_AT][0]
  {
    var ids := f.data[STUDENT_ID];
    PresentBound(ids);
    if exists k :: 0 <= k < f.height && !IsNA(ids[k]) {
      var k :| 0 <= k < f.height && !IsNA(ids[k]);
      PresentNonEmpty(ids, k);
    }
    if forall k :: 0 <= k < f.height ==> IsNA(ids[k]) {
      assert Present(ids) == {};
    }
  }

  /** On a table ordered newest first, the first row's time is the latest
      submission time: no row is later, and it is one of the rows. */
  lemma LastSubmitIsLatest(f: Frame)
    requires WellFormed(f) && !Empty(f) && STUDENT_ID in f.data && CREATED_AT in f.data
    requires NewestFirst(f.data[CREATED_AT])
    ensures SummaryMetrics(f).Ok? && SummaryMetrics(f).value.lastSubmit.Time?
    ensures forall k :: 0 <= k < f.height ==>
      f.data[CREATED_AT][k].Time? && f.data[CREATED_AT][k].t <= SummaryMetrics(f).value.lastSubmit.t
  {
    var col := f.data[CREATED_AT];
    forall k | 0 <= k < f.height
      ensures col[k].Time? && col[k].t <= col[0].t
    {
      if k > 0 {
        assert col[0].Time? && col[k].Time? && col[k].t <= col[0].t;
      }
    }
  }

  /** The classifier never touches the id and time columns or the rows, so
      the metrics read from the classified table are those of the table as
      loaded. */
  lemma ClassifyKeepsMetrics(f: Frame)
    requires WellFormed(f) && !Empty(f)
    ensures WellFormed(Classify(f)) && !Empty(Classify(f))
    ensures SummaryMetrics(Classify(f)) == SummaryMetrics(f)
  {
    ClassifyKeepsOriginal(f);
    ClassifyUpToKeys(f, |FEEDBACK_COLS|);
    IdAndTimeNotAdded(f);
  }

  /** Three submissions, two by student A at times 10 and 30 and one by
      student B at time 20, in the order the query returns them. */
  const Sorted: Frame :=
    Frame([STUDENT_ID, CREATED_AT],
          map[STUDENT_ID := [Text("A"), Text("B"), Text("A")], CREATED_AT := [Time(30), Time(20), Time(10)]],
          3)

  /** The same submissions in insertion order, oldest first. */
  const Unsorted: Frame :=
    Frame([STUDENT_ID, CREATED_AT],
          map[STUDENT_ID := [Text("A"), Text("A"), Text("B")], CREATED_AT := [Time(10), Time(30), Time(20)]],
          3)

  /** Two students, three submissions. On the table as the query orders it
      the last submission is the latest one, 30; the page reads the first
      row whatever the order, so on the oldest-first table it reports 10. */
  lemma MetricsExamples()
    ensures WellFormed(Sorted) && !Empty(Sorted) && WellFormed(Unsorted) && !Empty(Unsorted)
    ensures NewestFirst(Sorted.data[CREATED_AT]) && !NewestFirst(Unsorted.data[CREATED_AT])
    ensures SummaryMetrics(Sorted) == Ok(Metrics(2, 3, Time(30)))
    ensures SummaryMetrics(Unsorted) == Ok(Metrics(2, 3, Time(10)))
  {
    assert Sorted.data.Keys == {STUDENT_ID, CREATED_AT};
    assert Unsorted.data.Keys == {STUDENT_ID, CREATED_AT};
    var a, b := Text("A"), Text("B");
    assert Present([a, b, a]) == {a, b} by {
      assert [a, b, a][0] == a && [a, b, a][1] == b;
    }
    assert Present([a, a, b]) == {a, b} by {
      assert [a, a, b][0] == a && [a, a, b][2] == b;
    }
    assert Unsorted.data[CREATED_AT][0].t < Unsorted.data[CREATED_AT][1].t;
  }
}
