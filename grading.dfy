/**
  The classifier of the teacher dashboard: for every feedback column that is
  present it adds a `<column>_status` column saying whether each feedback
  text marks the answer as correct (it starts with `O` once surrounding
  whitespace is stripped) or as needing work.
*/
module Grading {
  import opened Frames

  const CORRECT: string := "정답 (O)"
  const NEEDS_WORK: string := "보완 필요 (X)"

  /** The feedback columns the classifier looks at, in the order it visits them. */
  const FEEDBACK_COLS: seq<string> := ["feedback_1", "feedback_2", "feedback_3"]

  function StatusName(col: string): string
  {
    col + "_status"
  }

  // ---------------------------------------------------------------------
  // Python's str(), str.strip() and str.startswith("O")
  // ---------------------------------------------------------------------

  /** The characters for which Python's str.isspace() holds; str.strip()
      with no argument removes exactly these. */
  predicate IsSpace(c: char)
  {
    || '\U{0009}' <= c <= '\U{000D}'
    || '\U{001C}' <= c <= '\U{0020}'
    || c == '\U{0085}' || c == '\U{00A0}' || c == '\U{1680}'
    || '\U{2000}' <= c <= '\U{200A}'
    || c == '\U{2028}' || c == '\U{2029}' || c == '\U{202F}'
    || c == '\U{205F}' || c == '\U{3000}'
  }

  predicate AllSpace(s: string)
  {
    forall i :: 0 <= i < |s| ==> IsSpace(s[i])
  }

  /** Removes leading whitespace: the result is a suffix of `s`, what was cut
      is all whitespace, and the result does not start with whitespace. */
  function LStrip(s: string): (r: string)
    ensures |r| <= |s| && r == s[|s| - |r|..]
    ensures forall i :: 0 <= i < |s| - |r| ==> IsSpace(s[i])
    ensures r == [] || !IsSpace(r[0])
  {
    if |s| > 0 && IsSpace(s[0]) then LStrip(s[1..]) else s
  }

  /** Removes trailing whitespace: the result is a prefix of `s`, what was
      cut is all whitespace, and the result does not end with whitespace. */
  function RStrip(s: string): (r: string)
    ensures |r| <= |s| && r == s[..|r|]
    ensures forall i :: |r| <= i < |s| ==> IsSpace(s[i])
    ensures r == [] || !IsSpace(r[|r| - 1])
  {
    if |s| > 0 && IsSpace(s[|s| - 1]) then RStrip(s[..|s| - 1]) else s
  }

  /** `r` is `s` with the whitespace before position `i` and the
      whitespace after `r` cut off. */
  predicate CutAt(s: string, r: string, i: nat)
  {
    && i + |r| <= |s| && r == s[i..i + |r|]
    && (forall j :: 0 <= j < i ==> IsSpace(s[j]))
    && (forall j :: i + |r| <= j < |s| ==> IsSpace(s[j]))
  }

  /** str.strip(): what is left of `s` after cutting a whitespace prefix and
      a whitespace suffix; it starts and ends with non-whitespace. */
  function Strip(s: string): (r: string)
    ensures |r| <= |s|
    ensures r == [] || (!IsSpace(r[0]) && !IsSpace(r[|r| - 1]))
    ensures r == [] <==> AllSpace(s)
    ensures exists i: nat :: CutAt(s, r, i)
  {
    var r := RStrip(LStrip(s));
    StripSlice(s);
    r
  }

  /** The facts behind Strip's contract, for its body RStrip(LStrip(s)). */
  lemma StripSlice(s: string)
    ensures var r := RStrip(LStrip(s));
      && |r| <= |s|
      && (r == [] || (!IsSpace(r[0]) && !IsSpace(r[|r| - 1])))
      && (r == [] <==> AllSpace(s))
      && CutAt(s, r, |s| - |LStrip(s)|)
  {
    var l := LStrip(s);
    var r := RStrip(l);
    assert |l| <= |s| && l == s[|s| - |l|..];
    assert |r| <= |l| && r == l[..|r|];
    assert forall j :: 0 <= j < |s| - |l| ==> IsSpace(s[j]);
    assert forall j :: |r| <= j < |l| ==> IsSpace(l[j]);
    assert l == [] || !IsSpace(l[0]);
    assert r == [] || !IsSpace(r[|r| - 1]);
    CutTwice(s, l, r);
  }

  /** Cutting a whitespace prefix off `s` and then a whitespace suffix off
      what is left cuts `s` at both ends; nothing is left iff `s` is all
      whitespace, and what is left starts as what the first cut left. */
  lemma CutTwice(s: string, l: string, r: string)
    requires |l| <= |s| && l == s[|s| - |l|..] && |r| <= |l| && r == l[..|r|]
    requires forall j :: 0 <= j < |s| - |l| ==> IsSpace(s[j])
    requires forall j :: |r| <= j < |l| ==> IsSpace(l[j])
    requires l == [] || !IsSpace(l[0])
    ensures CutAt(s, r, |s| - |l|)
    ensures r == [] <==> AllSpace(s)
    ensures r == [] || !IsSpace(r[0])
  {
    var i := |s| - |l|;
    forall j | i + |r| <= j < |s| ensures IsSpace(s[j]) {
      assert s[j] == l[j - i];
    }
    if r == [] {
      assert l == [];
    }
  }

  function StartsWith(s: string, prefix: string): bool
  {
    |prefix| <= |s| && s[..|prefix|] == prefix
  }

  /** Decimal digits of a natural number, most significant first. */
  function Digits(n: nat): (r: string)
    ensures |r| > 0 && '0' <= r[0] <= '9'
  {
    var d := ['0' + (n % 10) as char];
    if n < 10 then d else Digits(n / 10) + d
  }

  /** Python's str() of a cell: None prints as "None" and NaN as "nan"; a
      timestamp prints as digits (its date/time formatting is not modelled). */
  function Render(c: Cell): (r: string)
    ensures !c.Text? ==> |r| > 0 && !IsSpace(r[0]) && r[0] != 'O'
  {
    match c
    case Null => "None"
    case NaN => "nan"
    case Text(s) => s
    case Time(t) => Digits(t)
  }

  /** Reference reading of the marker convention: the first character of the
      text that is not whitespace exists and is `O`. */
  predicate MarkedCorrect(s: string)
  {
    exists k :: 0 <= k < |s| && s[k] == 'O' && forall i :: 0 <= i < k ==> IsSpace(s[i])
  }

  /** The label the classifier gives one feedback cell: correct exactly
      when its text, after leading whitespace, starts with `O`; every other
      cell needs work. */
  function StatusOf(feedback: Cell): (r: string)
    ensures r == CORRECT <==> MarkedCorrect(Render(feedback))
    ensures r == NEEDS_WORK <==> !MarkedCorrect(Render(feedback))
  {
    StrippedStartsWithO(Render(feedback));
    if StartsWith(Strip(Render(feedback)), "O") then CORRECT else NEEDS_WORK
  }

  /** strip() followed by startswith("O") agrees with the reference reading. */
  lemma StrippedStartsWithO(s: string)
    ensures StartsWith(Strip(s), "O") <==> MarkedCorrect(s)
  {
    var l := LStrip(s);
    StartsWithO(Strip(s));
    RStripKeepsHead(l);
    LStripHead(s);
  }

  lemma StartsWithO(t: string)
    ensures StartsWith(t, "O") <==> |t| > 0 && t[0] == 'O'
  {
    if |t| > 0 {
      assert t[..1] == [t[0]];
    }
  }

  /** Stripping the end of a text that starts with `O` keeps that `O`. */
  lemma RStripKeepsHead(l: string)
    ensures (|RStrip(l)| > 0 && RStrip(l)[0] == 'O') <==> (|l| > 0 && l[0] == 'O')
  {
    var r := RStrip(l);
    assert !IsSpace('O');
    if |r| > 0 {
      assert r[0] == l[0];
    }
  }

  /** The first character after leading whitespace is `O` exactly when the
      text is marked correct. */
  lemma LStripHead(s: string)
    ensures (|LStrip(s)| > 0 && LStrip(s)[0] == 'O') <==> MarkedCorrect(s)
  {
    var l := LStrip(s);
    var m := |s| - |l|;
    assert !IsSpace('O');
    if |l| > 0 {
      assert s[m] == l[0];
    }
    assert m < |s| ==> !IsSpace(s[m]);
    if MarkedCorrect(s) {
      var k :| 0 <= k < |s| && s[k] == 'O' && forall i :: 0 <= i < k ==> IsSpace(s[i]);
      assert !(k < m);
    }
  }

  /** Empty, whitespace-only, None and NaN feedback is never counted as correct. */
  lemma BlankIsNeverCorrect(feedback: Cell)
    requires AllSpace(Render(feedback)) || IsNA(feedback)
    ensures StatusOf(feedback) == NEEDS_WORK
  {
    NotMarked(Render(feedback));
  }

  /** Text that is all whitespace, or starts with something other than
      whitespace or `O`, carries no correct marker. */
  lemma NotMarked(s: string)
    requires AllSpace(s) || (|s| > 0 && !IsSpace(s[0]) && s[0] != 'O')
    ensures !MarkedCorrect(s)
  {
    assert !IsSpace('O');
    forall k | 0 <= k < |s| && s[k] == 'O'
      ensures !(forall i :: 0 <= i < k ==> IsSpace(s[i]))
    {
      if !AllSpace(s) {
        assert 0 < k && !IsSpace(s[0]);
      }
    }
  }

  /** Feedback that does not start with whitespace is correct exactly when
      its first character is `O`. */
  lemma FirstCharDecides(feedback: Cell)
    requires |Render(feedback)| > 0 && !IsSpace(Render(feedback)[0])
    ensures StatusOf(feedback) == (if Render(feedback)[0] == 'O' then CORRECT else NEEDS_WORK)
  {
    var s := Render(feedback);
    if s[0] != 'O' {
      NotMarked(s);
    }
  }

  /** The example feedback values marked correct: a leading `O`, also after
      leading whitespace. */
  lemma CorrectExamples()
    ensures StatusOf(Text("O: correct reasoning")) == CORRECT
    ensures StatusOf(Text("  O\tindented")) == CORRECT
  {
    FirstCharDecides(Text("O: correct reasoning"));
    var s := "  O\tindented";
    assert s[0] == ' ' && s[1] == ' ' && s[2] == 'O';
    assert MarkedCorrect(Render(Text(s)));
  }

  /** The example feedback values that need work: an `X` marker and a
      lower-case `o`. */
  lemma NeedsWorkExamples()
    ensures StatusOf(Text("X: missing unit")) == NEEDS_WORK
    ensures StatusOf(Text("o: lower case")) == NEEDS_WORK
  {
    FirstCharDecides(Text("X: missing unit"));
    FirstCharDecides(Text("o: lower case"));
  }

  /** Empty text and None need work. */
  lemma BlankExamples()
    ensures StatusOf(Text("")) == NEEDS_WORK
    ensures StatusOf(Null) == NEEDS_WORK
  {
    BlankIsNeverCorrect(Text(""));
    BlankIsNeverCorrect(Null);
  }

  // ---------------------------------------------------------------------
  // The classifier over a frame
  // ---------------------------------------------------------------------

  /** `column.apply(lambda x: ...)`: one label per cell, in row order. */
  function StatusColumn(feedback: seq<Cell>): (r: seq<Cell>)
    ensures |r| == |feedback|
    ensures forall k :: 0 <= k < |r| ==> r[k] == Text(StatusOf(feedback[k]))
  {
    seq(|feedback|, k requires 0 <= k < |feedback| => Text(StatusOf(feedback[k])))
  }

  /** One turn of the classifier's loop: if `col` is a column of `f`, set the
      column `col_status` to its labels. */
  function Step(f: Frame, col: string): (r: Frame)
    requires WellFormed(f)
    ensures WellFormed(r) && r.height == f.height
    ensures col !in f.data ==> r == f
    ensures col in f.data ==>
      && StatusName(col) in r.data && r.data[StatusName(col)] == StatusColumn(f.data[col])
      && r.data.Keys == f.data.Keys + {StatusName(col)}
      && forall c :: c in f.data && c != StatusName(col) ==> r.data[c] == f.data[c]
  {
    if col in f.data then WithColumn(f, StatusName(col), StatusColumn(f.data[col])) else f
  }

  /** The frame after the first `n` turns of the classifier's loop. */
  function ClassifyUpTo(f: Frame, n: nat): (r: Frame)
    requires WellFormed(f) && n <= |FEEDBACK_COLS|
    ensures WellFormed(r) && r.height == f.height
  {
    if n == 0 then f else Step(ClassifyUpTo(f, n - 1), FEEDBACK_COLS[n - 1])
  }

  /** What process_grading_status returns for a frame. */
  function Classify(f: Frame): (r: Frame)
    requires WellFormed(f)
    ensures WellFormed(r) && r.height == f.height
    ensures r.data.Keys == f.data.Keys + AddedColumns(f)
  {
    ClassifyUpToKeys(f, |FEEDBACK_COLS|);
    ClassifyUpTo(f, |FEEDBACK_COLS|)
  }

  /** The status columns the first `n` turns of the loop write for `f`. */
  function AddedUpTo(f: Frame, n: nat): set<string>
  {
    set i | 0 <= i < n && i < |FEEDBACK_COLS| && FEEDBACK_COLS[i] in f.data :: StatusName(FEEDBACK_COLS[i])
  }

  /** The status columns the classifier writes for `f`. */
  function AddedColumns(f: Frame): set<string>
  {
    AddedUpTo(f, |FEEDBACK_COLS|)
  }

  /** A frame whose every present feedback column already has its status
      column, holding that column's labels. */
  predicate Classified(f: Frame)
  {
    forall i :: 0 <= i < |FEEDBACK_COLS| && FEEDBACK_COLS[i] in f.data ==>
      && StatusName(FEEDBACK_COLS[i]) in f.data
      && f.data[StatusName(FEEDBACK_COLS[i])] == StatusColumn(f.data[FEEDBACK_COLS[i]])
  }

  /** No feedback column name is a status column name, and status column
      names differ from each other. */
  lemma NamesDisjoint()
    ensures forall i, j :: 0 <= i < |FEEDBACK_COLS| && 0 <= j < |FEEDBACK_COLS| ==>
      StatusName(FEEDBACK_COLS[i]) != FEEDBACK_COLS[j]
    ensures forall i, j :: 0 <= i < j < |FEEDBACK_COLS| ==>
      StatusName(FEEDBACK_COLS[i]) != StatusName(FEEDBACK_COLS[j])
  {
    forall i, j | 0 <= i < |FEEDBACK_COLS| && 0 <= j < |FEEDBACK_COLS|
      ensures StatusName(FEEDBACK_COLS[i]) != FEEDBACK_COLS[j]
    {
      assert |StatusName(FEEDBACK_COLS[i])| != |FEEDBACK_COLS[j]|;
    }
    forall i, j | 0 <= i < j < |FEEDBACK_COLS|
      ensures StatusName(FEEDBACK_COLS[i]) != StatusName(FEEDBACK_COLS[j])
    {
      assert StatusName(FEEDBACK_COLS[i])[9] != StatusName(FEEDBACK_COLS[j])[9];
    }
  }

  /** The loop only appends columns: the original columns keep their places. */
  lemma {:induction false} ClassifyUpToColumns(f: Frame, n: nat)
    requires WellFormed(f) && n <= |FEEDBACK_COLS|
    ensures var r := ClassifyUpTo(f, n);
      |f.columns| <= |r.columns| && r.columns[..|f.columns|] == f.columns
  {
    if n > 0 {
      ClassifyUpToColumns(f, n - 1);
      var g := ClassifyUpTo(f, n - 1);
      assert g.columns[..|f.columns|] == f.columns;
      var r := ClassifyUpTo(f, n);
      assert r.columns[..|g.columns|] == g.columns;
      assert r.columns[..|f.columns|] == r.columns[..|g.columns|][..|f.columns|];
    }
  }

  /** The loop never writes a feedback column. */
  lemma {:induction false} ClassifyUpToKeepsFeedback(f: Frame, n: nat)
    requires WellFormed(f) && n <= |FEEDBACK_COLS|
    ensures var r := ClassifyUpTo(f, n);
      forall i :: 0 <= i < |FEEDBACK_COLS| ==>
        && (FEEDBACK_COLS[i] in r.data <==> FEEDBACK_COLS[i] in f.data)
        && (FEEDBACK_COLS[i] in f.data ==> r.data[FEEDBACK_COLS[i]] == f.data[FEEDBACK_COLS[i]])
  {
    if n > 0 {
      ClassifyUpToKeepsFeedback(f, n - 1);
      NamesDisjoint();
    }
  }

  /** After `n` turns the columns are the original ones plus the status
      columns of the present feedback columns among the first `n`. */
  lemma {:induction false} ClassifyUpToKeys(f: Frame, n: nat)
    requires WellFormed(f) && n <= |FEEDBACK_COLS|
    ensures ClassifyUpTo(f, n).data.Keys == f.data.Keys + AddedUpTo(f, n)
  {
    if n > 0 {
      ClassifyUpToKeys(f, n - 1);
      KeysStep(f, n);
    } else {
      assert AddedUpTo(f, 0) == {};
    }
  }

  /** One turn of the loop adds the next status column to the keys. */
  lemma KeysStep(f: Frame, n: nat)
    requires WellFormed(f) && 0 < n <= |FEEDBACK_COLS|
    requires ClassifyUpTo(f, n - 1).data.Keys == f.data.Keys + AddedUpTo(f, n - 1)
    ensures ClassifyUpTo(f, n).data.Keys == f.data.Keys + AddedUpTo(f, n)
  {
    var g, col := ClassifyUpTo(f, n - 1), FEEDBACK_COLS[n - 1];
    ClassifyUpToKeepsFeedback(f, n - 1);
    AddedStep(f, n);
    var extra: set<string> := if col in f.data then {StatusName(col)} else {};
    assert col in g.data <==> col in f.data;
    assert ClassifyUpTo(f, n).data.Keys == g.data.Keys + extra;
  }

  /** The `n`-th turn adds at most the status column of the `n`-th feedback column. */
  lemma AddedStep(f: Frame, n: nat)
    requires 0 < n <= |FEEDBACK_COLS|
    ensures var col := FEEDBACK_COLS[n - 1];
      AddedUpTo(f, n) == AddedUpTo(f, n - 1) + (if col in f.data then {StatusName(col)} else {})
  {
    var col := FEEDBACK_COLS[n - 1];
    var before, after := AddedUpTo(f, n - 1), AddedUpTo(f, n);
    var extra: set<string> := if col in f.data then {StatusName(col)} else {};
    forall c | c in after ensures c in before + extra {
      var i :| 0 <= i < n && i < |FEEDBACK_COLS| && FEEDBACK_COLS[i] in f.data && c == StatusName(FEEDBACK_COLS[i]);
      if i < n - 1 {
        assert c in before;
      }
    }
    forall c | c in before + extra ensures c in after {
      if c in before {
        var i :| 0 <= i < n - 1 && i < |FEEDBACK_COLS| && FEEDBACK_COLS[i] in f.data && c == StatusName(FEEDBACK_COLS[i]);
        assert c in after;
      }
    }
  }

  /** Original columns that are not among the written status columns keep
      their contents. */
  lemma {:induction false} ClassifyUpToOthers(f: Frame, n: nat)
    requires WellFormed(f) && n <= |FEEDBACK_COLS|
    ensures var r := ClassifyUpTo(f, n);
      forall c :: c in f.data && c !in AddedUpTo(f, n) ==> c in r.data && r.data[c] == f.data[c]
  {
    if n > 0 {
      ClassifyUpToOthers(f, n - 1);
      ClassifyUpToKeepsFeedback(f, n - 1);
      AddedStep(f, n);
    }
  }

  /** After `n` turns each of the first `n` present feedback columns has its
      status column, holding its labels. */
  lemma {:induction false} ClassifyUpToStatus(f: Frame, n: nat)
    requires WellFormed(f) && n <= |FEEDBACK_COLS|
    ensures var r := ClassifyUpTo(f, n);
      forall i :: 0 <= i < n && FEEDBACK_COLS[i] in f.data ==>
        && StatusName(FEEDBACK_COLS[i]) in r.data
        && r.data[StatusName(FEEDBACK_COLS[i])] == StatusColumn(f.data[FEEDBACK_COLS[i]])
  {
    if n > 0 {
      ClassifyUpToStatus(f, n - 1);
      ClassifyUpToKeepsFeedback(f, n - 1);
      NamesDisjoint();
    }
  }

  /** The classifier adds `feedback_i_status` exactly for the feedback
      columns present in the input, filled with the labels of that column row
      by row; an absent feedback column adds nothing and is not an error. */
  lemma ClassifyStatusColumns(f: Frame)
    requires WellFormed(f)
    ensures var r := Classify(f);
      && r.data.Keys == f.data.Keys + AddedColumns(f)
      && (forall i :: 0 <= i < |FEEDBACK_COLS| && FEEDBACK_COLS[i] in f.data ==>
            && StatusName(FEEDBACK_COLS[i]) in r.data
            && r.data[StatusName(FEEDBACK_COLS[i])] == StatusColumn(f.data[FEEDBACK_COLS[i]])
            && |r.data[StatusName(FEEDBACK_COLS[i])]| == f.height
            && forall k :: 0 <= k < f.height ==>
                 r.data[StatusName(FEEDBACK_COLS[i])][k] == Text(StatusOf(f.data[FEEDBACK_COLS[i]][k])))
  {
    ClassifyUpToKeys(f, |FEEDBACK_COLS|);
    ClassifyUpToStatus(f, |FEEDBACK_COLS|);
  }

  /** The classifier works on a copy and only adds status columns: the rows
      and their order are unchanged, the original columns keep their place
      and every original column other than a status column it rewrites keeps
      its contents. */
  lemma ClassifyKeepsOriginal(f: Frame)
    requires WellFormed(f)
    ensures var r := Classify(f);
      && r.height == f.height
      && |f.columns| <= |r.columns| && r.columns[..|f.columns|] == f.columns
      && forall c :: c in f.data && c !in AddedColumns(f) ==> c in r.data && r.data[c] == f.data[c]
  {
    ClassifyUpToColumns(f, |FEEDBACK_COLS|);
    ClassifyUpToOthers(f, |FEEDBACK_COLS|);
  }

  /** The classifier never writes the id or the time column. */
  lemma IdAndTimeNotAdded(f: Frame)
    ensures STUDENT_ID !in AddedColumns(f) && CREATED_AT !in AddedColumns(f)
  {
    assert forall i :: 0 <= i < |FEEDBACK_COLS| ==>
      StatusName(FEEDBACK_COLS[i])[0] == 'f' != STUDENT_ID[0] && StatusName(FEEDBACK_COLS[i])[0] != CREATED_AT[0];
  }

  /** The output of the classifier is classified. */
  lemma ClassifyIsClassified(f: Frame)
    requires WellFormed(f)
    ensures Classified(Classify(f))
  {
    ClassifyUpToStatus(f, |FEEDBACK_COLS|);
    ClassifyUpToKeepsFeedback(f, |FEEDBACK_COLS|);
  }

  /** Each turn of the loop leaves a classified frame as it is. */
  lemma {:induction false} ClassifiedIsFixed(g: Frame, n: nat)
    requires WellFormed(g) && Classified(g) && n <= |FEEDBACK_COLS|
    ensures ClassifyUpTo(g, n) == g
  {
    if n > 0 {
      ClassifiedIsFixed(g, n - 1);
      var col := FEEDBACK_COLS[n - 1];
      if col in g.data {
        var name := StatusName(col);
        assert g.data[name := g.data[name]] == g.data;
      }
    }
  }

  /** Running the classifier on its own output gives the same frame. */
  lemma ClassifyIdempotent(f: Frame)
    requires WellFormed(f)
    ensures Classify(Classify(f)) == Classify(f)
  {
    ClassifyIsClassified(f);
    ClassifiedIsFixed(Classify(f), |FEEDBACK_COLS|);
  }

  /**
    process_grading_status: copies the frame, then for each feedback column
    that is present assigns its status column on the copy. The input object
    is left as it was.
  */
  method ProcessGradingStatus(df: DataFrame) returns (statusDf: DataFrame)
    requires df.Valid()
    ensures fresh(statusDf) && statusDf.Valid()
    ensures statusDf.Value() == Classify(df.Value())
    ensures unchanged(df)
  {
    var feedbackCols := FEEDBACK_COLS;
    statusDf := df.Copy();
    for i := 0 to |feedbackCols|
      invariant fresh(statusDf) && statusDf.Valid()
      invariant statusDf.Value() == ClassifyUpTo(df.Value(), i)
    {
      var col := feedbackCols[i];
      if col in statusDf.columns {
        statusDf.SetColumn(StatusName(col), StatusColumn(statusDf.data[col]));
      }
    }
  }
}
