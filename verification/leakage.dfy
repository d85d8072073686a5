/**
 * Patient disjointness report and the hard leakage guard (features/leakage.py):
 * distinct non-missing patient identifiers per split and the sizes of the three
 * pairwise intersections; the guard fails exactly when an intersection is non-empty.
 */
module Leakage {
  import opened Wrappers
  import opened Frames
  import Split

  datatype DisjointnessReport = DisjointnessReport(
    trainPatients: nat,
    validPatients: nat,
    testPatients: nat,
    overlapTrainValid: nat,
    overlapTrainTest: nat,
    overlapValidTest: nat)

  datatype LeakageError =
    | MissingPatientColumn(col: string)       // `df[col]` raises KeyError
    | PatientLeakage(report: DisjointnessReport)

  /** `set(df[col].dropna().unique())`: the distinct non-missing identifiers of a split. */
  function PatientIds(f: Frame, col: string): set<Cell>
  {
    set i | 0 <= i < |f.rows| && Get(f.columns, f.rows[i], col) != Null :: Get(f.columns, f.rows[i], col)
  }

  /** Some patient has a row in `a` and a row in `b`. */
  predicate SharePatient(a: Frame, b: Frame, col: string)
  {
    exists i, j :: 0 <= i < |a.rows| && 0 <= j < |b.rows|
      && Get(a.columns, a.rows[i], col) != Null
      && Get(a.columns, a.rows[i], col) == Get(b.columns, b.rows[j], col)
  }

  /** `patient_disjointness_report`. */
  function PatientDisjointnessReport(train: Frame, valid: Frame, test: Frame, col: string): (r: Result<DisjointnessReport, LeakageError>)
    ensures r.Failure? <==> col !in train.columns || col !in valid.columns || col !in test.columns
    ensures r.Failure? ==> r.error == MissingPatientColumn(col)
    ensures r.Success? ==>
              && r.value.overlapTrainValid <= r.value.trainPatients && r.value.overlapTrainValid <= r.value.validPatients
              && r.value.overlapTrainTest <= r.value.trainPatients && r.value.overlapTrainTest <= r.value.testPatients
              && r.value.overlapValidTest <= r.value.validPatients && r.value.overlapValidTest <= r.value.testPatients
  {
    if col !in train.columns || col !in valid.columns || col !in test.columns then
      Failure(MissingPatientColumn(col))
    else
      var trainPatients := PatientIds(train, col);
      var validPatients := PatientIds(valid, col);
      var testPatients := PatientIds(test, col);
      IntersectionBound(trainPatients, validPatients);
      IntersectionBound(trainPatients, testPatients);
      IntersectionBound(validPatients, testPatients);
      Success(DisjointnessReport(
        |trainPatients|, |validPatients|, |testPatients|,
        |trainPatients * validPatients|, |trainPatients * testPatients|, |validPatients * testPatients|))
  }

  lemma IntersectionBound<T>(a: set<T>, b: set<T>)
    ensures |a * b| <= |a| && |a * b| <= |b|
  {
    assert a == (a * b) + (a - b);
    assert (a * b) * (a - b) == {};
    assert b == (a * b) + (b - a);
    assert (a * b) * (b - a) == {};
  }

  /** `assert_patient_disjoint`: passes, or fails with the full report when any overlap is non-zero. */
  function AssertPatientDisjoint(train: Frame, valid: Frame, test: Frame, col: string): (r: Option<LeakageError>)
    ensures r == None <==>
              && PatientDisjointnessReport(train, valid, test, col).Success?
              && PatientIds(train, col) !! PatientIds(valid, col)
              && PatientIds(train, col) !! PatientIds(test, col)
              && PatientIds(valid, col) !! PatientIds(test, col)
    ensures r.Some? && r.value.PatientLeakage? ==> PatientDisjointnessReport(train, valid, test, col) == Success(r.value.report)
    ensures (r.Some? && r.value.MissingPatientColumn?) <==> PatientDisjointnessReport(train, valid, test, col).Failure?
  {
    match PatientDisjointnessReport(train, valid, test, col)
    case Failure(e) => Some(e)
    case Success(report) =>
      if report.overlapTrainValid != 0 || report.overlapTrainTest != 0 || report.overlapValidTest != 0 then
        Some(PatientLeakage(report))
      else
        EmptyIntersection(PatientIds(train, col), PatientIds(valid, col));
        EmptyIntersection(PatientIds(train, col), PatientIds(test, col));
        EmptyIntersection(PatientIds(valid, col), PatientIds(test, col));
        None
  }

  lemma EmptyIntersection<T>(a: set<T>, b: set<T>)
    requires |a * b| == 0
    ensures a !! b
  {
    assert a * b == {};
    forall x | x in a ensures x !in b {
      assert x !in a * b;
    }
  }

  /** An overlap count is zero exactly when no patient has rows in both splits. */
  lemma OverlapZeroIffNoSharedPatient(a: Frame, b: Frame, col: string)
    ensures |PatientIds(a, col) * PatientIds(b, col)| == 0 <==> !SharePatient(a, b, col)
  {
    if |PatientIds(a, col) * PatientIds(b, col)| != 0 {
      var x :| x in PatientIds(a, col) * PatientIds(b, col);
      var i :| 0 <= i < |a.rows| && Get(a.columns, a.rows[i], col) != Null && x == Get(a.columns, a.rows[i], col);
      var j :| 0 <= j < |b.rows| && Get(b.columns, b.rows[j], col) != Null && x == Get(b.columns, b.rows[j], col);
      assert SharePatient(a, b, col);
    }
    if SharePatient(a, b, col) {
      var i, j :| 0 <= i < |a.rows| && 0 <= j < |b.rows|
        && Get(a.columns, a.rows[i], col) != Null
        && Get(a.columns, a.rows[i], col) == Get(b.columns, b.rows[j], col);
      assert Get(a.columns, a.rows[i], col) in PatientIds(a, col) * PatientIds(b, col);
    }
  }

  /** The guard fails with a leakage error exactly when some patient appears in two splits. */
  lemma GuardFailsIffSharedPatient(train: Frame, valid: Frame, test: Frame, col: string)
    requires col in train.columns && col in valid.columns && col in test.columns
    ensures AssertPatientDisjoint(train, valid, test, col).Some? <==>
              SharePatient(train, valid, col) || SharePatient(train, test, col) || SharePatient(valid, test, col)
  {
    OverlapZeroIffNoSharedPatient(train, valid, col);
    OverlapZeroIffNoSharedPatient(train, test, col);
    OverlapZeroIffNoSharedPatient(valid, test, col);
  }

  /** A row whose patient identifier is missing changes no count and no overlap. */
  lemma MissingIdsIgnored(train: Frame, valid: Frame, test: Frame, col: string, row: Row)
    requires col in train.columns
    requires Get(train.columns, row, col) == Null
    ensures PatientDisjointnessReport(Frame(train.columns, train.rows + [row]), valid, test, col)
         == PatientDisjointnessReport(train, valid, test, col)
  {
    var more := Frame(train.columns, train.rows + [row]);
    forall x | x in PatientIds(more, col) ensures x in PatientIds(train, col) {
      var i :| 0 <= i < |more.rows| && Get(more.columns, more.rows[i], col) != Null && x == Get(more.columns, more.rows[i], col);
      assert i < |train.rows| && more.rows[i] == train.rows[i];
    }
    forall x | x in PatientIds(train, col) ensures x in PatientIds(more, col) {
      var i :| 0 <= i < |train.rows| && Get(train.columns, train.rows[i], col) != Null && x == Get(train.columns, train.rows[i], col);
      assert more.rows[i] == train.rows[i];
    }
    assert PatientIds(more, col) == PatientIds(train, col);
  }

  /** The guard never fires on the output of `group_split` when the patient column is the group column. */
  lemma GuardAcceptsGroupSplit(choose: Split.GroupChooser, df: Frame, groupCol: string, targetCol: string, cfg: Split.SplitConfig)
    requires Split.GroupSplit(choose, df, groupCol, targetCol, cfg).Success?
    ensures var s := Split.GroupSplit(choose, df, groupCol, targetCol, cfg).value;
            AssertPatientDisjoint(s.train, s.valid, s.test, groupCol) == None
  {
    var s := Split.GroupSplit(choose, df, groupCol, targetCol, cfg).value;
    Split.GroupSplitRowComplete(choose, df, groupCol, targetCol, cfg);
    Split.GroupSplitGroupDisjoint(choose, df, groupCol, targetCol, cfg);
    PatientIdsWithinGroupIds(s.train, groupCol);
    PatientIdsWithinGroupIds(s.valid, groupCol);
    PatientIdsWithinGroupIds(s.test, groupCol);
  }

  lemma PatientIdsWithinGroupIds(f: Frame, col: string)
    ensures PatientIds(f, col) <= Split.GroupIds(f, col)
  {
  }
}
