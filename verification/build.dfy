/**
 * Leakage-safe feature selection (features/build.py): which columns of a frame become
 * model inputs, and how they are split into numeric and categorical ones. The dtype
 * test of pandas is a parameter: `isNumeric(c)` says whether column `c` has a numeric dtype.
 */
module Build {
  import opened Wrappers
  import opened Frames

  /** `FeatureSpec`: the three key columns and the columns that must never be features. */
  datatype FeatureSpec = FeatureSpec(
    targetCol: string,
    patientIdCol: string,
    recordIdCol: string,
    forbiddenCols: seq<string> := ["READMITTED"])

  /** `all_drop_cols`: target, patient id and record id, followed by the forbidden columns. */
  function AllDropCols(spec: FeatureSpec): (r: seq<string>)
    ensures |r| == 3 + |spec.forbiddenCols|
    ensures r[..3] == [spec.targetCol, spec.patientIdCol, spec.recordIdCol] && r[3..] == spec.forbiddenCols
  {
    [spec.targetCol, spec.patientIdCol, spec.recordIdCol] + spec.forbiddenCols
  }

  /** The elements of `xs` that satisfy `keep`, in their original order (a list comprehension with a condition). */
  function Filter(xs: seq<string>, keep: string -> bool): (r: seq<string>)
    ensures |r| <= |xs|
    ensures forall x :: x in r <==> x in xs && keep(x)
    decreases |xs|
  {
    if xs == [] then []
    else
      var n := |xs| - 1;
      assert forall x :: x in xs <==> x in xs[..n] || x == xs[n];
      Filter(xs[..n], keep) + (if keep(xs[n]) then [xs[n]] else [])
  }

  /** `infer_feature_columns`: the frame's columns, in order, without the drop columns. */
  function InferFeatureColumns(columns: seq<string>, spec: FeatureSpec): seq<string>
  {
    Filter(columns, c => c !in AllDropCols(spec))
  }

  /** `infer_numeric_categorical`: one pass over the feature list, appending each name to one of two lists. */
  method InferNumericCategorical(featureCols: seq<string>, isNumeric: string -> bool)
    returns (numericCols: seq<string>, categoricalCols: seq<string>)
    ensures numericCols == Filter(featureCols, isNumeric)
    ensures categoricalCols == Filter(featureCols, c => !isNumeric(c))
  {
    numericCols := [];
    categoricalCols := [];
    for i := 0 to |featureCols|
      invariant numericCols == Filter(featureCols[..i], isNumeric)
      invariant categoricalCols == Filter(featureCols[..i], c => !isNumeric(c))
    {
      assert featureCols[..i + 1][..i] == featureCols[..i];
      var c := featureCols[i];
      if isNumeric(c) {
        numericCols := numericCols + [c];
      } else {
        categoricalCols := categoricalCols + [c];
      }
    }
    assert featureCols[..|featureCols|] == featureCols;
  }

  /** `df[cols]`: a frame holding the named columns, in the order given. */
  function SelectColumns(df: Frame, cols: seq<string>): Frame
  {
    Frame(cols, seq(|df.rows|, i requires 0 <= i < |df.rows| =>
                      seq(|cols|, j requires 0 <= j < |cols| => Get(df.columns, df.rows[i], cols[j]))))
  }

  /** The four results of `build_xy`. */
  datatype XY = XY(x: Frame, y: seq<Cell>, numericCols: seq<string>, categoricalCols: seq<string>)

  /**
   * `build_xy`. `df[spec.target_col]` raises a KeyError when the target column is absent;
   * that is `Failure(target)`. Selecting the feature columns cannot fail: they come from `df`.
   */
  function BuildXY(df: Frame, spec: FeatureSpec, isNumeric: string -> bool): (r: Result<XY, string>)
    ensures r.Failure? <==> spec.targetCol !in df.columns
    ensures r.Failure? ==> r.error == spec.targetCol
    ensures r.Success? ==>
              && r.value.x.columns == InferFeatureColumns(df.columns, spec)
              && |r.value.x.rows| == |df.rows| && |r.value.y| == |df.rows|
              && (forall i :: 0 <= i < |df.rows| ==> r.value.y[i] == Get(df.columns, df.rows[i], spec.targetCol))
              && (forall c :: c in r.value.numericCols <==> c in r.value.x.columns && isNumeric(c))
              && (forall c :: c in r.value.categoricalCols <==> c in r.value.x.columns && !isNumeric(c))
    ensures r.Success? ==>
              && r.value.numericCols == Filter(r.value.x.columns, isNumeric)
              && r.value.categoricalCols == Filter(r.value.x.columns, c => !isNumeric(c))
  {
    var featureCols := InferFeatureColumns(df.columns, spec);
    var x := SelectColumns(df, featureCols);
    if spec.targetCol !in df.columns then Failure(spec.targetCol)
    else
      var y := Column(df, spec.targetCol);
      Success(XY(x, y, Filter(featureCols, isNumeric), Filter(featureCols, c => !isNumeric(c))))
  }

  // ---------------------------------------------------------------------------
  // Properties
  // ---------------------------------------------------------------------------

  /** The drop set is exactly the three key columns and the forbidden ones. */
  lemma DropColsMembers(spec: FeatureSpec)
    ensures forall c :: c in AllDropCols(spec) <==>
              c == spec.targetCol || c == spec.patientIdCol || c == spec.recordIdCol || c in spec.forbiddenCols
  {
    var r := AllDropCols(spec);
    assert r == [spec.targetCol, spec.patientIdCol, spec.recordIdCol] + spec.forbiddenCols;
  }

  /** The forbidden columns default to the raw READMITTED label. */
  lemma ForbiddenDefault(target: string, patient: string, record: string)
    ensures FeatureSpec(target, patient, record).forbiddenCols == ["READMITTED"]
    ensures "READMITTED" in AllDropCols(FeatureSpec(target, patient, record))
  {
    assert AllDropCols(FeatureSpec(target, patient, record))[3] == "READMITTED";
  }

  /** Filtering keeps order: it commutes with concatenation. */
  lemma {:induction false} FilterAppend(a: seq<string>, b: seq<string>, keep: string -> bool)
    ensures Filter(a + b, keep) == Filter(a, keep) + Filter(b, keep)
    decreases |b|
  {
    if b == [] {
      assert a + b == a;
    } else {
      var n := |b| - 1;
      var last := if keep(b[n]) then [b[n]] else [];
      FilterAppend(a, b[..n], keep);
      assert (a + b)[..|a + b| - 1] == a + b[..n];
      assert (a + b)[|a + b| - 1] == b[n];
      calc {
        Filter(a + b, keep);
        Filter(a + b[..n], keep) + last;
        Filter(a, keep) + Filter(b[..n], keep) + last;
        Filter(a, keep) + (Filter(b[..n], keep) + last);
        Filter(a, keep) + Filter(b, keep);
      }
    }
  }

  /** A list is filtered to itself when every element is kept, and to nothing when none is. */
  lemma {:induction false} FilterAll(xs: seq<string>, keep: string -> bool)
    ensures (forall x :: x in xs ==> keep(x)) ==> Filter(xs, keep) == xs
    ensures (forall x :: x in xs ==> !keep(x)) ==> Filter(xs, keep) == []
    decreases |xs|
  {
    if xs != [] {
      var n := |xs| - 1;
      FilterAll(xs[..n], keep);
      assert forall x :: x in xs[..n] ==> x in xs;
      assert xs[..n] + [xs[n]] == xs;
    }
  }

  /** Filtering twice with the same condition changes nothing. */
  lemma FilterIdempotent(xs: seq<string>, keep: string -> bool)
    ensures Filter(Filter(xs, keep), keep) == Filter(xs, keep)
  {
    FilterAll(Filter(xs, keep), keep);
  }

  /**
   * The feature columns are the frame's columns in their original order with exactly the
   * drop set removed: none is a key or forbidden column, and each other column is kept.
   */
  lemma FeatureColumnsSpec(columns: seq<string>, spec: FeatureSpec)
    ensures forall c :: c in InferFeatureColumns(columns, spec) <==> c in columns && c !in AllDropCols(spec)
    ensures forall c :: c in InferFeatureColumns(columns, spec) ==>
              c != spec.targetCol && c != spec.patientIdCol && c != spec.recordIdCol && c !in spec.forbiddenCols
    ensures (forall c :: c in columns ==> c !in AllDropCols(spec)) ==> InferFeatureColumns(columns, spec) == columns
  {
    DropColsMembers(spec);
    FilterAll(columns, c => c !in AllDropCols(spec));
  }

  /** Adding columns to a frame appends their kept part to the feature list. */
  lemma FeatureColumnsAppend(a: seq<string>, b: seq<string>, spec: FeatureSpec)
    ensures InferFeatureColumns(a + b, spec) == InferFeatureColumns(a, spec) + InferFeatureColumns(b, spec)
  {
    FilterAppend(a, b, c => c !in AllDropCols(spec));
  }

  /**
   * The numeric and categorical lists split the feature list: no name is in both, and together
   * they hold every feature exactly as often as the feature list does.
   */
  lemma NumericCategoricalPartition(featureCols: seq<string>, isNumeric: string -> bool)
    ensures var numeric := Filter(featureCols, isNumeric);
            var categorical := Filter(featureCols, c => !isNumeric(c));
            && (forall c :: !(c in numeric && c in categorical))
            && multiset(numeric) + multiset(categorical) == multiset(featureCols)
  {
    NumericCategoricalCounts(featureCols, isNumeric);
  }

  /** Each feature occurrence lands in exactly one of the two lists. */
  lemma {:induction false} NumericCategoricalCounts(featureCols: seq<string>, isNumeric: string -> bool)
    ensures multiset(Filter(featureCols, isNumeric)) + multiset(Filter(featureCols, c => !isNumeric(c))) == multiset(featureCols)
    decreases |featureCols|
  {
    if featureCols != [] {
      var n := |featureCols| - 1;
      var prefix, last := featureCols[..n], featureCols[n];
      NumericCategoricalCounts(prefix, isNumeric);
      var numeric := Filter(prefix, isNumeric);
      var categorical := Filter(prefix, c => !isNumeric(c));
      assert multiset(featureCols) == multiset(prefix) + multiset{last} by {
        assert featureCols == prefix + [last];
      }
      if isNumeric(last) {
        assert Filter(featureCols, isNumeric) == numeric + [last];
        assert Filter(featureCols, c => !isNumeric(c)) == categorical;
      } else {
        assert Filter(featureCols, isNumeric) == numeric;
        assert Filter(featureCols, c => !isNumeric(c)) == categorical + [last];
      }
    }
  }

  /** The feature frame keeps every row and, in each, the cell of each feature column. */
  lemma BuildXYCells(df: Frame, spec: FeatureSpec, isNumeric: string -> bool)
    requires spec.targetCol in df.columns
    ensures var xy := BuildXY(df, spec, isNumeric).value;
            forall i, j :: 0 <= i < |df.rows| && 0 <= j < |xy.x.columns| ==>
              |xy.x.rows[i]| == |xy.x.columns| && xy.x.rows[i][j] == Get(df.columns, df.rows[i], xy.x.columns[j])
  {
  }

  /**
   * With the default forbidden list, neither the target, the raw label, the patient id nor the
   * record id is ever an input, in X or in the dtype lists.
   */
  lemma NoLabelInFeatures(df: Frame, target: string, patient: string, record: string, isNumeric: string -> bool)
    requires target in df.columns
    ensures var xy := BuildXY(df, FeatureSpec(target, patient, record), isNumeric).value;
            && target !in xy.x.columns && "READMITTED" !in xy.x.columns
            && patient !in xy.x.columns && record !in xy.x.columns
            && patient !in xy.numericCols + xy.categoricalCols
            && record !in xy.numericCols + xy.categoricalCols
  {
    var spec := FeatureSpec(target, patient, record);
    FeatureColumnsSpec(df.columns, spec);
  }
}
