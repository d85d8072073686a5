/**
 * Rule-driven data-contract validation (data/validate.py). The method follows the
 * source statement by statement; the functions beside it are its specification and
 * the lemmas state what the result promises.
 */
module Validate {
  import opened Wrappers
  import opened Frames
  import opened Contract
  import opened StringOrder

  /** The messages of the error list, as structured values. */
  datatype ValidationError =
    | MissingRequiredColumn(name: string)
    | PrimaryKeyNotUnique(primaryKey: string)
    | PatientKeyHasNulls(patientKey: string)
    | TargetMissing(target: string)
    | TargetNotBinary(target: string, bad: set<Cell>)
    | MissingnessExceeded(col: string, missing: real, limit: real)
    | InvalidCodes(col: string, sample: seq<string>)

  /** `summary`; a missingness of `None` is the NaN that the mean of an empty column gives. */
  datatype Summary = Summary(schemaVersion: string, nRows: nat, nCols: nat, missingness: map<string, Option<real>>)

  datatype Validation = Validation(passed: bool, errors: seq<ValidationError>, summary: Summary)

  /**
   * What `validate_dataframe` can raise: the KeyError of `df[col]` for an absent key column, and
   * the TypeError of sorting a non-binary target set that mixes strings and numbers.
   */
  datatype Raised = KeyError(column: string) | TypeError(target: string)

  /** Largest number of invalid codes quoted in one error. */
  const SampleSize: nat := 10

  // ---------------------------------------------------------------------------
  // Column-level facts (pandas one-liners)
  // ---------------------------------------------------------------------------

  /** The number of missing cells of a column. */
  function CountNulls(cells: seq<Cell>): (k: nat)
    ensures k == multiset(cells)[Null]
    ensures k <= |cells|
    ensures k == 0 <==> Null !in cells
    ensures k == |cells| <==> forall i :: 0 <= i < |cells| ==> cells[i] == Null
  {
    if cells == [] then 0
    else
      assert cells == [cells[0]] + cells[1..];
      (if cells[0] == Null then 1 else 0) + CountNulls(cells[1..])
  }

  /** `_pct_missing`: `s.isna().mean()`, the fraction of missing cells; NaN (None) for an empty column. */
  function PctMissing(cells: seq<Cell>): (m: Option<real>)
    ensures m.None? <==> cells == []
    ensures m.Some? ==> m.value == multiset(cells)[Null] as real / |cells| as real
    ensures m.Some? ==> 0.0 <= m.value <= 1.0
    ensures m.Some? ==> (m.value == 0.0 <==> Null !in cells)
    ensures m.Some? ==> (m.value == 1.0 <==> forall i :: 0 <= i < |cells| ==> cells[i] == Null)
  {
    if cells == [] then None
    else
      var k := CountNulls(cells) as real;
      var n := |cells| as real;
      assert 0.0 <= k / n <= 1.0 && (k / n == 0.0 <==> k == 0.0) && (k / n == 1.0 <==> k == n) by {
        FractionBounds(k, n);
      }
      Some(k / n)
  }

  /**
   * A count out of a positive total is a fraction between 0 and 1, 0 only for a zero count
   * and 1 only for the whole total.
   */
  lemma FractionBounds(k: real, n: real)
    requires 0.0 <= k <= n && n > 0.0
    ensures 0.0 <= k / n <= 1.0
    ensures k / n == 0.0 <==> k == 0.0
    ensures k / n == 1.0 <==> k == n
  {
    assert k / n * n == k;
  }

  /** `s.duplicated().any()`: some value (missing ones included) occurs twice. */
  predicate HasDuplicate(cells: seq<Cell>)
  {
    exists i, j :: 0 <= i < j < |cells| && cells[i] == cells[j]
  }

  /** `set(s.dropna().unique()) - {0, 1}`. */
  function NonBinary(cells: seq<Cell>): set<Cell>
  {
    set c | c in cells && c != Null && c != Num(0) && c != Num(1)
  }

  /**
   * `sorted` of the set raises: it holds a string and a number, and Python does not order
   * `str` against `int`.
   */
  predicate Unsortable(bad: set<Cell>)
  {
    (exists c :: c in bad && c.Text?) && (exists c :: c in bad && c.Num?)
  }

  /** `set(s.dropna().astype(str).unique()) - set(allowed)`. */
  function InvalidCodeSet(cells: seq<Cell>, allowed: set<string>): set<string>
  {
    set c | c in cells && c != Null && Str(c) !in allowed :: Str(c)
  }

  /** The non-missing cells as strings, outside `allowed`, in order of appearance. */
  function InvalidCodeList(cells: seq<Cell>, allowed: set<string>): (r: seq<string>)
    ensures forall x :: x in r <==> x in InvalidCodeSet(cells, allowed)
  {
    if cells == [] then []
    else
      var rest := InvalidCodeList(cells[1..], allowed);
      assert forall c :: c in cells <==> c == cells[0] || c in cells[1..];
      if cells[0] != Null && Str(cells[0]) !in allowed then [Str(cells[0])] + rest else rest
  }

  /** `sorted(list(invalid))[:10]`. */
  function InvalidCodeSample(cells: seq<Cell>, allowed: set<string>): seq<string>
  {
    var sorted := SortDistinct(InvalidCodeList(cells, allowed));
    sorted[..if |sorted| < SampleSize then |sorted| else SampleSize]
  }

  // ---------------------------------------------------------------------------
  // Specification of validate_dataframe
  // ---------------------------------------------------------------------------

  /** One "Missing required column" error per absent required rule, in rule order. */
  function MissingRequired(rules: seq<ColumnRule>, columns: seq<string>): seq<ValidationError>
    decreases |rules|
  {
    if rules == [] then []
    else
      var n := |rules| - 1;
      MissingRequired(rules[..n], columns)
        + (if rules[n].name !in columns && rules[n].required then [MissingRequiredColumn(rules[n].name)] else [])
  }

  /** The primary-key check: one error for a missing key, another for a repeated one. */
  function PrimaryKeyErrors(pk: string, cells: seq<Cell>): seq<ValidationError>
  {
    (if Null in cells then [PrimaryKeyNotUnique(pk)] else [])
    + (if HasDuplicate(cells) then [PrimaryKeyNotUnique(pk)] else [])
  }

  /** The patient-key check. */
  function PatientKeyErrors(patientKey: string, cells: seq<Cell>): seq<ValidationError>
  {
    if Null in cells then [PatientKeyHasNulls(patientKey)] else []
  }

  /** The target check: absent, or holding a non-missing value other than 0 and 1. */
  function TargetErrors(df: Frame, target: string): seq<ValidationError>
  {
    if target !in df.columns then [TargetMissing(target)]
    else if NonBinary(Column(df, target)) != {} then [TargetNotBinary(target, NonBinary(Column(df, target)))]
    else []
  }

  /** The primary-key, patient-key and target checks. */
  function KeyErrors(df: Frame, c: DataContract): seq<ValidationError>
  {
    PrimaryKeyErrors(c.primaryKey, Column(df, c.primaryKey))
    + PatientKeyErrors(c.patientKey, Column(df, c.patientKey))
    + TargetErrors(df, c.target)
  }

  /** The missingness-limit and code-list checks of one rule whose column is present. */
  function RuleErrors(rule: ColumnRule, df: Frame): seq<ValidationError>
  {
    var cells := Column(df, rule.name);
    var miss := PctMissing(cells);
    (if rule.maxMissingPct.Some? && miss.Some? && miss.value > rule.maxMissingPct.value
     then [MissingnessExceeded(rule.name, miss.value, rule.maxMissingPct.value)] else [])
    + (if rule.allowedValues.Some? && InvalidCodeSet(cells, rule.allowedValues.value) != {}
       then [InvalidCodes(rule.name, InvalidCodeSample(cells, rule.allowedValues.value))] else [])
  }

  /** The per-column errors of all rules, skipping rules whose column is absent. */
  function ColumnErrors(rules: seq<ColumnRule>, df: Frame): seq<ValidationError>
    decreases |rules|
  {
    if rules == [] then []
    else
      var n := |rules| - 1;
      ColumnErrors(rules[..n], df) + (if rules[n].name in df.columns then RuleErrors(rules[n], df) else [])
  }

  /** `summary["missingness"]` after the rule loop: a later rule for the same column overwrites. */
  function Missingness(rules: seq<ColumnRule>, df: Frame): map<string, Option<real>>
    decreases |rules|
  {
    if rules == [] then map[]
    else
      var n := |rules| - 1;
      var m := Missingness(rules[..n], df);
      if rules[n].name in df.columns then m[rules[n].name := PctMissing(Column(df, rules[n].name))] else m
  }

  function InitialSummary(df: Frame, c: DataContract): Summary
  {
    Summary(c.schemaVersion, |df.rows|, |df.columns|, map[])
  }

  /**
   * The whole of `validate_dataframe`. `KeyError(col)` is raised by `df[col]` when the primary or
   * patient key is absent without a required rule for it; `TypeError(target)` by the message of
   * the target check when the non-binary values mix strings and numbers.
   */
  function ValidateSpec(df: Frame, c: DataContract): Result<Validation, Raised>
  {
    var missing := MissingRequired(c.columns, df.columns);
    if missing != [] then Success(Validation(false, missing, InitialSummary(df, c)))
    else if c.primaryKey !in df.columns then Failure(KeyError(c.primaryKey))
    else if c.patientKey !in df.columns then Failure(KeyError(c.patientKey))
    else if c.target in df.columns && Unsortable(NonBinary(Column(df, c.target))) then Failure(TypeError(c.target))
    else
      var errors := KeyErrors(df, c) + ColumnErrors(c.columns, df);
      Success(Validation(|errors| == 0, errors, InitialSummary(df, c).(missingness := Missingness(c.columns, df))))
  }

  // ---------------------------------------------------------------------------
  // The imperative validator
  // ---------------------------------------------------------------------------

  /** The body of the per-column loop for a rule whose column is present: its missingness and code checks. */
  method CheckColumnRule(rule: ColumnRule, df: Frame) returns (errors: seq<ValidationError>)
    ensures errors == RuleErrors(rule, df)
  {
    errors := [];
    var col := rule.name;
    var cells := Column(df, col);
    var miss := PctMissing(cells);

    if rule.maxMissingPct.Some? && miss.Some? && miss.value > rule.maxMissingPct.value {
      errors := errors + [MissingnessExceeded(col, miss.value, rule.maxMissingPct.value)];
    }

    if rule.allowedValues.Some? {
      var invalid := InvalidCodeSet(cells, rule.allowedValues.value);
      if invalid != {} {
        var sample := InvalidCodeSample(cells, rule.allowedValues.value);
        errors := errors + [InvalidCodes(col, sample)];
      }
    }
  }

  /** The first loop over the rules: an error for each absent required column. */
  method FindMissingRequired(rules: seq<ColumnRule>, columns: seq<string>) returns (errors: seq<ValidationError>)
    ensures errors == MissingRequired(rules, columns)
  {
    errors := [];
    for i := 0 to |rules|
      invariant errors == MissingRequired(rules[..i], columns)
    {
      assert rules[..i + 1][..i] == rules[..i];
      var rule := rules[i];
      if rule.name !in columns {
        if rule.required {
          errors := errors + [MissingRequiredColumn(rule.name)];
        }
      }
    }
    assert rules[..|rules|] == rules;
  }

  /** The second loop over the rules: missingness of every present column and its rule's errors. */
  method ApplyColumnRules(rules: seq<ColumnRule>, df: Frame) returns (errors: seq<ValidationError>, missingness: map<string, Option<real>>)
    ensures errors == ColumnErrors(rules, df)
    ensures missingness == Missingness(rules, df)
  {
    errors := [];
    missingness := map[];
    for i := 0 to |rules|
      invariant errors == ColumnErrors(rules[..i], df)
      invariant missingness == Missingness(rules[..i], df)
    {
      assert rules[..i + 1][..i] == rules[..i];
      var rule := rules[i];
      var col := rule.name;
      if col !in df.columns {
        continue;
      }
      var miss := PctMissing(Column(df, col));
      missingness := missingness[col := miss];
      var ruleErrors := CheckColumnRule(rule, df);
      errors := errors + ruleErrors;
    }
    assert rules[..|rules|] == rules;
  }

  /** `validate_dataframe`. */
  method ValidateDataFrame(df: Frame, contract: DataContract) returns (r: Result<Validation, Raised>)
    ensures r == ValidateSpec(df, contract)
    ensures r.Success? ==> (r.value.passed <==> r.value.errors == [])
    ensures r.Success? ==> r.value.summary.nRows == |df.rows| && r.value.summary.nCols == |df.columns|
  {
    var summary := Summary(contract.schemaVersion, |df.rows|, |df.columns|, map[]);
    var errors := FindMissingRequired(contract.columns, df.columns);
    if errors != [] {
      return Success(Validation(false, errors, summary));
    }

    // Primary key uniqueness; `df[pk]` raises when the column is absent.
    var pk := contract.primaryKey;
    if pk !in df.columns {
      return Failure(KeyError(pk));
    }
    var pkCells := Column(df, pk);
    if Null in pkCells {
      errors := errors + [PrimaryKeyNotUnique(pk)];
    }
    if HasDuplicate(pkCells) {
      errors := errors + [PrimaryKeyNotUnique(pk)];
    }
    assert errors == PrimaryKeyErrors(pk, pkCells);

    // Patient key non-null.
    var patientKey := contract.patientKey;
    if patientKey !in df.columns {
      return Failure(KeyError(patientKey));
    }
    if Null in Column(df, patientKey) {
      errors := errors + [PatientKeyHasNulls(patientKey)];
    }
    assert errors == PrimaryKeyErrors(pk, pkCells) + PatientKeyErrors(patientKey, Column(df, patientKey));

    // Target binary check.
    var tgt := contract.target;
    if tgt !in df.columns {
      errors := errors + [TargetMissing(tgt)];
    } else {
      var bad := NonBinary(Column(df, tgt));
      if bad != {} {
        // The message prints `sorted(list(bad))`.
        if Unsortable(bad) {
          return Failure(TypeError(tgt));
        }
        errors := errors + [TargetNotBinary(tgt, bad)];
      }
    }
    assert errors == KeyErrors(df, contract);

    // Per-column rules.
    var columnErrors, missingness := ApplyColumnRules(contract.columns, df);
    errors := errors + columnErrors;
    summary := summary.(missingness := missingness);

    var passed := |errors| == 0;
    return Success(Validation(passed, errors, summary));
  }

  // ---------------------------------------------------------------------------
  // What the result promises
  // ---------------------------------------------------------------------------

  /** The first loop reports exactly the absent required columns, one error per rule, in rule order. */
  lemma {:induction false} MissingRequiredSpec(rules: seq<ColumnRule>, columns: seq<string>)
    ensures |MissingRequired(rules, columns)| <= |rules|
    ensures forall e :: e in MissingRequired(rules, columns) <==>
              exists k :: 0 <= k < |rules| && rules[k].required && rules[k].name !in columns
                          && e == MissingRequiredColumn(rules[k].name)
    decreases |rules|
  {
    if rules != [] {
      var n := |rules| - 1;
      MissingRequiredSpec(rules[..n], columns);
      forall e | e in MissingRequired(rules, columns)
        ensures exists k :: 0 <= k < |rules| && rules[k].required && rules[k].name !in columns
                            && e == MissingRequiredColumn(rules[k].name)
      {
        if e in MissingRequired(rules[..n], columns) {
          var k :| 0 <= k < n && rules[..n][k].required && rules[..n][k].name !in columns
                   && e == MissingRequiredColumn(rules[..n][k].name);
          assert rules[k] == rules[..n][k];
        }
      }
      forall k | 0 <= k < |rules| && rules[k].required && rules[k].name !in columns
        ensures MissingRequiredColumn(rules[k].name) in MissingRequired(rules, columns)
      {
        if k < n { assert rules[..n][k] == rules[k]; }
      }
    }
  }

  /** The rules whose column is absent although they require it and carry `name`. */
  function AbsentRequired(rules: seq<ColumnRule>, columns: seq<string>, name: string): set<nat>
  {
    set k: nat | k < |rules| && rules[k].required && rules[k].name == name && name !in columns
  }

  /** The first loop reports a column's absence once for every required rule that carries its name. */
  lemma {:induction false} MissingRequiredCount(rules: seq<ColumnRule>, columns: seq<string>, name: string)
    ensures multiset(MissingRequired(rules, columns))[MissingRequiredColumn(name)] == |AbsentRequired(rules, columns, name)|
    decreases |rules|
  {
    if rules != [] {
      var n := |rules| - 1;
      MissingRequiredCount(rules[..n], columns, name);
      MissingRequiredLast(rules, columns, name);
      AbsentRequiredLast(rules, columns, name);
    }
  }

  /** The last rule adds one report of `name` exactly when it requires that absent column. */
  lemma MissingRequiredLast(rules: seq<ColumnRule>, columns: seq<string>, name: string)
    requires rules != []
    ensures var n := |rules| - 1;
            multiset(MissingRequired(rules, columns))[MissingRequiredColumn(name)]
            == multiset(MissingRequired(rules[..n], columns))[MissingRequiredColumn(name)]
               + (if rules[n].required && rules[n].name == name && name !in columns then 1 else 0)
  {
    var n := |rules| - 1;
    var last := if rules[n].name !in columns && rules[n].required then [MissingRequiredColumn(rules[n].name)] else [];
    assert MissingRequired(rules, columns) == MissingRequired(rules[..n], columns) + last;
    assert multiset(MissingRequired(rules, columns)) == multiset(MissingRequired(rules[..n], columns)) + multiset(last);
  }

  /** The last rule joins the absent required rules of `name` exactly when it is one. */
  lemma AbsentRequiredLast(rules: seq<ColumnRule>, columns: seq<string>, name: string)
    requires rules != []
    ensures var n := |rules| - 1;
            |AbsentRequired(rules, columns, name)|
            == |AbsentRequired(rules[..n], columns, name)|
               + (if rules[n].required && rules[n].name == name && name !in columns then 1 else 0)
  {
    var n := |rules| - 1;
    var all := AbsentRequired(rules, columns, name);
    var before := AbsentRequired(rules[..n], columns, name);
    assert forall k: nat :: k < n ==> (k in all <==> k in before) by {
      forall k: nat | k < n
        ensures k in all <==> k in before
      {
        assert rules[..n][k] == rules[k];
      }
    }
    assert forall k :: k in before ==> k < n;
    if rules[n].required && rules[n].name == name && name !in columns {
      assert all == before + {n};
      assert n !in before;
    } else {
      assert all == before;
    }
  }

  /**
   * Early return: with any required column absent, validation fails with exactly the
   * "Missing required column" errors and an empty missingness summary, and runs no other check.
   */
  lemma ValidateEarlyReturn(df: Frame, c: DataContract, k: nat)
    requires k < |c.columns| && c.columns[k].required && c.columns[k].name !in df.columns
    ensures ValidateSpec(df, c) == Success(Validation(false, MissingRequired(c.columns, df.columns), InitialSummary(df, c)))
    ensures forall e :: e in ValidateSpec(df, c).value.errors <==>
              exists j :: 0 <= j < |c.columns| && c.columns[j].required && c.columns[j].name !in df.columns
                          && e == MissingRequiredColumn(c.columns[j].name)
  {
    MissingRequiredSpec(c.columns, df.columns);
    assert MissingRequiredColumn(c.columns[k].name) in MissingRequired(c.columns, df.columns);
  }

  /** `passed` is true exactly when the error list is empty, and the summary always carries the shape. */
  lemma ValidatePassedIffNoErrors(df: Frame, c: DataContract)
    requires ValidateSpec(df, c).Success?
    ensures var v := ValidateSpec(df, c).value;
            && (v.passed <==> v.errors == [])
            && v.summary.schemaVersion == c.schemaVersion
            && v.summary.nRows == |df.rows| && v.summary.nCols == |df.columns|
  {
  }

  /** The missingness summary holds the present rule columns, each with its missing fraction. */
  lemma {:induction false} MissingnessSpec(rules: seq<ColumnRule>, df: Frame)
    ensures forall name :: name in Missingness(rules, df) <==>
              name in df.columns && exists k :: 0 <= k < |rules| && rules[k].name == name
    ensures forall name :: name in Missingness(rules, df) ==>
              Missingness(rules, df)[name] == PctMissing(Column(df, name))
    decreases |rules|
  {
    if rules != [] {
      var n := |rules| - 1;
      MissingnessSpec(rules[..n], df);
      forall name | name in df.columns && (exists k :: 0 <= k < |rules| && rules[k].name == name)
        ensures name in Missingness(rules, df)
      {
        var k :| 0 <= k < |rules| && rules[k].name == name;
        if k < n { assert rules[..n][k] == rules[k]; }
      }
      forall name | name in Missingness(rules[..n], df)
        ensures exists k :: 0 <= k < |rules| && rules[k].name == name
      {
        var k :| 0 <= k < n && rules[..n][k].name == name;
        assert rules[k] == rules[..n][k];
      }
    }
  }

  /** The per-column errors are those of the rules whose column is present, and nothing else. */
  lemma ColumnErrorsMembers(rules: seq<ColumnRule>, df: Frame)
    ensures forall e :: e in ColumnErrors(rules, df) <==>
              exists k :: 0 <= k < |rules| && rules[k].name in df.columns && e in RuleErrors(rules[k], df)
  {
    ColumnErrorsSound(rules, df);
    forall e, k | 0 <= k < |rules| && rules[k].name in df.columns && e in RuleErrors(rules[k], df)
      ensures e in ColumnErrors(rules, df)
    {
      ColumnErrorsComplete(rules, df, k);
    }
  }

  /** Every per-column error comes from a rule whose column is present. */
  lemma {:induction false} ColumnErrorsSound(rules: seq<ColumnRule>, df: Frame)
    ensures forall e :: e in ColumnErrors(rules, df) ==>
              exists k :: 0 <= k < |rules| && rules[k].name in df.columns && e in RuleErrors(rules[k], df)
    decreases |rules|
  {
    if rules != [] {
      var n := |rules| - 1;
      var prefix := rules[..n];
      ColumnErrorsSound(prefix, df);
      var tail := if rules[n].name in df.columns then RuleErrors(rules[n], df) else [];
      assert ColumnErrors(rules, df) == ColumnErrors(prefix, df) + tail;
      forall e | e in ColumnErrors(rules, df)
        ensures exists k :: 0 <= k < |rules| && rules[k].name in df.columns && e in RuleErrors(rules[k], df)
      {
        if e in ColumnErrors(prefix, df) {
          var k :| 0 <= k < n && prefix[k].name in df.columns && e in RuleErrors(prefix[k], df);
          assert rules[k] == prefix[k];
        } else {
          assert e in tail;
        }
      }
    }
  }

  /** The errors of a rule whose column is present are all reported. */
  lemma {:induction false} ColumnErrorsComplete(rules: seq<ColumnRule>, df: Frame, k: nat)
    requires k < |rules| && rules[k].name in df.columns
    ensures forall e :: e in RuleErrors(rules[k], df) ==> e in ColumnErrors(rules, df)
    decreases |rules|
  {
    var n := |rules| - 1;
    var prefix := rules[..n];
    var errs := RuleErrors(rules[k], df);
    var before := ColumnErrors(prefix, df);
    var tail := if rules[n].name in df.columns then RuleErrors(rules[n], df) else [];
    assert ColumnErrors(rules, df) == before + tail;
    if k < n {
      assert prefix[k] == rules[k];
      ColumnErrorsComplete(prefix, df, k);
      WithinConcat(errs, before, tail);
    } else {
      assert errs == tail;
      WithinConcat(errs, before, tail);
    }
  }

  /** What lies within one part of a concatenation lies within the whole. */
  lemma WithinConcat<T>(s: seq<T>, a: seq<T>, b: seq<T>)
    requires (forall x :: x in s ==> x in a) || (forall x :: x in s ==> x in b)
    ensures forall x :: x in s ==> x in a + b
  {
  }

  /** A rule reports a missingness error exactly when its limit is exceeded, and a code error exactly when some code is not allowed. */
  lemma RuleErrorsSpec(rule: ColumnRule, df: Frame)
    ensures forall e :: e in RuleErrors(rule, df) ==> e.MissingnessExceeded? || e.InvalidCodes?
    ensures forall miss, limit :: MissingnessExceeded(rule.name, miss, limit) in RuleErrors(rule, df) <==>
              rule.maxMissingPct == Some(limit) && PctMissing(Column(df, rule.name)) == Some(miss) && miss > limit
    ensures forall sample :: InvalidCodes(rule.name, sample) in RuleErrors(rule, df) <==>
              rule.allowedValues.Some? && InvalidCodeSet(Column(df, rule.name), rule.allowedValues.value) != {}
              && sample == InvalidCodeSample(Column(df, rule.name), rule.allowedValues.value)
    ensures forall e :: e in RuleErrors(rule, df) ==> e.col == rule.name
  {
  }

  /** The per-column loop reports only missingness and code-list errors. */
  lemma ColumnErrorKinds(rules: seq<ColumnRule>, df: Frame)
    ensures forall e :: e in ColumnErrors(rules, df) ==> e.MissingnessExceeded? || e.InvalidCodes?
  {
    ColumnErrorsMembers(rules, df);
    forall e | e in ColumnErrors(rules, df)
      ensures e.MissingnessExceeded? || e.InvalidCodes?
    {
      var k :| 0 <= k < |rules| && rules[k].name in df.columns && e in RuleErrors(rules[k], df);
      RuleErrorsSpec(rules[k], df);
    }
  }

  /**
   * The invalid-code sample: ascending, drawn from the invalid codes, of size min(10, number of invalid
   * codes), and holding the smallest ones.
   */
  lemma InvalidCodeSampleSpec(cells: seq<Cell>, allowed: set<string>)
    ensures var sample := InvalidCodeSample(cells, allowed);
            var invalid := InvalidCodeSet(cells, allowed);
            && StrictlySorted(sample)
            && (forall x :: x in sample ==> x in invalid)
            && |sample| == (if |invalid| < SampleSize then |invalid| else SampleSize)
            && (forall x, y :: x in invalid && x !in sample && y in sample ==> Less(y, x))
  {
    var sorted := SortDistinct(InvalidCodeList(cells, allowed));
    var invalid := InvalidCodeSet(cells, allowed);
    StrictlySortedCard(sorted);
    assert (set y | y in sorted) == invalid;
    var m := if |sorted| < SampleSize then |sorted| else SampleSize;
    SmallestPrefix(sorted, m);
  }

  /** The key checks report a missing and a repeated primary key separately, with the same message. */
  lemma KeyChecksSpec(df: Frame, c: DataContract)
    requires MissingRequired(c.columns, df.columns) == []
    requires c.primaryKey in df.columns && c.patientKey in df.columns
    requires !(c.target in df.columns && Unsortable(NonBinary(Column(df, c.target))))
    ensures var errors := ValidateSpec(df, c).value.errors;
            && multiset(errors)[PrimaryKeyNotUnique(c.primaryKey)]
               == (if Null in Column(df, c.primaryKey) then 1 else 0) + (if HasDuplicate(Column(df, c.primaryKey)) then 1 else 0)
            && (PatientKeyHasNulls(c.patientKey) in errors <==> Null in Column(df, c.patientKey))
            && (TargetMissing(c.target) in errors <==> c.target !in df.columns)
            && (c.target in df.columns ==>
                  (NonBinary(Column(df, c.target)) != {} <==> TargetNotBinary(c.target, NonBinary(Column(df, c.target))) in errors))
  {
    assert ValidateSpec(df, c).value.errors == KeyErrors(df, c) + ColumnErrors(c.columns, df);
    KeyAndColumnCount(df, c);
    KeyAndColumnMembers(df, c);
  }

  /** The per-column errors add no primary-key error to the count of the key checks. */
  lemma KeyAndColumnCount(df: Frame, c: DataContract)
    ensures multiset(KeyErrors(df, c) + ColumnErrors(c.columns, df))[PrimaryKeyNotUnique(c.primaryKey)]
            == (if Null in Column(df, c.primaryKey) then 1 else 0) + (if HasDuplicate(Column(df, c.primaryKey)) then 1 else 0)
  {
    var keyErrors := KeyErrors(df, c);
    var colErrors := ColumnErrors(c.columns, df);
    assert PrimaryKeyNotUnique(c.primaryKey) !in colErrors by {
      ColumnErrorKinds(c.columns, df);
    }
    CountInFirst(keyErrors, colErrors, [], PrimaryKeyNotUnique(c.primaryKey));
    assert keyErrors + colErrors + [] == keyErrors + colErrors;
    KeyErrorsCount(df, c);
  }

  /** The per-column errors add no patient-key or target error. */
  lemma KeyAndColumnMembers(df: Frame, c: DataContract)
    ensures var errors := KeyErrors(df, c) + ColumnErrors(c.columns, df);
            && (PatientKeyHasNulls(c.patientKey) in errors <==> Null in Column(df, c.patientKey))
            && (TargetMissing(c.target) in errors <==> c.target !in df.columns)
            && (c.target in df.columns ==>
                  (NonBinary(Column(df, c.target)) != {} <==> TargetNotBinary(c.target, NonBinary(Column(df, c.target))) in errors))
  {
    var keyErrors := KeyErrors(df, c);
    var colErrors := ColumnErrors(c.columns, df);
    assert forall e :: e in colErrors ==> e.MissingnessExceeded? || e.InvalidCodes? by {
      ColumnErrorKinds(c.columns, df);
    }
    KeyErrorsMembers(df, c);
  }

  /** The key checks on their own: a missing and a repeated primary key are reported once each. */
  lemma KeyErrorsCount(df: Frame, c: DataContract)
    ensures multiset(KeyErrors(df, c))[PrimaryKeyNotUnique(c.primaryKey)]
            == (if Null in Column(df, c.primaryKey) then 1 else 0) + (if HasDuplicate(Column(df, c.primaryKey)) then 1 else 0)
  {
    var x := PrimaryKeyNotUnique(c.primaryKey);
    var a := PrimaryKeyErrors(c.primaryKey, Column(df, c.primaryKey));
    var p := PatientKeyErrors(c.patientKey, Column(df, c.patientKey));
    var t := TargetErrors(df, c.target);
    assert KeyErrors(df, c) == a + p + t;
    assert x !in p && x !in t;
    CountInFirst(a, p, t, x);
    PrimaryKeyCount(c.primaryKey, Column(df, c.primaryKey));
  }

  /** An element absent from the second and third lists occurs in the concatenation as often as in the first. */
  lemma CountInFirst<T>(a: seq<T>, b: seq<T>, c: seq<T>, x: T)
    requires x !in b && x !in c
    ensures multiset(a + b + c)[x] == multiset(a)[x]
  {
    assert multiset(a + b + c) == multiset(a) + multiset(b) + multiset(c);
  }

  lemma PrimaryKeyCount(pk: string, cells: seq<Cell>)
    ensures multiset(PrimaryKeyErrors(pk, cells))[PrimaryKeyNotUnique(pk)]
            == (if Null in cells then 1 else 0) + (if HasDuplicate(cells) then 1 else 0)
  {
    var a := if Null in cells then [PrimaryKeyNotUnique(pk)] else [];
    var b := if HasDuplicate(cells) then [PrimaryKeyNotUnique(pk)] else [];
    assert multiset(a + b) == multiset(a) + multiset(b);
  }

  /** The key checks on their own: which patient-key and target errors they report, and no other kind. */
  lemma KeyErrorsMembers(df: Frame, c: DataContract)
    ensures PatientKeyHasNulls(c.patientKey) in KeyErrors(df, c) <==> Null in Column(df, c.patientKey)
    ensures TargetMissing(c.target) in KeyErrors(df, c) <==> c.target !in df.columns
    ensures c.target in df.columns ==>
              (NonBinary(Column(df, c.target)) != {} <==> TargetNotBinary(c.target, NonBinary(Column(df, c.target))) in KeyErrors(df, c))
    ensures forall e :: e in KeyErrors(df, c) ==> !e.MissingRequiredColumn? && !e.MissingnessExceeded? && !e.InvalidCodes?
  {
    var t := TargetErrors(df, c.target);
    assert forall e :: e in t ==> e.TargetMissing? || e.TargetNotBinary?;
    KeyPartsMembers(c.primaryKey, c.patientKey, Column(df, c.primaryKey), Column(df, c.patientKey), t);
  }

  /** The primary- and patient-key parts contribute only their own kinds of error. */
  lemma KeyPartsMembers(pk: string, patientKey: string, pkCells: seq<Cell>, patientCells: seq<Cell>, t: seq<ValidationError>)
    requires forall e :: e in t ==> e.TargetMissing? || e.TargetNotBinary?
    ensures var errors := PrimaryKeyErrors(pk, pkCells) + PatientKeyErrors(patientKey, patientCells) + t;
            && (PatientKeyHasNulls(patientKey) in errors <==> Null in patientCells)
            && (forall e: ValidationError :: (e.TargetMissing? || e.TargetNotBinary?) ==> (e in errors <==> e in t))
            && (forall e :: e in errors ==> !e.MissingRequiredColumn? && !e.MissingnessExceeded? && !e.InvalidCodes?)
  {
    var a := PrimaryKeyErrors(pk, pkCells);
    var p := PatientKeyErrors(patientKey, patientCells);
    InConcat(a, p, t);
    assert forall e :: e in a ==> e == PrimaryKeyNotUnique(pk);
    assert forall e :: e in p ==> e == PatientKeyHasNulls(patientKey);
  }

  /** Membership in a concatenation of three lists. */
  lemma InConcat<T>(a: seq<T>, b: seq<T>, c: seq<T>)
    ensures forall x :: x in a + b + c <==> x in a || x in b || x in c
  {
  }

  /**
   * A rule whose column is absent adds no missingness entry and no per-column error;
   * when it and every other rule for that name are optional, no "missing" error either.
   */
  lemma AbsentOptionalIgnored(df: Frame, c: DataContract, k: nat)
    requires k < |c.columns| && !c.columns[k].required && c.columns[k].name !in df.columns
    requires ValidateSpec(df, c).Success?
    ensures var v := ValidateSpec(df, c).value;
            && c.columns[k].name !in v.summary.missingness
            && (forall e :: e in v.errors && (e.MissingnessExceeded? || e.InvalidCodes?) ==> e.col != c.columns[k].name)
            && ((forall j :: 0 <= j < |c.columns| && c.columns[j].name == c.columns[k].name ==> !c.columns[j].required)
                ==> MissingRequiredColumn(c.columns[k].name) !in v.errors)
  {
    var name := c.columns[k].name;
    if MissingRequired(c.columns, df.columns) == [] {
      AbsentAfterKeyChecks(df, c, name);
    } else {
      MissingRequiredSpec(c.columns, df.columns);
    }
  }

  /** Past the early return, an absent column has no missingness entry and no error of any column-level kind. */
  lemma AbsentAfterKeyChecks(df: Frame, c: DataContract, name: string)
    requires name !in df.columns && MissingRequired(c.columns, df.columns) == []
    requires c.primaryKey in df.columns && c.patientKey in df.columns
    requires !(c.target in df.columns && Unsortable(NonBinary(Column(df, c.target))))
    ensures var v := ValidateSpec(df, c).value;
            && name !in v.summary.missingness
            && (forall e :: e in v.errors && (e.MissingnessExceeded? || e.InvalidCodes?) ==> e.col != name)
            && MissingRequiredColumn(name) !in v.errors
  {
    var keyErrors := KeyErrors(df, c);
    var colErrors := ColumnErrors(c.columns, df);
    assert ValidateSpec(df, c).value.errors == keyErrors + colErrors;
    assert ValidateSpec(df, c).value.summary.missingness == Missingness(c.columns, df);
    assert name !in Missingness(c.columns, df) by {
      MissingnessSpec(c.columns, df);
    }
    assert forall e :: e in keyErrors ==> !e.MissingRequiredColumn? && !e.MissingnessExceeded? && !e.InvalidCodes? by {
      KeyErrorsMembers(df, c);
    }
    AbsentColumnNoErrors(c.columns, df, name);
  }

  /** Every per-column error is a missingness or code-list error, and none names an absent column. */
  lemma AbsentColumnNoErrors(rules: seq<ColumnRule>, df: Frame, name: string)
    requires name !in df.columns
    ensures forall e :: e in ColumnErrors(rules, df) ==> (e.MissingnessExceeded? || e.InvalidCodes?) && e.col != name
  {
    ColumnErrorsMembers(rules, df);
    forall e | e in ColumnErrors(rules, df)
      ensures (e.MissingnessExceeded? || e.InvalidCodes?) && e.col != name
    {
      var j :| 0 <= j < |rules| && rules[j].name in df.columns && e in RuleErrors(rules[j], df);
      RuleErrorsSpec(rules[j], df);
    }
  }

  /**
   * With the diabetes contract the primary and patient keys are required, so their lookups never
   * raise: validation raises exactly when, past the early return, the target's non-binary values
   * mix strings and numbers.
   */
  lemma DiabetesContractRaises(df: Frame)
    ensures var c := DiabetesReadmissionContract();
            ValidateSpec(df, c).Failure? <==>
              MissingRequired(c.columns, df.columns) == [] && Unsortable(NonBinary(Column(df, c.target)))
    ensures var c := DiabetesReadmissionContract();
            ValidateSpec(df, c).Failure? ==> ValidateSpec(df, c).error == TypeError(c.target)
  {
    var c := DiabetesReadmissionContract();
    DiabetesContractKeys();
    MissingRequiredSpec(c.columns, df.columns);
    if MissingRequired(c.columns, df.columns) == [] {
      var k :| 0 <= k < |c.columns| && c.columns[k].name == c.primaryKey && c.columns[k].required;
      assert MissingRequiredColumn(c.columns[k].name) !in MissingRequired(c.columns, df.columns);
      var j :| 0 <= j < |c.columns| && c.columns[j].name == c.patientKey && c.columns[j].required;
      assert MissingRequiredColumn(c.columns[j].name) !in MissingRequired(c.columns, df.columns);
    }
  }

  /** A target holding the string "x" and the number 2 makes validation raise. */
  lemma MixedTargetUnsortable()
    ensures Unsortable(NonBinary([Text("x"), Num(2)]))
  {
    assert Text("x") in NonBinary([Text("x"), Num(2)]);
    assert Num(2) in NonBinary([Text("x"), Num(2)]);
  }
}
