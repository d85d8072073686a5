# readmission-risk-monitor, modelled in Dafny

readmission-risk-monitor is a 30-day hospital readmission risk pipeline. It does five things:

- It prepares a raw encounter table (ingest).
- It checks the table against a data contract (validate).
- It splits the table into train, validation and test partitions at patient level, and guards that split against patient leakage.
- It chooses the model's feature columns.
- It serves probabilities, risk tiers and reason codes over HTTP.

This project models the deterministic core of each of those steps and proves what the code promises about them.

A pandas DataFrame is a `Frames.Frame`: an ordered list of column names and a list of rows, with cells matched to names by position. A cell is missing (`Null`), an integer or a string. Every frame is a value, so the copy-on-entry of the source (`df.copy()`) is built in: no step changes its input.

The modules follow the source files:

| module | source file | form |
|---|---|---|
| `Contract` | data/contract.py | datatypes and a constant contract |
| `Validate` | data/validate.py | imperative methods (`ValidateDataFrame` and its two rule loops), each proved equal to a specification function; lemmas on that function |
| `Split` | features/split.py | functions over an abstract group chooser, with lemmas on their composition |
| `Leakage` | features/leakage.py | set functions and lemmas |
| `Build` | features/build.py | functions, plus the loop of `infer_numeric_categorical` as a method |
| `Ingest` | scripts/ingest.py | functions, plus the loop of `coerce_types` as a method |
| `Explain` | serving/explain.py | functions and lemmas |
| `Serving` | serving/app.py | a `Server` class holding the globals `MODEL`, `META` and `FEATURE_COLUMNS`; `BuildRow` is the row-building loop of `predict` |
| `Frames` | support | the DataFrame operations the modules share (`df[col]`, `df[col] = ...`, `str()`) |
| `StringOrder` | support | Python's `str` ordering and `sorted()` for the invalid-code sample |
| `Wrappers` | support | `Option` (Python's `None`) and `Result` (a raised exception) |

Three things are parameters because the source leaves them to a library:

- scikit-learn's `GroupShuffleSplit` is `Split.GroupChooser`, a function from the group column, the label column, the fraction and the seed to the set of groups placed on the first side. The rows on each side, their order, the partition of the rows and the cohesion of each group are derived from the chooser and proved. Nothing is known about the chooser beyond being a function.
- pandas' `is_numeric_dtype` is `isNumeric: string -> bool`.
- The index order returned by `np.argsort`, whose order among equal coefficients numpy leaves open, is constrained by `Explain.IsArgsort`.

A loaded model is its positive-class probability function on one feature row (`Serving.Model`).

Error messages are structured values (`Validate.ValidationError`, `Split.SplitError`, `Leakage.LeakageError`) that carry the data the message prints. A raised exception is a `Failure`.

How the split reports bad input:

- The fraction check is made when `SplitConfig` is built (`Split.MakeSplitConfig`); `group_split` checks only the columns.
- `group_split` itself does not count the distinct groups. When there are too few of them, the error comes from scikit-learn inside the chooser, which the model abstracts.
- `valid_size + test_size == 0` makes `group_split` divide by zero. This is `Split.ZeroTemporaryFraction`, raised after the first stage.

## Model

| member | source | states |
|---|---|---|
| Contract.ColumnRuleDefaults | src/readmission_risk_monitor/data/contract.py:6-12 | A rule built from a name and a type alone is required, with no code list and no missingness limit |
| Contract.RuleFor | src/readmission_risk_monitor/data/contract.py:36-45 | The rule found for a name is one of the contract's rules and carries that name; no rule is found only when no rule carries it |
| Contract.DiabetesContractKeys | src/readmission_risk_monitor/data/contract.py:31-44 | The primary key is ENCOUNTER_ID, the patient key PATIENT_NBR and the target READMITTED_30D; each is backed by a required rule; a rule is optional exactly when it is RACE's |
| Contract.DiabetesContractRules | src/readmission_risk_monitor/data/contract.py:37-44 | The rule looked up for ENCOUNTER_ID, PATIENT_NBR, READMITTED, GENDER and TIME_IN_HOSPITAL is the one the contract lists for it |
| Contract.DiabetesContractLimits | src/readmission_risk_monitor/data/contract.py:27-44 | READMITTED allows exactly {NO, <30, >30}; GENDER allows exactly {Male, Female, Unknown/Invalid}; ENCOUNTER_ID, PATIENT_NBR and TIME_IN_HOSPITAL allow no missing value |
| Contract.RuleInFirst | src/readmission_risk_monitor/data/contract.py:36-45 | The rule found for a name is the first one in the list that carries it |
| Validate.CountNulls | src/readmission_risk_monitor/data/validate.py:10-11 | The count is the number of missing cells in the column (their multiplicity); it is zero exactly when no cell is missing and the column's length exactly when every cell is |
| Validate.PctMissing | src/readmission_risk_monitor/data/validate.py:10-11 | The missing fraction is undefined (NaN) exactly for an empty column; otherwise it is the number of missing cells divided by the length, lies in [0, 1], is 0 exactly when no cell is missing and 1 exactly when every cell is |
| Validate.InvalidCodeList | src/readmission_risk_monitor/data/validate.py:67-69 | The listed codes are exactly the non-missing values, as strings, that the rule does not allow |
| Validate.CheckColumnRule | src/readmission_risk_monitor/data/validate.py:58-72 | The per-rule checks report exactly the errors of the rule's specification |
| Validate.FindMissingRequired | src/readmission_risk_monitor/data/validate.py:22-25 | The first rule loop reports exactly the specified "missing required column" errors, in rule order |
| Validate.ApplyColumnRules | src/readmission_risk_monitor/data/validate.py:53-72 | The second rule loop reports exactly the specified per-column errors and records the specified missingness map |
| Validate.ValidateDataFrame | src/readmission_risk_monitor/data/validate.py:13-75 | The validator's result equals its specification: it raises the KeyError of an absent key column and the TypeError of a non-binary target that mixes strings and numbers; otherwise `passed` holds exactly when the error list is empty, and the summary carries the row and column counts |
| Validate.MissingRequiredSpec | src/readmission_risk_monitor/data/validate.py:22-25 | There are at most as many errors as rules, and an error is reported exactly for the name of a required rule whose column is absent |
| Validate.MissingRequiredCount | src/readmission_risk_monitor/data/validate.py:22-25 | A column's absence is reported once for every required rule that carries its name: one error per absent required rule |
| Validate.MissingRequiredLast | src/readmission_risk_monitor/data/validate.py:22-25 | The last rule adds one report of a name exactly when it requires that absent column |
| Validate.AbsentRequiredLast | src/readmission_risk_monitor/data/validate.py:22-25 | The last rule joins the absent required rules of a name exactly when it is one |
| Validate.ValidateEarlyReturn | src/readmission_risk_monitor/data/validate.py:22-28 | With any required column absent, validation fails with exactly the "missing required column" errors and an empty missingness summary; no other check runs |
| Validate.ValidatePassedIffNoErrors | src/readmission_risk_monitor/data/validate.py:15-20 | `passed` holds exactly when the errors are empty; the summary carries the schema version and the frame's row and column counts |
| Validate.MissingnessSpec | src/readmission_risk_monitor/data/validate.py:53-59 | The missingness summary has an entry exactly for each rule column present in the frame, holding that column's missing fraction |
| Validate.ColumnErrorsMembers | src/readmission_risk_monitor/data/validate.py:53-72 | An error comes from the per-column loop exactly when it is an error of some rule whose column is present |
| Validate.ColumnErrorsSound | src/readmission_risk_monitor/data/validate.py:53-56 | Every per-column error comes from a rule whose column is present |
| Validate.ColumnErrorsComplete | src/readmission_risk_monitor/data/validate.py:53-72 | Every error of a rule whose column is present is reported |
| Validate.RuleErrorsSpec | src/readmission_risk_monitor/data/validate.py:58-72 | A rule reports a missingness error exactly when its limit exists and the missing fraction exceeds it. It reports a code error exactly when some non-missing value is not allowed, with the sample of invalid codes. Both errors name the rule's column |
| Validate.ColumnErrorKinds | src/readmission_risk_monitor/data/validate.py:53-72 | The per-column loop reports only missingness and code-list errors |
| Validate.InvalidCodeSampleSpec | src/readmission_risk_monitor/data/validate.py:67-72 | The sample is strictly ascending and drawn from the invalid codes. It holds min(10, number of invalid codes) of them, and each is smaller than every invalid code left out |
| Validate.KeyChecksSpec | src/readmission_risk_monitor/data/validate.py:31-50 | Past the early return, the "primary key not unique" error appears once for missing keys and once more for a repeated key. A patient-key error appears exactly when a patient id is missing. A target error appears exactly when the target is absent or holds a non-missing value other than 0 and 1 |
| Validate.KeyAndColumnCount | src/readmission_risk_monitor/data/validate.py:31-72 | The per-column errors add no primary-key error to the count of the key checks |
| Validate.KeyAndColumnMembers | src/readmission_risk_monitor/data/validate.py:39-72 | The per-column errors add no patient-key or target error |
| Validate.KeyErrorsCount | src/readmission_risk_monitor/data/validate.py:31-50 | The key checks report the primary-key error once for a missing key and once more for a repeated one |
| Validate.PrimaryKeyCount | src/readmission_risk_monitor/data/validate.py:32-36 | The primary-key check reports its error once per failed condition: missing keys, then repeated keys |
| Validate.KeyErrorsMembers | src/readmission_risk_monitor/data/validate.py:39-50 | The patient-key and target errors of the key checks appear exactly under their conditions; the key checks report no other kind of error |
| Validate.KeyPartsMembers | src/readmission_risk_monitor/data/validate.py:32-41 | The primary- and patient-key checks contribute only their own kinds of error |
| Validate.AbsentOptionalIgnored | src/readmission_risk_monitor/data/validate.py:22-25 | An absent optional column gets no missingness entry and no per-column error; when no rule for its name is required, it gets no "missing" error either |
| Validate.AbsentAfterKeyChecks | src/readmission_risk_monitor/data/validate.py:53-56 | Past the early return, an absent column has no missingness entry, no column-level error and no "missing" error |
| Validate.AbsentColumnNoErrors | src/readmission_risk_monitor/data/validate.py:55-56 | No per-column error names an absent column |
| Validate.DiabetesContractRaises | src/readmission_risk_monitor/data/validate.py:32-50 | Under the diabetes contract the key lookups `df[pk]` and `df[patient_key]` never raise: validation raises exactly when, past the early return, the target's non-binary values mix strings and numbers, and then it is the TypeError of the target check |
| Validate.MixedTargetUnsortable | src/readmission_risk_monitor/data/validate.py:48-50 | A target holding "x" and 2 has a non-binary set that cannot be sorted |
| Split.MakeSplitConfig | src/readmission_risk_monitor/features/split.py:20-25 | Construction succeeds exactly when the three fractions sum to 1 within 1e-6, keeping the given values; otherwise it fails with the sum |
| Split.ConfigExamples | src/readmission_risk_monitor/features/split.py:13-25 | The defaults 0.7/0.15/0.15 with seed 42 are accepted. 0.7/0.3/0.3 is rejected, and so are sums that miss 1 by more than 1e-6; sums within 1e-6 are accepted |
| Split.PositionsSpec | src/readmission_risk_monitor/features/split.py:52-54 | The positions of one side are ascending and list exactly the rows whose group is on that side |
| Split.GroupShuffleSplit | src/readmission_risk_monitor/features/split.py:47-54 | The two index lists of one grouped split partition the rows, and no group has rows on both sides |
| Split.ILocPositions | src/readmission_risk_monitor/features/split.py:56-57 | Selecting one side's positions gives that side's rows, in their original order |
| Split.ILocAppend | src/readmission_risk_monitor/features/split.py:56-57 | Selecting the positions of `p + q` selects those of `p`, then those of `q` |
| Split.ILocPrefix | src/readmission_risk_monitor/features/split.py:56-57 | Positions below `n` select the same rows from the first `n` rows |
| Split.KeepGroupsPartition | src/readmission_risk_monitor/features/split.py:52-57 | The two sides of a group filter together hold every row exactly once |
| Split.ShuffleSplitSides | src/readmission_risk_monitor/features/split.py:52-57 | The two frames of one grouped split are the rows whose group was chosen and the rest, with the input's columns |
| Split.KeepGroupsSubset | src/readmission_risk_monitor/features/split.py:56-57 | Every row on a side is an input row whose group is on that side |
| Split.GroupSplitErrors | src/readmission_risk_monitor/features/split.py:41-44 | A missing group column is reported first, then a missing target column. The split fails exactly when a column is missing or the validation and test fractions sum to zero |
| Split.GroupSplitStages | src/readmission_risk_monitor/features/split.py:47-77 | Train is the rows the first call chose. Validation and test split the remaining rows by a second call with fraction valid/(valid+test) and the same seed |
| Split.GroupSplitRowComplete | src/readmission_risk_monitor/features/split.py:52-77 | Train, validation and test keep the input's columns and together hold every input row exactly once |
| Split.GroupSplitGroupDisjoint | src/readmission_risk_monitor/features/split.py:34-40 | No group identifier appears in two of train, validation and test |
| Split.GroupSplitSeedDetermined | src/readmission_risk_monitor/features/split.py:47-67 | Two runs whose choosers agree at the configured seed give identical train, validation and test frames |
| Split.StageTwoFraction | src/readmission_risk_monitor/features/split.py:60-61 | With non-negative validation and test fractions, stage 2's fraction lies in [0, 1] and is the validation share of validation plus test |
| Leakage.PatientDisjointnessReport | src/readmission_risk_monitor/features/leakage.py:8-29 | The report fails exactly when a split lacks the patient column; each overlap count is at most both per-split counts it intersects |
| Leakage.AssertPatientDisjoint | src/readmission_risk_monitor/features/leakage.py:32-48 | The guard passes exactly when the report exists and the three patient-id sets are pairwise disjoint; a leakage failure carries the full report |
| Leakage.OverlapZeroIffNoSharedPatient | src/readmission_risk_monitor/features/leakage.py:25-27 | An overlap count is zero exactly when no patient has rows in both splits |
| Leakage.GuardFailsIffSharedPatient | src/readmission_risk_monitor/features/leakage.py:41-48 | With the patient column present, the guard fails exactly when some patient appears in two splits |
| Leakage.MissingIdsIgnored | src/readmission_risk_monitor/features/leakage.py:17-19 | A row with a missing patient id changes no count and no overlap |
| Leakage.GuardAcceptsGroupSplit | src/readmission_risk_monitor/features/split.py:28-79 | The guard never fires on the output of a successful `group_split` when the patient column is the group column |
| Leakage.PatientIdsWithinGroupIds | src/readmission_risk_monitor/features/leakage.py:17-19 | A split's patient ids are among its group identifiers |
| Leakage.IntersectionBound | src/readmission_risk_monitor/features/leakage.py:25-27 | An intersection is no larger than either set |
| Build.AllDropCols | src/readmission_risk_monitor/features/build.py:24-25 | The drop columns are target, patient id and record id, followed by the forbidden columns, in that order |
| Build.DropColsMembers | src/readmission_risk_monitor/features/build.py:24-25 | A column is dropped exactly when it is one of the three key columns or a forbidden column |
| Build.ForbiddenDefault | src/readmission_risk_monitor/features/build.py:22 | The forbidden columns default to READMITTED alone, so it is always dropped |
| Build.Filter | src/readmission_risk_monitor/features/build.py:30 | The kept elements are exactly the elements that satisfy the condition, and there are no more of them than elements |
| Build.FilterAppend | src/readmission_risk_monitor/features/build.py:30 | Filtering keeps order: it commutes with concatenation |
| Build.FilterAll | src/readmission_risk_monitor/features/build.py:30 | Filtering keeps a list whose elements all pass, and empties one whose elements all fail |
| Build.FilterIdempotent | src/readmission_risk_monitor/features/build.py:30 | Filtering twice with the same condition is filtering once |
| Build.FeatureColumnsSpec | src/readmission_risk_monitor/features/build.py:28-31 | The features are the frame's columns with exactly the drop set removed; none is a key or forbidden column; a frame with no drop column keeps all its columns |
| Build.FeatureColumnsAppend | src/readmission_risk_monitor/features/build.py:28-31 | Adding columns to a frame appends their kept part, in order, to the feature list |
| Build.InferNumericCategorical | src/readmission_risk_monitor/features/build.py:33-46 | The loop yields the numeric features and the categorical features, each in feature order |
| Build.NumericCategoricalPartition | src/readmission_risk_monitor/features/build.py:37-46 | No feature is in both lists, and together they hold every feature exactly as often as the feature list does |
| Build.NumericCategoricalCounts | src/readmission_risk_monitor/features/build.py:40-44 | Each feature occurrence lands in exactly one of the two lists |
| Build.BuildXY | src/readmission_risk_monitor/features/build.py:48-58 | `build_xy` fails exactly when the target column is absent. Otherwise X has exactly the feature columns and every row, y is the target column, and the numeric and categorical lists are X's columns of each dtype, in X's order |
| Build.BuildXYCells | src/readmission_risk_monitor/features/build.py:52-53 | Each row of X holds the frame's cell for each feature column |
| Build.NoLabelInFeatures | src/readmission_risk_monitor/features/build.py:22-31 | With the default forbidden list, neither the target, the raw READMITTED label, the patient id nor the record id is ever an input |
| Ingest.LeadingSpaces | scripts/ingest.py:17 | The leading whitespace is a run of whitespace characters followed by a non-space or the end |
| Ingest.TrailingSpaces | scripts/ingest.py:17 | The trailing whitespace is a run of whitespace characters preceded by a non-space or the start |
| Ingest.Strip | scripts/ingest.py:17 | The stripped name is the slice of the original that starts right after its leading whitespace, only whitespace lies before and after it, and it neither starts nor ends with whitespace |
| Ingest.SameTrim | scripts/ingest.py:17 | Two ways of cutting a string into outer whitespace around a part without outer whitespace give the same part |
| Ingest.StripOfPadded | scripts/ingest.py:17 | A string that is whitespace outside a part without outer whitespace strips to that part |
| Ingest.StripUnique | scripts/ingest.py:17 | Whitespace, then a part without outer whitespace, then whitespace strips to that part |
| Ingest.PaddedParts | scripts/ingest.py:17 | Padding a string with whitespace shifts its inner part and keeps whitespace around it |
| Ingest.StripOuterBlanks | scripts/ingest.py:17 | Any whitespace padding on either side of a name is removed by stripping, whatever the name |
| Ingest.StripUnchanged | scripts/ingest.py:17 | A name without outer whitespace is not changed by stripping |
| Ingest.NormalizePointwise | scripts/ingest.py:16-21 | A normalised name is the stripped name with each character upper-cased and ' ' or '-' turned into '_' |
| Ingest.NormalizeCharSpec | scripts/ingest.py:18-20 | A normalised character is no space, hyphen or lower-case ASCII letter, and is its own normal form |
| Ingest.NormalizeShape | scripts/ingest.py:16-21 | A normalised name has no space, no hyphen, no lower-case ASCII letter and no outer whitespace, and is no longer than the original |
| Ingest.NormalizeIdempotent | scripts/ingest.py:16-21 | Normalising a normalised name changes nothing |
| Ingest.NormalizeOuterBlanks | scripts/ingest.py:16-21 | Any whitespace padding on either side of a name does not change its normal form |
| Ingest.NormalizeSeparatorExample | scripts/ingest.py:18-20 | "a-b c" becomes "A_B_C" |
| Ingest.StandardizeColumnsSpec | scripts/ingest.py:11-22 | Every row and cell is kept, and every column name is normalised and free of spaces and hyphens |
| Ingest.StandardizeColumnsIdempotent | scripts/ingest.py:11-22 | Standardising twice is standardising once |
| Ingest.BuildTargetReadmitted30d | scripts/ingest.py:25-36 | The function fails with the "Expected column READMITTED" message exactly when the label column is absent. Otherwise it keeps every row and adds READMITTED_30D unless it is already there |
| Ingest.TargetSpec | scripts/ingest.py:32-35 | The target is 1 exactly for rows whose label, as a string, is "<30", and 0 otherwise. The label column holds the string form of the labels, and every other column is unchanged |
| Ingest.TargetIsBinary | scripts/ingest.py:35 | The derived target passes the validator's binary check |
| Ingest.ParseInt | scripts/ingest.py:47 | A string parses exactly when it is decimal digits with an optional sign; digits give their decimal value, a `+` sign the value of the digits and a `-` sign its negation |
| Ingest.ToNumeric | scripts/ingest.py:47 | A converted cell is an integer or missing; a missing cell stays missing and an integer stays itself; a string becomes the integer it spells, and missing exactly when it does not parse |
| Ingest.DigitsValueOfNat | scripts/ingest.py:47 | The printed digits of a natural number read back as that number |
| Ingest.ParsePrinted | scripts/ingest.py:47 | Converting the printed form of any integer gives the integer back |
| Ingest.ParsePrintedNegative | scripts/ingest.py:47 | The printed form of a negative integer parses back to it |
| Ingest.ParsePrintedNat | scripts/ingest.py:47 | The printed form of a natural number is all digits and parses back to it |
| Ingest.ParseNegative | scripts/ingest.py:47 | A minus sign followed by digits parses as the negated digit value |
| Ingest.ToNumericIdempotent | scripts/ingest.py:47 | Converting twice is converting once |
| Ingest.CoerceAllSpec | scripts/ingest.py:45-47 | After the loop over a list of names, each listed present column holds its converted cells, and every unlisted column is unchanged |
| Ingest.CoerceTypes | scripts/ingest.py:39-49 | ENCOUNTER_ID, PATIENT_NBR and TIME_IN_HOSPITAL are converted where present and skipped where absent; every other column, the column list and the row count are unchanged |
| Ingest.CoerceTypesIdempotent | scripts/ingest.py:39-49 | After coercion the converted columns hold only integers and missing values, and coercing again changes no column |
| Explain.DeriveRiskTier | src/readmission_risk_monitor/serving/explain.py:8-13 | The tier is high exactly from `high` up, medium exactly from `medium` up to below `high`, and low below both |
| Explain.TierMonotone | src/readmission_risk_monitor/serving/explain.py:9-13 | With `medium <= high`, a higher probability never gets a lower tier |
| Explain.DefaultTiers | src/readmission_risk_monitor/serving/app.py:97 | With the service's thresholds, 0.7 and above is high, 0.4 up to 0.7 medium, and below 0.4 low |
| Explain.Reverse | src/readmission_risk_monitor/serving/explain.py:28 | `[::-1]` puts the last index first and keeps the length |
| Explain.IndicesBelow | src/readmission_risk_monitor/serving/explain.py:29 | The kept indices are exactly the top indices below the number of feature names, and none remains when every top index is out of range |
| Explain.BaselineReasonCodes | src/readmission_risk_monitor/serving/explain.py:16-30 | There are between one and five codes; a model without coefficients yields exactly ["MODEL_NO_COEF"] |
| Explain.TopIndicesSpec | src/readmission_risk_monitor/serving/explain.py:28 | There are min(5, number of coefficients) top indices, all in range, in descending coefficient order, and none is below an index left out |
| Explain.TopIndicesShape | src/readmission_risk_monitor/serving/explain.py:28 | There are at most five top indices, all in range, in descending coefficient order |
| Explain.TopIndicesDominate | src/readmission_risk_monitor/serving/explain.py:28 | An index left out of the top has a coefficient no larger than any top index's |
| Explain.IndicesBelowDescending | src/readmission_risk_monitor/serving/explain.py:29 | Dropping out-of-range indices keeps descending coefficient order |
| Explain.ReasonCodesSpec | src/readmission_risk_monitor/serving/explain.py:27-30 | The result is ["NO_TOP_FEATURES"] exactly when no top index names a feature. Otherwise each code is "TOP_GLOBAL_" plus a feature name, highest coefficient first, and each kept coefficient is at least every coefficient left out of the top five |
| Serving.MetaGet | src/readmission_risk_monitor/serving/app.py:67-68 | A metadata key that is present gives its value, and an absent one gives "unknown" |
| Serving.AssembledRow | src/readmission_risk_monitor/serving/app.py:86-91 | The row has one cell per feature column |
| Serving.BuildRow | src/readmission_risk_monitor/serving/app.py:86-91 | The dict-building loop gives one cell per feature column, in that order: the value the request gives for it, or missing |
| Serving.UnknownKeyIgnored | src/readmission_risk_monitor/serving/app.py:87-89 | A request key that is not a feature column has no effect on the row |
| Serving.LastPairWins | src/readmission_risk_monitor/serving/app.py:86-89 | The cell of a feature column is the value of the last request pair whose key is that column |
| Serving.RequestValueLast | src/readmission_risk_monitor/serving/app.py:87-89 | The value a request gives a key is the one of its last pair with that key |
| Serving.RowValues | src/readmission_risk_monitor/serving/app.py:86-89 | A feature the request does not mention stays missing, and a feature the request gives last takes that value |
| Serving.RequestValueAbsent | src/readmission_risk_monitor/serving/app.py:87-89 | A key with no pair in the request has no value |
| Serving.Server.constructor | src/readmission_risk_monitor/serving/app.py:28-30 | Before startup there is no model, no metadata and no feature column |
| Serving.Server.Startup | src/readmission_risk_monitor/serving/app.py:33-46 | Startup installs the bundle's model, metadata and feature columns |
| Serving.Server.Health | src/readmission_risk_monitor/serving/app.py:62-69 | The status is "ok" exactly when a model is loaded and there is a feature column, and "not_ready" otherwise; the versions come from the metadata with "unknown" as the default |
| Serving.Server.Predict | src/readmission_risk_monitor/serving/app.py:77-111 | `predict` refuses with the "not loaded" message exactly when the service is not ready. Otherwise it scores the assembled row and reports the probability as both risk and rank score, with its tier at 0.7 / 0.4, the request id, the baseline reason code and the metadata versions |
| Serving.StartupReadiness | src/readmission_risk_monitor/serving/app.py:33-69 | After startup the service is ready, and health says "ok", exactly when the bundle names a feature column |
| Frames.Column | src/readmission_risk_monitor/data/validate.py:58 | `df[col]` has one cell per row: the row's cell in that column |
| Frames.SetColumn | scripts/ingest.py:47 | `df[col] = cells` keeps the frame rectangular and the row count; it adds the column at the end only when it is new |
| Frames.SetColumnSpec | scripts/ingest.py:47 | After `df[col] = cells` the column holds the cells, and every other column is as before |
| Frames.NatToString | scripts/ingest.py:32 | `str()` of a natural number is a non-empty string of decimal digits |
| StringOrder.LessEqReflexive | src/readmission_risk_monitor/data/validate.py:71 | Python's string order is reflexive |
| StringOrder.LessEqAntisymmetric | src/readmission_risk_monitor/data/validate.py:71 | Python's string order is antisymmetric |
| StringOrder.LessEqTransitive | src/readmission_risk_monitor/data/validate.py:71 | Python's string order is transitive |
| StringOrder.LessEqTotal | src/readmission_risk_monitor/data/validate.py:71 | Any two strings are comparable |
| StringOrder.Insert | src/readmission_risk_monitor/data/validate.py:71 | Inserting into a strictly sorted list keeps it strictly sorted and adds exactly the new element |
| StringOrder.SortDistinct | src/readmission_risk_monitor/data/validate.py:71 | `sorted(set(xs))` is strictly ascending and holds exactly the elements of `xs` |
| StringOrder.StrictlySortedCard | src/readmission_risk_monitor/data/validate.py:71 | A strictly sorted list has no repeats: its length is the number of distinct elements |
| StringOrder.SmallestPrefix | src/readmission_risk_monitor/data/validate.py:71 | The first `m` of a strictly sorted list are sorted, and each is smaller than every element left out |

## Left out

- scikit-learn's `GroupShuffleSplit` is a parameter. The model does not capture its randomisation, how it rounds group counts or uses the label column, or its own errors for fractions outside (0, 1) or too few groups (a `ValueError` when one side would receive no group: with one patient in the first stage, with two in the second). So the size bounds on the partitions are not stated, and neither is stratification.
- Floating point: fractions, tolerances, missing fractions and probabilities are exact reals. A sum that IEEE arithmetic rounds across the 1e-6 boundary may be judged differently.
- `pd.to_numeric`: only integer literals with an optional sign are modelled. Decimal, exponent and whitespace-padded forms become missing here. The `Int64` cast error that pandas raises on a fractional value is not modelled.
- `upper()` maps only the ASCII letters; Unicode case mapping is not modelled.
- Integer width: `.astype("Int64")` (scripts/ingest.py:47) fails on a value outside [-2^63, 2^63); `Cell.Num` holds an unbounded integer, so the model converts it.
- Float cells: a `Cell` holds no floating-point value. A float64 column prints its codes as "3.0" in the code-list check (data/validate.py:68), and 1.0 counts as binary in the target check (data/validate.py:48); neither is modelled.
- `summary["missingness"]` is a dict that keeps the order in which columns were first checked; `Validate.Missingness` is a `map`, which has no order.
- Duplicate column names: a column is looked up by the first position carrying its name.
- `Str(Null)` is "nan", the string of the NaN that a CSV read gives. `astype(str)` prints `None` as "None" and `pd.NA` as "<NA>", and `Cell.Null` stands for all three. Only the READMITTED label string built at scripts/ingest.py:32 shows the difference.
- The messages of the validator are structured values, not formatted strings. The non-binary target values are a set, not the sorted list the message prints; sorting a set that mixes strings and numbers raises a TypeError, which is `Validate.TypeError`.
- `Frames.SetColumn`, `Ingest.BuildTargetReadmitted30d` and `Ingest.CoerceTypes` require a rectangular frame, which every DataFrame is.
- File and process I/O is not modelled: CSV and parquet reads, the JSON profile, the fixture sample, `main` in scripts/ingest.py, bundle writing and `load_latest_bundle`. The bundle that startup installs is a parameter.
- HTTP routing, `root`, `metrics`, the Prometheus counter and the latency measurement are not modelled. `PredictResponse` has no `latency_ms` field here.
- `HealthResponse` declares a required `bundle_path` field (serving/schemas.py:28) that `health` never sets (serving/app.py:65-69), so pydantic's validation makes every call of `health` raise. The model returns the response evidently intended, the status and the two versions, with no such field.
- `predict` returns the constant reason code "PHASE4_BASELINE_EXPLAIN" and never calls `baseline_reason_codes`. The model does the same. Whether a model has `coef_` is `Option` on its coefficient row.
- `np.argsort` tie-breaking is a parameter constrained by `Explain.IsArgsort`.
- `build_preprocessor` is not modelled. It configures scikit-learn imputers and encoders and has no logic of its own.
- The three column names of config.py appear as literals (`Ingest.TargetCol` and the diabetes contract); config.py is not part of this model.
- Split.GroupShuffleSplit: states the partition and group cohesion of one split, not that the first side's share of the groups matches the requested fraction.
- Leakage.PatientDisjointnessReport: states the failure case and the overlap bounds; that each count is the size of the matching id set holds by its definition and is used by `Leakage.OverlapZeroIffNoSharedPatient` and `Leakage.MissingIdsIgnored`.
