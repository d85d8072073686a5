/** The data contract (data/contract.py): per-column rules and the contract of the diabetes dataset. */
module Contract {
  import opened Wrappers

  /** `ColumnRule`, with the source's defaults. */
  datatype ColumnRule = ColumnRule(
    name: string,
    dtype: string,
    required: bool := true,
    allowedValues: Option<set<string>> := None,
    maxMissingPct: Option<real> := None)

  datatype DataContract = DataContract(
    schemaVersion: string,
    primaryKey: string,
    patientKey: string,
    target: string,
    columns: seq<ColumnRule>)

  /** A column rule for `name` exists and is required. */
  predicate RequiredRule(c: DataContract, name: string)
  {
    exists k :: 0 <= k < |c.columns| && c.columns[k].name == name && c.columns[k].required
  }

  function RuleFor(c: DataContract, name: string): (r: Option<ColumnRule>)
    ensures r.Some? ==> r.value in c.columns && r.value.name == name
    ensures r.None? ==> forall k :: 0 <= k < |c.columns| ==> c.columns[k].name != name
  {
    RuleIn(c.columns, name)
  }

  function RuleIn(rules: seq<ColumnRule>, name: string): (r: Option<ColumnRule>)
    ensures r.Some? ==> r.value in rules && r.value.name == name
    ensures r.None? ==> forall k :: 0 <= k < |rules| ==> rules[k].name != name
  {
    if rules == [] then None
    else if rules[0].name == name then Some(rules[0])
    else RuleIn(rules[1..], name)
  }

  /** `diabetes_readmission_contract()`: the contract of the UCI diabetes 130-US hospitals dataset. */
  function DiabetesReadmissionContract(): DataContract
  {
    var genderCodes := {"Male", "Female", "Unknown/Invalid"};
    var raceCodes := {"Caucasian", "AfricanAmerican", "Hispanic", "Asian", "Other", "Unknown", "?"};
    var readmittedCodes := {"NO", "<30", ">30"};
    var c := DataContract(
      "1.0",
      "ENCOUNTER_ID",
      "PATIENT_NBR",
      "READMITTED_30D",
      [
        ColumnRule("ENCOUNTER_ID", "int", required := true, maxMissingPct := Some(0.0)),
        ColumnRule("PATIENT_NBR", "int", required := true, maxMissingPct := Some(0.0)),
        ColumnRule("READMITTED", "str", required := true, allowedValues := Some(readmittedCodes)),
        ColumnRule("READMITTED_30D", "int", required := true),
        ColumnRule("GENDER", "str", required := true, allowedValues := Some(genderCodes), maxMissingPct := Some(0.05)),
        ColumnRule("RACE", "str", required := false, allowedValues := Some(raceCodes), maxMissingPct := Some(0.20)),
        ColumnRule("AGE", "str", required := true, maxMissingPct := Some(0.05)),
        ColumnRule("TIME_IN_HOSPITAL", "int", required := true, maxMissingPct := Some(0.0))
      ]);
    c
  }

  /**
   * The keys of the diabetes contract, each backed by a required rule; RACE is the only
   * column the contract does not require.
   */
  lemma DiabetesContractKeys()
    ensures var c := DiabetesReadmissionContract();
            && c.primaryKey == "ENCOUNTER_ID" && c.patientKey == "PATIENT_NBR" && c.target == "READMITTED_30D"
            && RequiredRule(c, c.primaryKey) && RequiredRule(c, c.patientKey) && RequiredRule(c, c.target)
            && (forall k :: 0 <= k < |c.columns| ==> (!c.columns[k].required <==> c.columns[k].name == "RACE"))
  {
    var c := DiabetesReadmissionContract();
    assert c.columns[0].name == "ENCOUNTER_ID";
    assert c.columns[1].name == "PATIENT_NBR";
    assert c.columns[3].name == "READMITTED_30D";
    forall k | 0 <= k < |c.columns| && k != 5
      ensures c.columns[k].required && c.columns[k].name != "RACE"
    {
      assert c.columns[k].name[0] != 'R' || |c.columns[k].name| != 4;
    }
  }

  /** The first rule for each name, in the diabetes contract. */
  lemma DiabetesContractRules()
    ensures var c := DiabetesReadmissionContract();
            && RuleFor(c, "ENCOUNTER_ID") == Some(c.columns[0])
            && RuleFor(c, "PATIENT_NBR") == Some(c.columns[1])
            && RuleFor(c, "READMITTED") == Some(c.columns[2])
            && RuleFor(c, "GENDER") == Some(c.columns[4])
            && RuleFor(c, "TIME_IN_HOSPITAL") == Some(c.columns[7])
  {
    var rs := DiabetesReadmissionContract().columns;
    assert rs[0].name == "ENCOUNTER_ID" && rs[1].name == "PATIENT_NBR" && rs[2].name == "READMITTED";
    assert rs[4].name == "GENDER" && rs[7].name == "TIME_IN_HOSPITAL";
    assert 'E' !in DiabetesInitials[..0] && 'P' !in DiabetesInitials[..1] && 'R' !in DiabetesInitials[..2];
    assert 'G' !in DiabetesInitials[..4] && 'T' !in DiabetesInitials[..7];
    DiabetesRuleAt("ENCOUNTER_ID", 0);
    DiabetesRuleAt("PATIENT_NBR", 1);
    DiabetesRuleAt("READMITTED", 2);
    DiabetesRuleAt("GENDER", 4);
    DiabetesRuleAt("TIME_IN_HOSPITAL", 7);
  }

  /** Lookup of one name in the diabetes contract, where position `k` is the first to carry it. */
  lemma DiabetesRuleAt(name: string, k: nat)
    requires k < 8 && |name| > 0
    requires DiabetesReadmissionContract().columns[k].name == name
    requires name[0] !in DiabetesInitials[..k]
    ensures RuleFor(DiabetesReadmissionContract(), name) == Some(DiabetesReadmissionContract().columns[k])
  {
    var rs := DiabetesReadmissionContract().columns;
    forall j | 0 <= j < k
      ensures |rs[j].name| > 0 && rs[j].name[0] != name[0]
    {
      assert DiabetesInitials[..k][j] == DiabetesInitials[j];
      if j == 0 {} else if j == 1 {} else if j == 2 {} else if j == 3 {}
      else if j == 4 {} else if j == 5 {} else {}
    }
    RuleInFirstByInitial(rs, name, k);
  }

  /** The first letters of the diabetes contract's column names, in order. */
  const DiabetesInitials: string := "EPRRGRAT"

  /** A rule is the first for its name when every earlier rule's name starts with another letter. */
  lemma RuleInFirstByInitial(rules: seq<ColumnRule>, name: string, k: nat)
    requires k < |rules| && rules[k].name == name && |name| > 0
    requires forall j :: 0 <= j < k ==> |rules[j].name| > 0 && rules[j].name[0] != name[0]
    ensures RuleIn(rules, name) == Some(rules[k])
  {
    RuleInFirst(rules, name, k);
  }

  /** The rule found for a name is the first one carrying it. */
  lemma {:induction false} RuleInFirst(rules: seq<ColumnRule>, name: string, k: nat)
    requires k < |rules| && rules[k].name == name
    requires forall j :: 0 <= j < k ==> rules[j].name != name
    ensures RuleIn(rules, name) == Some(rules[k])
    decreases k
  {
    if k > 0 {
      RuleInFirst(rules[1..], name, k - 1);
    }
  }

  /** The code lists of READMITTED and GENDER, and the zero missingness limits on the identifier and stay columns. */
  lemma DiabetesContractLimits()
    ensures var c := DiabetesReadmissionContract();
            && RuleFor(c, "READMITTED") == Some(ColumnRule("READMITTED", "str", allowedValues := Some({"NO", "<30", ">30"})))
            && RuleFor(c, "GENDER").Some? && RuleFor(c, "GENDER").value.allowedValues == Some({"Male", "Female", "Unknown/Invalid"})
            && RuleFor(c, "ENCOUNTER_ID").Some? && RuleFor(c, "ENCOUNTER_ID").value.maxMissingPct == Some(0.0)
            && RuleFor(c, "PATIENT_NBR").Some? && RuleFor(c, "PATIENT_NBR").value.maxMissingPct == Some(0.0)
            && RuleFor(c, "TIME_IN_HOSPITAL").Some? && RuleFor(c, "TIME_IN_HOSPITAL").value.maxMissingPct == Some(0.0)
  {
    DiabetesContractRules();
  }

  /** A rule built from a name and a type alone is required, with no code list and no missingness limit. */
  lemma ColumnRuleDefaults(name: string, dtype: string)
    ensures ColumnRule(name, dtype).required
    ensures ColumnRule(name, dtype).allowedValues == None
    ensures ColumnRule(name, dtype).maxMissingPct == None
  {
  }
}
