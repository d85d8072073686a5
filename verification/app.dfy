/**
 * The prediction service (serving/app.py). The module globals `MODEL`, `META` and
 * `FEATURE_COLUMNS` are the fields of one `Server` object that startup assigns. A loaded
 * model is its positive-class probability function on one feature row, and a bundle is what
 * the loader returns; reading it from disk is not part of this model.
 */
module Serving {
  import opened Wrappers
  import opened Frames
  import opened Explain

  /** `predict_proba(X)[:, 1][0]` for a one-row frame whose cells are `row`. */
  type Model = seq<Cell> -> real

  /** The loader's result: model, metadata and the training-time feature column order. */
  datatype Bundle = Bundle(model: Model, metadata: map<string, string>, featureColumns: seq<string>)

  datatype HealthResponse = HealthResponse(status: string, modelVersion: string, schemaVersion: string)

  /** `PredictRequest`: the request id and the raw feature key/value pairs in request order. */
  datatype PredictRequest = PredictRequest(requestId: string, features: seq<(string, Cell)>)

  /** `PredictResponse` without the measured latency. */
  datatype PredictResponse = PredictResponse(
    requestId: string,
    readmissionRisk: real,
    riskTier: Tier,
    rankScore: real,
    reasonCodes: seq<string>,
    modelVersion: string,
    schemaVersion: string)

  const NotLoadedMessage: string := "Model bundle not loaded. Check startup logs and bundle path."
  const Unknown: string := "unknown"
  const BaselineExplainCode: string := "PHASE4_BASELINE_EXPLAIN"

  /** `str(META.get(key, "unknown"))`. */
  function MetaGet(meta: map<string, string>, key: string): (v: string)
    ensures key in meta ==> v == meta[key]
    ensures key !in meta ==> v == Unknown
  {
    if key in meta then meta[key] else Unknown
  }

  /** The value the request gives for `key`; a later pair for the same key wins, as in a dict. */
  function RequestValue(features: seq<(string, Cell)>, key: string): Option<Cell>
    decreases |features|
  {
    if features == [] then None
    else
      var last := features[|features| - 1];
      if last.0 == key then Some(last.1) else RequestValue(features[..|features| - 1], key)
  }

  /** The feature row: one cell per feature column, in that order, `None` where the request is silent. */
  function AssembledRow(featureColumns: seq<string>, features: seq<(string, Cell)>): (x: seq<Cell>)
    ensures |x| == |featureColumns|
  {
    seq(|featureColumns|, i requires 0 <= i < |featureColumns| =>
          match RequestValue(features, featureColumns[i]) { case Some(v) => v case None => Null })
  }

  /**
   * The row-building loop of `predict`: start from `None` for every feature column, then
   * copy each request value whose key is a feature column.
   */
  method BuildRow(featureColumns: seq<string>, features: seq<(string, Cell)>) returns (x: seq<Cell>)
    ensures x == AssembledRow(featureColumns, features)
  {
    var row: map<string, Cell> := map c | c in featureColumns :: Null;
    for j := 0 to |features|
      invariant row.Keys == set c | c in featureColumns
      invariant forall c :: c in row ==> row[c] == match RequestValue(features[..j], c) { case Some(v) => v case None => Null }
    {
      assert features[..j + 1][..j] == features[..j];
      var (k, v) := features[j];
      if k in row {
        row := row[k := v];
      }
    }
    assert features[..|features|] == features;
    x := seq(|featureColumns|, i requires 0 <= i < |featureColumns| => row[featureColumns[i]]);
  }

  class Server {
    var model: Option<Model>
    var meta: map<string, string>
    var featureColumns: seq<string>

    /** The globals before startup: no model, no metadata, no feature columns. */
    constructor()
      ensures model == None && meta == map[] && featureColumns == []
    {
      model := None;
      meta := map[];
      featureColumns := [];
    }

    /** `_startup`: install the loaded bundle. */
    method Startup(bundle: Bundle)
      modifies this
      ensures model == Some(bundle.model)
      ensures meta == bundle.metadata
      ensures featureColumns == bundle.featureColumns
    {
      model := Some(bundle.model);
      meta := bundle.metadata;
      featureColumns := bundle.featureColumns;
    }

    /** A model is loaded and the feature column list is non-empty. */
    predicate Ready()
      reads this
    {
      model.Some? && |featureColumns| > 0
    }

    /** `health`: "ok" exactly when the service is ready, with the versions from the metadata. */
    function Health(): (h: HealthResponse)
      reads this
      ensures h.status == "ok" <==> Ready()
      ensures h.status == "ok" || h.status == "not_ready"
      ensures h.modelVersion == MetaGet(meta, "model_version") && h.schemaVersion == MetaGet(meta, "schema_version")
    {
      HealthResponse(if Ready() then "ok" else "not_ready", MetaGet(meta, "model_version"), MetaGet(meta, "schema_version"))
    }

    /**
     * `predict`: refuse before any work when not ready; otherwise score the assembled row and
     * report the probability as both risk and rank score, with its tier at 0.7 / 0.4.
     */
    method Predict(req: PredictRequest) returns (r: Result<PredictResponse, string>)
      ensures !Ready() <==> r.Failure?
      ensures r.Failure? ==> r.error == NotLoadedMessage
      ensures r.Success? ==>
                var proba := model.value(AssembledRow(featureColumns, req.features));
                && r.value.requestId == req.requestId
                && r.value.readmissionRisk == proba && r.value.rankScore == proba
                && r.value.riskTier == DeriveRiskTier(proba, DefaultHigh, DefaultMedium)
                && r.value.reasonCodes == [BaselineExplainCode]
                && r.value.modelVersion == MetaGet(meta, "model_version")
                && r.value.schemaVersion == MetaGet(meta, "schema_version")
    {
      if model.None? || |featureColumns| == 0 {
        return Failure(NotLoadedMessage);
      }
      var x := BuildRow(featureColumns, req.features);
      var proba := model.value(x);
      var tier := DeriveRiskTier(proba, DefaultHigh, DefaultMedium);
      r := Success(PredictResponse(
        req.requestId, proba, tier, proba, [BaselineExplainCode],
        MetaGet(meta, "model_version"), MetaGet(meta, "schema_version")));
    }
  }

  // ---------------------------------------------------------------------------
  // Properties of the assembled row
  // ---------------------------------------------------------------------------

  /** A key that no feature column carries has no effect on the row. */
  lemma UnknownKeyIgnored(featureColumns: seq<string>, features: seq<(string, Cell)>, key: string, v: Cell)
    requires key !in featureColumns
    ensures AssembledRow(featureColumns, features + [(key, v)]) == AssembledRow(featureColumns, features)
  {
    var extended := features + [(key, v)];
    assert extended[..|extended| - 1] == features;
    forall i | 0 <= i < |featureColumns|
      ensures RequestValue(extended, featureColumns[i]) == RequestValue(features, featureColumns[i])
    {
      assert featureColumns[i] != key;
    }
  }

  /** A known key takes the value the request gives it; a column the request does not mention stays missing. */
  lemma {:induction false} RowValues(featureColumns: seq<string>, features: seq<(string, Cell)>, i: nat)
    requires i < |featureColumns|
    ensures (forall p :: p in features ==> p.0 != featureColumns[i]) ==> AssembledRow(featureColumns, features)[i] == Null
    ensures |features| > 0 && features[|features| - 1].0 == featureColumns[i] ==>
              AssembledRow(featureColumns, features)[i] == features[|features| - 1].1
  {
    RequestValueAbsent(features, featureColumns[i]);
  }

  /**
   * The cell of a feature column is the value of the last pair of the request whose key is
   * that column: later pairs overwrite earlier ones.
   */
  lemma LastPairWins(featureColumns: seq<string>, features: seq<(string, Cell)>, i: nat, j: nat)
    requires i < |featureColumns| && j < |features| && features[j].0 == featureColumns[i]
    requires forall m :: j < m < |features| ==> features[m].0 != featureColumns[i]
    ensures AssembledRow(featureColumns, features)[i] == features[j].1
  {
    RequestValueLast(features, featureColumns[i], j);
  }

  /** The value for a key is the one of its last pair. */
  lemma {:induction false} RequestValueLast(features: seq<(string, Cell)>, key: string, j: nat)
    requires j < |features| && features[j].0 == key
    requires forall m :: j < m < |features| ==> features[m].0 != key
    ensures RequestValue(features, key) == Some(features[j].1)
    decreases |features|
  {
    var n := |features| - 1;
    if j < n {
      RequestValueLast(features[..n], key, j);
    }
  }

  /** No pair for a key means no value for it. */
  lemma {:induction false} RequestValueAbsent(features: seq<(string, Cell)>, key: string)
    ensures (forall p :: p in features ==> p.0 != key) ==> RequestValue(features, key) == None
    decreases |features|
  {
    if features != [] {
      var n := |features| - 1;
      RequestValueAbsent(features[..n], key);
      assert forall p :: p in features[..n] ==> p in features;
      assert features[n] in features;
    }
  }

  /** Startup makes the service ready exactly when the bundle names at least one feature column. */
  lemma StartupReadiness(bundle: Bundle, s: Server)
    requires s.model == Some(bundle.model) && s.featureColumns == bundle.featureColumns
    ensures s.Ready() <==> |bundle.featureColumns| > 0
    ensures s.Health().status == "ok" <==> |bundle.featureColumns| > 0
  {
  }
}
