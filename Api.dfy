/**
 * The prediction endpoint of app/api.py around an opaque fitted pipeline: the model is
 * loaded once at startup (or left unset if loading fails), and each request turns a
 * validated customer record into a one-row table, asks the pipeline for the churn
 * probability and label, and maps them to a response or an HTTP error.
 */
module Api {
  import opened Wrappers
  import opened Frame
  import Features

  /** The validated request body: string flags and categories, integer tenure, real charges. */
  datatype CustomerData = CustomerData(
    gender: string,
    seniorCitizen: string,
    partner: string,
    dependents: string,
    tenure: int,
    phoneService: string,
    multipleLines: string,
    internetService: string,
    onlineSecurity: string,
    onlineBackup: string,
    deviceProtection: string,
    techSupport: string,
    streamingTV: string,
    streamingMovies: string,
    contract: string,
    paperlessBilling: string,
    paymentMethod: string,
    monthlyCharges: real,
    totalCharges: real)

  /** The request fields that no modelled stage reads. */
  const PassThroughFields: set<string> := {
    "gender", "PhoneService", "MultipleLines", "InternetService", "OnlineSecurity", "OnlineBackup",
    "DeviceProtection", "TechSupport", "StreamingTV", "StreamingMovies", "Contract",
    "PaperlessBilling", "PaymentMethod", "MonthlyCharges"}

  /** The request fields that the feature engineering and the handler read. */
  const ReadFields: set<string> := {SeniorCitizen, Partner, Dependents, Tenure, TotalCharges}

  /** The names of all request fields, which are also the columns of the model input. */
  const CustomerFields: set<string> := PassThroughFields + ReadFields

  /**
   * The fitted pipeline, seen only through its two calls: the class-1 probability of the
   * first row and the integer label of the first row, each of which may raise.
   */
  datatype Pipeline = Pipeline(
    predictProba: Table -> Result<real, string>,
    predict: Table -> Result<int, string>)

  datatype Response =
    | Prediction(churnPrediction: string, churnProbability: real, riskLevel: string)
    | HttpError(status: int, detail: string)

  const RiskThreshold: real := 0.7

  /** The fourteen request fields that no modelled stage reads, keyed by their own names. */
  function PassThroughCells(d: CustomerData): (cells: Row)
    ensures cells.Keys == PassThroughFields
  {
    map[
      "gender" := Str(d.gender),
      "PhoneService" := Str(d.phoneService),
      "MultipleLines" := Str(d.multipleLines),
      "InternetService" := Str(d.internetService),
      "OnlineSecurity" := Str(d.onlineSecurity),
      "OnlineBackup" := Str(d.onlineBackup),
      "DeviceProtection" := Str(d.deviceProtection),
      "TechSupport" := Str(d.techSupport),
      "StreamingTV" := Str(d.streamingTV),
      "StreamingMovies" := Str(d.streamingMovies),
      "Contract" := Str(d.contract),
      "PaperlessBilling" := Str(d.paperlessBilling),
      "PaymentMethod" := Str(d.paymentMethod),
      "MonthlyCharges" := Num(d.monthlyCharges)]
  }

  /**
   * The pass-through cells are gender, the service and billing categories and the monthly
   * charge, each under its own name, unchanged.
   */
  lemma PassThroughCellsAreFields(d: CustomerData)
    ensures var cells := PassThroughCells(d);
      && "gender" in cells && cells["gender"] == Str(d.gender)
      && "PhoneService" in cells && cells["PhoneService"] == Str(d.phoneService)
      && "MultipleLines" in cells && cells["MultipleLines"] == Str(d.multipleLines)
      && "InternetService" in cells && cells["InternetService"] == Str(d.internetService)
      && "OnlineSecurity" in cells && cells["OnlineSecurity"] == Str(d.onlineSecurity)
      && "OnlineBackup" in cells && cells["OnlineBackup"] == Str(d.onlineBackup)
      && "DeviceProtection" in cells && cells["DeviceProtection"] == Str(d.deviceProtection)
      && "TechSupport" in cells && cells["TechSupport"] == Str(d.techSupport)
      && "StreamingTV" in cells && cells["StreamingTV"] == Str(d.streamingTV)
      && "StreamingMovies" in cells && cells["StreamingMovies"] == Str(d.streamingMovies)
      && "Contract" in cells && cells["Contract"] == Str(d.contract)
      && "PaperlessBilling" in cells && cells["PaperlessBilling"] == Str(d.paperlessBilling)
      && "PaymentMethod" in cells && cells["PaymentMethod"] == Str(d.paymentMethod)
      && "MonthlyCharges" in cells && cells["MonthlyCharges"] == Num(d.monthlyCharges)
  {
  }

  /** The five request fields that modelled stages read, each under its own name, unchanged. */
  function ReadCells(d: CustomerData): (cells: Row)
    ensures cells.Keys == ReadFields
    ensures cells[SeniorCitizen] == Str(d.seniorCitizen)
    ensures cells[Partner] == Str(d.partner)
    ensures cells[Dependents] == Str(d.dependents)
    ensures cells[Tenure] == Num(d.tenure as real)
    ensures cells[TotalCharges] == Num(d.totalCharges)
  {
    map[
      SeniorCitizen := Str(d.seniorCitizen),
      Partner := Str(d.partner),
      Dependents := Str(d.dependents),
      Tenure := Num(d.tenure as real),
      TotalCharges := Num(d.totalCharges)]
  }

  /** No request field is both read and passed through. */
  lemma ReadFieldsAreNotPassThrough()
    ensures PassThroughFields !! ReadFields
  {
  }

  /**
   * The request body as a dictionary: every field under its own name, unchanged, the read
   * fields as `ReadCells` gives them and the others as `PassThroughCells` gives them.
   */
  function AsDict(d: CustomerData): (row: Row)
    ensures row.Keys == CustomerFields
    ensures SeniorCitizen in row && row[SeniorCitizen] == Str(d.seniorCitizen)
    ensures Partner in row && row[Partner] == Str(d.partner)
    ensures Dependents in row && row[Dependents] == Str(d.dependents)
    ensures Tenure in row && row[Tenure] == Num(d.tenure as real)
    ensures TotalCharges in row && row[TotalCharges] == Num(d.totalCharges)
    ensures forall c :: c in PassThroughFields ==> c in row && row[c] == PassThroughCells(d)[c]
  {
    ReadFieldsAreNotPassThrough();
    PassThroughCells(d) + ReadCells(d)
  }

  /** The other fourteen fields of the request dictionary, each under its own name, unchanged. */
  lemma AsDictPassThroughFields(d: CustomerData)
    ensures var row := AsDict(d);
      && "gender" in row && row["gender"] == Str(d.gender)
      && "PhoneService" in row && row["PhoneService"] == Str(d.phoneService)
      && "MultipleLines" in row && row["MultipleLines"] == Str(d.multipleLines)
      && "InternetService" in row && row["InternetService"] == Str(d.internetService)
      && "OnlineSecurity" in row && row["OnlineSecurity"] == Str(d.onlineSecurity)
      && "OnlineBackup" in row && row["OnlineBackup"] == Str(d.onlineBackup)
      && "DeviceProtection" in row && row["DeviceProtection"] == Str(d.deviceProtection)
      && "TechSupport" in row && row["TechSupport"] == Str(d.techSupport)
      && "StreamingTV" in row && row["StreamingTV"] == Str(d.streamingTV)
      && "StreamingMovies" in row && row["StreamingMovies"] == Str(d.streamingMovies)
      && "Contract" in row && row["Contract"] == Str(d.contract)
      && "PaperlessBilling" in row && row["PaperlessBilling"] == Str(d.paperlessBilling)
      && "PaymentMethod" in row && row["PaymentMethod"] == Str(d.paymentMethod)
      && "MonthlyCharges" in row && row["MonthlyCharges"] == Num(d.monthlyCharges)
  {
    PassThroughCellsAreFields(d);
  }

  /** The senior-citizen flag as the model expects it: exactly "Yes" is 1, anything else 0. */
  function SeniorFlag(flag: string): (v: Value)
    ensures v == Num(1.0) <==> flag == "Yes"
    ensures v == Num(0.0) <==> flag != "Yes"
  {
    if flag == "Yes" then Num(1.0) else Num(0.0)
  }

  /** The record handed to the model: the request with only its senior-citizen flag re-encoded. */
  function ModelInput(d: CustomerData): (row: Row)
    ensures row.Keys == CustomerFields
    ensures SeniorCitizen in row && row[SeniorCitizen] == SeniorFlag(d.seniorCitizen)
    ensures forall c :: c in row && c != SeniorCitizen ==> row[c] == AsDict(d)[c]
  {
    AsDict(d)[SeniorCitizen := SeniorFlag(d.seniorCitizen)]
  }

  /** A DataFrame of a single record. */
  function SingleRow(row: Row): (t: Table)
    ensures t.WellFormed() && |t.rows| == 1 && t.rows[0] == row && t.columns == row.Keys
  {
    Table(row.Keys, [row])
  }

  /** "Yes" exactly for label 1. */
  function ChurnLabel(prediction: int): (s: string)
    ensures s == "Yes" <==> prediction == 1
    ensures s == "No" <==> prediction != 1
  {
    if prediction == 1 then "Yes" else "No"
  }

  /** "Critical" exactly above the threshold, "Safe" at or below it. */
  function RiskLevel(probability: real): (tier: string)
    ensures tier == "Critical" <==> probability > RiskThreshold
    ensures tier == "Safe" <==> probability <= RiskThreshold
  {
    if probability > RiskThreshold then "Critical" else "Safe"
  }

  /** The threshold is strict: 0.7 itself is safe, and a tier never drops as the probability rises. */
  lemma RiskLevelStrictAndMonotone(p: real, q: real)
    requires p <= q
    ensures RiskLevel(0.7) == "Safe"
    ensures RiskLevel(p) == "Critical" ==> RiskLevel(q) == "Critical"
  {
  }

  /** The serving process: the model handle is set once, when the process starts. */
  class Service {
    const model: Option<Pipeline>

    /** Startup: `loaded` is the outcome of reading the artifact; a failure leaves the model unset. */
    constructor (loaded: Result<Pipeline, string>)
      ensures model.Some? <==> loaded.Success?
      ensures loaded.Success? ==> model == Some(loaded.value)
    {
      match loaded
      case Success(p) => model := Some(p);
      case Failure(_) => model := None;
    }

    /** The /predict handler. */
    method Predict(data: CustomerData) returns (resp: Response)
      ensures model.None? ==> resp == HttpError(500, "Model not loaded")
      ensures model.Some? ==>
        var proba := model.value.predictProba(SingleRow(ModelInput(data)));
        var predicted := model.value.predict(SingleRow(ModelInput(data)));
        && (resp.Prediction? <==> proba.Success? && predicted.Success?)
        && (proba.Failure? ==> resp == HttpError(400, proba.error))
        && (proba.Success? && predicted.Failure? ==> resp == HttpError(400, predicted.error))
        && (resp.Prediction? ==>
              && resp.churnProbability == proba.value
              && (resp.churnPrediction == "Yes" <==> predicted.value == 1)
              && (resp.churnPrediction == "No" <==> predicted.value != 1)
              && (resp.riskLevel == "Critical" <==> proba.value > RiskThreshold)
              && (resp.riskLevel == "Safe" <==> proba.value <= RiskThreshold))
    {
      if model.None? {
        return HttpError(500, "Model not loaded");
      }
      var inputDict := AsDict(data);
      if inputDict[SeniorCitizen] == Str("Yes") {
        assert SeniorFlag(data.seniorCitizen) == Num(1.0);
        inputDict := inputDict[SeniorCitizen := Num(1.0)];
      } else {
        assert SeniorFlag(data.seniorCitizen) == Num(0.0);
        inputDict := inputDict[SeniorCitizen := Num(0.0)];
      }
      assert inputDict == ModelInput(data);
      var df := SingleRow(inputDict);
      var probability := model.value.predictProba(df);
      if probability.Failure? {
        return HttpError(400, probability.error);
      }
      var prediction := model.value.predict(df);
      if prediction.Failure? {
        return HttpError(400, prediction.error);
      }
      resp := Prediction(ChurnLabel(prediction.value), probability.value, RiskLevel(probability.value));
    }
  }

  /** The model input of a request with a non-negative tenure is a row the feature engineer accepts. */
  lemma ModelInputEngineerable(data: CustomerData)
    requires data.tenure >= 0
    ensures Features.Engineerable(ModelInput(data))
    ensures ModelInput(data)[Tenure] == Num(data.tenure as real)
  {
    assert Features.RequiredColumns <= ReadFields;
  }

  /**
   * What the pipeline's first stage makes of a request: the feature engineer accepts every
   * request with a non-negative tenure, and the tenure bucket is missing exactly for a
   * tenure of 0 or above 100.
   */
  lemma RequestTenureGroup(fe: Features.FeatureEngineer, data: CustomerData)
    requires data.tenure >= 0
    ensures var x := SingleRow(ModelInput(data));
      && Features.NoTenureMinusOne(x)
      && fe.Transform(x).Success?
      && (fe.Transform(x).value.rows[0][Features.TenureGroupColumn] == Missing
          <==> data.tenure == 0 || data.tenure > 100)
  {
    ModelInputEngineerable(data);
    Features.TransformOneRow(fe, ModelInput(data));
  }
}
