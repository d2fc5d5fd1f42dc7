# Churn prediction: data rules around the model

This project models, in Dafny, the record- and table-level rules of a customer-churn
prediction system. The machine-learning libraries stay outside the model. It covers three parts:

- **Feature engineer** (`src/features.py`). `FeatureEngineer.fit` learns nothing.
  `transform` returns a copy of the table with three more columns:
  - `FamilySize`: how many of Partner and Dependents are exactly `"Yes"`;
  - `AvgChargesPerMonth`: `TotalCharges / (tenure + 1)`;
  - `TenureGroup`: the `pd.cut` bucket of tenure over the edges 0, 12, 24, 48, 60, 100, labelled 1 to 5.

  The intervals are right-closed and the lowest edge is excluded, so a tenure of 0, a
  negative tenure or one above 100 gets a missing bucket. A string tenure, or a string total
  beside a present tenure, makes the division raise a TypeError. pandas retries an
  object-column division only where both operands are present, so a string total beside a
  missing tenure gives a missing average instead.
- **Cleaner and splitter** (`src/preprocessing.py`). `clean_data` coerces `TotalCharges` to
  numbers in the caller's DataFrame, in place, turning unparseable strings into missing cells.
  It then returns a new table without the rows that have a missing cell. `split_data`
  separates the label column from the features.
- **Prediction endpoint** (`app/api.py`). A model is loaded once at startup and left unset if
  loading fails. Each request re-encodes the senior-citizen flag as 1 or 0 and sends a
  one-row table to the fitted pipeline. The probability and label it returns become
  a churn answer (`"Yes"` only for label 1) and a risk tier (`"Critical"` only above 0.7).
  A missing model gives status 500, and an exception inside the pipeline gives status 400.

A DataFrame is a set of column names and a sequence of rows. A row maps column names to
cells, and a cell is a string, a real number or the missing marker (`Frame.Value`). The
caller's DataFrame, which `clean_data` changes in place, is the class `Frame.DataFrame` over
an array of rows. Everything else works on immutable `Frame.Table` values, so "transform
never modifies its input" holds by construction. The fitted pipeline is a pair of functions
(`Api.Pipeline`): the class-1 probability and the predicted label. Each may fail with a
message. Parsing a string as a number is the parameter `parse`, and reading the model
artifact is the constructor argument of `Api.Service`.

`pd.cut` is called without `include_lowest` (`src/features.py:19`), so a tenure of 0 gets no
bucket, although the front end lets a user choose it (see `Features.TenureGroupBoundaries` and
`Api.RequestTenureGroup`). `clean_data` does not count or report the rows it drops, and neither
does the model.

## Model

| member | source | states |
|---|---|---|
| Features.YesFlag | src/features.py:13 | a flag counts 1 exactly when it is the string "Yes", 0 otherwise |
| Features.FamilySize | src/features.py:13 | the family size lies in 0..2; it is 2 exactly when both flags are "Yes" and 0 exactly when neither is |
| Features.FamilySizeIsCaseExact | src/features.py:13 | the comparison is case-exact: "yes" and "YES" count 0, and a missing flag counts 0 |
| Features.AvgCharges | src/features.py:16 | the average times (tenure + 1) gives back the total charges |
| Features.AvgChargesBounds | src/features.py:16 | for tenure >= 0 and non-negative total the average lies between 0 and the total, and equals the total when tenure is 0 |
| Features.AvgChargesCell | src/features.py:16 | defined for every pair pandas divides without a TypeError, including a string total beside a missing tenure; the cell is a number exactly when both operands are numbers (otherwise missing), and then multiplies back to the total |
| Features.Cut | src/features.py:19 | pd.cut with right-closed intervals: a bucket exists exactly when edges[0] < x <= last edge, and the bucket k satisfies edges[k] < x <= edges[k+1] |
| Features.TenureGroup | src/features.py:19 | a group exists exactly when 0 < tenure <= 100; it is a label 1..5 whose interval holds the tenure |
| Features.TenureGroupBuckets | src/features.py:19 | the buckets spelled out: (0,12]→1, (12,24]→2, (24,48]→3, (48,60]→4, (60,100]→5, otherwise none |
| Features.TenureGroupBoundaries | src/features.py:19 | 0→none, 12→1, 13→2, 24→2, 48→3, 60→4, 100→5, 101→none, -1→none |
| Features.TenureGroupMonotone | src/features.py:19 | over (0,100] a larger tenure never gets a lower group |
| Features.TenureGroupCell | src/features.py:19 | the bucket cell is a number or missing; missing exactly when tenure is missing, <= 0 or > 100; otherwise it is a label 1..5 whose interval holds the tenure |
| Features.TransformRow | src/features.py:10-21 | for every row with the four input columns, no string tenure and a string total only beside a missing tenure: exactly the original columns plus the three derived ones, every other cell kept, and the derived values |
| Features.FeatureEngineer.Fit | src/features.py:6-7 | fitting returns the same, stateless transformer |
| Features.FeatureEngineer.Transform | src/features.py:9-21 | a KeyError exactly when one of Partner, Dependents, TotalCharges, tenure is absent, naming the first absent one in that order; otherwise a TypeError exactly when some row has a string tenure or a string total beside a present tenure; on success the same number of rows, the columns plus the three derived ones, each row transformed |
| Features.TransformPreservesCells | src/features.py:10-21 | every original cell outside the derived columns is unchanged in the output |
| Features.TransformRowIdempotent | src/features.py:13-19 | transforming a transformed row again gives the same row |
| Features.TransformIdempotent | src/features.py:9-21 | transforming the transformed table again succeeds and gives the same table |
| Features.TransformOneRow | src/features.py:9-21 | a one-row table of any row the transform accepts (no string tenure, a string total only beside a missing tenure, no tenure of -1) is accepted, and its only row is transformed on its own |
| Features.TransformMaskedDivision | src/features.py:16-19 | a string total beside a missing tenure yields a missing average and a missing bucket, while the same string beside tenure 5 raises a TypeError |
| Preprocessing.ToNumeric | src/preprocessing.py:11 | coercion gives a number or missing; numbers and missing cells are kept; a string becomes a number exactly when it parses, and then that number |
| Preprocessing.CoerceRow | src/preprocessing.py:11 | only the TotalCharges cell changes, to its coercion; the columns stay the same |
| Preprocessing.CoerceColumn | src/preprocessing.py:11 | the column is coerced in every row and the row count is unchanged |
| Preprocessing.CoercedRowKeptIff | src/preprocessing.py:11-13 | a coerced row has no missing cell exactly when its TotalCharges coerces to a number and none of its other cells is missing |
| Preprocessing.DropNa | src/preprocessing.py:13 | no kept row has a missing cell; each row occurs in the output as often as in the input if it is complete and not at all otherwise |
| Preprocessing.DropNaIsSubsequence | src/preprocessing.py:13 | the kept rows are a subsequence of the input: order preserved, nothing invented or repeated |
| Preprocessing.DropNaKeepsIff | src/preprocessing.py:13 | an input row is in the output exactly when it has no missing cell |
| Preprocessing.DropNaOfCompleteRows | src/preprocessing.py:13 | rows that are all complete are returned unchanged |
| Preprocessing.Clean | src/preprocessing.py:8-14 | a KeyError exactly when there is no TotalCharges column; otherwise a table with the same columns, no more rows, no missing cell and a number in every TotalCharges cell |
| Preprocessing.CleanIsOrderedSelection | src/preprocessing.py:11-13 | the cleaned rows are an order-preserving selection of the coerced rows, holding exactly the complete ones |
| Preprocessing.CleanIdempotent | src/preprocessing.py:11-13 | cleaning a cleaned table returns it unchanged |
| Preprocessing.CleanData | src/preprocessing.py:8-14 | the caller's DataFrame keeps all its rows but has its TotalCharges column overwritten by the coercion; the result is the cleaned table |
| Preprocessing.SplitData | src/preprocessing.py:16-19 | a KeyError exactly when the target column is absent; otherwise features with every column but the target and labels equal to the target cells, both over the same rows |
| Preprocessing.SplitRejoins | src/preprocessing.py:18-19 | putting each label back into its feature row rebuilds the original row |
| Api.PassThroughCellsAreFields | app/api.py:22-41 | gender, the service and billing categories and the monthly charge are each kept under their own field name, unchanged |
| Api.AsDict | app/api.py:50 | the request becomes a dictionary whose keys are exactly the nineteen field names; SeniorCitizen, Partner, Dependents, tenure and TotalCharges sit under their own names unchanged, and every other field is forwarded as `Api.PassThroughCells` holds it |
| Api.AsDictPassThroughFields | app/api.py:50 | each of the other fourteen fields is in the dictionary under its own name with its own value |
| Api.SeniorFlag | app/api.py:53-56 | the flag is 1 exactly for the string "Yes" and 0 for every other string |
| Api.ModelInput | app/api.py:50-56 | the model input has the request's fields, the senior-citizen flag re-encoded and every other field forwarded unchanged |
| Api.SingleRow | app/api.py:58 | the model receives a one-row table holding exactly that record |
| Api.ChurnLabel | app/api.py:63-66 | the answer is "Yes" exactly for label 1 and "No" otherwise |
| Api.RiskLevel | app/api.py:68 | "Critical" exactly when the probability is strictly above 0.7, "Safe" otherwise |
| Api.RiskLevelStrictAndMonotone | app/api.py:68 | a probability of exactly 0.7 is "Safe", and a higher probability never lowers the tier |
| Api.Service.constructor | app/api.py:14-19 | a failed load leaves the model unset instead of aborting; a successful one sets it |
| Api.Service.Predict | app/api.py:45-71 | no model gives 500 "Model not loaded"; an exception from either call gives 400 with its message; success exactly when both calls succeed, with the probability passed through, "Yes" iff label 1 and "Critical" iff probability > 0.7 |
| Api.RequestTenureGroup | src/features.py:19 | every request with tenure >= 0 passes the feature engineer, and its tenure bucket is missing exactly when tenure is 0 or above 100 |

## Left out

- Features.FeatureEngineer.Transform: requires that no tenure cell is -1, where the divisor `tenure + 1` is zero. pandas then gives an infinity for a nonzero numeric total and NaN for a zero or missing total. The model has no infinities.
- Features.TenureGroupCell: the bucket is a number cell, not a pandas categorical.
- Column order, dtypes (integer versus float columns) and floating-point rounding are not modelled. Charges, tenure and probabilities are exact reals.
- The string grammar of `pd.to_numeric` is the parameter `parse`. Strings such as "inf", which pandas reads as infinity and `dropna` keeps, fall outside the model.
- `load_data` (CSV reading), `joblib` artifact loading and saving, and the startup log messages are I/O. The load outcome is a parameter of `Api.Service`.
- `train_test_split` with its test fraction, shuffle and seed (`src/preprocessing.py:20`) is a library random split. Only the separation of label and features is modelled.
- `src/train.py` and `src/train_advanced.py` configure library scaling, one-hot encoding, classifiers and the grid search, which run inside code that is not part of this model. Their declared column lists (`src/train_advanced.py:25-27`) do not include the three engineered columns, so those columns do not reach the classifier.
- The fitted pipeline's `predict_proba` and `predict` are opaque functions. Their messages stand for `str(e)` of whatever they raise.
- `if not model` is modelled as "no model loaded". The truthiness of a loaded pipeline object is not modelled.
- FastAPI routing, pydantic validation of the request body, the health-check endpoint and the Streamlit front end (`churn_ui/app_ui.py`) are framework plumbing and presentation.
