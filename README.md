# Tourism cluster API: place catalog model

A Dafny model of the core of a small Flask service (`app.py`) that recommends
tourist places by cluster. The service keeps its place catalog in memory as a
data frame. Each row has a name, category, city, rating, price and a
precomputed `Predicted_Cluster`. Four endpoints read or extend the catalog:

- `GET /get-recommendations/<id>` lists the rows of one cluster.
- `GET /generate-itinerary/<id>` lists the five best-rated rows of a cluster.
  It answers 404 when the cluster has no rows.
- `POST /add-plan/<id>` appends a row built from the request body and rewrites
  the CSV file.
- `GET /plans/<id>` lists the rows of one cluster, exactly as the first
  endpoint does. Added plans are ordinary catalog rows.

`POST /predict-cluster` builds a five-number feature vector from the request
body and hands it to a scaler and a k-means model loaded from disk.

Modules:

- `NumberText` (`number_text.dfy`): `float()` applied to text: surrounding
  whitespace, an optional sign, digits with at most one decimal point.
- `Values` (`values.dfy`): JSON values, request bodies, the errors the
  handlers catch, and `float()` applied to a JSON value.
- `Places` (`places.dfy`): catalog rows, the five reported columns, and the
  filter by cluster, with its characterisation and its behaviour under append.
- `Ranking` (`ranking.dfy`): sorting by rating, highest first, and the top-k cut.
- `Prediction` (`prediction.dfy`): the feature vector of `predict_cluster`.
  The classifier is a function parameter.
- `App` (`app.dfy`): the catalog as a class `Catalog` with a `rows: seq<Place>`
  field. The three read endpoints are functions over it. `AddPlan` is a
  method that appends to it.

Cluster ids in URL paths are `nat`. Flask's `<int:…>` converter matches only
non-negative integers, so a negative id never reaches the handlers. The
cluster column of a row is an `int`. Ratings and prices are `real`, so they
are ordered and exact.

The model follows these behaviours of the code:

- The itinerary sort is pandas' default `sort_values`, which is not stable. The
  model therefore promises nothing about the order of equally rated places. A
  stable tie-break is not what the code does.
- Plans are not a separate durable store. They are rows appended to the same
  catalog, and `GET /plans` is the recommendation filter.
- `add-plan` does not require the name, category or city. An absent key is
  stored as null. Only `Rating` and `Price` must convert.
- If rewriting the CSV file fails, the handler answers with an error. The
  in-memory catalog still keeps the new row, because the rebind at
  `app.py:110` happens before the write at `app.py:111`.
- `predict-cluster` defaults an absent key to 0. A key that is present with a
  null value is not defaulted: `float(None)` raises, and the request fails.

## Model

| member | source | states |
|---|---|---|
| `Places.ByCluster` | app.py:58 | Every row kept belongs to cluster c and comes from the catalog. Every catalog row of cluster c is kept. The result is no longer than the catalog. |
| `Places.FilterExact` | app.py:58-60 | The filter's k-th row is the catalog row at the k-th index whose cluster is c. Those indices ascend. An index is among them exactly when its row is in cluster c. So the filter returns exactly cluster c's rows, in catalog order. |
| `Places.ByClusterEmpty` | app.py:58-66 | The filter is empty exactly when no catalog row carries the cluster. An unknown cluster gives an empty list, not an error. |
| `Places.ByClusterAppend` | app.py:110 | Filtering the concatenation of two catalogs gives the two filters concatenated. |
| `Places.AppendRow` | app.py:100-110 | After a row of cluster c is appended, c's filter is its old filter followed by that row. The filter of every other cluster is unchanged. |
| `Places.RecommendationsAfterAppend` | app.py:124-127 | The same holds for the reported five-column records: c's list gains the new row's record at its end, and every other cluster's list is unchanged. |
| `Ranking.SortByRating` | app.py:80 | The result is a permutation of its input, with ratings non-increasing from first to last. |
| `Ranking.InsertKeepsDescending` | app.py:80 | Inserting one record into a list in descending rating order keeps the list descending. |
| `Ranking.PrefixDominates` | app.py:80 | A prefix of a descending list is descending and a sub-multiset of the list. Every element cut off is rated no higher than the last element kept. |
| `Ranking.TopRated` | app.py:80 | `head(k)` after the sort keeps min(k, n) records, highest rating first. They form a sub-multiset of the input. Every record left out is rated no higher than the last one kept. |
| `App.Catalog.GetRecommendations` | app.py:55-66 | The response names the cluster. Its count equals the list length, which equals the cluster's row count. Item k is the five-column record of the catalog row at the k-th matching index. The list is empty exactly when no row has the cluster. |
| `App.Catalog.GetPlans` | app.py:121-131 | The plans listing equals the recommendations listing for the same cluster. |
| `App.Catalog.GenerateItinerary` | app.py:70-86 | The result is NotFound exactly when no row has the cluster. Otherwise the count equals the length, which is min(5, n). Ratings are non-increasing. The items are a sub-multiset of the cluster's records. No record left out is rated above the last item. |
| `App.NewRow` | app.py:93-107 | A body that is not a JSON object fails before any field is read (`get_json` or `.get` raises). The row is built exactly when Rating and Price both convert. A Rating failure is the error reported; when Rating converts, a Price failure is. A built row carries the path's cluster, the body's name, category and city (null when absent), and the converted rating and price. |
| `App.Catalog.AddPlan` | app.py:90-118 | When the row cannot be built, the error is returned and the catalog and the saved copy are unchanged. Otherwise the catalog is the old one plus the new row at the end. The saved copy equals the catalog when the write succeeds. A failed write reports an error but keeps the row in memory. Listing c afterwards ends with the new record, and every other cluster's listing is unchanged. |
| `App.Catalog.Load` | app.py:17-18 | The catalog and the saved copy both start as the rows read at start-up. |
| `Values.ToFloat` | app.py:97-98 | `float()` of a JSON value succeeds exactly for numbers, booleans and numeric text. A number converts to itself, true to 1 and false to 0, and text to the value the text parser reads from it. Null, arrays and objects raise TypeError. Other text raises ValueError. |
| `NumberText.ParseShowInt` | app.py:97-98 | The decimal text of every integer converts back to that integer. |
| `NumberText.ParseInteger` | app.py:97-98 | A run of digits converts to its value. This holds with or without a plus or minus sign in front and with any whitespace around it. After a minus sign the value is negated. |
| `NumberText.ParseFixedPoint` | app.py:97-98 | Text of the form digits.digits converts to the whole part plus the fraction digits divided by 10 to the number of fraction digits. Either part may be empty, but not both, so ".5" and "7." convert. A plus or minus sign and surrounding whitespace are allowed, and a minus sign negates the value. |
| `NumberText.PaddedNumber` | app.py:97-98 | Text that starts and ends with a digit or a point converts after a sign and inside whitespace padding exactly as it converts bare, negated after a minus sign. |
| `NumberText.StripPadding` | app.py:97-98 | Stripping removes exactly the whitespace around text that itself neither starts nor ends with whitespace. |
| `NumberText.ParseNumberForm` | app.py:97-98 | Text converts exactly when, after the surrounding whitespace and an optional sign are removed, the rest consists of digits and at most one decimal point, with at least one digit. |
| `NumberText.ParseUnsignedForm` | app.py:97-98 | Unsigned text converts exactly when it consists of digits and at most one decimal point, with at least one digit. |
| `NumberText.ParseTwoPoints` | app.py:97-98 | Any text holding two or more decimal points does not convert, wherever the points stand. |
| `NumberText.StripKeepsPoints` | app.py:97-98 | Stripping whitespace removes no decimal point. |
| `Prediction.ReadFeatures` | app.py:41-45 | The keys are read in order. The result succeeds exactly when every key converts, and coordinate i is key i's converted value. On failure, the error is that of the first key that fails. |
| `Prediction.Features` | app.py:40-47 | A body that is not a JSON object fails before any field is read (`get_json` or `.get` raises). A built vector has exactly five coordinates. |
| `Prediction.FeatureDefaults` | app.py:41-47 | Each coordinate, in the order Rating, Price, Time_Minutes, Lat, Long, is its key's converted value, or 0 when the key is absent. |
| `Prediction.EmptyBodyIsZero` | app.py:41-47 | An empty object yields the zero vector. |
| `Prediction.NullIsNotDefaulted` | app.py:41 | A Rating that is present but null makes the request fail with TypeError. It is not defaulted to 0. |
| `Prediction.CompleteQuery` | app.py:41-47 | The query {Rating 4.5, Price 20000, Time_Minutes 90, Lat -6.2, Long 106.8} yields [4.5, 20000, 90, -6.2, 106.8]. |
| `Prediction.PredictCluster` | app.py:37-53 | The prediction succeeds exactly when the feature vector builds, and then it is the classifier applied to that vector. Otherwise it fails with the vector's error. |

## Left out

- HTTP routing, CORS, JSON encoding, status codes and server start-up
  (`app.py:1-10`, `app.py:20-35`, `app.py:137-139`), including the `/` and
  `/health` endpoints. Error responses are modelled by an `Error` value. The
  status code is not modelled: 404 for NotFound, 400 for the add-plan and
  predict errors.
- The pickled scaler and k-means model (`app.py:13-14`, `app.py:48-49`). These
  are library objects doing floating-point work. They appear only as the
  `assign` parameter of `PredictCluster`, so nothing is proved about which
  cluster is chosen or whether it is in range.
- CSV reading and writing (`app.py:17-18`, `app.py:111`). This is file I/O. The
  initial rows are a constructor argument. Whether the write succeeds is a
  method argument, and the file's contents are a ghost `saved` field.
- `App.Catalog.AddPlan`: after a failed write, the file's contents are not
  specified, because a failed write may leave the file partly rewritten.
- `NumberText.ParseNumber`: `float()` also accepts exponents (`1e3`), `inf`,
  `nan`, underscores between digits, and non-ASCII digits and whitespace.
  The model rejects these texts.
- Floating-point rounding and NaN. Ratings and prices are exact reals, so NaN
  ordering in pandas' sort is not modelled.
- `Values.ToFloat`: overflow and `inf` are not modelled, because a JSON number
  is an exact real here. In Python, `float()` of a JSON integer too large for
  a double raises OverflowError. `add-plan` then answers with an error and
  leaves the catalog unchanged, and `predict-cluster` answers with an error.
  The model converts such a number and appends the row. A JSON number literal
  too large for a double decodes to `inf`. `add-plan` stores it, and the
  scaler rejects it in `predict-cluster`. The model treats it as an
  ordinary finite number in both places.
- `App.Catalog.AddPlan`: cluster ids are unbounded integers here, but the
  source keeps them in an int64 column (`app.py:18`). Flask's `<int:…>`
  converter accepts any length of digits, so an id in [2**63, 2**64) reaches
  `add-plan`. The new one-row frame then holds it as uint64, and `pd.concat`
  at `app.py:110` turns the whole column into float64. From then on, the
  filter at `app.py:58` compares doubles, so ids that round to the same
  double match each other: after adding a plan at 2**63, listing 2**63+1
  returns it. The model compares exact integers. Its claim that every other
  cluster's listing is unchanged therefore holds in the source only while
  every id fits in int64.
- The contents of JSON arrays and objects stored as a text field. They are a
  single `Composite` value.
- The generic 500 handlers of the three read endpoints. No exception can arise
  from the modelled filter, sort and slice.
- The order among equally rated places in the itinerary. pandas' default sort
  is not stable, so it decides this order. When a tie falls at the cut after
  five places, it also decides which of the tied places are kept by `head(5)`.
  The model sorts stably, but the contracts claim neither the order nor the
  choice: they state only the count, the descending ratings, that the items
  come from the cluster, and that no place left out is rated above the last
  one kept.
- Concurrent requests updating the global catalog. Nothing in the code
  synchronises them.
- Error message texts.
