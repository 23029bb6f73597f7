/** The feature vector the cluster prediction is computed from. The scaler
    and the k-means model that turn it into a cluster id are loaded from
    pickled files and are not modelled: they stand here as a function
    parameter `assign`. */
module Prediction {
  import opened Values

  /** The request keys read, in the order of the model's feature columns. */
  const FeatureKeys: seq<string> := ["Rating", "Price", "Time_Minutes", "Lat", "Long"]

  /** float(data.get(key, 0)): an absent key reads as 0, a present one is
      converted, and a present null raises TypeError like any other value
      float() refuses. */
  function Feature(fields: map<string, Value>, key: string): Result<real> {
    ToFloat(GetOr(fields, key, Num(0.0)))
  }

  /** The features for keys, read left to right; the first key that fails to
      convert decides the error. */
  function ReadFeatures(fields: map<string, Value>, keys: seq<string>): (r: Result<seq<real>>)
    ensures r.Success? <==> forall i | 0 <= i < |keys| :: Feature(fields, keys[i]).Success?
    ensures r.Success? ==> |r.value| == |keys|
    ensures r.Success? ==> forall i | 0 <= i < |keys| :: Feature(fields, keys[i]) == Success(r.value[i])
    ensures r.Failure? ==> exists i | 0 <= i < |keys| ::
      Feature(fields, keys[i]) == Failure(r.error) && forall j | 0 <= j < i :: Feature(fields, keys[j]).Success?
  {
    if keys == [] then
      Success([])
    else
      match Feature(fields, keys[0])
      case Failure(e) => Failure(e)
      case Success(x) =>
        match ReadFeatures(fields, keys[1..])
        case Failure(e) =>
          assert forall i | 1 <= i < |keys| :: keys[i] == keys[1..][i - 1];
          Failure(e)
        case Success(xs) =>
          assert forall i | 1 <= i < |keys| :: keys[i] == keys[1..][i - 1];
          Success([x] + xs)
  }

  /** The feature vector [Rating, Price, Time_Minutes, Lat, Long] of a
      request body. */
  function Features(body: Payload): (r: Result<seq<real>>)
    ensures body.NotObject? ==> r == Failure(NotAnObject)
    ensures r.Success? ==> |r.value| == |FeatureKeys|
  {
    match body
    case NotObject => Failure(NotAnObject)
    case Object(fields) => ReadFeatures(fields, FeatureKeys)
  }

  /** Each coordinate of a built feature vector is its key's value converted
      by float(), or 0 when the key is absent. */
  lemma FeatureDefaults(fields: map<string, Value>)
    requires Features(Object(fields)).Success?
    ensures forall i | 0 <= i < |FeatureKeys| ::
      && (FeatureKeys[i] !in fields ==> Features(Object(fields)).value[i] == 0.0)
      && (FeatureKeys[i] in fields ==> ToFloat(fields[FeatureKeys[i]]) == Success(Features(Object(fields)).value[i]))
  {
    var v := Features(Object(fields)).value;
    forall i | 0 <= i < |FeatureKeys|
      ensures FeatureKeys[i] !in fields ==> v[i] == 0.0
      ensures FeatureKeys[i] in fields ==> ToFloat(fields[FeatureKeys[i]]) == Success(v[i])
    {
      assert Feature(fields, FeatureKeys[i]) == Success(v[i]);
    }
  }

  /** A body holding none of the five keys yields the zero vector. */
  lemma EmptyBodyIsZero()
    ensures Features(Object(map[])) == Success([0.0, 0.0, 0.0, 0.0, 0.0])
  {
    var r := Features(Object(map[]));
    forall i | 0 <= i < |FeatureKeys| ensures Feature(map[], FeatureKeys[i]) == Success(0.0) {
    }
    assert r.Success? && |r.value| == 5;
    assert forall i | 0 <= i < 5 :: r.value[i] == 0.0;
    assert r.value == [0.0, 0.0, 0.0, 0.0, 0.0];
  }

  /** A present null is not defaulted: float(None) raises TypeError. */
  lemma NullIsNotDefaulted(fields: map<string, Value>)
    requires "Rating" in fields && fields["Rating"] == Null
    ensures Features(Object(fields)) == Failure(NotConvertible(Null))
  {
    assert FeatureKeys[0] == "Rating";
  }

  /** A complete query yields its five values in column order. */
  lemma CompleteQuery()
    ensures Features(Object(map[
      "Rating" := Num(4.5), "Price" := Num(20000.0), "Time_Minutes" := Num(90.0),
      "Lat" := Num(-6.2), "Long" := Num(106.8)])) == Success([4.5, 20000.0, 90.0, -6.2, 106.8])
  {
    var fields := map["Rating" := Num(4.5), "Price" := Num(20000.0), "Time_Minutes" := Num(90.0),
                      "Lat" := Num(-6.2), "Long" := Num(106.8)];
    var expected := [4.5, 20000.0, 90.0, -6.2, 106.8];
    assert FeatureKeys == ["Rating", "Price", "Time_Minutes", "Lat", "Long"];
    forall i | 0 <= i < 5 ensures Feature(fields, FeatureKeys[i]) == Success(expected[i]) {
    }
    var r := Features(Object(fields));
    assert r.Success? && |r.value| == 5;
    assert forall i | 0 <= i < 5 :: r.value[i] == expected[i];
    assert r.value == expected;
  }

  /** The cluster id predicted for a request body: the classifier applied to
      the feature vector, or the error that building the vector raised. */
  function PredictCluster(body: Payload, assign: seq<real> -> int): (r: Result<int>)
    ensures r.Success? <==> Features(body).Success?
    ensures r.Failure? ==> r.error == Features(body).error
    ensures r.Success? ==> r.value == assign(Features(body).value)
  {
    match Features(body)
    case Failure(e) => Failure(e)
    case Success(v) => Success(assign(v))
  }
}
