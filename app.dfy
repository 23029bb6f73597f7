/** The place catalog the service holds in memory (the data frame `df`), the
    three endpoints that read it and the one that appends to it. */
module App {
  import opened Values
  import opened Places
  import opened Ranking

  /** The body of a successful listing response: the cluster asked for, the
      number of records and the records (under the keys cluster /
      total_recommendations / recommendations, cluster / itinerary_count /
      itinerary, or cluster / total_plans / plans). */
  datatype Listing = Listing(cluster: nat, count: nat, items: seq<Record>)

  /** How many places an itinerary holds at most. */
  const ItineraryLength: nat := 5

  /** The row the add-plan endpoint builds from its request body: the three
      text fields as the body gives them (null when absent), Rating and Price
      converted by float() in that order, and the cluster from the path. */
  function NewRow(c: nat, body: Payload): (r: Result<Place>)
    ensures body.NotObject? ==> r == Failure(NotAnObject)
    ensures body.Object? ==>
      (r.Success? <==> ToFloat(Get(body.fields, "Rating")).Success? && ToFloat(Get(body.fields, "Price")).Success?)
    ensures body.Object? && ToFloat(Get(body.fields, "Rating")).Failure? ==>
      r == Failure(ToFloat(Get(body.fields, "Rating")).error)
    ensures body.Object? && ToFloat(Get(body.fields, "Rating")).Success? && ToFloat(Get(body.fields, "Price")).Failure? ==>
      r == Failure(ToFloat(Get(body.fields, "Price")).error)
    ensures r.Success? ==>
      && r.value.cluster == c
      && r.value.name == Get(body.fields, "Place_Name")
      && r.value.category == Get(body.fields, "Category")
      && r.value.city == Get(body.fields, "City")
      && ToFloat(Get(body.fields, "Rating")) == Success(r.value.rating)
      && ToFloat(Get(body.fields, "Price")) == Success(r.value.price)
  {
    match body
    case NotObject => Failure(NotAnObject)
    case Object(fields) =>
      match ToFloat(Get(fields, "Rating"))
      case Failure(e) => Failure(e)
      case Success(rating) =>
        match ToFloat(Get(fields, "Price"))
        case Failure(e) => Failure(e)
        case Success(price) =>
          Success(Place(Get(fields, "Place_Name"), Get(fields, "Category"), Get(fields, "City"), rating, price, c))
  }

  class Catalog {
    /** The rows of the data frame, in order. */
    var rows: seq<Place>
    /** The rows last written to the CSV file. */
    ghost var saved: seq<Place>

    /** The catalog as read from the CSV file at start-up. */
    constructor Load(initial: seq<Place>)
      ensures rows == initial && saved == initial
    {
      rows := initial;
      saved := initial;
    }

    /** GET /get-recommendations/<c>: every row of cluster c, in catalog
        order, reduced to its five reported columns; an unknown cluster gives
        an empty list. */
    function GetRecommendations(c: nat): (r: Listing)
      reads this
      ensures r.cluster == c && r.count == |r.items|
      ensures |r.items| == |ByCluster(rows, c)|
      ensures forall k | 0 <= k < |r.items| ::
        k < |Positions(rows, c)| && Positions(rows, c)[k] < |rows| &&
        r.items[k] == Project(rows[Positions(rows, c)[k]])
      ensures r.items == [] <==> forall p | p in rows :: p.cluster != c
    {
      FilterExact(rows, c);
      var recs := Recommendations(rows, c);
      ByClusterEmpty(rows, c);
      Listing(c, |recs|, recs)
    }

    /** GET /plans/<c>: the same filter over the same catalog, since added
        plans are rows of the catalog. */
    function GetPlans(c: nat): (r: Listing)
      reads this
      ensures r == GetRecommendations(c)
    {
      var plans := Recommendations(rows, c);
      Listing(c, |plans|, plans)
    }

    /** GET /generate-itinerary/<c>: NotFound when cluster c has no row;
        otherwise its five (or all, if fewer) best-rated records, highest
        first. */
    function GenerateItinerary(c: nat): (r: Result<Listing>)
      reads this
      ensures r.Failure? <==> forall p | p in rows :: p.cluster != c
      ensures r.Failure? ==> r.error == NotFound
      ensures r.Success? ==>
        && r.value.cluster == c
        && r.value.count == |r.value.items| == Min(ItineraryLength, |ByCluster(rows, c)|)
        && Descending(r.value.items)
        && multiset(r.value.items) <= multiset(Recommendations(rows, c))
      ensures r.Success? ==> forall q | q in multiset(Recommendations(rows, c)) - multiset(r.value.items) ::
        q.rating <= r.value.items[|r.value.items| - 1].rating
    {
      var places := Recommendations(rows, c);
      ByClusterEmpty(rows, c);
      if places == [] then
        Failure(NotFound)
      else
        var itinerary := TopRated(places, ItineraryLength);
        Success(Listing(c, |itinerary|, itinerary))
    }

    /** POST /add-plan/<c>: builds the row; if that raises, the catalog is
        untouched. Otherwise the row is appended to the catalog and the whole
        catalog is written to the CSV file; if the write fails, the response
        is an error but the catalog in memory keeps the new row. */
    method AddPlan(c: nat, body: Payload, writeOk: bool) returns (r: Result<Place>)
      modifies this
      ensures NewRow(c, body).Failure? ==> r == NewRow(c, body) && rows == old(rows) && saved == old(saved)
      ensures NewRow(c, body).Success? ==> rows == old(rows) + [NewRow(c, body).value]
      ensures NewRow(c, body).Success? && writeOk ==> r == NewRow(c, body) && saved == rows
      ensures NewRow(c, body).Success? && !writeOk ==> r == Failure(WriteFailed)
      ensures NewRow(c, body).Success? ==>
        GetPlans(c).items == old(GetPlans(c).items) + [Project(NewRow(c, body).value)]
      ensures forall d: nat | d != c :: GetPlans(d) == old(GetPlans(d))
    {
      var row := NewRow(c, body);
      if row.Failure? {
        r := row;
        return;
      }
      RecommendationsAfterAppend(rows, row.value);
      rows := rows + [row.value];
      if !writeOk {
        r := Failure(WriteFailed);
        return;
      }
      saved := rows;
      r := row;
    }
  }
}
