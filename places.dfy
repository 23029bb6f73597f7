/** The place catalog as a sequence of rows, and the filter by cluster that
    every read endpoint applies to it. */
module Places {
  import opened Values

  /** One row of the catalog: the columns Place_Name, Category, City, Rating,
      Price and Predicted_Cluster. Rows loaded from the CSV file hold text in
      the first three columns; rows added by a request hold whatever JSON value
      the request carried (null when the key was absent). */
  datatype Place = Place(name: Value, category: Value, city: Value, rating: real, price: real, cluster: int)

  /** A row as the endpoints report it: the five columns Place_Name, Category,
      City, Rating and Price. There is no cluster column. */
  datatype Record = Record(name: Value, category: Value, city: Value, rating: real, price: real)

  function Project(p: Place): Record {
    Record(p.name, p.category, p.city, p.rating, p.price)
  }

  function Projected(s: seq<Place>): (r: seq<Record>)
    ensures |r| == |s|
  {
    seq(|s|, i requires 0 <= i < |s| => Project(s[i]))
  }

  /** df[df['Predicted_Cluster'] == c]: the rows of cluster c, in catalog order. */
  function ByCluster(rows: seq<Place>, c: int): (r: seq<Place>)
    ensures |r| <= |rows|
    ensures forall p | p in r :: p in rows && p.cluster == c
    ensures forall p | p in rows && p.cluster == c :: p in r
  {
    if rows == [] then []
    else if rows[0].cluster == c then [rows[0]] + ByCluster(rows[1..], c)
    else ByCluster(rows[1..], c)
  }

  /** The records an endpoint reports for cluster c. */
  function Recommendations(rows: seq<Place>, c: int): seq<Record> {
    Projected(ByCluster(rows, c))
  }

  /** The catalog indices from i on whose row belongs to cluster c, ascending:
      an index-based reference for ByCluster. */
  ghost function PositionsFrom(rows: seq<Place>, c: int, i: nat): seq<nat>
    requires i <= |rows|
    decreases |rows| - i
  {
    if i == |rows| then []
    else (if rows[i].cluster == c then [i] else []) + PositionsFrom(rows, c, i + 1)
  }

  ghost function Positions(rows: seq<Place>, c: int): seq<nat> {
    PositionsFrom(rows, c, 0)
  }

  lemma {:induction false} PositionsFromExact(rows: seq<Place>, c: int, i: nat)
    requires i <= |rows|
    ensures forall k | 0 <= k < |PositionsFrom(rows, c, i)| :: i <= PositionsFrom(rows, c, i)[k] < |rows|
    ensures forall k, l | 0 <= k < l < |PositionsFrom(rows, c, i)| :: PositionsFrom(rows, c, i)[k] < PositionsFrom(rows, c, i)[l]
    ensures forall j | i <= j < |rows| :: rows[j].cluster == c <==> j in PositionsFrom(rows, c, i)
    decreases |rows| - i
  {
    if i < |rows| {
      PositionsFromExact(rows, c, i + 1);
    }
  }

  lemma {:induction false} ByClusterFollowsPositions(rows: seq<Place>, c: int, i: nat)
    requires i <= |rows|
    ensures |ByCluster(rows[i..], c)| == |PositionsFrom(rows, c, i)|
    ensures forall k | 0 <= k < |PositionsFrom(rows, c, i)| ::
      PositionsFrom(rows, c, i)[k] < |rows| && ByCluster(rows[i..], c)[k] == rows[PositionsFrom(rows, c, i)[k]]
    decreases |rows| - i
  {
    if i < |rows| {
      var tail, rest := ByCluster(rows[i + 1..], c), PositionsFrom(rows, c, i + 1);
      assert rows[i..][0] == rows[i];
      assert rows[i..][1..] == rows[i + 1..];
      ByClusterFollowsPositions(rows, c, i + 1);
      if rows[i].cluster == c {
        assert ByCluster(rows[i..], c) == [rows[i]] + tail;
        assert PositionsFrom(rows, c, i) == [i] + rest;
      } else {
        assert ByCluster(rows[i..], c) == tail;
        assert PositionsFrom(rows, c, i) == rest;
      }
    }
  }

  /** The filter keeps exactly the rows whose cluster is c, in catalog order:
      its k-th result is the row at the k-th matching index, the matching
      indices ascend, and an index matches exactly when its row is in c. */
  lemma FilterExact(rows: seq<Place>, c: int)
    ensures |ByCluster(rows, c)| == |Positions(rows, c)|
    ensures forall k | 0 <= k < |Positions(rows, c)| ::
      Positions(rows, c)[k] < |rows| && ByCluster(rows, c)[k] == rows[Positions(rows, c)[k]]
    ensures forall k, l | 0 <= k < l < |Positions(rows, c)| :: Positions(rows, c)[k] < Positions(rows, c)[l]
    ensures forall j | 0 <= j < |rows| :: rows[j].cluster == c <==> j in Positions(rows, c)
  {
    PositionsFromExact(rows, c, 0);
    ByClusterFollowsPositions(rows, c, 0);
    assert rows[0..] == rows;
  }

  /** The filter of a cluster that no row carries is empty, and only then. */
  lemma ByClusterEmpty(rows: seq<Place>, c: int)
    ensures ByCluster(rows, c) == [] <==> forall p | p in rows :: p.cluster != c
  {
    var r := ByCluster(rows, c);
    if r != [] {
      assert r[0] in r;
    }
  }

  /** Filtering distributes over concatenation of catalogs. */
  lemma {:induction false} ByClusterAppend(a: seq<Place>, b: seq<Place>, c: int)
    ensures ByCluster(a + b, c) == ByCluster(a, c) + ByCluster(b, c)
  {
    if a == [] {
      assert a + b == b;
    } else {
      assert (a + b)[0] == a[0];
      assert (a + b)[1..] == a[1..] + b;
      ByClusterAppend(a[1..], b, c);
    }
  }

  /** Appending a row of cluster c adds it at the end of c's filter and leaves
      every other cluster's filter as it was. */
  lemma AppendRow(rows: seq<Place>, p: Place)
    ensures ByCluster(rows + [p], p.cluster) == ByCluster(rows, p.cluster) + [p]
    ensures forall d | d != p.cluster :: ByCluster(rows + [p], d) == ByCluster(rows, d)
  {
    ByClusterAppend(rows, [p], p.cluster);
    assert ByCluster([p], p.cluster) == [p];
    forall d | d != p.cluster
      ensures ByCluster(rows + [p], d) == ByCluster(rows, d)
    {
      ByClusterAppend(rows, [p], d);
      assert ByCluster([p], d) == [];
    }
  }

  /** The records reported for c after a row of c was appended are the ones
      reported before, followed by that row's record. */
  lemma RecommendationsAfterAppend(rows: seq<Place>, p: Place)
    ensures Recommendations(rows + [p], p.cluster) == Recommendations(rows, p.cluster) + [Project(p)]
    ensures forall d | d != p.cluster :: Recommendations(rows + [p], d) == Recommendations(rows, d)
  {
    AppendRow(rows, p);
    var before := ByCluster(rows, p.cluster);
    assert Projected(before + [p]) == Projected(before) + [Project(p)];
  }
}
