/** `run_cab_allocation` (cab_logic.py) as a whole: the distance matrix (step 2), proximity
    clustering (step 3), capacity splitting (step 4) and pickup sequencing (step 7), composed in
    that order over the participants of the input table. */
module Allocation {
  import opened Records
  import opened DistanceMatrix
  import opened Clustering
  import opened Splitting
  import opened Pickup

  /** `DESTINATION`, Kilakondaiyur. */
  const Destination: Point := Point(13.171354, 80.026655)

  /** `DISTANCE_THRESHOLD_METERS`, the clustering radius `eps`. */
  const DistanceThresholdMeters: real := 4000.0

  datatype Result<T> = Ok(value: T) | Err(reason: string)

  /** `list(zip(df['Latitude'], df['Longitude']))`. */
  function Locations(df: seq<Participant>): (r: seq<Point>)
    ensures |r| == |df| && forall k | 0 <= k < |df| :: r[k] == df[k].loc
  {
    seq(|df|, k requires 0 <= k < |df| => df[k].loc)
  }

  /** `df['Cab Group'] = labels`: row k of the input in cluster `labels[k]`, no pickup order yet. */
  function Labelled(df: seq<Participant>, labels: seq<int>): (r: seq<Row>)
    requires |labels| == |df|
    ensures Participants(r) == df
    ensures forall k | 0 <= k < |df| :: r[k].group == labels[k] && r[k].order == 0
  {
    seq(|df|, k requires 0 <= k < |df| => Row(df[k], labels[k], 0))
  }

  /** What the pipeline promises about its output `out` for the input `df`: it is computed from
      the proximity clusters, and it has the guarantees of sequencing a regrouping. */
  ghost predicate Allocated(df: seq<Participant>, out: seq<Row>, dist: Distance) {
    ClusteredByProximity(df, out, dist) && Sequenced(df, out, dist)
  }

  /** Steps 2 to 4 produce the cabs that `out` sequences: the distance matrix of the input's
      locations, its components within `eps`, and their capacity split. */
  ghost predicate ClusteredByProximity(df: seq<Participant>, out: seq<Row>, dist: Distance) {
    exists m: Matrix, labels: seq<int>, count: nat ::
      IsDistanceMatrix(m, Locations(df), dist)
      && ComponentLabelling(m, DistanceThresholdMeters, labels, count)
      && RoutedAll(Flatten(CapacitySplit(Labelled(df, labels), MaxPeoplePerCab)), out, dist)
  }

  /** The same steps with the split as the source writes it. */
  ghost predicate ClusteredAsWritten(df: seq<Participant>, out: seq<Row>, dist: Distance) {
    exists m: Matrix, labels: seq<int>, count: nat ::
      IsDistanceMatrix(m, Locations(df), dist)
      && ComponentLabelling(m, DistanceThresholdMeters, labels, count)
      && RoutedAll(Flatten(CapacitySplitAsWritten(Labelled(df, labels), MaxPeoplePerCab)), out, dist)
  }

  /** What sequencing a capacity-bounded regrouping of the input guarantees. */
  ghost predicate Sequenced(df: seq<Participant>, out: seq<Row>, dist: Distance) {
    RoutesRegrouping(df, out, dist)
    && WithinCapacity(out)
    && OrdersOneToK(out)
    && DrawnFrom(df, out)
    && EveryUserPickedUp(df, out)
    && (DistinctUsers(df) ==> multiset(Participants(out)) == multiset(df))
  }

  /** `out` is the greedy sequencing of a regrouping of the input into cabs of at most six. */
  ghost predicate RoutesRegrouping(df: seq<Participant>, out: seq<Row>, dist: Distance) {
    exists cabs: seq<Row> :: Regrouping(df, cabs) && RoutedAll(cabs, out, dist)
  }

  ghost predicate Regrouping(df: seq<Participant>, cabs: seq<Row>) {
    multiset(Participants(cabs)) == multiset(df) && WithinCapacity(cabs)
  }

  ghost predicate RoutedAll(cabs: seq<Row>, out: seq<Row>, dist: Distance) {
    forall g :: RoutedCab(InGroup(cabs, g), InGroup(out, g), Destination, dist)
  }

  /** No cab holds more than `MAX_PEOPLE_PER_CAB` rows. */
  ghost predicate WithinCapacity(rows: seq<Row>) {
    forall g :: |InGroup(rows, g)| <= MaxPeoplePerCab
  }

  /** Every row of the output is a participant of the input. */
  ghost predicate DrawnFrom(df: seq<Participant>, out: seq<Row>) {
    forall x | x in out :: x.who in df
  }

  /** Every user of the input is picked up. */
  ghost predicate EveryUserPickedUp(df: seq<Participant>, out: seq<Row>) {
    forall p | p in df :: p.user in UserSet(Participants(out))
  }

  /** Steps 2, 3, 4 and 7 in sequence. An empty table is an error: DBSCAN refuses an empty
      matrix. The great-circle distance is symmetric, which the clustering needs, and zero from a
      point to itself, so with `min_samples=1` every point is a core point and none is noise. */
  method RunCabAllocation(df: seq<Participant>, dist: Distance) returns (r: Result<seq<Row>>)
    requires SymmetricDistance(dist) && ZeroToItself(dist)
    ensures r.Err? <==> df == []
    ensures r.Ok? ==> Allocated(df, r.value, dist)
    ensures r.Ok? ==> LabelsAscending(r.value)
  {
    if df == [] {
      return Err("empty participant table");
    }
    var distanceMatrix := BuildDistanceMatrix(Locations(df), dist);
    var labels, count := LabelComponents(distanceMatrix, DistanceThresholdMeters);
    var rows := Labelled(df, labels);
    var finalAllocations := SplitByCapacity(rows, MaxPeoplePerCab);
    var resultDf := Flatten(finalAllocations);
    SplitIsCapacityBoundedPermutation(rows, MaxPeoplePerCab);
    SplitRegroups(df, rows, resultDf);
    var finalRouteDf := OptimizeRoutes(resultDf, Destination, dist);
    PipelineGuarantees(df, resultDf, finalRouteDf, dist);
    assert ClusteredByProximity(df, finalRouteDf, dist);
    r := Ok(finalRouteDf);
  }

  /** A capacity-bounded regrouping of the labelled input regroups the input itself. */
  lemma SplitRegroups(df: seq<Participant>, rows: seq<Row>, cabs: seq<Row>)
    requires Participants(rows) == df && BoundedRegrouping(rows, cabs, MaxPeoplePerCab)
    ensures Regrouping(df, cabs)
  {
  }

  /** Sequencing a capacity-bounded regrouping of the input gives the guarantees of `Sequenced`. */
  lemma PipelineGuarantees(df: seq<Participant>, cabs: seq<Row>, out: seq<Row>, dist: Distance)
    requires Regrouping(df, cabs) && RoutedAll(cabs, out, dist)
    ensures Sequenced(df, out, dist)
  {
    assert WithinCapacity(out) by {
      RoutedCabSizes(cabs, out, Destination, dist);
    }
    assert OrdersOneToK(out) by {
      RoutedOrders(cabs, out, Destination, dist);
    }
    assert DrawnFrom(df, out) && EveryUserPickedUp(df, out) by {
      RoutedKeepsCabs(cabs, out, Destination, dist);
      OutputFromInput(df, cabs, out);
      SeatedFromInput(df, cabs, out);
    }
    assert DistinctUsers(df) ==> multiset(Participants(out)) == multiset(df) by {
      if DistinctUsers(df) {
        NobodyLost(df, cabs, out, dist);
      }
    }
  }

  lemma OutputFromInput(df: seq<Participant>, cabs: seq<Row>, out: seq<Row>)
    requires multiset(Participants(cabs)) == multiset(df)
    requires forall x | x in out :: x.who in Participants(InGroup(cabs, x.group))
    ensures forall x | x in out :: x.who in df
  {
    forall x | x in out ensures x.who in df {
      InGroupSubMultiset(cabs, x.group);
      assert x.who in multiset(Participants(InGroup(cabs, x.group)));
    }
  }

  lemma SeatedFromInput(df: seq<Participant>, cabs: seq<Row>, out: seq<Row>)
    requires multiset(Participants(cabs)) == multiset(df)
    requires forall y | y in cabs :: y.who.user in UserSet(Participants(InGroup(out, y.group)))
    ensures forall p | p in df :: p.user in UserSet(Participants(out))
  {
    forall p | p in df ensures p.user in UserSet(Participants(out)) {
      assert p in multiset(Participants(cabs));
      var k :| 0 <= k < |cabs| && Participants(cabs)[k] == p;
      assert cabs[k] in cabs;
      PickedUpSomewhere(out, cabs[k].group, p.user);
    }
  }

  /** A user picked up by one cab is picked up by the table. */
  lemma PickedUpSomewhere(out: seq<Row>, g: int, u: string)
    requires u in UserSet(Participants(InGroup(out, g)))
    ensures u in UserSet(Participants(out))
  {
    var block := InGroup(out, g);
    InGroupMembers(out, g);
    var q :| q in Participants(block) && q.user == u;
    var j :| 0 <= j < |block| && Participants(block)[j] == q;
    assert block[j] in out;
    var i :| 0 <= i < |out| && out[i] == block[j];
    assert Participants(out)[i] == q;
  }

  lemma NobodyLost(df: seq<Participant>, cabs: seq<Row>, out: seq<Row>, dist: Distance)
    requires multiset(Participants(cabs)) == multiset(df) && DistinctUsers(df)
    requires forall g :: RoutedCab(InGroup(cabs, g), InGroup(out, g), Destination, dist)
    ensures multiset(Participants(out)) == multiset(df)
  {
    DistinctUsersSub(Participants(cabs), df);
    forall g ensures DistinctUsers(Participants(InGroup(cabs, g))) {
      InGroupSubMultiset(cabs, g);
      DistinctUsersSub(Participants(InGroup(cabs, g)), Participants(cabs));
    }
    RoutedPermutation(cabs, out, Destination, dist);
  }

  // ---------------------------------------------------------------------------------------------
  // Proximity

  /** Two passengers of one cab of an allocation (`Allocated` includes `ClusteredByProximity`)
      are participants of the input joined by a chain of steps of at most
      `DISTANCE_THRESHOLD_METERS`. */
  lemma CabmatesAreLinked(df: seq<Participant>, out: seq<Row>, dist: Distance, m: Matrix, x: Row, y: Row)
    requires ClusteredByProximity(df, out, dist) && IsDistanceMatrix(m, Locations(df), dist)
    requires x in out && y in out && x.group == y.group
    ensures exists i, j | 0 <= i < |df| && 0 <= j < |df| ::
      df[i] == x.who && df[j] == y.who && Linked(m, DistanceThresholdMeters, i, j)
  {
    var m', labels, count :| IsDistanceMatrix(m', Locations(df), dist)
      && ComponentLabelling(m', DistanceThresholdMeters, labels, count)
      && RoutedAll(Flatten(CapacitySplit(Labelled(df, labels), MaxPeoplePerCab)), out, dist);
    DistanceMatrixUnique(m, m', Locations(df), dist);
    var h := CabWithinOneCluster(Labelled(df, labels), MaxPeoplePerCab, x.group);
    var i := CabmateOrigin(df, labels, out, dist, h, x);
    var j := CabmateOrigin(df, labels, out, dist, h, y);
    assert Linked(m, DistanceThresholdMeters, i, j);
  }

  /** A passenger of the sequenced table, in a cab whose rows all come from cluster `h`, is a row
      of the input labelled `h`. */
  lemma CabmateOrigin(df: seq<Participant>, labels: seq<int>, out: seq<Row>, dist: Distance, h: int, x: Row) returns (i: int)
    requires |labels| == |df| && x in out
    requires RoutedAll(Flatten(CapacitySplit(Labelled(df, labels), MaxPeoplePerCab)), out, dist)
    requires forall z | z in InGroup(Flatten(CapacitySplit(Labelled(df, labels), MaxPeoplePerCab)), x.group) ::
      z.who in Participants(InGroup(Labelled(df, labels), h))
    ensures 0 <= i < |df| && df[i] == x.who && labels[i] == h
  {
    var cabs := Flatten(CapacitySplit(Labelled(df, labels), MaxPeoplePerCab));
    RoutedKeepsCabs(cabs, out, Destination, dist);
    i := LabelledOrigin(df, labels, h, x.who, cabs, x.group);
  }

  /** A participant of a cab of the split of the labelled table comes from a row of the input
      with the cluster's label. */
  lemma LabelledOrigin(df: seq<Participant>, labels: seq<int>, h: int, p: Participant, cabs: seq<Row>, g: int) returns (i: int)
    requires |labels| == |df| && p in Participants(InGroup(cabs, g))
    requires forall z | z in InGroup(cabs, g) :: z.who in Participants(InGroup(Labelled(df, labels), h))
    ensures 0 <= i < |df| && df[i] == p && labels[i] == h
  {
    var rows := Labelled(df, labels);
    var k :| 0 <= k < |InGroup(cabs, g)| && Participants(InGroup(cabs, g))[k] == p;
    assert InGroup(cabs, g)[k] in InGroup(cabs, g);
    var block := InGroup(rows, h);
    InGroupMembers(rows, h);
    var l :| 0 <= l < |block| && Participants(block)[l] == p;
    assert block[l] in block;
    i :| 0 <= i < |rows| && rows[i] == block[l];
  }

  // ---------------------------------------------------------------------------------------------
  // The split as written, on an input the clustering can produce

  /** Fourteen riders with distinct users: seven picked up at `a`, then seven at `b`. */
  function TwoPlaces(a: Point, b: Point): (df: seq<Participant>)
    ensures |df| == 14 && DistinctUsers(df)
    ensures forall k | 0 <= k < 14 :: df[k].loc == if k < 7 then a else b
  {
    seq(14, k requires 0 <= k < 14 =>
      Participant([(65 + k) as char], if k < 7 then "Area A" else "Area B", if k < 7 then a else b))
  }

  /** Seven riders at one place and seven at another more than `eps` away form exactly two
      clusters, labelled 0 and 1 in table order. */
  lemma TwoPlacesTwoClusters(a: Point, b: Point, dist: Distance, m: Matrix, labels: seq<int>, count: nat)
    requires dist(a, a) == 0.0 && dist(b, b) == 0.0
    requires dist(a, b) > DistanceThresholdMeters && dist(b, a) > DistanceThresholdMeters
    requires IsDistanceMatrix(m, Locations(TwoPlaces(a, b)), dist)
    requires ComponentLabelling(m, DistanceThresholdMeters, labels, count)
    ensures labels == seq(7, _ => 0) + seq(7, _ => 1)
  {
    TwoPlacesNear(a, b, dist, m);
    SidesAreClusters(m, DistanceThresholdMeters, labels, count);
    LabelsOfTwoSides(labels);
  }

  /** Two riders are within `eps` of each other exactly when they are picked up at one place. */
  lemma TwoPlacesNear(a: Point, b: Point, dist: Distance, m: Matrix)
    requires dist(a, a) == 0.0 && dist(b, b) == 0.0
    requires dist(a, b) > DistanceThresholdMeters && dist(b, a) > DistanceThresholdMeters
    requires IsDistanceMatrix(m, Locations(TwoPlaces(a, b)), dist)
    ensures |m| == 14
    ensures forall i, j | 0 <= i < 14 && 0 <= j < 14 :: Near(m, DistanceThresholdMeters, i, j) <==> (i < 7 <==> j < 7)
  {
    var df := TwoPlaces(a, b);
    forall i, j | 0 <= i < 14 && 0 <= j < 14
      ensures Near(m, DistanceThresholdMeters, i, j) <==> (i < 7 <==> j < 7)
    {
      assert m[i][j] == dist(df[i].loc, df[j].loc);
    }
  }

  /** When steps within `eps` never cross between the first seven points and the rest, the
      clusters are exactly those two sides. */
  lemma SidesAreClusters(m: Matrix, eps: real, labels: seq<int>, count: nat)
    requires ComponentLabelling(m, eps, labels, count) && |m| == 14
    requires forall i, j | 0 <= i < 14 && 0 <= j < 14 :: Near(m, eps, i, j) <==> (i < 7 <==> j < 7)
    ensures |labels| == 14 && FirstAppearance(labels) && forall i | 0 <= i < 14 :: labels[i] >= 0
    ensures forall i, j | 0 <= i < 14 && 0 <= j < 14 :: labels[i] == labels[j] <==> (i < 7 <==> j < 7)
  {
    forall i, j | 0 <= i < 14 && 0 <= j < 14 ensures labels[i] == labels[j] <==> (i < 7 <==> j < 7) {
      if i < 7 <==> j < 7 {
        LinkedSelf(m, eps, i);
        LinkedExtend(m, eps, i, i, j);
      } else if labels[i] == labels[j] {
        var p :| IsChain(m, eps, p) && p[0] == i && p[|p| - 1] == j;
        ChainStaysOnSide(m, eps, p);
      }
    }
  }

  /** Labels numbered by first appearance that split fourteen points into the first seven and
      the rest are seven 0s followed by seven 1s. */
  lemma LabelsOfTwoSides(labels: seq<int>)
    requires |labels| == 14 && FirstAppearance(labels) && forall i | 0 <= i < 14 :: labels[i] >= 0
    requires forall i, j | 0 <= i < 14 && 0 <= j < 14 :: labels[i] == labels[j] <==> (i < 7 <==> j < 7)
    ensures labels == seq(7, _ => 0) + seq(7, _ => 1)
  {
    var none, firstSeven := labels[..0], labels[..7];
    assert labels[0] > 0 ==> 0 in none;
    assert forall x | x in firstSeven :: x == labels[0];
    assert labels[7] > 1 ==> 1 in firstSeven;
    forall k | 0 <= k < 14 ensures labels[k] == (seq(7, _ => 0) + seq(7, _ => 1))[k] {
      assert labels[k] == if k < 7 then labels[0] else labels[7];
    }
  }

  /** A chain whose every step stays among the first seven points, or among the rest, ends on
      the side it starts on. */
  lemma {:induction false} ChainStaysOnSide(m: Matrix, eps: real, p: seq<int>)
    requires IsChain(m, eps, p)
    requires forall i, j | 0 <= i < |m| && 0 <= j < |m| && Near(m, eps, i, j) :: i < 7 <==> j < 7
    ensures p[0] < 7 <==> p[|p| - 1] < 7
  {
    if |p| > 1 {
      var front := p[..|p| - 1];
      assert IsChain(m, eps, front);
      ChainStaysOnSide(m, eps, front);
      assert Near(m, eps, p[|p| - 2], p[|p| - 1]);
    }
  }

  /** The whole pipeline with the split as written, on fourteen riders at two places more than
      `eps` apart: the sequenced table puts twelve riders in cab 2. */
  lemma AsWrittenTwelveInOneCab(a: Point, b: Point, dist: Distance, out: seq<Row>)
    requires dist(a, a) == 0.0 && dist(b, b) == 0.0
    requires dist(a, b) > DistanceThresholdMeters && dist(b, a) > DistanceThresholdMeters
    requires ClusteredAsWritten(TwoPlaces(a, b), out, dist)
    ensures |InGroup(out, 2)| == 12 > MaxPeoplePerCab
  {
    var df := TwoPlaces(a, b);
    var m, labels, count :| IsDistanceMatrix(m, Locations(df), dist)
      && ComponentLabelling(m, DistanceThresholdMeters, labels, count)
      && RoutedAll(Flatten(CapacitySplitAsWritten(Labelled(df, labels), MaxPeoplePerCab)), out, dist);
    TwoPlacesTwoClusters(a, b, dist, m, labels, count);
    TwelveRoutedInCab2(df, labels, out, dist);
  }

  /** Fourteen distinct riders labelled seven 0s then seven 1s: as written, cab 2 holds the first
      six of each, and sequencing keeps all twelve. */
  lemma TwelveRoutedInCab2(df: seq<Participant>, labels: seq<int>, out: seq<Row>, dist: Distance)
    requires |df| == 14 && DistinctUsers(df) && labels == seq(7, _ => 0) + seq(7, _ => 1)
    requires RoutedAll(Flatten(CapacitySplitAsWritten(Labelled(df, labels), MaxPeoplePerCab)), out, dist)
    ensures |InGroup(out, 2)| == 12
  {
    var rows := Labelled(df, labels);
    var front, back := rows[..7], rows[7..];
    SevenAndSeven(df, labels);
    assert rows == front + back;
    AsWrittenLabelsCollide(front, back);
    var cabs := Flatten(CapacitySplitAsWritten(rows, MaxPeoplePerCab));
    assert RoutedCab(InGroup(cabs, 2), InGroup(out, 2), Destination, dist);
    RoutedCabSizes(cabs, out, Destination, dist);
  }

  /** The labelled table of `TwelveRoutedInCab2` is a run of cluster 0 then a run of cluster 1. */
  lemma SevenAndSeven(df: seq<Participant>, labels: seq<int>)
    requires |df| == 14 && labels == seq(7, _ => 0) + seq(7, _ => 1)
    ensures forall x | x in Labelled(df, labels)[..7] :: x.group == 0
    ensures forall x | x in Labelled(df, labels)[7..] :: x.group == 1
  {
    var rows := Labelled(df, labels);
    forall x | x in rows[..7] ensures x.group == 0 {
      var k :| 0 <= k < 7 && rows[..7][k] == x;
      assert x == rows[k];
    }
    forall x | x in rows[7..] ensures x.group == 1 {
      var k :| 0 <= k < 7 && rows[7..][k] == x;
      assert x == rows[k + 7];
    }
  }
}
