/** Step 7 of `run_cab_allocation` (cab_logic.py): the greedy pickup order of one cab
    (`sort_pickup_order`) and its application to every cab of the split table.

    The first pickup is the passenger farthest from the destination; each next pickup is the
    unvisited passenger nearest to the previous one. After each pickup every row with the picked
    passenger's `User` leaves the unvisited set, so duplicate `User` values lose rows. */
module Pickup {
  import opened Records
  import opened DistanceMatrix

  /** `unvisited[unvisited['User'] != user]`: the rows of another user, in their order. */
  function Without(ps: seq<Participant>, user: string): (r: seq<Participant>)
    ensures |r| <= |ps|
  {
    if ps == [] then []
    else if ps[0].user != user then [ps[0]] + Without(ps[1..], user)
    else Without(ps[1..], user)
  }

  /** The filter keeps exactly the rows of other users. */
  lemma {:induction false} WithoutMembers(ps: seq<Participant>, user: string)
    ensures forall x :: x in Without(ps, user) <==> x in ps && x.user != user
  {
    if ps != [] {
      WithoutMembers(ps[1..], user);
      assert forall x | x in ps :: x == ps[0] || x in ps[1..];
    }
  }

  /** The `User` values of a list of rows. */
  function UserSet(ps: seq<Participant>): set<string> {
    set x | x in ps :: x.user
  }

  /** What is left of `members` once every user of `visited` has been picked up, one filter per
      pickup. */
  function Unvisited(members: seq<Participant>, visited: seq<Participant>): seq<Participant>
    decreases |visited|
  {
    if visited == [] then members
    else Without(Unvisited(members, visited[..|visited| - 1]), visited[|visited| - 1].user)
  }

  /** The unvisited rows are exactly the rows of the cab whose user has not been picked up. */
  lemma {:induction false} UnvisitedMembers(members: seq<Participant>, visited: seq<Participant>)
    ensures forall x :: x in Unvisited(members, visited) <==> x in members && x.user !in UserSet(visited)
    decreases |visited|
  {
    if visited != [] {
      var front := visited[..|visited| - 1];
      UnvisitedMembers(members, front);
      WithoutMembers(Unvisited(members, front), visited[|visited| - 1].user);
      assert visited == front + [visited[|visited| - 1]];
      assert UserSet(visited) == UserSet(front) + {visited[|visited| - 1].user};
    }
  }

  /** Position of a row farthest from `dest` (`sort_values('DistToDest', ascending=False).iloc[0]`). */
  function Farthest(ps: seq<Participant>, dest: Point, dist: Distance): (k: nat)
    requires ps != []
    ensures k < |ps|
    ensures forall j | 0 <= j < |ps| :: dist(ps[j].loc, dest) <= dist(ps[k].loc, dest)
  {
    if |ps| == 1 then 0
    else
      var k' := Farthest(ps[1..], dest, dist) + 1;
      if dist(ps[0].loc, dest) >= dist(ps[k'].loc, dest) then 0 else k'
  }

  /** Position of a row nearest to `from` (`sort_values('DistToLast').iloc[0]`). */
  function Nearest(ps: seq<Participant>, from: Point, dist: Distance): (k: nat)
    requires ps != []
    ensures k < |ps|
    ensures forall j | 0 <= j < |ps| :: dist(ps[k].loc, from) <= dist(ps[j].loc, from)
  {
    if |ps| == 1 then 0
    else
      var k' := Nearest(ps[1..], from, dist) + 1;
      if dist(ps[0].loc, from) <= dist(ps[k'].loc, from) then 0 else k'
  }

  /** `next` is an unvisited row nearest to the last pickup of `visited`. */
  ghost predicate NearestNext(members: seq<Participant>, visited: seq<Participant>, next: Participant, dist: Distance)
    requires visited != []
  {
    var last := visited[|visited| - 1].loc;
    next in Unvisited(members, visited)
    && forall x | x in Unvisited(members, visited) :: dist(next.loc, last) <= dist(x.loc, last)
  }

  /** Every pickup after the first is an unvisited row nearest to the one before it. */
  ghost predicate NearestSteps(members: seq<Participant>, route: seq<Participant>, dist: Distance)
    decreases |route|
  {
    |route| <= 1
    || (NearestSteps(members, route[..|route| - 1], dist)
        && NearestNext(members, route[..|route| - 1], route[|route| - 1], dist))
  }

  /** `route` is a greedy pickup order of `members`: it starts at a row farthest from `dest`,
      every later pickup is an unvisited row nearest to the previous one, and nobody is left. */
  ghost predicate GreedyRoute(members: seq<Participant>, route: seq<Participant>, dest: Point, dist: Distance) {
    route != []
    && route[0] in members
    && (forall x | x in members :: dist(x.loc, dest) <= dist(route[0].loc, dest))
    && NearestSteps(members, route, dist)
    && Unvisited(members, route) == []
  }

  /** `sort_pickup_order(group_df, destination_coords)`. */
  method SortPickupOrder(members: seq<Participant>, dest: Point, dist: Distance) returns (route: seq<Participant>)
    requires members != []
    ensures GreedyRoute(members, route, dest, dist)
  {
    var current := members[Farthest(members, dest, dist)];
    route := [current];
    var unvisited := Without(members, current.user);
    assert route[..0] == [];
    while unvisited != []
      invariant route != [] && current == route[|route| - 1]
      invariant route[0] in members
      invariant forall x | x in members :: dist(x.loc, dest) <= dist(route[0].loc, dest)
      invariant NearestSteps(members, route, dist)
      invariant unvisited == Unvisited(members, route)
      decreases |unvisited|
    {
      var next := unvisited[Nearest(unvisited, current.loc, dist)];
      var route' := route + [next];
      assert route'[..|route|] == route && route'[0] == route[0];
      assert NearestNext(members, route, next, dist);
      WithoutShrinks(unvisited, next);
      route, current := route', next;
      unvisited := Without(unvisited, next.user);
    }
  }

  lemma {:induction false} WithoutShrinks(ps: seq<Participant>, x: Participant)
    requires x in ps
    ensures |Without(ps, x.user)| < |ps|
  {
    if ps[0] != x {
      WithoutShrinks(ps[1..], x);
    } else {
      assert |Without(ps[1..], x.user)| <= |ps[1..]|;
    }
  }

  // ---------------------------------------------------------------------------------------------
  // What a greedy route is

  /** Pickup k (k >= 1) is an unvisited row nearest to pickup k - 1. */
  lemma {:induction false} NearestAt(members: seq<Participant>, route: seq<Participant>, dist: Distance, k: int)
    requires NearestSteps(members, route, dist) && 1 <= k < |route|
    ensures NearestNext(members, route[..k], route[k], dist)
    decreases |route|
  {
    var front := route[..|route| - 1];
    if k < |route| - 1 {
      NearestAt(members, front, dist, k);
      assert front[..k] == route[..k] && front[k] == route[k];
    }
  }

  /** Every pickup is a row of the cab and no user is picked up twice. */
  lemma {:induction false} StepsStayInCab(members: seq<Participant>, route: seq<Participant>, dist: Distance)
    requires route != [] && route[0] in members && NearestSteps(members, route, dist)
    ensures forall k | 0 <= k < |route| :: route[k] in members
    ensures DistinctUsers(route)
    decreases |route|
  {
    if |route| > 1 {
      var n := |route|;
      var front := route[..n - 1];
      StepsStayInCab(members, front, dist);
      UnvisitedMembers(members, front);
      assert route == front + [route[n - 1]];
      assert route[n - 1] in Unvisited(members, front);
      forall j | 0 <= j < n - 1 ensures route[j].user != route[n - 1].user {
        assert front[j] in front;
      }
    }
  }

  /** Every pickup is a row of the cab, no user is picked up twice, and every user of the cab is
      picked up. */
  lemma GreedyRouteVisitsEveryUserOnce(members: seq<Participant>, route: seq<Participant>, dest: Point, dist: Distance)
    requires GreedyRoute(members, route, dest, dist)
    ensures forall k | 0 <= k < |route| :: route[k] in members
    ensures DistinctUsers(route)
    ensures UserSet(route) == UserSet(members)
  {
    StepsStayInCab(members, route, dist);
    UnvisitedMembers(members, route);
    forall x | x in members ensures x.user in UserSet(route) {
      assert x !in Unvisited(members, route);
    }
  }

  /** A route picks up one row per distinct user of the cab; so it holds every row exactly when
      the cab's users are distinct, and loses rows otherwise. */
  lemma GreedyRouteLength(members: seq<Participant>, route: seq<Participant>, dest: Point, dist: Distance)
    requires GreedyRoute(members, route, dest, dist)
    ensures |route| == |UserSet(members)|
    ensures |route| == |members| <==> DistinctUsers(members)
  {
    GreedyRouteVisitsEveryUserOnce(members, route, dest, dist);
    UserCount(route);
    UserCount(members);
  }

  /** There are at most as many users as rows, and exactly as many when they are distinct. */
  lemma {:induction false} UserCount(ps: seq<Participant>)
    ensures |UserSet(ps)| <= |ps|
    ensures |UserSet(ps)| == |ps| <==> DistinctUsers(ps)
    decreases |ps|
  {
    if ps != [] {
      var front, last := ps[..|ps| - 1], ps[|ps| - 1];
      UserCount(front);
      assert ps == front + [last];
      UserSetSnoc(front, last);
      DistinctUsersSnoc(front, last);
    }
  }

  lemma UserSetSnoc(front: seq<Participant>, last: Participant)
    ensures UserSet(front + [last]) == UserSet(front) + {last.user}
  {
    assert forall x | x in front + [last] :: x in front || x == last;
  }

  lemma DistinctUsersSnoc(front: seq<Participant>, last: Participant)
    ensures DistinctUsers(front + [last]) <==> DistinctUsers(front) && last.user !in UserSet(front)
  {
    var ps := front + [last];
    var n := |ps|;
    if DistinctUsers(ps) {
      assert forall i, j | 0 <= i < j < n - 1 :: front[i].user == ps[i].user && front[j].user == ps[j].user;
      forall x | x in front ensures x.user != last.user {
        var j :| 0 <= j < n - 1 && front[j] == x;
        assert ps[j] == x && ps[n - 1] == last;
      }
    }
    if DistinctUsers(front) && last.user !in UserSet(front) {
      forall i, j | 0 <= i < j < n ensures ps[i].user != ps[j].user {
        if j < n - 1 {
          assert front[i].user != front[j].user;
        } else {
          assert front[i] in front;
        }
      }
    }
  }

  /** With distinct users the route is a reordering of the whole cab. */
  lemma GreedyRouteIsPermutation(members: seq<Participant>, route: seq<Participant>, dest: Point, dist: Distance)
    requires GreedyRoute(members, route, dest, dist) && DistinctUsers(members)
    ensures multiset(route) == multiset(members)
  {
    GreedyRouteVisitsEveryUserOnce(members, route, dest, dist);
    SameUsersSameRows(members, route);
  }

  /** Two lists with distinct users, one drawn from the other and covering its users, hold the
      same rows. */
  lemma SameUsersSameRows(members: seq<Participant>, route: seq<Participant>)
    requires DistinctUsers(members) && DistinctUsers(route)
    requires forall k | 0 <= k < |route| :: route[k] in members
    requires UserSet(route) == UserSet(members)
    ensures multiset(route) == multiset(members)
  {
    forall x | x in members ensures x in route {
      assert x.user in UserSet(route);
      var y :| y in route && y.user == x.user;
      SameUserSameRow(members, y, x);
    }
    forall x ensures multiset(members)[x] == multiset(route)[x] {
      AtMostOnce(members, x);
      AtMostOnce(route, x);
      if x in route {
        var k :| 0 <= k < |route| && route[k] == x;
      }
    }
  }

  /** With distinct users, a row occurs at most once. */
  lemma AtMostOnce(ps: seq<Participant>, x: Participant)
    requires DistinctUsers(ps)
    ensures multiset(ps)[x] <= 1
  {
    if multiset(ps)[x] >= 2 {
      var p, q := OccursTwice(ps, x);
    }
  }

  lemma SameUserSameRow(ps: seq<Participant>, a: Participant, b: Participant)
    requires DistinctUsers(ps) && a in ps && b in ps && a.user == b.user
    ensures a == b
  {
    var i :| 0 <= i < |ps| && ps[i] == a;
    var j :| 0 <= j < |ps| && ps[j] == b;
  }

  // ---------------------------------------------------------------------------------------------
  // Every cab

  /** The rows of cab `g` after sequencing, `block`, for the rows `members` it had before: none
      for an empty cab, otherwise a greedy route of its passengers numbered 1, 2, ..., K. */
  ghost predicate RoutedCab(members: seq<Row>, block: seq<Row>, dest: Point, dist: Distance) {
    if members == [] then block == []
    else
      GreedyRoute(Participants(members), Participants(block), dest, dist)
      && forall k | 0 <= k < |block| :: block[k].order == k + 1
  }

  /** Cabs below `cab` are sequenced; no row of `out` belongs to `cab` or above. */
  ghost predicate RoutedBelow(rows: seq<Row>, out: seq<Row>, cab: int, dest: Point, dist: Distance) {
    (forall g | g < cab :: RoutedCab(InGroup(rows, g), InGroup(out, g), dest, dist))
    && forall g | g >= cab :: InGroup(out, g) == []
  }

  /** The loop `for cab, members in result_df.groupby('Cab Group')`: cabs in increasing label
      order, each sequenced by `SortPickupOrder` and numbered from 1, the blocks concatenated
      into `final_route_df`. The table is therefore the cabs' blocks in increasing label order:
      its labels never decrease, and each cab's rows are that cab's route. */
  method OptimizeRoutes(rows: seq<Row>, dest: Point, dist: Distance) returns (out: seq<Row>)
    ensures forall g :: RoutedCab(InGroup(rows, g), InGroup(out, g), dest, dist)
    ensures LabelsAscending(out)
  {
    var lo, hi := MinGroup(rows), MaxGroup(rows);
    var cab := lo;
    out := [];
    NoCabOutside(rows, lo, hi);
    RoutedNothing(rows, lo, dest, dist);
    while cab <= hi
      invariant lo <= cab && (rows == [] || cab <= hi + 1)
      invariant RoutedBelow(rows, out, cab, dest, dist)
      invariant LabelsAscending(out) && LabelsBelow(out, cab)
      decreases hi - cab
    {
      var members := InGroup(rows, cab);
      if members != [] {
        var block := SequenceCab(members, cab, dest, dist);
        RouteOneMore(rows, out, block, cab, dest, dist);
        AscendingAppend(out, block, cab);
        out := out + block;
      } else {
        SkipEmptyCab(rows, out, cab, dest, dist);
      }
      cab := cab + 1;
    }
    RoutedAll(rows, out, cab, dest, dist);
  }

  /** The `Cab Group` column never decreases down the table. */
  ghost predicate LabelsAscending(rows: seq<Row>) {
    forall i, j | 0 <= i < j < |rows| :: rows[i].group <= rows[j].group
  }

  ghost predicate LabelsBelow(rows: seq<Row>, cab: int) {
    forall i | 0 <= i < |rows| :: rows[i].group < cab
  }

  /** Appending a block of cab `cab` to a table of lower cabs keeps the labels ascending. */
  lemma AscendingAppend(out: seq<Row>, block: seq<Row>, cab: int)
    requires LabelsAscending(out) && LabelsBelow(out, cab)
    requires forall k | 0 <= k < |block| :: block[k].group == cab
    ensures LabelsAscending(out + block) && LabelsBelow(out + block, cab + 1)
  {
  }

  lemma RoutedNothing(rows: seq<Row>, lo: int, dest: Point, dist: Distance)
    requires forall g | g < lo :: InGroup(rows, g) == []
    ensures RoutedBelow(rows, [], lo, dest, dist)
  {
  }

  lemma SkipEmptyCab(rows: seq<Row>, out: seq<Row>, cab: int, dest: Point, dist: Distance)
    requires RoutedBelow(rows, out, cab, dest, dist) && InGroup(rows, cab) == []
    ensures RoutedBelow(rows, out, cab + 1, dest, dist)
  {
    assert InGroup(out, cab) == [];
  }

  lemma RoutedAll(rows: seq<Row>, out: seq<Row>, cab: int, dest: Point, dist: Distance)
    requires RoutedBelow(rows, out, cab, dest, dist)
    requires forall g | g >= cab :: InGroup(rows, g) == []
    ensures forall g :: RoutedCab(InGroup(rows, g), InGroup(out, g), dest, dist)
  {
    forall g ensures RoutedCab(InGroup(rows, g), InGroup(out, g), dest, dist) {
      if g >= cab {
        assert InGroup(rows, g) == [] && InGroup(out, g) == [];
      }
    }
  }

  /** One iteration: `sort_pickup_order(members, DESTINATION)`, then `Pickup Order` 1, 2, ...,
      and `Cab Group` `cab` on every row. */
  method SequenceCab(members: seq<Row>, cab: int, dest: Point, dist: Distance) returns (block: seq<Row>)
    requires members != []
    ensures GreedyRoute(Participants(members), Participants(block), dest, dist)
    ensures forall k | 0 <= k < |block| :: block[k].group == cab && block[k].order == k + 1
  {
    var route := SortPickupOrder(Participants(members), dest, dist);
    block := seq(|route|, k requires 0 <= k < |route| => Row(route[k], cab, k + 1));
    assert Participants(block) == route;
  }

  /** No rows carry a label outside `lo .. hi`. */
  lemma NoCabOutside(rows: seq<Row>, lo: int, hi: int)
    requires lo == MinGroup(rows) && hi == MaxGroup(rows)
    ensures forall g | g < lo || g > hi || rows == [] :: InGroup(rows, g) == []
  {
    forall g | g < lo || g > hi ensures InGroup(rows, g) == [] {
      InGroupAbsent(rows, g);
    }
  }

  /** Appending the sequenced block of `cab` moves the frontier past it. */
  lemma RouteOneMore(rows: seq<Row>, out: seq<Row>, block: seq<Row>, cab: int, dest: Point, dist: Distance)
    requires RoutedBelow(rows, out, cab, dest, dist)
    requires InGroup(rows, cab) != []
    requires GreedyRoute(Participants(InGroup(rows, cab)), Participants(block), dest, dist)
    requires forall k | 0 <= k < |block| :: block[k].group == cab && block[k].order == k + 1
    ensures RoutedBelow(rows, out + block, cab + 1, dest, dist)
  {
    assert InGroup(out, cab) == [];
    AppendCab(out, block, cab);
  }

  /** Appending the block of cab `cab`, empty before, gives that cab exactly the block and leaves
      every other cab as it was. */
  lemma AppendCab(out: seq<Row>, block: seq<Row>, cab: int)
    requires InGroup(out, cab) == []
    requires forall k | 0 <= k < |block| :: block[k].group == cab
    ensures forall g :: InGroup(out + block, g) == if g == cab then block else InGroup(out, g)
  {
    forall x | x in block ensures x.group == cab {
      var k :| 0 <= k < |block| && block[k] == x;
    }
    forall g ensures InGroup(out + block, g) == if g == cab then block else InGroup(out, g) {
      InGroupAppend(out, block, g);
      InGroupOfUniform(block, cab, g);
      if g == cab {
        assert InGroup(out + block, g) == [] + block;
      } else {
        assert InGroup(out + block, g) == InGroup(out, g) + [];
      }
    }
  }

  // ---------------------------------------------------------------------------------------------
  // The sequenced table as a whole

  /** `final_route_df` numbers the pickups of every cab 1, 2, ..., K in table order. */
  lemma RoutedOrders(rows: seq<Row>, out: seq<Row>, dest: Point, dist: Distance)
    requires forall g :: RoutedCab(InGroup(rows, g), InGroup(out, g), dest, dist)
    ensures OrdersOneToK(out)
  {
    forall g, k | 0 <= k < |InGroup(out, g)| ensures InGroup(out, g)[k].order == k + 1 {
      assert RoutedCab(InGroup(rows, g), InGroup(out, g), dest, dist);
    }
  }

  /** Every sequenced row is a participant its cab held before, and every participant before
      sequencing has its user picked up by its own cab. */
  lemma RoutedKeepsCabs(rows: seq<Row>, out: seq<Row>, dest: Point, dist: Distance)
    requires forall g :: RoutedCab(InGroup(rows, g), InGroup(out, g), dest, dist)
    ensures forall x | x in out :: x.who in Participants(InGroup(rows, x.group))
    ensures forall y | y in rows :: y.who.user in UserSet(Participants(InGroup(out, y.group)))
  {
    forall x | x in out ensures x.who in Participants(InGroup(rows, x.group)) {
      var g := x.group;
      var block := InGroup(out, g);
      InGroupMembers(out, g);
      assert RoutedCab(InGroup(rows, g), block, dest, dist);
      var k :| 0 <= k < |block| && block[k] == x;
      GreedyRouteVisitsEveryUserOnce(Participants(InGroup(rows, g)), Participants(block), dest, dist);
      assert Participants(block)[k] == x.who;
    }
    forall y | y in rows ensures y.who.user in UserSet(Participants(InGroup(out, y.group))) {
      var g := y.group;
      var members := InGroup(rows, g);
      InGroupMembers(rows, g);
      assert RoutedCab(members, InGroup(out, g), dest, dist);
      var k :| 0 <= k < |members| && members[k] == y;
      assert Participants(members)[k] == y.who;
      GreedyRouteVisitsEveryUserOnce(Participants(members), Participants(InGroup(out, g)), dest, dist);
    }
  }

  /** A cab keeps one row per distinct user: never more rows than before, and as many exactly
      when its users are distinct. */
  lemma RoutedCabSizes(rows: seq<Row>, out: seq<Row>, dest: Point, dist: Distance)
    requires forall g :: RoutedCab(InGroup(rows, g), InGroup(out, g), dest, dist)
    ensures forall g :: |InGroup(out, g)| <= |InGroup(rows, g)|
    ensures forall g :: |InGroup(out, g)| == |InGroup(rows, g)| <==> DistinctUsers(Participants(InGroup(rows, g)))
  {
    forall g ensures |InGroup(out, g)| <= |InGroup(rows, g)|
      && (|InGroup(out, g)| == |InGroup(rows, g)| <==> DistinctUsers(Participants(InGroup(rows, g)))) {
      var members := InGroup(rows, g);
      assert RoutedCab(members, InGroup(out, g), dest, dist);
      if members != [] {
        GreedyRouteLength(Participants(members), Participants(InGroup(out, g)), dest, dist);
        UserCount(Participants(members));
      }
    }
  }

  /** When no cab holds a user twice, sequencing reorders the participants of every cab and
      drops none: the table holds the same participants as before. */
  lemma RoutedPermutation(rows: seq<Row>, out: seq<Row>, dest: Point, dist: Distance)
    requires forall g :: RoutedCab(InGroup(rows, g), InGroup(out, g), dest, dist)
    requires forall g :: DistinctUsers(Participants(InGroup(rows, g)))
    ensures multiset(Participants(out)) == multiset(Participants(rows))
  {
    forall g ensures multiset(Participants(InGroup(out, g))) == multiset(Participants(InGroup(rows, g))) {
      var members := InGroup(rows, g);
      assert RoutedCab(members, InGroup(out, g), dest, dist);
      if members != [] {
        GreedyRouteIsPermutation(Participants(members), Participants(InGroup(out, g)), dest, dist);
      }
    }
    SameGroupsSameParticipants(out, rows);
  }
}
