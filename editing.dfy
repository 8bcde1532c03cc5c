/** The allocation table editor of app.py (`poc_allocation_management` and
    `update_pickup_orders`): the session keeps the allocation table `modified_allocation` and edits
    it in place. A row is identified by its position in the table. */
module Editing {
  import opened Records
  import opened Splitting
  import opened Pickup
  import opened Allocation

  // ---------------------------------------------------------------------------------------------
  // Renumbering

  /** The `Pickup Order` row `k` receives from `update_pickup_orders`: one more than the number of
      rows of its cab above it. */
  function Rank(rows: seq<Row>, k: int): (r: int)
    requires 0 <= k < |rows|
    ensures 1 <= r <= k + 1
  {
    |InGroup(rows[..k], rows[k].group)| + 1
  }

  /** The table after `update_pickup_orders`: every row keeps its participant and cab and takes its
      rank within the cab as its pickup order. */
  function Renumbered(rows: seq<Row>): (r: seq<Row>)
    ensures |r| == |rows|
    ensures forall k | 0 <= k < |rows| :: r[k].who == rows[k].who && r[k].group == rows[k].group
  {
    seq(|rows|, k requires 0 <= k < |rows| => rows[k].(order := Rank(rows, k)))
  }

  /** Two tables with the same cab column position by position. */
  ghost predicate SameCabs(a: seq<Row>, b: seq<Row>) {
    |a| == |b| && forall k | 0 <= k < |a| :: a[k].group == b[k].group
  }

  /** Cab sizes depend only on the cab column. */
  lemma {:induction false} SameCabsSameSizes(a: seq<Row>, b: seq<Row>, g: int)
    requires SameCabs(a, b)
    ensures |InGroup(a, g)| == |InGroup(b, g)|
  {
    if a != [] {
      SameCabsSameSizes(a[1..], b[1..], g);
    }
  }

  /** Hence so are ranks. */
  lemma SameCabsSameRank(a: seq<Row>, b: seq<Row>, k: int)
    requires SameCabs(a, b) && 0 <= k < |a|
    ensures Rank(a, k) == Rank(b, k)
  {
    SameCabsSameSizes(a[..k], b[..k], a[k].group);
  }

  /** Row `k` is the entry of its cab at its rank. */
  lemma InGroupAtRank(rows: seq<Row>, k: int)
    requires 0 <= k < |rows|
    ensures Rank(rows, k) <= |InGroup(rows, rows[k].group)|
    ensures InGroup(rows, rows[k].group)[Rank(rows, k) - 1] == rows[k]
  {
    var g := rows[k].group;
    assert rows == rows[..k] + rows[k..];
    InGroupAppend(rows[..k], rows[k..], g);
  }

  /** Entry `i` of cab `g` is row `k` of the table, with rank `i + 1`. */
  lemma {:induction false} RowOfEntry(rows: seq<Row>, g: int, i: int) returns (k: int)
    requires 0 <= i < |InGroup(rows, g)|
    ensures 0 <= k < |rows| && rows[k] == InGroup(rows, g)[i] && rows[k].group == g
    ensures Rank(rows, k) == i + 1
  {
    if rows[0].group == g && i == 0 {
      k := 0;
    } else {
      var i' := if rows[0].group == g then i - 1 else i;
      var k' := RowOfEntry(rows[1..], g, i');
      k := k' + 1;
      assert rows[..k] == [rows[0]] + rows[1..][..k'];
    }
  }

  /** After renumbering, the pickup orders of every cab are 1, 2, ..., K in table order. */
  lemma RenumberedOrders(rows: seq<Row>)
    ensures OrdersOneToK(Renumbered(rows))
  {
    var r := Renumbered(rows);
    forall g, i | 0 <= i < |InGroup(r, g)| ensures InGroup(r, g)[i].order == i + 1 {
      var k := RowOfEntry(r, g, i);
      SameCabsSameRank(r, rows, k);
    }
  }

  /** Renumbering twice is renumbering once. */
  lemma RenumberIdempotent(rows: seq<Row>)
    ensures Renumbered(Renumbered(rows)) == Renumbered(rows)
  {
    var r := Renumbered(rows);
    forall k | 0 <= k < |r| ensures Renumbered(r)[k] == r[k] {
      SameCabsSameRank(r, rows, k);
    }
  }

  /** A table is left as it is by renumbering exactly when its cabs are already numbered 1..K. */
  lemma RenumberFixpoint(rows: seq<Row>)
    ensures Renumbered(rows) == rows <==> OrdersOneToK(rows)
  {
    if OrdersOneToK(rows) {
      forall k | 0 <= k < |rows| ensures Renumbered(rows)[k] == rows[k] {
        InGroupAtRank(rows, k);
      }
    } else {
      RenumberedOrders(rows);
    }
  }

  // ---------------------------------------------------------------------------------------------
  // Adding a participant

  /** The largest pickup order of a non-empty cab. */
  function MaxOrder(block: seq<Row>): (r: int)
    requires block != []
    ensures forall x | x in block :: x.order <= r
    ensures exists x | x in block :: x.order == r
  {
    if |block| == 1 then block[0].order
    else
      var rest := MaxOrder(block[1..]);
      if block[0].order >= rest then block[0].order else rest
  }

  /** The pickup order a participant added to `cab` receives: the cab's largest order plus one,
      or 1 for an empty cab. */
  function NextPickupOrder(rows: seq<Row>, cab: int): int {
    var block := InGroup(rows, cab);
    (if block == [] then 0 else MaxOrder(block)) + 1
  }

  /** In a table numbered 1..K per cab, the new participant comes last: it receives K + 1 and the
      table stays numbered 1..K per cab. */
  lemma AddKeepsOrders(rows: seq<Row>, who: Participant, cab: int)
    requires OrdersOneToK(rows)
    ensures NextPickupOrder(rows, cab) == |InGroup(rows, cab)| + 1
    ensures OrdersOneToK(rows + [Row(who, cab, NextPickupOrder(rows, cab))])
  {
    var block := InGroup(rows, cab);
    if block != [] {
      assert forall i | 0 <= i < |block| :: block[i].order == 0 + i + 1;
      MaxOrderOfNumbered(block, 0);
    }
    AppendKeepsNumbering(rows, Row(who, cab, |block| + 1));
  }

  /** A cab numbered `base + 1`, `base + 2`, ... has `base + K` as its largest pickup order. */
  lemma {:induction false} MaxOrderOfNumbered(block: seq<Row>, base: int)
    requires block != [] && forall i | 0 <= i < |block| :: block[i].order == base + i + 1
    ensures MaxOrder(block) == base + |block|
  {
    if |block| > 1 {
      MaxOrderOfNumbered(block[1..], base + 1);
    }
  }

  /** A row appended after the K rows of its cab, with order K + 1, keeps every cab numbered. */
  lemma AppendKeepsNumbering(rows: seq<Row>, added: Row)
    requires OrdersOneToK(rows) && added.order == |InGroup(rows, added.group)| + 1
    ensures OrdersOneToK(rows + [added])
  {
    forall g, i | 0 <= i < |InGroup(rows + [added], g)| ensures InGroup(rows + [added], g)[i].order == i + 1 {
      InGroupAppend(rows, [added], g);
      assert InGroup([added], g) == if added.group == g then [added] else [];
    }
  }

  /** What the "Add Participant" button reports. */
  datatype AddOutcome = MissingFields | AreaNotFound | Added

  // ---------------------------------------------------------------------------------------------
  // Reordering one cab

  /** The last position of `u` in `s`. */
  function LastIndex(s: seq<string>, u: string): (i: int)
    requires u in s
    ensures 0 <= i < |s| && s[i] == u
    ensures forall j | i < j < |s| :: s[j] != u
  {
    if s[|s| - 1] == u then |s| - 1 else LastIndex(s[..|s| - 1], u)
  }

  /** The table after applying `newOrder` to cab `cab`: a row of the cab whose user is listed gets
      one more than the user's position in the list (the last one, should a user be listed twice);
      every other row is left alone. */
  function Reordered(rows: seq<Row>, cab: int, newOrder: seq<string>): (r: seq<Row>)
    ensures |r| == |rows|
  {
    seq(|rows|, k requires 0 <= k < |rows| =>
      if rows[k].group == cab && rows[k].who.user in newOrder
      then rows[k].(order := LastIndex(newOrder, rows[k].who.user) + 1)
      else rows[k])
  }

  /** Applying the name at position `i` of the list to a table reordered by the names before it. */
  lemma ReorderOneMore(before: seq<Row>, current: seq<Row>, next: seq<Row>, cab: int, newOrder: seq<string>, i: int)
    requires 0 <= i < |newOrder| && current == Reordered(before, cab, newOrder[..i])
    requires |next| == |current|
    requires forall k | 0 <= k < |next| ::
      next[k] == if current[k].group == cab && current[k].who.user == newOrder[i] then current[k].(order := i + 1) else current[k]
    ensures next == Reordered(before, cab, newOrder[..i + 1])
  {
    var prefix := newOrder[..i + 1];
    assert prefix == newOrder[..i] + [newOrder[i]];
    assert prefix[..i] == newOrder[..i];
    forall k | 0 <= k < |next| ensures next[k] == Reordered(before, cab, prefix)[k] {
    }
  }

  ghost predicate DistinctNames(s: seq<string>) {
    forall i, j | 0 <= i < j < |s| :: s[i] != s[j]
  }

  /** With a list naming each user once, the user at position `i` rides in position `i + 1`, and
      nothing outside the cab changes. */
  lemma ReorderedPositions(rows: seq<Row>, cab: int, newOrder: seq<string>)
    requires DistinctNames(newOrder)
    ensures forall k, i | 0 <= k < |rows| && 0 <= i < |newOrder|
      && rows[k].group == cab && rows[k].who.user == newOrder[i] :: Reordered(rows, cab, newOrder)[k].order == i + 1
    ensures forall k | 0 <= k < |rows| && (rows[k].group != cab || rows[k].who.user !in newOrder) ::
      Reordered(rows, cab, newOrder)[k] == rows[k]
    ensures forall k | 0 <= k < |rows| ::
      Reordered(rows, cab, newOrder)[k].who == rows[k].who && Reordered(rows, cab, newOrder)[k].group == rows[k].group
  {
    forall k, i | 0 <= k < |rows| && 0 <= i < |newOrder| && rows[k].group == cab && rows[k].who.user == newOrder[i]
      ensures Reordered(rows, cab, newOrder)[k].order == i + 1
    {
      var j := LastIndex(newOrder, newOrder[i]);
    }
  }

  // ---------------------------------------------------------------------------------------------
  // Capacity status

  /** The status shown for a cab of `count` passengers. */
  function CapacityStatus(count: nat): string {
    if count <= 6 then "OK" else "Overcrowded"
  }

  /** A cab is "OK" exactly when it fits in one cab of the pipeline's capacity. */
  lemma CapacityStatusMeansFits(count: nat)
    ensures CapacityStatus(count) == "OK" <==> count <= MaxPeoplePerCab
    ensures CapacityStatus(count) != "OK" <==> CapacityStatus(count) == "Overcrowded"
  {
  }

  /** Every cab of a fresh allocation from the corrected split shows "OK". */
  lemma AllocatedCabsAreOK(df: seq<Participant>, out: seq<Row>, dist: DistanceMatrix.Distance, g: int)
    requires Allocated(df, out, dist)
    ensures CapacityStatus(|InGroup(out, g)|) == "OK"
  {
    assert Sequenced(df, out, dist);
    assert WithinCapacity(out);
  }

  /** With the split as written, fourteen riders at two places more than 4000 m apart leave the
      sequenced table with twelve passengers in cab 2, which shows "Overcrowded". */
  lemma AsWrittenCabOvercrowded(a: Point, b: Point, dist: DistanceMatrix.Distance, out: seq<Row>)
    requires dist(a, a) == 0.0 && dist(b, b) == 0.0
    requires dist(a, b) > DistanceThresholdMeters && dist(b, a) > DistanceThresholdMeters
    requires ClusteredAsWritten(TwoPlaces(a, b), out, dist)
    ensures CapacityStatus(|InGroup(out, 2)|) == "Overcrowded"
  {
    AsWrittenTwelveInOneCab(a, b, dist, out);
  }

  /** `rows` is `before` with the cabs `gs` renumbered. */
  ghost predicate RenumberedFor(before: seq<Row>, rows: seq<Row>, gs: seq<int>) {
    SameCabs(rows, before)
    && forall k {:trigger rows[k]} | 0 <= k < |rows| ::
      rows[k] == if before[k].group in gs then before[k].(order := Rank(before, k)) else before[k]
  }

  /** `next` is `rows` with cab `g` renumbered. */
  ghost predicate RenumberedCab(rows: seq<Row>, next: seq<Row>, g: int) {
    |next| == |rows|
    && forall k {:trigger next[k]} | 0 <= k < |rows| ::
      next[k] == if rows[k].group == g then rows[k].(order := Rank(rows, k)) else rows[k]
  }

  /** `rows` is `before` with the rows of cab `g` above position `idx` renumbered. */
  ghost predicate RenumberedBelow(before: seq<Row>, rows: seq<Row>, g: int, idx: int) {
    |rows| == |before|
    && forall k {:trigger rows[k]} | 0 <= k < |rows| ::
      rows[k] == if before[k].group == g && k < idx then before[k].(order := Rank(before, k)) else before[k]
  }

  lemma RenumberStep(before: seq<Row>, rows: seq<Row>, g: int, idx: int, i: int)
    requires 0 <= idx < |before| && RenumberedBelow(before, rows, g, idx)
    requires i == |InGroup(before[..idx], g)|
    ensures rows[idx] == before[idx]
    ensures |InGroup(before[..idx + 1], g)| == if before[idx].group == g then i + 1 else i
    ensures before[idx].group == g ==> RenumberedBelow(before, rows[idx := rows[idx].(order := i + 1)], g, idx + 1)
    ensures before[idx].group != g ==> RenumberedBelow(before, rows, g, idx + 1)
  {
    CountOneMore(before, idx, g);
    if before[idx].group == g {
      var next := rows[idx := rows[idx].(order := i + 1)];
      forall k | 0 <= k < |next|
        ensures next[k] == if before[k].group == g && k < idx + 1 then before[k].(order := Rank(before, k)) else before[k]
      {
        if k != idx {
          assert next[k] == rows[k];
        }
      }
    }
  }

  lemma RenumberedWholeCab(before: seq<Row>, rows: seq<Row>, g: int)
    requires RenumberedBelow(before, rows, g, |before|)
    ensures RenumberedCab(before, rows, g)
  {
  }

  /** Counting the rows of cab `g` one row further down the table. */
  lemma CountOneMore(rows: seq<Row>, idx: int, g: int)
    requires 0 <= idx < |rows|
    ensures |InGroup(rows[..idx + 1], g)| == |InGroup(rows[..idx], g)| + if rows[idx].group == g then 1 else 0
  {
    assert rows[..idx + 1] == rows[..idx] + [rows[idx]];
    InGroupAppend(rows[..idx], [rows[idx]], g);
  }

  lemma RenumberOneMore(before: seq<Row>, current: seq<Row>, next: seq<Row>, gs: seq<int>, gi: int)
    requires 0 <= gi < |gs|
    requires RenumberedFor(before, current, gs[..gi]) && RenumberedCab(current, next, gs[gi])
    ensures RenumberedFor(before, next, gs[..gi + 1])
  {
    assert gs[..gi + 1] == gs[..gi] + [gs[gi]];
    forall k | 0 <= k < |current| ensures Rank(current, k) == Rank(before, k) {
      SameCabsSameRank(current, before, k);
    }
  }

  lemma RenumberedForAll(before: seq<Row>, rows: seq<Row>, gs: seq<int>)
    requires gs == Unique(Groups(before)) && RenumberedFor(before, rows, gs[..|gs|])
    ensures rows == Renumbered(before)
  {
    assert gs[..|gs|] == gs;
    UniqueIsSet(Groups(before));
    forall k | 0 <= k < |rows| ensures before[k].group in gs {
      assert Groups(before)[k] == before[k].group;
    }
  }

  // ---------------------------------------------------------------------------------------------
  // The session table

  /** `st.session_state.modified_allocation`. */
  class AllocationSession {
    var rows: seq<Row>

    /** A copy of the freshly computed allocation. */
    constructor(table: seq<Row>)
      ensures rows == table
    {
      rows := table;
    }

    /** `update_pickup_orders`: for each cab label in first-appearance order, the rows of the cab
        in table order are numbered 1, 2, .... */
    method UpdatePickupOrders()
      modifies this
      ensures rows == Renumbered(old(rows))
    {
      ghost var before := rows;
      var cabGroups := Unique(Groups(rows));
      for gi := 0 to |cabGroups|
        invariant RenumberedFor(before, rows, cabGroups[..gi])
      {
        ghost var current := rows;
        RenumberCab(cabGroups[gi]);
        RenumberOneMore(before, current, rows, cabGroups, gi);
      }
      RenumberedForAll(before, rows, cabGroups);
    }

    /** The inner loop for one cab: `for i, idx in enumerate(cab_data.index)`. */
    method RenumberCab(g: int)
      modifies this
      ensures RenumberedCab(old(rows), rows, g)
    {
      ghost var before := rows;
      var i := 0;
      for idx := 0 to |rows|
        invariant RenumberedBelow(before, rows, g, idx)
        invariant i == |InGroup(before[..idx], g)|
      {
        RenumberStep(before, rows, g, idx, i);
        if rows[idx].group == g {
          rows := rows[idx := rows[idx].(order := i + 1)];
          i := i + 1;
        }
      }
      RenumberedWholeCab(before, rows, g);
    }

    /** "Add Participant": both fields must be filled and the area known to the database; the new
        row goes at the end of the table, after the cab's largest pickup order, and no other row
        changes. */
    method AddParticipant(newUser: string, newArea: string, newCab: int, lookup: string -> Option<Point>)
      returns (outcome: AddOutcome)
      modifies this
      ensures outcome == MissingFields <==> newUser == [] || newArea == []
      ensures outcome == AreaNotFound <==> newUser != [] && newArea != [] && lookup(newArea).None?
      ensures outcome == Added ==>
        rows == old(rows) + [Row(Participant(newUser, newArea, lookup(newArea).value), newCab, NextPickupOrder(old(rows), newCab))]
      ensures outcome != Added ==> rows == old(rows)
    {
      if newUser == [] || newArea == [] {
        return MissingFields;
      }
      var locationData := lookup(newArea);
      if locationData.None? {
        return AreaNotFound;
      }
      var cabRows := InGroup(rows, newCab);
      var maxPickupOrder := if cabRows == [] then 0 else MaxOrder(cabRows);
      rows := rows + [Row(Participant(newUser, newArea, locationData.value), newCab, maxPickupOrder + 1)];
      outcome := Added;
    }

    /** "Move": row `idx` goes to cab `newCab`, then the table is renumbered. The button only
        appears when the target differs from the row's cab. */
    method MovePassenger(idx: int, newCab: int)
      modifies this
      requires 0 <= idx < |rows|
      ensures old(rows)[idx].group == newCab ==> rows == old(rows)
      ensures old(rows)[idx].group != newCab ==>
        rows == Renumbered(old(rows)[idx := old(rows)[idx].(group := newCab)]) && OrdersOneToK(rows)
    {
      if rows[idx].group != newCab {
        rows := rows[idx := rows[idx].(group := newCab)];
        UpdatePickupOrders();
        RenumberedOrders(old(rows)[idx := old(rows)[idx].(group := newCab)]);
      }
    }

    /** "Remove" (after confirmation): row `idx` is dropped, then the table is renumbered. */
    method RemovePassenger(idx: int)
      modifies this
      requires 0 <= idx < |rows|
      ensures rows == Renumbered(old(rows)[..idx] + old(rows)[idx + 1..])
      ensures |rows| == |old(rows)| - 1 && OrdersOneToK(rows)
    {
      rows := rows[..idx] + rows[idx + 1..];
      UpdatePickupOrders();
      RenumberedOrders(old(rows)[..idx] + old(rows)[idx + 1..]);
    }

    /** "Apply New Order" for cab `cab`: offered for a cab of two or more passengers, and only when
        the selection is as long as the cab's passenger list and differs from it; then each listed user's rows in the cab take the user's position
        plus one. */
    method ApplyReorder(cab: int, newOrder: seq<string>) returns (applied: bool)
      modifies this
      ensures var cabPassengers := Users(Participants(InGroup(old(rows), cab)));
        applied <==> |cabPassengers| > 1 && |newOrder| == |cabPassengers| && newOrder != cabPassengers
      ensures applied ==> rows == Reordered(old(rows), cab, newOrder)
      ensures !applied ==> rows == old(rows)
    {
      var cabPassengers := Users(Participants(InGroup(rows, cab)));
      if !(|cabPassengers| > 1 && |newOrder| == |cabPassengers| && newOrder != cabPassengers) {
        return false;
      }
      ghost var before := rows;
      for i := 0 to |newOrder|
        invariant rows == Reordered(before, cab, newOrder[..i])
      {
        ghost var current := rows;
        SetOrderOfUser(cab, newOrder[i], i + 1);
        ReorderOneMore(before, current, rows, cab, newOrder, i);
      }
      assert newOrder[..|newOrder|] == newOrder;
      applied := true;
    }

    /** `modified_allocation.loc[mask, 'Pickup Order'] = i + 1` for the rows of `cab` whose user
        is `user`. */
    method SetOrderOfUser(cab: int, user: string, order: int)
      modifies this
      ensures |rows| == |old(rows)|
      ensures forall k | 0 <= k < |rows| ::
        rows[k] == if old(rows)[k].group == cab && old(rows)[k].who.user == user then old(rows)[k].(order := order) else old(rows)[k]
    {
      ghost var before := rows;
      for k := 0 to |rows|
        invariant |rows| == |before|
        invariant forall j | 0 <= j < |rows| ::
          rows[j] == if j < k && before[j].group == cab && before[j].who.user == user then before[j].(order := order) else before[j]
      {
        if rows[k].group == cab && rows[k].who.user == user {
          rows := rows[k := rows[k].(order := order)];
        }
      }
    }
  }
}
