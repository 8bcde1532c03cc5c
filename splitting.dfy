/** Step 4 of `run_cab_allocation` (cab_logic.py): clusters larger than the cab capacity are cut
    into consecutive slices of at most `cap` rows, each with a new cab label.

    As written, every oversized cluster numbers its slices from `max_existing_group + 1`, where
    `max_existing_group` is read from the unsplit labels, so two oversized clusters reuse the same
    labels (`SplitAsWritten`, `AsWrittenLabelsCollide`). The model used by the pipeline keeps one
    running counter across all oversized clusters (`SplitFrom`, `SplitByCapacity`). */
module Splitting {
  import opened Records

  /** The source's cab capacity, `MAX_PEOPLE_PER_CAB`. */
  const MaxPeoplePerCab: nat := 6

  /** `math.ceil(n / cap)`, counted by repeated subtraction. */
  function NumCabs(n: nat, cap: nat): nat
    requires cap > 0
    decreases n
  {
    if n == 0 then 0 else if n <= cap then 1 else 1 + NumCabs(n - cap, cap)
  }

  /** `NumCabs` is the ceiling of n / cap: the least count of cabs of `cap` seats for n people. */
  lemma {:induction false} NumCabsIsCeiling(n: nat, cap: nat)
    requires cap > 0
    ensures NumCabs(n, cap) * cap >= n
    ensures n > 0 ==> (NumCabs(n, cap) - 1) * cap < n
    decreases n
  {
    if n > cap {
      var r := NumCabs(n - cap, cap);
      NumCabsIsCeiling(n - cap, cap);
      MulStep(r, cap);
      MulStep(r - 1, cap);
    }
  }

  lemma MulStep(j: int, cap: int)
    ensures (j + 1) * cap == j * cap + cap
  {
  }

  function Min(a: int, b: int): int {
    if a <= b then a else b
  }

  /** Slice `i` of an oversized cluster, `group_df.iloc[i * cap : (i + 1) * cap]`, labelled `g`. */
  function Slice(members: seq<Row>, cap: nat, i: nat, g: int): seq<Row>
    requires i * cap <= |members|
  {
    Relabel(members[i * cap .. Min((i + 1) * cap, |members|)], g)
  }

  /** The consecutive slices of `members`, the first labelled `first`, the next `first + 1`, ... */
  function Slices(members: seq<Row>, cap: nat, first: int): seq<seq<Row>>
    requires cap > 0
    decreases |members|
  {
    if members == [] then []
    else
      var k := Min(cap, |members|);
      [Relabel(members[..k], first)] + Slices(members[k..], cap, first + 1)
  }

  /** The pieces of the clusters `gs`, in that order; oversized clusters take their labels from
      one counter that starts at `next`. */
  function SplitFrom(rows: seq<Row>, gs: seq<int>, cap: nat, next: int): seq<seq<Row>>
    requires cap > 0
  {
    if gs == [] then []
    else
      var members := InGroup(rows, gs[0]);
      if |members| <= cap then [members] + SplitFrom(rows, gs[1..], cap, next)
      else Slices(members, cap, next) + SplitFrom(rows, gs[1..], cap, next + NumCabs(|members|, cap))
  }

  /** The pieces of step 4 for the table `rows`: its clusters in `unique()` order, new labels
      counted from one above the largest label. */
  function CapacitySplit(rows: seq<Row>, cap: nat): seq<seq<Row>>
    requires cap > 0
  {
    SplitFrom(rows, Unique(Groups(rows)), cap, MaxGroup(rows) + 1)
  }

  /** The pieces as the source computes them: every oversized cluster numbers its slices from
      `top + 1`, `top` being the largest label before splitting. */
  function SplitAsWritten(rows: seq<Row>, gs: seq<int>, cap: nat, top: int): (r: seq<seq<Row>>)
    requires cap > 0
    ensures Participants(Flatten(r)) == Participants(Grouped(rows, gs))
  {
    if gs == [] then []
    else
      var members := InGroup(rows, gs[0]);
      var front: seq<seq<Row>> := if |members| <= cap then [members] else Slices(members, cap, top + 1);
      var back := SplitAsWritten(rows, gs[1..], cap, top);
      FlattenAppend(front, back);
      ParticipantsAppend(Flatten(front), Flatten(back));
      ParticipantsAppend(members, Grouped(rows, gs[1..]));
      SlicesShape(members, cap, top + 1);
      assert Flatten([members]) == members + [];
      front + back
  }

  /** The as-written pieces of the table `rows`: its clusters in `unique()` order, every
      oversized one sliced from one above the largest label. */
  function CapacitySplitAsWritten(rows: seq<Row>, cap: nat): seq<seq<Row>>
    requires cap > 0
  {
    SplitAsWritten(rows, Unique(Groups(rows)), cap, MaxGroup(rows))
  }

  // ---------------------------------------------------------------------------------------------
  // Slices

  /** There are `ceil(n / cap)` slices. */
  lemma {:induction false} SlicesCount(members: seq<Row>, cap: nat, first: int)
    requires cap > 0
    ensures |Slices(members, cap, first)| == NumCabs(|members|, cap)
    decreases |members|
  {
    if members != [] {
      var k := Min(cap, |members|);
      SlicesCount(members[k..], cap, first + 1);
    }
  }

  /** The slices are consecutive blocks: slice i is rows i*cap .. (i+1)*cap - 1, labelled
      `first + i`. */
  lemma {:induction false} SlicesAreIndexed(members: seq<Row>, cap: nat, first: int, i: nat)
    requires cap > 0 && i < NumCabs(|members|, cap)
    ensures i * cap <= |members|
    ensures |Slices(members, cap, first)| == NumCabs(|members|, cap)
    ensures Slices(members, cap, first)[i] == Slice(members, cap, i, first + i)
    decreases i
  {
    SlicesCount(members, cap, first);
    var n := |members|;
    var k := Min(cap, n);
    var rest := members[k..];
    var all := Slices(members, cap, first);
    assert all == [Relabel(members[..k], first)] + Slices(rest, cap, first + 1);
    if i == 0 {
      assert all[0] == Slice(members, cap, 0, first);
    } else {
      assert k == cap && NumCabs(n, cap) == 1 + NumCabs(n - cap, cap);
      var j := i - 1;
      SlicesAreIndexed(rest, cap, first + 1, j);
      assert all[i] == Slices(rest, cap, first + 1)[j];
      SliceOfRest(members, cap, j, first + i);
    }
  }

  /** Slice j + 1 of a cluster is slice j of what follows its first slice. */
  lemma SliceOfRest(members: seq<Row>, cap: nat, j: nat, g: int)
    requires 0 < cap < |members| && j * cap <= |members| - cap
    ensures (j + 1) * cap <= |members|
    ensures Slice(members, cap, j + 1, g) == Slice(members[cap..], cap, j, g)
  {
    var n := |members|;
    var a := j * cap;
    MulStep(j, cap);
    MulStep(j + 1, cap);
    assert (j + 1) * cap == a + cap && (j + 2) * cap == a + cap + cap;
    var rest := members[cap..];
    assert members[a + cap .. Min(a + cap + cap, n)] == rest[a .. Min(a + cap, n - cap)];
  }

  /** Each slice is non-empty, holds at most `cap` rows and carries its own label; the slices
      together are the cluster, in its row order. */
  lemma {:induction false} SlicesShape(members: seq<Row>, cap: nat, first: int)
    requires cap > 0
    ensures Participants(Flatten(Slices(members, cap, first))) == Participants(members)
    ensures forall i | 0 <= i < |Slices(members, cap, first)| ::
      var p := Slices(members, cap, first)[i];
      p != [] && |p| <= cap && forall x | x in p :: x.group == first + i
    decreases |members|
  {
    if members != [] {
      var k := Min(cap, |members|);
      var head := Relabel(members[..k], first);
      SlicesShape(members[k..], cap, first + 1);
      ParticipantsAppend(head, Flatten(Slices(members[k..], cap, first + 1)));
      assert members == members[..k] + members[k..];
      ParticipantsAppend(members[..k], members[k..]);
      assert Participants(head) == Participants(members[..k]);
    }
  }

  // ---------------------------------------------------------------------------------------------
  // The corrected split

  /** Every piece is non-empty, within capacity, and all of its rows carry one label. */
  lemma {:induction false} SplitFromUniform(rows: seq<Row>, gs: seq<int>, cap: nat, next: int)
    requires cap > 0
    requires forall g | g in gs :: InGroup(rows, g) != []
    ensures Uniform(SplitFrom(rows, gs, cap, next))
    ensures forall i | 0 <= i < |SplitFrom(rows, gs, cap, next)| :: |SplitFrom(rows, gs, cap, next)[i]| <= cap
  {
    if gs != [] {
      var members := InGroup(rows, gs[0]);
      var next' := if |members| <= cap then next else next + NumCabs(|members|, cap);
      var front: seq<seq<Row>> := if |members| <= cap then [members] else Slices(members, cap, next);
      var back := SplitFrom(rows, gs[1..], cap, next');
      assert SplitFrom(rows, gs, cap, next) == front + back;
      SplitFromUniform(rows, gs[1..], cap, next');
      InGroupMembers(rows, gs[0]);
      ClusterPiecesUniform(members, gs[0], cap, next);
      UniformAppend(front, back);
      BoundedAppend(front, back, cap);
    }
  }

  /** The pieces of one non-empty cluster are non-empty, uniform and within capacity. */
  lemma ClusterPiecesUniform(members: seq<Row>, g: int, cap: nat, next: int)
    requires cap > 0 && members != [] && forall x | x in members :: x.group == g
    ensures var front: seq<seq<Row>> := if |members| <= cap then [members] else Slices(members, cap, next);
      Uniform(front) && forall i | 0 <= i < |front| :: |front[i]| <= cap
  {
    if |members| <= cap {
      assert members[0] in members;
    } else {
      var front: seq<seq<Row>> := Slices(members, cap, next);
      SlicesShape(members, cap, next);
      forall i | 0 <= i < |front| ensures front[i][0].group == next + i {
        assert front[i][0] in front[i];
      }
    }
  }

  lemma BoundedAppend(a: seq<seq<Row>>, b: seq<seq<Row>>, cap: nat)
    requires forall i | 0 <= i < |a| :: |a[i]| <= cap
    requires forall i | 0 <= i < |b| :: |b[i]| <= cap
    ensures forall i | 0 <= i < |a + b| :: |(a + b)[i]| <= cap
  {
    forall i | 0 <= i < |a + b| ensures |(a + b)[i]| <= cap {
      if i >= |a| {
        assert (a + b)[i] == b[i - |a|];
      }
    }
  }

  /** A piece carries either the label of a cluster of `gs` or a label from the counter, at
      least `next`. */
  lemma {:induction false} SplitFromLabels(rows: seq<Row>, gs: seq<int>, cap: nat, next: int)
    requires cap > 0
    requires forall g | g in gs :: InGroup(rows, g) != []
    ensures forall i | 0 <= i < |SplitFrom(rows, gs, cap, next)| && SplitFrom(rows, gs, cap, next)[i] != [] ::
      SplitFrom(rows, gs, cap, next)[i][0].group in gs || SplitFrom(rows, gs, cap, next)[i][0].group >= next
  {
    if gs != [] {
      InGroupMembers(rows, gs[0]);
      var members := InGroup(rows, gs[0]);
      var n := NumCabs(|members|, cap);
      var next' := if |members| <= cap then next else next + n;
      var front: seq<seq<Row>> := if |members| <= cap then [members] else Slices(members, cap, next);
      var back := SplitFrom(rows, gs[1..], cap, next');
      SplitFromLabels(rows, gs[1..], cap, next');
      assert SplitFrom(rows, gs, cap, next) == front + back;
      if |members| <= cap {
        assert members[0] in members;
      } else {
        SlicesShape(members, cap, next);
        forall i | 0 <= i < |front| ensures front[i][0].group == next + i {
          assert front[i][0] in front[i];
        }
      }
    }
  }

  /** Distinct clusters, all labelled below `next`, give pieces with pairwise distinct labels. */
  lemma {:induction false} SplitFromDistinct(rows: seq<Row>, gs: seq<int>, cap: nat, next: int)
    requires cap > 0 && Distinct(gs)
    requires forall g | g in gs :: InGroup(rows, g) != [] && g < next
    ensures DistinctLabels(SplitFrom(rows, gs, cap, next))
  {
    if gs != [] {
      var tail := gs[1..];
      assert Distinct(tail);
      assert forall g | g in tail :: g in gs;
      var n := |InGroup(rows, gs[0])|;
      var next' := if n <= cap then next else next + NumCabs(n, cap);
      SplitFromDistinct(rows, tail, cap, next');
      SplitFromLabels(rows, tail, cap, next');
      if n <= cap {
        SmallClusterThenPieces(rows, gs, cap, next);
      } else {
        SplitFromOversized(rows, gs, cap, next);
        SlicesThenPieces(InGroup(rows, gs[0]), cap, next, SplitFrom(rows, tail, cap, next'), tail);
      }
    }
  }

  lemma SmallClusterThenPieces(rows: seq<Row>, gs: seq<int>, cap: nat, next: int)
    requires cap > 0 && gs != [] && Distinct(gs)
    requires InGroup(rows, gs[0]) != [] && |InGroup(rows, gs[0])| <= cap && gs[0] < next
    requires forall g | g in gs[1..] :: g < next
    requires DistinctLabels(SplitFrom(rows, gs[1..], cap, next))
    requires forall j | 0 <= j < |SplitFrom(rows, gs[1..], cap, next)| && SplitFrom(rows, gs[1..], cap, next)[j] != [] ::
      SplitFrom(rows, gs[1..], cap, next)[j][0].group in gs[1..] || SplitFrom(rows, gs[1..], cap, next)[j][0].group >= next
    ensures DistinctLabels(SplitFrom(rows, gs, cap, next))
  {
    InGroupMembers(rows, gs[0]);
    var members := InGroup(rows, gs[0]);
    assert gs[0] !in gs[1..];
    assert SplitFrom(rows, gs, cap, next) == [members] + SplitFrom(rows, gs[1..], cap, next);
    ClusterThenPieces(members, gs[0], SplitFrom(rows, gs[1..], cap, next), gs[1..], next);
  }

  lemma SplitFromSmall(rows: seq<Row>, gs: seq<int>, cap: nat, next: int)
    requires cap > 0 && gs != [] && |InGroup(rows, gs[0])| <= cap
    ensures SplitFrom(rows, gs, cap, next) == [InGroup(rows, gs[0])] + SplitFrom(rows, gs[1..], cap, next)
  {
  }

  lemma SplitFromOversized(rows: seq<Row>, gs: seq<int>, cap: nat, next: int)
    requires cap > 0 && gs != [] && |InGroup(rows, gs[0])| > cap
    ensures SplitFrom(rows, gs, cap, next)
         == Slices(InGroup(rows, gs[0]), cap, next) + SplitFrom(rows, gs[1..], cap, next + NumCabs(|InGroup(rows, gs[0])|, cap))
  {
  }

  lemma ClusterThenPieces(members: seq<Row>, g: int, back: seq<seq<Row>>, tail: seq<int>, next: int)
    requires members != [] && forall x | x in members :: x.group == g
    requires g !in tail && g < next && DistinctLabels(back)
    requires forall j | 0 <= j < |back| && back[j] != [] :: back[j][0].group in tail || back[j][0].group >= next
    ensures DistinctLabels([members] + back)
  {
    assert members[0] in members;
    DistinctLabelsAppend([members], back);
  }

  lemma SlicesThenPieces(members: seq<Row>, cap: nat, next: int, back: seq<seq<Row>>, tail: seq<int>)
    requires cap > 0 && DistinctLabels(back)
    requires forall g | g in tail :: g < next
    requires forall j | 0 <= j < |back| && back[j] != [] ::
      back[j][0].group in tail || back[j][0].group >= next + NumCabs(|members|, cap)
    ensures DistinctLabels(Slices(members, cap, next) + back)
  {
    var front: seq<seq<Row>> := Slices(members, cap, next);
    SlicesShape(members, cap, next);
    SlicesCount(members, cap, next);
    forall i | 0 <= i < |front| ensures front[i][0].group == next + i {
      assert front[i][0] in front[i];
    }
    DistinctLabelsAppend(front, back);
  }

  /** The pieces together list the clusters one after the other, each in its row order. */
  lemma {:induction false} SplitFromKeepsOrder(rows: seq<Row>, gs: seq<int>, cap: nat, next: int)
    requires cap > 0
    ensures Participants(Flatten(SplitFrom(rows, gs, cap, next))) == Participants(Grouped(rows, gs))
  {
    if gs != [] {
      var members := InGroup(rows, gs[0]);
      var n := NumCabs(|members|, cap);
      var next' := if |members| <= cap then next else next + n;
      var front: seq<seq<Row>> := if |members| <= cap then [members] else Slices(members, cap, next);
      var back := SplitFrom(rows, gs[1..], cap, next');
      SplitFromKeepsOrder(rows, gs[1..], cap, next');
      FlattenAppend(front, back);
      ParticipantsAppend(Flatten(front), Flatten(back));
      ParticipantsAppend(members, Grouped(rows, gs[1..]));
      if |members| <= cap {
        assert Flatten(front) == members + [];
      } else {
        SlicesShape(members, cap, next);
      }
    }
  }

  lemma {:induction false} FlattenAppend(a: seq<seq<Row>>, b: seq<seq<Row>>)
    ensures Flatten(a + b) == Flatten(a) + Flatten(b)
  {
    if a == [] {
      assert a + b == b;
    } else {
      var ab := a + b;
      assert ab[0] == a[0] && ab[1..] == a[1..] + b;
      FlattenAppend(a[1..], b);
      calc {
        Flatten(ab);
        a[0] + Flatten(a[1..] + b);
        a[0] + (Flatten(a[1..]) + Flatten(b));
        (a[0] + Flatten(a[1..])) + Flatten(b);
      }
    }
  }

  /** A cluster that fits a cab keeps its label and its rows. */
  lemma {:induction false} SmallClusterKept(rows: seq<Row>, cap: nat, g: int)
    requires cap > 0 && InGroup(rows, g) != [] && |InGroup(rows, g)| <= cap
    ensures InGroup(Flatten(CapacitySplit(rows, cap)), g) == InGroup(rows, g)
  {
    ClustersOfRows(rows);
    SmallClusterKeptFrom(rows, Unique(Groups(rows)), cap, MaxGroup(rows) + 1, g);
  }

  lemma {:induction false} SmallClusterKeptFrom(rows: seq<Row>, gs: seq<int>, cap: nat, next: int, g: int)
    requires cap > 0 && ListsClusters(rows, gs, next)
    requires InGroup(rows, g) != [] && |InGroup(rows, g)| <= cap
    ensures InGroup(Flatten(SplitFrom(rows, gs, cap, next)), g) == InGroup(rows, g)
  {
    var pieces := SplitFrom(rows, gs, cap, next);
    InGroupMembers(rows, g);
    assert g in gs by {
      assert InGroup(rows, g)[0] in InGroup(rows, g);
    }
    var k :| 0 <= k < |gs| && gs[k] == g;
    var i := SmallClusterPiece(rows, gs, cap, next, k);
    assert Uniform(pieces) && DistinctLabels(pieces) by {
      SplitFromUniform(rows, gs, cap, next);
      SplitFromDistinct(rows, gs, cap, next);
    }
    InGroupFlattenAt(pieces, i, g);
  }

  /** `piece` is piece `i` of `pieces`. */
  ghost predicate PieceAt(pieces: seq<seq<Row>>, i: int, piece: seq<Row>) {
    0 <= i < |pieces| && pieces[i] == piece
  }

  /** The cluster `gs[k]`, when it fits a cab, is one piece of the split. */
  lemma {:induction false} SmallClusterPiece(rows: seq<Row>, gs: seq<int>, cap: nat, next: int, k: nat) returns (i: int)
    requires cap > 0 && k < |gs| && |InGroup(rows, gs[k])| <= cap
    ensures PieceAt(SplitFrom(rows, gs, cap, next), i, InGroup(rows, gs[k]))
  {
    var members := InGroup(rows, gs[0]);
    if k == 0 {
      SplitFromSmall(rows, gs, cap, next);
      i := 0;
    } else {
      var next' := if |members| <= cap then next else next + NumCabs(|members|, cap);
      var j := SmallClusterPiece(rows, gs[1..], cap, next', k - 1);
      i := PieceBehindFirst(rows, gs, cap, next, k, j);
    }
  }

  /** A piece of the split of the clusters after the first is a piece of the whole split. */
  lemma PieceBehindFirst(rows: seq<Row>, gs: seq<int>, cap: nat, next: int, k: nat, j: int) returns (i: int)
    requires cap > 0 && 0 < k < |gs|
    requires PieceAt(SplitFrom(rows, gs[1..], cap,
      if |InGroup(rows, gs[0])| <= cap then next else next + NumCabs(|InGroup(rows, gs[0])|, cap)),
      j, InGroup(rows, gs[1..][k - 1]))
    ensures PieceAt(SplitFrom(rows, gs, cap, next), i, InGroup(rows, gs[k]))
  {
    var members := InGroup(rows, gs[0]);
    assert gs[1..][k - 1] == gs[k];
    if |members| <= cap {
      SplitFromSmall(rows, gs, cap, next);
      PieceBehind([members], SplitFrom(rows, gs[1..], cap, next), j, InGroup(rows, gs[k]));
      i := j + 1;
    } else {
      var n := NumCabs(|members|, cap);
      SlicesCount(members, cap, next);
      SplitFromOversized(rows, gs, cap, next);
      PieceBehind(Slices(members, cap, next), SplitFrom(rows, gs[1..], cap, next + n), j, InGroup(rows, gs[k]));
      i := j + n;
    }
  }

  lemma PieceBehind(front: seq<seq<Row>>, back: seq<seq<Row>>, j: int, piece: seq<Row>)
    requires PieceAt(back, j, piece)
    ensures PieceAt(front + back, j + |front|, piece)
  {
  }

  /** `gs` names every cluster of the table once, each with rows, all labelled below `next`. */
  ghost predicate ListsClusters(rows: seq<Row>, gs: seq<int>, next: int) {
    Distinct(gs)
    && (forall g | g in gs :: InGroup(rows, g) != [] && g < next)
    && forall x | x in rows :: x.group in gs
  }

  /** The cluster labels of a table, `df['Cab Group'].unique()`, name its non-empty clusters,
      each once, all below `MaxGroup + 1`, and every row's cluster. */
  lemma ClustersOfRows(rows: seq<Row>)
    ensures ListsClusters(rows, Unique(Groups(rows)), MaxGroup(rows) + 1)
  {
    UniqueIsSet(Groups(rows));
    forall g | g in Unique(Groups(rows)) ensures InGroup(rows, g) != [] && g < MaxGroup(rows) + 1 {
      var k :| 0 <= k < |rows| && Groups(rows)[k] == g;
      assert rows[k] in rows;
      InGroupMembers(rows, g);
    }
    forall x | x in rows ensures x.group in Unique(Groups(rows)) {
      var k :| 0 <= k < |rows| && rows[k] == x;
      assert Groups(rows)[k] == x.group;
    }
  }

  /** `out` holds the participants of `rows`, none dropped or duplicated, in cabs of at most `cap`
      rows. */
  ghost predicate BoundedRegrouping(rows: seq<Row>, out: seq<Row>, cap: nat) {
    multiset(Participants(out)) == multiset(Participants(rows))
    && forall g :: |InGroup(out, g)| <= cap
  }

  /** Splitting neither drops nor duplicates anyone, and no cab of the result holds more than
      `cap` rows. */
  lemma {:induction false} SplitIsCapacityBoundedPermutation(rows: seq<Row>, cap: nat)
    requires cap > 0
    ensures BoundedRegrouping(rows, Flatten(CapacitySplit(rows, cap)), cap)
  {
    ClustersOfRows(rows);
    SplitFromIsCapacityBoundedPermutation(rows, Unique(Groups(rows)), cap, MaxGroup(rows) + 1);
  }

  lemma {:induction false} SplitFromIsCapacityBoundedPermutation(rows: seq<Row>, gs: seq<int>, cap: nat, next: int)
    requires cap > 0 && ListsClusters(rows, gs, next)
    ensures BoundedRegrouping(rows, Flatten(SplitFrom(rows, gs, cap, next)), cap)
  {
    var pieces := SplitFrom(rows, gs, cap, next);
    assert multiset(Participants(Flatten(pieces))) == multiset(Participants(rows)) by {
      SplitFromKeepsOrder(rows, gs, cap, next);
      GroupedPermutation(rows, gs);
    }
    assert Uniform(pieces) && DistinctLabels(pieces) by {
      SplitFromUniform(rows, gs, cap, next);
      SplitFromDistinct(rows, gs, cap, next);
    }
    SplitFromUniform(rows, gs, cap, next);
    forall g ensures |InGroup(Flatten(pieces), g)| <= cap {
      InGroupFlattenBounded(pieces, cap, g);
    }
  }

  /** Every cab of the split holds participants of one cluster of the table only. */
  lemma CabWithinOneCluster(rows: seq<Row>, cap: nat, g: int) returns (h: int)
    requires cap > 0
    ensures forall z | z in InGroup(Flatten(CapacitySplit(rows, cap)), g) :: z.who in Participants(InGroup(rows, h))
  {
    var gs: seq<int>, next: int := Unique(Groups(rows)), MaxGroup(rows) + 1;
    var pieces: seq<seq<Row>> := SplitFrom(rows, gs, cap, next);
    ClustersOfRows(rows);
    SplitFromUniform(rows, gs, cap, next);
    SplitFromDistinct(rows, gs, cap, next);
    if i :| 0 <= i < |pieces| && pieces[i][0].group == g {
      InGroupFlattenHit(pieces, i);
      h := PieceOrigin(rows, gs, cap, next, i);
    } else {
      InGroupFlattenMiss(pieces, g);
      h := g;
    }
  }

  /** Every row of piece `i` is a participant of one cluster `h`. */
  lemma {:induction false} PieceOrigin(rows: seq<Row>, gs: seq<int>, cap: nat, next: int, i: int) returns (h: int)
    requires cap > 0 && 0 <= i < |SplitFrom(rows, gs, cap, next)|
    ensures forall z | z in SplitFrom(rows, gs, cap, next)[i] :: z.who in Participants(InGroup(rows, h))
    decreases |gs|
  {
    var members := InGroup(rows, gs[0]);
    var next' := if |members| <= cap then next else next + NumCabs(|members|, cap);
    var front: seq<seq<Row>> := if |members| <= cap then [members] else Slices(members, cap, next);
    var back := SplitFrom(rows, gs[1..], cap, next');
    assert SplitFrom(rows, gs, cap, next) == front + back;
    if i < |front| {
      h := gs[0];
      assert SplitFrom(rows, gs, cap, next)[i] == front[i];
      if |members| <= cap {
        forall z | z in members ensures z.who in Participants(members) {
          var k :| 0 <= k < |members| && members[k] == z;
        }
      } else {
        SliceOrigin(members, cap, next, i);
      }
    } else {
      assert SplitFrom(rows, gs, cap, next)[i] == back[i - |front|];
      h := PieceOrigin(rows, gs[1..], cap, next', i - |front|);
    }
  }

  /** Every row of slice `i` of a cluster is one of the cluster's participants. */
  lemma SliceOrigin(members: seq<Row>, cap: nat, first: int, i: int)
    requires cap > 0 && 0 <= i < |Slices(members, cap, first)|
    ensures forall z | z in Slices(members, cap, first)[i] :: z.who in Participants(members)
  {
    SlicesCount(members, cap, first);
    SlicesAreIndexed(members, cap, first, i);
    var lo := i * cap;
    var piece := members[lo .. Min((i + 1) * cap, |members|)];
    var slice := Slices(members, cap, first)[i];
    assert slice == Relabel(piece, first + i);
    forall z | z in slice ensures z.who in Participants(members) {
      var k :| 0 <= k < |slice| && slice[k] == z;
      assert z.who == piece[k].who == members[lo + k].who;
    }
  }

  // ---------------------------------------------------------------------------------------------
  // The split as written

  /** Two clusters of seven rows, labelled 0 and 1, at the source's capacity of six: as written,
      both clusters' first slices are labelled 2, so cab 2 receives the first six rows of each,
      twelve passengers, all different people when the table's users are distinct. */
  lemma AsWrittenLabelsCollide(a: seq<Row>, b: seq<Row>)
    requires |a| == 7 && |b| == 7
    requires forall x | x in a :: x.group == 0
    requires forall x | x in b :: x.group == 1
    ensures var cab := InGroup(Flatten(CapacitySplitAsWritten(a + b, MaxPeoplePerCab)), 2);
      cab == Relabel(a[..6], 2) + Relabel(b[..6], 2) && |cab| == 12 > MaxPeoplePerCab
      && (DistinctUsers(Participants(a + b)) ==> DistinctUsers(Participants(cab)))
  {
    TwoClustersOfSeven(a, b);
    BothSplitFromTwo(a + b, a, b);
    SevenIntoSixAndOne(a, 2);
    SevenIntoSixAndOne(b, 2);
    SixAndOneTwice(Slices(a, 6, 2), Slices(b, 6, 2));
    if DistinctUsers(Participants(a + b)) {
      FirstSixOfEach(a, b);
    }
  }

  /** The first six rows of each of two runs of seven are twelve different users when the
      fourteen are. */
  lemma FirstSixOfEach(a: seq<Row>, b: seq<Row>)
    requires |a| == 7 && |b| == 7 && DistinctUsers(Participants(a + b))
    ensures DistinctUsers(Participants(Relabel(a[..6], 2) + Relabel(b[..6], 2)))
  {
    var ps := Participants(Relabel(a[..6], 2) + Relabel(b[..6], 2));
    var all := Participants(a + b);
    forall i | 0 <= i < 12 ensures ps[i] == all[if i < 6 then i else i + 1] {
      if i < 6 {
        assert (Relabel(a[..6], 2) + Relabel(b[..6], 2))[i] == a[i].(group := 2);
      } else {
        assert (Relabel(a[..6], 2) + Relabel(b[..6], 2))[i] == b[i - 6].(group := 2);
      }
    }
    forall i, j | 0 <= i < j < 12 ensures ps[i].user != ps[j].user {
      var p, q := if i < 6 then i else i + 1, if j < 6 then j else j + 1;
      assert all[p].user != all[q].user;
    }
  }

  /** As written, clusters 0 and 1 of seven rows each are both sliced from label 2. */
  lemma BothSplitFromTwo(rows: seq<Row>, a: seq<Row>, b: seq<Row>)
    requires |a| == 7 && |b| == 7
    requires InGroup(rows, 0) == a && InGroup(rows, 1) == b
    ensures SplitAsWritten(rows, [0, 1], 6, 1) == Slices(a, 6, 2) + Slices(b, 6, 2)
  {
    assert [0, 1][1..] == [1] && [1][1..] == [];
    SplitAsWrittenOversized(rows, [0, 1], 6, 1);
    SplitAsWrittenOversized(rows, [1], 6, 1);
    assert SplitAsWritten(rows, [], 6, 1) == [];
  }

  /** Two slicings of seven, each into six rows labelled 2 and one labelled 3, put both sixes
      into cab 2. */
  lemma SixAndOneTwice(sa: seq<seq<Row>>, sb: seq<seq<Row>>)
    requires |sa| == 2 && |sa[0]| == 6 && |sa[1]| == 1
    requires (forall x | x in sa[0] :: x.group == 2) && forall x | x in sa[1] :: x.group == 3
    requires |sb| == 2 && |sb[0]| == 6 && |sb[1]| == 1
    requires (forall x | x in sb[0] :: x.group == 2) && forall x | x in sb[1] :: x.group == 3
    ensures InGroup(Flatten(sa + sb), 2) == sa[0] + sb[0]
  {
    TwoBlocksEach(sa);
    TwoBlocksEach(sb);
    FlattenAppend(sa, sb);
    InGroupAppend(sa[0] + sa[1], sb[0] + sb[1], 2);
    InGroupAppend(sa[0], sa[1], 2);
    InGroupAppend(sb[0], sb[1], 2);
    InGroupOfUniform(sa[0], 2, 2);
    InGroupOfUniform(sa[1], 3, 2);
    InGroupOfUniform(sb[0], 2, 2);
    InGroupOfUniform(sb[1], 3, 2);
  }

  lemma TwoBlocksEach(s: seq<seq<Row>>)
    requires |s| == 2
    ensures Flatten(s) == s[0] + s[1]
  {
    assert s[1..][1..] == [];
    assert Flatten(s[1..]) == s[1] + [];
  }

  lemma SplitAsWrittenOversized(rows: seq<Row>, gs: seq<int>, cap: nat, top: int)
    requires cap > 0 && gs != [] && |InGroup(rows, gs[0])| > cap
    ensures SplitAsWritten(rows, gs, cap, top)
         == Slices(InGroup(rows, gs[0]), cap, top + 1) + SplitAsWritten(rows, gs[1..], cap, top)
  {
  }

  /** The table of `AsWrittenLabelsCollide`: clusters 0 and 1, seven rows each. */
  lemma TwoClustersOfSeven(a: seq<Row>, b: seq<Row>)
    requires |a| == 7 && |b| == 7
    requires forall x | x in a :: x.group == 0
    requires forall x | x in b :: x.group == 1
    ensures Unique(Groups(a + b)) == [0, 1] && MaxGroup(a + b) == 1
    ensures InGroup(a + b, 0) == a && InGroup(a + b, 1) == b
  {
    var rows := a + b;
    assert Groups(rows) == seq(7, _ => 0) + seq(7, _ => 1) by {
      forall k | 0 <= k < 14 ensures Groups(rows)[k] == (seq(7, _ => 0) + seq(7, _ => 1))[k] {
        assert rows[k] == if k < 7 then a[k] else b[k - 7];
        assert rows[k] in a || rows[k] in b;
      }
    }
    UniqueOfTwoRuns(0, 1, 7, 7);
    assert rows[0] in rows && rows[7] in rows;
    assert rows[0] == a[0] && rows[7] == b[0] && a[0] in a && b[0] in b;
    InGroupAppend(a, b, 0);
    InGroupAppend(a, b, 1);
    InGroupOfUniform(a, 0, 0);
    InGroupOfUniform(b, 1, 0);
    InGroupOfUniform(a, 0, 1);
    InGroupOfUniform(b, 1, 1);
  }

  /** Seven rows at capacity six: a slice of six labelled `first` and one of one labelled
      `first + 1`. */
  lemma SevenIntoSixAndOne(members: seq<Row>, first: int)
    requires |members| == 7
    ensures var s := Slices(members, 6, first);
      |s| == 2 && s[0] == Relabel(members[..6], first) && |s[1]| == 1
      && (forall x | x in s[0] :: x.group == first) && forall x | x in s[1] :: x.group == first + 1
  {
    var rest := members[6..];
    assert Slices(members, 6, first) == [Relabel(members[..6], first)] + Slices(rest, 6, first + 1);
    assert rest[..1] == rest && rest[1..] == [];
    assert Slices(rest, 6, first + 1) == [Relabel(rest, first + 1)] + Slices(rest[1..], 6, first + 2);
  }

  /** The labels of a run of `m` rows of cab `x` followed by `k` rows of cab `y`. */
  lemma {:induction false} UniqueOfTwoRuns(x: int, y: int, m: nat, k: nat)
    requires x != y && m > 0
    ensures Unique(seq(m, _ => x) + seq(k, _ => y)) == if k == 0 then [x] else [x, y]
    decreases k
  {
    var s := seq(m, _ => x) + seq(k, _ => y);
    if k == 0 {
      assert s == seq(m, _ => x);
      UniqueOfRun(x, m);
    } else {
      UniqueOfTwoRuns(x, y, m, k - 1);
      assert s[..|s| - 1] == seq(m, _ => x) + seq(k - 1, _ => y);
      assert s[|s| - 1] == y;
    }
  }

  lemma {:induction false} UniqueOfRun(x: int, m: nat)
    requires m > 0
    ensures Unique(seq(m, _ => x)) == [x]
  {
    if m > 1 {
      UniqueOfRun(x, m - 1);
      assert seq(m, _ => x)[..m - 1] == seq(m - 1, _ => x);
    }
  }

  // ---------------------------------------------------------------------------------------------
  // The split as a loop

  /** The loop of step 4 with one running counter for new labels: for each cluster in
      `unique()` order, a cluster that fits keeps its label; an oversized one is cut into
      `ceil(n / cap)` slices labelled from the counter. The pieces are `final_allocations`. */
  method SplitByCapacity(rows: seq<Row>, cap: nat) returns (pieces: seq<seq<Row>>)
    requires cap > 0
    ensures pieces == CapacitySplit(rows, cap)
  {
    pieces := SplitClusters(rows, Unique(Groups(rows)), cap, MaxGroup(rows) + 1);
  }

  /** The loop itself, over the clusters `gs`, with the counter starting at `next`. */
  method SplitClusters(rows: seq<Row>, gs: seq<int>, cap: nat, next: int) returns (pieces: seq<seq<Row>>)
    requires cap > 0
    ensures pieces == SplitFrom(rows, gs, cap, next)
  {
    var counter := next;
    pieces := [];
    assert gs[0..] == gs;
    for gi := 0 to |gs|
      invariant SplitSoFar(rows, gs, cap, next, gi, counter, pieces)
    {
      var members := InGroup(rows, gs[gi]);
      SplitStep(rows, gs, cap, next, gi, counter, pieces);
      if |members| <= cap {
        pieces := pieces + [members];
      } else {
        var slices := CutIntoCabs(members, cap, counter);
        pieces := pieces + slices;
        counter := counter + NumCabs(|members|, cap);
      }
    }
    assert gs[|gs|..] == [];
  }

  /** The pieces of the clusters before `gi`, followed by the split of the rest from `counter`,
      are the whole split. */
  ghost predicate SplitSoFar(rows: seq<Row>, gs: seq<int>, cap: nat, next: int, gi: int, counter: int, pieces: seq<seq<Row>>)
    requires cap > 0
  {
    0 <= gi <= |gs| && pieces + SplitFrom(rows, gs[gi..], cap, counter) == SplitFrom(rows, gs, cap, next)
  }

  lemma SplitStep(rows: seq<Row>, gs: seq<int>, cap: nat, next: int, gi: int, counter: int, pieces: seq<seq<Row>>)
    requires cap > 0 && 0 <= gi < |gs| && SplitSoFar(rows, gs, cap, next, gi, counter, pieces)
    ensures var members := InGroup(rows, gs[gi]);
      if |members| <= cap then SplitSoFar(rows, gs, cap, next, gi + 1, counter, pieces + [members])
      else SplitSoFar(rows, gs, cap, next, gi + 1, counter + NumCabs(|members|, cap), pieces + Slices(members, cap, counter))
  {
    var members := InGroup(rows, gs[gi]);
    var n := NumCabs(|members|, cap);
    var front: seq<seq<Row>> := if |members| <= cap then [members] else Slices(members, cap, counter);
    var counter' := if |members| <= cap then counter else counter + n;
    SplitFromFront(rows, gs, cap, gi, counter);
    MoveFront(pieces, front, SplitFrom(rows, gs[gi..], cap, counter), SplitFrom(rows, gs[gi + 1..], cap, counter'),
      SplitFrom(rows, gs, cap, next));
  }

  lemma MoveFront(done: seq<seq<Row>>, front: seq<seq<Row>>, rest: seq<seq<Row>>, after: seq<seq<Row>>, whole: seq<seq<Row>>)
    requires done + rest == whole && rest == front + after
    ensures (done + front) + after == whole
  {
    AppendAssoc(done, front, after);
  }

  /** The split of the clusters from `gi` on is the pieces of cluster `gi` followed by the split of
      the rest. */
  lemma SplitFromFront(rows: seq<Row>, gs: seq<int>, cap: nat, gi: int, counter: int)
    requires cap > 0 && 0 <= gi < |gs|
    ensures var members := InGroup(rows, gs[gi]);
      SplitFrom(rows, gs[gi..], cap, counter)
      == if |members| <= cap then [members] + SplitFrom(rows, gs[gi + 1..], cap, counter)
         else Slices(members, cap, counter) + SplitFrom(rows, gs[gi + 1..], cap, counter + NumCabs(|members|, cap))
  {
    assert gs[gi..][1..] == gs[gi + 1..];
    assert gs[gi..][0] == gs[gi];
  }

  lemma AppendAssoc(a: seq<seq<Row>>, b: seq<seq<Row>>, c: seq<seq<Row>>)
    ensures (a + b) + c == a + (b + c)
  {
  }

  /** The inner loop over `range(num_cabs)`: slice i of the cluster, labelled from the counter. */
  method CutIntoCabs(members: seq<Row>, cap: nat, first: int) returns (slices: seq<seq<Row>>)
    requires cap > 0
    ensures slices == Slices(members, cap, first)
  {
    var numCabs := NumCabs(|members|, cap);
    SlicesCount(members, cap, first);
    slices := [];
    for i := 0 to numCabs
      invariant slices == Slices(members, cap, first)[..i]
    {
      SlicesAreIndexed(members, cap, first, i);
      slices := slices + [Slice(members, cap, i, first + i)];
    }
  }
}
