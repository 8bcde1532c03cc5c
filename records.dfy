/** Values shared by the allocation pipeline (cab_logic.py) and the allocation table editor (app.py),
    with the table queries both of them use: the rows of one cab, the distinct cab labels in
    first-appearance order, and the concatenation of per-cab blocks. */
module Records {

  datatype Option<T> = None | Some(value: T)

  /** A coordinate in degrees: the `Latitude` and `Longitude` columns. */
  datatype Point = Point(lat: real, lon: real)

  /** A participant with coordinates: the `User`, `Area`, `Latitude` and `Longitude` columns. */
  datatype Participant = Participant(user: string, area: string, loc: Point)

  /** One row of an allocation table: a participant, its `Cab Group` and its `Pickup Order`.
      Before pickup sequencing the table has no `Pickup Order` column; such rows carry 0. */
  datatype Row = Row(who: Participant, group: int, order: int)

  /** The rows of cab `g` in table order: `df[df['Cab Group'] == g]`. */
  function InGroup(rows: seq<Row>, g: int): (r: seq<Row>)
    ensures |r| <= |rows|
  {
    if rows == [] then []
    else if rows[0].group == g then [rows[0]] + InGroup(rows[1..], g)
    else InGroup(rows[1..], g)
  }

  /** The rows of cab `g` are exactly the rows of the table labelled `g`. */
  lemma {:induction false} InGroupMembers(rows: seq<Row>, g: int)
    ensures forall x | x in InGroup(rows, g) :: x in rows && x.group == g
    ensures forall x | x in rows && x.group == g :: x in InGroup(rows, g)
  {
    if rows != [] {
      InGroupMembers(rows[1..], g);
      assert forall x | x in rows :: x == rows[0] || x in rows[1..];
    }
  }

  /** The `Cab Group` column. */
  function Groups(rows: seq<Row>): (r: seq<int>)
    ensures |r| == |rows| && forall k | 0 <= k < |rows| :: r[k] == rows[k].group
  {
    seq(|rows|, k requires 0 <= k < |rows| => rows[k].group)
  }

  /** The participants of a table, in row order. */
  function Participants(rows: seq<Row>): (r: seq<Participant>)
    ensures |r| == |rows| && forall k | 0 <= k < |rows| :: r[k] == rows[k].who
  {
    seq(|rows|, k requires 0 <= k < |rows| => rows[k].who)
  }

  /** The `User` column of a list of participants. */
  function Users(ps: seq<Participant>): (r: seq<string>)
    ensures |r| == |ps| && forall k | 0 <= k < |ps| :: r[k] == ps[k].user
  {
    seq(|ps|, k requires 0 <= k < |ps| => ps[k].user)
  }

  /** No two participants carry the same `User` identifier. */
  ghost predicate DistinctUsers(ps: seq<Participant>) {
    forall i, j | 0 <= i < j < |ps| :: ps[i].user != ps[j].user
  }

  ghost predicate Distinct(s: seq<int>) {
    forall i, j | 0 <= i < j < |s| :: s[i] != s[j]
  }

  /** The distinct values of `s` in order of first appearance: pandas `Series.unique()`. */
  function Unique(s: seq<int>): seq<int> {
    if s == [] then []
    else
      var u := Unique(s[..|s| - 1]);
      if s[|s| - 1] in u then u else u + [s[|s| - 1]]
  }

  /** `unique()` lists every value of `s` once and nothing else. */
  lemma {:induction false} UniqueIsSet(s: seq<int>)
    ensures Distinct(Unique(s))
    ensures forall x :: x in Unique(s) <==> x in s
  {
    if s != [] {
      var front := s[..|s| - 1];
      UniqueIsSet(front);
      assert s == front + [s[|s| - 1]];
    }
  }

  /** `df['Cab Group'].max()`; -1 for an empty table, where it is never used. */
  function MaxGroup(rows: seq<Row>): (r: int)
    ensures forall x | x in rows :: x.group <= r
    ensures rows != [] ==> exists x | x in rows :: x.group == r
  {
    if rows == [] then -1
    else if |rows| == 1 then rows[0].group
    else
      var rest := MaxGroup(rows[1..]);
      if rows[0].group >= rest then rows[0].group else rest
  }

  /** `df['Cab Group'].min()`; 0 for an empty table, where it is never used. */
  function MinGroup(rows: seq<Row>): (r: int)
    ensures forall x | x in rows :: r <= x.group
    ensures rows != [] ==> exists x | x in rows :: x.group == r
  {
    if rows == [] then 0
    else if |rows| == 1 then rows[0].group
    else
      var rest := MinGroup(rows[1..]);
      if rows[0].group <= rest then rows[0].group else rest
  }

  /** Every row of a block set to cab `g`: `block['Cab Group'] = g`. */
  function Relabel(block: seq<Row>, g: int): (r: seq<Row>)
    ensures |r| == |block|
    ensures forall k | 0 <= k < |block| :: r[k] == block[k].(group := g)
  {
    seq(|block|, k requires 0 <= k < |block| => block[k].(group := g))
  }

  /** `pd.concat` of a list of blocks. */
  function Flatten(blocks: seq<seq<Row>>): seq<Row> {
    if blocks == [] then [] else blocks[0] + Flatten(blocks[1..])
  }

  /** The clusters named by `gs`, each in table order, one after the other. */
  function Grouped(rows: seq<Row>, gs: seq<int>): seq<Row> {
    if gs == [] then [] else InGroup(rows, gs[0]) + Grouped(rows, gs[1..])
  }

  /** Every block is non-empty and all of its rows carry the block's label. */
  ghost predicate Uniform(blocks: seq<seq<Row>>) {
    forall i | 0 <= i < |blocks| ::
      blocks[i] != [] && forall x | x in blocks[i] :: x.group == blocks[i][0].group
  }

  /** No two blocks carry the same label. */
  ghost predicate DistinctLabels(blocks: seq<seq<Row>>) {
    forall i, j | 0 <= i < j < |blocks| && blocks[i] != [] && blocks[j] != [] ::
      blocks[i][0].group != blocks[j][0].group
  }

  /** Within every cab the `Pickup Order` values are 1, 2, ..., K in table order. */
  ghost predicate OrdersOneToK(rows: seq<Row>) {
    forall g, k | 0 <= k < |InGroup(rows, g)| :: InGroup(rows, g)[k].order == k + 1
  }

  // ---------------------------------------------------------------------------------------------
  // Lemmas about the queries

  lemma {:induction false} InGroupAppend(a: seq<Row>, b: seq<Row>, g: int)
    ensures InGroup(a + b, g) == InGroup(a, g) + InGroup(b, g)
  {
    if a == [] {
      assert a + b == b;
    } else {
      var ab := a + b;
      assert ab[0] == a[0] && ab[1..] == a[1..] + b;
      InGroupAppend(a[1..], b, g);
      if a[0].group == g {
        calc {
          InGroup(ab, g);
          [a[0]] + InGroup(a[1..] + b, g);
          [a[0]] + (InGroup(a[1..], g) + InGroup(b, g));
          ([a[0]] + InGroup(a[1..], g)) + InGroup(b, g);
        }
      }
    }
  }

  /** A label no row carries has no rows. */
  lemma {:induction false} InGroupAbsent(rows: seq<Row>, g: int)
    requires forall x | x in rows :: x.group != g
    ensures InGroup(rows, g) == []
  {
    if rows != [] {
      InGroupAbsent(rows[1..], g);
    }
  }

  lemma {:induction false} InGroupOfUniform(block: seq<Row>, h: int, g: int)
    requires forall x | x in block :: x.group == h
    ensures InGroup(block, g) == if g == h then block else []
  {
    if block != [] {
      InGroupOfUniform(block[1..], h, g);
    }
  }

  /** In a concatenation of uniform blocks with distinct labels, the rows of the label of block
      `i` are exactly block `i`. */
  lemma {:induction false} InGroupFlattenHit(blocks: seq<seq<Row>>, i: int)
    requires Uniform(blocks) && DistinctLabels(blocks) && 0 <= i < |blocks|
    ensures InGroup(Flatten(blocks), blocks[i][0].group) == blocks[i]
  {
    var g := blocks[i][0].group;
    InGroupAppend(blocks[0], Flatten(blocks[1..]), g);
    InGroupOfUniform(blocks[0], blocks[0][0].group, g);
    if i == 0 {
      InGroupFlattenMiss(blocks[1..], g);
    } else {
      InGroupFlattenHit(blocks[1..], i - 1);
    }
  }

  /** The same, for a block known by the label `g` of its rows. */
  lemma InGroupFlattenAt(blocks: seq<seq<Row>>, i: int, g: int)
    requires Uniform(blocks) && DistinctLabels(blocks) && 0 <= i < |blocks|
    requires forall x | x in blocks[i] :: x.group == g
    ensures InGroup(Flatten(blocks), g) == blocks[i]
  {
    assert blocks[i][0] in blocks[i];
    InGroupFlattenHit(blocks, i);
  }

  /** A label that no block carries has no rows in the concatenation. */
  lemma {:induction false} InGroupFlattenMiss(blocks: seq<seq<Row>>, g: int)
    requires Uniform(blocks)
    requires forall i | 0 <= i < |blocks| :: blocks[i][0].group != g
    ensures InGroup(Flatten(blocks), g) == []
  {
    if blocks != [] {
      InGroupAppend(blocks[0], Flatten(blocks[1..]), g);
      InGroupOfUniform(blocks[0], blocks[0][0].group, g);
      InGroupFlattenMiss(blocks[1..], g);
    }
  }

  /** Hence a concatenation of uniform blocks with distinct labels holds at most `cap` rows of any
      one label when every block does. */
  lemma InGroupFlattenBounded(blocks: seq<seq<Row>>, cap: nat, g: int)
    requires Uniform(blocks) && DistinctLabels(blocks)
    requires forall i | 0 <= i < |blocks| :: |blocks[i]| <= cap
    ensures |InGroup(Flatten(blocks), g)| <= cap
  {
    if i :| 0 <= i < |blocks| && blocks[i][0].group == g {
      InGroupFlattenHit(blocks, i);
    } else {
      InGroupFlattenMiss(blocks, g);
    }
  }

  lemma UniformAppend(a: seq<seq<Row>>, b: seq<seq<Row>>)
    requires Uniform(a) && Uniform(b)
    ensures Uniform(a + b)
  {
    forall i | 0 <= i < |a + b| ensures (a + b)[i] != [] && forall x | x in (a + b)[i] :: x.group == (a + b)[i][0].group {
      if i < |a| {
        assert (a + b)[i] == a[i];
      } else {
        assert (a + b)[i] == b[i - |a|];
      }
    }
  }

  /** Blocks with distinct labels on each side, and no label shared across, have distinct
      labels together. */
  lemma DistinctLabelsAppend(a: seq<seq<Row>>, b: seq<seq<Row>>)
    requires DistinctLabels(a) && DistinctLabels(b)
    requires forall i, j | 0 <= i < |a| && 0 <= j < |b| && a[i] != [] && b[j] != [] :: a[i][0].group != b[j][0].group
    ensures DistinctLabels(a + b)
  {
    var ab: seq<seq<Row>> := a + b;
    forall i, j | 0 <= i < j < |ab| && ab[i] != [] && ab[j] != [] ensures ab[i][0].group != ab[j][0].group {
      if j < |a| {
        assert ab[i] == a[i] && ab[j] == a[j];
      } else if i < |a| {
        assert ab[i] == a[i] && ab[j] == b[j - |a|];
      } else {
        assert ab[i] == b[i - |a|] && ab[j] == b[j - |a|];
      }
    }
  }

  lemma ParticipantsAppend(a: seq<Row>, b: seq<Row>)
    ensures Participants(a + b) == Participants(a) + Participants(b)
  {
  }

  lemma MultisetParticipantsAppend(a: seq<Row>, b: seq<Row>)
    ensures multiset(Participants(a + b)) == multiset(Participants(a)) + multiset(Participants(b))
  {
    ParticipantsAppend(a, b);
  }

  /** The participant a row adds to the clusters `gs`: itself when its cluster is listed. */
  function Extra(r: Row, gs: seq<int>): multiset<Participant> {
    if r.group in gs then multiset{r.who} else multiset{}
  }

  lemma {:induction false} GroupedSnoc(rows: seq<Row>, r: Row, gs: seq<int>)
    requires Distinct(gs)
    ensures multiset(Participants(Grouped(rows + [r], gs))) == multiset(Participants(Grouped(rows, gs))) + Extra(r, gs)
  {
    if gs != [] {
      var g, rest := gs[0], gs[1..];
      assert Distinct(rest);
      GroupedSnoc(rows, r, rest);
      CabSnoc(rows, r, g);
      MultisetParticipantsAppend(InGroup(rows + [r], g), Grouped(rows + [r], rest));
      MultisetParticipantsAppend(InGroup(rows, g), Grouped(rows, rest));
      ExtraCons(r, gs);
    }
  }

  /** Appending a row adds it to its own cluster only. */
  lemma CabSnoc(rows: seq<Row>, r: Row, g: int)
    ensures multiset(Participants(InGroup(rows + [r], g))) == multiset(Participants(InGroup(rows, g))) + Extra(r, [g])
  {
    InGroupAppend(rows, [r], g);
    MultisetParticipantsAppend(InGroup(rows, g), InGroup([r], g));
    assert multiset(Participants(InGroup([r], g))) == Extra(r, [g]);
  }

  lemma ExtraCons(r: Row, gs: seq<int>)
    requires gs != [] && Distinct(gs)
    ensures Extra(r, gs) == Extra(r, [gs[0]]) + Extra(r, gs[1..])
  {
    assert r.group == gs[0] ==> r.group !in gs[1..];
    assert r.group in gs <==> r.group == gs[0] || r.group in gs[1..];
  }

  /** Listing the clusters one after the other neither drops nor duplicates a participant, when
      `gs` names every cluster once. */
  lemma {:induction false} GroupedPermutation(rows: seq<Row>, gs: seq<int>)
    requires Distinct(gs)
    requires forall x | x in rows :: x.group in gs
    ensures multiset(Participants(Grouped(rows, gs))) == multiset(Participants(rows))
  {
    if rows == [] {
      GroupedEmpty(gs);
    } else {
      var front, last := rows[..|rows| - 1], rows[|rows| - 1];
      assert rows == front + [last];
      GroupedPermutation(front, gs);
      GroupedSnoc(front, last, gs);
      ParticipantsAppend(front, [last]);
    }
  }

  lemma {:induction false} GroupedEmpty(gs: seq<int>)
    ensures Grouped([], gs) == []
  {
    if gs != [] {
      GroupedEmpty(gs[1..]);
    }
  }

  /** Two tables whose every cab holds the same participants (as multisets) hold the same
      participants overall. */
  lemma SameGroupsSameParticipants(a: seq<Row>, b: seq<Row>)
    requires forall g :: multiset(Participants(InGroup(a, g))) == multiset(Participants(InGroup(b, g)))
    ensures multiset(Participants(a)) == multiset(Participants(b))
  {
    var all := Groups(a) + Groups(b);
    var gs := Unique(all);
    UniqueIsSet(all);
    forall x | x in a ensures x.group in gs {
      var k :| 0 <= k < |a| && a[k] == x;
      assert all[k] == x.group;
    }
    forall x | x in b ensures x.group in gs {
      var k :| 0 <= k < |b| && b[k] == x;
      assert all[|a| + k] == x.group;
    }
    GroupedPermutation(a, gs);
    GroupedPermutation(b, gs);
    GroupedAgree(a, b, gs);
  }

  lemma {:induction false} GroupedAgree(a: seq<Row>, b: seq<Row>, gs: seq<int>)
    requires forall g :: multiset(Participants(InGroup(a, g))) == multiset(Participants(InGroup(b, g)))
    ensures multiset(Participants(Grouped(a, gs))) == multiset(Participants(Grouped(b, gs)))
  {
    if gs != [] {
      ParticipantsAppend(InGroup(a, gs[0]), Grouped(a, gs[1..]));
      ParticipantsAppend(InGroup(b, gs[0]), Grouped(b, gs[1..]));
      GroupedAgree(a, b, gs[1..]);
    }
  }

  /** The rows of one cab are a sub-multiset of the table. */
  lemma {:induction false} InGroupSubMultiset(rows: seq<Row>, g: int)
    ensures multiset(Participants(InGroup(rows, g))) <= multiset(Participants(rows))
  {
    if rows != [] {
      InGroupSubMultiset(rows[1..], g);
      assert rows == [rows[0]] + rows[1..];
      ParticipantsAppend([rows[0]], rows[1..]);
      if rows[0].group == g {
        ParticipantsAppend([rows[0]], InGroup(rows[1..], g));
      }
    }
  }

  /** A sub-multiset of a list with distinct users has distinct users. */
  lemma DistinctUsersSub(a: seq<Participant>, b: seq<Participant>)
    requires multiset(a) <= multiset(b) && DistinctUsers(b)
    ensures DistinctUsers(a)
  {
    forall i, j | 0 <= i < j < |a| ensures a[i].user != a[j].user {
      if a[i] == a[j] {
        TwoPositions(a, i, j);
        assert multiset(b)[a[i]] >= 2;
        var p, q := OccursTwice(b, a[i]);
      } else {
        assert a[i] in multiset(b) && a[j] in multiset(b);
        var p :| 0 <= p < |b| && b[p] == a[i];
        var q :| 0 <= q < |b| && b[q] == a[j];
        assert p != q;
        if p > q {
          assert b[q].user != b[p].user;
        } else {
          assert b[p].user != b[q].user;
        }
      }
    }
  }

  lemma TwoPositions<T>(s: seq<T>, i: int, j: int)
    requires 0 <= i < j < |s| && s[i] == s[j]
    ensures multiset(s)[s[i]] >= 2
  {
    assert s == s[..i] + [s[i]] + s[i + 1..j] + [s[j]] + s[j + 1..];
  }

  lemma {:induction false} OccursTwice(s: seq<Participant>, x: Participant) returns (p: int, q: int)
    requires multiset(s)[x] >= 2
    ensures 0 <= p < q < |s| && s[p] == x && s[q] == x
  {
    assert s == [s[0]] + s[1..];
    if s[0] == x {
      assert multiset(s[1..])[x] >= 1;
      var k :| 0 <= k < |s[1..]| && s[1..][k] == x;
      p, q := 0, k + 1;
    } else {
      var p', q' := OccursTwice(s[1..], x);
      p, q := p' + 1, q' + 1;
    }
  }
}
