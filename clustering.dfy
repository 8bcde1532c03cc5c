/** Step 3 of `run_cab_allocation` (cab_logic.py): `DBSCAN(eps=4000, min_samples=1,
    metric='precomputed')`. With `min_samples=1` every point is a core point, so the clusters are
    the connected components of the graph whose edges join points at distance at most `eps`; there
    is no noise label. The model computes them by a depth-first flood fill from each unlabelled
    point in index order, so labels are dense from 0 in order of first appearance. */
module Clustering {
  import opened DistanceMatrix

  /** j lies in the eps-neighbourhood of i. */
  predicate Near(m: Matrix, eps: real, i: int, j: int) {
    0 <= i < |m| && 0 <= j < |m| && j < |m[i]| && m[i][j] <= eps
  }

  /** A chain of points, each within eps of the next. */
  ghost predicate IsChain(m: Matrix, eps: real, p: seq<int>) {
    |p| > 0
    && (forall k | 0 <= k < |p| :: 0 <= p[k] < |m|)
    && forall k | 0 <= k < |p| - 1 :: Near(m, eps, p[k], p[k + 1])
  }

  /** x and y are joined by a chain of steps each at most eps long. */
  ghost predicate Linked(m: Matrix, eps: real, x: int, y: int) {
    exists p :: IsChain(m, eps, p) && p[0] == x && p[|p| - 1] == y
  }

  /** Every label that is smaller than the label of point j already occurs before j. */
  ghost predicate FirstAppearance(labels: seq<int>) {
    forall j, l | 0 <= j < |labels| && 0 <= l < labels[j] :: l in labels[..j]
  }

  /** The configured meaning of the clustering step: every point gets one label in [0, count),
      every such label is used, labels appear in increasing order, and two points share a label
      exactly when a chain of eps-steps joins them. */
  ghost predicate ComponentLabelling(m: Matrix, eps: real, labels: seq<int>, count: nat) {
    |labels| == |m|
    && (forall i | 0 <= i < |m| :: 0 <= labels[i] < count)
    && (forall l | 0 <= l < count :: l in labels)
    && FirstAppearance(labels)
    && forall i, j | 0 <= i < |m| && 0 <= j < |m| :: labels[i] == labels[j] <==> Linked(m, eps, i, j)
  }

  // ---------------------------------------------------------------------------------------------
  // Chains

  lemma LinkedSelf(m: Matrix, eps: real, x: int)
    requires 0 <= x < |m|
    ensures Linked(m, eps, x, x)
  {
    assert IsChain(m, eps, [x]);
  }

  lemma LinkedExtend(m: Matrix, eps: real, x: int, y: int, z: int)
    requires Linked(m, eps, x, y) && Near(m, eps, y, z)
    ensures Linked(m, eps, x, z)
  {
    var p :| IsChain(m, eps, p) && p[0] == x && p[|p| - 1] == y;
    var q := p + [z];
    forall k | 0 <= k < |q| - 1 ensures Near(m, eps, q[k], q[k + 1]) {
      assert q[k] == p[k];
    }
    assert IsChain(m, eps, q);
  }

  function Reverse(p: seq<int>): (r: seq<int>)
    ensures |r| == |p| && forall k | 0 <= k < |p| :: r[k] == p[|p| - 1 - k]
  {
    seq(|p|, k requires 0 <= k < |p| => p[|p| - 1 - k])
  }

  lemma LinkedSymmetric(m: Matrix, eps: real, x: int, y: int)
    requires Symmetric(m) && Linked(m, eps, x, y)
    ensures Linked(m, eps, y, x)
  {
    var p :| IsChain(m, eps, p) && p[0] == x && p[|p| - 1] == y;
    var q := Reverse(p);
    forall k | 0 <= k < |q| - 1 ensures Near(m, eps, q[k], q[k + 1]) {
      var a := |p| - 2 - k;
      assert Near(m, eps, p[a], p[a + 1]);
      assert q[k] == p[a + 1] && q[k + 1] == p[a];
    }
    assert IsChain(m, eps, q);
  }

  lemma LinkedTransitive(m: Matrix, eps: real, x: int, y: int, z: int)
    requires Linked(m, eps, x, y) && Linked(m, eps, y, z)
    ensures Linked(m, eps, x, z)
  {
    var p :| IsChain(m, eps, p) && p[0] == x && p[|p| - 1] == y;
    var q :| IsChain(m, eps, q) && q[0] == y && q[|q| - 1] == z;
    var r := p + q[1..];
    forall k | 0 <= k < |r| - 1 ensures Near(m, eps, r[k], r[k + 1]) {
      if k < |p| - 1 {
        assert r[k] == p[k] && r[k + 1] == p[k + 1];
      } else {
        var a := k - (|p| - 1);
        assert r[k] == q[a] && r[k + 1] == q[a + 1];
      }
    }
    assert IsChain(m, eps, r);
  }

  /** No step of a chain leaves a label that is closed under eps-steps. */
  lemma {:induction false} ChainKeepsLabel(m: Matrix, eps: real, labels: seq<int>, p: seq<int>)
    requires |labels| == |m| && IsChain(m, eps, p)
    requires forall a, b | Near(m, eps, a, b) :: labels[a] == labels[b]
    ensures labels[p[0]] == labels[p[|p| - 1]]
  {
    if |p| > 1 {
      var front := p[..|p| - 1];
      assert IsChain(m, eps, front);
      ChainKeepsLabel(m, eps, labels, front);
      assert Near(m, eps, p[|p| - 2], p[|p| - 1]);
    }
  }

  // ---------------------------------------------------------------------------------------------
  // The flood fill

  /** The count of points not yet labelled (-1). */
  function Unlabelled(labels: seq<int>): nat {
    if labels == [] then 0 else (if labels[0] == -1 then 1 else 0) + Unlabelled(labels[1..])
  }

  lemma {:induction false} UnlabelledDrops(labels: seq<int>, v: int, c: int)
    requires 0 <= v < |labels| && labels[v] == -1 && c != -1
    ensures Unlabelled(labels[v := c]) < Unlabelled(labels)
  {
    if v > 0 {
      assert labels[v := c][1..] == labels[1..][v - 1 := c];
      UnlabelledDrops(labels[1..], v - 1, c);
    }
  }

  /** The state between two seeds: labels 0..count-1 are finished components, each with the seed
      it was grown from; every other point is unlabelled (-1). */
  ghost predicate Partial(m: Matrix, eps: real, labels: seq<int>, count: nat, seeds: seq<int>) {
    |labels| == |m| && |seeds| == count
    && (forall k | 0 <= k < |m| :: -1 <= labels[k] < count)
    && (forall l | 0 <= l < count :: 0 <= seeds[l] < |m| && labels[seeds[l]] == l)
    && (forall l, l' | 0 <= l < l' < count :: seeds[l] < seeds[l'])
    && (forall k | 0 <= k < |m| && labels[k] >= 0 :: seeds[labels[k]] <= k && Linked(m, eps, seeds[labels[k]], k))
    && forall a, b | Near(m, eps, a, b) && labels[a] >= 0 :: labels[b] == labels[a]
  }

  /** The state of the depth-first search from seed `s` with label `c`: only points unlabelled
      before it get label `c`, every one of them and every stacked point is chained to the seed,
      and every neighbour of a point labelled `c` is labelled `c` too or still on the stack. */
  ghost predicate Searching(m: Matrix, eps: real, labels0: seq<int>, labels: seq<int>, c: nat, s: int, stack: seq<int>) {
    |labels| == |labels0| == |m| && 0 <= s < |m|
    && (forall k | 0 <= k < |m| :: labels0[k] >= -1)
    && (forall k | 0 <= k < |m| && labels0[k] >= 0 :: labels[k] == labels0[k])
    && (forall k | 0 <= k < |m| && labels0[k] == -1 :: labels[k] == -1 || labels[k] == c)
    && (forall x | x in stack :: 0 <= x < |m| && labels0[x] == -1 && Linked(m, eps, s, x))
    && (forall k | 0 <= k < |m| && labels[k] == c :: Linked(m, eps, s, k))
    && (labels[s] == -1 ==> s in stack)
    && forall a, b | Near(m, eps, a, b) && labels[a] == c :: labels[b] == c || b in stack
  }

  /** `Searching`, while the neighbours of the point `v` just labelled are pushed, up to `j`. */
  ghost predicate Pushing(m: Matrix, eps: real, labels0: seq<int>, labels: seq<int>, c: nat, s: int, stack: seq<int>, v: int, j: int) {
    |labels| == |labels0| == |m| && 0 <= s < |m| && 0 <= v < |m| && labels[v] == c && labels0[v] == -1
    && (forall k | 0 <= k < |m| :: labels0[k] >= -1)
    && (forall k | 0 <= k < |m| && labels0[k] >= 0 :: labels[k] == labels0[k])
    && (forall k | 0 <= k < |m| && labels0[k] == -1 :: labels[k] == -1 || labels[k] == c)
    && (forall x | x in stack :: 0 <= x < |m| && labels0[x] == -1 && Linked(m, eps, s, x))
    && (forall k | 0 <= k < |m| && labels[k] == c :: Linked(m, eps, s, k))
    && (labels[s] == -1 ==> s in stack)
    && (forall a, b | Near(m, eps, a, b) && labels[a] == c && a != v :: labels[b] == c || b in stack)
    && forall b | 0 <= b < j && Near(m, eps, v, b) :: labels[b] == c || b in stack
  }

  lemma PopLabelled(m: Matrix, eps: real, labels0: seq<int>, labels: seq<int>, c: nat, s: int, rest: seq<int>, v: int)
    requires Searching(m, eps, labels0, labels, c, s, rest + [v])
    requires 0 <= v < |m| && labels[v] != -1
    ensures Searching(m, eps, labels0, labels, c, s, rest)
  {
    assert v in rest + [v];
    assert forall x | x in rest :: x in rest + [v];
  }

  lemma PopUnlabelled(m: Matrix, eps: real, labels0: seq<int>, labels: seq<int>, c: nat, s: int, rest: seq<int>, v: int)
    requires Searching(m, eps, labels0, labels, c, s, rest + [v])
    requires 0 <= v < |m| && labels[v] == -1
    ensures Pushing(m, eps, labels0, labels[v := c], c, s, rest, v, 0)
  {
    assert v in rest + [v];
    assert forall x | x in rest :: x in rest + [v];
  }

  lemma PushNeighbour(m: Matrix, eps: real, labels0: seq<int>, labels: seq<int>, c: nat, s: int, stack: seq<int>, v: int, j: int)
    requires Pushing(m, eps, labels0, labels, c, s, stack, v, j)
    requires Near(m, eps, v, j) && labels[j] == -1
    ensures Pushing(m, eps, labels0, labels, c, s, stack + [j], v, j + 1)
  {
    LinkedExtend(m, eps, s, v, j);
    assert forall x | x in stack :: x in stack + [j];
    assert j in stack + [j];
  }

  lemma PushSkip(m: Matrix, eps: real, labels0: seq<int>, labels: seq<int>, c: nat, s: int, stack: seq<int>, v: int, j: int, seeds: seq<int>)
    requires Symmetric(m) && Partial(m, eps, labels0, c, seeds)
    requires Pushing(m, eps, labels0, labels, c, s, stack, v, j) && 0 <= j
    requires !(Near(m, eps, v, j) && labels[j] == -1)
    ensures Pushing(m, eps, labels0, labels, c, s, stack, v, j + 1)
  {
    if Near(m, eps, v, j) {
      NeighbourOfFresh(m, eps, labels0, labels, c, v, j, seeds);
    }
  }

  /** A labelled neighbour of a point that was unlabelled before the search was labelled by the
      search itself: a neighbour labelled earlier would have pulled the point into its component. */
  lemma NeighbourOfFresh(m: Matrix, eps: real, labels0: seq<int>, labels: seq<int>, c: nat, v: int, j: int, seeds: seq<int>)
    requires Symmetric(m) && Partial(m, eps, labels0, c, seeds) && |labels| == |m|
    requires 0 <= v < |m| && labels0[v] == -1 && Near(m, eps, v, j) && labels[j] != -1
    requires labels0[j] == -1 ==> labels[j] == -1 || labels[j] == c
    requires labels0[j] >= 0 ==> labels[j] == labels0[j]
    ensures labels[j] == c
  {
    assert Near(m, eps, j, v);
  }

  lemma PushingDone(m: Matrix, eps: real, labels0: seq<int>, labels: seq<int>, c: nat, s: int, stack: seq<int>, v: int)
    requires Pushing(m, eps, labels0, labels, c, s, stack, v, |m|)
    ensures Searching(m, eps, labels0, labels, c, s, stack)
  {
  }

  /** Labels every point joined to the seed `s` by a chain with the next label `c`: the inner
      depth-first search that DBSCAN runs from each unlabelled core point. */
  method Flood(m: Matrix, eps: real, labels0: seq<int>, c: nat, ghost seeds: seq<int>, s: int)
    returns (labels: seq<int>)
    requires Symmetric(m) && Partial(m, eps, labels0, c, seeds)
    requires 0 <= s < |m| && labels0[s] == -1
    requires forall k | 0 <= k < s :: labels0[k] >= 0
    requires forall l | 0 <= l < c :: seeds[l] < s
    ensures Partial(m, eps, labels, c + 1, seeds + [s])
    ensures labels[s] == c
    ensures forall k | 0 <= k < |m| && labels0[k] >= 0 :: labels[k] == labels0[k]
  {
    labels := labels0;
    var stack := [s];
    LinkedSelf(m, eps, s);
    while stack != []
      invariant Searching(m, eps, labels0, labels, c, s, stack)
      decreases Unlabelled(labels), |stack|
    {
      var top := |stack| - 1;
      var v := stack[top];
      assert v in stack && stack == stack[..top] + [v];
      if labels[v] != -1 {
        PopLabelled(m, eps, labels0, labels, c, s, stack[..top], v);
        stack := stack[..top];
      } else {
        PopUnlabelled(m, eps, labels0, labels, c, s, stack[..top], v);
        UnlabelledDrops(labels, v, c);
        labels := labels[v := c];
        stack := stack[..top];
        for j := 0 to |m|
          invariant Pushing(m, eps, labels0, labels, c, s, stack, v, j)
        {
          if Near(m, eps, v, j) && labels[j] == -1 {
            PushNeighbour(m, eps, labels0, labels, c, s, stack, v, j);
            stack := stack + [j];
          } else {
            PushSkip(m, eps, labels0, labels, c, s, stack, v, j, seeds);
          }
        }
        PushingDone(m, eps, labels0, labels, c, s, stack, v);
      }
    }
    FloodDone(m, eps, labels0, labels, c, seeds, s);
  }

  lemma FloodDone(m: Matrix, eps: real, labels0: seq<int>, labels: seq<int>, c: nat, seeds: seq<int>, s: int)
    requires Partial(m, eps, labels0, c, seeds)
    requires 0 <= s < |m| && labels0[s] == -1
    requires forall k | 0 <= k < s :: labels0[k] >= 0
    requires forall l | 0 <= l < c :: seeds[l] < s
    requires |labels| == |m| && labels[s] == c
    requires forall k | 0 <= k < |m| && labels0[k] >= 0 :: labels[k] == labels0[k]
    requires forall k | 0 <= k < |m| && labels0[k] == -1 :: labels[k] == -1 || labels[k] == c
    requires forall k | 0 <= k < |m| && labels[k] == c :: Linked(m, eps, s, k)
    requires forall a, b | Near(m, eps, a, b) && labels[a] == c :: labels[b] == c
    ensures Partial(m, eps, labels, c + 1, seeds + [s])
  {
    var seeds' := seeds + [s];
    forall k | 0 <= k < |m| && labels[k] >= 0
      ensures seeds'[labels[k]] <= k && Linked(m, eps, seeds'[labels[k]], k)
    {
      if labels0[k] == -1 {
        assert labels[k] == c;
      }
    }
    forall a, b | Near(m, eps, a, b) && labels[a] >= 0 ensures labels[b] == labels[a] {
      if labels[a] != c {
        assert labels0[a] >= 0;
      }
    }
  }

  /** DBSCAN with `min_samples=1` on a symmetric distance matrix: the connected components of
      the graph "distance <= eps", labelled from 0 in order of first appearance. */
  method LabelComponents(m: Matrix, eps: real) returns (labels: seq<int>, count: nat)
    requires Symmetric(m)
    ensures ComponentLabelling(m, eps, labels, count)
  {
    labels := seq(|m|, _ => -1);
    count := 0;
    ghost var seeds: seq<int> := [];
    for i := 0 to |m|
      invariant Partial(m, eps, labels, count, seeds)
      invariant forall k | 0 <= k < i :: labels[k] >= 0
      invariant forall l | 0 <= l < count :: seeds[l] < i
    {
      if labels[i] == -1 {
        labels := Flood(m, eps, labels, count, seeds, i);
        seeds := seeds + [i];
        count := count + 1;
      }
    }
    PartialComplete(m, eps, labels, count, seeds);
  }

  /** Once every point is labelled, the partial labelling is the component labelling. */
  lemma PartialComplete(m: Matrix, eps: real, labels: seq<int>, count: nat, seeds: seq<int>)
    requires Symmetric(m) && Partial(m, eps, labels, count, seeds)
    requires forall k | 0 <= k < |m| :: labels[k] >= 0
    ensures ComponentLabelling(m, eps, labels, count)
  {
    forall l | 0 <= l < count ensures l in labels {
      assert labels[seeds[l]] == l;
    }
    forall j, l | 0 <= j < |labels| && 0 <= l < labels[j] ensures l in labels[..j] {
      assert seeds[l] < seeds[labels[j]] <= j;
      assert labels[..j][seeds[l]] == l;
    }
    forall i, j | 0 <= i < |m| && 0 <= j < |m| ensures labels[i] == labels[j] <==> Linked(m, eps, i, j) {
      if labels[i] == labels[j] {
        var r := seeds[labels[i]];
        LinkedSymmetric(m, eps, r, i);
        LinkedTransitive(m, eps, i, r, j);
      }
      if Linked(m, eps, i, j) {
        var p :| IsChain(m, eps, p) && p[0] == i && p[|p| - 1] == j;
        ChainKeepsLabel(m, eps, labels, p);
      }
    }
  }

  // ---------------------------------------------------------------------------------------------
  // Consequences of the component labelling

  /** When every two distinct points are farther apart than eps, every point is its own cluster. */
  lemma SparsePointsAreSingletons(m: Matrix, eps: real, labels: seq<int>, count: nat)
    requires ComponentLabelling(m, eps, labels, count)
    requires forall i, j | 0 <= i < |m| && 0 <= j < |m| && i != j :: !Near(m, eps, i, j)
    ensures forall i, j | 0 <= i < j < |m| :: labels[i] != labels[j]
  {
    forall i, j | 0 <= i < j < |m| ensures labels[i] != labels[j] {
      if labels[i] == labels[j] {
        var p :| IsChain(m, eps, p) && p[0] == i && p[|p| - 1] == j;
        ChainStaysPut(m, eps, p);
      }
    }
  }

  lemma {:induction false} ChainStaysPut(m: Matrix, eps: real, p: seq<int>)
    requires IsChain(m, eps, p)
    requires forall i, j | 0 <= i < |m| && 0 <= j < |m| && i != j :: !Near(m, eps, i, j)
    ensures p[0] == p[|p| - 1]
  {
    if |p| > 1 {
      var front := p[..|p| - 1];
      assert IsChain(m, eps, front);
      ChainStaysPut(m, eps, front);
      assert Near(m, eps, p[|p| - 2], p[|p| - 1]);
    }
  }

  /** When all points are joined by chains, there is exactly one cluster, labelled 0. */
  lemma ConnectedPointsFormOneCluster(m: Matrix, eps: real, labels: seq<int>, count: nat)
    requires ComponentLabelling(m, eps, labels, count) && |m| > 0
    requires forall i, j | 0 <= i < |m| && 0 <= j < |m| :: Linked(m, eps, i, j)
    ensures count == 1 && forall i | 0 <= i < |m| :: labels[i] == 0
  {
    forall i | 0 <= i < |m| ensures labels[i] == labels[0] {
      assert Linked(m, eps, i, 0);
    }
    assert 0 <= labels[0] < count;
    assert 0 in labels;
    var first :| 0 <= first < |labels| && labels[first] == 0;
    assert count - 1 in labels;
    var last :| 0 <= last < |labels| && labels[last] == count - 1;
  }
}
