/** Step 2 of `run_cab_allocation` (cab_logic.py): the N x N matrix of pairwise distances.
    The great-circle distance itself is a parameter `dist`; only its symmetry and its zero
    diagonal matter to the rest of the pipeline. */
module DistanceMatrix {
  import opened Records

  type Matrix = seq<seq<real>>

  /** A distance function on coordinates, in meters (geopy `great_circle(a, b).meters`). */
  type Distance = (Point, Point) -> real

  ghost predicate IsSquare(m: Matrix) {
    forall i | 0 <= i < |m| :: |m[i]| == |m|
  }

  ghost predicate Symmetric(m: Matrix) {
    IsSquare(m) && forall i, j | 0 <= i < |m| && 0 <= j < |m| :: m[i][j] == m[j][i]
  }

  ghost predicate SymmetricDistance(dist: Distance) {
    forall a, b :: dist(a, b) == dist(b, a)
  }

  ghost predicate ZeroToItself(dist: Distance) {
    forall a :: dist(a, a) == 0.0
  }

  /** Entry (i, j) is the distance from location i to location j. */
  ghost predicate IsDistanceMatrix(m: Matrix, locations: seq<Point>, dist: Distance) {
    |m| == |locations|
    && (forall i | 0 <= i < |m| :: |m[i]| == |locations|)
    && forall i, j | 0 <= i < |locations| && 0 <= j < |locations| :: m[i][j] == dist(locations[i], locations[j])
  }

  /** The matrix of a list of locations is determined by the locations and the distance. */
  lemma DistanceMatrixUnique(m: Matrix, n: Matrix, locations: seq<Point>, dist: Distance)
    requires IsDistanceMatrix(m, locations, dist) && IsDistanceMatrix(n, locations, dist)
    ensures m == n
  {
    forall i | 0 <= i < |m| ensures m[i] == n[i] {
      forall j | 0 <= j < |locations| ensures m[i][j] == n[i][j] {
        assert m[i][j] == dist(locations[i], locations[j]) == n[i][j];
      }
    }
  }

  /** The nested loops of step 2: one `row` per location, appended to `distance_matrix`. */
  method BuildDistanceMatrix(locations: seq<Point>, dist: Distance) returns (m: Matrix)
    ensures IsDistanceMatrix(m, locations, dist)
    ensures SymmetricDistance(dist) ==> Symmetric(m)
    ensures ZeroToItself(dist) ==> forall i | 0 <= i < |m| :: m[i][i] == 0.0
  {
    m := [];
    for i := 0 to |locations|
      invariant |m| == i
      invariant forall p | 0 <= p < i :: |m[p]| == |locations|
      invariant forall p, q | 0 <= p < i && 0 <= q < |locations| :: m[p][q] == dist(locations[p], locations[q])
    {
      var row := [];
      for j := 0 to |locations|
        invariant |row| == j
        invariant forall q | 0 <= q < j :: row[q] == dist(locations[i], locations[q])
      {
        row := row + [dist(locations[i], locations[j])];
      }
      m := m + [row];
    }
  }
}
