# Cab allocation (j-vandi), modelled in Dafny

This project models the allocation core of j-vandi, a small tool that assigns office-bound
participants to cabs. `run_cab_allocation` in `cab_logic.py` does four things, which its
comments call STEP 2, 3, 4 and 7:

- STEP 2 builds the matrix of pairwise distances between participants' coordinates.
- STEP 3 clusters participants who are chained together by steps of at most 4000 m. This is
  `DBSCAN` with `min_samples=1`, which amounts to connected components.
- STEP 4 cuts every cluster of more than six people into consecutive slices of at most six.
  Each slice gets a new cab label.
- STEP 7 chooses, for each cab, a greedy pickup order. The first pickup is the participant
  farthest from the fixed destination. Each later pickup is the remaining participant nearest
  to the previous one. Pickups are numbered 1..K.

The project also models the allocation table editor of `app.py`:

- enrichment of uploaded rows with coordinates from the location database;
- renumbering of pickup orders (`update_pickup_orders`);
- adding, moving and removing passengers;
- reordering a cab by hand;
- the per-cab capacity status.

Modules:

- `records.dfy` holds the shared values: participant, point and table row. It also holds the
  table queries: rows of a cab, the `Cab Group` column, `unique()`, `max()`, `min()` and concat.
- `distance.dfy` holds STEP 2. `clustering.dfy` holds STEP 3. `splitting.dfy` holds STEP 4.
- `pickup.dfy` holds STEP 7. `allocation.dfy` composes the four steps.
- `enrichment.dfy` and `editing.dfy` model `app.py`. The session table is the class
  `Editing.AllocationSession`; its field `rows` is edited in place.

Distances are a parameter `dist: (Point, Point) -> real`, standing for geopy's great-circle
distance in metres. The clustering needs it to be symmetric. The pipeline also requires every
point to be at distance 0 from itself: sklearn counts a point among its own neighbours, so with
`min_samples=1` every point is a core point and no point is labelled noise (-1). Great-circle
distance meets both requirements. The location database search is a
parameter `lookup: string -> Option<Point>`.

Three places where the model takes a position on what the code does:

- The code reads `max_existing_group` once from the unsplit labels (`cab_logic.py:63`) and
  numbers the slices of every oversized cluster from it, although the comment at line 66 calls
  the new labels unique. Two oversized clusters therefore share labels. The model keeps the code
  as written (`Splitting.SplitAsWritten`) and a fix with one counter shared by all oversized
  clusters (`Splitting.SplitFrom`). The pipeline uses the fix. See Findings.
- The pickup sequencer takes `sort_values(...).iloc[0]` (`cab_logic.py:143`, `151`). The default
  sort of pandas is not stable, so a tie may go to any of the tied rows. The contract therefore
  says "a farthest" and "a nearest" participant. The implementation takes the earliest.
- The sequencer removes visited rows by `User` (`cab_logic.py:145`, `153`), so a cab holding two
  rows of one user keeps only one of them. The model proves that rows are lost exactly in that
  case (`Pickup.GreedyRouteLength`, `Pickup.RoutedCabSizes`). It also proves that sequencing is
  a permutation when users are distinct.

## Model

| member | source | states |
|---|---|---|
| DistanceMatrix.DistanceMatrixUnique | cab_logic.py:34-39 | The matrix is determined by the locations and the distance. |
| DistanceMatrix.BuildDistanceMatrix | cab_logic.py:34-39 | The result is N x N, and entry (i, j) is `dist(location i, location j)`. It is symmetric when `dist` is, and has a zero diagonal when `dist(a, a) = 0`. |
| Clustering.LabelComponents | cab_logic.py:45-47 | Every point gets one label in `0 .. count-1`, and every label is used. Labels are numbered in order of first appearance. Two points share a label iff a chain of steps, each within `eps`, joins them. |
| Clustering.Flood | cab_logic.py:45-46 | One depth-first expansion from an unlabelled point gives it the next label and keeps every label already given. The partial labelling stays a labelling of whole components. |
| Clustering.LinkedSymmetric | cab_logic.py:45 | Under a symmetric matrix, chaining is symmetric. |
| Clustering.LinkedTransitive | cab_logic.py:45 | Chaining is transitive. |
| Clustering.ChainKeepsLabel | cab_logic.py:45-46 | A labelling that agrees across every step within `eps` is constant along every chain. |
| Clustering.SparsePointsAreSingletons | cab_logic.py:45-47 | When no two points are within `eps`, every point is its own cluster. |
| Clustering.ConnectedPointsFormOneCluster | cab_logic.py:45-47 | When all points are chained together, there is exactly one cluster, labelled 0. |
| Splitting.NumCabsIsCeiling | cab_logic.py:62 | `NumCabs(n, cap)` is `ceil(n / cap)`: enough cabs for n people, and one fewer is not enough. |
| Splitting.SlicesCount | cab_logic.py:62-64 | An oversized cluster yields exactly `ceil(n / cap)` slices. |
| Splitting.SlicesAreIndexed | cab_logic.py:64-67 | Slice i is rows `i*cap .. (i+1)*cap` of the cluster, clipped to its end, and is labelled `first + i`. |
| Splitting.SlicesShape | cab_logic.py:64-68 | Each slice is non-empty, holds at most `cap` rows and carries its own label. Concatenated, the slices are the cluster in row order. |
| Splitting.SplitFromUniform | cab_logic.py:52-68 | Every piece of the split is non-empty, within capacity, and uniformly labelled. |
| Splitting.SplitFromLabels | cab_logic.py:57-67 | Every piece carries the label of one of the listed clusters, or a counter label at or above the counter's start. Which cluster keeps its label is stated by `SmallClusterKept`. |
| Splitting.SplitFromDistinct | cab_logic.py:52-68 | With one running counter, no two pieces share a label. |
| Splitting.SplitFromKeepsOrder | cab_logic.py:53-71 | The concatenated pieces list the clusters in `unique()` order, each in row order. |
| Splitting.SmallClusterKept | cab_logic.py:57-59 | A cluster of at most `cap` rows keeps its label and exactly its rows. |
| Splitting.CabWithinOneCluster | cab_logic.py:52-68 | Every cab of the split holds participants of a single cluster: splitting never mixes clusters. |
| Splitting.SplitIsCapacityBoundedPermutation | cab_logic.py:52-71 | Splitting neither drops nor duplicates a participant, and no resulting cab holds more than `cap` rows. |
| Splitting.SplitByCapacity | cab_logic.py:52-71 | The split loop computes the corrected split: clusters in `unique()` order, slices labelled from one counter starting at `max + 1`. |
| Splitting.SplitClusters | cab_logic.py:53-68 | The loop over clusters, with the counter carried across clusters, computes `SplitFrom`. |
| Splitting.CutIntoCabs | cab_logic.py:62-68 | The inner loop over `range(num_cabs)` computes the labelled slices. |
| Splitting.SplitAsWritten | cab_logic.py:52-68 | The split as the code writes it, every oversized cluster sliced from `max_existing_group + 1`. It loses and duplicates nobody: its pieces list the clusters in `unique()` order, each in row order. |
| Splitting.AsWrittenLabelsCollide | cab_logic.py:63-67 | As written, for any two clusters of seven labelled 0 and 1, both first slices are labelled 2. Cab 2 receives the first six rows of each, twelve passengers, who are twelve different users when the table's users are distinct. |
| Pickup.WithoutMembers | cab_logic.py:145 | Filtering by `User` keeps exactly the rows of other users. |
| Pickup.UnvisitedMembers | cab_logic.py:145-153 | The rows still unvisited are the cab's rows whose user has not been picked up. |
| Pickup.Farthest | cab_logic.py:142-143 | The index returned is of a row at maximal distance from the destination. |
| Pickup.Nearest | cab_logic.py:150-151 | The index returned is of a row at minimal distance from the given point. |
| Pickup.SortPickupOrder | cab_logic.py:137-156 | The route starts at a farthest row from the destination. Each later pickup is a nearest unvisited row to the previous one. The loop ends when no row is unvisited. |
| Pickup.NearestAt | cab_logic.py:148-153 | For every k >= 1, pickup k is a row not yet visited that is nearest to pickup k-1. |
| Pickup.GreedyRouteVisitsEveryUserOnce | cab_logic.py:137-156 | Every pickup is a row of the cab, no user is picked up twice, and every user of the cab is picked up. |
| Pickup.GreedyRouteLength | cab_logic.py:145-153 | A route has one row per distinct user. It keeps every row iff the cab's users are distinct. |
| Pickup.UserCount | cab_logic.py:145 | There are at most as many users as rows, and exactly as many iff the users are distinct. |
| Pickup.GreedyRouteIsPermutation | cab_logic.py:137-156 | With distinct users, the route is a reordering of the cab's rows. |
| Pickup.OptimizeRoutes | cab_logic.py:158-168 | Every cab of the output is the greedy route of that cab's input rows, numbered 1..K. A label with no input rows has no output rows. The labels never decrease down the table, so the table is the cabs' blocks in increasing label order, as `groupby` then `concat` gives. |
| Pickup.SequenceCab | cab_logic.py:162-164 | One cab: a greedy route, with `Pickup Order` k+1 and the cab's label on every row. |
| Pickup.RoutedOrders | cab_logic.py:163 | In the sequenced table, every cab's pickup orders are 1..K in table order. |
| Pickup.RoutedKeepsCabs | cab_logic.py:158-168 | Every sequenced row is a participant its cab held before, and every input user is picked up by their own cab. |
| Pickup.RoutedCabSizes | cab_logic.py:145-165 | No cab gains rows. A cab keeps all of its rows iff its users are distinct. |
| Pickup.RoutedPermutation | cab_logic.py:158-168 | If no cab holds a user twice, the sequenced table holds the same participants as before. |
| Allocation.RunCabAllocation | cab_logic.py:9-216 | Empty input is an error. Otherwise the output sequences the capacity split of the components of the distance matrix of the input's locations, components being joined by steps of at most 4000 m (`ClusteredByProximity`). Cabs hold at most six, and pickups run 1..K in every cab. The cabs' blocks appear in increasing label order. Every row comes from the input and every input user is picked up. With distinct users, nobody is lost or duplicated. |
| Allocation.PipelineGuarantees | cab_logic.py:52-168 | Sequencing any capacity-bounded regrouping of the input gives capacity, 1..K orders, coverage and, with distinct users, a permutation. |
| Allocation.CabmatesAreLinked | cab_logic.py:34-68 | Any two passengers of one cab of an allocation are input participants joined by a chain of steps of at most 4000 m. |
| Allocation.TwoPlacesTwoClusters | cab_logic.py:34-47 | Fourteen riders, seven at one place and seven at another more than 4000 m away, are clustered as seven 0s followed by seven 1s. |
| Allocation.AsWrittenTwelveInOneCab | cab_logic.py:34-168 | On those fourteen distinct riders, the pipeline with the split as written leaves twelve passengers in cab 2 of the sequenced table. |
| Allocation.Labelled | cab_logic.py:29-47 | The labelled table has the input's participants in order, row k carrying label `labels[k]`. |
| Enrichment.EnhanceWithCoordinates | app.py:168-186 | The loop computes the enhanced rows and the missing area names, each in input order. |
| Enrichment.EnrichmentPartitions | app.py:173-186 | Each row goes to exactly one of the two lists: their lengths add up to the input's. |
| Enrichment.EnrichmentDistributes | app.py:173-184 | Enrichment works row by row, so input order is kept in both lists. |
| Enrichment.EnrichmentSound | app.py:174-184 | Each enhanced row is an input row with the coordinates the database gave for its area. Each missing name is the area of an input row that the database does not know. |
| Enrichment.EnrichmentComplete | app.py:174-184 | Each input row is enhanced when its area is known and listed as missing otherwise. |
| Editing.RenumberedOrders | app.py:550-558 | After `update_pickup_orders`, every cab's pickup orders are 1..K in table order. |
| Editing.RenumberIdempotent | app.py:550-558 | Renumbering twice is the same as renumbering once. |
| Editing.RenumberFixpoint | app.py:550-558 | Renumbering leaves a table unchanged iff its cabs are already numbered 1..K. |
| Editing.Renumbered | app.py:550-558 | Renumbering changes no row's participant or cab and adds or removes no row. |
| Editing.SameCabsSameRank | app.py:552-558 | A row's new pickup order depends only on the cab column, not on the old orders. |
| Editing.AllocationSession.UpdatePickupOrders | app.py:550-558 | The nested loops leave the table renumbered. |
| Editing.AllocationSession.RenumberCab | app.py:553-558 | One cab's rows get their ranks; every other row is left alone. |
| Editing.AllocationSession.constructor | app.py:325-326 | The session starts from a copy of the computed allocation. |
| Editing.MaxOrder | app.py:361-365 | The cab's largest pickup order bounds every order in the cab and is attained. |
| Editing.AddKeepsOrders | app.py:361-379 | In a table numbered 1..K per cab, a new participant receives K + 1 and the table stays numbered 1..K per cab. |
| Editing.AllocationSession.AddParticipant | app.py:356-388 | Missing user or area is refused, and so is an unknown area. Otherwise exactly one row is appended, with the cab's largest order plus one (1 for an empty cab), and no other row changes. |
| Editing.AllocationSession.MovePassenger | app.py:472-479 | If the target cab differs, only the row's cab changes; the table is then renumbered and every cab is numbered 1..K. |
| Editing.AllocationSession.RemovePassenger | app.py:497-498 | Exactly that row is dropped; the rest is renumbered and every cab is numbered 1..K. |
| Editing.LastIndex | app.py:524-527 | The position returned holds the user, and no later position does. |
| Editing.ReorderedPositions | app.py:524-527 | With a list naming each user once, the user at position i gets pickup order i+1. Rows of other cabs and unlisted users are untouched. No participant or cab changes. |
| Editing.AllocationSession.ApplyReorder | app.py:511-527 | Applied iff the cab has two or more passengers and the selection is as long as the passenger list but differs from it. If applied, the table is reordered; if not, it is unchanged. |
| Editing.AllocationSession.SetOrderOfUser | app.py:525-527 | Exactly the cab's rows of that user take the new order. |
| Editing.CapacityStatusMeansFits | app.py:424-429 | The status rule gives "OK" iff a cab holds at most six passengers, and "Overcrowded" otherwise. |
| Editing.AllocatedCabsAreOK | app.py:424-429 | Every cab of a fresh allocation has status "OK". |
| Editing.AsWrittenCabOvercrowded | app.py:424-445 | On the fourteen riders at two places, the sequenced table of the pipeline with the split as written shows cab 2 as "Overcrowded". |

## Left out

- Reading and writing Excel and CSV files, `print` reporting, the folium maps and their colours, the Streamlit pages and the logins. These are presentation and I/O.
- The great-circle distance. It is floating-point spherical trigonometry in geopy, so it is the parameter `dist`. The pipeline requires it to be symmetric and zero from a point to itself, as great-circle distance is. DBSCAN's noise label -1 is therefore never produced and is not modelled.
- The SQL `LIKE` search of the location database. It is the parameter `lookup`; the database itself (database.py) is not part of this model.
- DBSCAN's own numbering of clusters. The model numbers clusters 0, 1, ... in order of first appearance. Nothing downstream depends on the numbering except through `unique()` order and `max()`.
- pandas index labels. A row is identified by its position in the table, both when moving or removing by `idx` and after `pd.concat(..., ignore_index=True)`.
- Pickup.SortPickupOrder: the contract allows any farthest or nearest row on ties. The implementation takes the earliest, but the source's quicksort tie-break is unspecified.
- Allocation.RunCabAllocation: the stated guarantees are about the corrected split. The as-written split is modelled separately (see Findings).
- Editing.AllocationSession.AddParticipant: the cab is any label. In the source it comes from a select box of existing cabs, and the rule for an empty cab (order 1) is kept.
- The "Create New Cab" button. It computes `max + 1` but stores nothing.
- Map regeneration after each edit. It is rendering.
- Coordinate range checks. The source has none.
- Which cabs display a status. The statistics grid (`app.py:413-446`) shows the first four cabs in sorted order, each with its status. For the remaining cabs, the `with cols2[i]:` block at lines 440-446 is indented outside its loop. So only the last remaining cab gets a status, and with six or more cabs, cabs 5 to n-1 show none. This is Streamlit layout; the model states the status rule (`CapacityStatus`) for every cab.
- The `Name` column. `enhance_user_data_with_coordinates` copies it with each row and it reaches the allocation table and its export, but no computation of the core reads it. A participant is its user, area and coordinates.

## Findings

| source | as written | input that shows it | evidently intended | confidence | as-written member | corrected member |
|---|---|---|---|---|---|---|
| cab_logic.py:63-67 | Every oversized cluster labels its slices from `max_existing_group + 1`, where the maximum is read from the unsplit labels. Two oversized clusters therefore reuse the same labels. | Fourteen users, seven at one pickup point and seven at another more than 4 km away, so that clustering gives two clusters of seven. Both first slices are labelled 2, so cab 2 of the routed table holds twelve passengers and shows "Overcrowded". | One counter shared by all oversized clusters, so that every new label is fresh and every cab holds at most six people. | not executed | Allocation.AsWrittenTwelveInOneCab | Splitting.SplitIsCapacityBoundedPermutation |
