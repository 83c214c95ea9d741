# rotas_leitura: route building, modelled in Dafny

The `app.py` script of rotas_leitura turns a layer of meter-reading points into
reading routes. It works in three steps:

1. It asks a clustering step for `ceil(N / max_pontos_por_rota)` groups.
2. Within every group it builds a visiting order with a greedy
   nearest-neighbour walk. The walk starts at the group's first point. At each
   step it moves to the nearest point not yet visited; on a tie it takes the one
   that comes first in the list of remaining points. The visited coordinates
   form the route's line, and the visited ids are numbered 1..M.
3. It joins the visit orders back onto the points by `ponto_id`.

This project models that core and proves what it promises.

- `geometry.dfy` (module `Geometry`): planar integer coordinates, squared
  Euclidean distance, and the first-occurrence argmin (`np.argmin` over the
  `cdist` row).
- `group_count.dfy` (module `GroupCount`): the number of routes as a pure
  function, `NumGroups(n, cap) = ceil(n / cap)`.
- `route_builder.dfy` (module `RouteBuilder`):
  - A group is a sequence of `Point(id, at)`.
  - `NNWalk` and `Route` are the functional definition of the walk.
  - `Walk` is the `while coords:` loop. It pops the coordinate list and the id
    list at the same index and appends to `visitados` and `visitados_ids`.
  - `RouteGroup` is the body of the per-group loop: the single-point case, the
    walk, the line, and the numbering.
- `pipeline.dfy` (module `Pipeline`):
  - The clustering labels arrive as a parameter: one label per point, each in
    `0..k-1`.
  - `Members` is the `groupby("rota_id")` partition, with `ponto_id` equal to
    the row index.
  - `RouteLabels` is the outer loop. It accumulates `ordens` and `linhas` label
    by label in ascending order.
  - `Merge` is the inner join on `ponto_id`.
  - `BuildRoutes` is the whole run.
- `examples_routes.dfy` (module `WorkedRoutes`): two concrete routes. One is the
  four points on a line; the other is a tie between two equidistant points.

Where the written design and the code differ, the model follows the code.

- **Single group.** The design asks that a single group be formed without
  calling the clustering. The code always calls KMeans, even with
  `n_clusters = 1`. The model takes the labels as given. With one group, the
  labels are all 0 anyway, because they must lie in `0..NumGroups-1`.
- **Empty layer.** The design makes an empty layer an input error. In the code,
  `math.ceil(0 / cap)` is 0, and the clustering then refuses zero clusters. The
  model returns `NoClusters` for an empty layer and proves that this happens
  exactly when the layer is empty.
- **Ties.** The design states tie-breaking as "first in the original group
  order". The code breaks ties by first position in the *remaining* list.
  `RouteTieBreak` proves the two agree: popping keeps the remaining list in
  group order.

## Model

| member | source | states |
|---|---|---|
| Geometry.ArgMinFirst | app.py:70-71 | the chosen index is in range, no remaining coordinate is nearer, and only later indices can be as near (first-occurrence ties) |
| Geometry.ArgMinPrefix | app.py:70-71 | over the first n coordinates: a least-distance index, strictly nearer than every earlier one |
| Geometry.ArgMinFirstUnique | app.py:70-71 | any index that is a minimum with no earlier index as near is the index `ArgMinFirst` returns |
| GroupCount.NumGroups | app.py:48 | `k * cap >= n` and `(k - 1) * cap < n` for k > 0: n / cap rounded up |
| GroupCount.CeilDivBounds | app.py:48 | the integer quotient `(n + cap - 1) / cap` covers n and its predecessor does not |
| GroupCount.NumGroupsIsLeast | app.py:48 | no count smaller than `NumGroups` covers n points with cap per group |
| GroupCount.SingleGroup | app.py:48 | `1 <= n <= cap` gives exactly one group |
| GroupCount.NumGroupsRange | app.py:48-49 | at most n groups; at least one group when n >= 1; zero groups for an empty layer |
| GroupCount.NineByFour | app.py:48 | nine points with cap four give three groups |
| RouteBuilder.Zip | app.py:57-58 | pairs the id list with the coordinate list position by position |
| RouteBuilder.Remove | app.py:72-73 | `list.pop(i)`: one element shorter, the elements before i kept, the ones after shifted down by one |
| RouteBuilder.RemoveMultiset | app.py:72-73 | the removed element and what remains make up the old list |
| RouteBuilder.NNWalk | app.py:69-73 | the walk over the remaining points takes one step per remaining point, so the loop ends after that many pops |
| RouteBuilder.NNWalkUnfold | app.py:69-73 | the walk's first step is the argmin point; its later steps are the walk from that point through the rest |
| RouteBuilder.NNWalkCons | app.py:69-73 | the walk is the argmin point followed by the walk from there over the list with that point popped |
| RouteBuilder.Route | app.py:66-73 | a route has one step per point of its group and starts at the group's first point |
| RouteBuilder.RouteUnfold | app.py:66-73 | after the start, the route is the walk from the first point through the others |
| RouteBuilder.NNWalkPermutation | app.py:69-73 | the walk visits every remaining point exactly once (a permutation) |
| RouteBuilder.RoutePermutation | app.py:64-73 | the route is a permutation of its group |
| RouteBuilder.NNWalkSource | app.py:72-73 | every step of the walk is one of the remaining points, given by its index |
| RouteBuilder.RouteSource | app.py:66-73 | every step of the route is a point of the group, given by its index |
| RouteBuilder.NNWalkGreedy | app.py:69-72 | the point taken at each step is no farther from the previous point than any point visited later |
| RouteBuilder.RouteGreedy | app.py:69-72 | for a group: step j is no farther from step j-1 than any later step |
| RouteBuilder.TieBreakFirst | app.py:70-71 | a point as near as the argmin choice lies after it in the remaining list |
| RouteBuilder.NNWalkTieBreak | app.py:70-73 | if two later steps are equally near the previous point, the one visited first comes first in the remaining list |
| RouteBuilder.TieBreakStep | app.py:70-73 | the tie-break order survives one pop: positions in the popped list map back to the same order in the list before the pop |
| RouteBuilder.RouteTieBreak | app.py:66-73 | on a distance tie, the point visited first comes earlier in the group's input order |
| RouteBuilder.RemoveDistinct | app.py:72-73 | popping from a list without repeats leaves a list without repeats |
| RouteBuilder.RemoveSource | app.py:72-73 | in a list without repeats, a popped-list position maps back to its position before the pop |
| RouteBuilder.IdsRemove | app.py:72-73 | popping a point and popping its id at the same index agree, so ids and coordinates stay paired |
| RouteBuilder.NNWalkIds | app.py:72-73 | the ids the walk visits are the remaining ids, each once |
| RouteBuilder.RouteIds | app.py:64-73 | the ids along a route are the group's `ponto_ids`, each once |
| RouteBuilder.Numbered | app.py:78-79 | entry t of the numbering is (id of step t, t + 1): `enumerate(start=1)` |
| RouteBuilder.GroupOrders | app.py:60-62 | one visit order per point of the group |
| RouteBuilder.GroupOrdersBijection | app.py:60-79 | the group's orders hold each of its ids exactly once, and step t of the route gets position t + 1 |
| RouteBuilder.GroupLineVertices | app.py:75-79 | a group of two or more points has a line with one vertex per point; vertex t is the coordinate of the point numbered t + 1, and that point belongs to the group |
| RouteBuilder.ZipSplit | app.py:57-58 | the ids and coordinates of a group zip back into the group |
| RouteBuilder.ZipRemove | app.py:72-73 | popping both lists at index i is popping the paired list at i |
| RouteBuilder.WalkStep | app.py:70-73 | one iteration of the loop keeps "visited so far, then the walk over what remains" equal to the route |
| RouteBuilder.WalkInit | app.py:65-67 | popping index 0 of both lists starts the route |
| RouteBuilder.Walk | app.py:64-73 | the loop visits exactly the route: the visited ids and coordinates, zipped, are `Route` of the group; both lists have one entry per point and start with the first point |
| RouteBuilder.RouteGroup | app.py:57-79 | the orders are `GroupOrders` and the line is `GroupLine` of the group; position 1 goes to the first point; positions are 1..M; the ids are the group's ids, each once; no line exactly when the group has one point |
| Pipeline.MembersUpTo | app.py:56-58 | each member among the first n rows carries label r and its own row's coordinate |
| Pipeline.Members | app.py:56-58 | the group of label r holds only points labelled r, with their own coordinates |
| Pipeline.MembersAscendingUpTo | app.py:56-58 | the group keeps row order |
| Pipeline.MembersCountUpTo | app.py:56-58 | among the first n rows, a row is in the group of r exactly once if labelled r and not at all otherwise |
| Pipeline.MembersCount | app.py:56-58 | every point is in exactly the group of its own label (a partition) |
| Pipeline.MembersDistinct | app.py:56-58 | no point occurs twice in a group |
| Pipeline.GroupRoute | app.py:56-79 | the route of a label has one step per member of its group |
| Pipeline.Routes | app.py:56-79 | entry q is the route of label q |
| Pipeline.OrdersCount | app.py:56-79 | an id that one route holds once, and no other route holds, occurs once in the accumulated orders |
| Pipeline.OrdersEntry | app.py:56-79 | every accumulated order is (id of step s of some route, s + 1) |
| Pipeline.LinesShape | app.py:56-79 | the lines are those of the routes with two or more points, in ascending label order, each the route's coordinates; no such route lacks its line |
| Pipeline.RoutesIds | app.py:56-79 | the route of label q holds id i once if point i has label q, and not at all otherwise |
| Pipeline.RoutesSource | app.py:56-79 | every step of route q is a point labelled q, with its own coordinate |
| Pipeline.MatchesCount | app.py:81-82 | the join finds as many orders for an id as there are entries for it |
| Pipeline.MatchesSource | app.py:81-82 | every order found for an id comes from an entry for that id |
| Pipeline.MergeOneEach | app.py:81-82 | when each point has one order, the join keeps every row, in row order, with that order attached |
| Pipeline.OrdersOnce | app.py:56-82 | every `ponto_id` occurs exactly once in `ordens` |
| Pipeline.OrdersMeaning | app.py:56-82 | every order entry (id, v) has 1 <= v <= the size of the id's group, and step v - 1 of that group's route visits that id |
| Pipeline.PointOrder | app.py:56-82 | point i gets exactly one visit order, and it is its step in the route of its own group |
| Pipeline.PointRows | app.py:81-82 | the joined layer has one row per point, in row order, with its own id, label and coordinate, and a visit order that is its step in its group's route |
| Pipeline.LinesGrow | app.py:75-76 | one more label adds a line exactly when its route has two or more points |
| Pipeline.RouteOfLabel | app.py:56-79 | for label q, the loop body appends the numbering of q's route, and a line exactly when that route has two or more points |
| Pipeline.RouteLabels | app.py:53-79 | the loop over labels accumulates exactly `AllOrders` and `AllLines` |
| Pipeline.BuildRoutes | app.py:44-82 | an empty layer yields no clustering; otherwise the points come back joined with `AllOrders` and the lines are `AllLines` |
| WorkedRoutes.FourOnALine | app.py:64-73 | the group (0,0), (10,0), (1,0), (20,0) is visited in input order 0, 2, 1, 3 |
| WorkedRoutes.TieGoesToFirst | app.py:70-71 | of two points equally near the start, the earlier one in the group is visited first |

## Left out

- **UI.** The Streamlit layer is left out: the page, the number input, the
  uploader, the messages and the download button (app.py:13-25, 86-87, 100-105).
  The model assumes `cap >= 1`; it does not model the widget's 10..1000 range.
- **File I/O.** Extracting the zip, finding the shapefile, and writing the
  GeoPackage archive are file I/O and are left out (app.py:28-39, 88-98).
- **CRS.** The reprojections to EPSG:31983 and back to EPSG:4326 (app.py:42,
  114) are projection library calls on floats. Coordinates are taken as planar
  values already in the working projection.
- **Clustering.** KMeans (app.py:49-50) is a foreign call with random
  initialisation. Its result is a parameter: one label in `0..k-1` per point.
  The model makes no claim that groups respect the cap, because the code never
  makes them do so.
- **Float distances.** `cdist` computes float Euclidean distances. The model
  uses integer coordinates and squared distance instead; the square root is
  monotone, so the argmin is the same. Float rounding, which could turn two
  nearly equal distances into a tie or break one, is not modelled.
- **Float ceiling.** `math.ceil(len / cap)` divides in floating point. The model
  uses exact integer ceiling division; the two differ only for point counts far
  beyond any layer size.
- **Geometry objects.** `LineString` and GeoDataFrame construction (app.py:75,
  84) are left out. A line is the ordered list of its vertex coordinates, tagged
  with its route label.
- **Map.** Folium rendering, the random colours and the centroid (app.py:107-138)
  are visualisation and are left out.
- **Grouping.** `groupby` is modelled as a visit of the labels 0..k-1 in
  ascending order that skips labels no point carries; pandas yields only
  non-empty groups, in sorted key order.
- **Point ids.** `ponto_id` is the row index after `reset_index` (app.py:43-44),
  so each point is its row number together with its coordinate. The join keeps
  the left layer's row order, which is how `MergeUpTo` builds it.
- Walk: its contract ties the loop's result to `Route`; the permutation and
  pairing facts about that result are proved once, about `Route`
  (`RoutePermutation`, `RouteIds`), rather than repeated on the method.
