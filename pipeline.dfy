/** The whole route-building run over one point layer: the number of routes,
    the grouping of the points by the route label the clustering assigned,
    the route of every group, and the join that gives every point its visit
    order.

    A point's `ponto_id` is its row index, and the clustering labels arrive
    as a parameter: one label per point, each in 0..k-1 for k routes. */
module Pipeline {
  import opened Geometry
  import opened GroupCount
  import opened RouteBuilder

  /** A row of the joined point layer. */
  datatype Row = Row(pontoId: int, rotaId: int, at: Coord, ordemVisita: int)

  /** The result of a run: a layer with no points gets no clustering at all
      (zero clusters are refused), otherwise the points carry their visit
      orders and every route of two or more points has a line. */
  datatype Outcome =
    | NoClusters
    | Routed(pontos: seq<Row>, linhas: seq<(int, seq<Coord>)>)

  predicate LabelsInRange(labels: seq<int>, k: nat)
  {
    forall i :: 0 <= i < |labels| ==> 0 <= labels[i] < k
  }

  /** The rows among the first n that carry label r, in row order, each as
      the point (row index, coordinate). */
  function MembersUpTo(coords: seq<Coord>, labels: seq<int>, r: int, n: nat): (g: seq<Point>)
    requires |labels| == |coords| && n <= |coords|
    ensures forall t {:trigger g[t]} :: 0 <= t < |g| ==> 0 <= g[t].id < n && labels[g[t].id] == r && g[t].at == coords[g[t].id]
    decreases n
  {
    if n == 0 then []
    else
      var g := MembersUpTo(coords, labels, r, n - 1);
      if labels[n - 1] == r then g + [Point(n - 1, coords[n - 1])] else g
  }

  /** The group of route r: its points in row order. */
  function Members(coords: seq<Coord>, labels: seq<int>, r: int): (g: seq<Point>)
    requires |labels| == |coords|
    ensures forall t {:trigger g[t]} :: 0 <= t < |g| ==> 0 <= g[t].id < |coords| && labels[g[t].id] == r && g[t].at == coords[g[t].id]
  {
    MembersUpTo(coords, labels, r, |coords|)
  }

  /** Ids strictly ascending along the sequence. */
  ghost predicate Ascending(g: seq<Point>)
  {
    forall s, t :: 0 <= s < t < |g| ==> g[s].id < g[t].id
  }

  /** The points of a group come in strictly ascending row order. */
  lemma {:induction false} MembersAscendingUpTo(coords: seq<Coord>, labels: seq<int>, r: int, n: nat)
    requires |labels| == |coords| && n <= |coords|
    ensures Ascending(MembersUpTo(coords, labels, r, n))
    decreases n
  {
    if n > 0 {
      MembersAscendingUpTo(coords, labels, r, n - 1);
      var g := MembersUpTo(coords, labels, r, n - 1);
      var h := MembersUpTo(coords, labels, r, n);
      if labels[n - 1] == r {
        assert h == g + [Point(n - 1, coords[n - 1])];
        forall s, t | 0 <= s < t < |h|
          ensures h[s].id < h[t].id
        {
          assert h[s] == g[s] && g[s].id < n - 1;
          if t < |g| {
            assert h[t] == g[t];
          } else {
            assert h[t].id == n - 1;
          }
        }
      } else {
        assert h == g;
      }
    }
  }

  /** A row index occurs in the group of r once if the row carries label r,
      and not at all otherwise. */
  lemma {:induction false} MembersCountUpTo(coords: seq<Coord>, labels: seq<int>, r: int, n: nat, i: int)
    requires |labels| == |coords| && n <= |coords|
    ensures multiset(Ids(MembersUpTo(coords, labels, r, n)))[i]
         == if 0 <= i < n && labels[i] == r then 1 else 0
    decreases n
  {
    if n > 0 {
      var g := MembersUpTo(coords, labels, r, n - 1);
      MembersCountUpTo(coords, labels, r, n - 1, i);
      if labels[n - 1] == r {
        IdsAppend(g, [Point(n - 1, coords[n - 1])]);
        assert Ids([Point(n - 1, coords[n - 1])]) == [n - 1];
      }
    }
  }

  lemma MembersCount(coords: seq<Coord>, labels: seq<int>, r: int, i: int)
    requires |labels| == |coords|
    ensures multiset(Ids(Members(coords, labels, r)))[i]
         == if 0 <= i < |coords| && labels[i] == r then 1 else 0
  {
    MembersCountUpTo(coords, labels, r, |coords|, i);
  }

  /** No point occurs twice in a group, so the tie-breaking of the walk
      applies to every group. */
  lemma MembersDistinct(coords: seq<Coord>, labels: seq<int>, r: int)
    requires |labels| == |coords|
    ensures Distinct(Members(coords, labels, r))
  {
    MembersAscendingUpTo(coords, labels, r, |coords|);
  }

  /** The route of the group of route q: the walk order of its points; a
      route with no points is no group and has no route. */
  function GroupRoute(coords: seq<Coord>, labels: seq<int>, q: int): (rt: seq<Point>)
    requires |labels| == |coords|
    ensures |rt| == |Members(coords, labels, q)|
  {
    var g := Members(coords, labels, q);
    if g == [] then [] else Route(g)
  }

  /** The routes of routes 0..k-1. */
  function Routes(coords: seq<Coord>, labels: seq<int>, k: nat): (rs: seq<seq<Point>>)
    requires |labels| == |coords|
    ensures |rs| == k
    ensures forall q :: 0 <= q < k ==> rs[q] == GroupRoute(coords, labels, q)
  {
    seq(k, q requires 0 <= q < k => GroupRoute(coords, labels, q))
  }

  /** The visit orders appended by routes 0..r-1 of `rs`, in route order. */
  function OrdersUpTo(rs: seq<seq<Point>>, r: nat): seq<(int, int)>
    requires r <= |rs|
    decreases r
  {
    if r == 0 then [] else OrdersUpTo(rs, r - 1) + Numbered(rs[r - 1])
  }

  /** The lines appended by routes 0..r-1 of `rs`: one per route of at least
      two points, tagged with its route label. */
  function LinesUpTo(rs: seq<seq<Point>>, r: nat): seq<(int, seq<Coord>)>
    requires r <= |rs|
    decreases r
  {
    if r == 0 then []
    else LinesUpTo(rs, r - 1) + (if |rs[r - 1]| < 2 then [] else [(r - 1, Coords(rs[r - 1]))])
  }

  /** The visit orders of the whole run: those of every group, the groups in
      ascending label order. */
  function AllOrders(coords: seq<Coord>, labels: seq<int>, k: nat): seq<(int, int)>
    requires |labels| == |coords|
  {
    OrdersUpTo(Routes(coords, labels, k), k)
  }

  /** The lines of the whole run. */
  function AllLines(coords: seq<Coord>, labels: seq<int>, k: nat): seq<(int, seq<Coord>)>
    requires |labels| == |coords|
  {
    LinesUpTo(Routes(coords, labels, k), k)
  }

  lemma FirstsAppend(a: seq<(int, int)>, b: seq<(int, int)>)
    ensures Firsts(a + b) == Firsts(a) + Firsts(b)
  {
  }

  lemma FirstsNumbered(r: seq<Point>)
    ensures Firsts(Numbered(r)) == Ids(r)
  {
  }

  /** When an id occurs once in the route labelled `lab` and in no other
      route, the orders of routes 0..r-1 hold it once if `lab` is among them
      and not at all otherwise. */
  lemma {:induction false} OrdersCount(rs: seq<seq<Point>>, r: nat, i: int, lab: int)
    requires r <= |rs|
    requires forall q :: 0 <= q < r ==> multiset(Ids(rs[q]))[i] == if q == lab then 1 else 0
    ensures multiset(Firsts(OrdersUpTo(rs, r)))[i] == if 0 <= lab < r then 1 else 0
    decreases r
  {
    if r > 0 {
      OrdersCount(rs, r - 1, i, lab);
      FirstsAppend(OrdersUpTo(rs, r - 1), Numbered(rs[r - 1]));
      FirstsNumbered(rs[r - 1]);
    }
  }

  /** Every visit order is the numbering of one step of one route: entry t
      is (id, s + 1) for the point visited at step s of route q. */
  lemma {:induction false} OrdersEntry(rs: seq<seq<Point>>, r: nat, t: nat) returns (q: nat, s: nat)
    requires r <= |rs| && t < |OrdersUpTo(rs, r)|
    ensures q < r && s < |rs[q]| && OrdersUpTo(rs, r)[t] == (rs[q][s].id, s + 1)
    decreases r
  {
    var prior := OrdersUpTo(rs, r - 1);
    if t < |prior| {
      q, s := OrdersEntry(rs, r - 1, t);
    } else {
      q, s := r - 1, t - |prior|;
    }
  }

  /** The lines are those of the routes of two or more points, in ascending
      label order, each the route's coordinates in walk order, and no such
      route lacks its line. */
  lemma {:induction false} LinesShape(rs: seq<seq<Point>>, r: nat)
    requires r <= |rs|
    ensures forall t :: 0 <= t < |LinesUpTo(rs, r)| ==>
      && 0 <= LinesUpTo(rs, r)[t].0 < r
      && |rs[LinesUpTo(rs, r)[t].0]| >= 2
      && LinesUpTo(rs, r)[t].1 == Coords(rs[LinesUpTo(rs, r)[t].0])
    ensures forall s, t :: 0 <= s < t < |LinesUpTo(rs, r)| ==> LinesUpTo(rs, r)[s].0 < LinesUpTo(rs, r)[t].0
    ensures forall q :: 0 <= q < r && |rs[q]| >= 2 ==>
      exists t :: 0 <= t < |LinesUpTo(rs, r)| && LinesUpTo(rs, r)[t].0 == q
    decreases r
  {
    if r > 0 {
      LinesShape(rs, r - 1);
      var prior := LinesUpTo(rs, r - 1);
      var ls := LinesUpTo(rs, r);
      assert forall t :: 0 <= t < |prior| ==> ls[t] == prior[t];
      if |rs[r - 1]| >= 2 {
        assert ls[|prior|] == (r - 1, Coords(rs[r - 1]));
      }
    }
  }

  /** The route of a group holds each of its points once, and no other id. */
  lemma RoutesIds(coords: seq<Coord>, labels: seq<int>, k: nat, q: int, i: int)
    requires |labels| == |coords| && 0 <= q < k
    ensures multiset(Ids(Routes(coords, labels, k)[q]))[i]
         == if 0 <= i < |coords| && labels[i] == q then 1 else 0
  {
    var g := Members(coords, labels, q);
    MembersCount(coords, labels, q, i);
    if g != [] {
      RouteIds(g);
    }
  }

  /** Every step of the route of group q visits a point of the layer
      labelled q. */
  lemma RoutesSource(coords: seq<Coord>, labels: seq<int>, k: nat, q: int, s: nat)
    requires |labels| == |coords| && 0 <= q < k && s < |Routes(coords, labels, k)[q]|
    ensures Members(coords, labels, q) != []
    ensures Routes(coords, labels, k)[q] == Route(Members(coords, labels, q))
    ensures var p := Routes(coords, labels, k)[q][s];
      0 <= p.id < |coords| && labels[p.id] == q && p.at == coords[p.id]
  {
    var g := Members(coords, labels, q);
    var m := RouteSource(g, s);
  }

  /** The visit orders the join finds for one point id, in the order the
      orders were appended. */
  function Matches(os: seq<(int, int)>, id: int): (vs: seq<int>)
    decreases |os|
  {
    if os == [] then []
    else (if os[0].0 == id then [os[0].1] else []) + Matches(os[1..], id)
  }

  /** The join finds as many orders for an id as there are entries for it. */
  lemma {:induction false} MatchesCount(os: seq<(int, int)>, id: int)
    ensures |Matches(os, id)| == multiset(Firsts(os))[id]
    decreases |os|
  {
    if os != [] {
      MatchesCount(os[1..], id);
      FirstsAppend([os[0]], os[1..]);
      assert [os[0]] + os[1..] == os;
    }
  }

  /** Every order the join finds for an id comes from an entry for that id. */
  lemma {:induction false} MatchesSource(os: seq<(int, int)>, id: int, s: nat) returns (t: nat)
    requires s < |Matches(os, id)|
    ensures t < |os| && os[t] == (id, Matches(os, id)[s])
    decreases |os|
  {
    var head := if os[0].0 == id then [os[0].1] else [];
    assert Matches(os, id) == head + Matches(os[1..], id);
    if s < |head| {
      t := 0;
    } else {
      var t' := MatchesSource(os[1..], id, s - |head|);
      t := t' + 1;
    }
  }

  /** The rows of the join for the first n points: every point in row order,
      once per visit order found for it. */
  function MergeUpTo(coords: seq<Coord>, labels: seq<int>, os: seq<(int, int)>, n: nat): (rows: seq<Row>)
    requires |labels| == |coords| && n <= |coords|
    decreases n
  {
    if n == 0 then []
    else
      var vs := Matches(os, n - 1);
      MergeUpTo(coords, labels, os, n - 1)
        + seq(|vs|, s requires 0 <= s < |vs| => Row(n - 1, labels[n - 1], coords[n - 1], vs[s]))
  }

  /** The inner join of the point layer with the visit orders on ponto_id. */
  function Merge(coords: seq<Coord>, labels: seq<int>, os: seq<(int, int)>): seq<Row>
    requires |labels| == |coords|
  {
    MergeUpTo(coords, labels, os, |coords|)
  }

  /** When every point has exactly one visit order, the join keeps every row,
      in row order, with that order attached. */
  lemma {:induction false} MergeOneEach(coords: seq<Coord>, labels: seq<int>, os: seq<(int, int)>, n: nat)
    requires |labels| == |coords| && n <= |coords|
    requires forall i :: 0 <= i < |coords| ==> |Matches(os, i)| == 1
    ensures |MergeUpTo(coords, labels, os, n)| == n
    ensures forall i :: 0 <= i < n ==>
      MergeUpTo(coords, labels, os, n)[i] == Row(i, labels[i], coords[i], Matches(os, i)[0])
    decreases n
  {
    if n > 0 {
      MergeOneEach(coords, labels, os, n - 1);
      var rows := MergeUpTo(coords, labels, os, n);
      assert rows[n - 1] == Row(n - 1, labels[n - 1], coords[n - 1], Matches(os, n - 1)[0]);
    }
  }

  /** Every point id occurs exactly once among the visit orders of the run. */
  lemma OrdersOnce(coords: seq<Coord>, labels: seq<int>, k: nat, i: int)
    requires |labels| == |coords| && LabelsInRange(labels, k) && 0 <= i < |coords|
    ensures multiset(Firsts(AllOrders(coords, labels, k)))[i] == 1
  {
    var rs := Routes(coords, labels, k);
    forall q | 0 <= q < k
      ensures multiset(Ids(rs[q]))[i] == if q == labels[i] then 1 else 0
    {
      RoutesIds(coords, labels, k, q, i);
    }
    OrdersCount(rs, k, i, labels[i]);
  }

  /** Every visit order of the run is (id, s + 1) for a point id of the layer
      visited at step s of the route of its own group. */
  lemma OrdersMeaning(coords: seq<Coord>, labels: seq<int>, k: nat, t: nat)
    requires |labels| == |coords| && t < |AllOrders(coords, labels, k)|
    ensures var e := AllOrders(coords, labels, k)[t];
      && 0 <= e.0 < |coords|
      && 1 <= e.1 <= |Members(coords, labels, labels[e.0])|
      && Route(Members(coords, labels, labels[e.0]))[e.1 - 1].id == e.0
  {
    var rs := Routes(coords, labels, k);
    var q, s := OrdersEntry(rs, k, t);
    RoutesSource(coords, labels, k, q, s);
  }

  /** Point i gets exactly one visit order, and it is the step of its
      group's route that visits it. */
  lemma PointOrder(coords: seq<Coord>, labels: seq<int>, k: nat, i: int)
    requires |labels| == |coords| && LabelsInRange(labels, k) && 0 <= i < |coords|
    ensures var vs := Matches(AllOrders(coords, labels, k), i);
      && |vs| == 1
      && 1 <= vs[0] <= |Members(coords, labels, labels[i])|
      && Route(Members(coords, labels, labels[i]))[vs[0] - 1].id == i
  {
    var os := AllOrders(coords, labels, k);
    OrdersOnce(coords, labels, k, i);
    MatchesCount(os, i);
    var t := MatchesSource(os, i, 0);
    OrdersMeaning(coords, labels, k, t);
    var g := Members(coords, labels, labels[i]);
    var v := Matches(os, i)[0];
    assert os[t] == (i, v);
    assert 1 <= v <= |g| && Route(g)[v - 1].id == i;
  }

  /** After the join every point has exactly one row: the row of point i is
      point i with its label and coordinate, and its visit order is the step
      of its group's route that visits it. */
  lemma PointRows(coords: seq<Coord>, labels: seq<int>, k: nat)
    requires |labels| == |coords| && LabelsInRange(labels, k)
    ensures |Merge(coords, labels, AllOrders(coords, labels, k))| == |coords|
    ensures forall i :: 0 <= i < |coords| ==>
      var row := Merge(coords, labels, AllOrders(coords, labels, k))[i];
      && row.pontoId == i && row.rotaId == labels[i] && row.at == coords[i]
      && 1 <= row.ordemVisita <= |Members(coords, labels, labels[i])|
      && Route(Members(coords, labels, labels[i]))[row.ordemVisita - 1].id == i
  {
    var os := AllOrders(coords, labels, k);
    forall i | 0 <= i < |coords|
      ensures |Matches(os, i)| == 1
      ensures 1 <= Matches(os, i)[0] <= |Members(coords, labels, labels[i])|
      ensures Route(Members(coords, labels, labels[i]))[Matches(os, i)[0] - 1].id == i
    {
      PointOrder(coords, labels, k, i);
    }
    MergeOneEach(coords, labels, os, |coords|);
  }

  /** The body of the loop over labels: the group of label q, and for a
      non-empty group its visit orders and, for two or more points, its line.
      A label no point carries contributes nothing. */
  method RouteOfLabel(coords: seq<Coord>, labels: seq<int>, q: int)
    returns (o: seq<(int, int)>, l: Option<seq<Coord>>)
    requires |labels| == |coords|
    ensures o == Numbered(GroupRoute(coords, labels, q))
    ensures l.None? <==> |GroupRoute(coords, labels, q)| < 2
    ensures l.Some? ==> l.value == Coords(GroupRoute(coords, labels, q))
  {
    var grupo := Members(coords, labels, q);
    if grupo == [] {
      o, l := [], None;
    } else {
      ZipSplit(grupo);
      o, l := RouteGroup(Coords(grupo), Ids(grupo));
    }
  }

  /** One more route extends the lines by its coordinates when it has two
      or more points, and leaves them as they are otherwise. */
  lemma LinesGrow(rs: seq<seq<Point>>, r: nat)
    requires r < |rs|
    ensures |rs[r]| < 2 ==> LinesUpTo(rs, r + 1) == LinesUpTo(rs, r)
    ensures |rs[r]| >= 2 ==> LinesUpTo(rs, r + 1) == LinesUpTo(rs, r) + [(r, Coords(rs[r]))]
  {
  }

  /** The loop over labels 0..k-1 in ascending order: the visit orders of
      every non-empty group and the line of every group of two or more
      points, appended group by group. */
  method RouteLabels(coords: seq<Coord>, labels: seq<int>, k: nat)
    returns (ordens: seq<(int, int)>, linhas: seq<(int, seq<Coord>)>)
    requires |labels| == |coords|
    ensures ordens == AllOrders(coords, labels, k)
    ensures linhas == AllLines(coords, labels, k)
  {
    ordens, linhas := [], [];
    ghost var rs := Routes(coords, labels, k);
    var rotaId := 0;
    while rotaId < k
      invariant 0 <= rotaId <= k
      invariant ordens == OrdersUpTo(rs, rotaId)
      invariant linhas == LinesUpTo(rs, rotaId)
    {
      var o, l := RouteOfLabel(coords, labels, rotaId);
      LinesGrow(rs, rotaId);
      ordens := ordens + o;
      if l.Some? {
        linhas := linhas + [(rotaId, l.value)];
      }
      rotaId := rotaId + 1;
    }
  }

  /** The run over one layer: ceil(N / cap) routes, then the route of every
      non-empty group, and last the join of the points with the visit
      orders. A layer with no points asks for zero clusters, which the
      clustering refuses. */
  method BuildRoutes(coords: seq<Coord>, cap: nat, labels: seq<int>) returns (out: Outcome)
    requires cap >= 1 && |labels| == |coords|
    requires LabelsInRange(labels, NumGroups(|coords|, cap))
    ensures out.NoClusters? <==> |coords| == 0
    ensures out.Routed? ==>
      && out.pontos == Merge(coords, labels, AllOrders(coords, labels, NumGroups(|coords|, cap)))
      && out.linhas == AllLines(coords, labels, NumGroups(|coords|, cap))
  {
    var k := NumGroups(|coords|, cap);
    NumGroupsRange(|coords|, cap);
    if k == 0 {
      return NoClusters;
    }
    var ordens, linhas := RouteLabels(coords, labels, k);
    out := Routed(Merge(coords, labels, ordens), linhas);
  }
}
