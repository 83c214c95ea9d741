/** The route of one group: a greedy nearest-neighbour walk that starts at the
    group's first point in input order and repeatedly moves to the nearest
    point not yet visited, then numbers the visited points 1..M and records
    the visited coordinates as an open polyline. */
module RouteBuilder {
  import opened Geometry

  /** A point of the layer: its `ponto_id` and its planar coordinate. */
  datatype Point = Point(id: int, at: Coord)

  /** An optional polyline: a group of one point has none. */
  datatype Option<T> = None | Some(value: T)

  /** Pairs the id list with the coordinate list, position by position. */
  function Zip(ids: seq<int>, cs: seq<Coord>): (ps: seq<Point>)
    requires |ids| == |cs|
    ensures |ps| == |ids|
    ensures forall j {:trigger ps[j]} :: 0 <= j < |ps| ==> ps[j] == Point(ids[j], cs[j])
  {
    seq(|ids|, j requires 0 <= j < |ids| => Point(ids[j], cs[j]))
  }

  function Coords(ps: seq<Point>): (cs: seq<Coord>)
    ensures |cs| == |ps|
    ensures forall j {:trigger cs[j]} :: 0 <= j < |ps| ==> cs[j] == ps[j].at
  {
    seq(|ps|, j requires 0 <= j < |ps| => ps[j].at)
  }

  function Ids(ps: seq<Point>): (ids: seq<int>)
    ensures |ids| == |ps|
    ensures forall j {:trigger ids[j]} :: 0 <= j < |ps| ==> ids[j] == ps[j].id
  {
    seq(|ps|, j requires 0 <= j < |ps| => ps[j].id)
  }

  /** The list left by `s.pop(i)`: every element but the i-th, in order. */
  function Remove<T>(s: seq<T>, i: nat): (r: seq<T>)
    requires i < |s|
    ensures |r| == |s| - 1
    ensures forall j {:trigger r[j]} :: 0 <= j < |r| ==> r[j] == if j < i then s[j] else s[j + 1]
  {
    s[..i] + s[i + 1..]
  }

  /** Popping one element takes exactly that element out of the multiset. */
  lemma RemoveMultiset<T>(s: seq<T>, i: nat)
    requires i < |s|
    ensures multiset(Remove(s, i)) + multiset{s[i]} == multiset(s)
  {
    assert s == s[..i] + [s[i]] + s[i + 1..];
  }

  ghost predicate Distinct<T>(s: seq<T>)
  {
    forall a, b :: 0 <= a < b < |s| ==> s[a] != s[b]
  }

  /** The walk from coordinate `last` through the remaining points `rem`:
      each step takes the first remaining point at minimum distance from the
      point visited last and removes it from the remaining list. */
  function NNWalk(last: Coord, rem: seq<Point>): (w: seq<Point>)
    ensures |w| == |rem|
    decreases |rem|
  {
    if rem == [] then []
    else
      var i := ArgMinFirst(last, Coords(rem));
      [rem[i]] + NNWalk(rem[i].at, Remove(rem, i))
  }

  /** One step of the walk, element by element. */
  lemma NNWalkUnfold(last: Coord, rem: seq<Point>)
    requires rem != []
    ensures var i := ArgMinFirst(last, Coords(rem));
      && NNWalk(last, rem)[0] == rem[i]
      && forall t :: 0 < t < |rem| ==> NNWalk(last, rem)[t] == NNWalk(rem[i].at, Remove(rem, i))[t - 1]
  {
  }

  /** The visiting order of a group: its first point in input order, then the
      walk through the others. */
  function Route(g: seq<Point>): (r: seq<Point>)
    requires |g| >= 1
    ensures |r| == |g|
    ensures r[0] == g[0]
  {
    [g[0]] + NNWalk(g[0].at, g[1..])
  }

  lemma RouteUnfold(g: seq<Point>)
    requires |g| >= 1
    ensures forall t :: 0 < t < |g| ==> Route(g)[t] == NNWalk(g[0].at, g[1..])[t - 1]
  {
  }

  /** The walk visits every remaining point exactly once: it is a permutation
      of the remaining list. */
  lemma {:induction false} NNWalkPermutation(last: Coord, rem: seq<Point>)
    ensures multiset(NNWalk(last, rem)) == multiset(rem)
    decreases |rem|
  {
    if rem != [] {
      var i := ArgMinFirst(last, Coords(rem));
      NNWalkPermutation(rem[i].at, Remove(rem, i));
      RemoveMultiset(rem, i);
      assert NNWalk(last, rem) == [rem[i]] + NNWalk(rem[i].at, Remove(rem, i));
    }
  }

  /** Each visited point is one of the remaining points: the point taken at
      step t stands at some position m of the remaining list. */
  lemma {:induction false} NNWalkSource(last: Coord, rem: seq<Point>, t: nat) returns (m: nat)
    requires t < |rem|
    ensures m < |rem| && rem[m] == NNWalk(last, rem)[t]
    decreases |rem|
  {
    var i := ArgMinFirst(last, Coords(rem));
    var rest := Remove(rem, i);
    NNWalkUnfold(last, rem);
    if t == 0 {
      m := i;
    } else {
      var m' := NNWalkSource(rem[i].at, rest, t - 1);
      m := if m' < i then m' else m' + 1;
      assert rest[m'] == rem[m];
      assert NNWalk(last, rem)[t] == NNWalk(rem[i].at, rest)[t - 1];
    }
  }

  /** Each point of a route is a point of its group. */
  lemma RouteSource(g: seq<Point>, t: nat) returns (m: nat)
    requires |g| >= 1 && t < |g|
    ensures m < |g| && g[m] == Route(g)[t]
  {
    if t == 0 {
      m := 0;
    } else {
      RouteUnfold(g);
      var m' := NNWalkSource(g[0].at, g[1..], t - 1);
      m := m' + 1;
    }
  }

  /** The route of a group visits each point of the group exactly once. */
  lemma RoutePermutation(g: seq<Point>)
    requires |g| >= 1
    ensures multiset(Route(g)) == multiset(g)
  {
    NNWalkPermutation(g[0].at, g[1..]);
    assert g == [g[0]] + g[1..];
  }

  /** The coordinate the walk stands on before step j: `last` before the first
      step, afterwards the point visited at step j - 1. */
  function Prev(last: Coord, w: seq<Point>, j: nat): Coord
    requires j <= |w|
  {
    if j == 0 then last else w[j - 1].at
  }

  /** Nearest-neighbour choice: the point taken at step j is no farther from
      the current position than any point taken later, that is, than any
      point still remaining at step j. */
  lemma {:induction false} NNWalkGreedy(last: Coord, rem: seq<Point>, j: nat, k: nat)
    requires j <= k < |rem|
    ensures SqDist(Prev(last, NNWalk(last, rem), j), NNWalk(last, rem)[j].at)
         <= SqDist(Prev(last, NNWalk(last, rem), j), NNWalk(last, rem)[k].at)
    decreases |rem|
  {
    var i := ArgMinFirst(last, Coords(rem));
    var rest := Remove(rem, i);
    NNWalkUnfold(last, rem);
    if j == 0 {
      var m := NNWalkSource(last, rem, k);
      assert Coords(rem)[m] == rem[m].at;
    } else {
      NNWalkGreedy(rem[i].at, rest, j - 1, k - 1);
    }
  }

  lemma RemoveDistinct<T>(s: seq<T>, i: nat)
    requires i < |s| && Distinct(s)
    ensures Distinct(Remove(s, i))
  {
    var r := Remove(s, i);
    forall a, b | 0 <= a < b < |r| ensures r[a] != r[b] {
      assert r[a] == s[if a < i then a else a + 1];
      assert r[b] == s[if b < i then b else b + 1];
    }
  }

  /** In a repeat-free list, the element at position m after popping position
      i is found at exactly one position of the original list. */
  lemma RemoveSource<T>(s: seq<T>, i: nat, m: nat, a: nat)
    requires Distinct(s) && i < |s| && m < |s| - 1 && a < |s|
    requires s[a] == Remove(s, i)[m]
    ensures a == if m < i then m else m + 1
  {
  }

  /** The first step of the walk breaks ties by position: any other remaining
      point as near as the chosen one stands after it. */
  lemma TieBreakFirst(last: Coord, rem: seq<Point>, b: nat)
    requires b < |rem| && b != ArgMinFirst(last, Coords(rem))
    requires SqDist(last, rem[ArgMinFirst(last, Coords(rem))].at) == SqDist(last, rem[b].at)
    ensures ArgMinFirst(last, Coords(rem)) < b
  {
    assert Coords(rem)[b] == rem[b].at;
  }

  /** Tie-breaking: when the point taken at step j and a point taken later are
      at the same distance from the current position, the one taken first
      stands earlier in the list the walk started from (position a before
      position b). Popping keeps the remaining list in input order, so the
      lowest index among the remaining points is the earliest of the input. */
  lemma {:induction false} NNWalkTieBreak(last: Coord, rem: seq<Point>, j: nat, k: nat, a: nat, b: nat)
    requires Distinct(rem)
    requires j < k < |rem| && a < |rem| && b < |rem|
    requires rem[a] == NNWalk(last, rem)[j] && rem[b] == NNWalk(last, rem)[k]
    requires SqDist(Prev(last, NNWalk(last, rem), j), NNWalk(last, rem)[j].at)
          == SqDist(Prev(last, NNWalk(last, rem), j), NNWalk(last, rem)[k].at)
    ensures a < b
    decreases |rem|, 1
  {
    var i := ArgMinFirst(last, Coords(rem));
    NNWalkUnfold(last, rem);
    if j == 0 {
      var rest := Remove(rem, i);
      var mb := NNWalkSource(rem[i].at, rest, k - 1);
      RemoveSource(rem, i, mb, b);
      TieBreakFirst(last, rem, b);
    } else {
      var w' := NNWalk(rem[i].at, Remove(rem, i));
      assert rem[a] == w'[j - 1] && rem[b] == w'[k - 1];
      assert Prev(last, NNWalk(last, rem), j) == Prev(rem[i].at, w', j - 1);
      TieBreakStep(rem, i, j - 1, k - 1, a, b);
    }
  }

  /** The inductive step of NNWalkTieBreak: after the point at position i is
      popped, the tie between steps j and k of the rest of the walk is
      settled in the shorter remaining list. */
  lemma {:induction false} TieBreakStep(rem: seq<Point>, i: nat, j: nat, k: nat, a: nat, b: nat)
    requires Distinct(rem) && i < |rem|
    requires j < k < |rem| - 1 && a < |rem| && b < |rem|
    requires rem[a] == NNWalk(rem[i].at, Remove(rem, i))[j]
    requires rem[b] == NNWalk(rem[i].at, Remove(rem, i))[k]
    requires SqDist(Prev(rem[i].at, NNWalk(rem[i].at, Remove(rem, i)), j), rem[a].at)
          == SqDist(Prev(rem[i].at, NNWalk(rem[i].at, Remove(rem, i)), j), rem[b].at)
    ensures a < b
    decreases |rem|, 0
  {
    var rest := Remove(rem, i);
    var w := NNWalk(rem[i].at, rest);
    var ma := NNWalkSource(rem[i].at, rest, j);
    var mb := NNWalkSource(rem[i].at, rest, k);
    RemoveSource(rem, i, ma, a);
    RemoveSource(rem, i, mb, b);
    RemoveDistinct(rem, i);
    NNWalkTieBreak(rem[i].at, rest, j, k, ma, mb);
  }

  lemma IdsRemove(ps: seq<Point>, i: nat)
    requires i < |ps|
    ensures Ids(Remove(ps, i)) == Remove(Ids(ps), i)
  {
  }

  /** The walk is its first point followed by the walk from there. */
  lemma NNWalkCons(last: Coord, rem: seq<Point>)
    requires rem != []
    ensures var i := ArgMinFirst(last, Coords(rem));
      NNWalk(last, rem) == [rem[i]] + NNWalk(rem[i].at, Remove(rem, i))
  {
  }

  lemma IdsAppend(p: seq<Point>, q: seq<Point>)
    ensures Ids(p + q) == Ids(p) + Ids(q)
  {
  }

  /** The walk permutes the ids of the remaining points. */
  lemma {:induction false} NNWalkIds(last: Coord, rem: seq<Point>)
    ensures multiset(Ids(NNWalk(last, rem))) == multiset(Ids(rem))
    decreases |rem|
  {
    if rem != [] {
      var i := ArgMinFirst(last, Coords(rem));
      var rest := Remove(rem, i);
      var w' := NNWalk(rem[i].at, rest);
      NNWalkCons(last, rem);
      NNWalkIds(rem[i].at, rest);
      IdsAppend([rem[i]], w');
      IdsRemove(rem, i);
      RemoveMultiset(Ids(rem), i);
      assert Ids([rem[i]]) == [Ids(rem)[i]];
      calc {
        multiset(Ids(NNWalk(last, rem)));
        multiset(Ids([rem[i]])) + multiset(Ids(w'));
        multiset{Ids(rem)[i]} + multiset(Remove(Ids(rem), i));
      }
    }
  }

  /** Route(g) permutes the ids of the group. */
  lemma RouteIds(g: seq<Point>)
    requires |g| >= 1
    ensures multiset(Ids(Route(g))) == multiset(Ids(g))
  {
    NNWalkIds(g[0].at, g[1..]);
    IdsAppend([g[0]], NNWalk(g[0].at, g[1..]));
    IdsAppend([g[0]], g[1..]);
    assert [g[0]] + g[1..] == g;
  }

  /** Every step after the first moves to a point no farther from the last
      visited point than any point visited later. */
  lemma RouteGreedy(g: seq<Point>, j: nat, k: nat)
    requires 1 <= j <= k < |g|
    ensures SqDist(Route(g)[j - 1].at, Route(g)[j].at) <= SqDist(Route(g)[j - 1].at, Route(g)[k].at)
  {
    RouteUnfold(g);
    NNWalkGreedy(g[0].at, g[1..], j - 1, k - 1);
  }

  /** Ties go to the earlier point of the group's input order: if the points
      visited at steps j < k are g[a] and g[b] and are equally far from the
      point visited at step j - 1, then a < b. */
  lemma RouteTieBreak(g: seq<Point>, j: nat, k: nat, a: nat, b: nat)
    requires Distinct(g)
    requires 1 <= j < k < |g| && a < |g| && b < |g|
    requires g[a] == Route(g)[j] && g[b] == Route(g)[k]
    requires SqDist(Route(g)[j - 1].at, Route(g)[j].at) == SqDist(Route(g)[j - 1].at, Route(g)[k].at)
    ensures a < b
  {
    var w := NNWalk(g[0].at, g[1..]);
    RouteUnfold(g);
    assert g[a] == w[j - 1] && g[b] == w[k - 1];
    assert Prev(g[0].at, w, j - 1) == Route(g)[j - 1].at;
    var ma := NNWalkSource(g[0].at, g[1..], j - 1);
    var mb := NNWalkSource(g[0].at, g[1..], k - 1);
    DropSource(g, ma, a);
    DropSource(g, mb, b);
    DistinctDrop(g);
    NNWalkTieBreak(g[0].at, g[1..], j - 1, k - 1, ma, mb);
  }

  /** In a repeat-free list, the element at position m of the tail is at
      position m + 1 and nowhere else. */
  lemma DropSource<T>(s: seq<T>, m: nat, a: nat)
    requires Distinct(s) && m < |s| - 1 && a < |s|
    requires s[a] == s[1..][m]
    ensures a == m + 1
  {
  }

  /** The tail of a repeat-free list is repeat-free. */
  lemma DistinctDrop<T>(s: seq<T>)
    requires Distinct(s) && |s| >= 1
    ensures Distinct(s[1..])
  {
    forall x, y | 0 <= x < y < |s| - 1 ensures s[1..][x] != s[1..][y] {
      assert s[1..][x] == s[x + 1] && s[1..][y] == s[y + 1];
    }
  }

  /** Numbers a visiting order from 1: (ponto_id, position) per step. */
  function Numbered(r: seq<Point>): (os: seq<(int, int)>)
    ensures |os| == |r|
    ensures forall t {:trigger os[t]} :: 0 <= t < |r| ==> os[t] == (r[t].id, t + 1)
  {
    seq(|r|, t requires 0 <= t < |r| => (r[t].id, t + 1))
  }

  /** The visit orders of a group: its route, numbered from 1. */
  function GroupOrders(g: seq<Point>): (os: seq<(int, int)>)
    requires |g| >= 1
    ensures |os| == |g|
  {
    Numbered(Route(g))
  }

  /** The line of a group: the visited coordinates in walk order, left open;
      a group of one point has no line. */
  function GroupLine(g: seq<Point>): Option<seq<Coord>>
    requires |g| >= 1
  {
    if |g| < 2 then None else Some(Coords(Route(g)))
  }

  function Firsts(os: seq<(int, int)>): (ids: seq<int>)
    ensures |ids| == |os|
    ensures forall t {:trigger ids[t]} :: 0 <= t < |os| ==> ids[t] == os[t].0
  {
    seq(|os|, t requires 0 <= t < |os| => os[t].0)
  }

  /** The visit positions of a group are 1..M, one per point: the ids they
      carry are those of the group, each as often as in the group, and each
      entry names the point visited at that step. */
  lemma GroupOrdersBijection(g: seq<Point>)
    requires |g| >= 1
    ensures multiset(Firsts(GroupOrders(g))) == multiset(Ids(g))
    ensures forall t :: 0 <= t < |g| ==> GroupOrders(g)[t] == (Route(g)[t].id, t + 1)
  {
    RouteIds(g);
    assert Firsts(GroupOrders(g)) == Ids(Route(g));
  }

  /** Each vertex of a group's line is the coordinate of the point its visit
      order names, and that point belongs to the group. */
  lemma GroupLineVertices(g: seq<Point>, t: nat)
    requires |g| >= 2 && t < |g|
    ensures GroupLine(g).Some? && |GroupLine(g).value| == |g|
    ensures Point(GroupOrders(g)[t].0, GroupLine(g).value[t]) == Route(g)[t]
    ensures Route(g)[t] in g
  {
    RoutePermutation(g);
    assert Route(g)[t] in multiset(Route(g));
  }

  /** Splitting a point list into ids and coordinates and pairing them again
      gives the list back. */
  lemma ZipSplit(ps: seq<Point>)
    ensures Zip(Ids(ps), Coords(ps)) == ps
  {
  }

  lemma IdsZip(ids: seq<int>, cs: seq<Coord>)
    requires |ids| == |cs|
    ensures Ids(Zip(ids, cs)) == ids
  {
  }

  lemma CoordsZip(ids: seq<int>, cs: seq<Coord>)
    requires |ids| == |cs|
    ensures Coords(Zip(ids, cs)) == cs
  {
  }

  lemma ZipRemove(ids: seq<int>, cs: seq<Coord>, i: nat)
    requires |ids| == |cs| && i < |ids|
    ensures Remove(Zip(ids, cs), i) == Zip(Remove(ids, i), Remove(cs, i))
  {
  }

  lemma ZipSnoc(ids: seq<int>, cs: seq<Coord>, x: int, c: Coord)
    requires |ids| == |cs|
    ensures Zip(ids + [x], cs + [c]) == Zip(ids, cs) + [Point(x, c)]
  {
  }

  /** The first step of the walk through paired id and coordinate lists. */
  lemma WalkFirst(ids: seq<int>, cs: seq<Coord>, last: Coord)
    requires |ids| == |cs| >= 1
    ensures var i := ArgMinFirst(last, cs);
      NNWalk(last, Zip(ids, cs)) == [Point(ids[i], cs[i])] + NNWalk(cs[i], Zip(Remove(ids, i), Remove(cs, i)))
  {
    CoordsZip(ids, cs);
    ZipRemove(ids, cs, ArgMinFirst(last, cs));
  }

  lemma AppendAssoc<T>(a: seq<T>, p: T, b: seq<T>)
    ensures (a + [p]) + b == a + ([p] + b)
  {
  }

  /** One iteration of the walk loop keeps "visited, then the walk through the
      remaining points" unchanged. */
  lemma WalkStep(visitadosIds: seq<int>, visitados: seq<Coord>, ids: seq<int>, cs: seq<Coord>)
    requires |visitadosIds| == |visitados| >= 1
    requires |ids| == |cs| >= 1
    ensures var i := ArgMinFirst(visitados[|visitados| - 1], cs);
      Zip(visitadosIds + [ids[i]], visitados + [cs[i]]) + NNWalk(cs[i], Zip(Remove(ids, i), Remove(cs, i)))
      == Zip(visitadosIds, visitados) + NNWalk(visitados[|visitados| - 1], Zip(ids, cs))
  {
    var i := ArgMinFirst(visitados[|visitados| - 1], cs);
    WalkFirst(ids, cs, visitados[|visitados| - 1]);
    ZipSnoc(visitadosIds, visitados, ids[i], cs[i]);
    AppendAssoc(Zip(visitadosIds, visitados), Point(ids[i], cs[i]), NNWalk(cs[i], Zip(Remove(ids, i), Remove(cs, i))));
  }

  /** Before the loop: the first point is visited and the rest remain. */
  lemma WalkInit(ids: seq<int>, cs: seq<Coord>)
    requires |ids| == |cs| >= 1
    ensures Zip([ids[0]], [cs[0]]) + NNWalk(cs[0], Zip(ids[1..], cs[1..])) == Route(Zip(ids, cs))
  {
    ZipTail(ids, cs);
  }

  lemma ZipTail(ids: seq<int>, cs: seq<Coord>)
    requires |ids| == |cs| >= 1
    ensures Zip(ids, cs)[1..] == Zip(ids[1..], cs[1..])
    ensures Zip(ids, cs)[0] == Point(ids[0], cs[0])
  {
  }

  /** After the loop nothing remains, so the visited lists are the route. */
  lemma WalkDone(ids: seq<int>, cs: seq<Coord>)
    requires |ids| == |cs| >= 1
    ensures Zip(ids, cs) + NNWalk(cs[|cs| - 1], Zip([], [])) == Zip(ids, cs)
  {
    assert Zip([], []) == [];
  }

  /** The walk of one group, as the loop that pops the coordinate list and the
      id list at the same index and appends to the visited lists. */
  method Walk(groupCoords: seq<Coord>, pontoIds: seq<int>) returns (visitados: seq<Coord>, visitadosIds: seq<int>)
    requires |groupCoords| == |pontoIds| >= 1
    ensures |visitados| == |visitadosIds| == |groupCoords|
    ensures visitados[0] == groupCoords[0] && visitadosIds[0] == pontoIds[0]
    ensures Zip(visitadosIds, visitados) == Route(Zip(pontoIds, groupCoords))
  {
    ghost var g := Zip(pontoIds, groupCoords);
    var coords := groupCoords[1..];
    var idsRestantes := pontoIds[1..];
    visitados := [groupCoords[0]];
    visitadosIds := [pontoIds[0]];
    WalkInit(pontoIds, groupCoords);
    while coords != []
      invariant |coords| == |idsRestantes|
      invariant |visitados| == |visitadosIds| >= 1
      invariant |visitados| + |coords| == |groupCoords|
      invariant visitados[0] == groupCoords[0] && visitadosIds[0] == pontoIds[0]
      invariant Zip(visitadosIds, visitados) + NNWalk(visitados[|visitados| - 1], Zip(idsRestantes, coords)) == Route(g)
      decreases |coords|
    {
      var i := ArgMinFirst(visitados[|visitados| - 1], coords);
      WalkStep(visitadosIds, visitados, idsRestantes, coords);
      visitados := visitados + [coords[i]];
      coords := Remove(coords, i);
      visitadosIds := visitadosIds + [idsRestantes[i]];
      idsRestantes := Remove(idsRestantes, i);
    }
    WalkDone(visitadosIds, visitados);
  }

  /** The orders and the line of one group: a group of one point is numbered 1
      and gets no line; a larger group is walked, numbered 1..M in walk order
      and its visited coordinates become the line. */
  method RouteGroup(groupCoords: seq<Coord>, pontoIds: seq<int>) returns (ordens: seq<(int, int)>, linha: Option<seq<Coord>>)
    requires |groupCoords| == |pontoIds| >= 1
    ensures ordens == GroupOrders(Zip(pontoIds, groupCoords))
    ensures linha == GroupLine(Zip(pontoIds, groupCoords))
    ensures |ordens| == |pontoIds| && ordens[0] == (pontoIds[0], 1)
    ensures forall t :: 0 <= t < |ordens| ==> ordens[t].1 == t + 1
    ensures multiset(Firsts(ordens)) == multiset(pontoIds)
    ensures linha.None? <==> |groupCoords| < 2
  {
    ghost var g := Zip(pontoIds, groupCoords);
    IdsZip(pontoIds, groupCoords);
    GroupOrdersBijection(g);
    if |groupCoords| < 2 {
      ordens := [(pontoIds[0], 1)];
      linha := None;
      assert Route(g) == [g[0]];
      return;
    }
    var visitados, visitadosIds := Walk(groupCoords, pontoIds);
    CoordsZip(visitadosIds, visitados);
    IdsZip(visitadosIds, visitados);
    linha := Some(visitados);
    ordens := [];
    for ordem := 1 to |visitadosIds| + 1
      invariant |ordens| == ordem - 1
      invariant forall t :: 0 <= t < ordem - 1 ==> ordens[t] == (visitadosIds[t], t + 1)
    {
      ordens := ordens + [(visitadosIds[ordem - 1], ordem)];
    }
    assert forall t :: 0 <= t < |ordens| ==> ordens[t] == (Route(g)[t].id, t + 1);
  }
}
