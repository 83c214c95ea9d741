/** Small concrete routes: the walk order on a line of four points, and the
    tie between two points at equal distance. */
module WorkedRoutes {
  import opened Geometry
  import opened RouteBuilder

  /** From (0,0) the walk visits (1,0), then (10,0), then (20,0): the point
      order 0, 2, 1, 3. */
  lemma FourOnALine()
    ensures Route([Point(0, (0, 0)), Point(1, (10, 0)), Point(2, (1, 0)), Point(3, (20, 0))])
         == [Point(0, (0, 0)), Point(2, (1, 0)), Point(1, (10, 0)), Point(3, (20, 0))]
  {
    var g := [Point(0, (0, 0)), Point(1, (10, 0)), Point(2, (1, 0)), Point(3, (20, 0))];
    var rem := g[1..];
    assert ArgMinFirst((0, 0), Coords(rem)) == 1;
    var r1 := Remove(rem, 1);
    assert r1 == [Point(1, (10, 0)), Point(3, (20, 0))];
    assert ArgMinFirst((1, 0), Coords(r1)) == 0;
    var r2 := Remove(r1, 0);
    assert r2 == [Point(3, (20, 0))];
    assert ArgMinFirst((10, 0), Coords(r2)) == 0;
    NNWalkCons((0, 0), rem);
    NNWalkCons((1, 0), r1);
    NNWalkCons((10, 0), r2);
    assert Remove(r2, 0) == [];
  }

  /** Starting at (0,0), the points (5,0) and (-5,0) are equally near; the
      one that comes first in the group is visited first. */
  lemma TieGoesToFirst()
    ensures Route([Point(7, (0, 0)), Point(8, (5, 0)), Point(9, (-5, 0))])
         == [Point(7, (0, 0)), Point(8, (5, 0)), Point(9, (-5, 0))]
  {
    var g := [Point(7, (0, 0)), Point(8, (5, 0)), Point(9, (-5, 0))];
    var rem := g[1..];
    assert ArgMinFirst((0, 0), Coords(rem)) == 0;
    var r1 := Remove(rem, 0);
    assert r1 == [Point(9, (-5, 0))];
    assert ArgMinFirst((5, 0), Coords(r1)) == 0;
    NNWalkCons((0, 0), rem);
    NNWalkCons((5, 0), r1);
    assert Remove(r1, 0) == [];
  }
}
