/** Planar coordinates and the nearest-point choice made at every step of a route.

    The route builder measures Euclidean distance between planar coordinates and
    picks the first remaining point at minimum distance. Coordinates are modelled
    as integer pairs and distance as squared Euclidean distance: the square root
    is monotone, so the index of the minimum is the same. */
module Geometry {

  /** A planar coordinate (x, y). */
  type Coord = (int, int)

  /** Squared Euclidean distance between two coordinates. */
  function SqDist(a: Coord, b: Coord): nat
  {
    (a.0 - b.0) * (a.0 - b.0) + (a.1 - b.1) * (a.1 - b.1)
  }

  /** The least index of a coordinate in `cs` at minimum distance from `p`:
      the choice made by an argmin over the distance row, whose ties go to
      the first occurrence. */
  function ArgMinFirst(p: Coord, cs: seq<Coord>): (i: nat)
    requires |cs| > 0
    ensures i < |cs|
    ensures forall j :: 0 <= j < |cs| ==> SqDist(p, cs[i]) <= SqDist(p, cs[j])
    ensures forall j :: 0 <= j < i ==> SqDist(p, cs[i]) < SqDist(p, cs[j])
  {
    ArgMinPrefix(p, cs, |cs|)
  }

  /** The first index of minimum distance among the first n coordinates;
      a later index replaces the current one only when strictly nearer. */
  function ArgMinPrefix(p: Coord, cs: seq<Coord>, n: nat): (i: nat)
    requires 0 < n <= |cs|
    ensures i < n
    ensures forall j :: 0 <= j < n ==> SqDist(p, cs[i]) <= SqDist(p, cs[j])
    ensures forall j :: 0 <= j < i ==> SqDist(p, cs[i]) < SqDist(p, cs[j])
    decreases n
  {
    if n == 1 then 0
    else
      var i := ArgMinPrefix(p, cs, n - 1);
      if SqDist(p, cs[n - 1]) < SqDist(p, cs[i]) then n - 1 else i
  }

  /** The two properties in the contract of ArgMinFirst (a minimum, and no
      earlier index reaches it) determine the index: any index that has both
      is the one ArgMinFirst returns. */
  lemma ArgMinFirstUnique(p: Coord, cs: seq<Coord>, i: nat)
    requires i < |cs|
    requires forall j :: 0 <= j < |cs| ==> SqDist(p, cs[i]) <= SqDist(p, cs[j])
    requires forall j :: 0 <= j < i ==> SqDist(p, cs[i]) < SqDist(p, cs[j])
    ensures ArgMinFirst(p, cs) == i
  {
  }
}
