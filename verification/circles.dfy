/**
 The neighbourhood enumeration of `domain_filters/contours_via_circles.py`:
 the integer offsets at a given Manhattan distance, and the in-bounds points
 of a grid within a given Manhattan distance of a centre, listed ring by
 ring from the centre outwards.
 */
module Circles {
  import opened Builtins

  type Point = (int, int)

  /** Manhattan length of an offset. */
  function Norm(p: Point): nat {
    Abs(p.0) + Abs(p.1)
  }

  /** The offset that leads from q to p. */
  function Offset(p: Point, q: Point): Point {
    (p.0 - q.0, p.1 - q.1)
  }

  /** Manhattan distance between two points. */
  function Distance(p: Point, q: Point): nat {
    Norm(Offset(p, q))
  }

  /**
   One pass of the loop of pairwise_combinations (lines 10-17) for
   a = first: (a, b), then (-a, b) when a is non-zero, (a, -b) when b is
   non-zero, and (-a, -b) when both are.
   */
  function SignVariants(r: int, first: int): seq<Point> {
    var b := r - Abs(first);
    [(first, b)]
    + (if first != 0 then [(-first, b)] else [])
    + (if b != 0 then [(first, -b)] else [])
    + (if first != 0 && b != 0 then [(-first, -b)] else [])
  }

  /** The loop of pairwise_combinations over a in range(n). */
  function VariantsBelow(r: int, n: int): seq<Point>
    decreases n
  {
    if n <= 0 then [] else VariantsBelow(r, n - 1) + SignVariants(r, n - 1)
  }

  /** pairwise_combinations (lines 6-18): every offset (a, b) with |a| + |b| = r, each once. */
  function PairwiseCombinations(r: int): (ps: seq<Point>)
    ensures forall p {:trigger p in ps} :: p in ps <==> Norm(p) == r
    ensures Distinct(ps)
  {
    var ps := VariantsBelow(r, r + 1);
    VariantsSound(r, r + 1);
    VariantsComplete(r, r + 1);
    VariantsDistinct(r, r + 1);
    ps
  }

  /** Every variant for a = first has norm r and first coordinate a or -a. */
  lemma SignVariantsSound(r: int, first: int)
    requires 0 <= first <= r
    ensures forall i :: 0 <= i < |SignVariants(r, first)| ==>
              Abs(SignVariants(r, first)[i].0) == first && Norm(SignVariants(r, first)[i]) == r
  {
  }

  /** Every offset of norm r whose first coordinate is a or -a is among the variants for a. */
  lemma SignVariantsComplete(r: int, first: int)
    requires 0 <= first <= r
    ensures forall p: Point :: Abs(p.0) == first && Norm(p) == r ==> p in SignVariants(r, first)
  {
    var b := r - first;
    forall p: Point | Abs(p.0) == first && Norm(p) == r
      ensures p in SignVariants(r, first)
    {
      assert Abs(p.1) == b;
      if p.0 == first && p.1 == b {
        assert SignVariants(r, first)[0] == p;
      }
    }
  }

  lemma SignVariantsDistinct(r: int, first: int)
    requires 0 <= first <= r
    ensures Distinct(SignVariants(r, first))
  {
  }

  lemma {:induction false} VariantsSound(r: int, n: int)
    requires n <= r + 1
    ensures forall i :: 0 <= i < |VariantsBelow(r, n)| ==>
              Abs(VariantsBelow(r, n)[i].0) < n && Norm(VariantsBelow(r, n)[i]) == r
    decreases n
  {
    if n > 0 {
      var front := VariantsBelow(r, n - 1);
      var block := SignVariants(r, n - 1);
      VariantsSound(r, n - 1);
      SignVariantsSound(r, n - 1);
      var all := VariantsBelow(r, n);
      forall i | 0 <= i < |all|
        ensures Abs(all[i].0) < n && Norm(all[i]) == r
      {
        if i < |front| {
          assert all[i] == front[i];
        } else {
          assert all[i] == block[i - |front|];
        }
      }
    }
  }

  lemma {:induction false} VariantsComplete(r: int, n: int)
    requires n <= r + 1
    ensures forall p: Point :: Abs(p.0) < n && Norm(p) == r ==> p in VariantsBelow(r, n)
    decreases n
  {
    if n > 0 {
      VariantsComplete(r, n - 1);
      SignVariantsComplete(r, n - 1);
    }
  }

  lemma {:induction false} VariantsDistinct(r: int, n: int)
    requires n <= r + 1
    ensures Distinct(VariantsBelow(r, n))
    decreases n
  {
    if n > 0 {
      var front := VariantsBelow(r, n - 1);
      var block := SignVariants(r, n - 1);
      VariantsDistinct(r, n - 1);
      VariantsSound(r, n - 1);
      SignVariantsSound(r, n - 1);
      SignVariantsDistinct(r, n - 1);
      DistinctConcat(front, block);
    }
  }

  /** Offsets come in order of |a|: the block for each a follows the blocks for smaller ones. */
  lemma {:induction false} VariantsOrdered(r: int, n: int)
    requires n <= r + 1
    ensures forall i, j :: 0 <= i < j < |VariantsBelow(r, n)| ==>
              Abs(VariantsBelow(r, n)[i].0) <= Abs(VariantsBelow(r, n)[j].0)
    decreases n
  {
    if n > 0 {
      var front := VariantsBelow(r, n - 1);
      var block := SignVariants(r, n - 1);
      var all := VariantsBelow(r, n);
      VariantsOrdered(r, n - 1);
      VariantsSound(r, n - 1);
      SignVariantsSound(r, n - 1);
      forall i, j | 0 <= i < j < |all|
        ensures Abs(all[i].0) <= Abs(all[j].0)
      {
        if j >= |front| {
          assert all[j] == block[j - |front|];
          if i < |front| {
            assert all[i] == front[i];
          } else {
            assert all[i] == block[i - |front|];
          }
        } else {
          assert all[i] == front[i] && all[j] == front[j];
        }
      }
    }
  }

  /**
   The list is ordered by |a| ascending, starts with (0, r) and, for r > 0,
   ends with (-r, 0).
   */
  lemma PairwiseOrder(r: int)
    requires r >= 0
    ensures forall i, j :: 0 <= i < j < |PairwiseCombinations(r)| ==>
              Abs(PairwiseCombinations(r)[i].0) <= Abs(PairwiseCombinations(r)[j].0)
    ensures |PairwiseCombinations(r)| > 0 && PairwiseCombinations(r)[0] == (0, r)
    ensures r > 0 ==> PairwiseCombinations(r)[|PairwiseCombinations(r)| - 1] == (-r, 0)
  {
    VariantsOrdered(r, r + 1);
    VariantsStart(r, r + 1);
  }

  lemma {:induction false} VariantsStart(r: int, n: int)
    requires 0 < n <= r + 1
    ensures |VariantsBelow(r, n)| > 0 && VariantsBelow(r, n)[0] == (0, r)
    decreases n
  {
    if n > 1 {
      VariantsStart(r, n - 1);
    }
  }

  /** There are 4r offsets of norm r > 0, one of norm 0 and none of negative norm. */
  lemma PairwiseCount(r: int)
    ensures r < 0 ==> PairwiseCombinations(r) == []
    ensures r == 0 ==> PairwiseCombinations(r) == [(0, 0)]
    ensures r > 0 ==> |PairwiseCombinations(r)| == 4 * r
  {
    if r > 0 {
      VariantsCount(r, r);
    }
  }

  lemma {:induction false} VariantsCount(r: int, n: int)
    requires 0 < n <= r
    ensures |VariantsBelow(r, n)| == 4 * n - 2
    decreases n
  {
    if n > 1 {
      VariantsCount(r, n - 1);
    }
  }

  /** Inside a grid of the given width and height. */
  predicate InBounds(p: Point, width: int, height: int) {
    0 <= p.0 < width && 0 <= p.1 < height
  }

  /**
   The inner loop of circular_neighbourhood (lines 28-32): each offset added
   to the centre, kept when the point lies inside the grid.
   */
  function Placed(centre: Point, offsets: seq<Point>, width: int, height: int): seq<Point>
    decreases |offsets|
  {
    if offsets == [] then []
    else
      var d := offsets[|offsets| - 1];
      var p := (centre.0 + d.0, centre.1 + d.1);
      var rest := Placed(centre, offsets[..|offsets| - 1], width, height);
      if InBounds(p, width, height) then rest + [p] else rest
  }

  lemma {:induction false} PlacedSound(centre: Point, offsets: seq<Point>, width: int, height: int)
    ensures forall i :: 0 <= i < |Placed(centre, offsets, width, height)| ==>
              InBounds(Placed(centre, offsets, width, height)[i], width, height)
              && Offset(Placed(centre, offsets, width, height)[i], centre) in offsets
    decreases |offsets|
  {
    if offsets != [] {
      var front := offsets[..|offsets| - 1];
      PlacedSound(centre, front, width, height);
      var rest := Placed(centre, front, width, height);
      var all := Placed(centre, offsets, width, height);
      forall i | 0 <= i < |all|
        ensures InBounds(all[i], width, height) && Offset(all[i], centre) in offsets
      {
        if i < |rest| {
          assert all[i] == rest[i];
          assert Offset(all[i], centre) in front;
        }
      }
    }
  }

  lemma {:induction false} PlacedComplete(centre: Point, offsets: seq<Point>, width: int, height: int)
    ensures forall p: Point :: InBounds(p, width, height) && Offset(p, centre) in offsets ==>
              p in Placed(centre, offsets, width, height)
    decreases |offsets|
  {
    if offsets != [] {
      var front := offsets[..|offsets| - 1];
      var d := offsets[|offsets| - 1];
      PlacedComplete(centre, front, width, height);
      forall p: Point | InBounds(p, width, height) && Offset(p, centre) in offsets
        ensures p in Placed(centre, offsets, width, height)
      {
        assert offsets == front + [d];
        if Offset(p, centre) !in front {
          assert p == (centre.0 + d.0, centre.1 + d.1);
        }
      }
    }
  }

  lemma {:induction false} PlacedDistinct(centre: Point, offsets: seq<Point>, width: int, height: int)
    requires Distinct(offsets)
    ensures Distinct(Placed(centre, offsets, width, height))
    decreases |offsets|
  {
    if offsets != [] {
      var front := offsets[..|offsets| - 1];
      var d := offsets[|offsets| - 1];
      var p := (centre.0 + d.0, centre.1 + d.1);
      PlacedDistinct(centre, front, width, height);
      PlacedSound(centre, front, width, height);
      var rest := Placed(centre, front, width, height);
      if InBounds(p, width, height) {
        forall i | 0 <= i < |rest|
          ensures rest[i] != p
        {
          assert Offset(rest[i], centre) in front;
          var k :| 0 <= k < |front| && front[k] == Offset(rest[i], centre);
          assert offsets[k] != offsets[|offsets| - 1];
        }
        DistinctConcat(rest, [p]);
      }
    }
  }

  /** The in-bounds points at exactly distance r from the centre (lines 28-32 for one r). */
  function Ring(centre: Point, r: int, width: int, height: int): seq<Point> {
    Placed(centre, PairwiseCombinations(r), width, height)
  }

  lemma RingSound(centre: Point, r: int, width: int, height: int)
    ensures forall i :: 0 <= i < |Ring(centre, r, width, height)| ==>
              InBounds(Ring(centre, r, width, height)[i], width, height)
              && Distance(Ring(centre, r, width, height)[i], centre) == r
  {
    PlacedSound(centre, PairwiseCombinations(r), width, height);
  }

  lemma RingComplete(centre: Point, r: int, width: int, height: int)
    ensures forall p: Point :: InBounds(p, width, height) && Distance(p, centre) == r ==>
              p in Ring(centre, r, width, height)
  {
    PlacedComplete(centre, PairwiseCombinations(r), width, height);
  }

  /** The outer loop of circular_neighbourhood over r in range(n). */
  function RingsBelow(centre: Point, n: int, width: int, height: int): seq<Point>
    decreases n
  {
    if n <= 0 then [] else RingsBelow(centre, n - 1, width, height) + Ring(centre, n - 1, width, height)
  }

  lemma {:induction false} RingsSound(centre: Point, n: int, width: int, height: int)
    ensures forall i :: 0 <= i < |RingsBelow(centre, n, width, height)| ==>
              InBounds(RingsBelow(centre, n, width, height)[i], width, height)
              && Distance(RingsBelow(centre, n, width, height)[i], centre) < n
    decreases n
  {
    if n > 0 {
      var front := RingsBelow(centre, n - 1, width, height);
      var ring := Ring(centre, n - 1, width, height);
      RingsSound(centre, n - 1, width, height);
      RingSound(centre, n - 1, width, height);
      NextRingSound(front, ring, centre, n - 1, width, height);
      assert RingsBelow(centre, n, width, height) == front + ring;
    }
  }

  /** Points nearer than r followed by points at r are all nearer than r + 1. */
  lemma NextRingSound(front: seq<Point>, ring: seq<Point>, centre: Point, r: int, width: int, height: int)
    requires forall i :: 0 <= i < |front| ==> InBounds(front[i], width, height) && Distance(front[i], centre) < r
    requires forall i :: 0 <= i < |ring| ==> InBounds(ring[i], width, height) && Distance(ring[i], centre) == r
    ensures forall i :: 0 <= i < |front + ring| ==>
              InBounds((front + ring)[i], width, height) && Distance((front + ring)[i], centre) < r + 1
  {
    var all := front + ring;
    forall i | 0 <= i < |all|
      ensures InBounds(all[i], width, height) && Distance(all[i], centre) < r + 1
    {
      if i < |front| {
        assert all[i] == front[i];
      } else {
        assert all[i] == ring[i - |front|];
      }
    }
  }

  lemma {:induction false} RingsComplete(centre: Point, n: int, width: int, height: int)
    ensures forall p: Point :: InBounds(p, width, height) && Distance(p, centre) < n ==>
              p in RingsBelow(centre, n, width, height)
    decreases n
  {
    if n > 0 {
      RingsComplete(centre, n - 1, width, height);
      RingComplete(centre, n - 1, width, height);
    }
  }

  lemma {:induction false} RingsDistinct(centre: Point, n: int, width: int, height: int)
    ensures Distinct(RingsBelow(centre, n, width, height))
    decreases n
  {
    if n > 0 {
      var front := RingsBelow(centre, n - 1, width, height);
      var ring := Ring(centre, n - 1, width, height);
      RingsDistinct(centre, n - 1, width, height);
      RingsSound(centre, n - 1, width, height);
      RingSound(centre, n - 1, width, height);
      PlacedDistinct(centre, PairwiseCombinations(n - 1), width, height);
      DistinctConcat(front, ring);
    }
  }

  /** Points listed in order of their distance from the centre. */
  predicate NearestFirst(ps: seq<Point>, centre: Point) {
    forall i, j :: 0 <= i < j < |ps| ==> Distance(ps[i], centre) <= Distance(ps[j], centre)
  }

  lemma {:induction false} RingsOrdered(centre: Point, n: int, width: int, height: int)
    ensures NearestFirst(RingsBelow(centre, n, width, height), centre)
    decreases n
  {
    if n > 0 {
      var front := RingsBelow(centre, n - 1, width, height);
      var ring := Ring(centre, n - 1, width, height);
      RingsOrdered(centre, n - 1, width, height);
      RingsSound(centre, n - 1, width, height);
      RingSound(centre, n - 1, width, height);
      NextRingOrdered(front, ring, centre, n - 1, width, height);
      assert RingsBelow(centre, n, width, height) == front + ring;
    }
  }

  /** Ordered points nearer than r followed by points at r stay ordered. */
  lemma NextRingOrdered(front: seq<Point>, ring: seq<Point>, centre: Point, r: int, width: int, height: int)
    requires NearestFirst(front, centre)
    requires forall i :: 0 <= i < |front| ==> InBounds(front[i], width, height) && Distance(front[i], centre) < r
    requires forall i :: 0 <= i < |ring| ==> InBounds(ring[i], width, height) && Distance(ring[i], centre) == r
    ensures NearestFirst(front + ring, centre)
  {
    var all := front + ring;
    forall i, j | 0 <= i < j < |all|
      ensures Distance(all[i], centre) <= Distance(all[j], centre)
    {
      if j >= |front| {
        assert all[j] == ring[j - |front|];
        if i < |front| {
          assert all[i] == front[i];
        } else {
          assert all[i] == ring[i - |front|];
        }
      } else {
        assert all[i] == front[i] && all[j] == front[j];
      }
    }
  }

  /**
   circular_neighbourhood (lines 21-33): the in-bounds points within Manhattan
   distance radius of the centre, each listed once.
   */
  function CircularNeighbourhood(centre: Point, radius: int, width: int, height: int): (ps: seq<Point>)
    ensures forall i :: 0 <= i < |ps| ==> InBounds(ps[i], width, height) && Distance(ps[i], centre) <= radius
    ensures forall p: Point :: InBounds(p, width, height) && Distance(p, centre) <= radius ==> p in ps
    ensures Distinct(ps)
  {
    RingsSound(centre, radius + 1, width, height);
    RingsComplete(centre, radius + 1, width, height);
    RingsDistinct(centre, radius + 1, width, height);
    RingsBelow(centre, radius + 1, width, height)
  }

  /**
   Nearer points come first, and an in-bounds centre is the first point
   listed.
   */
  lemma NeighbourhoodOrder(centre: Point, radius: int, width: int, height: int)
    ensures NearestFirst(CircularNeighbourhood(centre, radius, width, height), centre)
    ensures radius >= 0 && InBounds(centre, width, height) ==>
              |CircularNeighbourhood(centre, radius, width, height)| > 0
              && CircularNeighbourhood(centre, radius, width, height)[0] == centre
  {
    var ps := CircularNeighbourhood(centre, radius, width, height);
    RingsOrdered(centre, radius + 1, width, height);
    if radius >= 0 && InBounds(centre, width, height) {
      assert Distance(centre, centre) == 0;
      ZeroFirst(ps, centre);
    }
  }

  /** In a list ordered by distance that contains the centre, the centre comes first. */
  lemma ZeroFirst(ps: seq<Point>, centre: Point)
    requires NearestFirst(ps, centre) && centre in ps
    ensures |ps| > 0 && ps[0] == centre
  {
    var i :| 0 <= i < |ps| && ps[i] == centre;
    if i != 0 {
      assert Distance(ps[0], centre) <= Distance(ps[i], centre);
    }
    assert Distance(ps[0], centre) == 0;
  }
}
