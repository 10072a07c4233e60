/**
 `SimpleDomainFilter` of `domain_filters/simple.py`: a cell of a lattice is a
 domain cell when, for some radius in [minRadius, maxRadius), the window of
 radius + 1 cells ending at it equals the window of radius + 1 cells starting
 at it, both read with the wraparound that Python slicing provides.

 The wraparound is built from Python slices of the lattice; a negative start
 makes the middle slice count from the end, which is what makes the left
 edge behave differently from the right edge.
 */
module SimpleFilter {
  import opened Builtins

  /**
   _nearest_neighbours (lines 50-62) on a lattice of length n: the slice
   [start:end] with the part left of 0 taken from the end of the lattice and
   the part right of n taken from its front.
   */
  function NearestNeighbours(l: seq<int>, start: int, end: int): seq<int> {
    var leftPad := if start < 0 then PySlice(l, start, |l|) else [];
    var rightPad := if end > |l| then PySlice(l, 0, end - |l|) else [];
    leftPad + PySlice(l, start, end) + rightPad
  }

  /** The window of radius + 1 cells ending at index (lines 34-40). */
  function LeftWindow(l: seq<int>, index: int, radius: int): seq<int> {
    NearestNeighbours(l, index - radius, index + 1)
  }

  /** The window of radius + 1 cells starting at index (lines 41-47). */
  function RightWindow(l: seq<int>, index: int, radius: int): seq<int> {
    NearestNeighbours(l, index, index + radius + 1)
  }

  /** _equal_neighbours (lines 31-48). */
  predicate EqualNeighbours(l: seq<int>, index: int, radius: int) {
    LeftWindow(l, index, radius) == RightWindow(l, index, radius)
  }

  /**
   The loop of classify_element (lines 26-29) over radii lo, lo + 1, ...,
   hi - 1: true as soon as one radius passes.
   */
  function AnyRadius(l: seq<int>, index: int, lo: int, hi: int): (b: bool)
    ensures b <==> exists radius :: lo <= radius < hi && EqualNeighbours(l, index, radius)
    decreases hi - lo
  {
    if lo >= hi then false
    else if EqualNeighbours(l, index, lo) then true
    else AnyRadius(l, index, lo + 1, hi)
  }

  /** The filter's two settings (lines 7-9); the defaults are 1 and 15. */
  datatype Filter = Filter(minRadius: int, maxRadius: int)

  const Default := Filter(1, 15)

  /** classify_element (lines 24-29). */
  function ClassifyElement(f: Filter, l: seq<int>, index: int): bool {
    AnyRadius(l, index, f.minRadius, f.maxRadius)
  }

  /** classify_lattice (lines 16-22): one verdict per cell. */
  function ClassifyLattice(f: Filter, l: seq<int>): (r: seq<bool>)
    ensures |r| == |l|
    ensures forall i :: 0 <= i < |l| ==>
              (r[i] <==> exists radius :: f.minRadius <= radius < f.maxRadius && EqualNeighbours(l, i, radius))
  {
    seq(|l|, i requires 0 <= i < |l| => ClassifyElement(f, l, i))
  }

  /** classify_spacetime (lines 11-14): every lattice classified on its own. */
  function ClassifySpacetime(f: Filter, s: seq<seq<int>>): (r: seq<seq<bool>>)
    ensures SameShape(r, s)
    ensures forall t, i :: 0 <= t < |s| && 0 <= i < |s[t]| ==>
              (r[t][i] <==> exists radius :: f.minRadius <= radius < f.maxRadius && EqualNeighbours(s[t], i, radius))
  {
    seq(|s|, t requires 0 <= t < |s| => ClassifyLattice(f, s[t]))
  }

  /** An empty radius range classifies no cell as a domain cell. */
  lemma EmptyRangeNoDomain(f: Filter, l: seq<int>, index: int)
    requires f.maxRadius <= f.minRadius
    ensures !ClassifyElement(f, l, index)
  {
  }

  /**
   The window starting at index: radius + 1 cells, running past the end of
   the lattice back to its front, so cell i of it is cell (index + i) mod n.
   */
  lemma RightWindowWraps(l: seq<int>, index: int, radius: int)
    requires 0 <= index < |l| && 0 <= radius < |l|
    ensures |RightWindow(l, index, radius)| == radius + 1
    ensures index + radius + 1 > |l| ==>
              RightWindow(l, index, radius) == l[index..] + l[..index + radius + 1 - |l|]
    ensures index + radius + 1 <= |l| ==> RightWindow(l, index, radius) == l[index..index + radius + 1]
    ensures forall i :: 0 <= i <= radius ==> RightWindow(l, index, radius)[i] == l[(index + i) % |l|]
  {
    var n := |l|;
    var w := RightWindow(l, index, radius);
    if index + radius + 1 > n {
      assert w == l[index..] + l[..index + radius + 1 - n];
      forall i | 0 <= i <= radius
        ensures w[i] == l[(index + i) % n]
      {
        if index + i < n {
          ModSmall(index + i, n);
        } else {
          ModSmall(index + i - n, n);
          ModStep(index + i, n);
        }
      }
    } else {
      forall i | 0 <= i <= radius
        ensures w[i] == l[(index + i) % n]
      {
        ModSmall(index + i, n);
      }
    }
  }

  /**
   When radius <= index the window ending at index does not wrap: it is
   l[index - radius .. index + 1].
   */
  lemma LeftWindowInside(l: seq<int>, index: int, radius: int)
    requires 0 <= radius <= index < |l|
    ensures LeftWindow(l, index, radius) == l[index - radius..index + 1]
  {
  }

  /**
   For a cell whose windows both stay inside the lattice, the cell is periodic
   with this radius exactly when l[j] = l[j + radius] for every cell j of the
   window ending at it.
   */
  lemma InteriorEqual(l: seq<int>, index: int, radius: int)
    requires 0 <= radius <= index && index + radius < |l|
    ensures EqualNeighbours(l, index, radius) <==>
              forall j {:trigger l[j]} :: index - radius <= j <= index ==> l[j] == l[j + radius]
  {
    LeftAlignedEqual(l, index, radius);
    ShiftInside(l, index - radius, index, radius);
  }

  /** A shift that stays inside the lattice needs no reduction mod n. */
  lemma ShiftInside(l: seq<int>, lo: int, hi: int, radius: int)
    requires 0 <= lo && 0 <= radius && hi + radius < |l|
    ensures (forall j {:trigger l[j]} :: lo <= j <= hi ==> l[j] == l[j + radius]) <==>
            (forall j {:trigger l[j]} :: lo <= j <= hi ==> l[j] == l[(j + radius) % |l|])
  {
    forall j {:trigger l[j]} | lo <= j <= hi
      ensures l[(j + radius) % |l|] == l[j + radius]
    {
      ModSmall(j + radius, |l|);
    }
  }

  /**
   More generally, for radius <= index the right window may wrap: the cell is
   periodic with this radius exactly when l[j] = l[(j + radius) mod n] for
   every cell j of the window ending at it.
   */
  lemma LeftAlignedEqual(l: seq<int>, index: int, radius: int)
    requires 0 <= radius <= index < |l|
    ensures EqualNeighbours(l, index, radius) <==>
              forall j {:trigger l[j]} :: index - radius <= j <= index ==> l[j] == l[(j + radius) % |l|]
  {
    var a := LeftWindow(l, index, radius);
    var b := RightWindow(l, index, radius);
    LeftWindowInside(l, index, radius);
    RightWindowWraps(l, index, radius);
    ShiftedEqual(l, index, radius, a, b);
  }

  lemma ShiftedEqual(l: seq<int>, index: int, radius: int, a: seq<int>, b: seq<int>)
    requires 0 <= radius <= index < |l|
    requires a == l[index - radius..index + 1]
    requires |b| == radius + 1 && forall i :: 0 <= i <= radius ==> b[i] == l[(index + i) % |l|]
    ensures a == b <==> forall j {:trigger l[j]} :: index - radius <= j <= index ==> l[j] == l[(j + radius) % |l|]
  {
    var lo := index - radius;
    if a == b {
      forall j {:trigger l[j]} | lo <= j <= index
        ensures l[j] == l[(j + radius) % |l|]
      {
        assert a[j - lo] == b[j - lo];
        assert index + (j - lo) == j + radius;
      }
    }
    if forall j {:trigger l[j]} :: lo <= j <= index ==> l[j] == l[(j + radius) % |l|] {
      forall i | 0 <= i < |a|
        ensures a[i] == b[i]
      {
        assert a[i] == l[lo + i];
        assert index + i == lo + i + radius;
      }
    }
  }

  /**
   Near the left edge (index < radius < n) the middle slice has a negative
   start counted from the end and is empty, so the window ending at index has
   only radius - index cells, the last ones of the lattice, and cannot equal
   the window of radius + 1 cells starting at index.
   */
  lemma LeftEdgeShortWindow(l: seq<int>, index: int, radius: int)
    requires 0 <= index < radius < |l|
    ensures LeftWindow(l, index, radius) == l[|l| - (radius - index)..]
    ensures !EqualNeighbours(l, index, radius)
  {
    RightWindowWraps(l, index, radius);
  }

  /**
   Hence a cell left of the smallest radius is never a domain cell when every
   radius tried is below the lattice length; in particular cell 0 never is,
   for the default radii and any lattice of at least 15 cells.
   */
  lemma LeftEdgeNeverDomain(f: Filter, l: seq<int>, index: int)
    requires 0 <= index < f.minRadius && f.maxRadius <= |l|
    ensures !ClassifyElement(f, l, index)
  {
    forall radius | f.minRadius <= radius < f.maxRadius
      ensures !EqualNeighbours(l, index, radius)
    {
      LeftEdgeShortWindow(l, index, radius);
    }
  }

  lemma FirstCellNeverDomain(l: seq<int>)
    requires |l| >= 15
    ensures !ClassifyLattice(Default, l)[0]
  {
    LeftEdgeNeverDomain(Default, l, 0);
  }

  /** A constant lattice: every cell right of the smallest radius is a domain cell. */
  lemma ConstantLatticeDomain(f: Filter, l: seq<int>, index: int)
    requires forall i, j :: 0 <= i < |l| && 0 <= j < |l| ==> l[i] == l[j]
    requires 0 <= f.minRadius <= index < |l| && f.minRadius < f.maxRadius
    ensures ClassifyElement(f, l, index)
  {
    LeftAlignedEqual(l, index, f.minRadius);
    assert EqualNeighbours(l, index, f.minRadius);
  }
}
