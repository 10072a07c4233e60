/**
 The corpus builder of `local_statistical_complexity_filter.py` (past_lightcones):
 a t-major scan of every cell of every grid that records, for each past-cone
 signature, the set of non-zero strict future cones observed after it.

 Python's `defaultdict(set)` keeps its keys in insertion order and creates an
 entry only when a future is added to it, so a signature whose futures were all
 zero (or all empty) never becomes a key.
 */
module Corpus {
  import opened Builtins
  import opened LightCone

  /** A past-cone signature. */
  type Key = string

  /** The symbols of one strict future cone, as a tuple. */
  type Future = seq<int>

  /** One scanned cell: its past-cone signature and its future cone. */
  type Observation = (Key, Future)

  /** Python's `any(future)`: some symbol is non-zero. */
  predicate NonZero(f: Future) {
    exists i :: 0 <= i < |f| && f[i] != 0
  }

  /** An insertion-ordered dictionary from signatures to sets of futures. */
  datatype Corpus = Corpus(order: seq<Key>, futures: map<Key, set<Future>>)

  /** What every corpus the builder produces satisfies. */
  predicate Valid(c: Corpus) {
    && Distinct(c.order)
    && (forall k :: k in c.futures ==> k in c.order)
    && (forall k :: k in c.order ==> k in c.futures)
    && (forall k :: k in c.futures ==> c.futures[k] != {})
    && (forall k, f :: k in c.futures && f in c.futures[k] ==> NonZero(f))
  }

  const Empty: Corpus := Corpus([], map[])

  /** One scan step (past_lightcones, lines 93-96). */
  function Record(c: Corpus, key: Key, future: Future): (c': Corpus)
    requires Valid(c)
    ensures Valid(c')
    ensures c'.futures.Keys == c.futures.Keys + (if NonZero(future) then {key} else {})
    ensures forall k :: k in c.futures && k != key ==> c'.futures[k] == c.futures[k]
    ensures key in c'.futures ==>
              c'.futures[key] == (if key in c.futures then c.futures[key] else {})
                                 + (if NonZero(future) then {future} else {})
    ensures c'.order == c.order + (if key in c'.futures && key !in c.futures then [key] else [])
  {
    if !NonZero(future) then c
    else if key in c.futures then c.(futures := c.futures[key := c.futures[key] + {future}])
    else Corpus(c.order + [key], c.futures[key := {future}])
  }

  /** The corpus recorded from a sequence of observations, in order. */
  function Collect(obs: seq<Observation>): (c: Corpus)
    ensures Valid(c)
    decreases |obs|
  {
    if obs == [] then Empty
    else Record(Collect(obs[..|obs| - 1]), obs[|obs| - 1].0, obs[|obs| - 1].1)
  }

  /** Reference definition: the non-zero futures observed after signature k. */
  function Observed(obs: seq<Observation>, k: Key): set<Future> {
    set i | 0 <= i < |obs| && obs[i].0 == k && NonZero(obs[i].1) :: obs[i].1
  }

  lemma ObservedSnoc(obs: seq<Observation>, k: Key)
    requires obs != []
    ensures Observed(obs, k) == Observed(obs[..|obs| - 1], k)
              + (if obs[|obs| - 1].0 == k && NonZero(obs[|obs| - 1].1) then {obs[|obs| - 1].1} else {})
  {
    var n := |obs| - 1;
    var front := obs[..n];
    forall f | f in Observed(obs, k)
      ensures f in Observed(front, k) || (obs[n].0 == k && NonZero(obs[n].1) && f == obs[n].1)
    {
      var i :| 0 <= i < |obs| && obs[i].0 == k && NonZero(obs[i].1) && obs[i].1 == f;
      if i < n {
        assert front[i] == obs[i];
      }
    }
    forall f | f in Observed(front, k)
      ensures f in Observed(obs, k)
    {
      var i :| 0 <= i < |front| && front[i].0 == k && NonZero(front[i].1) && front[i].1 == f;
      assert obs[i] == front[i];
    }
  }

  /**
   The corpus holds exactly the signatures that were seen with some non-zero
   future, each mapped to exactly the set of non-zero futures seen after it.
   */
  lemma {:induction false} CollectContents(obs: seq<Observation>)
    ensures forall k :: k in Collect(obs).futures <==> Observed(obs, k) != {}
    ensures forall k :: k in Collect(obs).futures ==> Collect(obs).futures[k] == Observed(obs, k)
    decreases |obs|
  {
    if obs != [] {
      var n := |obs| - 1;
      CollectContents(obs[..n]);
      forall k
        ensures Observed(obs, k) == Observed(obs[..n], k)
                  + (if obs[n].0 == k && NonZero(obs[n].1) then {obs[n].1} else {})
      {
        ObservedSnoc(obs, k);
      }
    }
  }

  /**
   Signatures keep the position of their first insertion: the order of the
   corpus of a prefix of the scan is a prefix of the order of the whole scan.
   */
  lemma {:induction false} CollectOrderPrefix(obs: seq<Observation>, n: nat)
    requires n <= |obs|
    ensures Collect(obs[..n]).order <= Collect(obs).order
    decreases |obs| - n
  {
    if n < |obs| {
      CollectOrderPrefix(obs[..|obs| - 1], n);
      assert obs[..|obs| - 1][..n] == obs[..n];
      assert obs[..|obs|] == obs;
    } else {
      assert obs[..n] == obs;
    }
  }

  /** When every future is all zero the corpus stays empty. */
  lemma {:induction false} CollectAllZero(obs: seq<Observation>)
    requires forall i :: 0 <= i < |obs| ==> !NonZero(obs[i].1)
    ensures Collect(obs) == Empty
    decreases |obs|
  {
    if obs != [] {
      CollectAllZero(obs[..|obs| - 1]);
    }
  }

  /** `a` comes strictly before `b` in a t-major, then x, scan. */
  predicate Before(a: (int, int), b: (int, int)) {
    a.0 < b.0 || (a.0 == b.0 && a.1 < b.1)
  }

  /** The cells of a maxTime x maxSpace grid in scan order (past_lightcones, lines 62-63). */
  function Cells(maxTime: nat, maxSpace: nat): (cells: seq<(int, int)>)
    ensures forall i :: 0 <= i < |cells| ==> 0 <= cells[i].0 < maxTime && 0 <= cells[i].1 < maxSpace
    ensures forall t, x :: 0 <= t < maxTime && 0 <= x < maxSpace ==> (t, x) in cells
    ensures forall i, j :: 0 <= i < j < |cells| ==> Before(cells[i], cells[j])
    decreases maxTime
  {
    if maxTime == 0 then []
    else
      var front := Cells(maxTime - 1, maxSpace);
      var row := seq(maxSpace, x requires 0 <= x < maxSpace => (maxTime - 1, x));
      assert forall t, x :: 0 <= t < maxTime && 0 <= x < maxSpace ==> (t, x) in front + row by {
        forall t, x | 0 <= t < maxTime && 0 <= x < maxSpace
          ensures (t, x) in front + row
        {
          if t < maxTime - 1 {
            assert (t, x) in front;
          } else {
            assert (front + row)[|front| + x] == (t, x);
          }
        }
      }
      front + row
  }

  /** The observation made at one cell. */
  function Observe(g: seq<seq<int>>, depth: int, cell: (int, int)): Option<Observation>
    requires IsGrid(g)
  {
    var key :- PastKey(g, cell.0, cell.1, depth);
    var future :- FutureCone(g, cell.0, cell.1, depth);
    Some((key, future))
  }

  /** The observations at a sequence of cells, failing if any cone lookup fails. */
  function ObserveAll(g: seq<seq<int>>, depth: int, cells: seq<(int, int)>): (r: Option<seq<Observation>>)
    requires IsGrid(g)
    ensures r.Some? <==> forall i :: 0 <= i < |cells| ==> Observe(g, depth, cells[i]).Some?
    ensures r.Some? ==> |r.value| == |cells|
    ensures r.Some? ==> forall i :: 0 <= i < |cells| ==> Observe(g, depth, cells[i]) == Some(r.value[i])
    decreases |cells|
  {
    if cells == [] then Some([])
    else
      var first :- Observe(g, depth, cells[0]);
      var rest :- ObserveAll(g, depth, cells[1..]);
      Some([first] + rest)
  }

  /** The observations of one grid in scan order. */
  function GridObservations(g: seq<seq<int>>, depth: int): Option<seq<Observation>>
    requires IsGrid(g)
  {
    ObserveAll(g, depth, Cells(|g|, Width(g)))
  }

  /** The observations of several grids, one grid after the other. */
  function Observations(grids: seq<seq<seq<int>>>, depth: int): Option<seq<Observation>>
    requires forall j :: 0 <= j < |grids| ==> IsGrid(grids[j])
    decreases |grids|
  {
    if grids == [] then Some([])
    else
      var later := grids[1..];
      assert forall j :: 0 <= j < |later| ==> later[j] == grids[j + 1];
      var first :- GridObservations(grids[0], depth);
      var rest :- Observations(later, depth);
      Some(first + rest)
  }

  /** The corpus of several grids (past_lightcones); None when a cone lookup raises IndexError. */
  function PastLightcones(grids: seq<seq<seq<int>>>, depth: int): (r: Option<Corpus>)
    requires forall j :: 0 <= j < |grids| ==> IsGrid(grids[j])
    ensures r.Some? <==> forall j :: 0 <= j < |grids| ==> GridObservations(grids[j], depth).Some?
    ensures r.Some? ==> Valid(r.value)
  {
    ObservationsDefined(grids, depth);
    var obs :- Observations(grids, depth);
    Some(Collect(obs))
  }

  /** The scan of several grids fails exactly when the scan of one of them does. */
  lemma {:induction false} ObservationsDefined(grids: seq<seq<seq<int>>>, depth: int)
    requires forall j :: 0 <= j < |grids| ==> IsGrid(grids[j])
    ensures Observations(grids, depth).Some? <==> forall j :: 0 <= j < |grids| ==> GridObservations(grids[j], depth).Some?
    decreases |grids|
  {
    if grids != [] {
      var later := grids[1..];
      assert forall j :: 0 <= j < |later| ==> later[j] == grids[j + 1];
      ObservationsDefined(later, depth);
      var first := GridObservations(grids[0], depth);
      var rest := Observations(later, depth);
      assert Observations(grids, depth).Some? <==> first.Some? && rest.Some?;
      if first.Some? && rest.Some? {
        forall j | 0 <= j < |grids|
          ensures GridObservations(grids[j], depth).Some?
        {
          if j > 0 {
            assert grids[j] == later[j - 1];
          }
        }
      }
    }
  }

  /** The observations of a single grid are that grid's scan. */
  lemma SingleGrid(g: seq<seq<int>>, depth: int)
    requires IsGrid(g)
    ensures Observations([g], depth) == GridObservations(g, depth)
  {
    assert [g][1..] == [];
    if GridObservations(g, depth).Some? {
      assert GridObservations(g, depth).value + [] == GridObservations(g, depth).value;
    }
  }

  /** Every cell of a grid is observed somewhere in the scan of that grid. */
  lemma CellObserved(g: seq<seq<int>>, depth: int, t: int, x: int) returns (i: nat)
    requires IsGrid(g) && 0 <= t < |g| && 0 <= x < Width(g)
    requires GridObservations(g, depth).Some?
    ensures i < |GridObservations(g, depth).value|
    ensures Observe(g, depth, (t, x)) == Some(GridObservations(g, depth).value[i])
  {
    var cells := Cells(|g|, Width(g));
    assert (t, x) in cells;
    i :| 0 <= i < |cells| && cells[i] == (t, x);
    var obs := ObserveAll(g, depth, cells);
    assert Observe(g, depth, cells[i]) == Some(obs.value[i]);
  }

  /** An observation is the past-cone signature and the future cone of its cell. */
  lemma ObserveParts(g: seq<seq<int>>, depth: int, cell: (int, int), ob: Observation)
    requires IsGrid(g) && Observe(g, depth, cell) == Some(ob)
    ensures PastKey(g, cell.0, cell.1, depth) == Some(ob.0)
    ensures FutureCone(g, cell.0, cell.1, depth) == Some(ob.1)
  {
  }

  /** With spread 1 and 1 <= depth <= width + 1 the scan of a grid never fails. */
  lemma GridObservationsDefined(g: seq<seq<int>>, depth: int)
    requires IsGrid(g) && 1 <= depth <= Width(g) + 1
    ensures GridObservations(g, depth).Some?
  {
    var cells := Cells(|g|, Width(g));
    forall i | 0 <= i < |cells|
      ensures Observe(g, depth, cells[i]).Some?
    {
      ConesDefined(g, cells[i].0, cells[i].1, depth);
    }
  }

  /** Every cone value of an all-zero grid is zero, so no future is recorded. */
  lemma ZeroGridEmptyCorpus(g: seq<seq<int>>, depth: int)
    requires IsGrid(g)
    requires forall t, x :: 0 <= t < |g| && 0 <= x < |g[t]| ==> g[t][x] == 0
    ensures PastLightcones([g], depth) == None || PastLightcones([g], depth) == Some(Empty)
  {
    var r := GridObservations(g, depth);
    if r.Some? {
      var obs := r.value;
      var cells := Cells(|g|, Width(g));
      forall i | 0 <= i < |obs|
        ensures !NonZero(obs[i].1)
      {
        ZeroGridFuture(g, depth, cells[i], obs[i]);
      }
      CollectAllZero(obs);
      assert [g][1..] == [];
      assert Observations([g], depth) == Some(obs + []);
      assert obs + [] == obs;
    }
  }

  lemma ZeroGridFuture(g: seq<seq<int>>, depth: int, cell: (int, int), ob: Observation)
    requires IsGrid(g)
    requires forall t, x :: 0 <= t < |g| && 0 <= x < |g[t]| ==> g[t][x] == 0
    requires Observe(g, depth, cell) == Some(ob)
    ensures !NonZero(ob.1)
  {
    var coords := Coordinates(cell.1, cell.0, Width(g), |g|, depth, 1, false);
    assert CellValues(g, coords) == Some(ob.1);
    forall j | 0 <= j < |ob.1|
      ensures ob.1[j] == 0
    {
      assert GridAt(g, coords[j].0, coords[j].1) == Some(ob.1[j]);
    }
  }
}
