/**
 The two outer steps of `local_statistical_complexity_filter.py`:
 statistical_complexity, which gives every recorded past-cone signature the
 value of the causal state it is assigned to, and
 local_statistical_complexity_filter, which paints every cell of a grid with
 the value of its past-cone signature, or minus infinity for a signature the
 table does not know.

 The value of a state is modelled as its probability (member count over the
 number of signatures); the source takes `-log` of it, a strictly decreasing
 map, which is left to floating point.
 */
module ComplexityFilter {
  import opened Builtins
  import opened LightCone
  import opened Corpus
  import opened CausalStates

  /** Every input is a rectangular grid. */
  predicate AllGrids(grids: seq<seq<seq<int>>>) {
    forall j :: 0 <= j < |grids| ==> IsGrid(grids[j])
  }

  /** Every signature of a clustering is assigned to an existing state. */
  lemma AssignmentsInRange(c: Corpus, similar: Similar)
    requires Valid(c)
    ensures forall k :: k in Cluster(c, similar).assignment ==>
              Cluster(c, similar).assignment[k] < |Cluster(c, similar).states|
  {
    forall k | k in Cluster(c, similar).assignment
      ensures Cluster(c, similar).assignment[k] < |Cluster(c, similar).states|
    {
      ClusterAssignment(c, similar, k);
    }
  }

  /** The value of every assigned signature: the probability of its state. */
  function StateTable(c: Corpus, similar: Similar): (table: map<Key, real>)
    requires Valid(c)
    ensures table.Keys == c.futures.Keys
    ensures forall k :: k in table ==> 0.0 < table[k] <= 1.0
  {
    var cl := Cluster(c, similar);
    ProbabilityBounds(c, similar);
    AssignmentsInRange(c, similar);
    var p := Probabilities(cl).value;
    map k | k in cl.assignment :: p[cl.assignment[k]]
  }

  /**
   statistical_complexity (lines 160-180): build the corpus of all grids,
   cluster it, and give each signature its state's value. Fails exactly when
   a cone lookup fails.
   */
  function StatisticalComplexity(grids: seq<seq<seq<int>>>, depth: int, similar: Similar)
    : (r: Option<map<Key, real>>)
    requires AllGrids(grids)
    ensures r.Some? <==> PastLightcones(grids, depth).Some?
    ensures r.Some? ==> r.value.Keys == PastLightcones(grids, depth).value.futures.Keys
    ensures r.Some? ==> forall k :: k in r.value ==> 0.0 < r.value[k] <= 1.0
  {
    var c :- PastLightcones(grids, depth);
    Some(StateTable(c, similar))
  }

  /**
   The value of a signature is the share of all signatures that are members
   of the state it was assigned to, so signatures assigned to one state share
   one value.
   */
  lemma StateTableValue(c: Corpus, similar: Similar, k: Key)
    requires Valid(c) && k in c.futures
    ensures |Cluster(c, similar).assignment| == |c.order|
    ensures Cluster(c, similar).assignment[k] < |Cluster(c, similar).states|
    ensures Share(StateTable(c, similar)[k], |Cluster(c, similar).states[Cluster(c, similar).assignment[k]].members|,
                  |Cluster(c, similar).assignment|)
  {
    var cl := Cluster(c, similar);
    ClusterAssignment(c, similar, k);
    DistinctKeysCount(c);
    ProbabilityBounds(c, similar);
    var p := Probabilities(cl).value;
    var i := cl.assignment[k];
    assert StateTable(c, similar)[k] == p[i];
    assert Share(p[i], |cl.states[i].members|, |cl.assignment|);
  }

  /** Two signatures assigned to the same state get the same value. */
  lemma SameStateSameValue(c: Corpus, similar: Similar, k1: Key, k2: Key)
    requires Valid(c) && k1 in c.futures && k2 in c.futures
    requires Cluster(c, similar).assignment[k1] == Cluster(c, similar).assignment[k2]
    ensures StateTable(c, similar)[k1] == StateTable(c, similar)[k2]
  {
  }

  /** A painted cell: a state value, or float("-inf") for an unknown signature. */
  datatype Score = NegInf | Finite(value: real)

  /** `table.get(key, float("-inf"))`. */
  function Lookup(table: map<Key, real>, key: Key): (s: Score)
    ensures s.Finite? <==> key in table
    ensures s.Finite? ==> s.value == table[key]
  {
    if key in table then Finite(table[key]) else NegInf
  }

  /** Every cell of the grid has a past-cone signature (no cone lookup fails). */
  predicate KeysDefined(g: seq<seq<int>>, depth: int)
    requires IsGrid(g)
  {
    forall t, x :: 0 <= t < |g| && 0 <= x < Width(g) ==> PastKey(g, t, x, depth).Some?
  }

  /**
   local_statistical_complexity_filter (lines 183-211): a grid of the same
   shape whose cell (t, x) holds the table's value for the signature of the
   past cone at (t, x), or minus infinity when the table lacks it. The scan
   raises, and the model fails, as soon as one cone lookup fails.
   */
  function Paint(g: seq<seq<int>>, table: map<Key, real>, depth: int): (r: Option<seq<seq<Score>>>)
    requires IsGrid(g)
    ensures r.Some? <==> KeysDefined(g, depth)
    ensures r.Some? ==> SameShape(r.value, g)
    ensures r.Some? ==> forall t, x :: 0 <= t < |g| && 0 <= x < Width(g) ==>
              r.value[t][x] == Lookup(table, PastKey(g, t, x, depth).value)
  {
    if KeysDefined(g, depth) then
      Some(seq(|g|, t requires 0 <= t < |g| =>
             seq(Width(g), x requires 0 <= x < Width(g) => Lookup(table, PastKey(g, t, x, depth).value))))
    else None
  }

  /** With 1 <= depth <= width + 1 painting never fails. */
  lemma PaintDefined(g: seq<seq<int>>, table: map<Key, real>, depth: int)
    requires IsGrid(g) && 1 <= depth <= Width(g) + 1
    ensures Paint(g, table, depth).Some?
  {
    forall t, x | 0 <= t < |g| && 0 <= x < Width(g)
      ensures PastKey(g, t, x, depth).Some?
    {
      ConesDefined(g, t, x, depth);
    }
  }

  /**
   Painting a grid with the table learnt from that grid alone, for a depth at
   which no cone lookup fails: a cell whose strict future cone holds a
   non-zero symbol always gets a finite value.
   */
  lemma SelfPaintFinite(g: seq<seq<int>>, depth: int, similar: Similar, t: int, x: int)
    requires IsGrid(g) && 0 <= t < |g| && 0 <= x < Width(g) && 1 <= depth <= Width(g) + 1
    ensures StatisticalComplexity([g], depth, similar).Some?
    ensures Paint(g, StatisticalComplexity([g], depth, similar).value, depth).Some?
    ensures FutureCone(g, t, x, depth).Some?
    ensures NonZero(FutureCone(g, t, x, depth).value) ==>
              Paint(g, StatisticalComplexity([g], depth, similar).value, depth).value[t][x].Finite?
  {
    SelfPipelineDefined(g, depth, similar);
    ConesDefined(g, t, x, depth);
    if NonZero(FutureCone(g, t, x, depth).value) {
      var key := SelfTableHasKey(g, depth, similar, t, x);
    }
  }

  /**
   Conversely, a cell painted minus infinity with that table has a signature
   after which the grid shows only all-zero future cones.
   */
  lemma SelfPaintNegInf(g: seq<seq<int>>, depth: int, similar: Similar, t: int, x: int)
    requires IsGrid(g) && 0 <= t < |g| && 0 <= x < Width(g) && 1 <= depth <= Width(g) + 1
    ensures StatisticalComplexity([g], depth, similar).Some?
    ensures Paint(g, StatisticalComplexity([g], depth, similar).value, depth).Some?
    ensures Paint(g, StatisticalComplexity([g], depth, similar).value, depth).value[t][x] == NegInf ==>
              forall t', x' ::
                (0 <= t' < |g| && 0 <= x' < Width(g)
                 && PastKey(g, t', x', depth) == PastKey(g, t, x, depth)
                 && FutureCone(g, t', x', depth).Some?)
                ==> !NonZero(FutureCone(g, t', x', depth).value)
  {
    SelfPipelineDefined(g, depth, similar);
    if Paint(g, StatisticalComplexity([g], depth, similar).value, depth).value[t][x] == NegInf {
      forall t', x' | 0 <= t' < |g| && 0 <= x' < Width(g)
        && PastKey(g, t', x', depth) == PastKey(g, t, x, depth)
        && FutureCone(g, t', x', depth).Some?
        ensures !NonZero(FutureCone(g, t', x', depth).value)
      {
        if NonZero(FutureCone(g, t', x', depth).value) {
          var key := SelfTableHasKey(g, depth, similar, t', x');
        }
      }
    }
  }

  /** For such a depth, learning the table from the grid and painting the grid both succeed. */
  lemma SelfPipelineDefined(g: seq<seq<int>>, depth: int, similar: Similar)
    requires IsGrid(g) && 1 <= depth <= Width(g) + 1
    ensures StatisticalComplexity([g], depth, similar).Some?
    ensures Paint(g, StatisticalComplexity([g], depth, similar).value, depth).Some?
  {
    GridObservationsDefined(g, depth);
    SingleGrid(g, depth);
    ObservationsDefined([g], depth);
    PaintDefined(g, StatisticalComplexity([g], depth, similar).value, depth);
  }

  /** The signature of such a cell is a key of the table learnt from the grid. */
  lemma SelfTableHasKey(g: seq<seq<int>>, depth: int, similar: Similar, t: int, x: int) returns (key: Key)
    requires IsGrid(g) && 0 <= t < |g| && 0 <= x < Width(g)
    requires StatisticalComplexity([g], depth, similar).Some?
    requires FutureCone(g, t, x, depth).Some? && NonZero(FutureCone(g, t, x, depth).value)
    ensures PastKey(g, t, x, depth) == Some(key)
    ensures key in StatisticalComplexity([g], depth, similar).value
  {
    SingleGrid(g, depth);
    var obs := GridObservations(g, depth).value;
    key := KeyRecorded(g, depth, t, x);
    assert Observed(obs, key) != {};
    CollectContents(obs);
    assert key in Collect(obs).futures;
  }

  /**
   The observation of cell (t, x) is in the scan of the grid, so its past-cone
   signature is observed with its future cone.
   */
  lemma KeyRecorded(g: seq<seq<int>>, depth: int, t: int, x: int) returns (key: Key)
    requires IsGrid(g) && 0 <= t < |g| && 0 <= x < Width(g)
    requires GridObservations(g, depth).Some?
    ensures PastKey(g, t, x, depth) == Some(key)
    ensures FutureCone(g, t, x, depth).Some? && NonZero(FutureCone(g, t, x, depth).value) ==>
              FutureCone(g, t, x, depth).value in Observed(GridObservations(g, depth).value, key)
  {
    var obs := GridObservations(g, depth).value;
    var i := CellObserved(g, depth, t, x);
    ObserveParts(g, depth, (t, x), obs[i]);
    key := obs[i].0;
    if NonZero(obs[i].1) {
      assert obs[i].1 in Observed(obs, key);
    }
  }

  /**
   An all-zero grid records no future, so the table learnt from it is empty
   and every cell is painted minus infinity.
   */
  lemma ZeroGridAllNegInf(g: seq<seq<int>>, depth: int, similar: Similar)
    requires IsGrid(g) && 1 <= depth <= Width(g) + 1
    requires forall t, x :: 0 <= t < |g| && 0 <= x < |g[t]| ==> g[t][x] == 0
    ensures StatisticalComplexity([g], depth, similar) == Some(map[])
    ensures Paint(g, map[], depth).Some?
    ensures forall t, x :: 0 <= t < |g| && 0 <= x < Width(g) ==> Paint(g, map[], depth).value[t][x] == NegInf
  {
    GridObservationsDefined(g, depth);
    ZeroGridEmptyCorpus(g, depth);
    PaintDefined(g, map[], depth);
  }
}
