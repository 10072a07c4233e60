/**
 Greedy causal-state reconstruction of `local_statistical_complexity_filter.py`
 (causal_states and statistical_complexities).

 The corpus is folded in insertion order. Each signature is compared with every
 existing state, in creation order; it is appended to EVERY state it is similar
 to (and that state's futures grow by union), and its final assignment is the
 LAST such state. A signature similar to no state founds a new one.

 The similarity test (cosine distance of the mean future vectors at most a
 threshold) works on floating point and is a parameter here. A state is named
 by its creation index instead of the hash of its founding signature.
 */
module CausalStates {
  import opened Builtins
  import opened Corpus

  /** similar(candidate futures, state futures): the two may merge. */
  type Similar = (set<Future>, set<Future>) -> bool

  /** A causal state: the signature that founded it, its members in order of arrival, its futures. */
  datatype State = State(founder: Key, members: seq<Key>, futures: set<Future>)

  /** The states in creation order and the state index each signature is assigned to. */
  datatype Clustering = Clustering(states: seq<State>, assignment: map<Key, nat>)

  /** The index of the last state the candidate is similar to, if any. */
  function LastMatch(states: seq<State>, candidate: set<Future>, similar: Similar): (r: Option<nat>)
    ensures r.Some? ==> r.value < |states| && similar(candidate, states[r.value].futures)
    ensures r.Some? ==> forall j :: r.value < j < |states| ==> !similar(candidate, states[j].futures)
    ensures r.None? ==> forall j :: 0 <= j < |states| ==> !similar(candidate, states[j].futures)
    decreases |states|
  {
    if states == [] then None
    else if similar(candidate, states[|states| - 1].futures) then Some(|states| - 1)
    else LastMatch(states[..|states| - 1], candidate, similar)
  }

  /** One state after the candidate was compared with it (causal_states, lines 133-143). */
  function Absorbed(s: State, key: Key, candidate: set<Future>, similar: Similar): State {
    if similar(candidate, s.futures)
    then s.(members := s.members + [key], futures := s.futures + candidate)
    else s
  }

  /** Every state after the candidate was compared with all of them. */
  function Absorb(states: seq<State>, key: Key, candidate: set<Future>, similar: Similar): (r: seq<State>)
    ensures |r| == |states|
    ensures forall i :: 0 <= i < |r| ==> r[i] == Absorbed(states[i], key, candidate, similar)
  {
    seq(|states|, i requires 0 <= i < |states| => Absorbed(states[i], key, candidate, similar))
  }

  /**
   One iteration of the outer loop (causal_states, lines 128-151): the key is
   assigned, and at most one state (the one it founds) is added.
   */
  function Step(cl: Clustering, key: Key, candidate: set<Future>, similar: Similar): (r: Clustering)
    ensures r.assignment.Keys == cl.assignment.Keys + {key}
    ensures |cl.states| <= |r.states| <= |cl.states| + 1
  {
    var states := Absorb(cl.states, key, candidate, similar);
    match LastMatch(cl.states, candidate, similar)
    case Some(j) => Clustering(states, cl.assignment[key := j])
    case None =>
      if key in cl.assignment then Clustering(states, cl.assignment)
      else Clustering(states + [State(key, [key], candidate)], cl.assignment[key := |cl.states|])
  }

  /**
   What one iteration does: a matched state gains the key as its last member
   and the candidate's futures by union, an unmatched state is unchanged, and
   the key is assigned to the last matched state, or founds a new state when
   it matched none; no other assignment changes.
   */
  lemma StepEffect(cl: Clustering, key: Key, candidate: set<Future>, similar: Similar)
    ensures var r := Step(cl, key, candidate, similar);
      && (forall k :: k in cl.assignment && k != key ==> r.assignment[k] == cl.assignment[k])
      && (forall i :: 0 <= i < |cl.states| ==>
            && r.states[i].founder == cl.states[i].founder
            && r.states[i].futures == cl.states[i].futures
                 + (if similar(candidate, cl.states[i].futures) then candidate else {})
            && r.states[i].members == cl.states[i].members
                 + (if similar(candidate, cl.states[i].futures) then [key] else []))
      && (|r.states| == |cl.states| + 1 <==>
            key !in cl.assignment
            && forall i :: 0 <= i < |cl.states| ==> !similar(candidate, cl.states[i].futures))
      && (|r.states| == |cl.states| + 1 ==>
            r.states[|cl.states|] == State(key, [key], candidate) && r.assignment[key] == |cl.states|)
      && (key !in cl.assignment && |r.states| == |cl.states| ==>
            && r.assignment[key] < |cl.states|
            && similar(candidate, cl.states[r.assignment[key]].futures)
            && forall j :: r.assignment[key] < j < |cl.states| ==> !similar(candidate, cl.states[j].futures))
  {
  }

  /** Sum of the lengths of the member lists. */
  function TotalMembers(states: seq<State>): nat
    decreases |states|
  {
    if states == [] then 0
    else TotalMembers(states[..|states| - 1]) + |states[|states| - 1].members|
  }

  /** Exactly the processed signatures are assigned. */
  ghost predicate Assigned(cl: Clustering, keys: seq<Key>) {
    forall k :: k in cl.assignment <==> k in keys
  }

  /** A signature's state is the last one whose member list holds it. */
  ghost predicate LastMembership(cl: Clustering) {
    forall k :: k in cl.assignment ==> LastMemberOf(cl, k)
  }

  ghost predicate LastMemberOf(cl: Clustering, k: Key)
    requires k in cl.assignment
  {
    && cl.assignment[k] < |cl.states|
    && k in cl.states[cl.assignment[k]].members
    && forall j :: cl.assignment[k] < j < |cl.states| ==> k !in cl.states[j].members
  }

  /** Every member list starts with its founder, who stays assigned to that state. */
  ghost predicate Founded(cl: Clustering) {
    forall i :: 0 <= i < |cl.states| ==>
      && |cl.states[i].members| > 0
      && cl.states[i].members[0] == cl.states[i].founder
      && cl.states[i].founder in cl.assignment
      && cl.assignment[cl.states[i].founder] == i
  }

  /** A founder belongs to no member list but that of the state it founded. */
  ghost predicate FounderOnly(cl: Clustering) {
    forall i, j :: 0 <= i < |cl.states| && 0 <= j < |cl.states| && cl.states[i].founder in cl.states[j].members ==> i == j
  }

  /** No member list repeats a signature. */
  ghost predicate MembersDistinct(cl: Clustering) {
    forall i :: 0 <= i < |cl.states| ==> Distinct(cl.states[i].members)
  }

  /** Only processed signatures are members. */
  ghost predicate MembersAssigned(cl: Clustering) {
    forall i, m :: 0 <= i < |cl.states| && m in cl.states[i].members ==> m in cl.assignment
  }

  /** At most one state per signature, at least one membership per signature. */
  ghost predicate Counted(cl: Clustering, keys: seq<Key>) {
    |cl.states| <= |keys| && TotalMembers(cl.states) >= |keys|
  }

  /**
   The clustering invariant after processing the distinct signatures `keys`:
   every processed signature is assigned, lies in the member list of its
   state and of no later state; every member list is duplicate-free, starts
   with the founder (which stays assigned to its own state and joins no other
   state) and holds only processed signatures; there are at most as many states as signatures, and
   at least as many memberships.
   */
  ghost predicate Invariant(cl: Clustering, keys: seq<Key>) {
    && Assigned(cl, keys)
    && LastMembership(cl)
    && Founded(cl)
    && FounderOnly(cl)
    && MembersDistinct(cl)
    && MembersAssigned(cl)
    && Counted(cl, keys)
  }

  /** Each state absorbs at most one copy of the key, and at least one state gains it. */
  lemma {:induction false} AbsorbTotal(states: seq<State>, key: Key, candidate: set<Future>, similar: Similar)
    ensures TotalMembers(Absorb(states, key, candidate, similar)) >= TotalMembers(states)
    ensures LastMatch(states, candidate, similar).Some? ==>
              TotalMembers(Absorb(states, key, candidate, similar)) >= TotalMembers(states) + 1
    decreases |states|
  {
    if states != [] {
      var n := |states| - 1;
      var front := states[..n];
      AbsorbTotal(front, key, candidate, similar);
      var r := Absorb(states, key, candidate, similar);
      assert r[..n] == Absorb(front, key, candidate, similar);
    }
  }

  lemma StepCounted(cl: Clustering, keys: seq<Key>, key: Key, candidate: set<Future>, similar: Similar)
    requires Counted(cl, keys) && key !in cl.assignment
    ensures Counted(Step(cl, key, candidate, similar), keys + [key])
  {
    StepEffect(cl, key, candidate, similar);
    var r := Step(cl, key, candidate, similar);
    AbsorbTotal(cl.states, key, candidate, similar);
    if |r.states| == |cl.states| + 1 {
      var n := |cl.states|;
      assert r.states[..n] == Absorb(cl.states, key, candidate, similar);
      assert TotalMembers(r.states) == TotalMembers(r.states[..n]) + 1;
    }
  }

  lemma StepLastMembership(cl: Clustering, key: Key, candidate: set<Future>, similar: Similar)
    requires LastMembership(cl) && MembersAssigned(cl) && key !in cl.assignment
    ensures LastMembership(Step(cl, key, candidate, similar))
  {
    var r := Step(cl, key, candidate, similar);
    forall k | k in r.assignment
      ensures LastMemberOf(r, k)
    {
      if k == key {
        StepKeyLast(cl, key, candidate, similar);
      } else {
        StepOtherLast(cl, key, candidate, similar, k);
      }
    }
  }

  /** The processed key is a member of its state and of no later one. */
  lemma StepKeyLast(cl: Clustering, key: Key, candidate: set<Future>, similar: Similar)
    requires MembersAssigned(cl) && key !in cl.assignment
    ensures key in Step(cl, key, candidate, similar).assignment
    ensures LastMemberOf(Step(cl, key, candidate, similar), key)
  {
    StepEffect(cl, key, candidate, similar);
    var r := Step(cl, key, candidate, similar);
    forall j | r.assignment[key] < j < |r.states|
      ensures key !in r.states[j].members
    {
      assert !similar(candidate, cl.states[j].futures);
      assert key !in cl.states[j].members;
    }
  }

  /** An earlier key keeps its state, and later states do not gain it. */
  lemma StepOtherLast(cl: Clustering, key: Key, candidate: set<Future>, similar: Similar, k: Key)
    requires k in cl.assignment && LastMemberOf(cl, k) && MembersAssigned(cl) && key !in cl.assignment
    ensures k in Step(cl, key, candidate, similar).assignment
    ensures LastMemberOf(Step(cl, key, candidate, similar), k)
  {
    StepEffect(cl, key, candidate, similar);
    var r := Step(cl, key, candidate, similar);
    forall j | r.assignment[k] < j < |r.states|
      ensures k !in r.states[j].members
    {
      if j < |cl.states| {
        assert k !in cl.states[j].members;
      }
    }
  }

  lemma StepFounded(cl: Clustering, key: Key, candidate: set<Future>, similar: Similar)
    requires Founded(cl) && key !in cl.assignment
    ensures Founded(Step(cl, key, candidate, similar))
  {
    StepEffect(cl, key, candidate, similar);
  }

  /**
   A key founds a state only when it matched none, so it joins no other; the
   earlier founders are assigned, so they are not the key that joins states.
   */
  lemma StepFounderOnly(cl: Clustering, key: Key, candidate: set<Future>, similar: Similar)
    requires Founded(cl) && FounderOnly(cl) && MembersAssigned(cl) && key !in cl.assignment
    ensures FounderOnly(Step(cl, key, candidate, similar))
  {
    StepEffect(cl, key, candidate, similar);
    var r := Step(cl, key, candidate, similar);
    var n := |cl.states|;
    forall i, j | 0 <= i < |r.states| && 0 <= j < |r.states| && i != j
      ensures r.states[i].founder !in r.states[j].members
    {
      if i < n && j < n {
        assert cl.states[i].founder in cl.assignment;
        assert cl.states[i].founder !in cl.states[j].members;
      } else if i < n {
        assert r.states[j].members == [key];
        assert cl.states[i].founder in cl.assignment;
      } else {
        assert r.states[i].founder == key;
        assert r.states[j].members == cl.states[j].members;
        assert key !in cl.states[j].members;
      }
    }
  }

  lemma StepMembers(cl: Clustering, key: Key, candidate: set<Future>, similar: Similar)
    requires MembersDistinct(cl) && MembersAssigned(cl) && key !in cl.assignment
    ensures MembersDistinct(Step(cl, key, candidate, similar))
    ensures MembersAssigned(Step(cl, key, candidate, similar))
  {
    StepEffect(cl, key, candidate, similar);
    var r := Step(cl, key, candidate, similar);
    forall i | 0 <= i < |r.states|
      ensures Distinct(r.states[i].members)
    {
      if i < |cl.states| {
        assert key !in cl.states[i].members;
      }
    }
  }

  lemma StepPreservesInvariant(cl: Clustering, keys: seq<Key>, key: Key, candidate: set<Future>, similar: Similar)
    requires Invariant(cl, keys) && key !in keys
    ensures key !in cl.assignment
    ensures Invariant(Step(cl, key, candidate, similar), keys + [key])
  {
    StepCounted(cl, keys, key, candidate, similar);
    StepLastMembership(cl, key, candidate, similar);
    StepFounded(cl, key, candidate, similar);
    StepFounderOnly(cl, key, candidate, similar);
    StepMembers(cl, key, candidate, similar);
  }

  /** The first n signatures of the corpus folded into a clustering. */
  function Fold(c: Corpus, n: nat, similar: Similar): Clustering
    requires n <= |c.order| && forall k :: k in c.order ==> k in c.futures
    decreases n
  {
    if n == 0 then Clustering([], map[])
    else Step(Fold(c, n - 1, similar), c.order[n - 1], c.futures[c.order[n - 1]], similar)
  }

  lemma {:induction false} FoldInvariant(c: Corpus, n: nat, similar: Similar)
    requires Valid(c) && n <= |c.order|
    ensures Invariant(Fold(c, n, similar), c.order[..n])
    decreases n
  {
    if n > 0 {
      var prev := Fold(c, n - 1, similar);
      var key := c.order[n - 1];
      var keys := c.order[..n - 1];
      assert c.order[..n] == keys + [key];
      assert Fold(c, n, similar) == Step(prev, key, c.futures[key], similar);
      FoldInvariant(c, n - 1, similar);
      NotInPrefix(c.order, n - 1);
      StepPreservesInvariant(prev, keys, key, c.futures[key], similar);
    }
  }

  /** In a duplicate-free sequence, an element does not occur before its own position. */
  lemma NotInPrefix(s: seq<Key>, n: nat)
    requires Distinct(s) && n < |s|
    ensures s[n] !in s[..n]
  {
  }

  /** The whole corpus folded into causal states (causal_states, lines 124-151). */
  function Cluster(c: Corpus, similar: Similar): (cl: Clustering)
    requires Valid(c)
    ensures cl.assignment.Keys == c.futures.Keys
    ensures |cl.states| <= |c.order|
  {
    ClusterShape(c, similar);
    Fold(c, |c.order|, similar)
  }

  lemma ClusterShape(c: Corpus, similar: Similar)
    requires Valid(c)
    ensures Fold(c, |c.order|, similar).assignment.Keys == c.futures.Keys
    ensures |Fold(c, |c.order|, similar).states| <= |c.order|
  {
    ClusterInvariant(c, similar);
  }

  /** The clustering invariant holds of the whole fold. */
  lemma ClusterInvariant(c: Corpus, similar: Similar)
    requires Valid(c)
    ensures Invariant(Fold(c, |c.order|, similar), c.order)
  {
    assert c.order[..|c.order|] == c.order;
    FoldInvariant(c, |c.order|, similar);
  }

  /**
   After clustering, every corpus signature has exactly one assignment: the
   last state, in creation order, whose member list holds it. That state was
   founded by the signature exactly when every state holding the signature was
   founded by it: a founding signature joins no state it did not found.
   */
  lemma ClusterAssignment(c: Corpus, similar: Similar, k: Key)
    requires Valid(c) && k in c.futures
    ensures var cl := Cluster(c, similar);
            && cl.assignment[k] < |cl.states|
            && k in cl.states[cl.assignment[k]].members
            && (forall j :: cl.assignment[k] < j < |cl.states| ==> k !in cl.states[j].members)
            && (cl.states[cl.assignment[k]].founder == k <==>
                  forall j :: 0 <= j < |cl.states| && k in cl.states[j].members ==> cl.states[j].founder == k)
  {
    ClusterInvariant(c, similar);
    var cl := Cluster(c, similar);
    var a := cl.assignment[k];
    if cl.states[a].founder == k {
      forall j | 0 <= j < |cl.states| && k in cl.states[j].members
        ensures cl.states[j].founder == k
      {
        assert cl.states[a].founder in cl.states[j].members;
      }
    }
  }

  /**
   Every member list is non-empty, duplicate-free, starts with its founder and
   holds only corpus signatures, so it is no longer than the corpus.
   */
  lemma ClusterMembers(c: Corpus, similar: Similar, i: nat)
    requires Valid(c) && i < |Cluster(c, similar).states|
    ensures var m := Cluster(c, similar).states[i].members;
            && 0 < |m| <= |c.order|
            && m[0] == Cluster(c, similar).states[i].founder
            && m[0] in Cluster(c, similar).assignment
            && Cluster(c, similar).assignment[m[0]] == i
            && Distinct(m)
            && forall k :: k in m ==> k in c.futures
  {
    ClusterInvariant(c, similar);
    var cl := Cluster(c, similar);
    DistinctWithin(cl.states[i].members, cl.assignment.Keys);
    DistinctKeysCount(c);
  }

  /** Each signature adds at least one membership, so memberships outnumber signatures. */
  lemma ClusterMemberships(c: Corpus, similar: Similar)
    requires Valid(c)
    ensures TotalMembers(Cluster(c, similar).states) >= |c.order|
  {
    ClusterInvariant(c, similar);
  }

  /** v is the fraction part / whole, stated without dividing. */
  predicate Share(v: real, part: nat, whole: nat) {
    v * (whole as real) == part as real
  }

  /**
   Probability of each state, indexed by state (statistical_complexities,
   lines 108-117, without the `-log`): its member count over the number of
   assigned signatures. Dividing by zero (states but no assignment) is the
   ZeroDivisionError case.
   */
  function Probabilities(cl: Clustering): (r: Option<seq<real>>)
    ensures r.None? <==> |cl.states| > 0 && |cl.assignment| == 0
    ensures r.Some? ==> |r.value| == |cl.states|
    ensures r.Some? ==> forall i :: 0 <= i < |cl.states| ==>
              Share(r.value[i], |cl.states[i].members|, |cl.assignment|)
  {
    if |cl.states| > 0 && |cl.assignment| == 0 then None
    else
      var n := |cl.assignment| as real;
      Some(seq(|cl.states|, i requires 0 <= i < |cl.states| => (|cl.states[i].members| as real) / n))
  }

  /** A duplicate-free sequence drawn from a set is no longer than the set. */
  lemma {:induction false} DistinctWithin(s: seq<Key>, k: set<Key>)
    requires Distinct(s) && forall m :: m in s ==> m in k
    ensures |s| <= |k|
    decreases |s|
  {
    if s != [] {
      var last := s[|s| - 1];
      var front := s[..|s| - 1];
      forall m | m in front
        ensures m in k - {last}
      {
        var i :| 0 <= i < |front| && front[i] == m;
        assert s[i] == m;
      }
      DistinctWithin(front, k - {last});
    }
  }

  /**
   Every state of a clustering of a corpus gets a probability in (0, 1]; an
   empty corpus gives no states and no division.
   */
  lemma ProbabilityBounds(c: Corpus, similar: Similar)
    requires Valid(c)
    ensures Probabilities(Cluster(c, similar)).Some?
    ensures c.order == [] ==> Cluster(c, similar).states == []
    ensures forall i :: 0 <= i < |Cluster(c, similar).states| ==>
              0.0 < Probabilities(Cluster(c, similar)).value[i] <= 1.0
  {
    var cl := Cluster(c, similar);
    DistinctKeysCount(c);
    forall i | 0 <= i < |cl.states|
      ensures 0 < |cl.states[i].members| <= |cl.assignment|
    {
      ClusterMembers(c, similar, i);
    }
    StateProbabilityBounds(cl);
  }

  /** Member counts within (0, n] give probabilities within (0, 1]. */
  lemma StateProbabilityBounds(cl: Clustering)
    requires forall i :: 0 <= i < |cl.states| ==> 0 < |cl.states[i].members| <= |cl.assignment|
    ensures Probabilities(cl).Some?
    ensures forall i :: 0 <= i < |cl.states| ==> 0.0 < Probabilities(cl).value[i] <= 1.0
  {
    if |cl.states| > 0 {
      assert 0 < |cl.states[0].members| <= |cl.assignment|;
    }
    var p := Probabilities(cl);
    forall i | 0 <= i < |cl.states|
      ensures 0.0 < p.value[i] <= 1.0
    {
      ShareBounds(p.value[i], |cl.states[i].members|, |cl.assignment|);
    }
  }

  /** A fraction of a positive part of no more than the whole lies in (0, 1]. */
  lemma ShareBounds(v: real, part: nat, whole: nat)
    requires Share(v, part, whole) && 0 < part <= whole
    ensures 0.0 < v <= 1.0
  {
    RatioBounds(v, whole as real, part as real);
  }

  lemma RatioBounds(p: real, n: real, m: real)
    requires 0.0 < m <= n && p * n == m
    ensures 0.0 < p <= 1.0
  {
  }

  /** Sum of a sequence of reals. */
  function SumReal(s: seq<real>): real
    decreases |s|
  {
    if s == [] then 0.0 else SumReal(s[..|s| - 1]) + s[|s| - 1]
  }

  /**
   The probabilities of a clustering sum to the total number of memberships
   divided by the number of signatures; since a signature can be a member of
   several states, that is at least 1, not exactly 1.
   */
  lemma ProbabilityMass(c: Corpus, similar: Similar)
    requires Valid(c) && c.order != []
    ensures |Cluster(c, similar).assignment| == |c.order|
    ensures Share(SumReal(Probabilities(Cluster(c, similar)).value), TotalMembers(Cluster(c, similar).states),
                  |Cluster(c, similar).assignment|)
  {
    DistinctKeysCount(c);
    StateMass(Cluster(c, similar));
  }

  /** Hence the probabilities of a clustering sum to at least 1. */
  lemma ProbabilityMassAtLeastOne(c: Corpus, similar: Similar)
    requires Valid(c) && c.order != []
    ensures SumReal(Probabilities(Cluster(c, similar)).value) >= 1.0
  {
    var cl := Cluster(c, similar);
    DistinctKeysCount(c);
    ClusterMemberships(c, similar);
    StateMass(cl);
    ShareAtLeastOne(SumReal(Probabilities(cl).value), TotalMembers(cl.states), |cl.assignment|);
  }

  /** The probabilities sum to the memberships over the assigned signatures. */
  lemma StateMass(cl: Clustering)
    requires |cl.assignment| > 0
    ensures Share(SumReal(Probabilities(cl).value), TotalMembers(cl.states), |cl.assignment|)
  {
    var p := Probabilities(cl).value;
    MassPrefix(cl.states, p, |cl.assignment|, |cl.states|);
    assert p[..|p|] == p;
    assert cl.states[..|cl.states|] == cl.states;
  }

  /** A fraction whose part is at least its positive whole is at least 1. */
  lemma ShareAtLeastOne(v: real, part: nat, whole: nat)
    requires Share(v, part, whole) && 0 < whole <= part
    ensures v >= 1.0
  {
    RatioAtLeastOne(v, whole as real);
  }

  lemma RatioAtLeastOne(s: real, n: real)
    requires 0.0 < n <= s * n
    ensures s >= 1.0
  {
  }

  /** The number of corpus keys is the length of its order. */
  lemma DistinctKeysCount(c: Corpus)
    requires Valid(c)
    ensures |c.futures.Keys| == |c.order|
  {
    DistinctWithin(c.order, c.futures.Keys);
    KeysWithin(c.order, c.futures.Keys);
  }

  /** A set every element of which occurs in a sequence is no larger than the sequence. */
  lemma {:induction false} KeysWithin(s: seq<Key>, k: set<Key>)
    requires forall m :: m in k ==> m in s
    ensures |k| <= |s|
    decreases |s|
  {
    if s != [] {
      var last := s[|s| - 1];
      var front := s[..|s| - 1];
      forall m | m in k - {last}
        ensures m in front
      {
        var i :| 0 <= i < |s| && s[i] == m;
      }
      KeysWithin(front, k - {last});
    }
  }

  lemma {:induction false} MassPrefix(states: seq<State>, p: seq<real>, n: nat, m: nat)
    requires n > 0 && m <= |states| == |p|
    requires forall i :: 0 <= i < |states| ==> Share(p[i], |states[i].members|, n)
    ensures Share(SumReal(p[..m]), TotalMembers(states[..m]), n)
    decreases m
  {
    if m > 0 {
      MassPrefix(states, p, n, m - 1);
      assert p[..m][..m - 1] == p[..m - 1];
      assert states[..m][..m - 1] == states[..m - 1];
      var a := SumReal(p[..m - 1]);
      assert SumReal(p[..m]) == a + p[m - 1];
      assert (a + p[m - 1]) * (n as real) == a * (n as real) + p[m - 1] * (n as real);
    }
  }

  /** A three-signature corpus whose last signature resembles both earlier ones. */
  const ExampleCorpus := Corpus(["a", "b", "c"], map["a" := {[1]}, "b" := {[2]}, "c" := {[3]}])

  /** A similarity test that only the futures {[3]} pass. */
  const ThirdSimilar: Similar := (candidate, futures) => candidate == {[3]}

  lemma ExampleValid()
    ensures Valid(ExampleCorpus)
  {
    assert [1][0] != 0 && [2][0] != 0 && [3][0] != 0;
  }

  lemma ExampleFirstTwo()
    ensures Fold(ExampleCorpus, 2, ThirdSimilar)
            == Clustering([State("a", ["a"], {[1]}), State("b", ["b"], {[2]})], map["a" := 0, "b" := 1])
  {
    var a1 := State("a", ["a"], {[1]});
    assert {[1]} != {[3]} by { assert [1] in {[1]}; }
    assert {[2]} != {[3]} by { assert [2] in {[2]}; }
    assert Absorb([], "a", {[1]}, ThirdSimilar) == [];
    assert Fold(ExampleCorpus, 1, ThirdSimilar) == Clustering([a1], map["a" := 0]);
    assert LastMatch([a1], {[2]}, ThirdSimilar) == None;
    assert Absorb([a1], "b", {[2]}, ThirdSimilar) == [a1];
  }

  lemma ExampleThird()
    ensures Fold(ExampleCorpus, 3, ThirdSimilar)
            == Clustering([State("a", ["a", "c"], {[1], [3]}), State("b", ["b", "c"], {[2], [3]})],
                          map["a" := 0, "b" := 1, "c" := 1])
  {
    var a1 := State("a", ["a"], {[1]});
    var b1 := State("b", ["b"], {[2]});
    ExampleFirstTwo();
    assert LastMatch([a1, b1], {[3]}, ThirdSimilar) == Some(1);
    assert ["a"] + ["c"] == ["a", "c"] && ["b"] + ["c"] == ["b", "c"];
    assert Absorbed(a1, "c", {[3]}, ThirdSimilar) == State("a", ["a", "c"], {[1], [3]});
    assert Absorbed(b1, "c", {[3]}, ThirdSimilar) == State("b", ["b", "c"], {[2], [3]});
    assert Absorb([a1, b1], "c", {[3]}, ThirdSimilar)
           == [State("a", ["a", "c"], {[1], [3]}), State("b", ["b", "c"], {[2], [3]})];
  }

  /**
   The merge-into-every-match rule at work: the third signature is similar to
   both earlier states, joins both member lists and is assigned to the later
   one, so three signatures make four memberships.
   */
  lemma DoubleMembership()
    ensures Valid(ExampleCorpus)
    ensures Cluster(ExampleCorpus, ThirdSimilar).states
            == [State("a", ["a", "c"], {[1], [3]}), State("b", ["b", "c"], {[2], [3]})]
    ensures Cluster(ExampleCorpus, ThirdSimilar).assignment == map["a" := 0, "b" := 1, "c" := 1]
    ensures TotalMembers(Cluster(ExampleCorpus, ThirdSimilar).states) == 4
  {
    ExampleValid();
    ExampleThird();
    var states := [State("a", ["a", "c"], {[1], [3]}), State("b", ["b", "c"], {[2], [3]})];
    assert states[..1][..0] == [];
    assert TotalMembers(states[..1]) == 2;
  }
}
