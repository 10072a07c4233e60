/**
 The lookup-table filter of `frequency_filter.py`: count the three-cell
 neighbourhoods of every row (without wrapping), mark the neighbourhoods that
 occur unusually often, and rewrite every cell to 1 when its periodic
 neighbourhood is marked and to 0 otherwise.

 A neighbourhood is named by the string `f"{a}{b}{c}"`. Which counts are
 "unusually high" (above mean plus standard deviation, in floating point) is
 a parameter `above` of the count.
 */
module FrequencyFilter {
  import opened Builtins

  /** `f"{a}{b}{c}"`. */
  function Key3(a: int, b: int, c: int): string {
    IntString(a) + IntString(b) + IntString(c)
  }

  /** Python's three-way `zip`: as long as the shortest argument. */
  function Zip3<T>(a: seq<T>, b: seq<T>, c: seq<T>): (r: seq<(T, T, T)>)
    ensures |r| == Min(|a|, Min(|b|, |c|))
    ensures forall i :: 0 <= i < |r| ==> r[i] == (a[i], b[i], c[i])
  {
    seq(Min(|a|, Min(|b|, |c|)), i requires 0 <= i < Min(|a|, Min(|b|, |c|)) => (a[i], b[i], c[i]))
  }

  /** The names of a sequence of triples. */
  function Names(triples: seq<(int, int, int)>): (r: seq<string>)
    ensures |r| == |triples|
    ensures forall i :: 0 <= i < |r| ==> r[i] == Key3(triples[i].0, triples[i].1, triples[i].2)
  {
    seq(|triples|, i requires 0 <= i < |triples| => Key3(triples[i].0, triples[i].1, triples[i].2))
  }

  /** The neighbourhoods of one row, `zip(row, row[1:], row[2:])` (lines 11-12). */
  function RowWindows(row: seq<int>): (ws: seq<string>)
    ensures |ws| == Max(|row| - 2, 0)
    ensures forall i :: 0 <= i < |ws| ==> ws[i] == Key3(row[i], row[i + 1], row[i + 2])
  {
    var second := PySlice(row, 1, |row|);
    var third := PySlice(row, 2, |row|);
    var triples := Zip3(row, second, third);
    assert |triples| == Max(|row| - 2, 0);
    var ws := Names(triples);
    forall i | 0 <= i < |ws|
      ensures ws[i] == Key3(row[i], row[i + 1], row[i + 2])
    {
      assert triples[i] == (row[i], second[i], third[i]);
    }
    ws
  }

  /** The neighbourhoods of all rows, row after row (lines 10-12). */
  function Windows(s: seq<seq<int>>): seq<string>
    decreases |s|
  {
    if s == [] then [] else Windows(s[..|s| - 1]) + RowWindows(s[|s| - 1])
  }

  /** Reference count: every row of length n has max(n - 2, 0) windows. */
  function WindowCount(s: seq<seq<int>>): nat
    decreases |s|
  {
    if s == [] then 0 else WindowCount(s[..|s| - 1]) + Max(|s[|s| - 1]| - 2, 0)
  }

  lemma {:induction false} WindowsLength(s: seq<seq<int>>)
    ensures |Windows(s)| == WindowCount(s)
    decreases |s|
  {
    if s != [] {
      WindowsLength(s[..|s| - 1]);
    }
  }

  /**
   The counting loop (lines 10-13) from the counts m: every window adds one
   to its entry; a window without an entry is a KeyError.
   */
  function Tally(m: map<string, nat>, ws: seq<string>): (r: Option<map<string, nat>>)
    ensures r.Some? <==> forall i :: 0 <= i < |ws| ==> ws[i] in m
    ensures r.Some? ==> r.value.Keys == m.Keys
    ensures r.Some? ==> forall k :: k in m ==> r.value[k] == m[k] + multiset(ws)[k]
    decreases |ws|
  {
    if ws == [] then Some(m)
    else if ws[0] !in m then None
    else
      assert ws == [ws[0]] + ws[1..];
      Tally(m[ws[0] := m[ws[0]] + 1], ws[1..])
  }

  /**
   neighbourhood_frequency (lines 6-14): one count per given neighbourhood,
   the number of windows with that name; a window whose name is not given is
   a KeyError.
   */
  function NeighbourhoodFrequency(s: seq<seq<int>>, names: seq<string>): (r: Option<map<string, nat>>)
    ensures r.Some? <==> AllNamed(Windows(s), names)
    ensures r.Some? ==> forall k :: k in r.value <==> k in names
    ensures r.Some? ==> forall k :: k in r.value ==> r.value[k] == multiset(Windows(s))[k]
  {
    var zero: map<string, nat> := map k | k in names :: 0;
    var ws := Windows(s);
    KeysAsNames(ws, zero, names);
    Tally(zero, ws)
  }

  lemma KeysAsNames(ws: seq<string>, m: map<string, nat>, names: seq<string>)
    requires forall k :: k in m <==> k in names
    ensures (forall i :: 0 <= i < |ws| ==> ws[i] in m) <==> AllNamed(ws, names)
  {
  }

  /** Every window's name is one of the given names. */
  predicate AllNamed(ws: seq<string>, names: seq<string>) {
    forall i :: 0 <= i < |ws| ==> ws[i] in names
  }

  /** Sum of m over a list of keys. */
  function SumOver(m: map<string, nat>, keys: seq<string>): nat
    requires forall i :: 0 <= i < |keys| ==> keys[i] in m
    decreases |keys|
  {
    if keys == [] then 0 else SumOver(m, keys[..|keys| - 1]) + m[keys[|keys| - 1]]
  }

  /**
   When the given names are distinct, the counts add up to the number of
   windows: the sum over rows of max(len(row) - 2, 0).
   */
  lemma FrequencyTotal(s: seq<seq<int>>, names: seq<string>)
    requires Distinct(names)
    requires NeighbourhoodFrequency(s, names).Some?
    ensures forall i :: 0 <= i < |names| ==> names[i] in NeighbourhoodFrequency(s, names).value
    ensures SumOver(NeighbourhoodFrequency(s, names).value, names) == WindowCount(s)
  {
    var m := NeighbourhoodFrequency(s, names).value;
    var ws := Windows(s);
    WindowsLength(s);
    MultisetTotal(multiset(ws), names);
    SumMatches(m, multiset(ws), names);
  }

  /** Sum of a multiset's multiplicities over a list of keys. */
  function MultiplicityOver(ms: multiset<string>, keys: seq<string>): nat
    decreases |keys|
  {
    if keys == [] then 0 else MultiplicityOver(ms, keys[..|keys| - 1]) + ms[keys[|keys| - 1]]
  }

  lemma {:induction false} SumMatches(m: map<string, nat>, ms: multiset<string>, keys: seq<string>)
    requires forall i :: 0 <= i < |keys| ==> keys[i] in m && m[keys[i]] == ms[keys[i]]
    ensures SumOver(m, keys) == MultiplicityOver(ms, keys)
    decreases |keys|
  {
    if keys != [] {
      SumMatches(m, ms, keys[..|keys| - 1]);
    }
  }

  /** Over distinct keys that cover a multiset, the multiplicities add up to its size. */
  lemma {:induction false} MultisetTotal(ms: multiset<string>, keys: seq<string>)
    requires Distinct(keys)
    requires forall k :: k in ms ==> k in keys
    ensures MultiplicityOver(ms, keys) == |ms|
    decreases |keys|
  {
    if keys != [] {
      var last := keys[|keys| - 1];
      var front := keys[..|keys| - 1];
      var rest := ms[last := 0];
      forall k | k in rest
        ensures k in front
      {
        var i :| 0 <= i < |keys| && keys[i] == k;
        assert i != |keys| - 1;
        assert front[i] == k;
      }
      MultisetTotal(rest, front);
      OtherMultiplicities(ms, rest, front, last);
      assert ms == rest + MultisetOf(last, ms[last]);
    }
  }

  /** n copies of k. */
  function MultisetOf(k: string, n: nat): (ms: multiset<string>)
    ensures ms[k] == n && forall j :: j != k ==> ms[j] == 0
    ensures |ms| == n
    decreases n
  {
    if n == 0 then multiset{} else MultisetOf(k, n - 1) + multiset{k}
  }

  lemma {:induction false} OtherMultiplicities(ms: multiset<string>, rest: multiset<string>, keys: seq<string>, last: string)
    requires rest == ms[last := 0] && last !in keys
    ensures MultiplicityOver(ms, keys) == MultiplicityOver(rest, keys)
    decreases |keys|
  {
    if keys != [] {
      OtherMultiplicities(ms, rest, keys[..|keys| - 1], last);
    }
  }

  /** The eight binary neighbourhoods in the order of line 42. */
  const Neighbourhoods: seq<string> := ["111", "110", "101", "100", "011", "010", "001", "000"]

  /**
   The table of lines 50-53: 1 for a neighbourhood in the high set, 0 for any
   other of the eight.
   */
  function LookupTable(high: set<string>): (table: map<string, int>)
    ensures forall k :: k in table <==> k in Neighbourhoods
    ensures forall k :: k in table ==> (table[k] == 1 <==> k in high) && (table[k] == 0 <==> k !in high)
  {
    map k | k in Neighbourhoods :: if k in high then 1 else 0
  }

  /** The high set of lines 46-49: the neighbourhoods whose count is judged high. */
  function HighSet(frequencies: map<string, nat>, above: nat -> bool): (high: set<string>)
    ensures forall k :: k in high <==> k in frequencies && above(frequencies[k])
  {
    set k | k in frequencies && above(frequencies[k])
  }

  /** `concatenate([[row[-1]], row[:-1]])`: each cell's left neighbour, cyclically. */
  function LeftNeighbours(row: seq<int>): (r: seq<int>)
    requires row != []
    ensures |r| == |row|
    ensures forall x :: 0 <= x < |row| ==> r[x] == row[(x - 1) % |row|]
  {
    var n := |row|;
    var front := PySlice(row, 0, -1);
    assert |front| == n - 1;
    var r := [row[n - 1]] + front;
    forall x | 0 <= x < n
      ensures r[x] == row[(x - 1) % n]
    {
      if x == 0 {
        ModStep(n - 1, n);
        ModSmall(n - 1, n);
      } else {
        ModSmall(x - 1, n);
        assert r[x] == front[x - 1];
      }
    }
    r
  }

  /** `concatenate([row[1:], [row[0]]])`: each cell's right neighbour, cyclically. */
  function RightNeighbours(row: seq<int>): (r: seq<int>)
    requires row != []
    ensures |r| == |row|
    ensures forall x :: 0 <= x < |row| ==> r[x] == row[(x + 1) % |row|]
  {
    var r := PySlice(row, 1, |row|) + [row[0]];
    forall x | 0 <= x < |row|
      ensures r[x] == row[(x + 1) % |row|]
    {
      if x + 1 < |row| {
        ModSmall(x + 1, |row|);
      } else {
        ModStep(0, |row|);
      }
    }
    r
  }

  /** The name of cell x's neighbourhood, read cyclically around its row. */
  function PeriodicName(row: seq<int>, x: int): string
    requires 0 <= x < |row|
  {
    Key3(row[(x - 1) % |row|], row[x], row[(x + 1) % |row|])
  }

  /** The periodic neighbourhood names of a non-empty row (lines 29-32). */
  function PeriodicNames(row: seq<int>): (ws: seq<string>)
    requires row != []
    ensures |ws| == |row|
    ensures forall x :: 0 <= x < |row| ==> ws[x] == PeriodicName(row, x)
  {
    Names(Zip3(LeftNeighbours(row), row, RightNeighbours(row)))
  }

  /** Looking up every name in the rule; a missing name is a KeyError (line 33). */
  function LookupAll(names: seq<string>, rule: map<string, int>): (r: Option<seq<int>>)
    ensures r.Some? <==> forall i :: 0 <= i < |names| ==> names[i] in rule
    ensures r.Some? ==> |r.value| == |names| && forall i :: 0 <= i < |names| ==> r.value[i] == rule[names[i]]
    decreases |names|
  {
    if names == [] then Some([])
    else if names[0] !in rule then None
    else
      var rest :- LookupAll(names[1..], rule);
      Some([rule[names[0]]] + rest)
  }

  /** The row is non-empty and the rule has every periodic neighbourhood of it. */
  predicate RowCovered(row: seq<int>, rule: map<string, int>) {
    row != [] && forall x :: 0 <= x < |row| ==> PeriodicName(row, x) in rule
  }

  /** One row of filter_spacetime; `row[-1]` on an empty row is an IndexError. */
  function FilterRow(row: seq<int>, rule: map<string, int>): (r: Option<seq<int>>)
    ensures r.Some? <==> RowCovered(row, rule)
    ensures r.Some? ==> |r.value| == |row| && forall x :: 0 <= x < |row| ==> r.value[x] == rule[PeriodicName(row, x)]
  {
    if row == [] then None
    else
      RowLookup(row, rule);
      LookupAll(PeriodicNames(row), rule)
  }

  lemma RowLookup(row: seq<int>, rule: map<string, int>)
    requires row != []
    ensures LookupAll(PeriodicNames(row), rule).Some? <==> RowCovered(row, rule)
    ensures LookupAll(PeriodicNames(row), rule).Some? ==>
              forall x :: 0 <= x < |row| ==> LookupAll(PeriodicNames(row), rule).value[x] == rule[PeriodicName(row, x)]
  {
    var names := PeriodicNames(row);
    if LookupAll(names, rule).Some? {
      assert RowCovered(row, rule) by {
        forall x | 0 <= x < |row|
          ensures PeriodicName(row, x) in rule
        {
          assert names[x] in rule;
        }
      }
    }
    if RowCovered(row, rule) {
      forall i | 0 <= i < |names|
        ensures names[i] in rule
      {
        assert PeriodicName(row, i) in rule;
      }
    }
  }

  /** Every row can be filtered. */
  predicate Covered(s: seq<seq<int>>, rule: map<string, int>) {
    forall t :: 0 <= t < |s| ==> RowCovered(s[t], rule)
  }

  /**
   filter_spacetime (lines 23-36): every cell replaced by the rule's value for
   its periodic neighbourhood. The rows are filtered one after another and the
   first failing row raises, so the whole call fails when any row does.
   */
  function FilterSpacetime(s: seq<seq<int>>, rule: map<string, int>): (r: Option<seq<seq<int>>>)
    ensures r.Some? <==> Covered(s, rule)
    ensures r.Some? ==> SameShape(r.value, s)
    ensures r.Some? ==> forall t, x :: 0 <= t < |s| && 0 <= x < |s[t]| ==>
              r.value[t][x] == rule[PeriodicName(s[t], x)]
  {
    if Covered(s, rule) then Some(seq(|s|, t requires 0 <= t < |s| => FilterRow(s[t], rule).value))
    else None
  }

  /**
   filter_by_lookup_frequency without its display branch (lines 39-56): count
   the eight neighbourhoods, mark those whose count is high, and filter.
   */
  function FilterByLookupFrequency(s: seq<seq<int>>, above: nat -> bool): Option<seq<seq<int>>> {
    var frequencies :- NeighbourhoodFrequency(s, Neighbourhoods);
    FilterSpacetime(s, LookupTable(HighSet(frequencies, above)))
  }

  /** Every cell is 0 or 1. */
  predicate Binary(s: seq<seq<int>>) {
    forall t, x :: 0 <= t < |s| && 0 <= x < |s[t]| ==> s[t][x] == 0 || s[t][x] == 1
  }

  /** The name of three binary cells is one of the eight neighbourhoods. */
  lemma BinaryName(a: int, b: int, c: int)
    requires a in {0, 1} && b in {0, 1} && c in {0, 1}
    ensures Key3(a, b, c) in Neighbourhoods
  {
    assert DigitChar(0) == '0' && DigitChar(1) == '1';
    assert Key3(a, b, c) == Neighbourhoods[7 - (4 * a + 2 * b + c)];
  }

  /** On a binary grid every window is one of the eight neighbourhoods, so counting never fails. */
  lemma BinaryFrequencyDefined(s: seq<seq<int>>)
    requires Binary(s)
    ensures NeighbourhoodFrequency(s, Neighbourhoods).Some?
  {
    BinaryWindows(s);
  }

  lemma {:induction false} BinaryWindows(s: seq<seq<int>>)
    requires Binary(s)
    ensures forall i :: 0 <= i < |Windows(s)| ==> Windows(s)[i] in Neighbourhoods
    decreases |s|
  {
    if s != [] {
      var front := s[..|s| - 1];
      var row := s[|s| - 1];
      assert Binary(front) by {
        forall t, x | 0 <= t < |front| && 0 <= x < |front[t]|
          ensures front[t][x] == 0 || front[t][x] == 1
        {
          assert front[t] == s[t];
        }
      }
      BinaryWindows(front);
      var ws := RowWindows(row);
      forall i | 0 <= i < |ws|
        ensures ws[i] in Neighbourhoods
      {
        assert row == s[|s| - 1];
        BinaryName(row[i], row[i + 1], row[i + 2]);
      }
      var all := Windows(s);
      assert all == Windows(front) + ws;
      forall i | 0 <= i < |all|
        ensures all[i] in Neighbourhoods
      {
        if i >= |Windows(front)| {
          assert all[i] == ws[i - |Windows(front)|];
        }
      }
    }
  }

  /**
   On a binary grid without empty rows the whole filter succeeds, whatever the
   high set, and produces a binary grid of the same shape.
   */
  lemma BinaryFilter(s: seq<seq<int>>, above: nat -> bool)
    requires Binary(s) && forall t :: 0 <= t < |s| ==> s[t] != []
    ensures FilterByLookupFrequency(s, above).Some?
    ensures SameShape(FilterByLookupFrequency(s, above).value, s)
    ensures Binary(FilterByLookupFrequency(s, above).value)
  {
    BinaryFrequencyDefined(s);
    var frequencies := NeighbourhoodFrequency(s, Neighbourhoods).value;
    var table := LookupTable(HighSet(frequencies, above));
    forall t, x | 0 <= t < |s| && 0 <= x < |s[t]|
      ensures PeriodicName(s[t], x) in table
    {
      BinaryName(s[t][(x - 1) % |s[t]|], s[t][x], s[t][(x + 1) % |s[t]|]);
    }
  }

  /**
   A cell of the filtered grid is 1 exactly when the count of its periodic
   neighbourhood among the unwrapped windows is judged high.
   */
  lemma FilteredCellMeaning(s: seq<seq<int>>, above: nat -> bool, t: int, x: int)
    requires FilterByLookupFrequency(s, above).Some?
    requires 0 <= t < |s| && 0 <= x < |s[t]|
    ensures var name := PeriodicName(s[t], x);
            && name in Neighbourhoods
            && (FilterByLookupFrequency(s, above).value[t][x] == 1 <==> above(multiset(Windows(s))[name]))
            && (FilterByLookupFrequency(s, above).value[t][x] == 0 <==> !above(multiset(Windows(s))[name]))
  {
  }
}
