/**
 The small part of Python's and numpy's built-in behaviour that the domain
 filters rely on: `range`, slicing with negative and out-of-range bounds,
 `str` of an integer, `int` of a one-character string, sequence repetition,
 and numpy's single-axis indexing. Failures (`IndexError`, `KeyError`,
 `ValueError`, `ZeroDivisionError`) are all modelled as `None`.
 */
module Builtins {

  /** The conventional failure-compatible Some/None datatype. */
  datatype Option<+T> = None | Some(value: T) {
    predicate IsFailure() {
      None?
    }

    function PropagateFailure<U>(): Option<U>
      requires None?
    {
      None
    }

    function Extract(): T
      requires Some?
    {
      value
    }
  }

  function Min(a: int, b: int): int {
    if a <= b then a else b
  }

  function Max(a: int, b: int): int {
    if a >= b then a else b
  }

  function Abs(a: int): nat {
    if a < 0 then -a else a
  }

  /** No element occurs twice. */
  predicate Distinct<T(==)>(s: seq<T>) {
    forall i, j :: 0 <= i < j < |s| ==> s[i] != s[j]
  }

  /** Two duplicate-free sequences with no common element concatenate to a duplicate-free one. */
  lemma DistinctConcat<T>(a: seq<T>, b: seq<T>)
    requires Distinct(a) && Distinct(b)
    requires forall i, j :: 0 <= i < |a| && 0 <= j < |b| ==> a[i] != b[j]
    ensures Distinct(a + b)
  {
  }

  /** A rectangular two-dimensional array (a numpy array of shape (T, W)). */
  predicate IsGrid<T>(g: seq<seq<T>>) {
    forall t :: 0 <= t < |g| ==> |g[t]| == |g[0]|
  }

  /** The number of columns of a grid; zero for a grid without rows. */
  function Width<T>(g: seq<seq<T>>): nat {
    if |g| == 0 then 0 else |g[0]|
  }

  /** Two grids have the same shape. */
  predicate SameShape<T, U>(a: seq<seq<T>>, b: seq<seq<U>>) {
    |a| == |b| && forall t :: 0 <= t < |a| ==> |a[t]| == |b[t]|
  }

  /** Python's `range(lo, hi)`: lo, lo + 1, ..., hi - 1. */
  function Range(lo: int, hi: int): (r: seq<int>)
    ensures |r| == Max(hi - lo, 0)
    ensures forall i :: 0 <= i < |r| ==> r[i] == lo + i
    decreases hi - lo
  {
    if lo >= hi then [] else [lo] + Range(lo + 1, hi)
  }

  /** Python's `range(hi, lo, -1)`: hi, hi - 1, ..., lo + 1. */
  function RangeDown(hi: int, lo: int): (r: seq<int>)
    ensures |r| == Max(hi - lo, 0)
    ensures forall i :: 0 <= i < |r| ==> r[i] == hi - i
    decreases hi - lo
  {
    if hi <= lo then [] else [hi] + RangeDown(hi - 1, lo)
  }

  /** How Python normalises one bound of a slice of a sequence of length n. */
  function SliceBound(i: int, n: nat): (b: nat)
    ensures b <= n
    ensures 0 <= i <= n ==> b == i
    ensures i > n ==> b == n
    ensures i < 0 && i + n >= 0 ==> b == i + n
    ensures i + n < 0 ==> b == 0
  {
    if i < 0 then (if i + n < 0 then 0 else i + n)
    else if i > n then n
    else i
  }

  /** Python's `s[start:stop]` (step 1); an omitted bound is 0 or |s|. */
  function PySlice<T>(s: seq<T>, start: int, stop: int): (r: seq<T>)
    ensures |r| == Max(SliceBound(stop, |s|) - SliceBound(start, |s|), 0)
    ensures forall i :: 0 <= i < |r| ==> r[i] == s[SliceBound(start, |s|) + i]
  {
    var lo := SliceBound(start, |s|);
    var hi := SliceBound(stop, |s|);
    if lo < hi then s[lo..hi] else []
  }

  /** numpy's index into an axis of length n: one wrap for a negative index, else IndexError. */
  function AxisIndex(i: int, n: nat): (r: Option<nat>)
    ensures r.Some? <==> 0 <= i + n && i < n
    ensures r.Some? ==> r.value == (if i < 0 then i + n else i)
  {
    if 0 <= i < n then Some(i)
    else if i < 0 && 0 <= i + n then Some(i + n)
    else None
  }

  /** numpy's `g[(t, x)]` on a two-dimensional array. */
  function GridAt(g: seq<seq<int>>, t: int, x: int): (r: Option<int>)
    requires IsGrid(g)
    ensures 0 <= t < |g| && 0 <= x < Width(g) ==> r == Some(g[t][x])
    ensures r.Some? <==> (0 <= t + |g| && t < |g| && 0 <= x + Width(g) && x < Width(g))
  {
    var row :- AxisIndex(t, |g|);
    var col :- AxisIndex(x, Width(g));
    Some(g[row][col])
  }

  /** The character of a decimal digit. */
  function DigitChar(d: int): char
    requires 0 <= d < 10
  {
    ('0' as int + d) as char
  }

  /** Python's `int(c)` for a one-character string; ValueError unless c is an ASCII digit. */
  function DigitValue(c: char): (r: Option<int>)
    ensures r.Some? <==> '0' <= c <= '9'
    ensures r.Some? ==> 0 <= r.value < 10 && DigitChar(r.value) == c
  {
    if '0' <= c <= '9' then Some(c as int - '0' as int) else None
  }

  /** Decimal digits of a natural number, most significant first. */
  function NatString(n: nat): (s: string)
    ensures |s| >= 1
    ensures n < 10 <==> |s| == 1
    ensures forall i :: 0 <= i < |s| ==> '0' <= s[i] <= '9'
    decreases n
  {
    if n < 10 then [DigitChar(n)] else NatString(n / 10) + [DigitChar(n % 10)]
  }

  /** Python's `str(n)` for an integer. */
  function IntString(n: int): (s: string)
    ensures 0 <= n < 10 ==> s == [DigitChar(n)]
  {
    if n < 0 then "-" + NatString(-n) else NatString(n)
  }

  /** Python's `s * n` on a string or list. */
  function Repeat<T>(s: seq<T>, n: int): (r: seq<T>)
    ensures |r| == |s| * Max(n, 0)
    decreases n
  {
    if n <= 0 then [] else s + Repeat(s, n - 1)
  }

  /** Element j of a repetition is element j mod |s| of s. */
  lemma {:induction false} RepeatIndex<T>(s: seq<T>, n: int, j: int)
    requires 0 <= j < |Repeat(s, n)|
    ensures |s| > 0 && Repeat(s, n)[j] == s[j % |s|]
    decreases n
  {
    assert n > 0 && Repeat(s, n) == s + Repeat(s, n - 1);
    if j < |s| {
      ModSmall(j, |s|);
      assert Repeat(s, n)[j] == s[j];
    } else {
      RepeatIndex(s, n - 1, j - |s|);
      assert Repeat(s, n)[j] == Repeat(s, n - 1)[j - |s|];
      ModStep(j, |s|);
    }
  }

  /** The remainder of a natural number is below the divisor and no larger than the number. */
  lemma ModBounds(j: int, m: int)
    requires 0 <= j && 0 < m
    ensures 0 <= j % m < m && j % m <= j
  {
    assert j == m * (j / m) + j % m;
    if j / m < 0 {
      MulLe(m, j / m, -1);
    } else {
      MulLe(m, 0, j / m);
    }
  }

  /** Euclidean division is determined by its defining equation. */
  lemma DivModUnique(a: int, m: int, q: int, r: int)
    requires 0 < m && 0 <= r < m && a == m * q + r
    ensures a / m == q && a % m == r
  {
    var q', r' := a / m, a % m;
    assert a == m * q' + r';
    if q' < q {
      MulLe(m, q', q - 1);
      assert false;
    } else if q < q' {
      MulLe(m, q, q' - 1);
      assert false;
    }
  }

  lemma MulLe(m: int, a: int, b: int)
    requires 0 <= m && a <= b
    ensures m * a <= m * b
  {
    assert m * b - m * a == m * (b - a);
  }

  lemma ModStep(j: int, m: int)
    requires 0 < m
    ensures (j - m) % m == j % m
    ensures (j + m) % m == j % m
  {
    DivModUnique(j - m, m, j / m - 1, j % m);
    DivModUnique(j + m, m, j / m + 1, j % m);
  }

  /** The remainder of a value already in [0, m) is the value itself. */
  lemma ModSmall(v: int, m: int)
    requires 0 <= v < m
    ensures v % m == v && v / m == 0
  {
    DivModUnique(v, m, 0, v);
  }
}
