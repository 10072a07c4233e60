# Domain filters for elementary cellular automata

This project models, in Dafny, the core of a small Python toolkit that finds
*domains* in space-time diagrams of one-dimensional cellular automata. A
space-time diagram is a grid of symbols with one row per time step. A domain
is a region where the automaton repeats a regular pattern.

The model covers the following parts of the toolkit.

- **Local statistical complexity filter.** For every cell it builds the past
  light cone and the strict future light cone. Both wrap around the space axis
  through explicit overflow ranges taken from the other end of the row; numpy's
  negative indexing only comes into play when a cone row is wider than the
  grid. It turns each past cone into a string signature and collects, per
  signature, the set of non-zero future cones. It then folds the signatures greedily into causal states. A signature joins
  every state it is similar to and is assigned to the last of them. Each
  signature gets the share of signatures that belong to its state. Finally it
  paints every cell of a grid with that value, or with minus infinity when the
  signature is unknown. (Modules `LightCone`, `Corpus`, `CausalStates`,
  `ComplexityFilter`.)
- **Simple domain filter.** A cell is a domain cell when, for some radius in
  [min, max), the radius + 1 cells ending at it equal the radius + 1 cells
  starting at it. Both windows wrap the way Python slices do. (Module
  `SimpleFilter`.)
- **Lookup-frequency filter.** It counts the three-cell neighbourhoods of a
  diagram and marks the frequent ones. Every cell is then rewritten by a
  lookup table on its periodic neighbourhood. (Module `FrequencyFilter`.)
- **Circle neighbourhoods.** These are the integer offsets at a given
  Manhattan distance, and the in-bounds points within a radius of a centre,
  listed ring by ring. (Module `Circles`.)
- **Sample generation.** It builds background patterns from pattern
  signatures such as `"01"-"10"` and fills a segmented image with them.
  (Module `SamplePatterns`.)

Python's own behaviour is modelled explicitly in `Builtins`:

- slices with negative or out-of-range bounds;
- `str * n` and `str(int)`;
- `int(c)` on a digit;
- numpy's single wrap of a negative index;
- the truncating `zip`.

An exception raised by the source becomes `None` in the model. This covers
`IndexError`, `KeyError`, `ValueError` and `ZeroDivisionError`.

Notable behaviour of the code:

- An all-zero grid records no future at all, so its table is empty and every
  cell is painted minus infinity (`ComplexityFilter.ZeroGridAllNegInf`).
- A signature similar to several states becomes a member of each of them. The
  state probabilities therefore sum to at least 1, not exactly 1
  (`CausalStates.ProbabilityMass`, `CausalStates.DoubleMembership`).
- The row of a light cone at distance k has 2k columns, x - k … x + k - 1,
  because the right end of the range is exclusive. A past cone of depth d has
  at most d - 1 rows and never reaches row 0 (`LightCone.ConeRows`,
  `LightCone.RowColumnsWrap`).
- A depth of zero or less is not rejected. The geometry is modelled for any
  signed depth.
- Signatures are made by joining decimal strings, so they are injective only
  over single-digit symbols: `[1, 0]` and `[10]` share the signature `"10"`
  (`LightCone.SignatureCollision`). The same holds for the `f"{a}{b}{c}"`
  neighbourhood names of the frequency filter.

## Model

| member | source | states |
|---|---|---|
| LightCone.ConeRows | domain_filters/others/local_statistical_complexity_filter.py:18-26 | A past cone (negative depth) visits rows t-1, t-2, … down to max(t+depth,0)+1, all of them at least 1. A future cone visits t+1 … min(t+depth,maxTime)-1, all below maxTime. Without partial cones, a cone that would leave the grid visits no row. |
| LightCone.RowColumnsWrap | domain_filters/others/local_statistical_complexity_filter.py:28-45 | When the half-width is at most the width, the columns of a cone row are exactly (x + d) mod W for d = -span … span-1, in order. That is 2·span valid columns. |
| LightCone.CellValues | domain_filters/others/local_statistical_complexity_filter.py:48-52 | Reading the cells succeeds exactly when every coordinate is a valid numpy index. The values are the grid's cells at those coordinates, in order. |
| LightCone.DigitSignature | domain_filters/others/local_statistical_complexity_filter.py:64-79 | Over single-digit symbols the signature has one character per cone cell: the digit of that cell. |
| LightCone.SignatureInjective | domain_filters/others/local_statistical_complexity_filter.py:64-79 | Over single-digit symbols, equal signatures come from equal cone contents. |
| LightCone.SignatureCollision | domain_filters/others/local_statistical_complexity_filter.py:64-79 | A two-digit symbol breaks injectivity: [1, 0] and [10] share "10". |
| LightCone.PastConeEmptyAtTop | domain_filters/others/local_statistical_complexity_filter.py:18-22 | Cells in rows 0 and 1 have an empty past cone and the empty signature. |
| LightCone.StrictFutureEmptyAtBottom | domain_filters/others/local_statistical_complexity_filter.py:24-25 | A future cone that would run past the last row is empty, because partial future cones are refused. |
| LightCone.ConesDefined | domain_filters/others/local_statistical_complexity_filter.py:9-52 | With spread 1 and 1 <= depth <= width+1, the past signature and the future cone of every cell are defined. No IndexError is raised. |
| Corpus.Record | domain_filters/others/local_statistical_complexity_filter.py:93-96 | Recording keeps the corpus valid. An all-zero future changes nothing. A non-zero future is added to its signature's set, and the signature is appended to the insertion order when it is new. No other entry changes. |
| Corpus.CollectContents | domain_filters/others/local_statistical_complexity_filter.py:55-97 | The corpus holds exactly the signatures seen with some non-zero future. Each maps to exactly the set of non-zero futures observed after it, per the reference definition `Observed`. |
| Corpus.CollectOrderPrefix | domain_filters/others/local_statistical_complexity_filter.py:59-96 | Signatures keep the position of their first insertion: the key order of a prefix of the scan is a prefix of the whole order. |
| Corpus.CollectAllZero | domain_filters/others/local_statistical_complexity_filter.py:93-96 | When every future is all zero the corpus stays empty. |
| Corpus.Cells | domain_filters/others/local_statistical_complexity_filter.py:62-63 | The scan visits every in-range cell, only in-range cells, in strictly increasing (t, x) order. |
| Corpus.ObserveAll | domain_filters/others/local_statistical_complexity_filter.py:62-92 | The scan succeeds exactly when every cell's cones are defined. Its i-th observation is that of the i-th cell. |
| Corpus.PastLightcones | domain_filters/others/local_statistical_complexity_filter.py:55-97 | past_lightcones fails exactly when the scan of one of the grids fails. Otherwise it yields a valid corpus: keys distinct, each with a non-empty set of non-zero futures. |
| Corpus.CellObserved | domain_filters/others/local_statistical_complexity_filter.py:60-63 | Every cell of a grid is observed at some position of that grid's scan. |
| Corpus.ZeroGridEmptyCorpus | domain_filters/others/local_statistical_complexity_filter.py:93-96 | An all-zero grid yields the empty corpus. |
| CausalStates.LastMatch | domain_filters/others/local_statistical_complexity_filter.py:129-144 | The result is the last state the candidate is similar to: similar to it, and similar to no later state. None means it is similar to none. |
| CausalStates.StepEffect | domain_filters/others/local_statistical_complexity_filter.py:128-151 | One outer iteration does the following. Each matched state gains the signature as its last member and the candidate's futures by union. Unmatched states are unchanged. The signature is assigned to the last match, or founds a new state exactly when it matched none. Other assignments are unchanged. |
| CausalStates.Cluster | domain_filters/others/local_statistical_complexity_filter.py:124-151 | Every corpus signature is assigned, and there are no more states than signatures. |
| CausalStates.ClusterAssignment | domain_filters/others/local_statistical_complexity_filter.py:128-151 | A signature's assignment is the last state, in creation order, whose member list holds it. It founded that state exactly when every state holding it was founded by it: a founding signature joins no state it did not found. |
| CausalStates.ClusterMembers | domain_filters/others/local_statistical_complexity_filter.py:140-150 | Every member list is non-empty, starts with its founder, has no duplicates and holds only corpus signatures. |
| CausalStates.ClusterMemberships | domain_filters/others/local_statistical_complexity_filter.py:140-150 | There are at least as many memberships as signatures. |
| CausalStates.ProbabilityBounds | domain_filters/others/local_statistical_complexity_filter.py:108-117 | For a clustering of a corpus no division fails, and every state's probability lies in (0, 1]. An empty corpus gives no states. |
| CausalStates.ProbabilityMass | domain_filters/others/local_statistical_complexity_filter.py:108-117 | The probabilities sum to the total number of memberships over the number of signatures. |
| CausalStates.ProbabilityMassAtLeastOne | domain_filters/others/local_statistical_complexity_filter.py:108-117 | The probabilities sum to at least 1. |
| CausalStates.DoubleMembership | domain_filters/others/local_statistical_complexity_filter.py:133-144 | A concrete corpus whose third signature matches both earlier states: it joins both, is assigned to the later one, and three signatures make four memberships. |
| ComplexityFilter.StateTable | domain_filters/others/local_statistical_complexity_filter.py:175-179 | The table has exactly the corpus signatures as keys, each with a value in (0, 1]. |
| ComplexityFilter.StatisticalComplexity | domain_filters/others/local_statistical_complexity_filter.py:160-180 | statistical_complexity fails exactly when past_lightcones fails. Its keys are the corpus keys, and each value lies in (0, 1]. |
| ComplexityFilter.StateTableValue | domain_filters/others/local_statistical_complexity_filter.py:112-116 | A signature's value is the member count of its assigned state over the number of signatures. |
| ComplexityFilter.SameStateSameValue | domain_filters/others/local_statistical_complexity_filter.py:176-179 | Two signatures assigned to the same state get the same value. |
| ComplexityFilter.Paint | domain_filters/others/local_statistical_complexity_filter.py:183-211 | Painting fails exactly when some cell's past cone is undefined. Otherwise the output has the grid's shape, and each cell holds the table lookup of its own past-cone signature. |
| ComplexityFilter.PaintDefined | domain_filters/others/local_statistical_complexity_filter.py:183-211 | With 1 <= depth <= width+1 painting never fails. |
| ComplexityFilter.SelfPaintFinite | domain_filters/others/local_statistical_complexity_filter.py:93-96 | For 1 <= depth <= width+1, learning a table from a grid and painting that grid with it both succeed, and a cell whose future cone holds a non-zero symbol gets a finite value. |
| ComplexityFilter.SelfPaintNegInf | domain_filters/others/local_statistical_complexity_filter.py:208-210 | For 1 <= depth <= width+1, a cell painted minus infinity with its own grid's table has a signature after which the grid shows only all-zero future cones. |
| ComplexityFilter.ZeroGridAllNegInf | domain_filters/others/local_statistical_complexity_filter.py:93-96 | An all-zero grid gives an empty table, and every cell is painted minus infinity. |
| SimpleFilter.AnyRadius | domain_filters/simple.py:26-29 | The loop over radii succeeds exactly when some radius in [lo, hi) has equal neighbours. |
| SimpleFilter.ClassifyLattice | domain_filters/simple.py:16-22 | One verdict per cell. A cell is a domain cell exactly when some radius in [min, max) gives equal windows. |
| SimpleFilter.ClassifySpacetime | domain_filters/simple.py:11-14 | The output has the input's shape, and each lattice is classified on its own. |
| SimpleFilter.EmptyRangeNoDomain | domain_filters/simple.py:26-29 | An empty radius range classifies no cell as a domain cell. |
| SimpleFilter.RightWindowWraps | domain_filters/simple.py:41-62 | The window starting at a cell has radius+1 cells. Its i-th cell is cell (index + i) mod n, wrapping past the end. |
| SimpleFilter.LeftWindowInside | domain_filters/simple.py:34-40 | For radius <= index, the window ending at a cell is the plain slice l[index-radius .. index]. |
| SimpleFilter.InteriorEqual | domain_filters/simple.py:32-48 | Away from both edges, a cell passes with a radius exactly when l[j] = l[j + radius] for every j in the left window. |
| SimpleFilter.LeftAlignedEqual | domain_filters/simple.py:32-48 | For radius <= index, a cell passes exactly when l[j] = l[(j + radius) mod n] for every j in the left window. |
| SimpleFilter.LeftEdgeShortWindow | domain_filters/simple.py:58-62 | For index < radius < n the negative slice start makes the middle slice empty. The left window is then the last radius-index cells, too short to match. |
| SimpleFilter.LeftEdgeNeverDomain | domain_filters/simple.py:24-29 | A cell left of the smallest radius is never a domain cell when every radius tried is below the lattice length. |
| SimpleFilter.FirstCellNeverDomain | domain_filters/simple.py:7-9 | With the default radii 1 and 15, cell 0 of a lattice of at least 15 cells is never a domain cell. |
| SimpleFilter.ConstantLatticeDomain | domain_filters/simple.py:24-29 | In a constant lattice every cell at or right of the smallest radius is a domain cell. |
| FrequencyFilter.RowWindows | frequency_filter.py:11-12 | A row of n cells has max(n-2, 0) unwrapped windows. Window i is the name of cells i, i+1, i+2. |
| FrequencyFilter.Tally | frequency_filter.py:10-14 | Counting fails (KeyError) exactly when a window is not already a key. Otherwise keys are unchanged, and each count grows by that key's occurrences. |
| FrequencyFilter.NeighbourhoodFrequency | frequency_filter.py:6-14 | It fails exactly when some window is not a listed name. Otherwise its keys are exactly the names, and each count is that name's multiplicity among the windows. |
| FrequencyFilter.FrequencyTotal | frequency_filter.py:6-14 | With distinct names, the counts sum to the number of windows. |
| FrequencyFilter.LeftNeighbours | frequency_filter.py:30 | The left-shifted row has the row's length, and cell x holds row[(x-1) mod n]. |
| FrequencyFilter.RightNeighbours | frequency_filter.py:30 | The right-shifted row has the row's length, and cell x holds row[(x+1) mod n]. |
| FrequencyFilter.PeriodicNames | frequency_filter.py:29-32 | There is one name per cell, and name x is that of its cyclic neighbourhood. |
| FrequencyFilter.FilterRow | frequency_filter.py:27-35 | Filtering a row fails for an empty row or a neighbourhood missing from the rule. Otherwise cell x is rule[name of its cyclic neighbourhood]. |
| FrequencyFilter.FilterSpacetime | frequency_filter.py:23-36 | It fails exactly when a neighbourhood is missing or a row is empty. Otherwise the output has the input's shape, and cell (t, x) is the rule applied to its cyclic neighbourhood. |
| FrequencyFilter.BinaryFilter | frequency_filter.py:39-56 | For a binary diagram with non-empty rows the filter never fails. The output has the same shape and is binary. |
| FrequencyFilter.FilteredCellMeaning | frequency_filter.py:39-56 | A filtered cell is 1 exactly when its neighbourhood's count among the unwrapped windows is judged high, and 0 exactly when it is not. |
| Circles.PairwiseCombinations | domain_filters/contours_via_circles.py:6-18 | The offsets are exactly the points of Manhattan length r, each listed once. |
| Circles.PairwiseOrder | domain_filters/contours_via_circles.py:9-17 | Offsets are listed by increasing absolute first coordinate. The first is (0, r) and, for r > 0, the last is (-r, 0). |
| Circles.PairwiseCount | domain_filters/contours_via_circles.py:6-18 | There are no offsets for r < 0, one for r = 0 and 4r for r > 0. |
| Circles.PlacedSound | domain_filters/contours_via_circles.py:28-32 | Every placed point is the centre plus an offset, and in bounds. |
| Circles.PlacedComplete | domain_filters/contours_via_circles.py:28-32 | Every in-bounds centre-plus-offset is placed. |
| Circles.CircularNeighbourhood | domain_filters/contours_via_circles.py:21-33 | The neighbourhood is exactly the in-bounds points within Manhattan distance radius of the centre, each listed once. |
| Circles.NeighbourhoodOrder | domain_filters/contours_via_circles.py:27-33 | Points are listed by non-decreasing distance from the centre. The centre comes first when it is in bounds and radius >= 0. |
| SamplePatterns.Digits | test_on_sample.py:23 | `map(int, ...)` succeeds exactly on a string of ASCII digits. Each value is the digit of its character. |
| SamplePatterns.PatternRowShape | test_on_sample.py:23 | A pattern row is defined exactly when the used characters are digits. Its length is 0 for an empty pattern and max(width, 0) otherwise. Cell j is the digit pattern[j mod |pattern|]. |
| SamplePatterns.SignatureRows | test_on_sample.py:22-23 | The rows of one pass over a signature: defined exactly when every pattern's row is, one row per pattern. |
| SamplePatterns.DomainPatternShape | test_on_sample.py:15-24 | A domain pattern is defined exactly when depth <= 0 or every pattern row is. It has max(depth, 0) rows (none for an empty signature), and row t is the row of pattern t mod k. |
| SamplePatterns.SelectedPatterns | test_on_sample.py:27-39 | There is one background per signature, in order. It fails exactly when one of them fails. |
| SamplePatterns.FillDomains | test_on_sample.py:42-50 | Filling fails exactly when some cell labelled in [0, n) has no background cell there. Otherwise the output has the image's shape. A labelled cell takes its domain's background value, and every other cell is -1. |
| SamplePatterns.FillFromSignatures | test_on_sample.py:80-88 | For digit patterns and an image no larger than the backgrounds, the pipeline succeeds. A cell of domain d gets the digit of the signature pattern for its row at its column, and every other cell is -1. |

## Left out

- Cellular-automaton evolution (`eca`), image I/O, `cv2` thresholding and all plotting and printing: these are I/O, or code outside this core.
- The similarity test of causal_states (`average`, `distance`: the mean future vector and its cosine distance against a threshold) works in floating point. It is a parameter `similar` of the clustering.
- `-log(probability)` in statistical_complexities is left to floating point. Since -log is strictly decreasing, the model keeps the probability itself as a `real`.
- State ids: the source names a state by `hash()` of its founding signature. The model uses the state's creation index. A hash collision between two founders is not modelled.
- relatively_high_frequencies (mean plus standard deviation of the counts) is floating point. The judgement "this count is high" is the parameter `above`, and `HighSet` models the selection that uses it.
- The `display` branch of filter_by_lookup_frequency only prints and plots.
- The angle, segment and gradient code of contours_via_circles.py (label_coordinates_by_segment_number, distance_between_coordinates, gradients_between_circle_halves, detect_contours) is floating point and is not part of this model.
- The Fourier, compression and Kolmogorov filters (lftsf.py, local_ncd_filter.py, local_kolmogorov_complexity_filter.py), the scoring (metric.py, emd.py) and the scripts (app.py, example.py) are not part of this model.
- string_to_array and the `__main__` block of test_on_sample.py: base64 and JSON decoding are I/O. The wiring from lines 80-88 is modelled by `SamplePatterns.FillFromSignatures`.
- SamplePatterns.Digits: Python's `int` applied to one character also accepts non-ASCII decimal digits. The model accepts only ASCII '0'-'9', so such characters fail here although Python would accept them.
- Integer width: symbols and counts are unbounded integers. numpy's fixed-width integer arrays are not modelled, because the symbols are small.
- SamplePatterns.FillDomains: numpy's `where` works on a rectangular array. The model also accepts ragged images and takes each row at its own length.
- FrequencyFilter.FilterSpacetime: numpy's diagram is a rectangular array. The model also accepts ragged rows and filters each row at its own length.
