/**
 The sample builder of `test_on_sample.py`: every domain of an annotated
 sample is given as a pattern signature, a list of digit strings, one per
 time step of the domain's period. A signature is unrolled into a grid of
 `depth` rows of `width` cells, and a segmented image is filled cell by cell
 with the grid of the domain the cell is labelled with.
 */
module SamplePatterns {
  import opened Builtins

  /** A grid of rows, as a list of lists. */
  type Grid = seq<seq<int>>

  /** `list(map(int, s))` over a string: the digits, or a ValueError at the first non-digit. */
  function Digits(s: string): (r: Option<seq<int>>)
    ensures r.Some? <==> forall i :: 0 <= i < |s| ==> '0' <= s[i] <= '9'
    ensures r.Some? ==> |r.value| == |s|
    ensures r.Some? ==> forall i :: 0 <= i < |s| ==> 0 <= r.value[i] < 10 && DigitChar(r.value[i]) == s[i]
    decreases |s|
  {
    if s == [] then Some([])
    else
      var d :- DigitValue(s[0]);
      var rest :- Digits(s[1..]);
      Some([d] + rest)
  }

  /** One row of a domain, `list(map(int, (pattern * width)[:width]))` (line 23). */
  function PatternRow(pattern: string, width: int): Option<seq<int>> {
    Digits(PySlice(Repeat(pattern, width), 0, width))
  }

  /** How many cells a row has: width cells, or none for an empty pattern or width <= 0. */
  function RowLength(pattern: string, width: int): nat {
    if pattern == [] then 0 else Max(width, 0)
  }

  /** The characters of the pattern that the row reads: its first width ones. */
  predicate UsedDigits(pattern: string, width: int) {
    forall i :: 0 <= i < Min(|pattern|, width) ==> '0' <= pattern[i] <= '9'
  }

  /**
   The row repeats the pattern cyclically for width cells; it fails exactly
   when one of the first width characters of the pattern is not a digit.
   */
  lemma PatternRowShape(pattern: string, width: int)
    ensures PatternRow(pattern, width).Some? <==> UsedDigits(pattern, width)
    ensures PatternRow(pattern, width).Some? ==>
              |PatternRow(pattern, width).value| == RowLength(pattern, width)
              && forall j :: 0 <= j < RowLength(pattern, width) ==>
                   0 <= PatternRow(pattern, width).value[j] < 10
                   && DigitChar(PatternRow(pattern, width).value[j]) == pattern[j % |pattern|]
  {
    var s := PySlice(Repeat(pattern, width), 0, width);
    RowCharacters(pattern, width);
    if UsedDigits(pattern, width) {
      forall j | 0 <= j < |s|
        ensures '0' <= s[j] <= '9'
      {
        assert j % |pattern| < Min(|pattern|, width);
      }
    }
    if PatternRow(pattern, width).Some? {
      forall i | 0 <= i < Min(|pattern|, width)
        ensures '0' <= pattern[i] <= '9'
      {
        ModSmall(i, |pattern|);
        assert s[i] == pattern[i];
      }
    }
  }

  /** The characters a row is read from: the pattern repeated cyclically, RowLength of them. */
  lemma RowCharacters(pattern: string, width: int)
    ensures |PySlice(Repeat(pattern, width), 0, width)| == RowLength(pattern, width)
    ensures forall j :: 0 <= j < RowLength(pattern, width) ==>
              PySlice(Repeat(pattern, width), 0, width)[j] == pattern[j % |pattern|] && j % |pattern| <= j
  {
    var repeated := Repeat(pattern, width);
    var s := PySlice(repeated, 0, width);
    if pattern != [] && width > 0 {
      MulLe(width, 1, |pattern|);
      assert |repeated| >= width;
      assert |s| == width;
    } else {
      assert |repeated| == 0;
    }
    forall j | 0 <= j < |s|
      ensures s[j] == pattern[j % |pattern|] && j % |pattern| <= j
    {
      assert s[j] == repeated[j];
      RepeatIndex(pattern, width, j);
      ModBounds(j, |pattern|);
    }
  }

  /** One pass of the inner loop (lines 22-23): a row for every pattern, in order. */
  function SignatureRows(signature: seq<string>, width: int): (r: Option<seq<seq<int>>>)
    ensures r.Some? <==> forall i :: 0 <= i < |signature| ==> PatternRow(signature[i], width).Some?
    ensures r.Some? ==> |r.value| == |signature|
    ensures r.Some? ==> forall i :: 0 <= i < |signature| ==> r.value[i] == PatternRow(signature[i], width).value
    decreases |signature|
  {
    if signature == [] then Some([])
    else
      var row :- PatternRow(signature[0], width);
      var rest :- SignatureRows(signature[1..], width);
      Some([row] + rest)
  }

  /**
   generate_domain_pattern_from_pattern_signature (lines 15-24): depth passes
   over the signature, every pass appending one row per pattern, cut back to
   the first depth rows. The rows of every pass are the same, so a bad
   pattern fails the first pass even when its rows would be cut away; with
   depth <= 0 no row is built and nothing can fail.
   */
  function DomainPattern(width: int, depth: int, signature: seq<string>): Option<seq<seq<int>>> {
    if depth <= 0 then Some([])
    else
      var pass :- SignatureRows(signature, width);
      Some(PySlice(Repeat(pass, depth), 0, depth))
  }

  /**
   The grid has depth rows (none for an empty signature), and row t is the
   row of pattern t mod k of a signature of k patterns.
   */
  lemma DomainPatternShape(width: int, depth: int, signature: seq<string>)
    ensures DomainPattern(width, depth, signature).Some? <==>
              depth <= 0 || forall i :: 0 <= i < |signature| ==> PatternRow(signature[i], width).Some?
    ensures DomainPattern(width, depth, signature).Some? ==>
              |DomainPattern(width, depth, signature).value| == (if signature == [] then 0 else Max(depth, 0))
    ensures DomainPattern(width, depth, signature).Some? ==>
              forall t :: 0 <= t < |DomainPattern(width, depth, signature).value| ==>
                DomainPattern(width, depth, signature).value[t] == PatternRow(signature[t % |signature|], width).value
  {
    if depth > 0 && SignatureRows(signature, width).Some? {
      var pass := SignatureRows(signature, width).value;
      var repeated := Repeat(pass, depth);
      var rows := PySlice(repeated, 0, depth);
      assert |rows| == (if signature == [] then 0 else depth) by {
        if signature != [] {
          MulLe(depth, 1, |pass|);
        }
      }
      forall t | 0 <= t < |rows|
        ensures rows[t] == PatternRow(signature[t % |signature|], width).value
      {
        RepeatIndex(pass, depth, t);
      }
    }
  }

  /**
   generate_selected_domain_patterns (lines 27-39): one grid per signature,
   in order; fails when any signature fails.
   */
  function SelectedPatterns(width: int, depth: int, signatures: seq<seq<string>>): (r: Option<seq<Grid>>)
    ensures r.Some? <==> forall i :: 0 <= i < |signatures| ==> DomainPattern(width, depth, signatures[i]).Some?
    ensures r.Some? ==> |r.value| == |signatures|
    ensures r.Some? ==> forall i :: 0 <= i < |signatures| ==> r.value[i] == DomainPattern(width, depth, signatures[i]).value
    decreases |signatures|
  {
    if signatures == [] then Some([])
    else
      var first :- DomainPattern(width, depth, signatures[0]);
      var rest :- SelectedPatterns(width, depth, signatures[1..]);
      Some([first] + rest)
  }

  /** `background_patterns[domain_label][x][y]`: an IndexError when any index is out of range. */
  function BackgroundAt(background: seq<Grid>, domain: nat, x: nat, y: nat): (r: Option<int>)
    ensures r.Some? <==> domain < |background| && x < |background[domain]| && y < |background[domain][x]|
    ensures r.Some? ==> r.value == background[domain][x][y]
  {
    if domain < |background| && x < |background[domain]| && y < |background[domain][x]| then
      Some(background[domain][x][y])
    else None
  }

  /**
   What fill_domains (lines 42-50) leaves in one cell: the background value
   of its domain when its label is one of the first n, otherwise the -1 of
   `ones_like(...) * -1`.
   */
  function FilledCell(n: int, domain: int, background: seq<Grid>, x: nat, y: nat): Option<int> {
    if 0 <= domain < n then BackgroundAt(background, domain, x, y) else Some(-1)
  }

  /** No labelled cell makes fill_domains raise. */
  predicate Fillable(n: int, segmented: seq<seq<int>>, background: seq<Grid>) {
    forall x, y :: 0 <= x < |segmented| && 0 <= y < |segmented[x]| ==>
      FilledCell(n, segmented[x][y], background, x, y).Some?
  }

  /**
   fill_domains (lines 42-50): an image of the segmentation's shape in which
   every cell labelled with a domain in range(n) takes that domain's
   background value at the same position and every other cell is -1.
   */
  function FillDomains(n: int, segmented: seq<seq<int>>, background: seq<Grid>): (r: Option<seq<seq<int>>>)
    ensures r.Some? <==> forall x, y :: 0 <= x < |segmented| && 0 <= y < |segmented[x]| && 0 <= segmented[x][y] < n ==>
              segmented[x][y] < |background| && x < |background[segmented[x][y]]|
              && y < |background[segmented[x][y]][x]|
    ensures r.Some? ==> SameShape(r.value, segmented)
    ensures r.Some? ==> forall x, y :: 0 <= x < |segmented| && 0 <= y < |segmented[x]| ==>
              r.value[x][y] == (if 0 <= segmented[x][y] < n then background[segmented[x][y]][x][y] else -1)
  {
    if Fillable(n, segmented, background) then
      Some(seq(|segmented|, x requires 0 <= x < |segmented| =>
             seq(|segmented[x]|, y requires 0 <= y < |segmented[x]| =>
               FilledCell(n, segmented[x][y], background, x, y).value)))
    else None
  }

  /**
   The pipeline of lines 80-88: filling a segmentation that fits inside
   depth x width with the grids of its own signatures never fails, and a cell
   labelled d takes the digit of signature d at pattern x mod k, character
   y mod |pattern|.
   */
  lemma FillFromSignatures(width: int, depth: int, signatures: seq<seq<string>>, segmented: seq<seq<int>>)
    returns (filled: Grid)
    requires |segmented| <= depth && forall x :: 0 <= x < |segmented| ==> |segmented[x]| <= width
    requires forall d, i :: 0 <= d < |signatures| && 0 <= i < |signatures[d]| ==>
               signatures[d][i] != [] && UsedDigits(signatures[d][i], width)
    requires forall d :: 0 <= d < |signatures| ==> signatures[d] != []
    ensures SelectedPatterns(width, depth, signatures).Some?
    ensures FillDomains(|signatures|, segmented, SelectedPatterns(width, depth, signatures).value) == Some(filled)
    ensures SameShape(filled, segmented)
    ensures forall x, y :: 0 <= x < |segmented| && 0 <= y < |segmented[x]| && 0 <= segmented[x][y] < |signatures| ==>
              var pattern := signatures[segmented[x][y]][x % |signatures[segmented[x][y]]|];
              0 <= filled[x][y] < 10 && DigitChar(filled[x][y]) == pattern[y % |pattern|]
    ensures forall x, y :: 0 <= x < |segmented| && 0 <= y < |segmented[x]| && !(0 <= segmented[x][y] < |signatures|) ==>
              filled[x][y] == -1
  {
    SignaturesDefined(width, depth, signatures);
    var background := SelectedPatterns(width, depth, signatures).value;
    forall x, y | 0 <= x < |segmented| && 0 <= y < |segmented[x]| && 0 <= segmented[x][y] < |signatures|
      ensures x < |background[segmented[x][y]]| && y < |background[segmented[x][y]][x]|
      ensures var pattern := signatures[segmented[x][y]][x % |signatures[segmented[x][y]]|];
              0 <= background[segmented[x][y]][x][y] < 10
              && DigitChar(background[segmented[x][y]][x][y]) == pattern[y % |pattern|]
    {
      BackgroundCell(width, depth, signatures, segmented[x][y], x, y);
    }
    var r := FillDomains(|signatures|, segmented, background);
    assert r.Some?;
    filled := r.value;
  }

  /** Signatures of non-empty digit patterns all unroll. */
  lemma SignaturesDefined(width: int, depth: int, signatures: seq<seq<string>>)
    requires forall d, i :: 0 <= d < |signatures| && 0 <= i < |signatures[d]| ==>
               signatures[d][i] != [] && UsedDigits(signatures[d][i], width)
    ensures SelectedPatterns(width, depth, signatures).Some?
  {
    forall d | 0 <= d < |signatures|
      ensures DomainPattern(width, depth, signatures[d]).Some?
    {
      forall i | 0 <= i < |signatures[d]|
        ensures PatternRow(signatures[d][i], width).Some?
      {
        PatternRowShape(signatures[d][i], width);
      }
      DomainPatternShape(width, depth, signatures[d]);
    }
  }

  /** Cell (x, y) of the grid unrolled from signature d, inside depth x width. */
  lemma BackgroundCell(width: int, depth: int, signatures: seq<seq<string>>, d: int, x: int, y: int)
    requires 0 <= d < |signatures| && signatures[d] != []
    requires 0 <= x < depth && 0 <= y < width
    requires SelectedPatterns(width, depth, signatures).Some?
    requires forall i :: 0 <= i < |signatures[d]| ==> signatures[d][i] != [] && UsedDigits(signatures[d][i], width)
    ensures var background := SelectedPatterns(width, depth, signatures).value;
            var pattern := signatures[d][x % |signatures[d]|];
            && x < |background[d]| && y < |background[d][x]|
            && 0 <= background[d][x][y] < 10
            && DigitChar(background[d][x][y]) == pattern[y % |pattern|]
  {
    var background := SelectedPatterns(width, depth, signatures).value;
    var signature := signatures[d];
    DomainPatternShape(width, depth, signature);
    var k := x % |signature|;
    ModBounds(x, |signature|);
    var pattern := signature[k];
    PatternRowShape(pattern, width);
    assert background[d] == DomainPattern(width, depth, signature).value;
    assert background[d][x] == PatternRow(pattern, width).value;
  }
}
